/**
 * `PlayerQueryService`: turns a `PlayerCriteria` into a specification over the
 * player table and runs it as a list, a page or a count.
 */
module PlayerQueries {
  import opened Wrappers
  import opened Filters
  import opened Specifications
  import opened Domain
  import opened Criteria

  /** The columns the player specification addresses, one per criteria field. */
  datatype PlayerColumn = Id | Name | BirthDate | Height | Weight | Baskets | Assists | TeamId

  /** The columns in the declaration order of the criteria's fields. */
  const PlayerColumns: seq<PlayerColumn> := [Id, Name, BirthDate, Height, Weight, Baskets, Assists, TeamId]

  /** A column's place in that order. */
  function Position(c: PlayerColumn): int
  {
    match c
    case Id => 0
    case Name => 1
    case BirthDate => 2
    case Height => 3
    case Weight => 4
    case Baskets => 5
    case Assists => 6
    case TeamId => 7
  }

  function Lift<T>(x: Option<T>, f: T -> Value): Option<Value>
  {
    if x.Some? then Some(f(x.value)) else None
  }

  /**
   * The value a player row shows in a column. `TeamId` is the id of the team
   * reached through a LEFT join on the player's team: a player without a team
   * keeps its row, with a null team id.
   */
  function PlayerValue(p: Player, c: PlayerColumn): Option<Value>
  {
    match c
    case Id => Lift(p.id, n => Whole(n))
    case Name => Lift(p.name, s => Text(s))
    case BirthDate => Lift(p.birthDate, d => Date(d))
    case Height => Lift(p.height, b => Float64(b))
    case Weight => Lift(p.weight, b => Float64(b))
    case Baskets => Lift(p.baskets, n => Whole(n))
    case Assists => Lift(p.assists, n => Whole(n))
    case TeamId => Lift(p.team, n => Whole(n))
  }

  function Row(p: Player): PlayerColumn -> Option<Value>
  {
    c => PlayerValue(p, c)
  }

  /**
   * Reference definition of `createSpecification`: nothing for a null
   * criteria; otherwise the `distinct` step when the flag is non-null, then one
   * step per non-null filter field in declaration order.
   */
  function SpecificationOf(criteria: PlayerCriteria?): seq<Step<PlayerColumn>>
    reads criteria
  {
    if criteria == null then []
    else DistinctStep(criteria.distinct) + Select(PlayerColumns, criteria.FieldFilters())
  }

  /** `createSpecification`: starts from `where(null)` and ANDs in one step per non-null field. */
  method CreateSpecification(criteria: PlayerCriteria?) returns (spec: seq<Step<PlayerColumn>>)
    ensures spec == SpecificationOf(criteria)
    ensures criteria == null ==> spec == []
    ensures criteria != null && criteria.distinct.Some? ==> spec[0] == Distinct(criteria.distinct.value)
    ensures forall i :: 0 < i < |spec| ==> spec[i].Where?
  {
    spec := [];
    if criteria != null {
      // the distinct specification has to come first: its predicate is null
      if criteria.distinct.Some? {
        spec := spec + [Distinct(criteria.distinct.value)];
      }
      assert spec == DistinctStep(criteria.distinct);
      spec := AndIfPresent(spec, criteria.id, Id);
      spec := AndIfPresent(spec, criteria.name, Name);
      spec := AndIfPresent(spec, criteria.birthDate, BirthDate);
      spec := AndIfPresent(spec, criteria.height, Height);
      spec := AndIfPresent(spec, criteria.weight, Weight);
      spec := AndIfPresent(spec, criteria.baskets, Baskets);
      spec := AndIfPresent(spec, criteria.assists, Assists);
      spec := AndIfPresent(spec, criteria.teamId, TeamId);
      ghost var fs := criteria.FieldFilters();
      AndEachEight(DistinctStep(criteria.distinct), Id, Name, BirthDate, Height, Weight, Baskets, Assists, TeamId,
        fs[0], fs[1], fs[2], fs[3], fs[4], fs[5], fs[6], fs[7]);
      AndEachAppends(DistinctStep(criteria.distinct), PlayerColumns, fs);
      SelectSteps(PlayerColumns, criteria.FieldFilters());
    }
  }

  // ---------------------------------------------------------------------------
  // Running the specification against the player table

  /** The rows of the player table a specification returns, in table order; `distinct` removes repeats. */
  function FindAll(players: seq<Player>, spec: seq<Step<PlayerColumn>>, satisfies: Satisfies): seq<Player>
  {
    var matching := Keep(players, (p: Player) => Holds(spec, Row(p), satisfies));
    if DistinctFlag(spec) then Dedupe(matching) else matching
  }

  /** The count query: matching rows, or distinct matching rows under `distinct`. */
  function Count(players: seq<Player>, spec: seq<Step<PlayerColumn>>, satisfies: Satisfies): nat
  {
    var test := (p: Player) => Holds(spec, Row(p), satisfies);
    if DistinctFlag(spec) then |set p | p in players && test(p)| else CountWhere(players, test)
  }

  /** `findByCriteria(criteria)`: the list of matching players. */
  method FindByCriteria(players: seq<Player>, criteria: PlayerCriteria?, satisfies: Satisfies) returns (result: seq<Player>)
    ensures result == FindAll(players, SpecificationOf(criteria), satisfies)
    ensures forall p :: p in result ==> p in players && Holds(SpecificationOf(criteria), Row(p), satisfies)
  {
    var spec := CreateSpecification(criteria);
    result := FindAll(players, spec, satisfies);
  }

  /** `findByCriteria(criteria, page)`: one page of the same list, and the total. Sorting is not modelled. */
  method FindPageByCriteria(players: seq<Player>, criteria: PlayerCriteria?, number: nat, size: nat, satisfies: Satisfies)
    returns (page: Page<Player>)
    requires size > 0
    ensures page.content == Window(FindAll(players, SpecificationOf(criteria), satisfies), number, size)
    ensures page.totalElements == |FindAll(players, SpecificationOf(criteria), satisfies)|
  {
    var spec := CreateSpecification(criteria);
    var all := FindAll(players, spec, satisfies);
    CountAgreesWithList(players, spec, satisfies);
    page := Page(Window(all, number, size), Count(players, spec, satisfies));
  }

  /** `countByCriteria(criteria)`: the number of matching players. */
  method CountByCriteria(players: seq<Player>, criteria: PlayerCriteria?, satisfies: Satisfies) returns (n: nat)
    ensures n == Count(players, SpecificationOf(criteria), satisfies)
    ensures n == |FindAll(players, SpecificationOf(criteria), satisfies)|
  {
    var spec := CreateSpecification(criteria);
    CountAgreesWithList(players, spec, satisfies);
    n := Count(players, spec, satisfies);
  }

  // ---------------------------------------------------------------------------
  // What the specification means

  /** The count query counts exactly the rows the list query returns. */
  lemma CountAgreesWithList(players: seq<Player>, spec: seq<Step<PlayerColumn>>, satisfies: Satisfies)
    ensures Count(players, spec, satisfies) == |FindAll(players, spec, satisfies)|
  {
    var test := (p: Player) => Holds(spec, Row(p), satisfies);
    var matching := Keep(players, test);
    if DistinctFlag(spec) {
      DedupeLength(matching);
      assert Elements(matching) == set p | p in players && test(p);
    } else {
      CountWhereIsKeptLength(players, test);
    }
  }

  /** A null criteria builds the match-everything specification: the list is the whole table. */
  lemma NullCriteriaMatchesAll(players: seq<Player>, satisfies: Satisfies)
    ensures SpecificationOf(null) == []
    ensures FindAll(players, SpecificationOf(null), satisfies) == players
  {
    KeepEverything(players, (p: Player) => Holds([], Row(p), satisfies));
  }

  /** A criteria with every field null adds no condition: every row matches. */
  lemma EmptyCriteriaMatchesAll(players: seq<Player>, criteria: PlayerCriteria, satisfies: Satisfies)
    requires criteria.FieldFilters() == NoFilters && criteria.distinct.None?
    ensures SpecificationOf(criteria) == []
    ensures FindAll(players, SpecificationOf(criteria), satisfies) == players
  {
    SelectAllNull(PlayerColumns, criteria.FieldFilters());
    NullCriteriaMatchesAll(players, satisfies);
  }

  /**
   * Each non-null field contributes exactly one step, carrying its filter, on
   * its own column, and a null field contributes none.
   */
  lemma OneStepPerField(criteria: PlayerCriteria, k: nat)
    requires k < |PlayerColumns|
    ensures FiltersOn(SpecificationOf(criteria), PlayerColumns[k]) ==
      if criteria.FieldFilters()[k].Some? then [criteria.FieldFilters()[k].value] else []
  {
    var d := DistinctStep<PlayerColumn>(criteria.distinct);
    SelectOnePerField(PlayerColumns, criteria.FieldFilters(), k);
    FiltersOnAppend(d, Select(PlayerColumns, criteria.FieldFilters()), PlayerColumns[k]);
  }

  /**
   * The filter class each column is built from: `buildStringSpecification`
   * for the name, the range builder for the numbers and the date, and the
   * plain builder for the team id.
   */
  function ColumnKind(c: PlayerColumn): FilterKind
  {
    FieldKinds[Position(c)]
  }

  /**
   * On a criteria whose fields hold filters of their declared classes, every
   * step carries a filter of the class its column's builder expects.
   */
  lemma FilterKindsMatchColumns(criteria: PlayerCriteria)
    requires criteria.Valid()
    ensures forall s :: s in SpecificationOf(criteria) && s.Where? ==> s.filter.kind == ColumnKind(s.column)
  {
    assert forall i :: 0 <= i < |PlayerColumns| ==> ColumnKind(PlayerColumns[i]) == FieldKinds[i];
    SelectKeepsKinds(PlayerColumns, criteria.FieldFilters(), ColumnKind);
  }

  /**
   * The field steps follow the declaration order id, name, birthDate, height,
   * weight, baskets, assists, teamId, after the `distinct` step if there is one.
   */
  lemma StepsInDeclarationOrder(criteria: PlayerCriteria)
    ensures var steps := SpecificationOf(criteria);
      forall i, j :: 0 <= i < j < |steps| && steps[i].Where? ==>
        steps[j].Where? && Position(steps[i].column) < Position(steps[j].column)
  {
    var fields := Select(PlayerColumns, criteria.FieldFilters());
    var d := DistinctStep<PlayerColumn>(criteria.distinct);
    var steps := d + fields;
    SelectKeepsOrder(PlayerColumns, criteria.FieldFilters(), Position);
    forall i, j | 0 <= i < j < |steps| && steps[i].Where?
      ensures steps[j].Where? && Position(steps[i].column) < Position(steps[j].column)
    {
      assert i >= |d|;
      assert steps[i] == fields[i - |d|] && steps[j] == fields[j - |d|];
    }
  }

  /**
   * A player is listed exactly when it is in the table and every non-null
   * filter of the criteria accepts the player's value in that filter's column;
   * `distinct` puts no condition on the row.
   */
  lemma MatchesEveryPresentFilter(players: seq<Player>, criteria: PlayerCriteria, p: Player, satisfies: Satisfies)
    ensures p in FindAll(players, SpecificationOf(criteria), satisfies) <==>
      p in players &&
      forall k :: 0 <= k < |PlayerColumns| && criteria.FieldFilters()[k].Some? ==>
        satisfies(criteria.FieldFilters()[k].value, PlayerValue(p, PlayerColumns[k]))
  {
    DistinctAddsNoCondition(criteria.distinct, Select(PlayerColumns, criteria.FieldFilters()), Row(p), satisfies);
    SelectMeaning(PlayerColumns, criteria.FieldFilters(), Row(p), satisfies);
  }

  /**
   * Setting more filters never lets more players through: if `more` keeps
   * every filter `fewer` sets, everything `more` lists is listed by `fewer`.
   */
  lemma MoreFiltersFewerPlayers(players: seq<Player>, fewer: PlayerCriteria, more: PlayerCriteria, satisfies: Satisfies)
    requires forall k :: 0 <= k < |PlayerColumns| && fewer.FieldFilters()[k].Some? ==> more.FieldFilters()[k] == fewer.FieldFilters()[k]
    ensures forall p :: p in FindAll(players, SpecificationOf(more), satisfies) ==> p in FindAll(players, SpecificationOf(fewer), satisfies)
  {
    forall p | p in FindAll(players, SpecificationOf(more), satisfies)
      ensures p in FindAll(players, SpecificationOf(fewer), satisfies)
    {
      DistinctAddsNoCondition(more.distinct, Select(PlayerColumns, more.FieldFilters()), Row(p), satisfies);
      DistinctAddsNoCondition(fewer.distinct, Select(PlayerColumns, fewer.FieldFilters()), Row(p), satisfies);
      MoreFieldsNarrow(PlayerColumns, fewer.FieldFilters(), more.FieldFilters(), Row(p), satisfies);
    }
  }

  /**
   * The team filter goes through a LEFT join: a player without a team is not
   * dropped by the join but judged with a null team id, like any other value.
   */
  lemma TeamlessPlayerJudgedOnNull(players: seq<Player>, criteria: PlayerCriteria, p: Player, satisfies: Satisfies)
    requires p in players && p.team.None? && criteria.teamId.Some?
    requires forall k :: 0 <= k < 7 && criteria.FieldFilters()[k].Some? ==>
      satisfies(criteria.FieldFilters()[k].value, PlayerValue(p, PlayerColumns[k]))
    ensures p in FindAll(players, SpecificationOf(criteria), satisfies) <==> satisfies(criteria.teamId.value, None)
  {
    MatchesEveryPresentFilter(players, criteria, p, satisfies);
    assert criteria.FieldFilters()[7] == criteria.teamId && PlayerValue(p, PlayerColumns[7]) == None;
  }

  /**
   * A team filter that accepts exactly the null id (what `teamId.specified=false`
   * asks for), and no other filter, lists exactly the players without a team.
   */
  lemma UnspecifiedTeamSelectsTeamless(players: seq<Player>, criteria: PlayerCriteria, satisfies: Satisfies)
    requires criteria.FieldFilters() == NoFilters[7 := criteria.teamId] && criteria.teamId.Some?
    requires forall v :: satisfies(criteria.teamId.value, v) <==> v.None?
    ensures forall p :: p in FindAll(players, SpecificationOf(criteria), satisfies) <==> p in players && p.team.None?
  {
    forall p
      ensures p in FindAll(players, SpecificationOf(criteria), satisfies) <==> p in players && p.team.None?
    {
      MatchesEveryPresentFilter(players, criteria, p, satisfies);
      assert criteria.FieldFilters()[7] == criteria.teamId;
      assert PlayerValue(p, PlayerColumns[7]).None? <==> p.team.None?;
    }
  }

  /** Criteria that `equals` calls equal build the same specification, so they list the same players. */
  lemma EqualCriteriaListAlike(players: seq<Player>, a: PlayerCriteria, b: PlayerCriteria, satisfies: Satisfies)
    requires a.Equals(b)
    ensures SpecificationOf(a) == SpecificationOf(b)
    ensures FindAll(players, SpecificationOf(a), satisfies) == FindAll(players, SpecificationOf(b), satisfies)
  {
  }

  /** The list, page and count entry points build the same specification, so they agree with each other. */
  lemma EntryPointsAgree(players: seq<Player>, criteria: PlayerCriteria?, number: nat, size: nat, satisfies: Satisfies)
    requires size > 0
    ensures var all := FindAll(players, SpecificationOf(criteria), satisfies);
      Count(players, SpecificationOf(criteria), satisfies) == |all| &&
      forall p :: p in Window(all, number, size) ==> p in all
  {
    CountAgreesWithList(players, SpecificationOf(criteria), satisfies);
  }
}
