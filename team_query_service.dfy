/**
 * `TeamQueryService`: turns a team criteria into a specification over the team
 * table and runs it as a list, a page or a count. The `playerId` filter reaches
 * the team's players through a LEFT join, which repeats a team once per player.
 */
module TeamQueries {
  import opened Wrappers
  import opened Filters
  import opened Specifications
  import opened Domain

  /** The columns the team specification addresses, one per criteria field. */
  datatype TeamColumn = Id | Name | City | PlayerId

  /** The columns in the order the fields are added. */
  const TeamColumns: seq<TeamColumn> := [Id, Name, City, PlayerId]

  /** A column's place in that order. */
  function Position(c: TeamColumn): int
  {
    match c
    case Id => 0
    case Name => 1
    case City => 2
    case PlayerId => 3
  }

  /**
   * The team criteria as the query service reads it: a `LongFilter` on the id,
   * `StringFilter`s on name and city, a `LongFilter` on the id of a player of
   * the team, and the `distinct` flag; `None` is a null field.
   */
  datatype TeamCriteria = TeamCriteria(
    id: Option<Filter>,
    name: Option<Filter>,
    city: Option<Filter>,
    playerId: Option<Filter>,
    distinct: Option<bool>)
  {
    /** The filter fields in the order of `TeamColumns`. */
    function FieldFilters(): (fs: seq<Option<Filter>>)
      ensures |fs| == |TeamColumns|
    {
      [id, name, city, playerId]
    }
  }

  /**
   * Reference definition of `createSpecification`: nothing for a null
   * criteria; otherwise the `distinct` step when the flag is non-null, then one
   * step per non-null field in the order id, name, city, playerId.
   */
  function SpecificationOf(criteria: Option<TeamCriteria>): seq<Step<TeamColumn>>
  {
    if criteria.None? then []
    else DistinctStep(criteria.value.distinct) + Select(TeamColumns, criteria.value.FieldFilters())
  }

  /** `createSpecification`: starts from `where(null)` and ANDs in one step per non-null field. */
  method CreateSpecification(criteria: Option<TeamCriteria>) returns (spec: seq<Step<TeamColumn>>)
    ensures spec == SpecificationOf(criteria)
    ensures criteria.None? ==> spec == []
    ensures criteria.Some? && criteria.value.distinct.Some? ==> spec[0] == Distinct(criteria.value.distinct.value)
    ensures forall i :: 0 < i < |spec| ==> spec[i].Where?
  {
    spec := [];
    if criteria.Some? {
      var c := criteria.value;
      // the distinct specification has to come first: its predicate is null
      if c.distinct.Some? {
        spec := spec + [Distinct(c.distinct.value)];
      }
      assert spec == DistinctStep(c.distinct);
      spec := AndIfPresent(spec, c.id, Id);
      spec := AndIfPresent(spec, c.name, Name);
      spec := AndIfPresent(spec, c.city, City);
      spec := AndIfPresent(spec, c.playerId, PlayerId);
      AndEachFour(DistinctStep(c.distinct), Id, Name, City, PlayerId, c.id, c.name, c.city, c.playerId);
      AndEachAppends(DistinctStep(c.distinct), TeamColumns, c.FieldFilters());
      SelectSteps(TeamColumns, c.FieldFilters());
    }
  }

  // ---------------------------------------------------------------------------
  // The LEFT join to the team's players

  /** The players whose team is `t`; a team without an id has none. */
  function PlayersOf(t: Team, players: seq<Player>): (ps: seq<Player>)
    ensures forall p :: p in ps <==> p in players && t.id.Some? && p.team == t.id
  {
    Keep(players, (p: Player) => t.id.Some? && p.team == t.id)
  }

  /**
   * The player ids the LEFT join from `t` yields: one per player of the team,
   * or a single null when the team has no players, so the team keeps a row.
   */
  function LeftJoin(t: Team, players: seq<Player>): (ids: seq<Option<int>>)
    ensures |ids| > 0
    ensures PlayersOf(t, players) == [] ==> ids == [None]
    ensures forall p :: p in PlayersOf(t, players) ==> p.id in ids
    ensures PlayersOf(t, players) != [] ==>
      forall v :: v in ids ==> exists p :: p in PlayersOf(t, players) && p.id == v
    ensures PlayersOf(t, players) != [] ==>
      |ids| == |PlayersOf(t, players)| && forall k :: 0 <= k < |ids| ==> ids[k] == PlayersOf(t, players)[k].id
  {
    var ps := PlayersOf(t, players);
    if ps == [] then [None]
    else
      var ids := seq(|ps|, i requires 0 <= i < |ps| => ps[i].id);
      assert forall k :: 0 <= k < |ps| ==> ids[k] == ps[k].id;
      ids
  }

  /** The rows a team stands for in the query: joined to its players only when `playerId` is filtered. */
  function JoinedRows(t: Team, players: seq<Player>, spec: seq<Step<TeamColumn>>): seq<Option<int>>
  {
    if Mentions(spec, PlayerId) then LeftJoin(t, players) else [None]
  }

  /** The value a (team, joined player id) row shows in a column. */
  function TeamValue(t: Team, player: Option<int>, c: TeamColumn): Option<Value>
  {
    match c
    case Id => if t.id.Some? then Some(Whole(t.id.value)) else None
    case Name => if t.name.Some? then Some(Text(t.name.value)) else None
    case City => if t.city.Some? then Some(Text(t.city.value)) else None
    case PlayerId => if player.Some? then Some(Whole(player.value)) else None
  }

  function Row(t: Team, player: Option<int>): TeamColumn -> Option<Value>
  {
    c => TeamValue(t, player, c)
  }

  /** How many of a team's joined rows pass the specification. */
  function Emitted(t: Team, players: seq<Player>, spec: seq<Step<TeamColumn>>, satisfies: Satisfies): nat
  {
    CountWhere(JoinedRows(t, players, spec), (v: Option<int>) => Holds(spec, Row(t, v), satisfies))
  }

  /** Whether some joined row of the team passes the specification. */
  predicate Passes(t: Team, players: seq<Player>, spec: seq<Step<TeamColumn>>, satisfies: Satisfies)
  {
    exists v :: v in JoinedRows(t, players, spec) && Holds(spec, Row(t, v), satisfies)
  }

  /** The selected root entities, one per passing joined row, in table order. */
  function Joined(teams: seq<Team>, players: seq<Player>, spec: seq<Step<TeamColumn>>, satisfies: Satisfies): seq<Team>
  {
    if teams == [] then []
    else seq(Emitted(teams[0], players, spec, satisfies), _ => teams[0]) + Joined(teams[1..], players, spec, satisfies)
  }

  /** The team list a specification returns; `distinct` removes the repeats the join makes. */
  function FindAll(teams: seq<Team>, players: seq<Player>, spec: seq<Step<TeamColumn>>, satisfies: Satisfies): seq<Team>
  {
    var joined := Joined(teams, players, spec, satisfies);
    if DistinctFlag(spec) then Dedupe(joined) else joined
  }

  /** The number of passing joined rows, team by team. */
  function JoinedCount(teams: seq<Team>, players: seq<Player>, spec: seq<Step<TeamColumn>>, satisfies: Satisfies): nat
  {
    if teams == [] then 0
    else Emitted(teams[0], players, spec, satisfies) + JoinedCount(teams[1..], players, spec, satisfies)
  }

  /** The count query: passing joined rows, or distinct passing teams under `distinct`. */
  function Count(teams: seq<Team>, players: seq<Player>, spec: seq<Step<TeamColumn>>, satisfies: Satisfies): nat
  {
    if DistinctFlag(spec) then |set t | t in teams && Passes(t, players, spec, satisfies)|
    else JoinedCount(teams, players, spec, satisfies)
  }

  /** `findByCriteria(criteria)`: the list of matching teams. */
  method FindByCriteria(teams: seq<Team>, players: seq<Player>, criteria: Option<TeamCriteria>, satisfies: Satisfies)
    returns (result: seq<Team>)
    ensures result == FindAll(teams, players, SpecificationOf(criteria), satisfies)
    ensures forall t :: t in result <==> t in teams && Passes(t, players, SpecificationOf(criteria), satisfies)
  {
    var spec := CreateSpecification(criteria);
    result := FindAll(teams, players, spec, satisfies);
    forall t
      ensures t in result <==> t in teams && Passes(t, players, spec, satisfies)
    {
      JoinedMembership(teams, players, spec, satisfies, t);
    }
  }

  /** `findByCriteria(criteria, page)`: one page of the same list, and the total. Sorting is not modelled. */
  method FindPageByCriteria(teams: seq<Team>, players: seq<Player>, criteria: Option<TeamCriteria>, number: nat, size: nat, satisfies: Satisfies)
    returns (page: Page<Team>)
    requires size > 0
    ensures page.content == Window(FindAll(teams, players, SpecificationOf(criteria), satisfies), number, size)
    ensures page.totalElements == |FindAll(teams, players, SpecificationOf(criteria), satisfies)|
  {
    var spec := CreateSpecification(criteria);
    var all := FindAll(teams, players, spec, satisfies);
    CountAgreesWithList(teams, players, spec, satisfies);
    page := Page(Window(all, number, size), Count(teams, players, spec, satisfies));
  }

  /** `countByCriteria(criteria)`: the number of matching rows. */
  method CountByCriteria(teams: seq<Team>, players: seq<Player>, criteria: Option<TeamCriteria>, satisfies: Satisfies)
    returns (n: nat)
    ensures n == Count(teams, players, SpecificationOf(criteria), satisfies)
    ensures n == |FindAll(teams, players, SpecificationOf(criteria), satisfies)|
  {
    var spec := CreateSpecification(criteria);
    CountAgreesWithList(teams, players, spec, satisfies);
    n := Count(teams, players, spec, satisfies);
  }

  // ---------------------------------------------------------------------------
  // What the specification means

  /** A team is selected, at least once, exactly when it is in the table and one of its joined rows passes. */
  lemma {:induction false} JoinedMembership(teams: seq<Team>, players: seq<Player>, spec: seq<Step<TeamColumn>>, satisfies: Satisfies, t: Team)
    ensures t in Joined(teams, players, spec, satisfies) <==> t in teams && Passes(t, players, spec, satisfies)
    decreases |teams|
  {
    if teams != [] {
      var head := teams[0];
      JoinedMembership(teams[1..], players, spec, satisfies, t);
      CountWherePositive(JoinedRows(head, players, spec), (v: Option<int>) => Holds(spec, Row(head, v), satisfies));
      var n := Emitted(head, players, spec, satisfies);
      var run := seq(n, _ => head);
      assert Joined(teams, players, spec, satisfies) == run + Joined(teams[1..], players, spec, satisfies);
      assert forall i :: 0 <= i < n ==> run[i] == head;
      if n > 0 {
        assert run[0] == head;
      }
      assert t in teams <==> t == head || t in teams[1..];
    }
  }

  /** The joined list is as long as the number of passing joined rows. */
  lemma {:induction false} JoinedLength(teams: seq<Team>, players: seq<Player>, spec: seq<Step<TeamColumn>>, satisfies: Satisfies)
    ensures |Joined(teams, players, spec, satisfies)| == JoinedCount(teams, players, spec, satisfies)
    decreases |teams|
  {
    if teams != [] {
      JoinedLength(teams[1..], players, spec, satisfies);
    }
  }

  /** The count query counts exactly the rows the list query returns. */
  lemma CountAgreesWithList(teams: seq<Team>, players: seq<Player>, spec: seq<Step<TeamColumn>>, satisfies: Satisfies)
    ensures Count(teams, players, spec, satisfies) == |FindAll(teams, players, spec, satisfies)|
  {
    var joined := Joined(teams, players, spec, satisfies);
    if DistinctFlag(spec) {
      DedupeLength(joined);
      forall t
        ensures t in Elements(joined) <==> t in teams && Passes(t, players, spec, satisfies)
      {
        JoinedMembership(teams, players, spec, satisfies, t);
      }
      assert Elements(joined) == set t | t in teams && Passes(t, players, spec, satisfies);
    } else {
      JoinedLength(teams, players, spec, satisfies);
    }
  }

  /** A null criteria builds the match-everything specification: the list is the whole table. */
  lemma {:induction false} NullCriteriaMatchesAll(teams: seq<Team>, players: seq<Player>, satisfies: Satisfies)
    ensures SpecificationOf(None) == []
    ensures FindAll(teams, players, SpecificationOf(None), satisfies) == teams
    decreases |teams|
  {
    if teams != [] {
      NullCriteriaMatchesAll(teams[1..], players, satisfies);
      assert JoinedRows(teams[0], players, []) == [None];
      var nulls: seq<Option<int>> := [None];
      assert nulls[..0] == [];
      assert Emitted(teams[0], players, [], satisfies) == 1;
      assert teams == [teams[0]] + teams[1..];
    }
  }

  /**
   * A criteria with every field null adds no condition and makes no join:
   * every team is listed, once.
   */
  lemma EmptyCriteriaMatchesAll(teams: seq<Team>, players: seq<Player>, criteria: TeamCriteria, satisfies: Satisfies)
    requires criteria.FieldFilters() == [None, None, None, None] && criteria.distinct.None?
    ensures SpecificationOf(Some(criteria)) == []
    ensures FindAll(teams, players, SpecificationOf(Some(criteria)), satisfies) == teams
  {
    SelectAllNull(TeamColumns, criteria.FieldFilters());
    NullCriteriaMatchesAll(teams, players, satisfies);
  }

  /** Each non-null field contributes exactly one step, carrying its filter, on its own column; a null field none. */
  lemma OneStepPerField(criteria: TeamCriteria, k: nat)
    requires k < |TeamColumns|
    ensures FiltersOn(SpecificationOf(Some(criteria)), TeamColumns[k]) ==
      if criteria.FieldFilters()[k].Some? then [criteria.FieldFilters()[k].value] else []
  {
    var d := DistinctStep<TeamColumn>(criteria.distinct);
    SelectOnePerField(TeamColumns, criteria.FieldFilters(), k);
    FiltersOnAppend(d, Select(TeamColumns, criteria.FieldFilters()), TeamColumns[k]);
  }

  /** The field steps follow the order id, name, city, playerId, after the `distinct` step if there is one. */
  lemma StepsInDeclarationOrder(criteria: TeamCriteria)
    ensures var steps := SpecificationOf(Some(criteria));
      forall i, j :: 0 <= i < j < |steps| && steps[i].Where? ==>
        steps[j].Where? && Position(steps[i].column) < Position(steps[j].column)
  {
    var fields := Select(TeamColumns, criteria.FieldFilters());
    var d := DistinctStep<TeamColumn>(criteria.distinct);
    var steps := d + fields;
    SelectKeepsOrder(TeamColumns, criteria.FieldFilters(), Position);
    forall i, j | 0 <= i < j < |steps| && steps[i].Where?
      ensures steps[j].Where? && Position(steps[i].column) < Position(steps[j].column)
    {
      assert i >= |d|;
      assert steps[i] == fields[i - |d|] && steps[j] == fields[j - |d|];
    }
  }

  /** The model makes the join to the players exactly when the `playerId` filter is non-null. */
  lemma JoinOnlyForPlayerFilter(criteria: TeamCriteria, t: Team, players: seq<Player>)
    ensures JoinedRows(t, players, SpecificationOf(Some(criteria))) ==
      if criteria.playerId.Some? then LeftJoin(t, players) else [None]
  {
    OneStepPerField(criteria, 3);
    MentionsWhenFiltered(SpecificationOf(Some(criteria)), PlayerId);
  }

  /** Every non-null filter of the criteria accepts the value of a (team, joined player id) row in its column. */
  predicate AcceptsRow(criteria: TeamCriteria, t: Team, v: Option<int>, satisfies: Satisfies)
  {
    forall k :: 0 <= k < |TeamColumns| && criteria.FieldFilters()[k].Some? ==>
      satisfies(criteria.FieldFilters()[k].value, TeamValue(t, v, TeamColumns[k]))
  }

  /**
   * A team is listed exactly when it is in the table and every non-null
   * filter accepts one of its joined rows; `distinct` puts no condition on
   * the row.
   */
  lemma MatchesEveryPresentFilter(teams: seq<Team>, players: seq<Player>, criteria: TeamCriteria, t: Team, satisfies: Satisfies)
    ensures t in FindAll(teams, players, SpecificationOf(Some(criteria)), satisfies) <==>
      t in teams &&
      exists v :: v in JoinedRows(t, players, SpecificationOf(Some(criteria))) && AcceptsRow(criteria, t, v, satisfies)
  {
    var spec := SpecificationOf(Some(criteria));
    JoinedMembership(teams, players, spec, satisfies, t);
    forall v
      ensures Holds(spec, Row(t, v), satisfies) <==> AcceptsRow(criteria, t, v, satisfies)
    {
      DistinctAddsNoCondition(criteria.distinct, Select(TeamColumns, criteria.FieldFilters()), Row(t, v), satisfies);
      SelectMeaning(TeamColumns, criteria.FieldFilters(), Row(t, v), satisfies);
    }
  }

  /**
   * A row `more` accepts is accepted by `fewer`, which sets a subset of its
   * filters, on any row of the same team that agrees on the player id when
   * `fewer` filters it: the other columns do not depend on the player.
   */
  lemma AcceptsFewer(fewer: TeamCriteria, more: TeamCriteria, t: Team, v: Option<int>, w: Option<int>, satisfies: Satisfies)
    requires forall k :: 0 <= k < |TeamColumns| && fewer.FieldFilters()[k].Some? ==> more.FieldFilters()[k] == fewer.FieldFilters()[k]
    requires AcceptsRow(more, t, v, satisfies)
    requires fewer.playerId.Some? ==> w == v
    ensures AcceptsRow(fewer, t, w, satisfies)
  {
    forall k | 0 <= k < |TeamColumns| && fewer.FieldFilters()[k].Some?
      ensures satisfies(fewer.FieldFilters()[k].value, TeamValue(t, w, TeamColumns[k]))
    {
      assert more.FieldFilters()[k] == fewer.FieldFilters()[k];
      if k < 3 {
        assert TeamValue(t, w, TeamColumns[k]) == TeamValue(t, v, TeamColumns[k]);
      }
    }
  }

  /**
   * Setting more filters never lets more teams through: if `more` keeps every
   * filter `fewer` sets, everything `more` lists is listed by `fewer`.
   */
  lemma MoreFiltersFewerTeams(teams: seq<Team>, players: seq<Player>, fewer: TeamCriteria, more: TeamCriteria, satisfies: Satisfies)
    requires forall k :: 0 <= k < |TeamColumns| && fewer.FieldFilters()[k].Some? ==> more.FieldFilters()[k] == fewer.FieldFilters()[k]
    ensures forall t :: t in FindAll(teams, players, SpecificationOf(Some(more)), satisfies) ==>
      t in FindAll(teams, players, SpecificationOf(Some(fewer)), satisfies)
  {
    forall t | t in FindAll(teams, players, SpecificationOf(Some(more)), satisfies)
      ensures t in FindAll(teams, players, SpecificationOf(Some(fewer)), satisfies)
    {
      MatchesEveryPresentFilter(teams, players, more, t, satisfies);
      MatchesEveryPresentFilter(teams, players, fewer, t, satisfies);
      var v :| v in JoinedRows(t, players, SpecificationOf(Some(more))) && AcceptsRow(more, t, v, satisfies);
      JoinOnlyForPlayerFilter(more, t, players);
      JoinOnlyForPlayerFilter(fewer, t, players);
      // without the join the team's only row carries a null player id
      var w := if fewer.playerId.Some? then v else None;
      if fewer.playerId.Some? {
        assert more.FieldFilters()[3] == fewer.FieldFilters()[3];
      }
      assert w in JoinedRows(t, players, SpecificationOf(Some(fewer)));
      AcceptsFewer(fewer, more, t, v, w, satisfies);
    }
  }

  /**
   * The `playerId` filter goes through a LEFT join: a team without players is
   * not dropped by the join but judged with a null player id.
   */
  lemma TeamWithoutPlayersJudgedOnNull(teams: seq<Team>, players: seq<Player>, criteria: TeamCriteria, t: Team, satisfies: Satisfies)
    requires t in teams && PlayersOf(t, players) == [] && criteria.playerId.Some?
    requires forall k :: 0 <= k < 3 && criteria.FieldFilters()[k].Some? ==>
      satisfies(criteria.FieldFilters()[k].value, TeamValue(t, None, TeamColumns[k]))
    ensures t in FindAll(teams, players, SpecificationOf(Some(criteria)), satisfies) <==> satisfies(criteria.playerId.value, None)
  {
    MatchesEveryPresentFilter(teams, players, criteria, t, satisfies);
    JoinOnlyForPlayerFilter(criteria, t, players);
    assert JoinedRows(t, players, SpecificationOf(Some(criteria))) == [None];
    assert criteria.FieldFilters()[3] == criteria.playerId && TeamColumns[3] == PlayerId;
    assert AcceptsRow(criteria, t, None, satisfies) <==> satisfies(criteria.playerId.value, None);
  }

  /**
   * A player filter that accepts exactly the null id (what
   * `playerId.specified=false` asks for), and no other filter, lists exactly
   * the teams without players: the LEFT join gives those a null row, and every
   * other team only rows with a stored player's id.
   */
  lemma UnspecifiedPlayerSelectsTeamsWithoutPlayers(teams: seq<Team>, players: seq<Player>, criteria: TeamCriteria, satisfies: Satisfies)
    requires criteria.id.None? && criteria.name.None? && criteria.city.None? && criteria.playerId.Some?
    requires forall v :: satisfies(criteria.playerId.value, v) <==> v.None?
    requires forall p :: p in players ==> p.id.Some?
    ensures forall t :: t in FindAll(teams, players, SpecificationOf(Some(criteria)), satisfies) <==>
      t in teams && PlayersOf(t, players) == []
  {
    forall t
      ensures t in FindAll(teams, players, SpecificationOf(Some(criteria)), satisfies) <==>
        t in teams && PlayersOf(t, players) == []
    {
      MatchesEveryPresentFilter(teams, players, criteria, t, satisfies);
      JoinOnlyForPlayerFilter(criteria, t, players);
      NullRowOnlyWithoutPlayers(t, players);
      forall v
        ensures AcceptsRow(criteria, t, v, satisfies) <==> v.None?
      {
        OnlyNullAccepted(criteria, t, v, satisfies);
      }
    }
  }

  /** A criteria whose only filter is a player filter accepting just null accepts exactly the null rows. */
  lemma OnlyNullAccepted(criteria: TeamCriteria, t: Team, v: Option<int>, satisfies: Satisfies)
    requires criteria.id.None? && criteria.name.None? && criteria.city.None? && criteria.playerId.Some?
    requires forall v :: satisfies(criteria.playerId.value, v) <==> v.None?
    ensures AcceptsRow(criteria, t, v, satisfies) <==> v.None?
  {
    assert criteria.FieldFilters()[3] == criteria.playerId && TeamColumns[3] == PlayerId;
    assert forall k :: 0 <= k < 3 ==> criteria.FieldFilters()[k].None?;
  }

  /** When every stored player has an id, the LEFT join gives a null row exactly for a team without players. */
  lemma NullRowOnlyWithoutPlayers(t: Team, players: seq<Player>)
    requires forall p :: p in players ==> p.id.Some?
    ensures None in LeftJoin(t, players) <==> PlayersOf(t, players) == []
  {
    if PlayersOf(t, players) != [] {
      forall v | v in LeftJoin(t, players)
        ensures v.Some?
      {
        var p :| p in PlayersOf(t, players) && p.id == v;
      }
    }
  }

  /** Under `distinct = true` no team is listed twice, whatever the join multiplies. */
  lemma DistinctListsEachTeamOnce(teams: seq<Team>, players: seq<Player>, criteria: TeamCriteria, satisfies: Satisfies)
    requires criteria.distinct == Some(true)
    ensures NoDuplicates(FindAll(teams, players, SpecificationOf(Some(criteria)), satisfies))
  {
    DistinctFlagOfBuilt(criteria.distinct, TeamColumns, criteria.FieldFilters());
  }

  /**
   * Without `distinct`, a team is listed once per passing joined row: with the
   * `playerId` filter, a team of three passing players appears three times.
   */
  lemma JoinRepeatsTeam(t: Team, players: seq<Player>, criteria: TeamCriteria, satisfies: Satisfies)
    requires criteria.distinct != Some(true)
    ensures var spec := SpecificationOf(Some(criteria));
      FindAll([t], players, spec, satisfies) ==
        seq(CountWhere(JoinedRows(t, players, spec), (v: Option<int>) => Holds(spec, Row(t, v), satisfies)), _ => t)
  {
    var spec := SpecificationOf(Some(criteria));
    DistinctFlagOfBuilt(criteria.distinct, TeamColumns, criteria.FieldFilters());
    assert [t][1..] == [];
    assert Joined([t], players, spec, satisfies) == seq(Emitted(t, players, spec, satisfies), _ => t) + [];
  }

  /**
   * Adding a filter can lengthen the team list: a `playerId` filter with
   * `specified=true`, which accepts exactly the non-null player ids, brings in
   * the LEFT join, and without `distinct` a team is then listed once per
   * player instead of once (and not at all when it has no players).
   * Monotonicity holds for which teams are listed, not for how many rows the
   * list or the count has.
   */
  lemma AddedJoinCanLengthenList(t: Team, players: seq<Player>, f: Filter, satisfies: Satisfies)
    requires forall v :: satisfies(f, v) <==> v.Some?
    requires forall p :: p in players ==> p.id.Some?
    ensures FindAll([t], players, SpecificationOf(Some(TeamCriteria(None, None, None, None, None))), satisfies) == [t]
    ensures |FindAll([t], players, SpecificationOf(Some(TeamCriteria(None, None, None, Some(f), None))), satisfies)| ==
      |PlayersOf(t, players)|
  {
    var more := TeamCriteria(None, None, None, Some(f), None);
    EmptyCriteriaMatchesAll([t], players, TeamCriteria(None, None, None, None, None), satisfies);
    JoinRepeatsTeam(t, players, more, satisfies);
    SpecifiedPlayerRowsPerPlayer(t, players, f, satisfies);
  }

  /** With only a `specified=true` player filter, a team emits one passing row per player. */
  lemma SpecifiedPlayerRowsPerPlayer(t: Team, players: seq<Player>, f: Filter, satisfies: Satisfies)
    requires forall v :: satisfies(f, v) <==> v.Some?
    requires forall p :: p in players ==> p.id.Some?
    ensures Emitted(t, players, SpecificationOf(Some(TeamCriteria(None, None, None, Some(f), None))), satisfies) ==
      |PlayersOf(t, players)|
  {
    var more := TeamCriteria(None, None, None, Some(f), None);
    var spec := SpecificationOf(Some(more));
    var rows := JoinedRows(t, players, spec);
    var test := (v: Option<int>) => Holds(spec, Row(t, v), satisfies);
    JoinOnlyForPlayerFilter(more, t, players);
    if PlayersOf(t, players) == [] {
      SpecifiedPlayerTest(t, None, f, satisfies);
      assert rows == [None] && rows[..0] == [] && !test(None);
      assert CountWhere(rows, test) == CountWhere(rows[..0], test);
    } else {
      forall v | v in rows
        ensures test(v)
      {
        var p :| p in PlayersOf(t, players) && p.id == v;
        SpecifiedPlayerTest(t, v, f, satisfies);
      }
      KeepEverything(rows, test);
      CountWhereIsKeptLength(rows, test);
    }
  }

  /** A criteria holding only a `specified=true` player filter accepts a joined row exactly when its player id is non-null. */
  lemma SpecifiedPlayerTest(t: Team, v: Option<int>, f: Filter, satisfies: Satisfies)
    requires forall v :: satisfies(f, v) <==> v.Some?
    ensures Holds(SpecificationOf(Some(TeamCriteria(None, None, None, Some(f), None))), Row(t, v), satisfies) <==> v.Some?
  {
    var more := TeamCriteria(None, None, None, Some(f), None);
    DistinctAddsNoCondition(more.distinct, Select(TeamColumns, more.FieldFilters()), Row(t, v), satisfies);
    SelectMeaning(TeamColumns, more.FieldFilters(), Row(t, v), satisfies);
    assert more.FieldFilters()[3] == Some(f) && TeamColumns[3] == PlayerId;
    assert Row(t, v)(PlayerId) == TeamValue(t, v, PlayerId);
  }

  /** The list, page and count entry points build the same specification, so they agree with each other. */
  lemma EntryPointsAgree(teams: seq<Team>, players: seq<Player>, criteria: Option<TeamCriteria>, number: nat, size: nat, satisfies: Satisfies)
    requires size > 0
    ensures var all := FindAll(teams, players, SpecificationOf(criteria), satisfies);
      Count(teams, players, SpecificationOf(criteria), satisfies) == |all| &&
      forall t :: t in Window(all, number, size) ==> t in all
  {
    CountAgreesWithList(teams, players, SpecificationOf(criteria), satisfies);
  }
}
