/**
 * The specification a query service builds from a criteria object, and what
 * running it against a table means. The builder starts from the
 * match-everything `Specification.where(null)` and ANDs one step in per call of
 * `and`; a specification is modelled as the sequence of those steps.
 */
module Specifications {
  import opened Wrappers
  import opened Filters

  /**
   * One `and` step: the `distinct` specification, which only switches duplicate
   * elimination on the query and yields no row condition, or one field filter
   * judged on one column.
   */
  datatype Step<C> = Distinct(flag: bool) | Where(filter: Filter, column: C)

  /**
   * Whether a row, given by the value of each column, passes every step: the
   * conjunction folded up by `and`. The empty specification accepts every row.
   */
  predicate Holds<C>(spec: seq<Step<C>>, row: C -> Option<Value>, satisfies: Satisfies)
    decreases |spec|
  {
    if spec == [] then true
    else
      var last := spec[|spec| - 1];
      Holds(spec[..|spec| - 1], row, satisfies) && (last.Where? ==> satisfies(last.filter, row(last.column)))
  }

  /** The step `distinct` contributes: present exactly when the flag is not null. */
  function DistinctStep<C>(distinct: Option<bool>): seq<Step<C>>
  {
    if distinct.Some? then [Distinct(distinct.value)] else []
  }

  /**
   * Reference definition of the field part of a built specification: walking
   * the criteria's fields in declaration order, one `Where` per non-null field.
   */
  function Select<C>(columns: seq<C>, filters: seq<Option<Filter>>): seq<Step<C>>
    requires |columns| == |filters|
  {
    if columns == [] then []
    else StepFor(columns[0], filters[0]) + Select(columns[1..], filters[1..])
  }

  /** What one guarded `and` adds: a step for a non-null field, nothing for a null one. */
  function StepFor<C>(column: C, filter: Option<Filter>): seq<Step<C>>
  {
    if filter.Some? then [Where(filter.value, column)] else []
  }

  /** One guarded `and`: `if (field != null) spec = spec.and(build(field, column))`. */
  method AndIfPresent<C>(spec: seq<Step<C>>, field: Option<Filter>, column: C) returns (spec': seq<Step<C>>)
    ensures spec' == spec + StepFor(column, field)
  {
    spec' := spec;
    if field.Some? {
      spec' := spec' + [Where(field.value, column)];
    }
  }

  /**
   * The builder's own shape: starting from `spec`, reassign
   * `spec := spec.and(...)` for each field in turn.
   */
  function AndEach<C>(spec: seq<Step<C>>, columns: seq<C>, filters: seq<Option<Filter>>): seq<Step<C>>
    requires |columns| == |filters|
    decreases |columns|
  {
    if columns == [] then spec
    else AndEach(spec + StepFor(columns[0], filters[0]), columns[1..], filters[1..])
  }

  /** The filters a specification applies to one column, in order. */
  function FiltersOn<C(==)>(spec: seq<Step<C>>, column: C): seq<Filter>
  {
    if spec == [] then []
    else
      (if spec[0].Where? && spec[0].column == column then [spec[0].filter] else [])
      + FiltersOn(spec[1..], column)
  }

  /** Whether any step filters on the column (for a relationship column: whether the join is made). */
  predicate Mentions<C(==)>(spec: seq<Step<C>>, column: C)
  {
    exists i :: 0 <= i < |spec| && spec[i].Where? && spec[i].column == column
  }

  /** A column is mentioned exactly when the specification applies some filter to it. */
  lemma {:induction false} MentionsWhenFiltered<C>(spec: seq<Step<C>>, column: C)
    ensures Mentions(spec, column) <==> FiltersOn(spec, column) != []
    decreases |spec|
  {
    if spec != [] {
      MentionsWhenFiltered(spec[1..], column);
      if Mentions(spec[1..], column) {
        var i :| 0 <= i < |spec[1..]| && spec[1..][i].Where? && spec[1..][i].column == column;
        assert spec[i + 1] == spec[1..][i];
      }
      if Mentions(spec, column) && !(spec[0].Where? && spec[0].column == column) {
        var i :| 0 <= i < |spec| && spec[i].Where? && spec[i].column == column;
        assert spec[1..][i - 1] == spec[i];
      }
    }
  }

  /** The duplicate-elimination flag of the query: the last `distinct` step wins, and it is off by default. */
  function DistinctFlag<C>(spec: seq<Step<C>>): bool
  {
    if spec == [] then false
    else if spec[|spec| - 1].Distinct? then spec[|spec| - 1].flag
    else DistinctFlag(spec[..|spec| - 1])
  }

  /** A sequence without repeated elements. */
  ghost predicate NoDuplicates<T>(s: seq<T>)
  {
    forall i, j :: 0 <= i < j < |s| ==> s[i] != s[j]
  }

  /** The set of elements of a sequence. */
  function Elements<T>(s: seq<T>): set<T>
  {
    set x | x in s
  }

  // ---------------------------------------------------------------------------
  // The builder's accumulation

  /** Reassigning field by field appends the field walk to what was built before. */
  lemma {:induction false} AndEachAppends<C>(spec: seq<Step<C>>, columns: seq<C>, filters: seq<Option<Filter>>)
    requires |columns| == |filters|
    ensures AndEach(spec, columns, filters) == spec + Select(columns, filters)
    decreases |columns|
  {
    if columns == [] {
      assert spec + [] == spec;
    } else {
      var first := StepFor(columns[0], filters[0]);
      AndEachAppends(spec + first, columns[1..], filters[1..]);
      assert (spec + first) + Select(columns[1..], filters[1..]) == spec + (first + Select(columns[1..], filters[1..]));
    }
  }

  /** Four guarded `and`s in a row, spelled out. */
  lemma AndEachFour<C>(spec: seq<Step<C>>, c0: C, c1: C, c2: C, c3: C, f0: Option<Filter>, f1: Option<Filter>, f2: Option<Filter>, f3: Option<Filter>)
    ensures AndEach(spec, [c0, c1, c2, c3], [f0, f1, f2, f3]) ==
      spec + StepFor(c0, f0) + StepFor(c1, f1) + StepFor(c2, f2) + StepFor(c3, f3)
  {
    var s0 := spec + StepFor(c0, f0);
    var s1 := s0 + StepFor(c1, f1);
    var s2 := s1 + StepFor(c2, f2);
    var s3 := s2 + StepFor(c3, f3);
    assert AndEach(s3, [], []) == s3;
    assert AndEach(s2, [c3], [f3]) == s3;
    assert AndEach(s1, [c2, c3], [f2, f3]) == s3 by {
      assert [c2, c3][1..] == [c3] && [f2, f3][1..] == [f3];
    }
    assert AndEach(s0, [c1, c2, c3], [f1, f2, f3]) == s3 by {
      assert [c1, c2, c3][1..] == [c2, c3] && [f1, f2, f3][1..] == [f2, f3];
    }
    assert [c0, c1, c2, c3][1..] == [c1, c2, c3] && [f0, f1, f2, f3][1..] == [f1, f2, f3];
  }

  /** Eight guarded `and`s in a row, spelled out. */
  lemma AndEachEight<C>(spec: seq<Step<C>>, c0: C, c1: C, c2: C, c3: C, c4: C, c5: C, c6: C, c7: C,
                        f0: Option<Filter>, f1: Option<Filter>, f2: Option<Filter>, f3: Option<Filter>,
                        f4: Option<Filter>, f5: Option<Filter>, f6: Option<Filter>, f7: Option<Filter>)
    ensures AndEach(spec, [c0, c1, c2, c3, c4, c5, c6, c7], [f0, f1, f2, f3, f4, f5, f6, f7]) ==
      spec + StepFor(c0, f0) + StepFor(c1, f1) + StepFor(c2, f2) + StepFor(c3, f3)
      + StepFor(c4, f4) + StepFor(c5, f5) + StepFor(c6, f6) + StepFor(c7, f7)
  {
    var cs, cs' := [c0, c1, c2, c3], [c4, c5, c6, c7];
    var fs, fs' := [f0, f1, f2, f3], [f4, f5, f6, f7];
    assert cs + cs' == [c0, c1, c2, c3, c4, c5, c6, c7];
    assert fs + fs' == [f0, f1, f2, f3, f4, f5, f6, f7];
    var s := spec + StepFor(c0, f0) + StepFor(c1, f1) + StepFor(c2, f2) + StepFor(c3, f3);
    calc {
      AndEach(spec, cs + cs', fs + fs');
      { AndEachSplit(spec, cs, cs', fs, fs'); }
      AndEach(AndEach(spec, cs, fs), cs', fs');
      { AndEachFour(spec, c0, c1, c2, c3, f0, f1, f2, f3); }
      AndEach(s, cs', fs');
      { AndEachFour(s, c4, c5, c6, c7, f4, f5, f6, f7); }
      s + StepFor(c4, f4) + StepFor(c5, f5) + StepFor(c6, f6) + StepFor(c7, f7);
    }
  }

  /** Walking two runs of fields one after the other is walking the first, then the second from there. */
  lemma {:induction false} AndEachSplit<C>(spec: seq<Step<C>>, columns: seq<C>, columns': seq<C>, filters: seq<Option<Filter>>, filters': seq<Option<Filter>>)
    requires |columns| == |filters| && |columns'| == |filters'|
    ensures AndEach(spec, columns + columns', filters + filters') == AndEach(AndEach(spec, columns, filters), columns', filters')
    decreases |columns|
  {
    if columns == [] {
      assert columns + columns' == columns' && filters + filters' == filters';
    } else {
      assert (columns + columns')[1..] == columns[1..] + columns';
      assert (filters + filters')[1..] == filters[1..] + filters';
      AndEachSplit(spec + StepFor(columns[0], filters[0]), columns[1..], columns', filters[1..], filters');
    }
  }

  // ---------------------------------------------------------------------------
  // The conjunction

  /** ANDing two specifications one after the other is the conjunction of the two. */
  lemma {:induction false} HoldsAppend<C>(a: seq<Step<C>>, b: seq<Step<C>>, row: C -> Option<Value>, satisfies: Satisfies)
    ensures Holds(a + b, row, satisfies) == (Holds(a, row, satisfies) && Holds(b, row, satisfies))
    decreases |b|
  {
    if b == [] {
      assert a + b == a;
    } else {
      var b' := b[..|b| - 1];
      assert (a + b)[..|a + b| - 1] == a + b';
      assert (a + b)[|a + b| - 1] == b[|b| - 1];
      HoldsAppend(a, b', row, satisfies);
    }
  }

  /** A row passes a specification exactly when it satisfies every field step of it. */
  lemma {:induction false} HoldsEveryStep<C>(spec: seq<Step<C>>, row: C -> Option<Value>, satisfies: Satisfies)
    ensures Holds(spec, row, satisfies) <==>
      forall i :: 0 <= i < |spec| && spec[i].Where? ==> satisfies(spec[i].filter, row(spec[i].column))
    decreases |spec|
  {
    if spec != [] {
      var init := spec[..|spec| - 1];
      HoldsEveryStep(init, row, satisfies);
      assert forall i :: 0 <= i < |init| ==> init[i] == spec[i];
    }
  }

  /** The `distinct` step puts no condition on rows. */
  lemma DistinctAddsNoCondition<C>(distinct: Option<bool>, rest: seq<Step<C>>, row: C -> Option<Value>, satisfies: Satisfies)
    ensures Holds(DistinctStep(distinct) + rest, row, satisfies) == Holds(rest, row, satisfies)
  {
    HoldsAppend(DistinctStep(distinct), rest, row, satisfies);
    if distinct.Some? {
      assert DistinctStep<C>(distinct)[..0] == [];
    }
  }

  // ---------------------------------------------------------------------------
  // Properties of the field walk

  /** A row passes the field walk exactly when every non-null field's filter accepts the row's value in that column. */
  lemma {:induction false} SelectMeaning<C>(columns: seq<C>, filters: seq<Option<Filter>>, row: C -> Option<Value>, satisfies: Satisfies)
    requires |columns| == |filters|
    ensures Holds(Select(columns, filters), row, satisfies) <==>
      forall i :: 0 <= i < |columns| && filters[i].Some? ==> satisfies(filters[i].value, row(columns[i]))
    decreases |columns|
  {
    if columns != [] {
      var head := StepFor(columns[0], filters[0]);
      HoldsAppend(head, Select(columns[1..], filters[1..]), row, satisfies);
      SelectMeaning(columns[1..], filters[1..], row, satisfies);
      if filters[0].Some? {
        assert head[..0] == [];
      }
      assert forall i :: 1 <= i < |columns| ==> columns[1..][i - 1] == columns[i] && filters[1..][i - 1] == filters[i];
    }
  }

  /** With every field null the walk adds nothing, so the specification matches every row. */
  lemma {:induction false} SelectAllNull<C>(columns: seq<C>, filters: seq<Option<Filter>>)
    requires |columns| == |filters|
    requires forall i :: 0 <= i < |filters| ==> filters[i].None?
    ensures Select(columns, filters) == []
    decreases |columns|
  {
    if columns != [] {
      SelectAllNull(columns[1..], filters[1..]);
    }
  }

  /** Every step of the walk is a field step drawn from the walked columns. */
  lemma {:induction false} SelectSteps<C>(columns: seq<C>, filters: seq<Option<Filter>>)
    requires |columns| == |filters|
    ensures |Select(columns, filters)| <= |columns|
    ensures forall s :: s in Select(columns, filters) ==> s.Where? && s.column in columns
    decreases |columns|
  {
    if columns != [] {
      SelectSteps(columns[1..], filters[1..]);
    }
  }

  /**
   * Each step `Select` builds carries the filter of its own field, so when
   * every field's filter has the class its column expects, so does every step.
   */
  lemma {:induction false} SelectKeepsKinds<C>(columns: seq<C>, filters: seq<Option<Filter>>, kindOf: C -> FilterKind)
    requires |columns| == |filters|
    requires forall i :: 0 <= i < |columns| && filters[i].Some? ==> filters[i].value.kind == kindOf(columns[i])
    ensures forall s :: s in Select(columns, filters) ==> s.Where? && s.filter.kind == kindOf(s.column)
    decreases |columns|
  {
    if columns != [] {
      SelectKeepsKinds(columns[1..], filters[1..], kindOf);
    }
  }

  /**
   * Over distinct columns, a non-null field contributes exactly one step,
   * carrying its own filter, and a null field contributes none.
   */
  lemma {:induction false} SelectOnePerField<C>(columns: seq<C>, filters: seq<Option<Filter>>, k: nat)
    requires |columns| == |filters|
    requires forall i, j :: 0 <= i < j < |columns| ==> columns[i] != columns[j]
    requires k < |columns|
    ensures FiltersOn(Select(columns, filters), columns[k]) == if filters[k].Some? then [filters[k].value] else []
    decreases |columns|
  {
    var head := StepFor(columns[0], filters[0]);
    var rest := Select(columns[1..], filters[1..]);
    FiltersOnAppend(head, rest, columns[k]);
    if k == 0 {
      SelectSteps(columns[1..], filters[1..]);
      FiltersOnAbsent(rest, columns[0]);
    } else {
      SelectOnePerField(columns[1..], filters[1..], k - 1);
    }
  }

  /** The walk keeps declaration order: a field's step comes before the step of any later field. */
  lemma {:induction false} SelectKeepsOrder<C>(columns: seq<C>, filters: seq<Option<Filter>>, position: C -> int)
    requires |columns| == |filters|
    requires forall i, j :: 0 <= i < j < |columns| ==> position(columns[i]) < position(columns[j])
    ensures forall i :: 0 <= i < |Select(columns, filters)| ==> Select(columns, filters)[i].Where?
    ensures forall i, j :: 0 <= i < j < |Select(columns, filters)| ==>
      position(Select(columns, filters)[i].column) < position(Select(columns, filters)[j].column)
    decreases |columns|
  {
    if columns != [] {
      var rest := Select(columns[1..], filters[1..]);
      SelectKeepsOrder(columns[1..], filters[1..], position);
      SelectSteps(columns[1..], filters[1..]);
      forall s | s in rest
        ensures position(columns[0]) < position(s.column)
      {
        var j :| 1 <= j < |columns| && columns[j] == s.column;
      }
    }
  }

  /**
   * Setting more fields never lets more rows through: if every filter set in
   * `fewer` is also set, to the same filter, in `more`, a row passing `more`
   * passes `fewer`.
   */
  lemma MoreFieldsNarrow<C>(columns: seq<C>, fewer: seq<Option<Filter>>, more: seq<Option<Filter>>, row: C -> Option<Value>, satisfies: Satisfies)
    requires |columns| == |fewer| == |more|
    requires forall i :: 0 <= i < |fewer| && fewer[i].Some? ==> more[i] == fewer[i]
    ensures Holds(Select(columns, more), row, satisfies) ==> Holds(Select(columns, fewer), row, satisfies)
  {
    SelectMeaning(columns, fewer, row, satisfies);
    SelectMeaning(columns, more, row, satisfies);
  }

  lemma {:induction false} FiltersOnAppend<C>(a: seq<Step<C>>, b: seq<Step<C>>, column: C)
    ensures FiltersOn(a + b, column) == FiltersOn(a, column) + FiltersOn(b, column)
    decreases |a|
  {
    if a == [] {
      assert a + b == b;
    } else {
      assert (a + b)[1..] == a[1..] + b;
      FiltersOnAppend(a[1..], b, column);
    }
  }

  lemma {:induction false} FiltersOnAbsent<C>(spec: seq<Step<C>>, column: C)
    requires forall s :: s in spec ==> s.Where? && s.column != column
    ensures FiltersOn(spec, column) == []
    decreases |spec|
  {
    if spec != [] {
      assert spec[0] in spec;
      FiltersOnAbsent(spec[1..], column);
    }
  }

  /** The duplicate-elimination flag of a built specification is the criteria's `distinct`, off when null. */
  lemma DistinctFlagOfBuilt<C>(distinct: Option<bool>, columns: seq<C>, filters: seq<Option<Filter>>)
    requires |columns| == |filters|
    ensures DistinctFlag(DistinctStep<C>(distinct) + Select(columns, filters)) == (distinct == Some(true))
  {
    SelectSteps(columns, filters);
    DistinctFlagSkipsFields(DistinctStep<C>(distinct), Select(columns, filters));
  }

  lemma {:induction false} DistinctFlagSkipsFields<C>(prefix: seq<Step<C>>, fields: seq<Step<C>>)
    requires forall s :: s in fields ==> s.Where?
    ensures DistinctFlag(prefix + fields) == DistinctFlag(prefix)
    decreases |fields|
  {
    if fields == [] {
      assert prefix + fields == prefix;
    } else {
      var init := fields[..|fields| - 1];
      assert fields[|fields| - 1] in fields;
      assert (prefix + fields)[..|prefix + fields| - 1] == prefix + init;
      assert forall s :: s in init ==> s in fields;
      DistinctFlagSkipsFields(prefix, init);
    }
  }

  // ---------------------------------------------------------------------------
  // Running a specification against a table

  /** The rows of a table that pass a test, in table order. */
  function Keep<T(!new)>(rows: seq<T>, test: T -> bool): (kept: seq<T>)
    ensures |kept| <= |rows|
    ensures forall x :: x in kept <==> x in rows && test(x)
  {
    if rows == [] then []
    else
      var init := Keep(rows[..|rows| - 1], test);
      var last := rows[|rows| - 1];
      assert forall x :: x in rows <==> x in rows[..|rows| - 1] || x == last;
      if test(last) then init + [last] else init
  }

  /**
   * Filtering is taken row by row: the rows kept from two runs of the table
   * are those kept from the first run followed by those kept from the second,
   * and a single row is kept exactly when it passes. So every passing row is
   * kept, as often as it occurs and in table order.
   */
  lemma {:induction false} KeepAppend<T(!new)>(a: seq<T>, b: seq<T>, test: T -> bool)
    ensures Keep(a + b, test) == Keep(a, test) + Keep(b, test)
    ensures Keep([], test) == [] && forall x :: Keep([x], test) == if test(x) then [x] else []
  {
    KeepConcat(a, b, test);
    forall x
      ensures Keep([x], test) == if test(x) then [x] else []
    {
      KeepOne(x, test);
    }
  }

  lemma {:induction false} KeepConcat<T(!new)>(a: seq<T>, b: seq<T>, test: T -> bool)
    ensures Keep(a + b, test) == Keep(a, test) + Keep(b, test)
    decreases |b|
  {
    if b == [] {
      assert a + b == a;
    } else {
      var b', last := b[..|b| - 1], b[|b| - 1];
      var tail := if test(last) then [last] else [];
      calc {
        Keep(a + b, test);
        { assert (a + b)[..|a + b| - 1] == a + b' && (a + b)[|a + b| - 1] == last; }
        Keep(a + b', test) + tail;
        { KeepConcat(a, b', test); }
        (Keep(a, test) + Keep(b', test)) + tail;
        Keep(a, test) + (Keep(b', test) + tail);
        Keep(a, test) + Keep(b, test);
      }
    }
  }

  lemma KeepOne<T(!new)>(x: T, test: T -> bool)
    ensures Keep([x], test) == if test(x) then [x] else []
  {
    assert [x][..0] == [];
  }

  /** How many times a row is kept: as often as it occurs when it passes, never when it fails. */
  lemma {:induction false} KeepMultiplicity<T(!new)>(rows: seq<T>, test: T -> bool)
    ensures forall x :: multiset(Keep(rows, test))[x] == if test(x) then multiset(rows)[x] else 0
    decreases |rows|
  {
    if rows != [] {
      var init, last := rows[..|rows| - 1], rows[|rows| - 1];
      KeepMultiplicity(init, test);
      assert rows == init + [last];
    }
  }

  /** How many rows pass a test: what a `count(*)` query without `distinct` answers. */
  function CountWhere<T>(rows: seq<T>, test: T -> bool): nat
  {
    if rows == [] then 0
    else CountWhere(rows[..|rows| - 1], test) + (if test(rows[|rows| - 1]) then 1 else 0)
  }

  /** Duplicate elimination of `select distinct`: keeps the first occurrence of each row. */
  function Dedupe<T(==,!new)>(rows: seq<T>): (r: seq<T>)
    ensures forall x :: x in r <==> x in rows
    ensures NoDuplicates(r)
    ensures |r| <= |rows|
  {
    if rows == [] then []
    else
      var init := Dedupe(rows[..|rows| - 1]);
      var last := rows[|rows| - 1];
      assert forall x :: x in rows <==> x in rows[..|rows| - 1] || x == last;
      if last in init then init else init + [last]
  }

  /** A test every row passes keeps the whole table. */
  lemma {:induction false} KeepEverything<T(!new)>(rows: seq<T>, test: T -> bool)
    requires forall x :: x in rows ==> test(x)
    ensures Keep(rows, test) == rows
    decreases |rows|
  {
    if rows != [] {
      var init := rows[..|rows| - 1];
      assert forall x :: x in init ==> x in rows;
      KeepEverything(init, test);
      assert rows[|rows| - 1] in rows;
      assert init + [rows[|rows| - 1]] == rows;
    }
  }

  /** Counting the kept rows and keeping them agree. */
  lemma {:induction false} CountWhereIsKeptLength<T(!new)>(rows: seq<T>, test: T -> bool)
    ensures CountWhere(rows, test) == |Keep(rows, test)|
    decreases |rows|
  {
    if rows != [] {
      CountWhereIsKeptLength(rows[..|rows| - 1], test);
    }
  }

  /** `count(distinct ...)` counts the distinct rows, which is the length of the deduplicated list. */
  lemma {:induction false} DedupeLength<T(!new)>(rows: seq<T>)
    ensures |Dedupe(rows)| == |Elements(rows)|
    decreases |rows|
  {
    if rows != [] {
      var init := rows[..|rows| - 1];
      var last := rows[|rows| - 1];
      DedupeLength(init);
      assert Elements(rows) == Elements(init) + {last};
      if last in init {
        assert Elements(rows) == Elements(init);
      } else {
        assert last !in Elements(init);
      }
    }
  }

  /** A non-empty count means some row passes. */
  lemma {:induction false} CountWherePositive<T>(rows: seq<T>, test: T -> bool)
    ensures CountWhere(rows, test) > 0 <==> exists x :: x in rows && test(x)
    decreases |rows|
  {
    if rows != [] {
      var init := rows[..|rows| - 1];
      CountWherePositive(init, test);
      assert forall x :: x in rows <==> x in init || x == rows[|rows| - 1];
    }
  }

  /** One page of results and the total number of matches. */
  datatype Page<T> = Page(content: seq<T>, totalElements: nat)

  /** The rows of page `number` when pages hold `size` rows each. */
  function Window<T>(rows: seq<T>, number: nat, size: nat): (content: seq<T>)
    requires size > 0
    ensures |content| <= size
    ensures |content| == if number * size < |rows| then (if |rows| - number * size < size then |rows| - number * size else size) else 0
    ensures forall k :: 0 <= k < |content| ==> number * size + k < |rows| && content[k] == rows[number * size + k]
  {
    var from := if number * size < |rows| then number * size else |rows|;
    var to := if from + size < |rows| then from + size else |rows|;
    rows[from..to]
  }
}
