/**
 * `PlayerCriteria`: the mutable holder of the optional filters a `GET /players`
 * request binds, one per filterable field of a player, plus the `distinct`
 * flag. A `null` Java field is `None` here.
 */
module Criteria {
  import opened Wrappers
  import opened Filters
  import opened JavaLang

  /** The names of the eight filter fields, in declaration order. */
  const FieldNames: seq<string> := ["id", "name", "birthDate", "height", "weight", "baskets", "assists", "teamId"]

  /** The filter class each field is declared with, in declaration order. */
  const FieldKinds: seq<FilterKind> :=
    [LongFilter, StringFilter, LocalDateFilter, DoubleFilter, DoubleFilter, IntegerFilter, IntegerFilter, LongFilter]

  /** Eight null filter fields. */
  const NoFilters: seq<Option<Filter>> := [None, None, None, None, None, None, None, None]

  /** One field's part of `toString`: `name=value, ` when the field is non-null, nothing when it is null. */
  function Segment(name: string, value: Option<string>): string
  {
    if value.Some? then name + "=" + value.value + ", " else ""
  }

  /**
   * Reference definition of `toString`'s concatenation: starting from `text`,
   * append each field's segment in turn.
   */
  function Append(text: string, names: seq<string>, values: seq<Option<string>>): string
    requires |names| == |values|
    decreases |names|
  {
    if names == [] then text
    else Append(text + Segment(names[0], values[0]), names[1..], values[1..])
  }

  /** What appending the segments adds, on its own. */
  function Segments(names: seq<string>, values: seq<Option<string>>): string
    requires |names| == |values|
  {
    Append("", names, values)
  }

  /** Appending the segments keeps what was there and adds them after it. */
  lemma {:induction false} AppendKeepsText(text: string, names: seq<string>, values: seq<Option<string>>)
    requires |names| == |values|
    ensures Append(text, names, values) == text + Segments(names, values)
    decreases |names|
  {
    if names != [] {
      var first := Segment(names[0], values[0]);
      var rest := Segments(names[1..], values[1..]);
      calc {
        Append(text, names, values);
        Append(text + first, names[1..], values[1..]);
        { AppendKeepsText(text + first, names[1..], values[1..]); }
        (text + first) + rest;
        text + (first + rest);
        { AppendKeepsText(first, names[1..], values[1..]); }
        text + Append(first, names[1..], values[1..]);
        { assert "" + first == first; }
        text + Append("" + first, names[1..], values[1..]);
        text + Segments(names, values);
      }
    }
  }

  /** Fields that are all null print nothing. */
  lemma {:induction false} SegmentsAllNull(names: seq<string>, values: seq<Option<string>>)
    requires |names| == |values|
    requires forall i :: 0 <= i < |values| ==> values[i].None?
    ensures Segments(names, values) == ""
    decreases |names|
  {
    if names != [] {
      SegmentsAllNull(names[1..], values[1..]);
      AppendKeepsText("", names[1..], values[1..]);
    }
  }

  lemma NothingToRender(names: seq<string>, values: seq<Option<string>>)
    requires |names| == |values|
    ensures (forall i :: 0 <= i < |values| ==> values[i].None?) ==> Segments(names, values) == ""
  {
    if forall i :: 0 <= i < |values| ==> values[i].None? {
      SegmentsAllNull(names, values);
    }
  }

  /** Appending two runs of segments is appending the first, then the second after it. */
  lemma {:induction false} AppendSplit(text: string, names: seq<string>, names': seq<string>, values: seq<Option<string>>, values': seq<Option<string>>)
    requires |names| == |values| && |names'| == |values'|
    ensures Append(text, names + names', values + values') == Append(Append(text, names, values), names', values')
    decreases |names|
  {
    if names == [] {
      assert names + names' == names' && values + values' == values';
    } else {
      assert (names + names')[1..] == names[1..] + names';
      assert (values + values')[1..] == values[1..] + values';
      AppendSplit(text + Segment(names[0], values[0]), names[1..], names', values[1..], values');
    }
  }

  /** The segments are those of the fields before `k`, then field `k`'s own, then those of the fields after it. */
  lemma SegmentsSplit(names: seq<string>, values: seq<Option<string>>, k: nat)
    requires |names| == |values| && k < |names|
    ensures Segments(names, values) ==
      Segments(names[..k], values[..k]) + Segment(names[k], values[k]) + Segments(names[k + 1..], values[k + 1..])
  {
    var before := Segments(names[..k], values[..k]);
    var own := Segment(names[k], values[k]);
    assert names == names[..k] + names[k..] && values == values[..k] + values[k..];
    AppendSplit("", names[..k], names[k..], values[..k], values[k..]);
    AppendStep(before, names, values, k);
    AppendKeepsText(before + own, names[k + 1..], values[k + 1..]);
  }

  lemma AppendStep(text: string, names: seq<string>, values: seq<Option<string>>, k: nat)
    requires |names| == |values| && k < |names|
    ensures Append(text, names[k..], values[k..]) == Append(text + Segment(names[k], values[k]), names[k + 1..], values[k + 1..])
  {
    assert names[k..][1..] == names[k + 1..] && values[k..][1..] == values[k + 1..];
  }

  /** Appending nine segments, spelled out. */
  lemma AppendNine(text: string, names: seq<string>, values: seq<Option<string>>)
    requires |names| == |values| == 9
    ensures Append(text, names, values) ==
      text + Segment(names[0], values[0]) + Segment(names[1], values[1]) + Segment(names[2], values[2]) +
      Segment(names[3], values[3]) + Segment(names[4], values[4]) + Segment(names[5], values[5]) +
      Segment(names[6], values[6]) + Segment(names[7], values[7]) + Segment(names[8], values[8])
  {
    var t0 := text;
    var t1 := t0 + Segment(names[0], values[0]);
    AppendStep(t0, names, values, 0);
    var t2 := t1 + Segment(names[1], values[1]);
    AppendStep(t1, names, values, 1);
    var t3 := t2 + Segment(names[2], values[2]);
    AppendStep(t2, names, values, 2);
    var t4 := t3 + Segment(names[3], values[3]);
    AppendStep(t3, names, values, 3);
    var t5 := t4 + Segment(names[4], values[4]);
    AppendStep(t4, names, values, 4);
    var t6 := t5 + Segment(names[5], values[5]);
    AppendStep(t5, names, values, 5);
    var t7 := t6 + Segment(names[6], values[6]);
    AppendStep(t6, names, values, 6);
    var t8 := t7 + Segment(names[7], values[7]);
    AppendStep(t7, names, values, 7);
    var t9 := t8 + Segment(names[8], values[8]);
    AppendStep(t8, names, values, 8);
    assert names[0..] == names && values[0..] == values;
    assert names[9..] == [] && values[9..] == [];
    calc {
      Append(text, names, values);
      Append(t0, names[0..], values[0..]);
      Append(t1, names[1..], values[1..]);
      Append(t2, names[2..], values[2..]);
      Append(t3, names[3..], values[3..]);
      Append(t4, names[4..], values[4..]);
      Append(t5, names[5..], values[5..]);
      Append(t6, names[6..], values[6..]);
      Append(t7, names[7..], values[7..]);
      Append(t8, names[8..], values[8..]);
      Append(t9, names[9..], values[9..]);
      t9;
    }
  }

  /** The hash `Objects.hash` takes of one argument: 0 for null. */
  function HashOrZero<T>(x: Option<T>, hash: T -> Int32): Int32
  {
    if x.Some? then hash(x.value) else 0
  }

  /** The string concatenation renders of a present field value. */
  function Render<T>(x: Option<T>, show: T -> string): Option<string>
  {
    if x.Some? then Some(show(x.value)) else None
  }

  /** `f == null ? null : f.copy()`: a filter's copy is, as a value, the same filter. */
  function CopyOrNull(f: Option<Filter>): (g: Option<Filter>)
    ensures g.None? <==> f.None?
    ensures g == f
  {
    if f.None? then None else Some(f.value)
  }

  class PlayerCriteria {
    var id: Option<Filter>
    var name: Option<Filter>
    var birthDate: Option<Filter>
    var height: Option<Filter>
    var weight: Option<Filter>
    var baskets: Option<Filter>
    var assists: Option<Filter>
    var teamId: Option<Filter>
    var distinct: Option<bool>

    /** The eight filter fields, in declaration order. */
    function FieldFilters(): (fs: seq<Option<Filter>>)
      reads this
      ensures |fs| == |FieldKinds|
    {
      [id, name, birthDate, height, weight, baskets, assists, teamId]
    }

    /** Every non-null field holds a filter of the class it is declared with. */
    predicate Valid()
      reads this
    {
      forall i :: 0 <= i < |FieldKinds| && FieldFilters()[i].Some? ==> FieldFilters()[i].value.kind == FieldKinds[i]
    }

    /** `new PlayerCriteria()`: every field null. */
    constructor ()
      ensures Valid()
      ensures FieldFilters() == NoFilters && distinct == None
    {
      id, name, birthDate, height, weight, baskets, assists, teamId := None, None, None, None, None, None, None, None;
      distinct := None;
    }

    /**
     * The copy constructor: a field is null exactly where `other`'s is, a
     * non-null filter is replaced by its `copy()`, which as a value is the same
     * filter, and `distinct` is carried over unchanged.
     */
    constructor From(other: PlayerCriteria)
      ensures FieldFilters() == other.FieldFilters() && distinct == other.distinct
      ensures other.Valid() ==> Valid()
    {
      id := CopyOrNull(other.id);
      name := CopyOrNull(other.name);
      birthDate := CopyOrNull(other.birthDate);
      height := CopyOrNull(other.height);
      weight := CopyOrNull(other.weight);
      baskets := CopyOrNull(other.baskets);
      assists := CopyOrNull(other.assists);
      teamId := CopyOrNull(other.teamId);
      distinct := other.distinct;
    }

    /** `copy()`: a new criteria built by the copy constructor, equal to this one but not the same object. */
    method Copy() returns (c: PlayerCriteria)
      ensures fresh(c)
      ensures c.FieldFilters() == FieldFilters() && c.distinct == distinct
      ensures Equals(c) && c.Equals(this)
      ensures Valid() ==> c.Valid()
    {
      c := new PlayerCriteria.From(this);
    }

    /** `id()`: the id filter, created empty when it was null. */
    method Id() returns (f: Filter)
      modifies this
      ensures id == Some(f)
      ensures old(id).Some? ==> f == old(id).value && FieldFilters() == old(FieldFilters())
      ensures old(id).None? ==> f == EmptyFilter(LongFilter)
      ensures FieldFilters() == old(FieldFilters())[0 := Some(f)] && distinct == old(distinct)
      ensures old(Valid()) ==> Valid()
    {
      if id.None? {
        id := Some(EmptyFilter(LongFilter));
      }
      f := id.value;
    }

    /** `setId`: replaces the id filter and nothing else. */
    method SetId(f: Option<Filter>)
      requires f.Some? ==> f.value.kind == LongFilter
      modifies this
      ensures id == f
      ensures FieldFilters() == old(FieldFilters())[0 := f] && distinct == old(distinct)
      ensures old(Valid()) ==> Valid()
    {
      id := f;
    }

    /** `name()`: the name filter, created empty when it was null. */
    method Name() returns (f: Filter)
      modifies this
      ensures name == Some(f)
      ensures old(name).Some? ==> f == old(name).value && FieldFilters() == old(FieldFilters())
      ensures old(name).None? ==> f == EmptyFilter(StringFilter)
      ensures FieldFilters() == old(FieldFilters())[1 := Some(f)] && distinct == old(distinct)
      ensures old(Valid()) ==> Valid()
    {
      if name.None? {
        name := Some(EmptyFilter(StringFilter));
      }
      f := name.value;
    }

    /** `setName`: replaces the name filter and nothing else. */
    method SetName(f: Option<Filter>)
      requires f.Some? ==> f.value.kind == StringFilter
      modifies this
      ensures name == f
      ensures FieldFilters() == old(FieldFilters())[1 := f] && distinct == old(distinct)
      ensures old(Valid()) ==> Valid()
    {
      name := f;
    }

    /** `birthDate()`: the birthDate filter, created empty when it was null. */
    method BirthDate() returns (f: Filter)
      modifies this
      ensures birthDate == Some(f)
      ensures old(birthDate).Some? ==> f == old(birthDate).value && FieldFilters() == old(FieldFilters())
      ensures old(birthDate).None? ==> f == EmptyFilter(LocalDateFilter)
      ensures FieldFilters() == old(FieldFilters())[2 := Some(f)] && distinct == old(distinct)
      ensures old(Valid()) ==> Valid()
    {
      if birthDate.None? {
        birthDate := Some(EmptyFilter(LocalDateFilter));
      }
      f := birthDate.value;
    }

    /** `setBirthDate`: replaces the birthDate filter and nothing else. */
    method SetBirthDate(f: Option<Filter>)
      requires f.Some? ==> f.value.kind == LocalDateFilter
      modifies this
      ensures birthDate == f
      ensures FieldFilters() == old(FieldFilters())[2 := f] && distinct == old(distinct)
      ensures old(Valid()) ==> Valid()
    {
      birthDate := f;
    }

    /** `height()`: the height filter, created empty when it was null. */
    method Height() returns (f: Filter)
      modifies this
      ensures height == Some(f)
      ensures old(height).Some? ==> f == old(height).value && FieldFilters() == old(FieldFilters())
      ensures old(height).None? ==> f == EmptyFilter(DoubleFilter)
      ensures FieldFilters() == old(FieldFilters())[3 := Some(f)] && distinct == old(distinct)
      ensures old(Valid()) ==> Valid()
    {
      if height.None? {
        height := Some(EmptyFilter(DoubleFilter));
      }
      f := height.value;
    }

    /** `setHeight`: replaces the height filter and nothing else. */
    method SetHeight(f: Option<Filter>)
      requires f.Some? ==> f.value.kind == DoubleFilter
      modifies this
      ensures height == f
      ensures FieldFilters() == old(FieldFilters())[3 := f] && distinct == old(distinct)
      ensures old(Valid()) ==> Valid()
    {
      height := f;
    }

    /** `weight()`: the weight filter, created empty when it was null. */
    method Weight() returns (f: Filter)
      modifies this
      ensures weight == Some(f)
      ensures old(weight).Some? ==> f == old(weight).value && FieldFilters() == old(FieldFilters())
      ensures old(weight).None? ==> f == EmptyFilter(DoubleFilter)
      ensures FieldFilters() == old(FieldFilters())[4 := Some(f)] && distinct == old(distinct)
      ensures old(Valid()) ==> Valid()
    {
      if weight.None? {
        weight := Some(EmptyFilter(DoubleFilter));
      }
      f := weight.value;
    }

    /** `setWeight`: replaces the weight filter and nothing else. */
    method SetWeight(f: Option<Filter>)
      requires f.Some? ==> f.value.kind == DoubleFilter
      modifies this
      ensures weight == f
      ensures FieldFilters() == old(FieldFilters())[4 := f] && distinct == old(distinct)
      ensures old(Valid()) ==> Valid()
    {
      weight := f;
    }

    /** `baskets()`: the baskets filter, created empty when it was null. */
    method Baskets() returns (f: Filter)
      modifies this
      ensures baskets == Some(f)
      ensures old(baskets).Some? ==> f == old(baskets).value && FieldFilters() == old(FieldFilters())
      ensures old(baskets).None? ==> f == EmptyFilter(IntegerFilter)
      ensures FieldFilters() == old(FieldFilters())[5 := Some(f)] && distinct == old(distinct)
      ensures old(Valid()) ==> Valid()
    {
      if baskets.None? {
        baskets := Some(EmptyFilter(IntegerFilter));
      }
      f := baskets.value;
    }

    /** `setBaskets`: replaces the baskets filter and nothing else. */
    method SetBaskets(f: Option<Filter>)
      requires f.Some? ==> f.value.kind == IntegerFilter
      modifies this
      ensures baskets == f
      ensures FieldFilters() == old(FieldFilters())[5 := f] && distinct == old(distinct)
      ensures old(Valid()) ==> Valid()
    {
      baskets := f;
    }

    /** `assists()`: the assists filter, created empty when it was null. */
    method Assists() returns (f: Filter)
      modifies this
      ensures assists == Some(f)
      ensures old(assists).Some? ==> f == old(assists).value && FieldFilters() == old(FieldFilters())
      ensures old(assists).None? ==> f == EmptyFilter(IntegerFilter)
      ensures FieldFilters() == old(FieldFilters())[6 := Some(f)] && distinct == old(distinct)
      ensures old(Valid()) ==> Valid()
    {
      if assists.None? {
        assists := Some(EmptyFilter(IntegerFilter));
      }
      f := assists.value;
    }

    /** `setAssists`: replaces the assists filter and nothing else. */
    method SetAssists(f: Option<Filter>)
      requires f.Some? ==> f.value.kind == IntegerFilter
      modifies this
      ensures assists == f
      ensures FieldFilters() == old(FieldFilters())[6 := f] && distinct == old(distinct)
      ensures old(Valid()) ==> Valid()
    {
      assists := f;
    }

    /** `teamId()`: the teamId filter, created empty when it was null. */
    method TeamId() returns (f: Filter)
      modifies this
      ensures teamId == Some(f)
      ensures old(teamId).Some? ==> f == old(teamId).value && FieldFilters() == old(FieldFilters())
      ensures old(teamId).None? ==> f == EmptyFilter(LongFilter)
      ensures FieldFilters() == old(FieldFilters())[7 := Some(f)] && distinct == old(distinct)
      ensures old(Valid()) ==> Valid()
    {
      if teamId.None? {
        teamId := Some(EmptyFilter(LongFilter));
      }
      f := teamId.value;
    }

    /** `setTeamId`: replaces the teamId filter and nothing else. */
    method SetTeamId(f: Option<Filter>)
      requires f.Some? ==> f.value.kind == LongFilter
      modifies this
      ensures teamId == f
      ensures FieldFilters() == old(FieldFilters())[7 := f] && distinct == old(distinct)
      ensures old(Valid()) ==> Valid()
    {
      teamId := f;
    }

    /** `setDistinct`: replaces the flag and no filter. */
    method SetDistinct(d: Option<bool>)
      modifies this
      ensures distinct == d && FieldFilters() == old(FieldFilters())
      ensures old(Valid()) ==> Valid()
    {
      distinct := d;
    }

    /**
     * `equals`: true for the same object; false for null and for an object of
     * another class; otherwise true exactly when all nine fields are equal.
     */
    function Equals(o: object?): (r: bool)
      reads this, o
      ensures this == o ==> r
      ensures o == null ==> !r
      ensures o != null && !(o is PlayerCriteria) ==> !r
      ensures o != null && o is PlayerCriteria ==>
        (r <==> FieldFilters() == (o as PlayerCriteria).FieldFilters() && distinct == (o as PlayerCriteria).distinct)
    {
      if this == o then true
      else if o == null || !(o is PlayerCriteria) then false
      else
        var that := o as PlayerCriteria;
        id == that.id &&
        name == that.name &&
        birthDate == that.birthDate &&
        height == that.height &&
        weight == that.weight &&
        baskets == that.baskets &&
        assists == that.assists &&
        teamId == that.teamId &&
        distinct == that.distinct
    }

    /**
     * The nine hashes `hashCode` combines, in declaration order: each filter
     * field by the filter library's hash and null as 0, then `distinct` by
     * `Boolean.hashCode` and null as 0.
     */
    function FieldHashes(filterHash: Filter -> Int32): (hashes: seq<Int32>)
      reads this
      ensures |hashes| == |FieldKinds| + 1
      ensures forall k :: 0 <= k < |FieldKinds| ==>
        hashes[k] == if FieldFilters()[k].Some? then filterHash(FieldFilters()[k].value) else 0
      ensures hashes[|FieldKinds|] == if distinct.Some? then BooleanHash(distinct.value) else 0
    {
      [HashOrZero(id, filterHash), HashOrZero(name, filterHash), HashOrZero(birthDate, filterHash),
       HashOrZero(height, filterHash), HashOrZero(weight, filterHash), HashOrZero(baskets, filterHash),
       HashOrZero(assists, filterHash), HashOrZero(teamId, filterHash), HashOrZero(distinct, BooleanHash)]
    }

    /**
     * `hashCode`: `Objects.hash` over the same nine fields `equals` compares.
     * The filters' own hash codes come from the filter library, given here as
     * `filterHash`.
     */
    function HashCode(filterHash: Filter -> Int32): (h: Int32)
      reads this
      ensures h == HashOf(FieldHashes(filterHash))
      ensures FieldFilters() == NoFilters && distinct == None ==> h == -196513505
    {
      NineNullsHash();
      HashOf([
        HashOrZero(id, filterHash),
        HashOrZero(name, filterHash),
        HashOrZero(birthDate, filterHash),
        HashOrZero(height, filterHash),
        HashOrZero(weight, filterHash),
        HashOrZero(baskets, filterHash),
        HashOrZero(assists, filterHash),
        HashOrZero(teamId, filterHash),
        HashOrZero(distinct, BooleanHash)
      ])
    }

    /** What `toString` prints for the nine fields, `distinct` last. */
    function Rendered(show: Filter -> string): (values: seq<Option<string>>)
      reads this
      ensures |values| == |FieldNames| + 1
    {
      [Render(id, show), Render(name, show), Render(birthDate, show), Render(height, show), Render(weight, show),
       Render(baskets, show), Render(assists, show), Render(teamId, show), Render(distinct, BooleanString)]
    }

    /**
     * `toString`: `PlayerCriteria{`, one `name=value, ` segment for exactly the
     * non-null fields in declaration order, and `}`. The filters' own text comes
     * from the filter library, given here as `show`.
     */
    function ToString(show: Filter -> string): (s: string)
      reads this
      ensures s == Append("PlayerCriteria{", FieldNames + ["distinct"], Rendered(show)) + "}"
      ensures s == "PlayerCriteria{" + Segments(FieldNames + ["distinct"], Rendered(show)) + "}"
      ensures FieldFilters() == NoFilters && distinct == None ==> s == "PlayerCriteria{}"
    {
      AppendNine("PlayerCriteria{", FieldNames + ["distinct"], Rendered(show));
      AppendKeepsText("PlayerCriteria{", FieldNames + ["distinct"], Rendered(show));
      NothingToRender(FieldNames + ["distinct"], Rendered(show));
      "PlayerCriteria{" +
      Segment("id", Render(id, show)) +
      Segment("name", Render(name, show)) +
      Segment("birthDate", Render(birthDate, show)) +
      Segment("height", Render(height, show)) +
      Segment("weight", Render(weight, show)) +
      Segment("baskets", Render(baskets, show)) +
      Segment("assists", Render(assists, show)) +
      Segment("teamId", Render(teamId, show)) +
      Segment("distinct", Render(distinct, BooleanString)) +
      "}"
    }
  }

  /**
   * A field with text prints `name=text, ` between the segments of the fields
   * before it and those of the fields after it.
   */
  lemma PresentSegmentPrinted(open: string, names: seq<string>, values: seq<Option<string>>, k: nat, text: string)
    requires |names| == |values| && k < |names| && values[k] == Some(text)
    ensures open + Segments(names, values) + "}" ==
      open + Segments(names[..k], values[..k]) + names[k] + "=" + text + ", " + Segments(names[k + 1..], values[k + 1..]) + "}"
  {
    var before, after := Segments(names[..k], values[..k]), Segments(names[k + 1..], values[k + 1..]);
    var x := names[k];
    var own := Segment(x, values[k]);
    SegmentsSplit(names, values, k);
    assert open + (before + own + after) + "}" == open + before + own + after + "}";
    var ob := open + before;
    calc {
      ob + own;
      ob + (((x + "=") + text) + ", ");
      (ob + ((x + "=") + text)) + ", ";
      ((ob + (x + "=")) + text) + ", ";
      (((ob + x) + "=") + text) + ", ";
    }
  }

  /**
   * Every non-null filter field is printed by `toString` as `name=value, `,
   * with the filter library's text for its filter, right after the segments of
   * the fields declared before it and before those of the fields after it.
   */
  lemma PresentFieldPrinted(c: PlayerCriteria, show: Filter -> string, k: nat)
    requires k < |FieldNames| && c.FieldFilters()[k].Some?
    ensures var names, values := FieldNames + ["distinct"], c.Rendered(show);
      c.ToString(show) ==
        "PlayerCriteria{" + Segments(names[..k], values[..k]) +
        FieldNames[k] + "=" + show(c.FieldFilters()[k].value) + ", " +
        Segments(names[k + 1..], values[k + 1..]) + "}"
  {
    var names, values := FieldNames + ["distinct"], c.Rendered(show);
    assert values[k] == Some(show(c.FieldFilters()[k].value)) && names[k] == FieldNames[k];
    PresentSegmentPrinted("PlayerCriteria{", names, values, k, show(c.FieldFilters()[k].value));
  }

  /** `equals` is symmetric. */
  lemma EqualsSymmetric(a: PlayerCriteria, b: PlayerCriteria)
    requires a.Equals(b)
    ensures b.Equals(a)
  {
  }

  /** `equals` is transitive. */
  lemma EqualsTransitive(a: PlayerCriteria, b: PlayerCriteria, c: PlayerCriteria)
    requires a.Equals(b) && b.Equals(c)
    ensures a.Equals(c)
  {
  }

  /** Equal criteria have equal hash codes, whatever hash the filter library uses. */
  lemma EqualsAgreesWithHashCode(a: PlayerCriteria, b: PlayerCriteria, filterHash: Filter -> Int32)
    requires a.Equals(b)
    ensures a.HashCode(filterHash) == b.HashCode(filterHash)
  {
  }

  /**
   * A criteria with every field null hashes like `Objects.hash` of nine nulls:
   * 31 to the ninth power, wrapped to a Java `int`.
   */
  lemma EmptyCriteriaHashCode(c: PlayerCriteria, filterHash: Filter -> Int32)
    requires c.FieldFilters() == NoFilters && c.distinct == None
    ensures c.HashCode(filterHash) == -196513505
  {
    assert c.id == None && c.name == None && c.birthDate == None && c.height == None;
    assert c.weight == None && c.baskets == None && c.assists == None && c.teamId == None;
    NineNullsHash();
    assert c.HashCode(filterHash) == HashOf([0, 0, 0, 0, 0, 0, 0, 0, 0]);
  }
}
