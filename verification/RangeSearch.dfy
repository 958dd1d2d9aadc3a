/** Resolving one filter to the positions of a sorted coordinate that satisfy it. */
module RangeSearch {
  import opened Options
  import opened Arithmetic
  import opened Selection
  import opened CompactCoords

  /** A coordinate's values, spelled out or encoded. */
  datatype CoordValues =
    | Explicit(v: seq<int>, isTimestamp: bool)
    | Compact(enc: Encoding, isTimestamp: bool)
  {
    function Len(): nat {
      match this
      case Explicit(v, _) => |v|
      case Compact(enc, _) => enc.len
    }

    /** The vector the coordinate stands for. */
    function Vector(): (v: seq<int>)
      ensures |v| == Len()
    {
      match this
      case Explicit(v, _) => v
      case Compact(enc, _) => enc.Expand()
    }
  }

  /** The value of a date part of an instant, when the field is one that is extracted. */
  type Calendar = (string, int) -> Option<int>

  datatype FilterKind =
    | Eq(value: int)
    | Between(low: Option<int>, high: Option<int>, lowInclusive: bool, highInclusive: bool)
    | DatePart(field: string, part: int)
    | InList(values: seq<int>)
    | DatePartSet(field: string, parts: seq<int>)

  predicate AboveLow(x: int, low: Option<int>, inclusive: bool) {
    low.Some? ==> if inclusive then low.value <= x else low.value < x
  }

  predicate BelowHigh(x: int, high: Option<int>, inclusive: bool) {
    high.Some? ==> if inclusive then x <= high.value else x < high.value
  }

  predicate InBounds(x: int, low: Option<int>, high: Option<int>, lowInclusive: bool, highInclusive: bool) {
    AboveLow(x, low, lowInclusive) && BelowHigh(x, high, highInclusive)
  }

  /** What a filter says of one coordinate value; a date part exists of instants only. */
  predicate Matches(cal: Calendar, isTimestamp: bool, f: FilterKind, x: int) {
    match f
    case Eq(value) => x == value
    case Between(low, high, li, hi) => InBounds(x, low, high, li, hi)
    case DatePart(field, part) => isTimestamp && cal(field, x) == Some(part)
    case InList(values) => x in values
    case DatePartSet(field, parts) => isTimestamp && cal(field, x).Some? && cal(field, x).value in parts
  }

  // ---------------------------------------------------------------------------------------------
  // Bound searches
  // ---------------------------------------------------------------------------------------------

  predicate IsDescending(c: CoordValues) {
    c.Len() >= 2 &&
    match c
    case Explicit(v, _) => v[0] > v[|v| - 1]
    case Compact(enc, _) => enc.step < 0
  }

  function LowerIndex(c: CoordValues, t: int): nat {
    match c
    case Explicit(v, _) => PartitionPoint(v, Less(t))
    case Compact(enc, _) => LowerBound(enc, t)
  }

  function UpperIndex(c: CoordValues, t: int): nat {
    match c
    case Explicit(v, _) => PartitionPoint(v, AtMost(t))
    case Compact(enc, _) => UpperBound(enc, t)
  }

  function DescendingSearch(c: CoordValues, t: int, kind: BoundKind, inclusive: bool): nat {
    match c
    case Explicit(v, _) => PartitionPoint(v, DescendingCut(t, kind, inclusive))
    case Compact(enc, _) => DescendingBound(enc, t, kind, inclusive, EPSILON)
  }

  function RangeStart(c: CoordValues, low: Option<int>, high: Option<int>, lowInclusive: bool, highInclusive: bool): nat {
    if IsDescending(c) then
      (if high.Some? then DescendingSearch(c, high.value, FirstLeq, highInclusive) else 0)
    else if low.None? then 0
    else if lowInclusive then LowerIndex(c, low.value)
    else if UpperIndex(c, low.value) > LowerIndex(c, low.value) then UpperIndex(c, low.value)
    else LowerIndex(c, low.value)
  }

  function RangeEnd(c: CoordValues, low: Option<int>, high: Option<int>, lowInclusive: bool, highInclusive: bool): nat {
    if IsDescending(c) then
      (if low.Some? then DescendingSearch(c, low.value, FirstLt, lowInclusive) else c.Len())
    else if high.None? then c.Len()
    else if highInclusive then UpperIndex(c, high.value)
    else LowerIndex(c, high.value)
  }

  function FindRange(c: CoordValues, low: Option<int>, high: Option<int>, lowInclusive: bool, highInclusive: bool): Option<(nat, nat)> {
    if c.Len() == 0 then None
    else
      var start := RangeStart(c, low, high, lowInclusive, highInclusive);
      var end := RangeEnd(c, low, high, lowInclusive, highInclusive);
      if start < end then Some((start, end)) else None
  }

  function FindValue(c: CoordValues, t: int): Option<nat> {
    match c
    case Explicit(v, _) => FirstIndex(v, t)
    case Compact(enc, _) => CompactIndex(enc, t)
  }

  // ---------------------------------------------------------------------------------------------
  // Exactness on sorted vectors
  // ---------------------------------------------------------------------------------------------

  ghost predicate SortedUp(v: seq<int>) {
    forall i, j :: 0 <= i < j < |v| ==> v[i] <= v[j]
  }

  ghost predicate SortedDown(v: seq<int>) {
    forall i, j :: 0 <= i < j < |v| ==> v[i] >= v[j]
  }

  lemma PointOnSorted(v: seq<int>, cut: Cut)
    requires if cut.Less? || cut.AtMost? then SortedUp(v) else SortedDown(v)
    ensures forall i :: 0 <= i < |v| ==> (i < PartitionPoint(v, cut) <==> cut.Holds(v[i]))
  {
  }

  lemma ConstantIsUp(v: seq<int>)
    requires SortedDown(v) && |v| > 0 && v[0] <= v[|v| - 1]
    ensures SortedUp(v)
  {
    forall i | 0 <= i < |v| ensures v[i] == v[0] {
      assert v[0] >= v[i] >= v[|v| - 1];
    }
  }

  /** The positions `[start, end)` are exactly the matching ones, and None means there are none. */
  ghost predicate ExactlyWhere(r: Option<(nat, nat)>, v: seq<int>, low: Option<int>, high: Option<int>, lowInclusive: bool, highInclusive: bool) {
    && (r.Some? ==> r.value.0 < r.value.1 <= |v|)
    && forall i :: 0 <= i < |v| ==>
         (InBounds(v[i], low, high, lowInclusive, highInclusive) <==> r.Some? && r.value.0 <= i < r.value.1)
  }

  /** Range search is exact on every sorted vector, in either direction, with any bounds. */
  lemma RangeSearchExact(v: seq<int>, isTimestamp: bool, low: Option<int>, high: Option<int>, lowInclusive: bool, highInclusive: bool)
    requires SortedUp(v) || SortedDown(v)
    ensures ExactlyWhere(FindRange(Explicit(v, isTimestamp), low, high, lowInclusive, highInclusive), v, low, high, lowInclusive, highInclusive)
  {
    if |v| > 0 {
      StartExact(v, isTimestamp, low, high, lowInclusive, highInclusive);
      EndExact(v, isTimestamp, low, high, lowInclusive, highInclusive);
    }
  }

  lemma SortedAsSeen(v: seq<int>, isTimestamp: bool)
    requires |v| > 0 && (SortedUp(v) || SortedDown(v))
    ensures if IsDescending(Explicit(v, isTimestamp)) then SortedDown(v) else SortedUp(v)
  {
    if !IsDescending(Explicit(v, isTimestamp)) && !SortedUp(v) { ConstantIsUp(v); }
  }

  /** The start index cuts off exactly the positions that violate one of the bounds. */
  lemma StartExact(v: seq<int>, isTimestamp: bool, low: Option<int>, high: Option<int>, lowInclusive: bool, highInclusive: bool)
    requires |v| > 0 && (SortedUp(v) || SortedDown(v))
    ensures var c := Explicit(v, isTimestamp);
            var start := RangeStart(c, low, high, lowInclusive, highInclusive);
            forall i :: 0 <= i < |v| ==>
              (start <= i <==> if IsDescending(c) then BelowHigh(v[i], high, highInclusive) else AboveLow(v[i], low, lowInclusive))
  {
    SortedAsSeen(v, isTimestamp);
    if IsDescending(Explicit(v, isTimestamp)) {
      if high.Some? { PointOnSorted(v, DescendingCut(high.value, FirstLeq, highInclusive)); }
    } else if low.Some? {
      PointOnSorted(v, Less(low.value));
      PointOnSorted(v, AtMost(low.value));
    }
  }

  /** The end index cuts off exactly the positions that violate the other bound. */
  lemma EndExact(v: seq<int>, isTimestamp: bool, low: Option<int>, high: Option<int>, lowInclusive: bool, highInclusive: bool)
    requires |v| > 0 && (SortedUp(v) || SortedDown(v))
    ensures var c := Explicit(v, isTimestamp);
            var end := RangeEnd(c, low, high, lowInclusive, highInclusive);
            && end <= |v|
            && forall i :: 0 <= i < |v| ==>
              (i < end <==> if IsDescending(c) then AboveLow(v[i], low, lowInclusive) else BelowHigh(v[i], high, highInclusive))
  {
    SortedAsSeen(v, isTimestamp);
    if IsDescending(Explicit(v, isTimestamp)) {
      if low.Some? { PointOnSorted(v, DescendingCut(low.value, FirstLt, lowInclusive)); }
    } else if high.Some? {
      PointOnSorted(v, Less(high.value));
      PointOnSorted(v, AtMost(high.value));
    }
  }

  // ---------------------------------------------------------------------------------------------
  // Compact coordinates refine the vector they expand to
  // ---------------------------------------------------------------------------------------------

  /** The guard under which the closed forms may stand for the vector. */
  ghost predicate Searchable(c: Encoding) {
    && (c.len == 1 ==> c.step >= 0)
    && (c.len >= 2 && c.step < 0 ==> EPSILON <= Ratio(1, -c.step))
  }

  lemma DescendingAgrees(c: Encoding, ts: bool)
    requires c.len >= 1 && Searchable(c)
    ensures IsDescending(Compact(c, ts)) <==> IsDescending(Explicit(c.Expand(), ts))
    ensures !IsDescending(Compact(c, ts)) ==> c.step >= 0
  {
    if c.len >= 2 {
      assert c.ValueAt(c.len - 1) - c.ValueAt(0) == (c.len - 1) * c.step;
      if c.step < 0 { MulMono(1, c.len - 1, -c.step); assert (c.len - 1) * c.step == -((c.len - 1) * -c.step); }
      else { MulMono(0, c.len - 1, c.step); }
    }
  }

  /** On a searchable encoding the closed-form range equals the range found in the vector. */
  lemma CompactRangeAgrees(c: Encoding, ts: bool, low: Option<int>, high: Option<int>, lowInclusive: bool, highInclusive: bool)
    requires Searchable(c)
    ensures FindRange(Compact(c, ts), low, high, lowInclusive, highInclusive)
            == FindRange(Explicit(c.Expand(), ts), low, high, lowInclusive, highInclusive)
  {
    if c.len >= 1 {
      CompactStartAgrees(c, ts, low, high, lowInclusive, highInclusive);
      CompactEndAgrees(c, ts, low, high, lowInclusive, highInclusive);
    }
  }

  lemma CompactStartAgrees(c: Encoding, ts: bool, low: Option<int>, high: Option<int>, lowInclusive: bool, highInclusive: bool)
    requires Searchable(c) && c.len >= 1
    ensures RangeStart(Compact(c, ts), low, high, lowInclusive, highInclusive)
            == RangeStart(Explicit(c.Expand(), ts), low, high, lowInclusive, highInclusive)
  {
    DescendingAgrees(c, ts);
    if c.step < 0 {
      if high.Some? { DescendingBoundAgrees(c, high.value, FirstLeq, highInclusive, EPSILON); }
    } else if low.Some? {
      LowerBoundAgrees(c, low.value);
      UpperBoundAgrees(c, low.value);
    }
  }

  lemma CompactEndAgrees(c: Encoding, ts: bool, low: Option<int>, high: Option<int>, lowInclusive: bool, highInclusive: bool)
    requires Searchable(c) && c.len >= 1
    ensures RangeEnd(Compact(c, ts), low, high, lowInclusive, highInclusive)
            == RangeEnd(Explicit(c.Expand(), ts), low, high, lowInclusive, highInclusive)
  {
    DescendingAgrees(c, ts);
    if c.step < 0 {
      if low.Some? { DescendingBoundAgrees(c, low.value, FirstLt, lowInclusive, EPSILON); }
    } else if high.Some? {
      LowerBoundAgrees(c, high.value);
      UpperBoundAgrees(c, high.value);
    }
  }

  /** The closed forms agree with the vector on every range filter exactly when the guard holds. */
  lemma CompactRangeIff(c: Encoding, ts: bool)
    ensures (forall low, high, li, hi ::
               FindRange(Compact(c, ts), low, high, li, hi) == FindRange(Explicit(c.Expand(), ts), low, high, li, hi))
            <==> Searchable(c)
  {
    if Searchable(c) {
      forall low, high, li, hi
        ensures FindRange(Compact(c, ts), low, high, li, hi) == FindRange(Explicit(c.Expand(), ts), low, high, li, hi)
      {
        CompactRangeAgrees(c, ts, low, high, li, hi);
      }
    } else if c.len == 1 {
      SingletonMissed(c, ts);
    } else {
      EpsilonMissed(c, ts);
    }
  }

  /** One value with a negative step (a slice of a longer encoding) is searched in the wrong direction. */
  lemma SingletonMissed(c: Encoding, ts: bool)
    requires c.len == 1 && c.step < 0
    ensures FindRange(Compact(c, ts), Some(c.first + 1), None, true, true) == Some((0, 1))
    ensures FindRange(Explicit(c.Expand(), ts), Some(c.first + 1), None, true, true) == None
  {
    assert Ratio(1, c.step) <= 0.0;
    assert Ceil(Ratio(1, c.step)) <= 0;
    assert c.Expand() == [c.first];
    PartitionPointIs(c.Expand(), Less(c.first + 1), 1);
  }

  lemma EpsilonMissed(c: Encoding, ts: bool)
    requires c.len >= 2 && c.step < 0 && EPSILON > Ratio(1, -c.step)
    ensures exists t :: FindRange(Compact(c, ts), None, Some(t), true, false)
                        != FindRange(Explicit(c.Expand(), ts), None, Some(t), true, false)
  {
    EpsilonIff(c, EPSILON);
    var t :| DescendingBound(c, t, FirstLeq, false, EPSILON) != PartitionPoint(c.Expand(), AtLeast(t));
    ExpandsDownward(c);
    var v := c.Expand();
    assert IsDescending(Compact(c, ts)) && IsDescending(Explicit(v, ts));
    assert FindRange(Compact(c, ts), None, Some(t), true, false) != FindRange(Explicit(v, ts), None, Some(t), true, false);
  }

  lemma ExpandsDownward(c: Encoding)
    requires c.len >= 2 && c.step < 0
    ensures c.Expand()[0] > c.Expand()[c.len - 1]
  {
    MulMono(1, c.len - 1, -c.step);
    assert (c.len - 1) * c.step == -((c.len - 1) * -c.step);
  }

  // ---------------------------------------------------------------------------------------------
  // Scattered positions
  // ---------------------------------------------------------------------------------------------

  function InsertPosition(x: nat, s: seq<nat>): (r: seq<nat>)
    ensures forall y :: y in r <==> y == x || y in s
  {
    if s == [] then [x]
    else if x < s[0] then [x] + s
    else if x == s[0] then s
    else
      assert s == [s[0]] + s[1..];
      [s[0]] + InsertPosition(x, s[1..])
  }

  /** `sort_unstable` followed by `dedup`. */
  function SortDedup(s: seq<nat>): (r: seq<nat>)
    ensures forall y :: y in r <==> y in s
  {
    if s == [] then [] else InsertPosition(s[0], SortDedup(s[1..]))
  }

  lemma {:induction false} InsertAscending(x: nat, s: seq<nat>)
    requires Ascending(s)
    ensures Ascending(InsertPosition(x, s))
  {
    if s != [] && x > s[0] {
      InsertAscending(x, s[1..]);
      var r := InsertPosition(x, s[1..]);
      forall j | 0 <= j < |r| ensures s[0] < r[j] { assert r[j] == x || r[j] in s[1..]; }
    }
  }

  lemma {:induction false} SortDedupAscending(s: seq<nat>)
    ensures Ascending(SortDedup(s))
  {
    if s != [] {
      SortDedupAscending(s[1..]);
      InsertAscending(s[0], SortDedup(s[1..]));
    }
  }

  function ValuePositions(c: CoordValues, values: seq<int>): seq<nat> {
    if values == [] then []
    else
      var r := FindValue(c, values[0]);
      (if r.Some? then [r.value] else []) + ValuePositions(c, values[1..])
  }

  /** Positions from `from` on whose date part is `part`; compact coordinates have none. */
  function PartPositionsFrom(cal: Calendar, c: CoordValues, field: string, part: int, from: nat): (r: seq<nat>)
    ensures forall i :: i in r ==> from <= i < c.Len()
    ensures c.Explicit? && c.isTimestamp ==> forall i :: from <= i < c.Len() ==> (i in r <==> cal(field, c.v[i]) == Some(part))
    ensures !(c.Explicit? && c.isTimestamp) ==> r == []
    decreases c.Len() - from
  {
    if !(c.Explicit? && c.isTimestamp) || from >= |c.v| then []
    else (if cal(field, c.v[from]) == Some(part) then [from] else []) + PartPositionsFrom(cal, c, field, part, from + 1)
  }

  lemma {:induction false} PartPositionsAscending(cal: Calendar, c: CoordValues, field: string, part: int, from: nat)
    ensures Ascending(PartPositionsFrom(cal, c, field, part, from))
    decreases c.Len() - from
  {
    if c.Explicit? && c.isTimestamp && from < |c.v| {
      PartPositionsAscending(cal, c, field, part, from + 1);
      var rest := PartPositionsFrom(cal, c, field, part, from + 1);
      assert forall j :: 0 <= j < |rest| ==> rest[j] in rest;
    }
  }

  function PartSetPositions(cal: Calendar, c: CoordValues, field: string, parts: seq<int>): seq<nat> {
    if parts == [] then [] else PartPositionsFrom(cal, c, field, parts[0], 0) + PartSetPositions(cal, c, field, parts[1..])
  }

  function NonEmptyIndices(indices: seq<nat>): Option<CoordSelection> {
    if indices == [] then None else Some(Indices(indices))
  }

  /** `resolve_single_filter`. */
  function ResolveSingle(cal: Calendar, f: FilterKind, c: CoordValues): Option<CoordSelection> {
    match f
    case DatePart(field, part) => NonEmptyIndices(PartPositionsFrom(cal, c, field, part, 0))
    case DatePartSet(field, parts) => NonEmptyIndices(SortDedup(PartSetPositions(cal, c, field, parts)))
    case InList(values) => NonEmptyIndices(SortDedup(ValuePositions(c, values)))
    case Eq(value) =>
      var r := FindValue(c, value);
      if r.Some? then Some(Range(r.value, r.value + 1)) else None
    case Between(low, high, li, hi) =>
      var r := FindRange(c, low, high, li, hi);
      if r.Some? then Some(Range(r.value.0, r.value.1)) else None
  }

  // ---------------------------------------------------------------------------------------------
  // One filter resolves exactly
  // ---------------------------------------------------------------------------------------------

  ghost predicate Distinct(v: seq<int>) {
    forall i, j :: 0 <= i < j < |v| ==> v[i] != v[j]
  }

  /** A coordinate as the domain supplies it: distinct, sorted, and soundly encoded. */
  ghost predicate CoordOk(c: CoordValues) {
    && (SortedUp(c.Vector()) || SortedDown(c.Vector()))
    && Distinct(c.Vector())
    && (c.Compact? ==> Searchable(c.enc) && (c.enc.len > 0 || c.enc.step != 0))
  }

  /** Date parts are found on spelled-out coordinates only. */
  predicate Resolvable(f: FilterKind, c: CoordValues) {
    (f.DatePart? || f.DatePartSet?) && c.isTimestamp ==> c.Explicit?
  }

  lemma FindValueExact(c: CoordValues, t: int)
    requires CoordOk(c)
    ensures FindValue(c, t).Some? ==> FindValue(c, t).value < c.Len()
    ensures forall i :: 0 <= i < c.Len() ==> (c.Vector()[i] == t <==> FindValue(c, t) == Some(i))
  {
    if c.Compact? { CompactIndexAgrees(c.enc, t); }
  }

  lemma {:induction false} ValuePositionsExact(c: CoordValues, values: seq<int>)
    requires CoordOk(c)
    ensures forall i :: i in ValuePositions(c, values) ==> i < c.Len()
    ensures forall i :: 0 <= i < c.Len() ==> (i in ValuePositions(c, values) <==> c.Vector()[i] in values)
  {
    if values != [] {
      FindValueExact(c, values[0]);
      ValuePositionsExact(c, values[1..]);
    }
  }

  lemma {:induction false} PartSetPositionsExact(cal: Calendar, c: CoordValues, field: string, parts: seq<int>)
    requires c.isTimestamp ==> c.Explicit?
    ensures forall i :: i in PartSetPositions(cal, c, field, parts) ==> i < c.Len()
    ensures forall i :: 0 <= i < c.Len() ==>
              (i in PartSetPositions(cal, c, field, parts) <==> Matches(cal, c.isTimestamp, DatePartSet(field, parts), c.Vector()[i]))
  {
    if parts != [] { PartSetPositionsExact(cal, c, field, parts[1..]); }
  }

  /** A resolved filter selects exactly the positions whose value satisfies it. */
  ghost predicate ResolvesTo(r: Option<CoordSelection>, cal: Calendar, f: FilterKind, c: CoordValues) {
    && (r.Some? ==> r.value.Valid() && !r.value.IsEmpty())
    && (r.Some? ==> forall i: nat :: r.value.Has(i) ==> i < c.Len())
    && forall i :: 0 <= i < c.Len() ==> (Matches(cal, c.isTimestamp, f, c.Vector()[i]) <==> r.Some? && r.value.Has(i))
  }

  lemma SingleFilterExact(cal: Calendar, f: FilterKind, c: CoordValues)
    requires CoordOk(c) && Resolvable(f, c)
    ensures ResolvesTo(ResolveSingle(cal, f, c), cal, f, c)
    ensures ResolveSingle(cal, f, c).Some? ==> (ResolveSingle(cal, f, c).value.Range? <==> f.Eq? || f.Between?)
  {
    match f
    case DatePart(field, part) => PartExact(cal, field, part, c);
    case DatePartSet(field, parts) => PartSetExact(cal, field, parts, c);
    case InList(values) => InListExact(cal, values, c);
    case Eq(value) => EqExact(cal, value, c);
    case Between(low, high, li, hi) => BetweenExact(cal, f, c);
  }

  lemma BetweenExact(cal: Calendar, f: FilterKind, c: CoordValues)
    requires CoordOk(c) && f.Between?
    ensures ResolvesTo(ResolveSingle(cal, f, c), cal, f, c)
  {
    RangeSearchExact(c.Vector(), c.isTimestamp, f.low, f.high, f.lowInclusive, f.highInclusive);
    if c.Compact? { CompactRangeAgrees(c.enc, c.isTimestamp, f.low, f.high, f.lowInclusive, f.highInclusive); }
  }

  lemma EqExact(cal: Calendar, value: int, c: CoordValues)
    requires CoordOk(c)
    ensures ResolvesTo(ResolveSingle(cal, Eq(value), c), cal, Eq(value), c)
  {
    FindValueExact(c, value);
  }

  lemma PartExact(cal: Calendar, field: string, part: int, c: CoordValues)
    requires c.isTimestamp ==> c.Explicit?
    ensures ResolvesTo(ResolveSingle(cal, DatePart(field, part), c), cal, DatePart(field, part), c)
  {
    PartPositionsAscending(cal, c, field, part, 0);
  }

  lemma PartSetExact(cal: Calendar, field: string, parts: seq<int>, c: CoordValues)
    requires c.isTimestamp ==> c.Explicit?
    ensures ResolvesTo(ResolveSingle(cal, DatePartSet(field, parts), c), cal, DatePartSet(field, parts), c)
  {
    PartSetPositionsExact(cal, c, field, parts);
    SortDedupAscending(PartSetPositions(cal, c, field, parts));
  }

  lemma InListExact(cal: Calendar, values: seq<int>, c: CoordValues)
    requires CoordOk(c)
    ensures ResolvesTo(ResolveSingle(cal, InList(values), c), cal, InList(values), c)
  {
    ValuePositionsExact(c, values);
    SortDedupAscending(ValuePositions(c, values));
  }

  /** A calendar on which every instant has part 0 of every field. */
  function ConstantCalendar(): Calendar { (_, _) => Some(0) }

  /** A date-part filter: one part, or a set of parts. */
  predicate AsksPart(f: FilterKind) { f.DatePart? || f.DatePartSet? }

  /** Positions that match a date part are lost when the instants are encoded compactly. */
  lemma CompactTimestampLosesRow(cal: Calendar, c: CoordValues, field: string, part: int, i: nat)
    requires c.Compact? && c.isTimestamp && i < c.Len() && cal(field, c.Vector()[i]) == Some(part)
    ensures Matches(cal, c.isTimestamp, DatePart(field, part), c.Vector()[i])
    ensures ResolveSingle(cal, DatePart(field, part), c) == None
  {
  }

  /**
   Every date-part filter resolves to exactly its positions, under every calendar, if and only if
   the coordinate is spelled out, is not a timestamp, or is empty.
   */
  lemma DatePartExactIff(c: CoordValues)
    requires CoordOk(c)
    ensures (forall cal: Calendar, f :: AsksPart(f) ==> ResolvesTo(ResolveSingle(cal, f, c), cal, f, c))
            <==> c.Explicit? || !c.isTimestamp || c.Len() == 0
  {
    if c.Explicit? || !c.isTimestamp || c.Len() == 0 {
      forall cal: Calendar, f | AsksPart(f) ensures ResolvesTo(ResolveSingle(cal, f, c), cal, f, c) {
        if c.Len() == 0 { EmptyResolves(cal, f, c); } else { SingleFilterExact(cal, f, c); }
      }
    } else {
      var cal, f := ConstantCalendar(), DatePart([], 0);
      CompactTimestampLosesRow(cal, c, [], 0, 0);
      assert AsksPart(f) && !ResolvesTo(ResolveSingle(cal, f, c), cal, f, c);
    }
  }

  lemma EmptyResolves(cal: Calendar, f: FilterKind, c: CoordValues)
    requires c.Len() == 0 && AsksPart(f)
    ensures ResolveSingle(cal, f, c) == None
  {
    if f.DatePartSet? { NoParts(cal, c, f.field, f.parts); }
  }

  lemma {:induction false} NoParts(cal: Calendar, c: CoordValues, field: string, parts: seq<int>)
    requires c.Len() == 0
    ensures PartSetPositions(cal, c, field, parts) == []
  {
    if parts != [] { NoParts(cal, c, field, parts[1..]); }
  }
}
