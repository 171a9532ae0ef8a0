/**
 * Discrete intervals over the integers, as in `jacz.util.numeric.newrange.Range`.
 * A missing bound (Java `null`) stands for minus or plus infinity, and a range
 * whose minimum exceeds its maximum is empty.
 */
module Ranges {
  import opened Optional

  /** How a value places with respect to a range (`Range.ValueComparison`). */
  datatype ValueComparison = AnyEmpty | Left | Right | Contains

  /** How this range places with respect to another (`Range.RangeComparison`). */
  datatype RangeComparison =
    | AnyEmpty
    | LeftNoContact
    | LeftContact
    | LeftOverlap
    | Equals
    | Inside
    | Contains
    | RightOverlap
    | RightContact
    | RightNoContact

  /** The exceptions the range operations can raise. */
  datatype RangeException = NullPointer

  /** A range with optional bounds; integers are unbounded (no byte/short/int/long wrap-around). */
  datatype Range = Range(min: Option<int>, max: Option<int>)

  /** Reference meaning of a range: v lies between the bounds, a missing bound being infinite. */
  predicate Member(r: Range, v: int) {
    (r.min.None? || r.min.value <= v) && (r.max.None? || v <= r.max.value)
  }

  /** `Range.isEmpty`: both bounds present and min > max. */
  predicate IsEmpty(r: Range) {
    r.min.Some? && r.max.Some? && r.min.value > r.max.value
  }

  /** A range is empty exactly when it has no member. */
  lemma EmptyIffNoMember(r: Range)
    ensures IsEmpty(r) <==> forall v :: !Member(r, v)
  {
    if !IsEmpty(r) {
      var w := if r.min.Some? then r.min.value else if r.max.Some? then r.max.value else 0;
      assert Member(r, w);
    }
  }

  /** `Range.next`: the least integer above a bound (nothing lies between them); a null bound throws. */
  function Next(v: Option<int>): (r: Result<int, RangeException>)
    ensures r.Ok? <==> v.Some?
    ensures r.Ok? ==> r.value > v.value && Interval(v.value, r.value) == {v.value, r.value}
  {
    if v.None? then Err(NullPointer) else Ok(v.value + 1)
  }

  /** `Range.previous`: the greatest integer below a bound (nothing lies between them); a null bound throws. */
  function Previous(v: Option<int>): (r: Result<int, RangeException>)
    ensures r.Ok? <==> v.Some?
    ensures r.Ok? ==> r.value < v.value && Interval(r.value, v.value) == {r.value, v.value}
  {
    if v.None? then Err(NullPointer) else Ok(v.value - 1)
  }

  /** `Range.generateEmptyRange`: the range [next(0), 0] = [1, 0]. */
  function GenerateEmptyRange(): (r: Range)
    ensures IsEmpty(r)
    ensures forall v :: !Member(r, v)
  {
    Range(Some(1), Some(0))
  }

  /** `Range.size`: 0 when empty, max - min + 1 when bounded, null when unbounded. */
  function Size(r: Range): (s: Option<int>)
    ensures IsEmpty(r) ==> s == Some(0)
    ensures !IsEmpty(r) ==> (s.Some? <==> r.min.Some? && r.max.Some?)
    ensures s.Some? ==> s.value >= 0
  {
    if IsEmpty(r) then Some(0)
    else if r.min.Some? && r.max.Some? then Some(r.max.value - r.min.value + 1)
    else None
  }

  /** The members of a bounded range, as a finite set. */
  function Interval(lo: int, hi: int): (s: set<int>)
    ensures forall v :: v in s <==> lo <= v <= hi
    decreases hi - lo
  {
    if lo > hi then {} else Interval(lo, hi - 1) + {hi}
  }

  lemma {:induction false} IntervalCardinality(lo: int, hi: int)
    ensures |Interval(lo, hi)| == if lo <= hi then hi - lo + 1 else 0
    decreases hi - lo
  {
    if lo <= hi {
      IntervalCardinality(lo, hi - 1);
      assert hi !in Interval(lo, hi - 1);
    }
  }

  /** When `size` is not null, it is the number of members of the range. */
  lemma SizeCountsMembers(r: Range)
    requires r.min.Some? && r.max.Some?
    ensures Size(r).Some?
    ensures Size(r).value == |Interval(r.min.value, r.max.value)|
    ensures forall v :: v in Interval(r.min.value, r.max.value) <==> Member(r, v)
  {
    IntervalCardinality(r.min.value, r.max.value);
  }

  /** `Range.equals`: any two empty ranges are equal, otherwise the bounds must match. */
  predicate RangeEquals(r: Range, o: Range) {
    if IsEmpty(r) && IsEmpty(o) then true
    else if r.min.Some? && Some(r.min.value) != o.min then false
    else if r.min.None? && o.min.Some? then false
    else if r.max.Some? && Some(r.max.value) != o.max then false
    else if r.max.None? && o.max.Some? then false
    else true
  }

  /** A member of r below every member of o, when r's lower bound is strictly lower. */
  lemma LowerWitness(r: Range, o: Range)
    requires !IsEmpty(r) && !IsEmpty(o) && o.min.Some?
    requires r.min.None? || r.min.value < o.min.value
    ensures exists v :: Member(r, v) && !Member(o, v)
    ensures exists v :: Member(r, v) && forall w :: Member(o, w) ==> v < w
  {
    var b := o.min.value;
    if r.min.Some? {
      assert Member(r, r.min.value);
    } else {
      var v := if r.max.Some? && r.max.value < b then r.max.value else b - 1;
      assert Member(r, v) && !Member(o, v);
    }
  }

  /** A member of r above every member of o, when r's upper bound is strictly higher. */
  lemma UpperWitness(r: Range, o: Range)
    requires !IsEmpty(r) && !IsEmpty(o) && o.max.Some?
    requires r.max.None? || r.max.value > o.max.value
    ensures exists v :: Member(r, v) && !Member(o, v)
    ensures exists v :: Member(r, v) && forall w :: Member(o, w) ==> w < v
  {
    var b := o.max.value;
    if r.max.Some? {
      assert Member(r, r.max.value);
    } else {
      var v := if r.min.Some? && r.min.value > b then r.min.value else b + 1;
      assert Member(r, v) && !Member(o, v);
    }
  }

  /** `equals` holds exactly when the two ranges have the same members. */
  lemma EqualsIffSameMembers(r: Range, o: Range)
    ensures RangeEquals(r, o) <==> forall v :: Member(r, v) <==> Member(o, v)
  {
    EmptyIffNoMember(r);
    EmptyIffNoMember(o);
    if !RangeEquals(r, o) && !IsEmpty(r) && !IsEmpty(o) {
      if r.min != o.min {
        if o.min.Some? && (r.min.None? || r.min.value < o.min.value) {
          LowerWitness(r, o);
        } else {
          LowerWitness(o, r);
        }
      } else {
        if o.max.Some? && (r.max.None? || r.max.value > o.max.value) {
          UpperWitness(r, o);
        } else {
          UpperWitness(o, r);
        }
      }
    }
  }

  /** `Range.compareTo(T)`: how a (possibly null) value places with respect to the range. */
  function CompareToValue(r: Range, v: Option<int>): (c: ValueComparison)
    ensures c == ValueComparison.AnyEmpty <==> v.None? || IsEmpty(r)
    ensures c == ValueComparison.Contains <==> v.Some? && Member(r, v.value)
    ensures c == Right ==> r.min.Some? && v.value < r.min.value
    ensures c == Left ==> r.max.Some? && r.max.value < v.value
  {
    if v.None? || IsEmpty(r) then ValueComparison.AnyEmpty
    else if r.min.Some? && r.min.value > v.value then Right
    else if r.max.Some? && r.max.value < v.value then Left
    else ValueComparison.Contains
  }

  /** `Range.contains`: true exactly for a non-null member of the range. */
  function ContainsValue(r: Range, v: Option<int>): (b: bool)
    ensures b <==> v.Some? && Member(r, v.value)
  {
    CompareToValue(r, v) == ValueComparison.Contains
  }

  /** Sign of a comparison, as `Comparable.compareTo` on the boxed integer types. */
  function Cmp(a: int, b: int): int {
    if a < b then -1 else if a == b then 0 else 1
  }

  /**
   * `Range.compareTo(Range)`. `None` stands for the trailing `return null`, which
   * the first ensures shows is never reached.
   */
  function CompareTo(r: Range, o: Range): (c: Option<RangeComparison>)
    ensures c.Some?
    ensures c.value == RangeComparison.AnyEmpty <==> IsEmpty(r) || IsEmpty(o)
    ensures !IsEmpty(r) && !IsEmpty(o) ==> (c.value == Equals <==> r == o)
    ensures c.value == LeftContact <==>
      !IsEmpty(r) && !IsEmpty(o) && r.max.Some? && o.min.Some? && r.max.value + 1 == o.min.value
    ensures c.value == LeftNoContact <==>
      !IsEmpty(r) && !IsEmpty(o) && r.max.Some? && o.min.Some? && r.max.value + 1 < o.min.value
    ensures c.value == RightContact <==>
      !IsEmpty(r) && !IsEmpty(o) && o.max.Some? && r.min.Some? && o.max.value + 1 == r.min.value
    ensures c.value == RightNoContact <==>
      !IsEmpty(r) && !IsEmpty(o) && o.max.Some? && r.min.Some? && o.max.value + 1 < r.min.value
  {
    if IsEmpty(r) || IsEmpty(o) then Some(RangeComparison.AnyEmpty)
    else
      // comparison of my min with the other's min and max
      var leftLeft :=
        if r.min.None? && o.min.None? then 0
        else if r.min.None? then -1
        else if o.min.None? then 1
        else Cmp(r.min.value, o.min.value);
      var leftRight :=
        if r.min.None? || o.max.None? then -1 else Cmp(r.min.value, o.max.value);
      // comparison of my max with the other's max and min
      var rightRight :=
        if r.max.None? && o.max.None? then 0
        else if r.max.None? then 1
        else if o.max.None? then -1
        else Cmp(r.max.value, o.max.value);
      var rightLeft :=
        if r.max.None? || o.min.None? then 1 else Cmp(r.max.value, o.min.value);
      if leftLeft == 0 && rightRight == 0 then Some(Equals)
      else if rightLeft < 0 then
        if r.max.value + 1 == o.min.value then Some(LeftContact) else Some(LeftNoContact)
      else if leftLeft < 0 && rightRight < 0 && rightLeft >= 0 then Some(LeftOverlap)
      else if leftLeft >= 0 && rightRight <= 0 then Some(Inside)
      else if leftLeft <= 0 && rightRight >= 0 then Some(RangeComparison.Contains)
      else if leftLeft > 0 && rightRight > 0 && leftRight <= 0 then Some(RightOverlap)
      else if leftRight > 0 then
        if o.max.value + 1 == r.min.value then Some(RightContact) else Some(RightNoContact)
      else None
  }

  /**
   * What the containment and overlap results of `compareTo(Range)` mean for the members:
   * an overlap at the left leaves part of this range below the other, and part of the
   * other above this one; an overlap at the right is the mirror image.
   */
  lemma CompareToMeaning(r: Range, o: Range)
    ensures CompareTo(r, o).value == Inside ==>
      r != o && forall v :: Member(r, v) ==> Member(o, v)
    ensures CompareTo(r, o).value == RangeComparison.Contains ==>
      r != o && forall v :: Member(o, v) ==> Member(r, v)
    ensures CompareTo(r, o).value in {LeftOverlap, RightOverlap} ==>
      (exists v :: Member(r, v) && Member(o, v)) &&
      (exists v :: Member(r, v) && !Member(o, v)) &&
      (exists v :: Member(o, v) && !Member(r, v))
    ensures CompareTo(r, o).value == LeftOverlap ==>
      (exists v :: Member(r, v) && forall w :: Member(o, w) ==> v < w) &&
      (exists v :: Member(o, v) && forall w :: Member(r, w) ==> w < v)
    ensures CompareTo(r, o).value == RightOverlap ==>
      (exists v :: Member(r, v) && forall w :: Member(o, w) ==> w < v) &&
      (exists v :: Member(o, v) && forall w :: Member(r, w) ==> v < w)
    ensures CompareTo(r, o).value in {LeftNoContact, LeftContact, RightContact, RightNoContact} ==>
      forall v :: !(Member(r, v) && Member(o, v))
  {
    var c := CompareTo(r, o).value;
    if c == LeftOverlap {
      assert Member(r, o.min.value) && Member(o, o.min.value);
      LowerWitness(r, o);
      UpperWitness(o, r);
    } else if c == RightOverlap {
      assert Member(r, r.min.value) && Member(o, r.min.value);
      UpperWitness(r, o);
      LowerWitness(o, r);
    }
  }

  /** `Range.intersection(Range)`: built from the comparison's case. */
  function Intersection(r: Range, o: Range): (i: Range)
    ensures forall v :: Member(i, v) <==> Member(r, v) && Member(o, v)
    ensures CompareTo(r, o).value in {RangeComparison.AnyEmpty, LeftNoContact, LeftContact, RightContact, RightNoContact}
      ==> i == GenerateEmptyRange()
  {
    match CompareTo(r, o).value
    case AnyEmpty => GenerateEmptyRange()
    case LeftNoContact => GenerateEmptyRange()
    case LeftContact => GenerateEmptyRange()
    case RightContact => GenerateEmptyRange()
    case RightNoContact => GenerateEmptyRange()
    case LeftOverlap => Range(o.min, r.max)
    case Equals => Range(r.min, r.max)
    case Inside => Range(r.min, r.max)
    case Contains => Range(o.min, o.max)
    case RightOverlap => Range(r.min, o.max)
  }

  /** v lies in one of the ranges of a list. */
  predicate InAny(rs: seq<Range>, v: int) {
    exists k :: 0 <= k < |rs| && Member(rs[k], v)
  }

  lemma InAnyOne(a: Range, v: int)
    ensures InAny([a], v) <==> Member(a, v)
  {
    assert [a][0] == a;
  }

  lemma InAnyTwo(a: Range, b: Range, v: int)
    ensures InAny([a, b], v) <==> Member(a, v) || Member(b, v)
  {
    assert [a, b][0] == a && [a, b][1] == b;
  }

  /**
   * `Range.subtract(Range)`, as written: the ranges handed to the result list, in order.
   * In the CONTAINS case a missing bound of the subtrahend reaches `previous(null)` or
   * `next(null)`, which throws.
   */
  function Subtract(r: Range, o: Range): (res: Result<seq<Range>, RangeException>)
    ensures res.Err? <==>
      CompareTo(r, o).value == RangeComparison.Contains && (o.min.None? || o.max.None?)
    ensures res.Ok? ==> 1 <= |res.value| <= 2
  {
    match CompareTo(r, o).value
    case AnyEmpty => Ok([r])
    case LeftNoContact => Ok([r])
    case LeftContact => Ok([r])
    case RightContact => Ok([r])
    case RightNoContact => Ok([r])
    case LeftOverlap => Ok([Range(r.min, Some(Previous(o.min).value))])
    case Equals => Ok([GenerateEmptyRange()])
    case Inside => Ok([GenerateEmptyRange()])
    case Contains =>
      var before := Previous(o.min);
      if before.Err? then Err(before.error)
      else
        var after := Next(o.max);
        if after.Err? then Err(after.error)
        else Ok([Range(r.min, Some(before.value)), Range(Some(after.value), r.max)])
    case RightOverlap => Ok([Range(Some(Next(o.max).value), r.max)])
  }

  /** When `subtract` returns, its ranges together hold exactly the members of r that are not in o. */
  lemma SubtractMembers(r: Range, o: Range, v: int)
    requires Subtract(r, o).Ok?
    ensures InAny(Subtract(r, o).value, v) <==> Member(r, v) && !Member(o, v)
  {
    EmptyIffNoMember(r);
    EmptyIffNoMember(o);
    var rs := Subtract(r, o).value;
    if |rs| == 1 {
      InAnyOne(rs[0], v);
    } else {
      InAnyTwo(rs[0], rs[1], v);
    }
  }

  /** The difference with the subtrahend's missing bounds read as infinite: no piece on that side. */
  function SubtractCorrected(r: Range, o: Range): (rs: seq<Range>)
    ensures 1 <= |rs| <= 2
    ensures Subtract(r, o).Ok? ==> rs == Subtract(r, o).value
  {
    match CompareTo(r, o).value
    case Contains =>
      (if o.min.Some? then [Range(r.min, Some(o.min.value - 1))] else []) +
      (if o.max.Some? then [Range(Some(o.max.value + 1), r.max)] else [])
    case _ => Subtract(r, o).value
  }

  /** The corrected difference holds exactly the members of r that are not in o, for all inputs. */
  lemma SubtractCorrectedMembers(r: Range, o: Range, v: int)
    ensures InAny(SubtractCorrected(r, o), v) <==> Member(r, v) && !Member(o, v)
  {
    if Subtract(r, o).Ok? {
      SubtractMembers(r, o, v);
    } else {
      // only one bound of o is missing here, so there is a single piece
      var rs := SubtractCorrected(r, o);
      InAnyOne(rs[0], v);
    }
  }

  /** The input that makes `subtract` throw: a shared infinite lower bound. */
  lemma SubtractSharedInfinityThrows()
    ensures Subtract(Range(None, Some(10)), Range(None, Some(5))) == Err(NullPointer)
    ensures SubtractCorrected(Range(None, Some(10)), Range(None, Some(5))) == [Range(Some(6), Some(10))]
  {
    assert CompareTo(Range(None, Some(10)), Range(None, Some(5))).value == RangeComparison.Contains;
  }
}
