/** The scheduler that batches affine bucket additions (curves/src/msm.rs, Schedule). */
module Scheduler {
  import opened Algebra
  import opened CurveModel
  import opened BatchAddition

  const BATCH_SIZE: nat := 64

  /** plus or minus a base, as a group element */
  ghost function SignedPoint<F, G>(e: Curve<F, G>, base: Affine<F>, sign: bool): G {
    PointOf(e, Signed(e.field, base, sign))
  }

  /** Sum of the scheduled points that wait for bucket k. */
  ghost function Pending<F, G>(e: Curve<F, G>, bases: seq<Affine<F>>, points: seq<SchedulePoint>, k: nat): G
    requires forall i :: 0 <= i < |points| ==> points[i].base < |bases|
  {
    if |points| == 0 then e.group.zero
    else
      var rest, p := Pending(e, bases, points[..|points| - 1], k), points[|points| - 1];
      if p.buck == k then e.group.add(rest, SignedPoint(e, bases[p.base], p.sign)) else rest
  }

  /** The scheduler's invariant: scheduled buckets are pairwise distinct and none is empty. */
  ghost predicate Consistent<F(!new), G(!new)>(
      e: Curve<F, G>, bases: seq<Affine<F>>, buckets: seq<Coords<F>>, points: seq<SchedulePoint>)
  {
    && Ready(buckets, points, bases)
    && AllOnCurve(e, buckets, bases)
    && (forall i :: 0 <= i < |points| ==> buckets[points[i].buck].At?)
  }

  /** What bucket k is worth: its affine content plus what is scheduled for it. */
  ghost function Held<F(!new), G(!new)>(
      e: Curve<F, G>, bases: seq<Affine<F>>, buckets: seq<Coords<F>>, points: seq<SchedulePoint>, k: nat): G
    requires Consistent(e, bases, buckets, points) && k < |buckets|
  {
    e.group.add(PointOf(e, buckets[k]), Pending(e, bases, points, k))
  }

  ghost predicate OddOrder<F>(k: Field<F>, bases: seq<Affine<F>>) {
    forall i :: 0 <= i < |bases| ==> bases[i].y != k.zero
  }

  lemma {:induction false} PendingAbsent<F(!new), G(!new)>(
      e: Curve<F, G>, bases: seq<Affine<F>>, points: seq<SchedulePoint>, k: nat)
    requires forall i :: 0 <= i < |points| ==> points[i].base < |bases|
    requires forall i :: 0 <= i < |points| ==> points[i].buck != k
    ensures Pending(e, bases, points, k) == e.group.zero
  {
    if |points| > 0 {
      PendingAbsent(e, bases, points[..|points| - 1], k);
    }
  }

  /** With distinct buckets, exactly one scheduled point waits for the bucket of entry i. */
  lemma {:induction false} PendingSingle<F(!new), G(!new)>(
      e: Curve<F, G>, bases: seq<Affine<F>>, points: seq<SchedulePoint>, i: nat)
    requires IsCurve(e) && i < |points|
    requires forall i :: 0 <= i < |points| ==> points[i].base < |bases|
    requires forall i, j :: 0 <= i < j < |points| ==> points[i].buck != points[j].buck
    ensures Pending(e, bases, points, points[i].buck) == SignedPoint(e, bases[points[i].base], points[i].sign)
  {
    var n := |points| - 1;
    if i == n {
      PendingAbsent(e, bases, points[..n], points[i].buck);
      GZero(e.group, SignedPoint(e, bases[points[i].base], points[i].sign));
    } else {
      PendingSingle(e, bases, points[..n], i);
    }
  }

  /** On a non-empty bucket, what batch_add leaves is bucket plus or minus base. */
  lemma CombinedIsSum<F(!new), G(!new)>(e: Curve<F, G>, bucket: Coords<F>, base: Affine<F>, sign: bool)
    requires IsCurve(e) && bucket.At?
    requires OnCurve(e.field, e.b, bucket) && OnCurve(e.field, e.b, At(base.x, base.y))
    ensures OnCurve(e.field, e.b, Combined(e.field, bucket, base, sign))
    ensures PointOf(e, Combined(e.field, bucket, base, sign)) ==
            e.group.add(PointOf(e, bucket), SignedPoint(e, base, sign))
  {
    OppositeOnCurve(e, At(base.x, base.y));
    AddCoords(e, Signed(e.field, base, sign), bucket);
    GComm(e.group, PointOf(e, bucket), SignedPoint(e, base, sign));
  }

  /** Flushing moves every pending point into its bucket and loses none. */
  lemma FlushKeepsTotals<F(!new), G(!new)>(
      e: Curve<F, G>, bases: seq<Affine<F>>, before: seq<Coords<F>>, after: seq<Coords<F>>, points: seq<SchedulePoint>)
    requires IsCurve(e) && Consistent(e, bases, before, points) && |before| == |after|
    requires forall i :: 0 <= i < |points| ==>
               after[points[i].buck] ==
               Combined(e.field, before[points[i].buck], bases[points[i].base], points[i].sign)
    requires forall j :: 0 <= j < |before| && (forall i :: 0 <= i < |points| ==> points[i].buck != j) ==>
               after[j] == before[j]
    ensures forall k :: 0 <= k < |after| ==> OnCurve(e.field, e.b, after[k])
    ensures forall k :: 0 <= k < |after| ==> PointOf(e, after[k]) == Held(e, bases, before, points, k)
  {
    forall k | 0 <= k < |after|
      ensures OnCurve(e.field, e.b, after[k]) && PointOf(e, after[k]) == Held(e, bases, before, points, k)
    {
      if i :| 0 <= i < |points| && points[i].buck == k {
        PendingSingle(e, bases, points, i);
        CombinedIsSum(e, before[k], bases[points[i].base], points[i].sign);
      } else {
        PendingAbsent(e, bases, points, k);
        GZero(e.group, PointOf(e, before[k]));
      }
    }
  }

  /** Filling an empty bucket. */
  lemma AssignKeepsTotals<F(!new), G(!new)>(
      e: Curve<F, G>, bases: seq<Affine<F>>, bs: seq<Coords<F>>, pts: seq<SchedulePoint>, base: nat, buck: nat, sign: bool)
    requires IsCurve(e) && Consistent(e, bases, bs, pts) && base < |bases| && buck < |bs|
    requires bs[buck].Infinity?
    requires forall i :: 0 <= i < |pts| ==> pts[i].buck != buck
    ensures var bs' := bs[buck := Signed(e.field, bases[base], sign)];
            && Consistent(e, bases, bs', pts)
            && Held(e, bases, bs', pts, buck) ==
               e.group.add(Held(e, bases, bs, pts, buck), SignedPoint(e, bases[base], sign))
            && forall k :: 0 <= k < |bs| && k != buck ==> Held(e, bases, bs', pts, k) == Held(e, bases, bs, pts, k)
  {
    OppositeOnCurve(e, At(bases[base].x, bases[base].y));
    PendingAbsent(e, bases, pts, buck);
    GZero(e.group, SignedPoint(e, bases[base], sign));
    GZero(e.group, e.group.zero);
  }

  /** Scheduling a point for a bucket that is not scheduled yet. */
  lemma ScheduleKeepsTotals<F(!new), G(!new)>(
      e: Curve<F, G>, bases: seq<Affine<F>>, bs: seq<Coords<F>>, pts: seq<SchedulePoint>, base: nat, buck: nat, sign: bool)
    requires IsCurve(e) && Consistent(e, bases, bs, pts) && base < |bases| && buck < |bs|
    requires bs[buck].At?
    requires forall i :: 0 <= i < |pts| ==> pts[i].buck != buck
    ensures var pts' := pts + [SchedulePoint(base, buck, sign)];
            && Consistent(e, bases, bs, pts')
            && Held(e, bases, bs, pts', buck) ==
               e.group.add(Held(e, bases, bs, pts, buck), SignedPoint(e, bases[base], sign))
            && forall k :: 0 <= k < |bs| && k != buck ==> Held(e, bases, bs, pts', k) == Held(e, bases, bs, pts, k)
  {
    var pts' := pts + [SchedulePoint(base, buck, sign)];
    assert pts'[..|pts|] == pts;
    GAssoc(e.group, PointOf(e, bs[buck]), Pending(e, bases, pts, buck), SignedPoint(e, bases[base], sign));
  }

  /** Bases off the x-axis never make a bucket double a point of order two. */
  lemma NoTorsion<F(!new), G(!new)>(
      e: Curve<F, G>, bases: seq<Affine<F>>, buckets: seq<Coords<F>>, points: seq<SchedulePoint>)
    requires IsCurve(e) && OddOrder(e.field, bases) && Consistent(e, bases, buckets, points)
    ensures forall i :: 0 <= i < |points| ==>
              !DoublesTwoTorsion(e.field, buckets[points[i].buck], bases[points[i].base], points[i].sign)
  {}

  lemma NothingPending<F(!new), G(!new)>(e: Curve<F, G>, bases: seq<Affine<F>>, buckets: seq<Coords<F>>)
    requires IsCurve(e) && Consistent(e, bases, buckets, [])
    ensures forall k :: 0 <= k < |buckets| ==> PointOf(e, buckets[k]) == Held(e, bases, buckets, [], k)
  {
    forall k | 0 <= k < |buckets|
      ensures PointOf(e, buckets[k]) == Held(e, bases, buckets, [], k)
    {
      GZero(e.group, PointOf(e, buckets[k]));
    }
  }

  class Schedule<F(!new, ==), G(!new)> {
    var buckets: array<Coords<F>>
    var points: array<SchedulePoint>
    var ptr: nat

    ghost predicate Valid(e: Curve<F, G>, bases: seq<Affine<F>>)
      reads this, buckets, points
    {
      && points.Length == BATCH_SIZE
      && ptr < BATCH_SIZE
      && Consistent(e, bases, buckets[..], points[..ptr])
    }

    /** Worth of bucket k, scheduled points included. */
    ghost function Total(e: Curve<F, G>, bases: seq<Affine<F>>, k: nat): G
      reads this, buckets, points
      requires Valid(e, bases) && k < buckets.Length
    {
      Held(e, bases, buckets[..], points[..ptr], k)
    }

    constructor (size: nat)
      ensures buckets.Length == size && points.Length == BATCH_SIZE == 64 && ptr == 0
      ensures forall k :: 0 <= k < size ==> buckets[k] == Infinity
      ensures fresh(buckets) && fresh(points)
    {
      buckets := new Coords<F>[size](_ => Infinity);
      points := new SchedulePoint[BATCH_SIZE](_ => SchedulePoint(0, 0, false));
      ptr := 0;
    }

    method Contains(buck: nat) returns (found: bool)
      requires ptr <= points.Length
      ensures found <==> exists i :: 0 <= i < ptr && points[i].buck == buck
    {
      var i := 0;
      while i < ptr
        invariant 0 <= i <= ptr
        invariant forall j :: 0 <= j < i ==> points[j].buck != buck
      {
        if points[i].buck == buck {
          return true;
        }
        i := i + 1;
      }
      return false;
    }

    /** Flushes the schedule into the buckets. */
    method Execute(e: Curve<F, G>, bases: seq<Affine<F>>)
      requires IsCurve(e) && OddOrder(e.field, bases)
      requires points.Length == BATCH_SIZE && ptr <= BATCH_SIZE
      requires Consistent(e, bases, buckets[..], points[..ptr])
      modifies this`ptr, buckets, points
      ensures Valid(e, bases) && ptr == 0
      ensures forall k :: 0 <= k < buckets.Length ==>
                PointOf(e, buckets[k]) == old(Held(e, bases, buckets[..], points[..ptr], k))
    {
      hide IsCurve, PointOf, DoublesTwoTorsion, Combined, Pending, OddOrder, OnCurve;
      ghost var before, scheduled := buckets[..], points[..ptr];
      if ptr == 0 {
        NothingPending(e, bases, before);
        return;
      }
      assert points[..][..ptr] == scheduled;
      NoTorsion(e, bases, before, scheduled);
      var ok := BatchAdd(e, ptr, buckets, points[..], bases);
      assert ok;
      FlushKeepsTotals(e, bases, before, buckets[..], scheduled);
      ptr := 0;
      ClearPoints();
    }

    method ClearPoints()
      modifies points
      ensures forall i :: 0 <= i < points.Length ==> points[i] == SchedulePoint(0, 0, false)
    {
      for i := 0 to points.Length
        invariant forall j :: 0 <= j < i ==> points[j] == SchedulePoint(0, 0, false)
      {
        points[i] := SchedulePoint(0, 0, false);
      }
    }

    /** Puts a point into its bucket if that is empty and schedules it otherwise; flushes when full. */
    method Add(e: Curve<F, G>, bases: seq<Affine<F>>, base: nat, buck: nat, sign: bool)
      requires IsCurve(e) && OddOrder(e.field, bases) && Valid(e, bases)
      requires base < |bases| && buck < buckets.Length
      requires forall i :: 0 <= i < ptr ==> points[i].buck != buck
      modifies this`ptr, buckets, points
      ensures Valid(e, bases)
      ensures forall k :: 0 <= k < buckets.Length ==>
                Total(e, bases, k) ==
                if k == buck then e.group.add(old(Total(e, bases, k)), SignedPoint(e, bases[base], sign))
                else old(Total(e, bases, k))
    {
      ghost var bs, pts := buckets[..], points[..ptr];
      if buckets[buck].Infinity? {
        buckets[buck] := At(bases[base].x, if sign then bases[base].y else e.field.neg(bases[base].y));
        AssignKeepsTotals(e, bases, bs, pts, base, buck, sign);
        assert buckets[..] == bs[buck := Signed(e.field, bases[base], sign)];
        assert points[..ptr] == pts;
      } else {
        points[ptr] := SchedulePoint(base, buck, sign);
        ptr := ptr + 1;
        ScheduleKeepsTotals(e, bases, bs, pts, base, buck, sign);
        assert points[..ptr] == pts + [SchedulePoint(base, buck, sign)];
      }
      if ptr == points.Length {
        Execute(e, bases);
        forall k | 0 <= k < buckets.Length
          ensures Total(e, bases, k) == PointOf(e, buckets[k])
        {
          GZero(e.group, PointOf(e, buckets[k]));
        }
      }
    }
  }
}
