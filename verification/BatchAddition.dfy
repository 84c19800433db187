/** Batch affine addition with a single inversion (curves/src/msm.rs, batch_add). */
module BatchAddition {
  import opened Algebra
  import opened CurveModel
  import opened CurveLaw

  datatype SchedulePoint = SchedulePoint(base: nat, buck: nat, sign: bool)

  /** plus or minus a base */
  function Signed<F>(k: Field<F>, base: Affine<F>, sign: bool): Coords<F> {
    At(base.x, if sign then base.y else k.neg(base.y))
  }

  /** What one schedule entry must leave in its bucket: an empty bucket is skipped. */
  function Combined<F(==)>(k: Field<F>, bucket: Coords<F>, base: Affine<F>, sign: bool): Coords<F> {
    if bucket.Infinity? then Infinity else ChordTangent(k, Signed(k, base, sign), bucket)
  }

  /** The entry doubles a point of order two, whose tangent is vertical. */
  predicate DoublesTwoTorsion<F(==)>(k: Field<F>, bucket: Coords<F>, base: Affine<F>, sign: bool) {
    bucket.At? && base.y == k.zero && sign && bucket == At(base.x, base.y)
  }

  ghost predicate Ready<F>(buckets: seq<Coords<F>>, points: seq<SchedulePoint>, bases: seq<Affine<F>>) {
    && (forall i :: 0 <= i < |points| ==> points[i].buck < |buckets| && points[i].base < |bases|)
    && (forall i, j :: 0 <= i < j < |points| ==> points[i].buck != points[j].buck)
  }

  ghost predicate AllOnCurve<F(!new), G(!new)>(e: Curve<F, G>, buckets: seq<Coords<F>>, bases: seq<Affine<F>>) {
    && (forall i :: 0 <= i < |buckets| ==> OnCurve(e.field, e.b, buckets[i]))
    && (forall i :: 0 <= i < |bases| ==> OnCurve(e.field, e.b, At(bases[i].x, bases[i].y)))
  }

  // ---------------------------------------------------------------- one entry

  predicate SameX<F(==)>(bucket: Coords<F>, base: Affine<F>) {
    bucket.At? && bucket.x == base.x
  }

  /** The branch test of the code. */
  predicate Doubles<F(==)>(bucket: Coords<F>, base: Affine<F>, sign: bool) {
    SameX(bucket, base) && (bucket.y == base.y) != !sign
  }

  /** The entry takes part in the shared inversion. */
  predicate Active<F(==)>(bucket: Coords<F>, base: Affine<F>, sign: bool) {
    bucket.At? && (SameX(bucket, base) ==> Doubles(bucket, base, sign))
  }

  function Den<F(==)>(k: Field<F>, bucket: Coords<F>, base: Affine<F>, sign: bool): F
    requires bucket.At?
  {
    if Doubles(bucket, base, sign) then k.add(bucket.y, bucket.y) else k.Sub(bucket.x, base.x)
  }

  function Num<F(==)>(k: Field<F>, bucket: Coords<F>, base: Affine<F>, sign: bool): F
    requires bucket.At?
  {
    if Doubles(bucket, base, sign) then
      var xx := k.Sq(base.x); k.add(k.add(xx, xx), xx)
    else k.Sub(bucket.y, Signed(k, base, sign).y)
  }

  /** The code's three-way branch is chord, tangent or cancellation, and its divisor vanishes
      exactly when the entry doubles a point of order two. */
  lemma EntryCases<F(!new), G(!new)>(e: Curve<F, G>, bucket: Coords<F>, base: Affine<F>, sign: bool)
    requires IsCurve(e)
    requires OnCurve(e.field, e.b, bucket) && OnCurve(e.field, e.b, At(base.x, base.y))
    ensures !Active(bucket, base, sign) ==> Combined(e.field, bucket, base, sign) == Infinity
    ensures Active(bucket, base, sign) ==>
              var k, s := e.field, Signed(e.field, base, sign);
              && (Den(k, bucket, base, sign) == k.zero <==> DoublesTwoTorsion(k, bucket, base, sign))
              && (!DoublesTwoTorsion(k, bucket, base, sign) ==>
                    Combined(k, bucket, base, sign) ==
                    Through(k, s, bucket, k.mul(Num(k, bucket, base, sign), k.inv(Den(k, bucket, base, sign)))))
  {
    var k, s := e.field, Signed(e.field, base, sign);
    if SameX(bucket, base) {
      FSquareRoots(k, bucket.y, base.y);
      FNeg(k, base.y);
      TwiceZero(k, bucket.y);
      TwiceZero(k, base.y);
      GNegZero(k.AddGroup());
    } else if bucket.At? {
      FSubZero(k, bucket.x, base.x);
    }
  }

  /** Product of the divisors of the active entries among the first n. */
  ghost function Prefix<F>(k: Field<F>, bs: seq<Coords<F>>, points: seq<SchedulePoint>, bases: seq<Affine<F>>, n: nat): F
    requires n <= |points| && Ready(bs, points, bases)
  {
    if n == 0 then k.one
    else
      var p := points[n - 1];
      var rest := Prefix(k, bs, points, bases, n - 1);
      if Active(bs[p.buck], bases[p.base], p.sign)
      then k.mul(rest, Den(k, bs[p.buck], bases[p.base], p.sign)) else rest
  }

  lemma {:induction false} PrefixZero<F(!new), G(!new)>(
      e: Curve<F, G>, bs: seq<Coords<F>>, points: seq<SchedulePoint>, bases: seq<Affine<F>>, n: nat)
    requires IsCurve(e) && n <= |points| && Ready(bs, points, bases) && AllOnCurve(e, bs, bases)
    ensures Prefix(e.field, bs, points, bases, n) == e.field.zero <==>
            exists i :: 0 <= i < n && DoublesTwoTorsion(e.field, bs[points[i].buck], bases[points[i].base], points[i].sign)
  {
    if n > 0 {
      var p := points[n - 1];
      var b, base := bs[p.buck], bases[p.base];
      PrefixZero(e, bs, points, bases, n - 1);
      EntryCases(e, b, base, p.sign);
      if Active(b, base, p.sign) {
        FNoZeroDivisors(e.field, Prefix(e.field, bs, points, bases, n - 1), Den(e.field, b, base, p.sign));
      }
    }
  }

  // ---------------------------------------------------------------- the two passes

  /** Entry i after the first pass: its bucket, its scaled numerator and its divisor. */
  ghost predicate Prepared<F>(
      k: Field<F>, bs: seq<Coords<F>>, points: seq<SchedulePoint>, bases: seq<Affine<F>>, i: nat,
      bucket: Coords<F>, ti: F, zi: F)
    requires i < |points| && Ready(bs, points, bases)
  {
    var p := points[i];
    var b, base := bs[p.buck], bases[p.base];
    if Active(b, base, p.sign)
    then && bucket == b
         && zi == Den(k, b, base, p.sign)
         && ti == k.mul(Prefix(k, bs, points, bases, i), Num(k, b, base, p.sign))
    else bucket == Infinity
  }

  ghost predicate Untouched<F>(bs: seq<Coords<F>>, now: seq<Coords<F>>, points: seq<SchedulePoint>) {
    && |bs| == |now|
    && forall j :: 0 <= j < |bs| && (forall i :: 0 <= i < |points| ==> points[i].buck != j) ==> now[j] == bs[j]
  }

  /** The forward step on one entry. */
  method ForwardStep<F(!new, ==)>(k: Field<F>, acc: F, bucket: Coords<F>, base: Affine<F>, sign: bool)
    returns (bucket': Coords<F>, t: F, z: F, acc': F)
    requires IsField(k)
    ensures if Active(bucket, base, sign)
            then && bucket' == bucket && z == Den(k, bucket, base, sign)
                 && t == k.mul(acc, Num(k, bucket, base, sign)) && acc' == k.mul(acc, z)
            else bucket' == Infinity && t == z == k.zero && acc' == acc
  {
    bucket', t, z, acc' := bucket, k.zero, k.zero, acc;
    if bucket.Infinity? {
      return; // an empty bucket is skipped
    }
    if bucket.x == base.x {
      if (bucket.y == base.y) != !sign {
        var xx := k.Sq(base.x);
        z := k.add(bucket.y, bucket.y);
        t := k.mul(acc, k.add(k.add(xx, xx), xx));
        acc' := k.mul(acc, z);
      } else {
        bucket' := Infinity;
      }
    } else {
      z := k.Sub(bucket.x, base.x);
      if sign {
        t := k.mul(acc, k.Sub(bucket.y, base.y));
      } else {
        FNeg(k, base.y);
        t := k.mul(acc, k.add(bucket.y, base.y));
      }
      acc' := k.mul(acc, z);
    }
  }

  /** Loop state of the first pass: the first n entries are prepared, later buckets untouched. */
  ghost predicate Preparing<F>(
      k: Field<F>, bs: seq<Coords<F>>, now: seq<Coords<F>>,
      points: seq<SchedulePoint>, bases: seq<Affine<F>>, t: seq<F>, z: seq<F>, n: nat)
    requires n <= |points| == |t| == |z| && |bs| == |now| && Ready(bs, points, bases)
  {
    && (forall i :: 0 <= i < n ==> Prepared(k, bs, points, bases, i, now[points[i].buck], t[i], z[i]))
    && (forall i :: n <= i < |points| ==> now[points[i].buck] == bs[points[i].buck])
    && Untouched(bs, now, points)
  }

  lemma PreparingStep<F>(
      k: Field<F>, bs: seq<Coords<F>>, now: seq<Coords<F>>,
      points: seq<SchedulePoint>, bases: seq<Affine<F>>, t: seq<F>, z: seq<F>, n: nat,
      bucket: Coords<F>, ti: F, zi: F)
    requires n < |points| == |t| == |z| && |bs| == |now| && Ready(bs, points, bases)
    requires Preparing(k, bs, now, points, bases, t, z, n)
    requires Prepared(k, bs, points, bases, n, bucket, ti, zi)
    ensures Preparing(k, bs, now[points[n].buck := bucket], points, bases, t[n := ti], z[n := zi], n + 1)
  {
    var now' := now[points[n].buck := bucket];
    forall i | 0 <= i <= n
      ensures Prepared(k, bs, points, bases, i, now'[points[i].buck], t[n := ti][i], z[n := zi][i])
    {
      assert i < n ==> now'[points[i].buck] == now[points[i].buck];
    }
  }

  /** First pass: numerators and divisors, scaled by the running product; cancelled buckets are emptied. */
  method ForwardPass<F(!new, ==)>(
      k: Field<F>, buckets: array<Coords<F>>, points: seq<SchedulePoint>, bases: seq<Affine<F>>)
    returns (t: seq<F>, z: seq<F>, acc: F)
    requires IsField(k)
    requires Ready(buckets[..], points, bases)
    modifies buckets
    ensures |t| == |z| == |points|
    ensures acc == Prefix(k, old(buckets[..]), points, bases, |points|)
    ensures Preparing(k, old(buckets[..]), buckets[..], points, bases, t, z, |points|)
  {
    ghost var bs := buckets[..];
    t, z := seq(|points|, _ => k.zero), seq(|points|, _ => k.zero);
    acc := k.one;
    var n := 0;
    while n < |points|
      invariant 0 <= n <= |points| == |t| == |z|
      invariant acc == Prefix(k, bs, points, bases, n)
      invariant Preparing(k, bs, buckets[..], points, bases, t, z, n)
    {
      var p := points[n];
      ghost var now := buckets[..];
      assert now[p.buck] == bs[p.buck];
      var bucket, ti, zi, acc' := ForwardStep(k, acc, buckets[p.buck], bases[p.base], p.sign);
      PreparingStep(k, bs, now, points, bases, t, z, n, bucket, ti, zi);
      buckets[p.buck] := bucket;
      assert buckets[..] == now[p.buck := bucket];
      t, z, acc := t[n := ti], z[n := zi], acc';
      n := n + 1;
    }
  }

  /** Peeling one factor off the inverted running product recovers the slope of the entry. */
  lemma PeelSlope<F(!new)>(k: Field<F>, product: F, den: F, num: F)
    requires IsField(k) && k.mul(product, den) != k.zero
    ensures var acc := k.inv(k.mul(product, den));
            && k.mul(acc, k.mul(product, num)) == k.mul(num, k.inv(den))
            && product != k.zero && k.mul(acc, den) == k.inv(product)
  {
    FNoZeroDivisors(k, product, den);
    var whole := k.mul(product, den);
    var acc := k.inv(whole);
    FInv(k, whole);
    FInv(k, product);
    FInv(k, den);
    // acc * den == inv(product): both become one when multiplied by product
    FAssoc(k, acc, product, den);
    FComm(k, product, den);
    FAssoc(k, acc, den, product);
    FCancel(k, k.mul(acc, den), k.inv(product), product);
    // acc * product == inv(den)
    FCancel(k, k.mul(acc, product), k.inv(den), den);
    FAssoc(k, acc, product, num);
    FComm(k, k.inv(den), num);
  }

  /** The reverse step on one active entry. */
  method ReverseStep<F(!new, ==)>(k: Field<F>, acc: F, t: F, z: F, bucket: Coords<F>, base: Affine<F>, sign: bool)
    returns (bucket': Coords<F>, acc': F)
    requires IsField(k) && bucket.At?
    ensures bucket' == Through(k, Signed(k, base, sign), bucket, k.mul(acc, t)) && acc' == k.mul(acc, z)
  {
    var lambda := k.mul(acc, t);
    acc' := k.mul(acc, z);
    FAddComm(k, bucket.x, base.x);
    var x := k.Sub(k.Sq(lambda), k.add(bucket.x, base.x));
    if sign {
      bucket' := At(x, k.Sub(k.mul(lambda, k.Sub(base.x, x)), base.y));
    } else {
      FNeg(k, base.y);
      bucket' := At(x, k.add(k.mul(lambda, k.Sub(base.x, x)), base.y));
    }
  }

  /** The inverted running product at entry n yields the entry's slope and the next inverse. */
  lemma ReverseEntry<F(!new), G(!new)>(
      e: Curve<F, G>, bs: seq<Coords<F>>, points: seq<SchedulePoint>, bases: seq<Affine<F>>, n: nat,
      bucket: Coords<F>, ti: F, zi: F, acc: F)
    requires IsCurve(e) && n < |points| && Ready(bs, points, bases) && AllOnCurve(e, bs, bases)
    requires Prefix(e.field, bs, points, bases, n + 1) != e.field.zero
    requires acc == e.field.inv(Prefix(e.field, bs, points, bases, n + 1))
    requires Prepared(e.field, bs, points, bases, n, bucket, ti, zi)
    ensures var k, p, before := e.field, points[n], Prefix(e.field, bs, points, bases, n);
            var result := Combined(k, bs[p.buck], bases[p.base], p.sign);
            && before != k.zero
            && (bucket.Infinity? ==> result == Infinity && acc == k.inv(before))
            && (bucket.At? ==>
                  && result == Through(k, Signed(k, bases[p.base], p.sign), bucket, k.mul(acc, ti))
                  && k.mul(acc, zi) == k.inv(before))
  {
    var k, p := e.field, points[n];
    var b, base := bs[p.buck], bases[p.base];
    EntryCases(e, b, base, p.sign);
    if Active(b, base, p.sign) {
      var product, den := Prefix(k, bs, points, bases, n), Den(k, b, base, p.sign);
      PeelSlope(k, product, den, Num(k, b, base, p.sign));
      FNoZeroDivisors(k, product, den);
    }
  }

  ghost predicate Finished<F>(
      k: Field<F>, bs: seq<Coords<F>>, points: seq<SchedulePoint>, bases: seq<Affine<F>>, i: nat, bucket: Coords<F>)
    requires i < |points| && Ready(bs, points, bases)
  {
    bucket == Combined(k, bs[points[i].buck], bases[points[i].base], points[i].sign)
  }

  /** Loop state of the second pass: entries from n on are finished, earlier ones still prepared. */
  ghost predicate Reversing<F>(
      k: Field<F>, bs: seq<Coords<F>>, start: seq<Coords<F>>, now: seq<Coords<F>>,
      points: seq<SchedulePoint>, bases: seq<Affine<F>>, t: seq<F>, z: seq<F>, n: nat)
    requires n <= |points| == |t| == |z| && |bs| == |now| && Ready(bs, points, bases)
  {
    && (forall i :: 0 <= i < n ==> Prepared(k, bs, points, bases, i, now[points[i].buck], t[i], z[i]))
    && (forall i :: n <= i < |points| ==> Finished(k, bs, points, bases, i, now[points[i].buck]))
    && Untouched(start, now, points)
  }

  lemma ReversingStep<F>(
      k: Field<F>, bs: seq<Coords<F>>, start: seq<Coords<F>>, now: seq<Coords<F>>,
      points: seq<SchedulePoint>, bases: seq<Affine<F>>, t: seq<F>, z: seq<F>, n: nat, bucket: Coords<F>)
    requires n < |points| == |t| == |z| && |bs| == |now| && Ready(bs, points, bases)
    requires Reversing(k, bs, start, now, points, bases, t, z, n + 1)
    requires Finished(k, bs, points, bases, n, bucket)
    ensures Reversing(k, bs, start, now[points[n].buck := bucket], points, bases, t, z, n)
  {
    var now' := now[points[n].buck := bucket];
    forall i | 0 <= i < n
      ensures Prepared(k, bs, points, bases, i, now'[points[i].buck], t[i], z[i])
    {
      assert now'[points[i].buck] == now[points[i].buck];
    }
    forall i | n <= i < |points|
      ensures Finished(k, bs, points, bases, i, now'[points[i].buck])
    {
      assert i > n ==> now'[points[i].buck] == now[points[i].buck];
    }
  }

  /** Second pass, from the last entry to the first; it skips exactly the entries that the first
      pass skipped or emptied. */
  method ReversePass<F(!new, ==), G(!new)>(
      e: Curve<F, G>, buckets: array<Coords<F>>, points: seq<SchedulePoint>, bases: seq<Affine<F>>,
      t: seq<F>, z: seq<F>, inverse: F, ghost bs: seq<Coords<F>>)
    requires IsCurve(e) && |bs| == buckets.Length
    requires Ready(bs, points, bases) && AllOnCurve(e, bs, bases) && |t| == |z| == |points|
    requires Prefix(e.field, bs, points, bases, |points|) != e.field.zero
    requires inverse == e.field.inv(Prefix(e.field, bs, points, bases, |points|))
    requires Reversing(e.field, bs, buckets[..], buckets[..], points, bases, t, z, |points|)
    modifies buckets
    ensures Reversing(e.field, bs, old(buckets[..]), buckets[..], points, bases, t, z, 0)
  {
    var k := e.field;
    var acc := inverse;
    var n := |points|;
    ghost var start := buckets[..];
    while n > 0
      invariant 0 <= n <= |points|
      invariant Prefix(k, bs, points, bases, n) != k.zero
      invariant acc == k.inv(Prefix(k, bs, points, bases, n))
      invariant Reversing(k, bs, start, buckets[..], points, bases, t, z, n)
    {
      n := n - 1;
      var p := points[n];
      var bucket := buckets[p.buck];
      ghost var now := buckets[..];
      ReverseEntry(e, bs, points, bases, n, now[p.buck], t[n], z[n], acc);
      if bucket.At? {
        bucket, acc := ReverseStep(k, acc, t[n], z[n], bucket, bases[p.base], p.sign);
        buckets[p.buck] := bucket;
      }
      ReversingStep(k, bs, start, now, points, bases, t, z, n, bucket);
      assert buckets[..] == now[p.buck := bucket];
    }
  }

  /** What an entry leaves in a bucket that is not empty is the sum of the bucket and the signed base. */
  lemma EntrySum<F(!new), G(!new)>(e: Curve<F, G>, bucket: Coords<F>, base: Affine<F>, sign: bool)
    requires IsCurve(e) && bucket.At?
    requires OnCurve(e.field, e.b, bucket) && OnCurve(e.field, e.b, At(base.x, base.y))
    ensures IsSum(e.field, e.b, At(base.x, if sign then base.y else e.field.neg(base.y)), bucket,
                  Combined(e.field, bucket, base, sign))
  {
    OppositeOnCurve(e, At(base.x, base.y));
    hide OnCurve, IsSum, ChordTangent;
    ChordTangentIsSum(e.field, e.b, Signed(e.field, base, sign), bucket);
  }

  lemma CurveField<F(!new), G(!new)>(e: Curve<F, G>)
    requires IsCurve(e)
    ensures IsField(e.field)
  {}

  /** Adds every scheduled base to its bucket. `ok` is false when the inversion panics, which
      happens exactly when some entry doubles a point of order two. */
  method BatchAdd<F(!new, ==), G(!new)>(
      e: Curve<F, G>, size: nat, buckets: array<Coords<F>>, all: seq<SchedulePoint>, bases: seq<Affine<F>>)
    returns (ok: bool)
    requires IsCurve(e) && size <= |all|
    requires Ready(buckets[..], all[..size], bases) && AllOnCurve(e, buckets[..], bases)
    modifies buckets
    ensures ok <==> forall i :: 0 <= i < size ==>
              !DoublesTwoTorsion(e.field, old(buckets[..])[all[i].buck], bases[all[i].base], all[i].sign)
    ensures ok ==> forall i :: 0 <= i < size ==>
              buckets[all[i].buck] ==
              Combined(e.field, old(buckets[..])[all[i].buck], bases[all[i].base], all[i].sign)
    ensures ok ==> forall i :: 0 <= i < size && old(buckets[..])[all[i].buck].At? ==>
              var base := bases[all[i].base];
              IsSum(e.field, e.b, At(base.x, if all[i].sign then base.y else e.field.neg(base.y)),
                    old(buckets[..])[all[i].buck], buckets[all[i].buck])
    ensures ok ==> forall j :: 0 <= j < buckets.Length && (forall i :: 0 <= i < size ==> all[i].buck != j) ==>
              buckets[j] == old(buckets[j])
  {
    hide IsSum, Combined, DoublesTwoTorsion, OnCurve, Prefix, Prepared, IsCurve;
    CurveField(e);
    var k := e.field;
    ghost var bs := buckets[..];
    var points := all[..size];
    assert forall i :: 0 <= i < size ==> points[i] == all[i];
    var t, z, acc := ForwardPass(k, buckets, points, bases);
    PrefixZero(e, bs, points, bases, size);
    if acc == k.zero {
      return false;
    }
    acc := k.inv(acc);
    ReversePass(e, buckets, points, bases, t, z, acc, bs);
    assert forall i :: 0 <= i < size ==> Finished(k, bs, points, bases, i, buckets[..][points[i].buck]);
    forall i | 0 <= i < size && bs[all[i].buck].At?
      ensures IsSum(k, e.b, At(bases[all[i].base].x, if all[i].sign then bases[all[i].base].y else k.neg(bases[all[i].base].y)),
                    bs[all[i].buck], buckets[all[i].buck])
    {
      EntrySum(e, bs[all[i].buck], bases[all[i].base], all[i].sign);
    }
    ok := true;
  }
}
