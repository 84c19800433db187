/** Multi-scalar multiplication: serial, chunked and batch-affine (curves/src/msm.rs). */
module Msm {
  import opened Algebra
  import Wrappers
  import opened Numbers
  import opened MsmSpec
  import opened CurveModel
  import opened BatchAddition
  import opened Scheduler
  import Booth

  /** Window size by number of bases; lnCeil stands for the rounded-up natural logarithm. */
  function WindowSize(lnCeil: nat -> nat, n: nat): nat {
    if n < 4 then 1 else if n < 32 then 3 else lnCeil(n)
  }

  ghost predicate WindowsInRange(lnCeil: nat -> nat) {
    forall n: nat :: 32 <= n ==> 1 <= lnCeil(n) <= 24
  }

  method DoubleTimes<G(!new)>(g: Group<G>, start: G, times: nat) returns (acc: G)
    requires IsGroup(g)
    ensures acc == Mul(g, Pow2(times), start)
  {
    acc := start;
    MulOne(g, start);
    for i := 0 to times
      invariant acc == Mul(g, Pow2(i), start)
    {
      MulDouble(g, Pow2(i), start);
      acc := g.add(acc, acc);
    }
  }

  // ---------------------------------------------------------------- msm_serial

  datatype SerialBucket<G> = Empty | FromAffine(p: G) | FromProjective(p: G)

  function SerialAddAssign<G>(g: Group<G>, b: SerialBucket<G>, p: G): SerialBucket<G> {
    match b
    case Empty => FromAffine(p)
    case FromAffine(a) => FromProjective(g.add(a, p))
    case FromProjective(a) => FromProjective(g.add(a, p))
  }

  function SerialAdd<G>(g: Group<G>, b: SerialBucket<G>, other: G): G {
    match b
    case Empty => other
    case FromAffine(a) => g.add(other, a)
    case FromProjective(a) => g.add(other, a)
  }

  ghost function SerialValue<G>(g: Group<G>, b: SerialBucket<G>): G {
    if b.Empty? then g.zero else b.p
  }

  lemma SerialOps<G(!new)>(g: Group<G>, b: SerialBucket<G>, p: G)
    requires IsGroup(g)
    ensures SerialValue(g, SerialAddAssign(g, b, p)) == g.add(SerialValue(g, b), p)
    ensures SerialAdd(g, b, p) == g.add(p, SerialValue(g, b))
  {
    GZero(g, p);
  }

  /** Routes every point to the bucket of its digit. */
  method FillSerialBuckets<G(!new)>(g: Group<G>, coeffs: seq<Bytes>, bases: seq<G>, c: nat, w: nat, n: nat)
    returns (buckets: seq<SerialBucket<G>>)
    requires IsGroup(g) && n <= |coeffs| && n <= |bases| && 1 <= c <= 24
    ensures |buckets| == Pow2(c - 1)
    ensures forall k :: 0 <= k < |buckets| ==>
              SerialValue(g, buckets[k]) == Routed(g, Digits(coeffs, c, w)[..n], bases, k)
  {
    hide IsGroup, SerialValue, Booth.Digit, FromLe, Pow2;
    buckets := seq(Pow2(c - 1), _ => Empty);
    ghost var digits := Digits(coeffs, c, w);
    NothingRouted(g, buckets, bases);
    assert digits[..0] == [];
    for i := 0 to n
      invariant |buckets| == Pow2(c - 1)
      invariant SerialRouted(g, buckets, digits[..i], bases)
    {
      var d := Booth.GetBoothIndex(w, c, coeffs[i]);
      assert digits[..i + 1] == digits[..i] + [d];
      RouteSerial(g, buckets, digits[..i], bases, d);
      if d > 0 {
        buckets := buckets[d - 1 := SerialAddAssign(g, buckets[d - 1], bases[i])];
      }
      if d < 0 {
        buckets := buckets[-d - 1 := SerialAddAssign(g, buckets[-d - 1], g.neg(bases[i]))];
      }
    }
  }

  /** Every bucket holds the signed sum of the points routed to it. */
  ghost predicate SerialRouted<G>(g: Group<G>, buckets: seq<SerialBucket<G>>, digits: seq<int>, bases: seq<G>) {
    |digits| <= |bases| && forall k :: 0 <= k < |buckets| ==> SerialValue(g, buckets[k]) == Routed(g, digits, bases, k)
  }

  lemma NothingRouted<G>(g: Group<G>, buckets: seq<SerialBucket<G>>, bases: seq<G>)
    requires forall k :: 0 <= k < |buckets| ==> buckets[k] == Empty
    ensures SerialRouted(g, buckets, [], bases)
  {}

  /** One more point goes to the bucket of its digit, with its sign. */
  lemma RouteSerial<G(!new)>(g: Group<G>, buckets: seq<SerialBucket<G>>, digits: seq<int>, bases: seq<G>, d: int)
    requires IsGroup(g) && SerialRouted(g, buckets, digits, bases) && |digits| < |bases| && 0 - |buckets| <= d <= |buckets|
    ensures var p, more := bases[|digits|], digits + [d];
            && (d > 0 ==> SerialRouted(g, buckets[d - 1 := SerialAddAssign(g, buckets[d - 1], p)], more, bases))
            && (d < 0 ==> SerialRouted(g, buckets[-d - 1 := SerialAddAssign(g, buckets[-d - 1], g.neg(p))], more, bases))
            && (d == 0 ==> SerialRouted(g, buckets, more, bases))
  {
    hide SerialValue, SerialAddAssign;
    var p := bases[|digits|];
    assert (digits + [d])[..|digits|] == digits;
    if d > 0 {
      SerialOps(g, buckets[d - 1], p);
    } else if d < 0 {
      SerialOps(g, buckets[-d - 1], g.neg(p));
    }
  }

  /** One window of the serial algorithm: bucket filling and summation by parts. */
  method SerialWindow<G(!new)>(g: Group<G>, coeffs: seq<Bytes>, bases: seq<G>, c: nat, w: nat, n: nat, start: G)
    returns (acc: G)
    requires IsGroup(g) && n <= |coeffs| && n <= |bases| && 1 <= c <= 24
    ensures acc == g.add(start, WindowSum(g, coeffs, bases, c, w, n))
  {
    var buckets := FillSerialBuckets(g, coeffs, bases, c, w, n);
    ghost var vals := seq(|buckets|, k requires 0 <= k < |buckets| => SerialValue(g, buckets[k]));
    acc := start;
    GZero(g, start);
    var running := g.zero;
    var k := |buckets|;
    while k > 0
      invariant 0 <= k <= |buckets| == |vals|
      invariant running == Running(g, vals, k)
      invariant acc == g.add(start, Parts(g, vals, k))
    {
      k := k - 1;
      SerialOps(g, buckets[k], running);
      running := SerialAdd(g, buckets[k], running);
      GAssoc(g, start, Parts(g, vals, k + 1), running);
      acc := g.add(acc, running);
    }
    DigitsInRange(coeffs, c, w);
    PartsOfRouted(g, vals, Digits(coeffs, c, w)[..n], bases);
    DigitSumIsWindowSum(g, coeffs, bases, c, w, n);
  }

  /** Bitwise or of all scalars, and from it the number of bytes that any scalar uses. */
  method MaxByteSize(coeffs: seq<Bytes>, fieldBytes: nat) returns (m: nat)
    ensures m <= fieldBytes
    ensures forall i, j :: 0 <= i < |coeffs| && m <= j < |coeffs[i]| && j < fieldBytes ==> coeffs[i][j] == 0
    ensures m > 0 ==> exists i :: 0 <= i < |coeffs| && m - 1 < |coeffs[i]| && coeffs[i][m - 1] != 0
  {
    var mask: seq<nat> := seq(fieldBytes, _ => 0);
    for i := 0 to |coeffs|
      invariant |mask| == fieldBytes
      invariant forall j :: 0 <= j < fieldBytes ==>
                  (mask[j] == 0 <==> forall l :: 0 <= l < i && j < |coeffs[l]| ==> coeffs[l][j] == 0)
    {
      ghost var before := mask;
      var coeff := coeffs[i];
      for j := 0 to if fieldBytes < |coeff| then fieldBytes else |coeff|
        invariant |mask| == fieldBytes
        invariant forall l :: 0 <= l < j ==> (mask[l] == 0 <==> before[l] == 0 && coeff[l] == 0)
        invariant forall l :: j <= l < fieldBytes ==> mask[l] == before[l]
      {
        mask := mask[j := Or(mask[j], coeff[j])];
      }
    }
    m := fieldBytes;
    while m > 0 && mask[m - 1] == 0
      invariant 0 <= m <= fieldBytes
      invariant forall j :: m <= j < fieldBytes ==> mask[j] == 0
    {
      m := m - 1;
    }
    forall i, j | 0 <= i < |coeffs| && m <= j < |coeffs[i]| && j < fieldBytes
      ensures coeffs[i][j] == 0
    {
      assert mask[j] == 0;
    }
  }

  /** Bytes above the field size vanish in a scalar below 2^bits. */
  lemma TopBytesVanish(coeff: Bytes, fieldBytes: nat, bits: nat)
    requires bits <= 8 * fieldBytes && FromLe(coeff) < Pow2(bits) && fieldBytes <= |coeff|
    ensures FromLe(coeff[fieldBytes..]) == 0
  {
    FromLeSplit(coeff, fieldBytes);
    Pow2Mono(bits, 8 * fieldBytes);
    var top := FromLe(coeff[fieldBytes..]);
    if top >= 1 {
      MulLe(Pow2(8 * fieldBytes), 1, top);
    }
  }

  lemma RestVanishes(coeff: Bytes, m: nat, fieldBytes: nat, bits: nat)
    requires m <= fieldBytes && bits <= 8 * fieldBytes && FromLe(coeff) < Pow2(bits) && m <= |coeff|
    requires forall j :: m <= j < |coeff| && j < fieldBytes ==> coeff[j] == 0
    ensures FromLe(coeff[m..]) == 0
  {
    var rest := coeff[m..];
    if |coeff| <= fieldBytes {
      FromLeZeros(rest);
    } else {
      TopBytesVanish(coeff, fieldBytes, bits);
      assert rest[fieldBytes - m..] == coeff[fieldBytes..];
      FromLeZeros(rest[..fieldBytes - m]);
      FromLeSplit(rest, fieldBytes - m);
    }
  }

  /** A scalar below 2^bits whose bytes vanish from m up to the field size is below 2^(8m). */
  lemma BytesBound(coeff: Bytes, m: nat, fieldBytes: nat, bits: nat)
    requires m <= fieldBytes && bits <= 8 * fieldBytes && FromLe(coeff) < Pow2(bits)
    requires forall j :: m <= j < |coeff| && j < fieldBytes ==> coeff[j] == 0
    ensures FromLe(coeff) < Pow2(8 * m)
  {
    if m < |coeff| {
      RestVanishes(coeff, m, fieldBytes, bits);
      FromLeSplit(coeff, m);
      FromLeBound(coeff[..m]);
    } else {
      FromLeBound(coeff);
      Pow2Mono(8 * |coeff|, 8 * m);
    }
  }

  lemma NonZeroByte(coeff: Bytes, j: nat)
    requires j < |coeff| && coeff[j] != 0
    ensures FromLe(coeff) >= Pow2(8 * j) && FromLe(coeff) != 0
  {
    FromLeSplit(coeff, j);
    MulLe(Pow2(8 * j), 1, FromLe(coeff[j..]));
  }

  /** One round: make room for the window, then add it. */
  method SerialRound<G(!new)>(g: Group<G>, coeffs: seq<Bytes>, bases: seq<G>, c: nat, w: nat, n: nat, start: G)
    returns (acc: G)
    requires IsGroup(g) && n <= |coeffs| && n <= |bases| && 1 <= c <= 24
    ensures acc == g.add(Mul(g, Pow2(c), start), WindowSum(g, coeffs, bases, c, w, n))
  {
    acc := DoubleTimes(g, start, c);
    acc := SerialWindow(g, coeffs, bases, c, w, n, acc);
  }

  /** All windows of the serial algorithm, most significant first. */
  method SerialWindows<G(!new)>(g: Group<G>, coeffs: seq<Bytes>, bases: seq<G>, c: nat, windows: nat, n: nat, start: G)
    returns (acc: G)
    requires IsGroup(g) && n <= |coeffs| && n <= |bases| && 1 <= c <= 24
    ensures acc == Horner(g, start, coeffs, bases, c, windows, 0, n)
  {
    acc := start;
    var w := windows;
    while w > 0
      invariant 0 <= w <= windows
      invariant acc == Horner(g, start, coeffs, bases, c, windows, w, n)
    {
      w := w - 1;
      acc := SerialRound(g, coeffs, bases, c, w, n, acc);
      HornerUnfold(g, start, coeffs, bases, c, windows, w, n);
    }
  }

  /** What the comment above the serial algorithm promises: a panic (None) on inputs of different lengths. */
  ghost function DocumentedSerial<G>(g: Group<G>, coeffs: seq<Bytes>, bases: seq<G>, start: G, shift: nat): Wrappers.Option<G> {
    if |coeffs| != |bases| then Wrappers.None
    else Wrappers.Some(g.add(Naive(g, coeffs, bases, |coeffs|), Mul(g, Pow2(shift), start)))
  }

  /** m is the least number of bytes that holds every scalar. */
  ghost predicate LeastBytes(coeffs: seq<Bytes>, m: nat) {
    && (forall i :: 0 <= i < |coeffs| ==> FromLe(coeffs[i]) < Pow2(8 * m))
    && (m > 0 ==> exists i :: 0 <= i < |coeffs| && FromLe(coeffs[i]) >= Pow2(8 * (m - 1)))
  }

  /** The doublings that a serial run makes: windows of size 1 for fewer than 4 bases, 3 for fewer than 32, and the
      logarithm otherwise, one more than fit the bits of the scalars; none if all scalars are zero. */
  ghost predicate DoublingsAre(lnCeil: nat -> nat, coeffs: seq<Bytes>, n: nat, shift: nat) {
    var c := if n < 4 then 1 else if n < 32 then 3 else lnCeil(n);
    c >= 1 && exists m: nat :: LeastBytes(coeffs, m) && shift == if m == 0 then 0 else c * (8 * m / c + 1)
  }

  /** The serial algorithm doubles what the accumulator held on entry by the windows it runs
      through; it runs through none when every scalar is zero. Terms beyond the shorter of the
      two inputs are ignored. */
  method MsmSerial<G(!new)>(lnCeil: nat -> nat, g: Group<G>, bits: nat, coeffs: seq<Bytes>, bases: seq<G>, start: G)
    returns (acc: G, ghost shift: nat)
    requires IsGroup(g) && WindowsInRange(lnCeil)
    requires forall i :: 0 <= i < |coeffs| ==> FromLe(coeffs[i]) < Pow2(bits)
    ensures acc == g.add(Naive(g, coeffs, bases, Min(|coeffs|, |bases|)), Mul(g, Pow2(shift), start))
    ensures shift == 0 <==> forall i :: 0 <= i < |coeffs| ==> FromLe(coeffs[i]) == 0
    ensures DoublingsAre(lnCeil, coeffs, |bases|, shift)
    ensures start == g.zero ==> acc == Naive(g, coeffs, bases, Min(|coeffs|, |bases|))
    ensures DocumentedSerial(g, coeffs, bases, start, shift) == Wrappers.Some(acc) <==> |coeffs| == |bases|
  {
    hide DoublingsAre, LeastBytes, Naive, Mul, Pow2, FromLe, IsGroup;
    acc, shift := start, 0;
    var n := Min(|coeffs|, |bases|);
    var c := WindowSize(lnCeil, |bases|);
    var fieldBytes := (bits + 7) / 8;
    var m := MaxByteSize(coeffs, fieldBytes);
    ScalarBytes(coeffs, m, fieldBytes, bits);
    if m == 0 {
      NaiveOfZeros(g, coeffs, bases, n);
      PowZero();
      MulOne(g, start);
      GZero(g, start);
      Doublings(lnCeil, coeffs, |bases|, c, m, 0);
      return;
    }
    Booth.WindowCountSuffices(8 * m, c);
    var windows := m * 8 / c + 1;
    acc := SerialWindows(g, coeffs, bases, c, windows, n, start);
    shift := SerialShift(g, start, coeffs, bases, c, windows, 8 * m, n, acc);
    Doublings(lnCeil, coeffs, |bases|, c, m, windows);
    MulOfZero(g, Pow2(shift));
    GZero(g, Naive(g, coeffs, bases, n));
  }

  lemma PowZero()
    ensures Pow2(0) == 1
  {}

  lemma Doublings(lnCeil: nat -> nat, coeffs: seq<Bytes>, n: nat, c: nat, m: nat, windows: nat)
    requires WindowsInRange(lnCeil) && c == WindowSize(lnCeil, n) && LeastBytes(coeffs, m)
    requires c >= 1 && windows == if m == 0 then 0 else m * 8 / c + 1
    ensures DoublingsAre(lnCeil, coeffs, n, if m == 0 then 0 else c * windows)
  {
    hide LeastBytes;
  }

  function Min(a: nat, b: nat): nat { if a < b then a else b }

  /** The byte count bounds every scalar, and is zero only when all scalars are. */
  lemma ScalarBytes(coeffs: seq<Bytes>, m: nat, fieldBytes: nat, bits: nat)
    requires m <= fieldBytes && bits <= 8 * fieldBytes
    requires forall i :: 0 <= i < |coeffs| ==> FromLe(coeffs[i]) < Pow2(bits)
    requires forall i, j :: 0 <= i < |coeffs| && m <= j < |coeffs[i]| && j < fieldBytes ==> coeffs[i][j] == 0
    requires m > 0 ==> exists i :: 0 <= i < |coeffs| && m - 1 < |coeffs[i]| && coeffs[i][m - 1] != 0
    ensures forall i :: 0 <= i < |coeffs| ==> FromLe(coeffs[i]) < Pow2(8 * m)
    ensures m == 0 <==> forall i :: 0 <= i < |coeffs| ==> FromLe(coeffs[i]) == 0
    ensures LeastBytes(coeffs, m)
  {
    forall i | 0 <= i < |coeffs|
      ensures FromLe(coeffs[i]) < Pow2(8 * m)
    {
      BytesBound(coeffs[i], m, fieldBytes, bits);
    }
    if m > 0 {
      var i :| 0 <= i < |coeffs| && m - 1 < |coeffs[i]| && coeffs[i][m - 1] != 0;
      NonZeroByte(coeffs[i], m - 1);
    }
  }

  lemma SerialShift<G(!new)>(
      g: Group<G>, start: G, coeffs: seq<Bytes>, bases: seq<G>, c: nat, windows: nat, bits: nat, n: nat, acc: G)
    returns (shift: nat)
    requires IsGroup(g) && n <= |coeffs| && n <= |bases| && c >= 1 && bits < c * windows
    requires forall i :: 0 <= i < |coeffs| ==> FromLe(coeffs[i]) < Pow2(bits)
    requires acc == Horner(g, start, coeffs, bases, c, windows, 0, n)
    ensures shift == c * windows > 0 && acc == g.add(Naive(g, coeffs, bases, n), Mul(g, Pow2(shift), start))
  {
    shift := c * windows;
    HornerIsShifted(g, start, coeffs, bases, c, windows, 0, n);
    assert Pow2(c * 0) == 1;
    MulOne(g, acc);
    GZero(g, acc);
    WindowsReassemble(g, coeffs, bases, c, windows, bits, n);
  }

  // ---------------------------------------------------------------- msm_parallel

  /** One scalar against two bases: the second base is ignored where a panic is documented. */
  method SerialOfUnequalLengths<G(!new)>(lnCeil: nat -> nat, g: Group<G>, p: G, q: G) returns (acc: G)
    requires IsGroup(g) && WindowsInRange(lnCeil)
    ensures acc == p && DocumentedSerial(g, [[1]], [p, q], g.zero, 0).None?
  {
    var coeffs: seq<Bytes> := [[1]];
    assert FromLe(coeffs[0]) == 1 by { assert FromLe(coeffs[0][1..]) == 0; }
    assert Pow2(8) == 256;
    ghost var shift;
    acc, shift := MsmSerial(lnCeil, g, 8, coeffs, [p, q], g.zero);
    assert Naive(g, coeffs, [p, q], 1) == g.add(Naive(g, coeffs, [p, q], 0), Mul(g, 1, p));
    MulOne(g, p);
    GZero(g, p);
  }

  method MsmFromZero<G(!new)>(lnCeil: nat -> nat, g: Group<G>, bits: nat, coeffs: seq<Bytes>, bases: seq<G>) returns (r: G)
    requires IsGroup(g) && WindowsInRange(lnCeil) && |coeffs| == |bases|
    requires forall i :: 0 <= i < |coeffs| ==> FromLe(coeffs[i]) < Pow2(bits)
    ensures r == Naive(g, coeffs, bases, |coeffs|)
  {
    ghost var shift;
    r, shift := MsmSerial(lnCeil, g, bits, coeffs, bases, g.zero);
    MulOfZero(g, Pow2(shift));
    GZero(g, Naive(g, coeffs, bases, |coeffs|));
  }

  method FoldSum<G(!new)>(g: Group<G>, s: seq<G>) returns (r: G)
    ensures r == Sum(g, s)
  {
    r := g.zero;
    for i := 0 to |s|
      invariant r == Sum(g, s[..i])
    {
      assert s[..i + 1][..i] == s[..i];
      r := g.add(r, s[i]);
    }
    assert s[..|s|] == s;
  }

  lemma ChunkPositive(n: nat, threads: nat)
    requires 1 <= threads < n
    ensures n / threads >= 1
  {
    DivMod(n, threads);
    if n / threads <= 0 {
      MulLe(threads, n / threads, 0);
    }
  }

  /** One serial run per chunk, then the sum of the partial results. */
  method MsmParallel<G(!new)>(lnCeil: nat -> nat, threads: nat, g: Group<G>, bits: nat, coeffs: seq<Bytes>, bases: seq<G>)
    returns (r: G)
    requires IsGroup(g) && WindowsInRange(lnCeil) && threads >= 1
    requires |coeffs| == |bases|
    requires forall i :: 0 <= i < |coeffs| ==> FromLe(coeffs[i]) < Pow2(bits)
    ensures r == Naive(g, coeffs, bases, |coeffs|)
  {
    if |coeffs| <= threads {
      r := MsmFromZero(lnCeil, g, bits, coeffs, bases);
      return;
    }
    var chunk := |coeffs| / threads;
    ChunkPositive(|coeffs|, threads);
    var results: seq<G> := [];
    var lo := 0;
    while lo < |coeffs|
      invariant 0 <= lo <= |coeffs|
      invariant Sum(g, results) == Naive(g, coeffs, bases, lo)
    {
      var hi := if lo + chunk < |coeffs| then lo + chunk else |coeffs|;
      var part := MsmFromZero(lnCeil, g, bits, coeffs[lo..hi], bases[lo..hi]);
      NaiveSplit(g, coeffs, bases, lo, hi);
      SumSnoc(g, results, part);
      results := results + [part];
      lo := hi;
    }
    r := FoldSum(g, results);
  }

  // ---------------------------------------------------------------- msm_best

  /** Jacobian bucket for points whose affine bucket is already scheduled. */
  datatype Bucket<G> = None | Point(p: G)

  function BucketAddAssign<G>(g: Group<G>, b: Bucket<G>, p: G, sign: bool): Bucket<G> {
    match b
    case None => Point(if sign then p else g.neg(p))
    case Point(a) => Point(if sign then g.add(a, p) else g.add(a, g.neg(p)))
  }

  /** Jacobian bucket plus affine bucket. */
  function BucketAdd<F, G>(e: Curve<F, G>, j: Bucket<G>, a: Coords<F>): G {
    match (j, a)
    case (Point(p), At(x, y)) => e.group.add(p, e.fromXy(x, y))
    case (Point(p), Infinity) => p
    case (None, At(x, y)) => e.fromXy(x, y)
    case (None, Infinity) => e.group.zero
  }

  ghost function BucketValue<G>(g: Group<G>, b: Bucket<G>): G {
    if b.None? then g.zero else b.p
  }

  lemma BucketOps<F(!new), G(!new)>(e: Curve<F, G>, b: Bucket<G>, p: G, sign: bool, a: Coords<F>)
    requires IsCurve(e)
    ensures BucketValue(e.group, BucketAddAssign(e.group, b, p, sign)) ==
            e.group.add(BucketValue(e.group, b), if sign then p else e.group.neg(p))
    ensures BucketAdd(e, b, a) == e.group.add(BucketValue(e.group, b), PointOf(e, a))
  {
    GZero(e.group, if sign then p else e.group.neg(p));
    GZero(e.group, PointOf(e, a));
    GZero(e.group, BucketValue(e.group, b));
  }

  /** The bases and their affine coordinates describe the same non-identity points. */
  ghost predicate SamePoints<F(!new), G(!new)>(e: Curve<F, G>, bases: seq<G>, local: seq<Affine<F>>) {
    && |bases| == |local|
    && forall i :: 0 <= i < |bases| ==> e.coords(bases[i]) == At(local[i].x, local[i].y)
  }

  lemma SignedBase<F(!new), G(!new)>(e: Curve<F, G>, bases: seq<G>, local: seq<Affine<F>>, i: nat, sign: bool)
    requires IsCurve(e) && SamePoints(e, bases, local) && i < |bases|
    ensures SignedPoint(e, local[i], sign) == if sign then bases[i] else e.group.neg(bases[i])
    ensures OnCurve(e.field, e.b, At(local[i].x, local[i].y))
  {
    PointOfCoords(e, bases[i]);
    NegCoords(e, At(local[i].x, local[i].y));
  }

  /** In every state of the window loop, Jacobian bucket, affine bucket and scheduled points of
      index k add up to the signed sum of the points routed there so far. */
  ghost predicate Accounted<F(!new), G(!new)>(
      e: Curve<F, G>, bases: seq<G>, local: seq<Affine<F>>, digits: seq<int>,
      jBucks: seq<Bucket<G>>, buckets: seq<Coords<F>>, points: seq<SchedulePoint>)
    requires |digits| <= |bases| && Consistent(e, local, buckets, points) && |jBucks| == |buckets|
  {
    forall k :: 0 <= k < |jBucks| ==>
      e.group.add(BucketValue(e.group, jBucks[k]), Held(e, local, buckets, points, k)) ==
      Routed(e.group, digits, bases, k)
  }

  /** A digit moves the routed sum of its own bucket and of no other. */
  lemma RoutedStep<G(!new)>(g: Group<G>, digits: seq<int>, bases: seq<G>, k: nat, j: G, h: G)
    requires IsGroup(g) && 0 < |digits| <= |bases|
    requires g.add(j, h) == Routed(g, digits[..|digits| - 1], bases, k)
    ensures var d, base := digits[|digits| - 1], bases[|digits| - 1];
            var q := if d > 0 then base else g.neg(base);
            if d == k + 1 || d == -(k + 1)
            then && g.add(g.add(j, q), h) == Routed(g, digits, bases, k)
                 && g.add(j, g.add(h, q)) == Routed(g, digits, bases, k)
            else g.add(j, h) == Routed(g, digits, bases, k)
  {
    var d, base := digits[|digits| - 1], bases[|digits| - 1];
    var q := if d > 0 then base else g.neg(base);
    GAssoc(g, j, h, q);
    GAssoc(g, j, q, h);
    GComm(g, q, h);
  }

  /** The account survives a point that goes to a Jacobian bucket. */
  lemma AccountGreedy<F(!new), G(!new)>(
      e: Curve<F, G>, bases: seq<G>, local: seq<Affine<F>>, digits: seq<int>,
      jBucks: seq<Bucket<G>>, buckets: seq<Coords<F>>, points: seq<SchedulePoint>, buck: nat, sign: bool)
    requires IsCurve(e) && 0 < |digits| <= |bases|
    requires Consistent(e, local, buckets, points) && |jBucks| == |buckets| && buck < |buckets|
    requires Accounted(e, bases, local, digits[..|digits| - 1], jBucks, buckets, points)
    requires digits[|digits| - 1] == if sign then buck + 1 else -(buck + 1)
    ensures var p := bases[|digits| - 1];
            Accounted(e, bases, local, digits,
                      jBucks[buck := BucketAddAssign(e.group, jBucks[buck], p, sign)], buckets, points)
  {
    var p := bases[|digits| - 1];
    var jBucks' := jBucks[buck := BucketAddAssign(e.group, jBucks[buck], p, sign)];
    BucketOps(e, jBucks[buck], p, sign, Infinity);
    forall k | 0 <= k < |jBucks|
      ensures e.group.add(BucketValue(e.group, jBucks'[k]), Held(e, local, buckets, points, k)) ==
              Routed(e.group, digits, bases, k)
    {
      RoutedStep(e.group, digits, bases, k, BucketValue(e.group, jBucks[k]), Held(e, local, buckets, points, k));
    }
  }

  /** The account survives a point that goes through the scheduler, or one with digit zero. */
  lemma AccountScheduled<F(!new), G(!new)>(
      e: Curve<F, G>, bases: seq<G>, local: seq<Affine<F>>, digits: seq<int>, jBucks: seq<Bucket<G>>,
      buckets: seq<Coords<F>>, points: seq<SchedulePoint>, buckets': seq<Coords<F>>, points': seq<SchedulePoint>)
    requires IsCurve(e) && 0 < |digits| <= |bases| && SamePoints(e, bases, local)
    requires Consistent(e, local, buckets, points) && Consistent(e, local, buckets', points')
    requires |jBucks| == |buckets| == |buckets'|
    requires Accounted(e, bases, local, digits[..|digits| - 1], jBucks, buckets, points)
    requires var n := |digits| - 1;
             var d := digits[n];
             forall k :: 0 <= k < |buckets| ==>
               Held(e, local, buckets', points', k) ==
               if d == k + 1 || d == -(k + 1)
               then e.group.add(Held(e, local, buckets, points, k), SignedPoint(e, local[n], d > 0))
               else Held(e, local, buckets, points, k)
    ensures Accounted(e, bases, local, digits, jBucks, buckets', points')
  {
    var n := |digits| - 1;
    SignedBase(e, bases, local, n, digits[n] > 0);
    forall k | 0 <= k < |jBucks|
      ensures e.group.add(BucketValue(e.group, jBucks[k]), Held(e, local, buckets', points', k)) ==
              Routed(e.group, digits, bases, k)
    {
      RoutedStep(e.group, digits, bases, k, BucketValue(e.group, jBucks[k]), Held(e, local, buckets, points, k));
    }
  }

  lemma AccountStart<F(!new), G(!new)>(
      e: Curve<F, G>, bases: seq<G>, local: seq<Affine<F>>, jBucks: seq<Bucket<G>>, buckets: seq<Coords<F>>)
    requires IsCurve(e) && SamePoints(e, bases, local) && |jBucks| == |buckets|
    requires forall k :: 0 <= k < |buckets| ==> jBucks[k] == None && buckets[k] == Infinity
    ensures Consistent(e, local, buckets, [])
    ensures Accounted(e, bases, local, [], jBucks, buckets, [])
  {
    forall i | 0 <= i < |local|
      ensures OnCurve(e.field, e.b, At(local[i].x, local[i].y))
    {
      SignedBase(e, bases, local, i, true);
    }
    GZero(e.group, e.group.zero);
  }

  /** The window loop: every point is added greedily, put into its bucket or scheduled, and the
      schedule is flushed at the end. No point is lost. */
  method RouteWindow<F(!new, ==), G(!new)>(
      e: Curve<F, G>, c: nat, w: nat, coeffs: seq<Bytes>, bases: seq<G>, local: seq<Affine<F>>)
    returns (jBucks: seq<Bucket<G>>, aBucks: seq<Coords<F>>)
    requires IsCurve(e) && 1 <= c <= 24 && |coeffs| == |bases|
    requires SamePoints(e, bases, local) && OddOrder(e.field, local)
    ensures |jBucks| == |aBucks| == Pow2(c - 1)
    ensures forall k :: 0 <= k < |jBucks| ==>
              e.group.add(BucketValue(e.group, jBucks[k]), PointOf(e, aBucks[k])) ==
              Routed(e.group, Digits(coeffs, c, w), bases, k)
  {
    hide IsCurve, SamePoints, OddOrder, PointOf, BucketValue, Routed, Pow2, FromLe, Booth.Digit, Consistent, Accounted;
    jBucks := seq(Pow2(c - 1), _ => None);
    var sched := new Schedule<F, G>(Pow2(c - 1));
    ghost var digits := Digits(coeffs, c, w);
    AccountStart(e, bases, local, jBucks, sched.buckets[..]);
    assert sched.points[..0] == [] && digits[..0] == [];
    jBucks := RoutePoints(e, c, w, coeffs, bases, local, jBucks, sched);
    assert digits[..|coeffs|] == digits;
    ghost var buckets, points := sched.buckets[..], sched.points[..sched.ptr];
    sched.Execute(e, local);
    aBucks := sched.buckets[..];
    AccountEnd(e, bases, local, digits, jBucks, buckets, points, aBucks);
  }

  /** After the last flush the two buckets of an index add up to what was routed there. */
  lemma AccountEnd<F(!new), G(!new)>(
      e: Curve<F, G>, bases: seq<G>, local: seq<Affine<F>>, digits: seq<int>,
      jBucks: seq<Bucket<G>>, buckets: seq<Coords<F>>, points: seq<SchedulePoint>, after: seq<Coords<F>>)
    requires |digits| <= |bases| && Consistent(e, local, buckets, points) && |jBucks| == |buckets| == |after|
    requires Accounted(e, bases, local, digits, jBucks, buckets, points)
    requires forall k :: 0 <= k < |after| ==> PointOf(e, after[k]) == Held(e, local, buckets, points, k)
    ensures forall k :: 0 <= k < |jBucks| ==>
              e.group.add(BucketValue(e.group, jBucks[k]), PointOf(e, after[k])) == Routed(e.group, digits, bases, k)
  {
    hide Consistent, PointOf, BucketValue, Routed, Held;
  }

  /** Routes every point of the window, one after the other. */
  method RoutePoints<F(!new, ==), G(!new)>(
      e: Curve<F, G>, c: nat, w: nat, coeffs: seq<Bytes>, bases: seq<G>, local: seq<Affine<F>>,
      start: seq<Bucket<G>>, sched: Schedule<F, G>)
    returns (jBucks: seq<Bucket<G>>)
    requires IsCurve(e) && 1 <= c <= 24 && |coeffs| == |bases|
    requires SamePoints(e, bases, local) && OddOrder(e.field, local)
    requires sched.Valid(e, local) && |start| == sched.buckets.Length == Pow2(c - 1)
    requires Accounted(e, bases, local, Digits(coeffs, c, w)[..0], start, sched.buckets[..], sched.points[..sched.ptr])
    modifies sched`ptr, sched.buckets, sched.points
    ensures sched.Valid(e, local) && |jBucks| == |start|
    ensures Accounted(e, bases, local, Digits(coeffs, c, w)[..|coeffs|], jBucks, sched.buckets[..], sched.points[..sched.ptr])
  {
    hide IsCurve, SamePoints, OddOrder, Pow2, FromLe, Booth.Digit, Consistent, Accounted;
    jBucks := start;
    for i := 0 to |coeffs|
      invariant sched.Valid(e, local) && |jBucks| == |start|
      invariant Accounted(e, bases, local, Digits(coeffs, c, w)[..i], jBucks, sched.buckets[..], sched.points[..sched.ptr])
    {
      jBucks := RouteOne(e, c, w, coeffs, bases, local, i, jBucks, sched);
    }
  }

  /** One iteration of the window loop. */
  method RouteOne<F(!new, ==), G(!new)>(
      e: Curve<F, G>, c: nat, w: nat, coeffs: seq<Bytes>, bases: seq<G>, local: seq<Affine<F>>, i: nat,
      jBucks: seq<Bucket<G>>, sched: Schedule<F, G>)
    returns (jBucks': seq<Bucket<G>>)
    requires IsCurve(e) && 1 <= c <= 24 && |coeffs| == |bases| && i < |coeffs|
    requires SamePoints(e, bases, local) && OddOrder(e.field, local)
    requires sched.Valid(e, local) && |jBucks| == sched.buckets.Length == Pow2(c - 1)
    requires Accounted(e, bases, local, Digits(coeffs, c, w)[..i], jBucks, sched.buckets[..], sched.points[..sched.ptr])
    modifies sched`ptr, sched.buckets, sched.points
    ensures sched.Valid(e, local) && |jBucks'| == |jBucks|
    ensures Accounted(e, bases, local, Digits(coeffs, c, w)[..i + 1], jBucks', sched.buckets[..], sched.points[..sched.ptr])
  {
    ghost var digits := Digits(coeffs, c, w)[..i + 1];
    assert digits[..i] == Digits(coeffs, c, w)[..i];
    jBucks' := jBucks;
    ghost var bs, pts := sched.buckets[..], sched.points[..sched.ptr];
    var d := Booth.GetBoothIndex(w, c, coeffs[i]);
    assert digits[i] == d;
    if d == 0 {
      AccountScheduled(e, bases, local, digits, jBucks, bs, pts, bs, pts);
      return;
    }
    var sign, buck := d > 0, (if d > 0 then d else -d) - 1;
    var found := sched.Contains(buck);
    if found {
      AccountGreedy(e, bases, local, digits, jBucks, bs, pts, buck, sign);
      jBucks' := jBucks[buck := BucketAddAssign(e.group, jBucks[buck], bases[i], sign)];
    } else {
      sched.Add(e, local, i, buck, sign);
      assert forall k :: 0 <= k < sched.buckets.Length ==>
          Held(e, local, sched.buckets[..], sched.points[..sched.ptr], k) == sched.Total(e, local, k);
      AccountScheduled(e, bases, local, digits, jBucks, bs, pts, sched.buckets[..], sched.points[..sched.ptr]);
    }
  }

  /** Summation by parts over pairs of Jacobian and affine buckets. */
  method PairParts<F(!new, ==), G(!new)>(
      e: Curve<F, G>, jBucks: seq<Bucket<G>>, aBucks: seq<Coords<F>>, ghost vals: seq<G>)
    returns (acc: G)
    requires IsCurve(e) && |jBucks| == |aBucks| == |vals|
    requires forall k :: 0 <= k < |vals| ==>
               vals[k] == e.group.add(BucketValue(e.group, jBucks[k]), PointOf(e, aBucks[k]))
    ensures acc == Parts(e.group, vals, 0)
  {
    acc := e.group.zero;
    var running := e.group.zero;
    var k := |jBucks|;
    while k > 0
      invariant 0 <= k <= |jBucks|
      invariant running == Running(e.group, vals, k) && acc == Parts(e.group, vals, k)
    {
      k := k - 1;
      BucketOps(e, jBucks[k], e.group.zero, true, aBucks[k]);
      running := e.group.add(running, BucketAdd(e, jBucks[k], aBucks[k]));
      acc := e.group.add(acc, running);
    }
  }

  ghost function PairValues<F, G>(e: Curve<F, G>, jBucks: seq<Bucket<G>>, aBucks: seq<Coords<F>>): (vals: seq<G>)
    requires |jBucks| == |aBucks|
    ensures |vals| == |jBucks|
    ensures forall k :: 0 <= k < |vals| ==>
              vals[k] == e.group.add(BucketValue(e.group, jBucks[k]), PointOf(e, aBucks[k]))
  {
    seq(|jBucks|, k requires 0 <= k < |jBucks| => e.group.add(BucketValue(e.group, jBucks[k]), PointOf(e, aBucks[k])))
  }

  lemma BucketsAreWindowSum<G(!new)>(g: Group<G>, vals: seq<G>, coeffs: seq<Bytes>, bases: seq<G>, c: nat, w: nat)
    requires IsGroup(g) && |coeffs| == |bases| && c >= 1 && |vals| == Pow2(c - 1)
    requires forall k :: 0 <= k < |vals| ==> vals[k] == Routed(g, Digits(coeffs, c, w), bases, k)
    ensures Parts(g, vals, 0) == WindowSum(g, coeffs, bases, c, w, |coeffs|)
  {
    var digits := Digits(coeffs, c, w);
    DigitsInRange(coeffs, c, w);
    PartsOfRouted(g, vals, digits, bases);
    DigitSumIsWindowSum(g, coeffs, bases, c, w, |coeffs|);
    assert digits[..|coeffs|] == digits;
  }

  /** One window of the batch-affine algorithm before it is shifted. */
  method BucketWindow<F(!new, ==), G(!new)>(
      e: Curve<F, G>, c: nat, w: nat, coeffs: seq<Bytes>, bases: seq<G>, local: seq<Affine<F>>)
    returns (acc: G)
    requires IsCurve(e) && 1 <= c <= 24 && |coeffs| == |bases|
    requires SamePoints(e, bases, local) && OddOrder(e.field, local)
    ensures acc == WindowSum(e.group, coeffs, bases, c, w, |coeffs|)
  {
    var jBucks, aBucks := RouteWindow(e, c, w, coeffs, bases, local);
    ghost var vals := PairValues(e, jBucks, aBucks);
    acc := PairParts(e, jBucks, aBucks, vals);
    BucketsAreWindowSum(e.group, vals, coeffs, bases, c, w);
  }

  /** One window of the batch-affine algorithm, shifted to its position. */
  method BestWindow<F(!new, ==), G(!new)>(
      e: Curve<F, G>, c: nat, w: nat, coeffs: seq<Bytes>, bases: seq<G>, local: seq<Affine<F>>)
    returns (acc: G)
    requires IsCurve(e) && 1 <= c <= 24 && |coeffs| == |bases|
    requires SamePoints(e, bases, local) && OddOrder(e.field, local)
    ensures acc == Mul(e.group, Pow2(c * w), WindowSum(e.group, coeffs, bases, c, w, |coeffs|))
  {
    acc := BucketWindow(e, c, w, coeffs, bases, local);
    acc := DoubleTimes(e.group, acc, c * w);
  }

  /** Keeping a point appends its term; dropping an identity drops a zero term. */
  lemma FilterStep<F(!new), G(!new)>(
      e: Curve<F, G>, coeffs: seq<Bytes>, bases: seq<G>, i: nat, coeffs': seq<Bytes>, bases': seq<G>)
    requires IsCurve(e) && i < |coeffs| == |bases| && |coeffs'| == |bases'|
    requires Naive(e.group, coeffs', bases', |coeffs'|) == Naive(e.group, coeffs, bases, i)
    ensures Naive(e.group, coeffs' + [coeffs[i]], bases' + [bases[i]], |coeffs'| + 1) ==
            Naive(e.group, coeffs, bases, i + 1)
    ensures e.coords(bases[i]) == Infinity ==>
              Naive(e.group, coeffs', bases', |coeffs'|) == Naive(e.group, coeffs, bases, i + 1)
  {
    NaivePrefix(e.group, coeffs', bases', coeffs' + [coeffs[i]], bases' + [bases[i]], |coeffs'|);
    PointOfCoords(e, bases[i]);
    MulOfZero(e.group, FromLe(coeffs[i]));
    GZero(e.group, Naive(e.group, coeffs, bases, i));
  }

  ghost predicate OddPoints<F(!new), G(!new)>(e: Curve<F, G>, bases: seq<G>) {
    forall i :: 0 <= i < |bases| && e.coords(bases[i]).At? ==> e.coords(bases[i]).y != e.field.zero
  }

  ghost predicate ScalarsFit(coeffs: seq<Bytes>, bits: nat) {
    forall i :: 0 <= i < |coeffs| ==> FromLe(coeffs[i]) < Pow2(bits)
  }

  /** Invariant of the filter. */
  ghost predicate Kept<F(!new), G(!new)>(
      e: Curve<F, G>, bits: nat, coeffs: seq<Bytes>, bases: seq<G>, local: seq<Affine<F>>)
  {
    |coeffs| == |bases| && SamePoints(e, bases, local) && OddOrder(e.field, local) && ScalarsFit(coeffs, bits)
  }

  lemma KeepPoint<F(!new), G(!new)>(
      e: Curve<F, G>, bits: nat, coeffs: seq<Bytes>, bases: seq<G>, local: seq<Affine<F>>, c: Bytes, p: G, a: Affine<F>)
    requires Kept(e, bits, coeffs, bases, local)
    requires e.coords(p) == At(a.x, a.y) && a.y != e.field.zero && FromLe(c) < Pow2(bits)
    ensures Kept(e, bits, coeffs + [c], bases + [p], local + [a])
  {}

  lemma KeepNone<F(!new), G(!new)>(e: Curve<F, G>, bits: nat, coeffs: seq<Bytes>, bases: seq<G>)
    ensures Kept(e, bits, [], [], []) && Naive(e.group, [], [], 0) == Naive(e.group, coeffs, bases, 0)
  {}

  /** Drops the identities, which contribute nothing. */
  method FilterIdentities<F(!new, ==), G(!new)>(e: Curve<F, G>, ghost bits: nat, coeffs: seq<Bytes>, bases: seq<G>)
    returns (coeffs': seq<Bytes>, bases': seq<G>, local: seq<Affine<F>>)
    requires IsCurve(e) && |coeffs| == |bases| && OddPoints(e, bases) && ScalarsFit(coeffs, bits)
    ensures Kept(e, bits, coeffs', bases', local)
    ensures Naive(e.group, coeffs', bases', |coeffs'|) == Naive(e.group, coeffs, bases, |coeffs|)
  {
    hide IsCurve, Naive, SamePoints, OddOrder, FromLe, Pow2;
    coeffs', bases', local := [], [], [];
    KeepNone(e, bits, coeffs, bases);
    for i := 0 to |coeffs|
      invariant Kept(e, bits, coeffs', bases', local)
      invariant Naive(e.group, coeffs', bases', |coeffs'|) == Naive(e.group, coeffs, bases, i)
    {
      FilterStep(e, coeffs, bases, i, coeffs', bases');
      var xy := e.coords(bases[i]);
      if xy.At? {
        KeepPoint(e, bits, coeffs', bases', local, coeffs[i], bases[i], Affine(xy.x, xy.y));
        coeffs', bases', local := coeffs' + [coeffs[i]], bases' + [bases[i]], local + [Affine(xy.x, xy.y)];
      }
    }
  }

  /** The public entry point returns the naive sum, whatever the window size and thread count. */
  method MsmBest<F(!new, ==), G(!new)>(
      lnCeil: nat -> nat, threads: nat, e: Curve<F, G>, bits: nat, coeffs: seq<Bytes>, bases: seq<G>)
    returns (r: G)
    requires IsCurve(e) && WindowsInRange(lnCeil) && threads >= 1
    requires |coeffs| == |bases| && OddPoints(e, bases) && ScalarsFit(coeffs, bits)
    ensures r == Naive(e.group, coeffs, bases, |coeffs|)
  {
    var c := WindowSize(lnCeil, |bases|);
    if c < 10 {
      r := MsmParallel(lnCeil, threads, e.group, bits, coeffs, bases);
      return;
    }
    var coeffs', bases', local := FilterIdentities(e, bits, coeffs, bases);
    Booth.WindowCountSuffices(bits, c);
    var windows := bits / c + 1;
    r := SumWindows(e, c, windows, coeffs', bases', local);
    WindowsReassemble(e.group, coeffs', bases', c, windows, bits, |coeffs'|);
  }

  /** The sum of all window accumulators. */
  method SumWindows<F(!new, ==), G(!new)>(
      e: Curve<F, G>, c: nat, windows: nat, coeffs: seq<Bytes>, bases: seq<G>, local: seq<Affine<F>>)
    returns (r: G)
    requires IsCurve(e) && 1 <= c <= 24 && |coeffs| == |bases|
    requires SamePoints(e, bases, local) && OddOrder(e.field, local)
    ensures r == Shifted(e.group, coeffs, bases, c, windows, |coeffs|)
  {
    r := e.group.zero;
    for w := 0 to windows
      invariant r == Shifted(e.group, coeffs, bases, c, w, |coeffs|)
    {
      var acc := BestWindow(e, c, w, coeffs, bases, local);
      r := e.group.add(r, acc);
    }
  }
}
