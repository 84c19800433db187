/** In-place radix-2 FFT (curves/src/fft.rs, best_fft and recursive_butterfly_arithmetic). */
module Fft {
  import opened Algebra
  import opened Numbers
  import opened FftSpec
  import opened FftInverse

  // ---------------------------------------------------------------- bit reversal

  method BitReverse(n: nat, l: nat) returns (r: nat)
    ensures r == Reverse(n, l)
  {
    r := 0;
    var rest := n;
    for i := 0 to l
      invariant r * Pow2(l - i) + Reverse(rest, l - i) == Reverse(n, l)
    {
      ShiftIn(r, rest % 2, l - i - 1);
      r := 2 * r + rest % 2;
      rest := rest / 2;
    }
  }

  lemma ShiftIn(r: nat, bit: nat, k: nat)
    requires bit <= 1
    ensures r * Pow2(k + 1) + (if bit == 1 then Pow2(k) else 0) == (2 * r + bit) * Pow2(k)
  {
    MulAssoc(r, 2, Pow2(k));
    assert (2 * r + bit) * Pow2(k) == 2 * r * Pow2(k) + bit * Pow2(k);
  }

  /** Positions whose pair starts below k are swapped, the others untouched. */
  ghost predicate Swapping<G>(a0: seq<G>, a: seq<G>, m: nat, k: nat) {
    && |a0| == |a| == Pow2(m)
    && forall j :: 0 <= j < |a| ==> a[j] == if j < k || Reverse(j, m) < k then ReversedEntry(a0, m, j) else a0[j]
  }

  lemma SwapStep<G>(a0: seq<G>, a: seq<G>, m: nat, k: nat)
    requires Swapping(a0, a, m, k) && k < |a|
    ensures var rk := Reverse(k, m);
            && rk < |a|
            && Swapping(a0, if k < rk then a[k := a[rk]][rk := a[k]] else a, m, k + 1)
  {
    ReverseRange(k, m);
    ReverseReverse(k, m);
    var rk := Reverse(k, m);
    var a' := if k < rk then a[k := a[rk]][rk := a[k]] else a;
    forall j | 0 <= j < |a'|
      ensures a'[j] == if j < k + 1 || Reverse(j, m) < k + 1 then ReversedEntry(a0, m, j) else a0[j]
    {
      if Reverse(j, m) == k {
        ReverseReverse(j, m);
      }
    }
  }

  /** Reorders the array by reversed index, swapping each pair once. */
  method BitReversal<G>(a: array<G>, m: nat)
    requires a.Length == Pow2(m)
    modifies a
    ensures Reversed(a[..], 0, old(a[..]), m)
  {
    ghost var a0 := a[..];
    var k := 0;
    while k < a.Length
      invariant 0 <= k <= a.Length
      invariant Swapping(a0, a[..], m, k)
    {
      var rk := BitReverse(k, m);
      ghost var now := a[..];
      SwapStep(a0, now, m, k);
      if k < rk {
        a[k], a[rk] := a[rk], a[k];
      }
      assert a[..] == if k < rk then now[k := now[rk]][rk := now[k]] else now;
      k := k + 1;
    }
    assert forall j :: 0 <= j < a.Length ==> EntryAt(a[..], 0, j) == a[..][j];
  }

  // ---------------------------------------------------------------- one layer

  /** Entry x after the butterfly layer on a[lo .. lo + 2h] with root w. */
  ghost function LayerAt<F, G>(v: Space<F, G>, w: F, a: seq<G>, lo: nat, h: nat, x: nat): G
    requires lo + 2 * h <= |a| && x < |a|
  {
    if lo <= x < lo + h then Butterfly(v, Pow(v.field, w, x - lo), a[x], a[x + h], true)
    else if lo + h <= x < lo + 2 * h then Butterfly(v, Pow(v.field, w, x - lo - h), a[x - h], a[x], false)
    else a[x]
  }

  /** The twiddle factors are the powers of omega. */
  ghost predicate AreTwiddles<F>(k: Field<F>, twiddles: seq<F>, omega: F) {
    forall i :: 0 <= i < |twiddles| ==> twiddles[i] == Pow(k, omega, i)
  }

  lemma DoubleStride(h: nat, stride: nat)
    ensures 2 * h * stride == h * (stride * 2)
  {
    MulAssoc(2, h, stride);
    MulAssoc(h, stride, 2);
  }

  /** Twiddle index i * stride stays in bounds and holds the i-th power of the layer's root. */
  lemma TwiddleIndex<F(!new)>(k: Field<F>, twiddles: seq<F>, omega: F, stride: nat, h: nat, i: nat)
    requires IsField(k) && AreTwiddles(k, twiddles, omega) && h * stride == |twiddles| && stride >= 1 && i < h
    ensures 0 <= i * stride < |twiddles| && twiddles[i * stride] == Pow(k, Pow(k, omega, stride), i)
  {
    MulLe(stride, i, h - 1);
    assert (h - 1) * stride == h * stride - stride;
    MulLe(stride, 0, i);
    PowMul(k, omega, stride, i);
    assert stride * i == i * stride;
  }

  /** Loop state: the first i butterflies of the layer are done. */
  ghost predicate Layering<F, G>(v: Space<F, G>, w: F, a0: seq<G>, a: seq<G>, lo: nat, h: nat, i: nat)
    requires lo + 2 * h <= |a0| && i <= h
  {
    && |a| == |a0|
    && forall x :: 0 <= x < |a| ==>
         a[x] == if lo <= x < lo + i || lo + h <= x < lo + h + i then LayerAt(v, w, a0, lo, h, x) else a0[x]
  }

  /** One butterfly in place: t is the scaled right input. */
  ghost function Step<F, G>(v: Space<F, G>, a: seq<G>, p: nat, q: nat, t: G): seq<G>
    requires p < |a| && q < |a|
  {
    a[p := v.group.add(a[p], t)][q := v.group.add(a[p], v.group.neg(t))]
  }

  lemma LayerStep<F, G>(v: Space<F, G>, w: F, a0: seq<G>, a: seq<G>, lo: nat, h: nat, i: nat)
    requires lo + 2 * h <= |a0| && i < h && Layering(v, w, a0, a, lo, h, i)
    ensures Layering(v, w, a0, Step(v, a, lo + i, lo + h + i, v.scale(Pow(v.field, w, i), a[lo + h + i])), lo, h, i + 1)
  {
    var p, q := lo + i, lo + h + i;
    var a' := Step(v, a, p, q, v.scale(Pow(v.field, w, i), a[q]));
    assert a[p] == a0[p] && a[q] == a0[q];
    assert a'[p] == LayerAt(v, w, a0, lo, h, p);
    assert a'[q] == LayerAt(v, w, a0, lo, h, q);
    assert forall x :: 0 <= x < |a| && x != p && x != q ==> a'[x] == a[x];
  }

  /** One butterfly in place. */
  method ApplyStep<F, G>(v: Space<F, G>, a: array<G>, p: nat, q: nat, t: G)
    requires p < a.Length && q < a.Length && p != q
    modifies a
    ensures a[..] == Step(v, old(a[..]), p, q, t)
  {
    a[q] := a[p];
    a[p] := v.group.add(a[p], t);
    a[q] := v.group.add(a[q], v.group.neg(t));
  }

  /** The layer's loop, with the multiplication by one left out as in the code. */
  method CombineLayer<F(!new), G(!new)>(
      v: Space<F, G>, a: array<G>, lo: nat, h: nat, stride: nat, twiddles: seq<F>, ghost omega: F)
    requires IsSpace(v) && h >= 1 && lo + 2 * h <= a.Length && stride >= 1 && h * stride == |twiddles|
    requires AreTwiddles(v.field, twiddles, omega)
    modifies a
    ensures Layering(v, Pow(v.field, omega, stride), old(a[..]), a[..], lo, h, h)
  {
    ghost var a0, w := a[..], Pow(v.field, omega, stride);
    LayerStep(v, w, a0, a0, lo, h, 0);
    SOne(v, a[lo + h]);
    ApplyStep(v, a, lo, lo + h, a[lo + h]);
    var i := 1;
    while i < h
      invariant 1 <= i <= h
      invariant Layering(v, w, a0, a[..], lo, h, i)
    {
      LayerIteration(v, a, lo, h, stride, twiddles, omega, i, a0);
      i := i + 1;
    }
  }

  /** Butterfly i of the layer, with its twiddle factor. */
  method LayerIteration<F(!new), G(!new)>(
      v: Space<F, G>, a: array<G>, lo: nat, h: nat, stride: nat, twiddles: seq<F>, ghost omega: F, i: nat, ghost a0: seq<G>)
    requires IsSpace(v) && i < h && lo + 2 * h <= a.Length == |a0| && stride >= 1 && h * stride == |twiddles|
    requires AreTwiddles(v.field, twiddles, omega)
    requires Layering(v, Pow(v.field, omega, stride), a0, a[..], lo, h, i)
    modifies a
    ensures Layering(v, Pow(v.field, omega, stride), a0, a[..], lo, h, i + 1)
  {
    hide LayerAt;
    TwiddleIndex(v.field, twiddles, omega, stride, h, i);
    var tw := twiddles[i * stride];
    LayerStep(v, Pow(v.field, omega, stride), a0, a[..], lo, h, i);
    ApplyStep(v, a, lo + i, lo + h + i, v.scale(tw, a[lo + h + i]));
  }

  // ---------------------------------------------------------------- recursive form

  /** Entry x after the butterfly recursion on a[lo .. lo + 2^m]. */
  ghost function FlyEntry<F, G>(v: Space<F, G>, w: F, a: seq<G>, lo: nat, m: nat, x: nat): G
    requires lo + Pow2(m) <= |a| && x < |a|
  {
    if lo <= x < lo + Pow2(m) then Fly(v, w, a, lo, m, x - lo) else a[x]
  }

  ghost predicate Agree<G>(a: seq<G>, b: seq<G>, lo: nat, hi: nat) {
    hi <= |a| == |b| && forall x :: lo <= x < hi ==> a[x] == b[x]
  }

  /** The recursion only looks at its own block. */
  lemma {:induction false} FlyFrame<F, G>(v: Space<F, G>, w: F, a: seq<G>, b: seq<G>, lo: nat, m: nat, j: nat)
    requires lo + Pow2(m) <= |a| == |b| && j < Pow2(m)
    requires Agree(a, b, lo, lo + Pow2(m))
    ensures Fly(v, w, a, lo, m, j) == Fly(v, w, b, lo, m, j)
    decreases m, 1
  {
    if m > 0 {
      FlyFrameStep(v, w, a, b, lo, m, Pow2(m - 1), j);
    }
  }

  lemma FlyFrameStep<F, G>(v: Space<F, G>, w: F, a: seq<G>, b: seq<G>, lo: nat, m: nat, h: nat, j: nat)
    requires m > 0 && h == Pow2(m - 1) && Pow2(m) == 2 * h && lo + 2 * h <= |a| == |b| && j < 2 * h
    requires Agree(a, b, lo, lo + 2 * h)
    ensures Fly(v, w, a, lo, m, j) == Fly(v, w, b, lo, m, j)
    decreases m, 0
  {
    hide Fly, Pow2, Agree;
    var w2 := v.field.Sq(w);
    var i := if j < h then j else j - h;
    AgreeTop(a, b, lo, h);
    FlyFrame(v, w2, a, b, lo, m - 1, i);
    FlyFrame(v, w2, a, b, lo + h, m - 1, i);
    var l, r := Fly(v, w2, a, lo, m - 1, i), Fly(v, w2, a, lo + h, m - 1, i);
    FlyUnfold(v, w, a, lo, m, j, i, l, r);
    FlyUnfold(v, w, b, lo, m, j, i, l, r);
  }

  lemma AgreeTop<G>(a: seq<G>, b: seq<G>, lo: nat, h: nat)
    requires Agree(a, b, lo, lo + 2 * h)
    ensures Agree(a, b, lo + h, lo + h + h) && Agree(a, b, lo, lo + h)
  {}

  /** Both halves after recursing on the left and then on the right one. */
  lemma HalvesDone<F, G>(v: Space<F, G>, w2: F, a0: seq<G>, a1: seq<G>, a2: seq<G>, lo: nat, m: nat, i: nat)
    requires m > 0 && lo + Pow2(m) <= |a0| == |a1| == |a2| && i < Pow2(m - 1)
    requires forall y :: 0 <= y < |a0| ==> a1[y] == FlyEntry(v, w2, a0, lo, m - 1, y)
    requires forall y :: 0 <= y < |a0| ==> a2[y] == FlyEntry(v, w2, a1, lo + Pow2(m - 1), m - 1, y)
    ensures a2[lo + i] == Fly(v, w2, a0, lo, m - 1, i)
    ensures a2[lo + Pow2(m - 1) + i] == Fly(v, w2, a0, lo + Pow2(m - 1), m - 1, i)
  {
    hide Fly;
    var h := Pow2(m - 1);
    assert a2[lo + i] == a1[lo + i];
    assert a2[lo + h + i] == Fly(v, w2, a1, lo + h, m - 1, i);
    FlyFrame(v, w2, a0, a1, lo + h, m - 1, i);
  }

  /** Recursing on both halves and combining is recursing on the whole. */
  lemma RecursionStep<F, G>(v: Space<F, G>, w: F, a0: seq<G>, a2: seq<G>, lo: nat, m: nat, j: nat, i: nat)
    requires m > 0 && lo + Pow2(m) <= |a0| == |a2|
    requires j < Pow2(m) && i == if j < Pow2(m - 1) then j else j - Pow2(m - 1)
    requires a2[lo + i] == Fly(v, v.field.Sq(w), a0, lo, m - 1, i)
    requires a2[lo + Pow2(m - 1) + i] == Fly(v, v.field.Sq(w), a0, lo + Pow2(m - 1), m - 1, i)
    ensures LayerAt(v, w, a2, lo, Pow2(m - 1), lo + j) == FlyEntry(v, w, a0, lo, m, lo + j)
  {
    hide Fly;
    FlyUnfold(v, w, a0, lo, m, j, i, a2[lo + i], a2[lo + Pow2(m - 1) + i]);
  }

  /** In-place butterfly recursion; halves are processed with doubled twiddle stride. */
  method RecursiveButterfly<F(!new), G(!new)>(
      v: Space<F, G>, a: array<G>, lo: nat, m: nat, stride: nat, twiddles: seq<F>, ghost omega: F)
    requires IsSpace(v) && m >= 1 && lo + Pow2(m) <= a.Length
    requires stride >= 1 && Pow2(m - 1) * stride == |twiddles| && AreTwiddles(v.field, twiddles, omega)
    modifies a
    ensures Recursed(v, Pow(v.field, omega, stride), old(a[..]), a[..], lo, m)
    decreases m, 1
  {
    ghost var w := Pow(v.field, omega, stride);
    ghost var a0 := a[..];
    if m == 1 {
      PairInPlace(v, a, lo, w);
    } else {
      ghost var a1 := RecursiveHalves(v, a, lo, m, stride, twiddles, omega);
      ghost var a2 := a[..];
      CombineLayer(v, a, lo, Pow2(m - 1), stride, twiddles, omega);
      RecursionDone(v, w, a0, a1, a2, a[..], lo, m);
    }
  }

  lemma SpaceField<F(!new), G(!new)>(v: Space<F, G>)
    requires IsSpace(v)
    ensures IsField(v.field)
  {}

  /** The two recursive calls; a1 is the array between them. */
  method RecursiveHalves<F(!new), G(!new)>(
      v: Space<F, G>, a: array<G>, lo: nat, m: nat, stride: nat, twiddles: seq<F>, ghost omega: F)
    returns (ghost a1: seq<G>)
    requires IsSpace(v) && m >= 2 && lo + Pow2(m) <= a.Length
    requires stride >= 1 && Pow2(m - 1) * stride == |twiddles| && AreTwiddles(v.field, twiddles, omega)
    modifies a
    ensures var w2 := v.field.Sq(Pow(v.field, omega, stride));
            && Recursed(v, w2, old(a[..]), a1, lo, m - 1)
            && Recursed(v, w2, a1, a[..], lo + Pow2(m - 1), m - 1)
    decreases m, 0
  {
    hide Fly, Recursed, AreTwiddles, Pow, IsSpace;
    SpaceField(v);
    SquarePow(v.field, omega, stride);
    DoubleStride(Pow2(m - 2), stride);
    RecursiveButterfly(v, a, lo, m - 1, stride * 2, twiddles, omega);
    a1 := a[..];
    RecursiveButterfly(v, a, lo + Pow2(m - 1), m - 1, stride * 2, twiddles, omega);
  }

  /** The base case: two entries, no twiddle factor. */
  method PairInPlace<F(!new), G(!new)>(v: Space<F, G>, a: array<G>, lo: nat, ghost w: F)
    requires IsSpace(v) && lo + 2 <= a.Length
    modifies a
    ensures Recursed(v, w, old(a[..]), a[..], lo, 1)
  {
    PairButterfly(v, w, a[..], lo);
    ApplyStep(v, a, lo, lo + 1, a[lo + 1]);
  }

  /** b is a after the butterfly recursion on its block at lo. */
  ghost predicate Recursed<F, G>(v: Space<F, G>, w: F, a: seq<G>, b: seq<G>, lo: nat, m: nat) {
    && lo + Pow2(m) <= |a| == |b|
    && forall x :: 0 <= x < |a| ==> b[x] == FlyEntry(v, w, a, lo, m, x)
  }

  lemma RecursionDone<F, G>(v: Space<F, G>, w: F, a0: seq<G>, a1: seq<G>, a2: seq<G>, a3: seq<G>, lo: nat, m: nat)
    requires m > 0 && lo + Pow2(m) <= |a0|
    requires Recursed(v, v.field.Sq(w), a0, a1, lo, m - 1)
    requires Recursed(v, v.field.Sq(w), a1, a2, lo + Pow2(m - 1), m - 1)
    requires Layering(v, w, a2, a3, lo, Pow2(m - 1), Pow2(m - 1))
    ensures Recursed(v, w, a0, a3, lo, m)
  {
    hide Fly;
    forall x | 0 <= x < |a0|
      ensures a3[x] == FlyEntry(v, w, a0, lo, m, x)
    {
      if lo <= x < lo + Pow2(m) {
        var h, j := Pow2(m - 1), x - lo;
        var i := if j < h then j else j - h;
        HalvesDone(v, v.field.Sq(w), a0, a1, a2, lo, m, i);
        RecursionStep(v, w, a0, a2, lo, m, j, i);
      }
    }
  }

  lemma PairButterfly<F(!new), G(!new)>(v: Space<F, G>, w: F, a: seq<G>, lo: nat)
    requires IsSpace(v) && lo + 2 <= |a|
    ensures Pow2(1) == 2
    ensures Fly(v, w, a, lo, 1, 0) == v.group.add(a[lo], a[lo + 1])
    ensures Fly(v, w, a, lo, 1, 1) == v.group.add(a[lo], v.group.neg(a[lo + 1]))
  {
    assert Pow2(0) == 1;
    SOne(v, a[lo + 1]);
    var w2 := v.field.Sq(w);
    FlyUnfold(v, w, a, lo, 1, 0, 0, Fly(v, w2, a, lo, 0, 0), Fly(v, w2, a, lo + 1, 0, 0));
    FlyUnfold(v, w, a, lo, 1, 1, 0, Fly(v, w2, a, lo, 0, 0), Fly(v, w2, a, lo + 1, 0, 0));
  }

  // ---------------------------------------------------------------- iterative form

  /** The root of the layer that produces blocks of size 2^l. */
  ghost function LevelRoot<F>(k: Field<F>, omega: F, m: nat, l: nat): F
    requires l <= m
  {
    Pow(k, omega, Pow2(m - l))
  }

  /** lo is a multiple of size. */
  ghost predicate Multiple(lo: nat, size: nat)
    requires size >= 1
  {
    lo == 0 || (lo >= size && Multiple(lo - size, size))
  }

  /** First index of the block of the given size that holds x. */
  ghost function BlockStart(x: nat, size: nat): (lo: nat)
    requires size >= 1
    ensures lo <= x < lo + size && Multiple(lo, size)
  {
    if x < size then 0 else BlockStart(x - size, size) + size
  }

  lemma {:induction false} BlockUnique(lo: nat, size: nat, x: nat)
    requires size >= 1 && Multiple(lo, size) && lo <= x < lo + size
    ensures BlockStart(x, size) == lo
    decreases lo
  {
    if lo > 0 {
      BlockUnique(lo - size, size, x - size);
    }
  }

  lemma {:induction false} MultipleHalf(lo: nat, h: nat)
    requires h >= 1 && Multiple(lo, 2 * h)
    ensures Multiple(lo, h) && Multiple(lo + h, h)
  {
    if lo > 0 {
      MultipleHalf(lo - 2 * h, h);
      assert Multiple(lo - h, h);
    }
  }

  /** Between multiples there is room for a whole block. */
  lemma {:induction false} MultipleRoom(lo: nat, n: nat, size: nat)
    requires size >= 1 && Multiple(lo, size) && Multiple(n, size) && lo < n
    ensures lo + size <= n
    decreases lo
  {
    if lo > 0 {
      MultipleRoom(lo - size, n - size, size);
    }
  }

  lemma {:induction false} MultipleAdd(a: nat, b: nat, size: nat)
    requires size >= 1 && Multiple(a, size) && Multiple(b, size)
    ensures Multiple(a + b, size)
    decreases a
  {
    if a > 0 {
      MultipleAdd(a - size, b, size);
    }
  }

  lemma {:induction false} Pow2Multiple(m: nat, l: nat)
    requires l <= m
    ensures Multiple(Pow2(m), Pow2(l))
  {
    if l == m {
      assert Multiple(0, Pow2(l));
    } else {
      Pow2Multiple(m - 1, l);
      MultipleAdd(Pow2(m - 1), Pow2(m - 1), Pow2(l));
    }
  }

  /** Blocks of size 2^l tile an array of size 2^m. */
  lemma BlockFits(x: nat, l: nat, m: nat)
    requires l <= m && x < Pow2(m)
    ensures BlockStart(x, Pow2(l)) + Pow2(l) <= Pow2(m)
  {
    Pow2Multiple(m, l);
    MultipleRoom(BlockStart(x, Pow2(l)), Pow2(m), Pow2(l));
  }

  /** Entry x of the array once all blocks of size 2^l have been processed. */
  ghost function LevelAt<F, G>(v: Space<F, G>, omega: F, a0: seq<G>, m: nat, l: nat, x: nat): G
    requires |a0| == Pow2(m) && l <= m && x < |a0|
  {
    BlockFits(x, l, m);
    var lo := BlockStart(x, Pow2(l));
    Fly(v, LevelRoot(v.field, omega, m, l), a0, lo, l, x - lo)
  }

  /** Entry x while level l is being processed: blocks below position lo are one level ahead. */
  ghost function MixedAt<F, G>(v: Space<F, G>, omega: F, a0: seq<G>, m: nat, l: nat, lo: nat, x: nat): G
    requires |a0| == Pow2(m) && l < m && x < |a0|
  {
    if x < lo then LevelAt(v, omega, a0, m, l + 1, x) else LevelAt(v, omega, a0, m, l, x)
  }

  ghost predicate Levelled<F, G>(v: Space<F, G>, omega: F, a0: seq<G>, a: seq<G>, m: nat, l: nat, lo: nat)
    requires l < m
  {
    && |a0| == |a| == Pow2(m)
    && forall x :: 0 <= x < |a| ==> a[x] == MixedAt(v, omega, a0, m, l, lo, x)
  }

  /** All blocks of size 2^l are done. */
  ghost predicate LevelDone<F, G>(v: Space<F, G>, omega: F, a0: seq<G>, a: seq<G>, m: nat, l: nat)
    requires l <= m
  {
    && |a0| == |a| == Pow2(m)
    && forall x :: 0 <= x < |a| ==> a[x] == LevelAt(v, omega, a0, m, l, x)
  }

  lemma RootSquare<F(!new)>(k: Field<F>, omega: F, m: nat, l: nat)
    requires IsField(k) && l < m
    ensures k.Sq(LevelRoot(k, omega, m, l + 1)) == LevelRoot(k, omega, m, l)
  {
    SquarePow(k, omega, Pow2(m - l - 1));
  }

  /** Inside an aligned block, the level value is the block's butterfly output. */
  lemma LevelInBlock<F, G>(v: Space<F, G>, omega: F, a0: seq<G>, m: nat, l: nat, lo: nat, i: nat)
    requires |a0| == Pow2(m) && l <= m && i < Pow2(l) && lo + Pow2(l) <= |a0| && Multiple(lo, Pow2(l))
    ensures LevelAt(v, omega, a0, m, l, lo + i) == Fly(v, LevelRoot(v.field, omega, m, l), a0, lo, l, i)
  {
    BlockUnique(lo, Pow2(l), lo + i);
  }

  /** The two inputs of butterfly i in the chunk at lo. */
  lemma ChunkInputs<F, G>(v: Space<F, G>, omega: F, a0: seq<G>, a: seq<G>, m: nat, l: nat, lo: nat, i: nat)
    requires l < m && i < Pow2(l) && lo + Pow2(l + 1) <= |a0| && Multiple(lo, Pow2(l + 1))
    requires Levelled(v, omega, a0, a, m, l, lo)
    ensures a[lo + i] == Fly(v, LevelRoot(v.field, omega, m, l), a0, lo, l, i)
    ensures a[lo + Pow2(l) + i] == Fly(v, LevelRoot(v.field, omega, m, l), a0, lo + Pow2(l), l, i)
  {
    hide Fly;
    MultipleHalf(lo, Pow2(l));
    LevelInBlock(v, omega, a0, m, l, lo, i);
    LevelInBlock(v, omega, a0, m, l, lo + Pow2(l), i);
  }

  /** Combining one chunk moves it to the next level. */
  lemma ChunkEntry<F(!new), G(!new)>(
      v: Space<F, G>, omega: F, a0: seq<G>, a: seq<G>, m: nat, l: nat, lo: nat, j: nat)
    requires IsSpace(v) && l < m && lo + Pow2(l + 1) <= |a0| && Multiple(lo, Pow2(l + 1)) && j < Pow2(l + 1)
    requires Levelled(v, omega, a0, a, m, l, lo)
    ensures LayerAt(v, LevelRoot(v.field, omega, m, l + 1), a, lo, Pow2(l), lo + j) ==
            LevelAt(v, omega, a0, m, l + 1, lo + j)
  {
    ChunkFly(v, omega, a0, a, m, l, lo, j);
    LevelInBlock(v, omega, a0, m, l + 1, lo, j);
  }

  lemma ChunkFly<F(!new), G(!new)>(
      v: Space<F, G>, omega: F, a0: seq<G>, a: seq<G>, m: nat, l: nat, lo: nat, j: nat)
    requires IsField(v.field) && l < m && lo + Pow2(l + 1) <= |a0| && Multiple(lo, Pow2(l + 1)) && j < Pow2(l + 1)
    requires Levelled(v, omega, a0, a, m, l, lo)
    ensures LayerAt(v, LevelRoot(v.field, omega, m, l + 1), a, lo, Pow2(l), lo + j) ==
            Fly(v, LevelRoot(v.field, omega, m, l + 1), a0, lo, l + 1, j)
  {
    hide Fly;
    var i := if j < Pow2(l) then j else j - Pow2(l);
    RootSquare(v.field, omega, m, l);
    ChunkInputs(v, omega, a0, a, m, l, lo, i);
    RecursionStep(v, LevelRoot(v.field, omega, m, l + 1), a0, a, lo, l + 1, j, i);
  }

  /** One entry after combining a chunk. */
  lemma ChunkAt<F(!new), G(!new)>(
      v: Space<F, G>, omega: F, a0: seq<G>, a: seq<G>, a': seq<G>, m: nat, l: nat, lo: nat, x: nat)
    requires IsSpace(v) && l < m && lo + Pow2(l + 1) <= |a0| && Multiple(lo, Pow2(l + 1))
    requires Levelled(v, omega, a0, a, m, l, lo) && lo + 2 * Pow2(l) <= |a|
    requires Layering(v, LevelRoot(v.field, omega, m, l + 1), a, a', lo, Pow2(l), Pow2(l)) && x < |a'|
    ensures a'[x] == MixedAt(v, omega, a0, m, l, lo + Pow2(l + 1), x)
  {
    hide Fly, Pow2, LayerAt, LevelAt, LevelRoot, IsSpace, Multiple;
    NextPower(l);
    if lo <= x < lo + Pow2(l + 1) {
      ChunkEntry(v, omega, a0, a, m, l, lo, x - lo);
    } else {
      assert a'[x] == a[x] == MixedAt(v, omega, a0, m, l, lo, x);
    }
  }

  lemma NextPower(l: nat)
    ensures Pow2(l + 1) == 2 * Pow2(l)
  {}

  lemma ChunkStep<F(!new), G(!new)>(
      v: Space<F, G>, omega: F, a0: seq<G>, a: seq<G>, a': seq<G>, m: nat, l: nat, lo: nat)
    requires IsSpace(v) && l < m && lo + Pow2(l + 1) <= |a0| && Multiple(lo, Pow2(l + 1))
    requires Levelled(v, omega, a0, a, m, l, lo)
    requires Layering(v, LevelRoot(v.field, omega, m, l + 1), a, a', lo, Pow2(l), Pow2(l))
    ensures Levelled(v, omega, a0, a', m, l, lo + Pow2(l + 1))
  {
    hide Fly, Pow2, LayerAt, MixedAt, LevelRoot, IsSpace, Multiple;
    NextPower(l);
    forall x | 0 <= x < |a'|
      ensures a'[x] == MixedAt(v, omega, a0, m, l, lo + Pow2(l + 1), x)
    {
      ChunkAt(v, omega, a0, a, a', m, l, lo, x);
    }
  }

  /** One level of the iterative form: a butterfly layer on every chunk. */
  method IterativeLevel<F(!new), G(!new)>(
      v: Space<F, G>, a: array<G>, m: nat, l: nat, stride: nat, twiddles: seq<F>, ghost omega: F, ghost a0: seq<G>)
    requires IsSpace(v) && l < m && stride == Pow2(m - l - 1) && |twiddles| == Pow2(m - 1)
    requires AreTwiddles(v.field, twiddles, omega) && LevelDone(v, omega, a0, a[..], m, l)
    modifies a
    ensures LevelDone(v, omega, a0, a[..], m, l + 1)
  {
    hide *;
    var chunk := Pow2(l + 1);
    StrideMatches(l, m);
    Pow2Multiple(m, l + 1);
    LevelStart(v, omega, a0, a[..], m, l);
    var lo := 0;
    while lo < a.Length
      invariant 0 <= lo <= a.Length == |a0| == Pow2(m) && Multiple(lo, chunk)
      invariant Levelled(v, omega, a0, a[..], m, l, lo)
    {
      MultipleRoom(lo, a.Length, chunk);
      ghost var now := a[..];
      CombineLayer(v, a, lo, Pow2(l), stride, twiddles, omega);
      ChunkStep(v, omega, a0, now, a[..], m, l, lo);
      MultipleNext(lo, chunk);
      lo := lo + chunk;
    }
    LevelEnd(v, omega, a0, a[..], m, l);
  }

  lemma StrideMatches(l: nat, m: nat)
    requires l < m
    ensures Pow2(l) * Pow2(m - l - 1) == Pow2(m - 1) && Pow2(l + 1) == 2 * Pow2(l)
  {
    Pow2Add(l, m - l - 1);
  }

  lemma MultipleNext(lo: nat, size: nat)
    requires size >= 1 && Multiple(lo, size)
    ensures Multiple(lo + size, size)
  {}

  lemma LevelStart<F, G>(v: Space<F, G>, omega: F, a0: seq<G>, a: seq<G>, m: nat, l: nat)
    requires l < m && LevelDone(v, omega, a0, a, m, l)
    ensures Levelled(v, omega, a0, a, m, l, 0) && |a| == |a0| == Pow2(m) && Multiple(0, Pow2(l + 1))
    ensures LevelRoot(v.field, omega, m, l + 1) == Pow(v.field, omega, Pow2(m - l - 1))
  {
    hide Fly;
  }

  lemma LevelEnd<F, G>(v: Space<F, G>, omega: F, a0: seq<G>, a: seq<G>, m: nat, l: nat)
    requires l < m && Levelled(v, omega, a0, a, m, l, Pow2(m))
    ensures LevelDone(v, omega, a0, a, m, l + 1)
  {
    hide Fly;
  }

  /** The iterative form: one level after the other, doubling the chunk size. */
  method IterativeButterfly<F(!new), G(!new)>(v: Space<F, G>, a: array<G>, m: nat, twiddles: seq<F>, ghost omega: F)
    requires IsSpace(v) && a.Length == Pow2(m) && AreTwiddles(v.field, twiddles, omega)
    requires m > 0 ==> |twiddles| == Pow2(m - 1)
    modifies a
    ensures Recursed(v, omega, old(a[..]), a[..], 0, m)
  {
    hide Fly;
    ghost var a0 := a[..];
    var stride := a.Length / 2;
    var l := 0;
    LevelZero(v, omega, a0, m);
    while l < m
      invariant 0 <= l <= m
      invariant l < m ==> stride == Pow2(m - l - 1)
      invariant LevelDone(v, omega, a0, a[..], m, l)
    {
      IterativeLevel(v, a, m, l, stride, twiddles, omega, a0);
      stride := stride / 2;
      l := l + 1;
    }
    LevelTop(v, omega, a0, a[..], m);
  }

  lemma LevelZero<F, G>(v: Space<F, G>, omega: F, a0: seq<G>, m: nat)
    requires |a0| == Pow2(m)
    ensures LevelDone(v, omega, a0, a0, m, 0)
  {}

  lemma LevelTop<F(!new), G(!new)>(v: Space<F, G>, omega: F, a0: seq<G>, a: seq<G>, m: nat)
    requires IsSpace(v) && LevelDone(v, omega, a0, a, m, m)
    ensures Recursed(v, omega, a0, a, 0, m)
  {
    assert Pow(v.field, omega, 1) == v.field.mul(v.field.one, omega);
    FOne(v.field, omega);
    forall x | 0 <= x < |a0|
      ensures a[x] == FlyEntry(v, omega, a0, 0, m, x)
    {
      BlockUnique(0, Pow2(m), x);
    }
  }

  // ---------------------------------------------------------------- the transform

  method Twiddles<F(!new)>(k: Field<F>, omega: F, count: nat) returns (twiddles: seq<F>)
    ensures |twiddles| == count && AreTwiddles(k, twiddles, omega)
  {
    twiddles := [];
    var w := k.one;
    for i := 0 to count
      invariant |twiddles| == i && w == Pow(k, omega, i) && AreTwiddles(k, twiddles, omega)
    {
      twiddles := twiddles + [w];
      w := k.mul(w, omega);
    }
  }

  /** Both branches run the same butterflies on the bit-reversed array. */
  method BestFft<F(!new), G(!new)>(v: Space<F, G>, a: array<G>, omega: F, logN: nat, logThreads: nat)
    requires IsSpace(v) && a.Length == Pow2(logN) && HasOrder(v.field, omega, Pow2(logN))
    modifies a
    ensures a[..] == Dft(v, omega, old(a[..]))
  {
    ghost var a0 := a[..];
    BitReversal(a, logN);
    ghost var a1 := a[..];
    var twiddles := Twiddles(v.field, omega, a.Length / 2);
    if logN <= logThreads {
      IterativeButterfly(v, a, logN, twiddles, omega);
    } else {
      assert Pow(v.field, omega, 1) == v.field.mul(v.field.one, omega);
      FOne(v.field, omega);
      RecursiveButterfly(v, a, 0, logN, 1, twiddles, omega);
    }
    RecursedIsDft(v, omega, a0, a1, a[..], logN);
  }

  lemma RecursedIsDft<F(!new), G(!new)>(v: Space<F, G>, omega: F, a0: seq<G>, a1: seq<G>, a2: seq<G>, m: nat)
    requires IsSpace(v) && HasOrder(v.field, omega, Pow2(m)) && |a1| == Pow2(m)
    requires Reversed(a1, 0, a0, m) && Recursed(v, omega, a1, a2, 0, m)
    ensures a2 == Dft(v, omega, a0)
  {
    forall j | 0 <= j < |a2|
      ensures a2[j] == Dft(v, omega, a0)[j]
    {
      FlyIsEval(v, omega, a1, 0, a0, m, j);
    }
  }

  /** Transforming with omega, then with its inverse, then dividing by n, restores the array. */
  method RoundTrip<F(!new), G(!new)>(v: Space<F, G>, a: array<G>, omega: F, logN: nat, logThreads: nat, nInverse: F)
    requires IsSpace(v) && a.Length == Pow2(logN) && HasOrder(v.field, omega, Pow2(logN))
    requires nInverse == v.field.inv(OfNat(v.field, Pow2(logN)))
    modifies a
    ensures a[..] == old(a[..])
  {
    ghost var a0 := a[..];
    BestFft(v, a, omega, logN, logThreads);
    InverseOrder(v.field, omega, Pow2(logN));
    BestFft(v, a, v.field.inv(omega), logN, logThreads);
    ghost var a2 := a[..];
    assert a2 == Dft(v, v.field.inv(omega), Dft(v, omega, a0));
    for i := 0 to a.Length
      invariant forall j :: 0 <= j < a.Length ==> a[j] == if j < i then a0[j] else a2[j]
    {
      UndoScale(v, omega, a0, logN, i);
      a[i] := v.scale(nInverse, a[i]);
    }
  }

  lemma UndoScale<F(!new), G(!new)>(v: Space<F, G>, omega: F, a0: seq<G>, m: nat, i: nat)
    requires IsSpace(v) && |a0| == Pow2(m) && HasOrder(v.field, omega, Pow2(m)) && i < |a0|
    ensures var n := OfNat(v.field, Pow2(m));
            v.scale(v.field.inv(n), Dft(v, v.field.inv(omega), Dft(v, omega, a0))[i]) == a0[i]
  {
    var n := OfNat(v.field, Pow2(m));
    InverseDft(v, omega, a0, i);
    SizeInvertible(v.field, omega, m);
    SMul(v, v.field.inv(n), n, a0[i]);
    FInv(v.field, n);
    SOne(v, a0[i]);
  }
}
