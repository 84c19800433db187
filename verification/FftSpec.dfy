/** The discrete Fourier transform, its inverse, and the butterfly recursion that computes it. */
module FftSpec {
  import opened Algebra
  import opened Numbers
  import opened Polynomials

  /** Evaluations of the polynomial s at the powers 1, w, w^2, ... */
  ghost function Dft<F, G>(v: Space<F, G>, w: F, s: seq<G>): (r: seq<G>)
    ensures |r| == |s|
    ensures forall j :: 0 <= j < |s| ==> r[j] == Eval(v, s, Pow(v.field, w, j))
  {
    seq(|s|, j requires 0 <= j < |s| => Eval(v, s, Pow(v.field, w, j)))
  }

  ghost predicate HasOrder<F>(k: Field<F>, w: F, n: nat) {
    n >= 1 && Pow(k, w, n) == k.one && forall d :: 0 < d < n ==> Pow(k, w, d) != k.one
  }

  /** Output i + (second half: h) of one butterfly: l + t in the first half, l - t in the second. */
  ghost function Butterfly<F, G>(v: Space<F, G>, x: F, l: G, r: G, low: bool): G {
    if low then v.group.add(l, v.scale(x, r)) else v.group.add(l, v.group.neg(v.scale(x, r)))
  }

  /** Output j of the butterfly recursion on a[lo .. lo + 2^m]; w is the root of its last layer. */
  ghost function Fly<F, G>(v: Space<F, G>, w: F, a: seq<G>, lo: nat, m: nat, j: nat): G
    requires lo + Pow2(m) <= |a| && j < Pow2(m)
    decreases m
  {
    if m == 0 then a[lo]
    else
      var h := Pow2(m - 1);
      var i := if j < h then j else j - h;
      Butterfly(v, Pow(v.field, w, i),
                Fly(v, v.field.Sq(w), a, lo, m - 1, i), Fly(v, v.field.Sq(w), a, lo + h, m - 1, i), j < h)
  }

  // ---------------------------------------------------------------- bit reversal

  function Reverse(k: nat, bits: nat): nat {
    if bits == 0 then 0 else (if k % 2 == 1 then Pow2(bits - 1) else 0) + Reverse(k / 2, bits - 1)
  }

  lemma {:induction false} ReverseRange(k: nat, bits: nat)
    ensures Reverse(k, bits) < Pow2(bits)
  {
    if bits > 0 {
      ReverseRange(k / 2, bits - 1);
    }
  }

  /** A leading zero becomes a trailing zero, and a leading one a trailing one. */
  lemma {:induction false} ReverseTop(k: nat, bits: nat)
    requires k < Pow2(bits)
    ensures Reverse(k, bits + 1) == 2 * Reverse(k, bits)
    ensures Reverse(k + Pow2(bits), bits + 1) == 2 * Reverse(k, bits) + 1
  {
    if bits == 0 {
      assert Reverse(1, 1) == Pow2(0) + Reverse(0, 0);
    } else {
      var h := Pow2(bits - 1);
      ReverseTop(k / 2, bits - 1);
      ReverseStep(k, bits);
      ReverseStep(k, bits - 1);
      ReverseStep(k + Pow2(bits), bits);
      HalveSum(k, Pow2(bits), h);
    }
  }

  lemma ReverseStep(k: nat, bits: nat)
    ensures Reverse(k, bits + 1) == (if k % 2 == 1 then Pow2(bits) else 0) + Reverse(k / 2, bits)
  {}

  lemma HalveSum(k: nat, p: nat, h: nat)
    requires p == 2 * h
    ensures (k + p) % 2 == k % 2 && (k + p) / 2 == k / 2 + h
  {}

  /** Bit reversal is its own inverse. */
  lemma {:induction false} ReverseReverse(k: nat, bits: nat)
    requires k < Pow2(bits)
    ensures Reverse(Reverse(k, bits), bits) == k
  {
    if bits > 0 {
      ReverseReverse(k / 2, bits - 1);
      ReverseRange(k / 2, bits - 1);
      // Reverse(k) carries the low bit of k on top of Reverse(k / 2)
      ReverseTop(Reverse(k / 2, bits - 1), bits - 1);
    }
  }

  ghost function EntryAt<G>(a: seq<G>, lo: nat, k: nat): G
    requires lo + k < |a|
  {
    a[lo + k]
  }

  ghost function ReversedEntry<G>(t: seq<G>, m: nat, k: nat): G
    requires |t| == Pow2(m)
  {
    ReverseRange(k, m);
    t[Reverse(k, m)]
  }

  /** a[lo .. lo + 2^m] holds t in bit-reversed order. */
  ghost predicate Reversed<G>(a: seq<G>, lo: nat, t: seq<G>, m: nat) {
    && |t| == Pow2(m) && lo + Pow2(m) <= |a|
    && forall k :: 0 <= k < Pow2(m) ==> EntryAt(a, lo, k) == ReversedEntry(t, m, k)
  }

  /** The entries at even or at odd positions. */
  ghost function Half<G>(s: seq<G>, odd: nat): (r: seq<G>)
    requires odd <= 1
    ensures |r| == |s| / 2 && forall k :: 0 <= k < |r| ==> r[k] == s[2 * k + odd]
  {
    seq(|s| / 2, k requires 0 <= k < |s| / 2 => s[2 * k + odd])
  }

  lemma HalfSize<G>(t: seq<G>, m: nat)
    requires m > 0 && |t| == Pow2(m)
    ensures |Half(t, 0)| == |Half(t, 1)| == Pow2(m - 1)
  {}

  /** Entry k of the reversed halves, in the reversed whole. */
  lemma ReversedEntryHalves<G>(t: seq<G>, e: seq<G>, o: seq<G>, m: nat, h: nat, k: nat)
    requires m > 0 && h == Pow2(m - 1) && |t| == Pow2(m) == 2 * h && |e| == |o| == h && k < h
    requires e == Half(t, 0) && o == Half(t, 1)
    ensures ReversedEntry(e, m - 1, k) == ReversedEntry(t, m, k)
    ensures ReversedEntry(o, m - 1, k) == ReversedEntry(t, m, k + h)
  {
    ReverseTop(k, m - 1);
    ReverseRange(k, m - 1);
    hide Reverse, Pow2;
    var r := Reverse(k, m - 1);
    assert e[r] == t[2 * r] && o[r] == t[2 * r + 1];
  }

  /** Bit reversal sorts the even positions before the odd ones, each part bit-reversed. */
  lemma ReversedEven<G>(a: seq<G>, lo: nat, t: seq<G>, m: nat)
    requires m > 0 && Reversed(a, lo, t, m)
    ensures Reversed(a, lo, Half(t, 0), m - 1)
  {
    var e, o, h := Half(t, 0), Half(t, 1), Pow2(m - 1);
    HalfSize(t, m);
    assert Pow2(m) == 2 * h;
    hide Reverse, Pow2, ReversedEntry, Half;
    forall k | 0 <= k < h
      ensures EntryAt(a, lo, k) == ReversedEntry(e, m - 1, k)
    {
      ReversedEntryHalves(t, e, o, m, h, k);
      assert EntryAt(a, lo, k) == ReversedEntry(t, m, k);
    }
  }

  lemma ReversedOdd<G>(a: seq<G>, lo: nat, t: seq<G>, m: nat)
    requires m > 0 && Reversed(a, lo, t, m)
    ensures Reversed(a, lo + Pow2(m - 1), Half(t, 1), m - 1)
  {
    var e, o, h := Half(t, 0), Half(t, 1), Pow2(m - 1);
    var mid := lo + h;
    HalfSize(t, m);
    assert Pow2(m) == 2 * h;
    hide Reverse, Pow2, ReversedEntry, Half;
    forall k | 0 <= k < h
      ensures EntryAt(a, mid, k) == ReversedEntry(o, m - 1, k)
    {
      ReversedEntryHalves(t, e, o, m, h, k);
      assert EntryAt(a, lo, k + h) == ReversedEntry(t, m, k + h);
    }
  }

  // ---------------------------------------------------------------- butterflies compute the transform

  lemma HalfCons<G>(s: seq<G>, odd: nat)
    requires odd <= 1 && |s| % 2 == 0 && |s| >= 2
    ensures Half(s, odd) == [s[odd]] + Half(s[2..], odd)
  {
    forall k | 0 <= k < |s| / 2
      ensures Half(s, odd)[k] == ([s[odd]] + Half(s[2..], odd))[k]
    {
      assert k > 0 ==> s[2..][2 * (k - 1) + odd] == s[2 * k + odd];
    }
  }

  /** s(x) == even(x^2) + x * odd(x^2) */
  lemma {:induction false} EvenOdd<F(!new), G(!new)>(v: Space<F, G>, s: seq<G>, x: F)
    requires IsSpace(v) && |s| % 2 == 0
    ensures Eval(v, s, x) ==
            v.group.add(Eval(v, Half(s, 0), v.field.Sq(x)), v.scale(x, Eval(v, Half(s, 1), v.field.Sq(x))))
    decreases |s|
  {
    var g, y := v.group, v.field.Sq(x);
    if |s| == 0 {
      SZero(v, x, g.zero);
      GZero(g, g.zero);
    } else {
      var t := s[2..];
      assert s == [s[0]] + ([s[1]] + t);
      EvalCons(v, s[0], [s[1]] + t, x);
      EvalCons(v, s[1], t, x);
      EvenOdd(v, t, x);
      var e, o := Eval(v, Half(t, 0), y), Eval(v, Half(t, 1), y);
      HalfCons(s, 0);
      HalfCons(s, 1);
      EvalCons(v, s[0], Half(t, 0), y);
      EvalCons(v, s[1], Half(t, 1), y);
      EvenOddAlgebra(v, s[0], s[1], e, o, x);
    }
  }

  /** a + x*(b + x*(e + x*o)) == (a + x^2*e) + x*(b + x^2*o) */
  lemma EvenOddAlgebra<F(!new), G(!new)>(v: Space<F, G>, a: G, b: G, e: G, o: G, x: F)
    requires IsSpace(v)
    ensures v.group.add(a, v.scale(x, v.group.add(b, v.scale(x, v.group.add(e, v.scale(x, o)))))) ==
            v.group.add(v.group.add(a, v.scale(v.field.Sq(x), e)), v.scale(x, v.group.add(b, v.scale(v.field.Sq(x), o))))
  {
    var g, y := v.group, v.field.Sq(x);
    SAdd(v, x, e, v.scale(x, o));
    SMul(v, x, x, o);
    SAdd(v, x, b, g.add(v.scale(x, e), v.scale(y, o)));
    SAdd(v, x, v.scale(x, e), v.scale(y, o));
    SMul(v, x, x, e);
    SAdd(v, x, b, v.scale(y, o));
    var xb, ye, xyo := v.scale(x, b), v.scale(y, e), v.scale(x, v.scale(y, o));
    // a + (xb + (ye + xyo)) == (a + ye) + (xb + xyo)
    GAssoc(g, xb, ye, xyo);
    GComm(g, xb, ye);
    GAssoc(g, ye, xb, xyo);
    GAssoc(g, a, ye, g.add(xb, xyo));
  }

  /** A root of order 2h satisfies w^h == -1, and its square has order h. */
  lemma HalfTurn<F(!new)>(k: Field<F>, w: F, h: nat)
    requires IsField(k) && h >= 1 && HasOrder(k, w, 2 * h)
    ensures Pow(k, w, h) == k.neg(k.one) != k.one
    ensures HasOrder(k, k.Sq(w), h)
  {
    PowAdd(k, w, h, h);
    FOne(k, k.one);
    FSquareRoots(k, Pow(k, w, h), k.one);
    forall d | 0 <= d <= h
      ensures Pow(k, k.Sq(w), d) == Pow(k, w, 2 * d)
    {
      SquarePow(k, w, d);
    }
  }

  lemma {:induction false} SquarePow<F(!new)>(k: Field<F>, w: F, d: nat)
    requires IsField(k)
    ensures Pow(k, k.Sq(w), d) == Pow(k, w, 2 * d) == k.Sq(Pow(k, w, d))
  {
    PowAdd(k, w, d, d);
    if d > 0 {
      SquarePow(k, w, d - 1);
      assert Pow(k, w, 2 * d) == k.mul(k.mul(Pow(k, w, 2 * d - 2), w), w);
      FAssoc(k, Pow(k, w, 2 * d - 2), w, w);
    }
  }

  /** The two outputs of a butterfly are the values at w^j and at w^(j+h) == -w^j. */
  lemma ButterflyValues<F(!new), G(!new)>(v: Space<F, G>, w: F, s: seq<G>, h: nat, j: nat)
    requires IsSpace(v) && |s| == 2 * h && j < h && HasOrder(v.field, w, 2 * h)
    ensures var e := Eval(v, Half(s, 0), Pow(v.field, v.field.Sq(w), j));
            var t := v.scale(Pow(v.field, w, j), Eval(v, Half(s, 1), Pow(v.field, v.field.Sq(w), j)));
            && v.group.add(e, t) == Eval(v, s, Pow(v.field, w, j))
            && v.group.add(e, v.group.neg(t)) == Eval(v, s, Pow(v.field, w, h + j))
  {
    var k := v.field;
    var x, x' := Pow(k, w, j), Pow(k, w, h + j);
    SquarePow(k, w, j);
    EvenOdd(v, s, x);
    EvenOdd(v, s, x');
    HalfTurn(k, w, h);
    PowAdd(k, w, h, j);
    FMulNeg(k, k.one, x);
    FOne(k, x);
    FSquareRoots(k, x', x);
    SNeg(v, x, Eval(v, Half(s, 1), k.Sq(x)));
  }

  /** Butterflies on bit-reversed input compute the values at the powers of w. */
  lemma {:induction false} FlyIsEval<F(!new), G(!new)>(v: Space<F, G>, w: F, a: seq<G>, lo: nat, t: seq<G>, m: nat, j: nat)
    requires IsSpace(v) && Reversed(a, lo, t, m) && HasOrder(v.field, w, Pow2(m)) && j < Pow2(m)
    ensures Fly(v, w, a, lo, m, j) == Eval(v, t, Pow(v.field, w, j))
    decreases m, 1
  {
    if m == 0 {
      FlyBase(v, w, a, lo, t);
    } else {
      var i := if j < Pow2(m - 1) then j else j - Pow2(m - 1);
      var l := FlyEven(v, w, a, lo, t, m, i);
      var r := FlyOdd(v, w, a, lo, t, m, i);
      LayerValue(v, w, t, Pow2(m - 1), j, i, l, r);
      FlyUnfold(v, w, a, lo, m, j, i, l, r);
    }
  }

  lemma {:induction false} FlyEven<F(!new), G(!new)>(v: Space<F, G>, w: F, a: seq<G>, lo: nat, t: seq<G>, m: nat, i: nat)
    returns (l: G)
    requires IsSpace(v) && m > 0 && Reversed(a, lo, t, m) && HasOrder(v.field, w, Pow2(m)) && i < Pow2(m - 1)
    ensures l == Fly(v, v.field.Sq(w), a, lo, m - 1, i)
    ensures l == Eval(v, Half(t, 0), Pow(v.field, v.field.Sq(w), i))
    decreases m, 0
  {
    l := Fly(v, v.field.Sq(w), a, lo, m - 1, i);
    HalfTurn(v.field, w, Pow2(m - 1));
    ReversedEven(a, lo, t, m);
    FlyIsEval(v, v.field.Sq(w), a, lo, Half(t, 0), m - 1, i);
  }

  lemma {:induction false} FlyOdd<F(!new), G(!new)>(v: Space<F, G>, w: F, a: seq<G>, lo: nat, t: seq<G>, m: nat, i: nat)
    returns (r: G)
    requires IsSpace(v) && m > 0 && Reversed(a, lo, t, m) && HasOrder(v.field, w, Pow2(m)) && i < Pow2(m - 1)
    ensures r == Fly(v, v.field.Sq(w), a, lo + Pow2(m - 1), m - 1, i)
    ensures r == Eval(v, Half(t, 1), Pow(v.field, v.field.Sq(w), i))
    decreases m, 0
  {
    r := Fly(v, v.field.Sq(w), a, lo + Pow2(m - 1), m - 1, i);
    HalfTurn(v.field, w, Pow2(m - 1));
    ReversedOdd(a, lo, t, m);
    FlyIsEval(v, v.field.Sq(w), a, lo + Pow2(m - 1), Half(t, 1), m - 1, i);
  }

  lemma FlyBase<F(!new), G(!new)>(v: Space<F, G>, w: F, a: seq<G>, lo: nat, t: seq<G>)
    requires IsSpace(v) && Reversed(a, lo, t, 0)
    ensures Fly(v, w, a, lo, 0, 0) == Eval(v, t, Pow(v.field, w, 0))
  {
    assert EntryAt(a, lo, 0) == ReversedEntry(t, 0, 0);
    assert t == [t[0]];
    EvalSingle(v, t[0], Pow(v.field, w, 0));
  }

  lemma LayerValue<F(!new), G(!new)>(v: Space<F, G>, w: F, t: seq<G>, h: nat, j: nat, i: nat, l: G, r: G)
    requires IsSpace(v) && |t| == 2 * h && HasOrder(v.field, w, 2 * h) && j < 2 * h
    requires i == if j < h then j else j - h
    requires l == Eval(v, Half(t, 0), Pow(v.field, v.field.Sq(w), i))
    requires r == Eval(v, Half(t, 1), Pow(v.field, v.field.Sq(w), i))
    ensures Butterfly(v, Pow(v.field, w, i), l, r, j < h) == Eval(v, t, Pow(v.field, w, j))
  {
    ButterflyValues(v, w, t, h, i);
  }

  lemma FlyUnfold<F, G>(v: Space<F, G>, w: F, a: seq<G>, lo: nat, m: nat, j: nat, i: nat, l: G, r: G)
    requires m > 0 && j < Pow2(m)
    requires lo + Pow2(m) <= |a| && i == if j < Pow2(m - 1) then j else j - Pow2(m - 1)
    requires l == Fly(v, v.field.Sq(w), a, lo, m - 1, i)
    requires r == Fly(v, v.field.Sq(w), a, lo + Pow2(m - 1), m - 1, i)
    ensures Fly(v, w, a, lo, m, j) == Butterfly(v, Pow(v.field, w, i), l, r, j < Pow2(m - 1))
  {}
}
