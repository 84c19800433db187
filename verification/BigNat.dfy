/** Numbers in base 2^96: values of limb vectors, size bounds and digit expansions
    (circuits/src/biguint/types.rs). */
module BigNat {
  import opened Numbers

  const LOG2_BASE: nat := 96

  ghost function Base(): (b: nat)
    ensures b >= 2
  {
    Pow2Mono(1, LOG2_BASE);
    Pow2(LOG2_BASE)
  }

  /** Limbs have 96 bits. */
  lemma BaseValue()
    ensures Base() == 0x1_0000_0000_0000_0000_0000_0000
  {
    hide Pow2;
    SixBits();
    Pow2Add(6, 6);
    Pow2Add(12, 12);
    Pow2Add(24, 24);
    Pow2Add(48, 48);
  }

  lemma SixBits()
    ensures Pow2(6) == 64
  {}

  ghost function BasePow(n: nat): (r: nat)
    ensures r >= 1
  {
    IPowPositive(Base(), n);
    IPow(Base(), n)
  }

  lemma {:induction false} BasePowIsPow2(n: nat)
    ensures BasePow(n) == Pow2(LOG2_BASE * n)
  {
    hide BasePow, Pow2;
    BasePowStep(n);
    if n > 0 {
      BasePowIsPow2(n - 1);
      assert LOG2_BASE * n == LOG2_BASE + LOG2_BASE * (n - 1);
      Pow2Add(LOG2_BASE, LOG2_BASE * (n - 1));
    }
  }

  lemma BasePowStep(n: nat)
    ensures if n == 0 then BasePow(n) == 1 == Pow2(LOG2_BASE * n) else BasePow(n) == Base() * BasePow(n - 1)
  {
    assert n == 0 ==> LOG2_BASE * n == 0;
    hide Base;
  }

  lemma BasePowAdd(m: nat, n: nat)
    ensures BasePow(m + n) == BasePow(m) * BasePow(n)
  {
    IPowAdd(Base(), m, n);
  }

  /** Value of the n least significant limbs. */
  ghost function Value(vs: seq<nat>, n: nat): (r: nat)
    requires n <= |vs|
  {
    if n == 0 then 0
    else
      MulLe(BasePow(n - 1), 0, vs[n - 1]);
      Value(vs, n - 1) + vs[n - 1] * BasePow(n - 1)
  }

  ghost function Total(vs: seq<nat>): nat { Value(vs, |vs|) }

  lemma ValueStep(vs: seq<nat>, n: nat)
    requires n <= |vs|
    ensures Value(vs, n) == if n == 0 then 0 else Value(vs, n - 1) + vs[n - 1] * BasePow(n - 1)
  {
    hide BasePow;
  }

  /** Value as the prover code computes it, from the most significant limb down to limb i. */
  function FromLimbs(vs: seq<nat>, i: nat): (r: nat)
    requires i <= |vs|
    decreases |vs| - i
  {
    if i == |vs| then 0 else FromLimbs(vs, i + 1) * Pow2(LOG2_BASE) + vs[i]
  }

  lemma {:induction false} FromLimbsIsValue(vs: seq<nat>, i: nat)
    requires i <= |vs|
    ensures Value(vs, i) + BasePow(i) * FromLimbs(vs, i) == Total(vs)
    decreases |vs| - i
  {
    hide Pow2, Value, BasePow;
    ValueStep(vs, 0);
    BasePowStep(0);
    if i < |vs| {
      FromLimbsIsValue(vs, i + 1);
      ValueStep(vs, i + 1);
      BasePowStep(i + 1);
      HornerStep(Value(vs, i), BasePow(i), vs[i], Base(), FromLimbs(vs, i + 1));
    }
  }

  lemma HornerStep(a: nat, w: nat, v: nat, b: nat, f: nat)
    ensures a + v * w + b * w * f == a + w * (f * b + v)
  {
    MulAssoc(b, w, f);
    MulAssoc(w, f, b);
    MulAssoc(w, b, f);
    assert w * (f * b + v) == w * (f * b) + w * v;
  }

  lemma {:induction false} ValueSame(vs: seq<nat>, ws: seq<nat>, n: nat)
    requires n <= |vs| && n <= |ws| && forall i :: 0 <= i < n ==> vs[i] == ws[i]
    ensures Value(vs, n) == Value(ws, n)
  {
    hide Value, BasePow;
    ValueStep(vs, n);
    ValueStep(ws, n);
    if n > 0 {
      ValueSame(vs, ws, n - 1);
    }
  }

  /** Zero limbs above position m do not change the value. */
  lemma {:induction false} ValueZeros(vs: seq<nat>, m: nat, n: nat)
    requires m <= n <= |vs| && forall i :: m <= i < n ==> vs[i] == 0
    ensures Value(vs, n) == Value(vs, m)
  {
    hide Value, BasePow;
    if m < n {
      ValueStep(vs, n);
      ValueZeros(vs, m, n - 1);
    }
  }

  lemma {:induction false} ValueAdd(xs: seq<nat>, ys: seq<nat>, zs: seq<nat>, n: nat)
    requires n <= |xs| && n <= |ys| && n <= |zs| && forall i :: 0 <= i < n ==> zs[i] == xs[i] + ys[i]
    ensures Value(zs, n) == Value(xs, n) + Value(ys, n)
  {
    hide Value, BasePow;
    ValueStep(xs, n);
    ValueStep(ys, n);
    ValueStep(zs, n);
    if n > 0 {
      ValueAdd(xs, ys, zs, n - 1);
      TimesSum(xs[n - 1], ys[n - 1], BasePow(n - 1));
    }
  }

  lemma TimesSum(x: int, y: int, w: int)
    ensures (x + y) * w == x * w + y * w
  {}

  /** Adding d to limb k adds d * base^k to the value. */
  lemma {:induction false} ValueUpdate(vs: seq<nat>, k: nat, d: nat, n: nat)
    requires k < n <= |vs|
    ensures Value(vs[k := vs[k] + d], n) == Value(vs, n) + d * BasePow(k)
  {
    hide Value, BasePow;
    var ws := vs[k := vs[k] + d];
    ValueStep(vs, n);
    ValueStep(ws, n);
    if k == n - 1 {
      ValueSame(vs, ws, k);
      TimesSum(vs[k], d, BasePow(k));
    } else {
      ValueUpdate(vs, k, d, n - 1);
    }
  }

  /** Limbs below the base form a number below base^n. */
  lemma {:induction false} ValueBound(vs: seq<nat>, n: nat)
    requires n <= |vs| && forall i :: 0 <= i < n ==> vs[i] < Base()
    ensures Value(vs, n) < BasePow(n)
  {
    hide Value, BasePow, Base;
    ValueStep(vs, n);
    BasePowStep(n);
    if n > 0 {
      ValueBound(vs, n - 1);
      var b := BasePow(n - 1);
      MulLe(b, vs[n - 1], Base() - 1);
      TimesSum(Base(), -1, b);
    }
  }

  /** Extra limbs above the first m contribute a multiple of base^m, zero only if they all vanish. */
  lemma {:induction false} ValueExtra(vs: seq<nat>, m: nat, n: nat)
    requires m <= n <= |vs|
    ensures Value(vs, m) <= Value(vs, n)
    ensures Value(vs, m) == Value(vs, n) <==> forall i :: m <= i < n ==> vs[i] == 0
  {
    hide Value, BasePow;
    if m < n {
      ValueExtra(vs, m, n - 1);
      ValueStep(vs, n);
      if vs[n - 1] > 0 {
        MulLe(BasePow(n - 1), 1, vs[n - 1]);
      }
    }
  }

  /** One limb decides a comparison unless it is equal. */
  lemma CompareStep(a: nat, b: nat, x: nat, y: nat, w: nat)
    requires a < w && b < w
    ensures a + x * w >= b + y * w <==> x > y || (x == y && a >= b)
  {
    if x > y {
      MulLe(w, y + 1, x);
      assert (y + 1) * w == y * w + w;
    } else if x < y {
      MulLe(w, x + 1, y);
      assert (x + 1) * w == x * w + w;
    }
  }

  /** Equal values have equal limbs. */
  lemma {:induction false} ValueInjective(xs: seq<nat>, ys: seq<nat>, n: nat)
    requires n <= |xs| && n <= |ys|
    requires forall i :: 0 <= i < n ==> xs[i] < Base() && ys[i] < Base()
    requires Value(xs, n) == Value(ys, n)
    ensures forall i :: 0 <= i < n ==> xs[i] == ys[i]
  {
    hide Value, BasePow, Base;
    if n > 0 {
      ValueStep(xs, n);
      ValueStep(ys, n);
      ValueBound(xs, n - 1);
      ValueBound(ys, n - 1);
      CompareStep(Value(xs, n - 1), Value(ys, n - 1), xs[n - 1], ys[n - 1], BasePow(n - 1));
      CompareStep(Value(ys, n - 1), Value(xs, n - 1), ys[n - 1], xs[n - 1], BasePow(n - 1));
      ValueInjective(xs, ys, n - 1);
    }
  }

  // ---------------------------------------------------------------- carries

  /** Carrying from each limb to the next leaves the value plus the last carry. */
  lemma {:induction false} CarryChain(xs: seq<nat>, ls: seq<nat>, cs: seq<nat>, n: nat)
    requires n <= |xs| && n <= |ls| && n < |cs| && cs[0] == 0
    requires forall i :: 0 <= i < n ==> cs[i] + xs[i] == Base() * cs[i + 1] + ls[i]
    ensures Value(xs, n) == Value(ls, n) + cs[n] * BasePow(n)
  {
    if n > 0 {
      CarryChain(xs, ls, cs, n - 1);
      CarryStep(Value(ls, n - 1), cs[n - 1], xs[n - 1], Base(), cs[n], ls[n - 1], BasePow(n - 1));
    }
  }

  lemma CarryStep(v: nat, c: nat, x: nat, b: nat, c': nat, l: nat, w: nat)
    requires c + x == b * c' + l
    ensures (v + c * w) + x * w == (v + l * w) + c' * (b * w)
  {
    assert c * w + x * w == (b * c' + l) * w == b * c' * w + l * w;
    MulAssoc(b, c', w);
    MulAssoc(c', b, w);
  }

  // ---------------------------------------------------------------- size bounds

  function BoundOfAddition(b1: nat, b2: nat): nat {
    if b1 == 0 then b2
    else if b2 == 0 then b1
    else 1 + Max(b1, b2)
  }

  /** The bound is the least size that holds every sum of numbers of the two given sizes. */
  lemma BoundIsLeast(b1: nat, b2: nat, b: nat)
    ensures (Pow2(b1) - 1) + (Pow2(b2) - 1) < Pow2(b) <==> BoundOfAddition(b1, b2) <= b
  {
    var m := Max(b1, b2);
    if b1 > 0 { Pow2Mono(1, b1); }
    if b2 > 0 { Pow2Mono(1, b2); }
    if b <= m {
      Pow2Mono(b, m);
    } else {
      Pow2Mono(b1, m);
      Pow2Mono(b2, m);
      Pow2Mono(m, b);
    }
  }

  lemma BoundOfSum(b1: nat, b2: nat, x: nat, y: nat)
    requires x < Pow2(b1) && y < Pow2(b2)
    ensures x + y < Pow2(BoundOfAddition(b1, b2))
  {
    BoundIsLeast(b1, b2, BoundOfAddition(b1, b2));
  }

  lemma BoundOfProduct(b1: nat, b2: nat, x: nat, y: nat)
    requires x < Pow2(b1) && y < Pow2(b2)
    ensures x * y < Pow2(b1 + b2)
  {
    Pow2Add(b1, b2);
    hide Pow2;
    MulLe(x, y, Pow2(b2) - 1);
    MulLe(Pow2(b2) - 1, x, Pow2(b1) - 1);
    assert (Pow2(b1) - 1) * (Pow2(b2) - 1) == Pow2(b1) * Pow2(b2) - Pow2(b1) - Pow2(b2) + 1;
  }

  function BitLength(n: nat): nat {
    if n == 0 then 0 else 1 + BitLength(n / 2)
  }

  lemma {:induction false} BitLengthBounds(n: nat)
    ensures n < Pow2(BitLength(n))
    ensures forall b: nat :: n < Pow2(b) ==> BitLength(n) <= b
  {
    if n > 0 {
      BitLengthBounds(n / 2);
      forall b: nat | n < Pow2(b)
        ensures BitLength(n) <= b
      {
        assert b > 0;
        assert n / 2 < Pow2(b - 1);
      }
    }
  }

  /** Largest value that limbs within the bounds can take, from limb i upwards. */
  function MaxFrom(bounds: seq<nat>, i: nat): nat
    requires i <= |bounds|
    decreases |bounds| - i
  {
    if i == |bounds| then 0 else MaxFrom(bounds, i + 1) * Pow2(LOG2_BASE) + Pow2(bounds[i]) - 1
  }

  /** Size of any number whose limbs respect the bounds. */
  function NbBits(bounds: seq<nat>): nat {
    BitLength(MaxFrom(bounds, 0))
  }

  function DivCeil(a: nat, b: nat): (r: nat)
    requires b > 0
    ensures r * b >= a && (a > 0 ==> (r - 1) * b < a) && (a == 0 ==> r == 0)
  {
    DivNonNegative(a + b - 1, b);
    DivMod(a + b - 1, b);
    assert ((a + b - 1) / b - 1) * b == b * ((a + b - 1) / b) - b;
    (a + b - 1) / b
  }

  /** Number of limbs that normalization produces. */
  function OutLimbs(bounds: seq<nat>): nat {
    DivCeil(NbBits(bounds), LOG2_BASE)
  }

  ghost predicate Within(vs: seq<nat>, bounds: seq<nat>) {
    |vs| == |bounds| && forall i :: 0 <= i < |vs| ==> vs[i] < Pow2(bounds[i])
  }

  lemma {:induction false} MaxSplit(bounds: seq<nat>, vs: seq<nat>, i: nat)
    requires Within(vs, bounds) && i <= |bounds|
    ensures Value(vs, i) + BasePow(i) * MaxFrom(bounds, i) <= MaxFrom(bounds, 0)
    ensures BasePow(i) * MaxFrom(bounds, i) <= MaxFrom(bounds, 0)
  {
    if i > 0 {
      var k := i - 1;
      MaxSplit(bounds, vs, k);
      MaxStep(Value(vs, k), BasePow(k), vs[k], Pow2(bounds[k]), Base(), MaxFrom(bounds, i));
    }
  }

  lemma MaxStep(a: nat, w: nat, v: nat, m: nat, b: nat, rest: nat)
    requires v < m
    ensures a + v * w + (b * w) * rest <= a + w * (rest * b + m - 1)
    ensures (b * w) * rest <= w * (rest * b + m - 1)
  {
    MulLe(w, v, m - 1);
    MulLe(w, 0, m - 1);
    assert w * (rest * b + (m - 1)) == w * (rest * b) + w * (m - 1);
    MulAssoc(b, w, rest);
    MulAssoc(w, rest, b);
    MulAssoc(w, b, rest);
  }

  /** Every value within the bounds fits the derived number of bits, hence the output limbs. */
  lemma ValueFits(vs: seq<nat>, bounds: seq<nat>)
    requires Within(vs, bounds)
    ensures Total(vs) < Pow2(NbBits(bounds))
    ensures Total(vs) < BasePow(OutLimbs(bounds))
  {
    hide BitLength, Value, Pow2, BasePow;
    MaxSplit(bounds, vs, |bounds|);
    BitLengthBounds(MaxFrom(bounds, 0));
    BasePowIsPow2(OutLimbs(bounds));
    Pow2Mono(NbBits(bounds), LOG2_BASE * OutLimbs(bounds));
  }

  /** Non-zero bounds never lose limbs, so the resizing inside normalization cannot fail. */
  lemma OutLimbsEnough(bounds: seq<nat>)
    requires |bounds| > 0 && bounds[|bounds| - 1] >= 1
    ensures OutLimbs(bounds) >= |bounds| && NbBits(bounds) >= 1
  {
    var n, k, m := |bounds|, |bounds| - 1, MaxFrom(bounds, 0);
    var zeros := seq(n, i => 0);
    MaxSplit(bounds, zeros, k);
    assert MaxFrom(bounds, n) == 0;
    Pow2Mono(1, bounds[k]);
    assert MaxFrom(bounds, k) >= 1;
    MulLe(BasePow(k), 1, MaxFrom(bounds, k));
    BasePowIsPow2(k);
    BitLengthBounds(m);
    if NbBits(bounds) <= LOG2_BASE * k {
      Pow2Mono(NbBits(bounds), LOG2_BASE * k);
    }
    hide *;
    EnoughLimbs(NbBits(bounds), k, OutLimbs(bounds));
  }

  lemma EnoughLimbs(bits: nat, k: nat, r: nat)
    requires bits > LOG2_BASE * k && r * LOG2_BASE >= bits
    ensures r > k
  {}

  /** The limbs that are all as large as their bounds allow. */
  ghost function Fullest(bounds: seq<nat>): (vs: seq<nat>)
    ensures Within(vs, bounds)
  {
    seq(|bounds|, i requires 0 <= i < |bounds| => Pow2(bounds[i]) - 1)
  }

  lemma {:induction false} MaxAttained(bounds: seq<nat>, i: nat)
    requires i <= |bounds|
    ensures Value(Fullest(bounds), i) + BasePow(i) * MaxFrom(bounds, i) == MaxFrom(bounds, 0)
  {
    hide BasePow, Pow2, Value, MaxFrom;
    ValueStep(Fullest(bounds), i);
    BasePowStep(i);
    if i > 0 {
      MaxAttained(bounds, i - 1);
      MaxFromStep(bounds, i - 1);
      HornerStep(Value(Fullest(bounds), i - 1), BasePow(i - 1), Pow2(bounds[i - 1]) - 1, Base(), MaxFrom(bounds, i));
    } else {
      assert BasePow(0) * MaxFrom(bounds, 0) == MaxFrom(bounds, 0);
    }
  }

  lemma MaxFromStep(bounds: seq<nat>, i: nat)
    requires i < |bounds|
    ensures MaxFrom(bounds, i) == MaxFrom(bounds, i + 1) * Base() + Pow2(bounds[i]) - 1
    ensures MaxFrom(bounds, |bounds|) == 0
  {}

  /** The derived number of bits is the least one that holds every number within the bounds. */
  lemma NbBitsIsLeast(bounds: seq<nat>, b: nat)
    ensures NbBits(bounds) <= b <==> forall vs: seq<nat> :: Within(vs, bounds) ==> Total(vs) < Pow2(b)
  {
    hide BitLength, Value, Pow2, BasePow, MaxFrom;
    var n, full := |bounds|, Fullest(bounds);
    MaxAttained(bounds, n);
    MaxAtEnd(bounds);
    BitLengthBounds(MaxFrom(bounds, 0));
    assert Total(full) == MaxFrom(bounds, 0);
    if NbBits(bounds) <= b {
      Pow2Mono(NbBits(bounds), b);
      forall vs: seq<nat> | Within(vs, bounds)
        ensures Total(vs) < Pow2(b)
      {
        ValueFits(vs, bounds);
      }
    }
  }

  lemma MaxAtEnd(bounds: seq<nat>)
    ensures MaxFrom(bounds, |bounds|) == 0
  {}

  /** Normalization produces the least number of limbs that holds every number within the bounds. */
  lemma OutLimbsIsLeast(bounds: seq<nat>, n: nat)
    ensures OutLimbs(bounds) <= n <==> forall vs: seq<nat> :: Within(vs, bounds) ==> Total(vs) < BasePow(n)
  {
    hide NbBits, Value, Pow2, BasePow, Within;
    NbBitsIsLeast(bounds, LOG2_BASE * n);
    BasePowIsPow2(n);
    EnoughBits(NbBits(bounds), n);
  }

  lemma EnoughBits(bits: nat, n: nat)
    ensures DivCeil(bits, LOG2_BASE) <= n <==> bits <= LOG2_BASE * n
  {}
}
