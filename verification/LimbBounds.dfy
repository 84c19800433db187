/** Digit expansions and the size bounds that the big-integer gadget tracks
    (circuits/src/biguint/biguint_gadget.rs and circuits/src/field/foreign/util.rs). */
module LimbBounds {
  import opened Numbers
  import opened BigNat
  import opened Wrappers

  // ---------------------------------------------------------------- digits

  /** Digits of a value in base 2^96; fails unless the value fits n limbs. */
  method BigToLimbs(n: nat, value: nat) returns (r: Option<seq<nat>>)
    ensures r.Some? <==> value < BasePow(n)
    ensures r.Some? ==> |r.value| == n && Total(r.value) == value
    ensures r.Some? ==> forall i :: 0 <= i < n ==> r.value[i] < Base()
  {
    hide BasePow, Value, Pow2;
    var output: seq<nat> := [];
    var q: nat := value;
    NoDigits(value);
    while |output| < n
      invariant |output| <= n
      invariant forall i :: 0 <= i < |output| ==> output[i] < Base()
      invariant value == Total(output) + q * BasePow(|output|)
      decreases n - |output|
    {
      var r := q % Pow2(LOG2_BASE);
      DivNonNegative(q, Pow2(LOG2_BASE));
      DivMod(q, Pow2(LOG2_BASE));
      DigitStep(output, q / Pow2(LOG2_BASE), r, q);
      q := q / Pow2(LOG2_BASE);
      output := output + [r];
    }
    ValueBound(output, n);
    if q != 0 {
      MulLe(BasePow(n), 1, q);
      return None;
    }
    r := Some(output);
  }

  lemma NoDigits(value: nat)
    ensures Total([]) == 0 && value * BasePow(0) == value
  {}

  lemma DigitStep(output: seq<nat>, q: nat, r: nat, old_q: nat)
    requires old_q == Base() * q + r
    ensures Total(output + [r]) + q * BasePow(|output| + 1) == Total(output) + old_q * BasePow(|output|)
  {
    var w := BasePow(|output|);
    ValueSame(output, output + [r], |output|);
    CarryStep(0, 0, old_q, Base(), q, r, w);
  }

  /** Bounds of a number of nbBits bits: full limbs below a possibly shorter top limb. */
  function BitsBounds(nbBits: nat): (b: seq<nat>)
    requires nbBits >= 1
    ensures |b| >= 1 && |b| == DivCeil(nbBits, LOG2_BASE)
    ensures forall i :: 0 <= i < |b| ==> 1 <= b[i] <= LOG2_BASE
  {
    var n := DivCeil(nbBits, LOG2_BASE);
    seq(n, i => if i == n - 1 then (nbBits - 1) % LOG2_BASE + 1 else LOG2_BASE)
  }

  lemma TopBound(nbBits: nat)
    requires nbBits >= 1
    ensures var n := DivCeil(nbBits, LOG2_BASE);
            nbBits == LOG2_BASE * (n - 1) + ((nbBits - 1) % LOG2_BASE + 1)
  {}

  /** Limbs within the bounds of nbBits bits are exactly the base-2^96 digits of numbers below 2^nbBits. */
  lemma BitsBoundsMeaning(vs: seq<nat>, nbBits: nat)
    requires nbBits >= 1 && |vs| == |BitsBounds(nbBits)|
    requires forall i :: 0 <= i < |vs| ==> vs[i] < Base()
    ensures Within(vs, BitsBounds(nbBits)) <==> Total(vs) < Pow2(nbBits)
  {
    hide BasePow, Value, Pow2, Total;
    var n, b := |vs|, BitsBounds(nbBits);
    TopBound(nbBits);
    TopDecides(vs, b[n - 1]);
    assert forall i :: 0 <= i < n - 1 ==> b[i] == LOG2_BASE;
  }

  lemma TopDecides(vs: seq<nat>, t: nat)
    requires |vs| >= 1 && forall i :: 0 <= i < |vs| ==> vs[i] < Base()
    ensures Total(vs) < Pow2(LOG2_BASE * (|vs| - 1) + t) <==> vs[|vs| - 1] < Pow2(t)
  {
    var n := |vs|;
    var v, w := Value(vs, n - 1), BasePow(n - 1);
    assert Total(vs) == v + vs[n - 1] * w;
    hide Value, BasePow, Pow2, Total;
    BasePowIsPow2(n - 1);
    Pow2Add(LOG2_BASE * (n - 1), t);
    ValueBound(vs, n - 1);
    TopLimb(v, vs[n - 1], w, Pow2(t));
  }

  lemma TopLimb(v: nat, x: nat, w: nat, m: nat)
    requires v < w
    ensures v + x * w < w * m <==> x < m
  {
    if x < m {
      MulLe(w, x, m - 1);
      assert w * (m - 1) == w * m - w;
    } else {
      MulLe(w, m, x);
    }
  }

  // ---------------------------------------------------------------- normalization

  predicate Normalized(bounds: seq<nat>) {
    forall i :: 0 <= i < |bounds| ==> bounds[i] <= LOG2_BASE
  }

  function Padded(bounds: seq<nat>, n: nat): (r: seq<nat>)
    ensures |r| == n
  {
    seq(n, i requires 0 <= i < n => if i < |bounds| then bounds[i] else 0)
  }

  function ShiftedBound(b: nat): nat { Max(b, LOG2_BASE) - LOG2_BASE }

  /** Size of the carry into limb i. */
  function CarryBound(bounds: seq<nat>, i: nat): nat
    requires i <= |bounds|
    decreases i, 0
  {
    if i == 0 then 0 else ShiftedBound(PayloadBound(bounds, i - 1))
  }

  function PayloadBound(bounds: seq<nat>, i: nat): nat
    requires i < |bounds|
    decreases i, 1
  {
    BoundOfAddition(CarryBound(bounds, i), bounds[i])
  }

  /** No payload of the carry chain reaches the size of the native modulus. */
  ghost predicate CarriesFit(bounds: seq<nat>, numBits: nat) {
    forall i :: 0 <= i < |bounds| ==> PayloadBound(bounds, i) < numBits
  }

  /** Normalization does not hit its overflow panic. */
  ghost predicate NormFits(bounds: seq<nat>, numBits: nat) {
    Normalized(bounds) || CarriesFit(Padded(bounds, OutLimbs(bounds)), numBits)
  }

  function NormBounds(bounds: seq<nat>): (r: seq<nat>)
    ensures Normalized(r)
  {
    if Normalized(bounds) then bounds else seq(OutLimbs(bounds), i => LOG2_BASE)
  }

  lemma {:induction false} PayloadSmall(bounds: seq<nat>, i: nat, limit: nat)
    requires i < |bounds| && limit >= LOG2_BASE && forall k :: 0 <= k <= i ==> bounds[k] <= limit
    ensures PayloadBound(bounds, i) <= limit + 1
  {
    if i > 0 {
      PayloadSmall(bounds, i - 1, limit);
    }
  }

  /** Bounds two bits below the native size never overflow; a bound of the native size always does. */
  lemma NormFitsWhen(bounds: seq<nat>, numBits: nat)
    requires numBits > LOG2_BASE + 1 && (|bounds| > 0 ==> bounds[|bounds| - 1] >= 1)
    ensures (forall i :: 0 <= i < |bounds| ==> bounds[i] + 2 <= numBits) ==> NormFits(bounds, numBits)
    ensures NormFits(bounds, numBits) ==> forall i :: 0 <= i < |bounds| ==> bounds[i] < numBits
  {
    var pb := Padded(bounds, OutLimbs(bounds));
    if forall i :: 0 <= i < |bounds| ==> bounds[i] + 2 <= numBits {
      forall i | 0 <= i < |pb|
        ensures PayloadBound(pb, i) < numBits
      {
        PayloadSmall(pb, i, numBits - 2);
      }
    }
    if NormFits(bounds, numBits) && !Normalized(bounds) {
      OutLimbsEnough(bounds);
      forall i | 0 <= i < |bounds|
        ensures bounds[i] < numBits
      {
        assert PayloadBound(pb, i) < numBits;
      }
    }
  }

  // ---------------------------------------------------------------- the bounds are exact

  /** Bounds are normalized exactly when all limbs within them are below the base. */
  lemma NormalizedMeaning(bounds: seq<nat>)
    ensures Normalized(bounds) <==>
            forall vs: seq<nat> :: Within(vs, bounds) ==> forall i :: 0 <= i < |vs| ==> vs[i] < Base()
  {
    hide Pow2;
    if Normalized(bounds) {
      forall vs: seq<nat>, i | Within(vs, bounds) && 0 <= i < |vs|
        ensures vs[i] < Base()
      {
        Pow2Mono(bounds[i], LOG2_BASE);
      }
    } else {
      var k :| 0 <= k < |bounds| && bounds[k] > LOG2_BASE;
      var full := Fullest(bounds);
      Pow2Mono(LOG2_BASE, bounds[k]);
      FullestAt(bounds, k);
    }
  }

  lemma FullestAt(bounds: seq<nat>, k: nat)
    requires k < |bounds|
    ensures |Fullest(bounds)| == |bounds| && Fullest(bounds)[k] == Pow2(bounds[k]) - 1
  {}

  lemma ShiftedFits(b: nat, c: nat, x: nat)
    requires b <= c + LOG2_BASE && x < Pow2(b)
    ensures x / Base() < Pow2(c)
  {
    hide Pow2;
    Pow2Mono(b, c + LOG2_BASE);
    Pow2Add(c, LOG2_BASE);
    QuotientBelow(x, Base(), Pow2(c));
  }

  lemma QuotientBelow(x: nat, b: nat, c: nat)
    requires b > 0 && x < c * b
    ensures x / b < c
  {
    DivMod(x, b);
    if x / b >= c {
      MulLe(b, c, x / b);
    }
  }

  /** The largest payload of 96 + d bits has the quotient 2^d - 1. */
  lemma LargestQuotient(d: nat)
    ensures (Pow2(d + LOG2_BASE) - 1) / Base() == Pow2(d) - 1
  {
    hide Pow2;
    Pow2Add(d, LOG2_BASE);
    assert Base() * (Pow2(d) - 1) == Pow2(d) * Base() - Base();
    DivModUnique(Pow2(d) * Base() - 1, Base(), Pow2(d) - 1, Base() - 1);
  }

  /** The bound of a carry is the least one that holds every payload of b bits divided by the base. */
  lemma ShiftedBoundIsLeast(b: nat, c: nat)
    ensures ShiftedBound(b) <= c <==> forall x: nat :: x < Pow2(b) ==> x / Base() < Pow2(c)
  {
    hide Pow2, Base;
    if ShiftedBound(b) <= c {
      forall x: nat | x < Pow2(b)
        ensures x / Base() < Pow2(c)
      {
        ShiftedFits(b, c, x);
      }
    } else {
      var x: nat := Pow2(b) - 1;
      LargestQuotient(b - LOG2_BASE);
      Pow2Mono(c, b - LOG2_BASE);
      assert x / Base() >= Pow2(c);
    }
  }

  /** The carry into a limb is what the payload below it leaves, and a payload is the sum of carry and limb. */
  lemma CarryRecurrence(bounds: seq<nat>, i: nat, b: nat)
    requires i < |bounds|
    ensures CarryBound(bounds, 0) == 0
    ensures CarryBound(bounds, i + 1) <= b <==> forall x: nat :: x < Pow2(PayloadBound(bounds, i)) ==> x / Base() < Pow2(b)
    ensures PayloadBound(bounds, i) <= b <==> (Pow2(CarryBound(bounds, i)) - 1) + (Pow2(bounds[i]) - 1) < Pow2(b)
  {
    ShiftedBoundIsLeast(PayloadBound(bounds, i), b);
    BoundIsLeast(CarryBound(bounds, i), bounds[i], b);
  }

  /** The bounds of a padded number admit exactly the number's limbs followed by zeros. */
  lemma PaddedMeaning(bounds: seq<nat>, n: nat, vs: seq<nat>)
    requires |bounds| <= n == |vs|
    ensures Within(vs, Padded(bounds, n)) <==>
            Within(vs[..|bounds|], bounds) && forall i :: |bounds| <= i < n ==> vs[i] == 0
  {
    var p, head := Padded(bounds, n), vs[..|bounds|];
    ZeroBits();
    hide Pow2;
    if Within(vs, p) {
      forall i | 0 <= i < |bounds|
        ensures head[i] < Pow2(bounds[i])
      {
        assert vs[i] < Pow2(p[i]);
      }
      forall i | |bounds| <= i < n
        ensures vs[i] == 0
      {
        assert vs[i] < Pow2(p[i]);
      }
    }
    if Within(head, bounds) && forall i :: |bounds| <= i < n ==> vs[i] == 0 {
      forall i | 0 <= i < n
        ensures vs[i] < Pow2(p[i])
      {
        assert i < |bounds| ==> vs[i] == head[i];
      }
    }
  }

  lemma ZeroBits()
    ensures Pow2(0) == 1
  {}

  /** Normalization keeps bounds of at most 96 bits and otherwise bounds the least number of limbs by 96 bits. */
  lemma NormBoundsMeaning(bounds: seq<nat>, n: nat)
    ensures NormalLimbs(bounds) ==> NormBounds(bounds) == bounds
    ensures !NormalLimbs(bounds) ==>
              && (|NormBounds(bounds)| <= n <==> forall vs: seq<nat> :: Within(vs, bounds) ==> Total(vs) < BasePow(n))
              && forall i :: 0 <= i < |NormBounds(bounds)| ==> NormBounds(bounds)[i] == 96
  {
    hide OutLimbs, Within, Value, BasePow;
    OutLimbsIsLeast(bounds, n);
  }

  ghost predicate NormalLimbs(bounds: seq<nat>) {
    forall i :: 0 <= i < |bounds| ==> bounds[i] <= 96
  }
}
