/** Equality, comparison, subtraction and division of the big-integer gadget
    (circuits/src/biguint/biguint_gadget.rs). */
module BigUintDiv {
  import opened Numbers
  import opened BigNat
  import opened LimbBounds
  import opened ProductBounds
  import opened Circuits
  import opened BigUint
  import opened BigUintMul
  import opened Wrappers

  // ---------------------------------------------------------------- equality and order

  lemma SmallLimbs(x: AssignedBigUint)
    requires InRange(x) && Normalized(x.bounds)
    ensures forall i :: 0 <= i < |x.limbs| ==> x.limbs[i].value < Base()
  {
    hide Pow2;
    forall i | 0 <= i < |x.limbs|
      ensures x.limbs[i].value < Base()
    {
      Pow2Mono(x.bounds[i], LOG2_BASE);
    }
  }

  /** Resizes both operands to the longer length. */
  method Align(cs: Circuit, x: AssignedBigUint, y: AssignedBigUint) returns (xs: seq<Cell>, ys: seq<Cell>)
    requires cs.Valid() && Good(cs.cells, x) && Good(cs.cells, y) && Normalized(x.bounds) && Normalized(y.bounds)
    modifies cs`cells, cs`fixed
    ensures cs.Step() && |xs| == |ys|
    ensures Total(Values(xs)) == Val(x) && Total(Values(ys)) == Val(y)
    ensures InRange(x) && InRange(y) ==> forall i :: 0 <= i < |xs| ==> xs[i].value < Base() && ys[i].value < Base()
  {
    hide Pow2, Circuit.Valid, Total, Base, InRange;
    var n := Max(|x.limbs|, |y.limbs|);
    ghost var before := cs.cells;
    var x' := Resize(cs, n, x);
    GoodGrows(before, cs.cells, y);
    var y' := Resize(cs, n, y);
    xs, ys := x'.value.limbs, y'.value.limbs;
    if InRange(x) && InRange(y) {
      SmallLimbs(x);
      SmallLimbs(y);
      SmallBase();
    }
  }

  lemma SmallBase()
    ensures 0 < Base()
  {}

  /** Satisfied exactly when the two numbers are equal. */
  method AssertEqual(cs: Circuit, x: AssignedBigUint, y: AssignedBigUint) returns (ok: bool)
    requires cs.Valid() && Good(cs.cells, x) && Good(cs.cells, y) && (cs.sat ==> InRange(x) && InRange(y))
    modifies cs
    ensures cs.Step()
    ensures ok <==> Normalized(x.bounds) && Normalized(y.bounds)
    ensures ok ==> (cs.sat <==> old(cs.sat) && Val(x) == Val(y))
  {
    hide Pow2, Circuit.Valid, Base, InRange, Value, Good;
    if !Normalized(x.bounds) || !Normalized(y.bounds) {
      return false;
    }
    var xs, ys := Align(cs, x, y);
    for i := 0 to |xs|
      invariant cs.Step()
      invariant cs.sat <==> old(cs.sat) && forall k :: 0 <= k < i ==> xs[k].value == ys[k].value
    {
      cs.AssertEqual(xs[i], ys[i]);
    }
    if old(cs.sat) {
      EqualLimbs(Values(xs), Values(ys));
    }
    ok := true;
  }

  lemma EqualLimbs(xs: seq<nat>, ys: seq<nat>)
    requires |xs| == |ys| && forall i :: 0 <= i < |xs| ==> xs[i] < Base() && ys[i] < Base()
    ensures Total(xs) == Total(ys) <==> forall i :: 0 <= i < |xs| ==> xs[i] == ys[i]
  {
    hide Value, Base;
    if Total(xs) == Total(ys) {
      ValueInjective(xs, ys, |xs|);
    }
    if forall i :: 0 <= i < |xs| ==> xs[i] == ys[i] {
      ValueSame(xs, ys, |xs|);
    }
  }

  /** The fold over limbs from the least significant one. */
  function GeqFold(xs: seq<nat>, ys: seq<nat>, n: nat): bool
    requires n <= |xs| && n <= |ys|
  {
    n == 0 || xs[n - 1] > ys[n - 1] || (xs[n - 1] == ys[n - 1] && GeqFold(xs, ys, n - 1))
  }

  /** Folding from the least significant limb decides the order of the numbers. */
  lemma {:induction false} GeqFoldIsOrder(xs: seq<nat>, ys: seq<nat>, n: nat)
    requires n <= |xs| && n <= |ys| && forall i :: 0 <= i < n ==> xs[i] < Base() && ys[i] < Base()
    ensures GeqFold(xs, ys, n) <==> Value(xs, n) >= Value(ys, n)
  {
    if n > 0 {
      GeqFoldIsOrder(xs, ys, n - 1);
      ValueBound(xs, n - 1);
      ValueBound(ys, n - 1);
      CompareStep(Value(xs, n - 1), Value(ys, n - 1), xs[n - 1], ys[n - 1], BasePow(n - 1));
    }
  }

  method Geq(cs: Circuit, x: AssignedBigUint, y: AssignedBigUint) returns (r: Option<bool>)
    requires cs.Valid() && Good(cs.cells, x) && Good(cs.cells, y) && (cs.sat ==> InRange(x) && InRange(y))
    modifies cs`cells, cs`fixed
    ensures cs.Step()
    ensures r.Some? <==> Normalized(x.bounds) && Normalized(y.bounds)
    ensures r.Some? && cs.sat ==> (r.value <==> Val(x) >= Val(y))
  {
    hide Pow2, Circuit.Valid, Base, InRange, Value, Good, GeqFold;
    if !Normalized(x.bounds) || !Normalized(y.bounds) {
      return None;
    }
    var xs, ys := Align(cs, x, y);
    if cs.sat {
      GeqFoldIsOrder(Values(xs), Values(ys), |xs|);
    }
    r := Some(GeqFold(Values(xs), Values(ys), |xs|));
  }

  method AssertLowerThan(cs: Circuit, x: AssignedBigUint, y: AssignedBigUint) returns (ok: bool)
    requires cs.Valid() && Good(cs.cells, x) && Good(cs.cells, y) && (cs.sat ==> InRange(x) && InRange(y))
    modifies cs
    ensures cs.Step()
    ensures ok <==> Normalized(x.bounds) && Normalized(y.bounds)
    ensures ok ==> (cs.sat <==> old(cs.sat) && Val(x) < Val(y))
  {
    hide Pow2, Circuit.Valid, Base, InRange, Value, Good;
    var b := Geq(cs, x, y);
    if b.None? {
      return false;
    }
    cs.AssertBit(b.value, false);
    ok := true;
  }

  // ---------------------------------------------------------------- free numbers

  /** Free cells, each below its bound; digits are what the prover code computes. */
  method AssignLimbs(cs: Circuit, digits: seq<nat>, bounds: seq<nat>) returns (limbs: seq<Cell>)
    requires cs.Valid() && |digits| == |bounds| && (cs.honest ==> forall k :: 0 <= k < |digits| ==> digits[k] < Base())
    modifies cs
    ensures cs.Step() && |limbs| == |bounds| && AllOwned(cs.cells, limbs)
    ensures |limbs| > 0 ==> limbs[0].id >= |old(cs.cells)|
    ensures cs.sat <==> old(cs.sat) && Within(Values(limbs), bounds)
    ensures cs.honest ==> Values(limbs) == digits
  {
    hide Pow2, Circuit.Valid, Base, AllOwned;
    limbs := [];
    NormalizeStart(cs.cells, [], []);
    for i := 0 to |bounds|
      invariant cs.Step() && |limbs| == i && AllOwned(cs.cells, limbs)
      invariant i > 0 ==> limbs[0].id >= |old(cs.cells)|
      invariant cs.sat <==> old(cs.sat) && forall k :: 0 <= k < i ==> limbs[k].value < Pow2(bounds[k])
      invariant cs.honest ==> forall k :: 0 <= k < i ==> limbs[k].value == digits[k]
    {
      if cs.honest {
        DigitIsSmall(cs, digits[i]);
      }
      ghost var before := cs.cells;
      var c := cs.AssignLowerThan(digits[i], Pow2(bounds[i]));
      OwnedGrows(before, cs.cells, limbs);
      OwnedSnoc(cs.cells, limbs, c);
      limbs := limbs + [c];
    }
  }

  /** A free number of nbBits bits; value is what the prover code computes. */
  method AssignBounded(cs: Circuit, value: nat, nbBits: nat) returns (r: Option<AssignedBigUint>)
    requires cs.Valid()
    modifies cs
    ensures cs.Step()
    ensures r.Some? <==> nbBits >= 1 && (cs.honest ==> value < BasePow(DivCeil(nbBits, LOG2_BASE)))
    ensures r.Some? ==> Good(cs.cells, r.value) && r.value.bounds == BitsBounds(nbBits)
    ensures r.Some? ==> r.value.limbs[0].id >= |old(cs.cells)|
    ensures r.Some? && cs.sat ==> InRange(r.value) && Val(r.value) < Pow2(nbBits)
    ensures r.Some? && cs.honest ==> Val(r.value) == value && (cs.sat <==> old(cs.sat) && value < Pow2(nbBits))
  {
    hide Pow2, Circuit.Valid, BasePow, Value, Base, AllOwned, Within;
    if nbBits == 0 {
      return None;
    }
    var bounds := BitsBounds(nbBits);
    var digits: seq<nat> := seq(|bounds|, _ => 0);
    if cs.honest {
      var d := BigToLimbs(|bounds|, value);
      if d.None? {
        return None;
      }
      digits := d.value;
    }
    var limbs := AssignLimbs(cs, digits, bounds);
    r := Some(AssignedBigUint(limbs, bounds));
    BoundedMeaning(r.value, nbBits);
    if cs.honest {
      BitsBoundsMeaning(digits, nbBits);
    }
  }

  lemma DigitIsSmall(cs: Circuit, d: nat)
    requires cs.Valid() && d < Base()
    ensures d % cs.p == d
  {
    hide Pow2;
    NoWrap(cs, d, LOG2_BASE);
  }

  lemma BoundedMeaning(x: AssignedBigUint, nbBits: nat)
    requires nbBits >= 1 && |x.limbs| == |x.bounds| && x.bounds == BitsBounds(nbBits)
    ensures InRange(x) ==> Val(x) < Pow2(nbBits)
  {
    hide Pow2, Value, BitsBounds;
    if InRange(x) {
      SmallLimbs(x);
      BitsBoundsMeaning(Values(x.limbs), nbBits);
    }
  }

  function NumberOf(x: AssignedBigUint): (v: nat)
    ensures v == Val(x)
  {
    FromLimbsIsValue(Values(x.limbs), 0);
    FromLimbs(Values(x.limbs), 0)
  }

  // ---------------------------------------------------------------- subtraction

  lemma NbBitsPositive(cells: seq<nat>, x: AssignedBigUint, v: nat)
    requires Good(cells, x)
    ensures NbBits(x.bounds) >= 1
    ensures InRange(x) && v <= Val(x) ==> v < Pow2(NbBits(x.bounds)) && v < BasePow(OutLimbs(x.bounds))
  {
    hide NbBits, OutLimbs, Pow2, BasePow, Value;
    OutLimbsEnough(x.bounds);
    if InRange(x) {
      ValueFits(Values(x.limbs), x.bounds);
    }
  }

  lemma AddNormalized(a: seq<nat>, b: seq<nat>, numBits: nat)
    requires Normalized(a) && Normalized(b) && numBits > LOG2_BASE + 2 && |a| >= 1 && |b| >= 1
    requires (forall i :: 0 <= i < |a| ==> a[i] >= 1) && (forall i :: 0 <= i < |b| ==> b[i] >= 1)
    ensures NormFits(AddBounds(a, b), numBits)
  {
    hide NormFits;
    NormFitsWhen(AddBounds(a, b), numBits);
  }

  /** Subtraction does not panic: x is normalized and the inner addition does not overflow. */
  ghost predicate SubFits(a: seq<nat>, b: seq<nat>, numBits: nat) {
    NbBits(a) >= 1 && Normalized(a) && NormFits(AddBounds(BitsBounds(NbBits(a)), b), numBits)
  }

  /** Normalized operands can be subtracted in every field of at least 99 bits. */
  lemma SubFitsWhen(a: seq<nat>, b: seq<nat>, numBits: nat)
    requires Normalized(a) && Normalized(b) && numBits > LOG2_BASE + 2 && |a| >= 1 && |b| >= 1
    requires (forall i :: 0 <= i < |a| ==> a[i] >= 1) && (forall i :: 0 <= i < |b| ==> b[i] >= 1)
    ensures SubFits(a, b, numBits)
  {
    hide NormFits, NbBits;
    OutLimbsEnough(a);
    BitsNormalized(NbBits(a));
    AddNormalized(BitsBounds(NbBits(a)), b, numBits);
  }

  /** x - y; satisfiable only when y <= x. */
  method Sub(cs: Circuit, x: AssignedBigUint, y: AssignedBigUint) returns (r: Option<AssignedBigUint>)
    requires cs.Valid() && Good(cs.cells, x) && Good(cs.cells, y) && (cs.sat ==> InRange(x) && InRange(y))
    modifies cs
    ensures cs.Step()
    ensures r.Some? ==> SubFits(x.bounds, y.bounds, cs.numBits)
    ensures SubFits(x.bounds, y.bounds, cs.numBits) && (cs.honest ==> old(cs.sat)) ==> r.Some?
    ensures r.Some? ==> Good(cs.cells, r.value) && r.value.bounds == BitsBounds(NbBits(x.bounds))
    ensures r.Some? && cs.sat ==> InRange(r.value) && Val(y) <= Val(x) && Val(r.value) == Val(x) - Val(y)
    ensures r.Some? && cs.honest && old(cs.sat) ==> (cs.sat <==> Val(y) <= Val(x))
  {
    hide Pow2, Circuit.Valid, BasePow, Total, AllOwned, NbBits, NormFits, InRange, Normalized, AddBounds, BitsBounds;
    var xv, yv := NumberOf(x), NumberOf(y);
    var res := if xv >= yv then xv - yv else 0;
    NbBitsPositive(cs.cells, x, res);
    ghost var before := cs.cells;
    var d := AssignBounded(cs, res, NbBits(x.bounds));
    if d.None? {
      return None;
    }
    GoodGrows(before, cs.cells, x);
    GoodGrows(before, cs.cells, y);
    before := cs.cells;
    var z := Add(cs, d.value, y);
    if z.None? {
      return None;
    }
    GoodGrows(before, cs.cells, x);
    GoodGrows(before, cs.cells, d.value);
    before := cs.cells;
    var ok := AssertEqual(cs, x, z.value);
    if !ok {
      return None;
    }
    GoodGrows(before, cs.cells, d.value);
    r := d;
  }

  lemma BitsNormalized(nbBits: nat)
    requires nbBits >= 1
    ensures Normalized(BitsBounds(nbBits))
  {}

  // ---------------------------------------------------------------- division

  ghost predicate DivRemFits(a: seq<nat>, b: seq<nat>, numBits: nat) {
    && NbBits(a) >= 1 && NbBits(b) >= 1 && Normalized(a) && Normalized(b)
    && (var q := BitsBounds(NbBits(a));
        && MulFits(q, b, numBits)
        && NormFits(AddBounds(NormBounds(ProductOf(NormBounds(q), NormBounds(b))), BitsBounds(NbBits(b))), numBits))
  }

  lemma EuclidUnique(x: nat, y: nat, q: nat, r: nat)
    requires x == q * y + r && r < y
    ensures y > 0 && q == x / y && r == x % y
  {
    DivModUnique(x, y, q, r);
  }

  lemma EuclidHonest(x: nat, y: nat)
    requires y > 0
    ensures 0 <= x / y <= x && 0 <= x % y < y && x == (x / y) * y + x % y
  {
    DivMod(x, y);
    DivNonNegative(x, y);
  }

  /** The constraints x == q * y + r and r < y over numbers already assigned. */
  method CheckEuclid(cs: Circuit, x: AssignedBigUint, y: AssignedBigUint, q: AssignedBigUint, r: AssignedBigUint)
    returns (ok: bool)
    requires cs.Valid() && Good(cs.cells, x) && Good(cs.cells, y) && Good(cs.cells, q) && Good(cs.cells, r)
    requires (cs.sat ==> InRange(x) && InRange(y) && InRange(q) && InRange(r)) && !ZipEqual(q, y)
    modifies cs
    ensures cs.Step()
    ensures ok <==>
              && MulFits(q.bounds, y.bounds, cs.numBits)
              && NormFits(AddBounds(NormBounds(ProductOf(NormBounds(q.bounds), NormBounds(y.bounds))), r.bounds), cs.numBits)
              && Normalized(x.bounds) && Normalized(y.bounds) && Normalized(r.bounds)
    ensures ok && cs.sat ==> Val(x) == Val(q) * Val(y) + Val(r) && Val(r) < Val(y)
    ensures ok && cs.honest && old(cs.sat) && Val(x) == Val(q) * Val(y) + Val(r) && Val(r) < Val(y) ==> cs.sat
  {
    hide Pow2, Circuit.Valid, Total, AllOwned, NormFits, InRange, Normalized, NormBounds, MulFits, ProductOf, Good, ZipEqual;
    ghost var c0 := cs.cells;
    var qy := Mul(cs, q, y);
    if qy.None? {
      return false;
    }
    GoodGrows(c0, cs.cells, r);
    var z := Add(cs, qy.value, r);
    if z.None? {
      return false;
    }
    GoodGrows(c0, cs.cells, x);
    ok := AssertEqual(cs, x, z.value);
    if !ok {
      return;
    }
    GoodGrows(c0, cs.cells, y);
    GoodGrows(c0, cs.cells, r);
    ok := AssertLowerThan(cs, r, y);
  }

  /** Euclidean division: any satisfying assignment has the unique quotient and remainder. */
  method DivRem(cs: Circuit, x: AssignedBigUint, y: AssignedBigUint)
    returns (r: Option<(AssignedBigUint, AssignedBigUint)>)
    requires cs.Valid() && Good(cs.cells, x) && Good(cs.cells, y) && (cs.sat ==> InRange(x) && InRange(y))
    modifies cs
    ensures cs.Step()
    ensures r.Some? ==> DivRemFits(x.bounds, y.bounds, cs.numBits) && (cs.honest ==> Val(y) > 0)
    ensures DivRemFits(x.bounds, y.bounds, cs.numBits) && (cs.honest ==> old(cs.sat) && Val(y) > 0) ==> r.Some?
    ensures r.Some? ==> Good(cs.cells, r.value.0) && Good(cs.cells, r.value.1)
    ensures r.Some? ==> r.value.0.bounds == BitsBounds(NbBits(x.bounds))
    ensures r.Some? ==> r.value.1.bounds == BitsBounds(NbBits(y.bounds)) && r.value.1.limbs[0].id >= |old(cs.cells)|
    ensures r.Some? && cs.sat ==> InRange(r.value.0) && InRange(r.value.1)
    ensures r.Some? && cs.sat ==> Val(y) > 0 && Val(r.value.0) == Val(x) / Val(y) && Val(r.value.1) == Val(x) % Val(y)
    ensures r.Some? && cs.honest && old(cs.sat) ==> cs.sat
  {
    hide Pow2, Circuit.Valid, BasePow, Total, AllOwned, NbBits, NormFits, InRange, Normalized, NormBounds, MulFits, ProductOf, BitsBounds, ZipEqual, AddBounds;
    var xv, yv := NumberOf(x), NumberOf(y);
    if cs.honest && yv == 0 {
      return None;
    }
    var qv: nat, rv: nat := 0, 0;
    if yv > 0 {
      EuclidHonest(xv, yv);
      qv, rv := xv / yv, xv % yv;
    }
    NbBitsPositive(cs.cells, x, qv);
    NbBitsPositive(cs.cells, y, rv);
    ghost var c0 := cs.cells;
    var q := AssignBounded(cs, qv, NbBits(x.bounds));
    if q.None? {
      return None;
    }
    ghost var c1 := cs.cells;
    var rem := AssignBounded(cs, rv, NbBits(y.bounds));
    if rem.None? {
      return None;
    }
    ghost var c2 := cs.cells;
    GoodGrows(c0, c2, x);
    GoodGrows(c0, c2, y);
    GoodGrows(c1, c2, q.value);
    FreshDiffers(c0, q.value, y);
    BitsNormalized(NbBits(y.bounds));
    var ok := CheckEuclid(cs, x, y, q.value, rem.value);
    if !ok {
      return None;
    }
    GoodGrows(c2, cs.cells, q.value);
    GoodGrows(c2, cs.cells, rem.value);
    if cs.sat {
      EuclidUnique(Val(x), Val(y), Val(q.value), Val(rem.value));
    }
    r := Some((q.value, rem.value));
  }

  lemma FreshDiffers(cells: seq<nat>, q: AssignedBigUint, y: AssignedBigUint)
    requires Good(cells, y) && |q.limbs| >= 1 && q.limbs[0].id >= |cells|
    ensures !ZipEqual(q, y) && !ZipEqual(y, q)
  {
    assert Owned(cells, y.limbs[0]);
    assert q.limbs[0].id != y.limbs[0].id;
  }
}
