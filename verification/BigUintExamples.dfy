/** Inputs on which the big-integer gadget differs from its description: constants that share a cell, and
    exponents for which nothing is reduced (circuits/src/biguint/biguint_gadget.rs). */
module BigUintExamples {
  import opened Numbers
  import opened BigNat
  import opened LimbBounds
  import opened ProductBounds
  import opened Circuits
  import opened BigUint
  import opened BigUintMul
  import opened BigUintDiv
  import opened BigUintExp
  import opened Wrappers

  lemma ConstantBounds()
    ensures BitsBounds(Max(BitLength(3), 1)) == [2]
  {
    assert BitLength(3) == 2;
  }

  /** 3 and 3 + 2^96, as constants, share the cell of their first limb. */
  lemma SharedCell(fixed: map<nat, nat>, x: AssignedBigUint, y: AssignedBigUint)
    requires InRange(x) && InRange(y) && Normalized(y.bounds) && |x.limbs| == 1 && |y.limbs| >= 1
    requires Val(x) == 3 && Val(y) == 3 + Base() && AllCached(fixed, x.limbs) && AllCached(fixed, y.limbs)
    ensures ZipEqual(x, y)
  {
    hide Value, BasePow, Base, Pow2;
    var xs, ys := Values(x.limbs), Values(y.limbs);
    ValueStep(xs, 0);
    ValueStep(xs, 1);
    BasePowStep(0);
    SmallLimbs(y);
    BaseIsLarge();
    LowLimb(ys, |ys|);
    assert ys[0] == 3;
  }

  lemma BaseIsLarge()
    ensures Base() > 3
  {
    Pow2Mono(2, LOG2_BASE);
    assert Pow2(2) == 4;
  }

  /** A number is its lowest limb modulo the base. */
  lemma {:induction false} LowLimbCong(vs: seq<nat>, n: nat)
    requires 1 <= n <= |vs|
    ensures Cong(Value(vs, n), vs[0], Base())
  {
    hide Value, BasePow, Base;
    ValueStep(vs, n);
    if n == 1 {
      ValueStep(vs, 0);
      BasePowStep(0);
      CongRefl(vs[0], Base());
    } else {
      LowLimbCong(vs, n - 1);
      BasePowStep(n - 1);
      var t := vs[n - 1] * BasePow(n - 1);
      MulAssoc(vs[n - 1], Base(), BasePow(n - 2));
      CongBy(t, 0, Base(), vs[n - 1] * BasePow(n - 2));
      CongAdd(Value(vs, n - 1), vs[0], t, 0, Base());
    }
  }

  lemma LowLimb(ys: seq<nat>, n: nat)
    requires |ys| == n >= 1 && Total(ys) == 3 + Base() && ys[0] < Base() && Base() > 3
    ensures ys[0] == 3
  {
    hide Value, Base;
    LowLimbCong(ys, n);
    CongBy(3 + Base(), 3, Base(), 1);
    CongSym(Total(ys), ys[0], Base());
    CongTrans(ys[0], 3 + Base(), 3, Base());
    CongSmall(ys[0], 3, Base());
  }

  /** Multiplying the constants 3 and 3 + 2^96 does not panic and returns 9. */
  method MulOfSharedConstants(cs: Circuit) returns (x: AssignedBigUint, y: AssignedBigUint, r: Option<AssignedBigUint>)
    requires cs.Valid()
    modifies cs
    ensures Val(x) == 3 && Val(y) == 3 + Base() && Good(cs.cells, x) && Good(cs.cells, y)
    ensures r.Some? && (cs.sat ==> Val(r.value) == 9 && Val(r.value) != Val(x) * Val(y))
    ensures cs.honest && old(cs.sat) ==> cs.sat
  {
    hide Pow2, BasePow, Value, BitLength, Circuit.Valid, NormFits, InRange, BitsBounds;
    x := AssignFixedBigUint(cs, 3);
    ghost var c1 := cs.cells;
    y := AssignFixedBigUint(cs, 3 + Pow2(LOG2_BASE));
    GoodGrows(c1, cs.cells, x);
    ConstantBounds();
    BitsNormalized(Max(BitLength(3 + Base()), 1));
    SharedCell(cs.fixed, x, y);
    SmallSquareFits(cs.numBits);
    ghost var c2 := cs.cells;
    r := Mul(cs, x, y);
    GoodGrows(c2, cs.cells, x);
    GoodGrows(c2, cs.cells, y);
  }

  lemma SmallSquareFits(numBits: nat)
    ensures SquareFits([2], numBits)
  {
    Already([2], numBits);
    assert SquareBounds([2], 0, 0) == [0];
    assert SquareBounds([2], 0, 1) == [4];
    Already([4], numBits);
  }

  /** The exponent one with an unreduced base, and the exponent zero modulo one, are not reduced. */
  method ModExpUnreduced(cs: Circuit) returns (a: Option<AssignedBigUint>, b: Option<AssignedBigUint>)
    requires cs.Valid()
    modifies cs
    ensures a.Some? && Val(a.value) == 5 && 5 != IPow(5, 1) % 3
    ensures b.Some? && Val(b.value) == 1 && 1 != IPow(5, 0) % 1
  {
    hide Pow2, BasePow, Value, BitLength, Circuit.Valid, ExpFits;
    ghost var c0 := cs.cells;
    var x := AssignFixedBigUint(cs, 5);
    ghost var c1 := cs.cells;
    var three := AssignFixedBigUint(cs, 3);
    GoodGrows(c1, cs.cells, x);
    ghost var c2 := cs.cells;
    var one := AssignFixedBigUint(cs, 1);
    GoodGrows(c2, cs.cells, x);
    GoodGrows(c2, cs.cells, three);
    ghost var c3 := cs.cells;
    a := ModExp(cs, x, 1, three);
    GoodGrows(c3, cs.cells, x);
    GoodGrows(c3, cs.cells, one);
    b := ModExp(cs, x, 0, one);
    assert IPow(5, 1) == 5 * IPow(5, 0);
  }
}
