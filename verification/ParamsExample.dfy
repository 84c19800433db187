/** A parameter set that the generator script accepts: multiplication modulo 2 with one limb of one bit over the
    native prime 7 (circuits/scripts/foreign_params_gen.py, Params). */
module ParamsExample {
  import opened Numbers
  import opened Divisibility
  import opened RangeCost
  import opened LimbSums
  import opened ForeignParams

  function Small(): Setting { Setting(MulGate, 7, 2, 2, 1, [7]) }

  lemma SmallPowers()
    ensures BasePowers(Small()).single == [1] && BasePowers(Small()).double == [[1]]
  {
    var pw := BasePowers(Small());
    assert IPow(2, 0) == 1;
    assert pw.double[0] == [1];
  }

  lemma SmallBounds()
    ensures Bounds(Small()) == (-1, 3)
  {
    SmallPowers();
    assert SumTo([1], 1) == SumTo([1], 0) + 1 == 1;
    assert RowSums([[1]], 1) == RowSums([[1]], 0) + SumTo([1], 1) == 1;
    hide BasePowers;
  }

  /** An exponent whose check takes one row is kept. */
  lemma {:induction false} OneRowIsKept(maxBitLen: nat, start: nat, i: nat)
    requires start >= 1 && Cost(maxBitLen, start) == 1
    ensures PickLog(maxBitLen, start, i) == start
  {
    hide Cost;
    if i > 0 {
      OneRowIsKept(maxBitLen, start, i - 1);
      CostPositive(maxBitLen, start + i);
    }
  }

  lemma SmallPower()
    ensures NextCheapest(8, 2) == 2
  {
    assert BinLength(1) == 1;
    assert 1 == 1 * 1;
    OneRowWhen(8, 1);
    hide Cost, BinLength, PickLog;
    NextCheapestCovers(8, 2);
    OneRowIsKept(8, 1, 127);
    assert Pow2(1) == 2;
  }

  lemma SmallLcm()
    ensures LcmOfPrefix([7], 1) == 7
  {
    assert Gcd(1, 7) == Gcd(7, 1) == Gcd(1, 0) == 1;
    assert LcmOfPrefix([7], 0) == 1;
    assert LcmOf2(1, 7) == 7;
  }

  lemma SmallRange(s: Setting, rcLen: nat, kMin: int, uMax: nat)
    requires s == Small() && s.q > 0 && rcLen == 8 && MainRange(s, rcLen, kMin, uMax)
    ensures kMin == 0 && uMax == 2 && WellFormed(s)
    ensures MainStaysWithin(s, kMin, uMax, LcmOfPrefix([7], 1))
  {
    hide BasePowers, Expr, ExprBounds, MainStaysWithin, Bounds, NextCheapest, LcmOfPrefix, Fits;
    SmallBounds();
    SmallPower();
    SmallLcm();
    LcmFitsExactly(s, 0, 2, 7);
  }

  lemma SmallStart()
    ensures WellFormed(Small()) && CanBeNegative(Small()) && Others(Small(), 1) == []
  {
    SmallBounds();
    NegativeExactly(Small());
    hide BasePowers, Expr, ExprBounds, CanBeNegative, Bounds, Fits;
  }

  /** The script reports these parameters as valid. */
  method SmallParameters() returns (params: Params)
    ensures params.setting == Small() && params.validity == ValidParameters
    ensures params.kMin == 0 && params.uMax == 2 && params.lsMin == [] && params.vsMax == []
  {
    hide BasePowers, Expr, ExprBounds, CanBeNegative, MainStaysWithin, Bounds, NextCheapest, LcmOfPrefix, Fits, Others,
      MainRange, AuxRange, AuxStaysWithin, Cong, Meaning, Satisfiable, WellFormed;
    SmallStart();
    var table := new CostTable();
    params := new Params(Small());
    var ok := params.Init(table, 8);
    SmallRange(params.setting, 8, params.kMin, params.uMax);
  }
}
