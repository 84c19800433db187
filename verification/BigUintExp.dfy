/** Modular products and exponentiation of the big-integer gadget, and when they cannot overflow
    (circuits/src/biguint/biguint_gadget.rs). */
module BigUintExp {
  import opened Numbers
  import opened BigNat
  import opened LimbBounds
  import opened ProductBounds
  import opened Circuits
  import opened BigUint
  import opened BigUintMul
  import opened BigUintDiv
  import opened Wrappers

  // ---------------------------------------------------------------- absence of overflow

  ghost predicate Positive(b: seq<nat>) {
    |b| >= 1 && forall i :: 0 <= i < |b| ==> b[i] >= 1
  }

  /** n limbs can be squared without reaching the native modulus. */
  ghost predicate Roomy(b: seq<nat>, numBits: nat) {
    Positive(b) && Normalized(b) && |b| + 2 * LOG2_BASE + 2 <= numBits
  }

  lemma {:induction false} MaxNormalized(b: seq<nat>, i: nat)
    requires Normalized(b) && i <= |b|
    ensures MaxFrom(b, i) < BasePow(|b| - i)
    decreases |b| - i
  {
    hide Pow2, BasePow;
    BasePowStep(|b| - i);
    if i < |b| {
      MaxNormalized(b, i + 1);
      Pow2Mono(b[i], LOG2_BASE);
      TopLimb(Pow2(b[i]) - 1, MaxFrom(b, i + 1), Base(), BasePow(|b| - i - 1));
    }
  }

  /** A number assigned with the size of normalized bounds has as many limbs. */
  lemma SameLimbs(b: seq<nat>)
    requires Positive(b) && Normalized(b)
    ensures NbBits(b) >= 1 && |BitsBounds(NbBits(b))| == |b| && Positive(BitsBounds(NbBits(b)))
  {
    hide MaxFrom, BasePow, Pow2;
    OutLimbsEnough(b);
    MaxNormalized(b, 0);
    BasePowIsPow2(|b|);
    BitLengthBounds(MaxFrom(b, 0));
  }

  lemma MulFitsWhen(a: seq<nat>, b: seq<nat>, numBits: nat)
    requires Positive(a) && Positive(b) && Normalized(a) && Normalized(b)
    requires |a| + 2 * LOG2_BASE + 1 <= numBits || |b| + 2 * LOG2_BASE + 1 <= numBits
    ensures MulFits(a, b, numBits) && Positive(ProductOf(a, b))
  {
    hide ProductOf, NormFits;
    var z := ProductOf(a, b);
    ProductPositive(a, b);
    ProductCount(a, b);
    forall k | 0 <= k < |z|
      ensures z[k] + 2 <= numBits
    {
      ProductSmall(a, b, k);
    }
    NormFitsWhen(z, numBits);
    Already(a, numBits);
    Already(b, numBits);
  }

  lemma ProductCount(a: seq<nat>, b: seq<nat>)
    requires |a| >= 1 && |b| >= 1
    ensures |ProductOf(a, b)| == |a| + |b| - 1
  {}

  lemma Already(a: seq<nat>, numBits: nat)
    requires Normalized(a)
    ensures NormFits(a, numBits) && NormBounds(a) == a
  {}

  lemma SquareFitsWhen(a: seq<nat>, numBits: nat)
    requires Roomy(a, numBits)
    ensures SquareFits(a, numBits) && Positive(SquareOf(a))
  {
    SquarePositive(a);
    SquareCount(a);
    hide SquareOf, NormFits;
    var z := SquareOf(a);
    forall k | 0 <= k < |z|
      ensures z[k] + 2 <= numBits
    {
      SquareSmall(a, k);
    }
    NormFitsWhen(z, numBits);
    Already(a, numBits);
  }

  lemma SquareCount(a: seq<nat>)
    requires |a| >= 1
    ensures |SquareOf(a)| == 2 * |a| - 1
  {}

  lemma NormPositive(b: seq<nat>)
    requires Positive(b)
    ensures Positive(NormBounds(b))
  {
    hide OutLimbs;
    OutLimbsEnough(b);
  }

  lemma DivRemFitsWhen(a: seq<nat>, b: seq<nat>, numBits: nat)
    requires Positive(a) && Normalized(a) && Roomy(b, numBits)
    ensures DivRemFits(a, b, numBits)
  {
    hide ProductOf, NormFits, NormBounds, NbBits, MulFits;
    SameLimbs(a);
    SameLimbs(b);
    var q, r := BitsBounds(NbBits(a)), BitsBounds(NbBits(b));
    hide BitsBounds;
    BitsNormalized(NbBits(a));
    BitsNormalized(NbBits(b));
    MulFitsWhen(q, b, numBits);
    Already(q, numBits);
    Already(b, numBits);
    NormPositive(ProductOf(q, b));
    AddNormalized(NormBounds(ProductOf(q, b)), r, numBits);
  }

  // ---------------------------------------------------------------- modular products

  /** Bounds of what Mul returns. */
  ghost function MulResult(a: seq<nat>, b: seq<nat>, zip: bool): seq<nat>
    requires |NormBounds(a)| >= 1 && |NormBounds(b)| >= 1
  {
    NormBounds(if zip then SquareOf(NormBounds(a)) else ProductOf(NormBounds(a), NormBounds(b)))
  }

  /** Modular multiplication does not panic. */
  ghost predicate ModMulFits(a: seq<nat>, b: seq<nat>, m: seq<nat>, zip: bool, numBits: nat) {
    && (if zip then SquareFits(a, numBits) else MulFits(a, b, numBits))
    && |NormBounds(a)| >= 1 && |NormBounds(b)| >= 1 && DivRemFits(MulResult(a, b, zip), m, numBits)
  }

  lemma ModMulFitsWhen(a: seq<nat>, b: seq<nat>, m: seq<nat>, zip: bool, numBits: nat)
    requires Roomy(a, numBits) && Roomy(b, numBits) && Roomy(m, numBits)
    ensures ModMulFits(a, b, m, zip, numBits)
  {
    hide SquareOf, ProductOf, SquareFits, MulFits, DivRemFits, NormBounds, Roomy;
    assert Normalized(a) && Normalized(b) && Positive(a) && Positive(b) by { RoomyParts(a, numBits); RoomyParts(b, numBits); }
    Already(a, numBits);
    Already(b, numBits);
    if zip {
      SquareFitsWhen(a, numBits);
      NormPositive(SquareOf(a));
    } else {
      RoomyParts(a, numBits);
      MulFitsWhen(a, b, numBits);
      NormPositive(ProductOf(a, b));
    }
    DivRemFitsWhen(MulResult(a, b, zip), m, numBits);
  }

  lemma RoomyParts(a: seq<nat>, numBits: nat)
    requires Roomy(a, numBits)
    ensures Normalized(a) && Positive(a) && |a| + 2 * LOG2_BASE + 1 <= numBits
  {}

  lemma GoodNormBounds(cells: seq<nat>, x: AssignedBigUint)
    requires Good(cells, x)
    ensures |NormBounds(x.bounds)| >= 1
  {
    hide NormBounds;
    NormPositive(x.bounds);
  }

  /** x * y modulo m, where Mul squares x if the operands look equal. */
  method ModMul(cs: Circuit, x: AssignedBigUint, y: AssignedBigUint, m: AssignedBigUint)
    returns (r: Option<AssignedBigUint>)
    requires cs.Valid() && Good(cs.cells, x) && Good(cs.cells, y) && Good(cs.cells, m)
    requires cs.sat ==> InRange(x) && InRange(y) && InRange(m)
    modifies cs
    ensures cs.Step()
    ensures r.Some? ==> ModMulFits(x.bounds, y.bounds, m.bounds, ZipEqual(x, y), cs.numBits) && (cs.honest ==> Val(m) > 0)
    ensures ModMulFits(x.bounds, y.bounds, m.bounds, ZipEqual(x, y), cs.numBits) ==>
              (cs.honest ==> old(cs.sat) && Val(m) > 0) ==> r.Some?
    ensures r.Some? ==> Good(cs.cells, r.value) && r.value.bounds == BitsBounds(NbBits(m.bounds)) && r.value.limbs[0].id >= |old(cs.cells)|
    ensures r.Some? && cs.sat ==> InRange(r.value) && Val(m) > 0
    ensures r.Some? && cs.sat ==> Val(r.value) == (Val(x) * (if ZipEqual(x, y) then Val(x) else Val(y))) % Val(m)
    ensures r.Some? && cs.honest && old(cs.sat) ==> cs.sat
  {
    hide Pow2, Circuit.Valid, Total, AllOwned, NbBits, NormFits, InRange, NormBounds, MulFits, SquareFits, ProductOf, BitsBounds, DivRemFits, SquareOf, ZipEqual;
    ghost var c0 := cs.cells;
    GoodNormBounds(c0, x);
    GoodNormBounds(c0, y);
    var p := Mul(cs, x, y);
    if p.None? {
      return None;
    }
    GoodGrows(c0, cs.cells, m);
    var d := DivRem(cs, p.value, m);
    if d.None? {
      return None;
    }
    r := Some(d.value.1);
  }

  /** x * x modulo m */
  method ModSquare(cs: Circuit, x: AssignedBigUint, m: AssignedBigUint) returns (r: Option<AssignedBigUint>)
    requires cs.Valid() && Good(cs.cells, x) && Good(cs.cells, m) && (cs.sat ==> InRange(x) && InRange(m))
    modifies cs
    ensures cs.Step()
    ensures r.Some? ==> ModMulFits(x.bounds, x.bounds, m.bounds, true, cs.numBits) && (cs.honest ==> Val(m) > 0)
    ensures ModMulFits(x.bounds, x.bounds, m.bounds, true, cs.numBits) && (cs.honest ==> old(cs.sat) && Val(m) > 0) ==> r.Some?
    ensures r.Some? ==> Good(cs.cells, r.value) && r.value.bounds == BitsBounds(NbBits(m.bounds)) && r.value.limbs[0].id >= |old(cs.cells)|
    ensures r.Some? && cs.sat ==> InRange(r.value) && Val(m) > 0 && Val(r.value) == (Val(x) * Val(x)) % Val(m)
    ensures r.Some? && cs.honest && old(cs.sat) ==> cs.sat
  {
    hide Pow2, Circuit.Valid, Total, AllOwned, NbBits, NormFits, InRange, NormBounds, SquareFits, BitsBounds, DivRemFits, SquareOf;
    ghost var c0 := cs.cells;
    GoodNormBounds(c0, x);
    var p := Square(cs, x);
    if p.None? {
      return None;
    }
    GoodGrows(c0, cs.cells, m);
    var d := DivRem(cs, p.value, m);
    if d.None? {
      return None;
    }
    r := Some(d.value.1);
  }

  // ---------------------------------------------------------------- powers modulo m

  lemma {:induction false} IPowSquare(t: nat, h: nat)
    ensures IPow(t, 2 * h) == IPow(t * t, h)
  {
    if h > 0 {
      IPowSquare(t, h - 1);
      assert IPow(t, 2 * h) == t * (t * IPow(t, 2 * h - 2));
      MulAssoc(t, t, IPow(t, 2 * h - 2));
    }
  }

  lemma {:induction false} CongPow(a: nat, b: nat, n: nat, m: nat)
    requires m > 0 && Cong(a, b, m)
    ensures Cong(IPow(a, n), IPow(b, n), m)
  {
    if n == 0 {
      CongRefl(1, m);
    } else {
      CongPow(a, b, n - 1, m);
      CongMul(a, b, IPow(a, n - 1), IPow(b, n - 1), m);
    }
  }

  /** acc * t^k is the power sought, modulo m. */
  ghost predicate Invariant(m: nat, goal: nat, acc: nat, t: nat, k: nat) {
    m > 0 ==> Cong(acc * IPow(t, k), goal, m)
  }

  /** An odd exponent moves one factor into the accumulator. */
  lemma TakeOne(m: nat, goal: nat, acc: nat, t: nat, k: nat, acc': nat)
    requires Invariant(m, goal, acc, t, k) && k % 2 == 1
    requires acc' == acc * t || (m > 0 && acc' == (acc * t) % m)
    ensures Invariant(m, goal, acc', t, k - 1)
  {
    hide Cong;
    MulAssoc(acc, t, IPow(t, k - 1));
    if m > 0 {
      CongRefl(acc * t, m);
      CongMod(acc * t, m);
      CongRefl(IPow(t, k - 1), m);
      CongMul(acc', acc * t, IPow(t, k - 1), IPow(t, k - 1), m);
      CongTrans(acc' * IPow(t, k - 1), acc * t * IPow(t, k - 1), goal, m);
    }
  }

  /** An even exponent halves while the base is squared. */
  lemma Halve(m: nat, goal: nat, acc: nat, t: nat, h: nat, t': nat)
    requires Invariant(m, goal, acc, t, 2 * h)
    requires m > 0 ==> t' == (t * t) % m
    ensures Invariant(m, goal, acc, t', h)
  {
    hide Cong, IPow;
    if m > 0 {
      IPowSquare(t, h);
      CongMod(t * t, m);
      CongPow(t', t * t, h, m);
      CongRefl(acc, m);
      CongMul(acc, acc, IPow(t', h), IPow(t * t, h), m);
      CongTrans(acc * IPow(t', h), acc * IPow(t * t, h), goal, m);
    }
  }

  // ---------------------------------------------------------------- constants

  lemma ConstantBits(v: nat)
    ensures v < Pow2(Max(BitLength(v), 1)) && v < BasePow(DivCeil(Max(BitLength(v), 1), LOG2_BASE))
  {
    var n := Max(BitLength(v), 1);
    hide BitLength, Pow2, BasePow;
    BitLengthBounds(v);
    Pow2Mono(BitLength(v), n);
    BasePowIsPow2(DivCeil(n, LOG2_BASE));
    Pow2Mono(n, LOG2_BASE * DivCeil(n, LOG2_BASE));
  }

  lemma DigitBelowModulus(cs: Circuit, d: nat)
    requires cs.Valid() && d < Base()
    ensures d < cs.p
  {
    hide Pow2;
    Pow2Mono(LOG2_BASE, cs.numBits - 1);
  }

  ghost predicate AllCached(fixed: map<nat, nat>, cs: seq<Cell>) {
    forall i :: 0 <= i < |cs| ==> Cached(fixed, cs[i])
  }

  /** A constant, limb by limb, on the cells kept for those limbs. */
  method AssignFixedBigUint(cs: Circuit, v: nat) returns (r: AssignedBigUint)
    requires cs.Valid()
    modifies cs`cells, cs`fixed
    ensures cs.Step() && Good(cs.cells, r) && InRange(r) && Val(r) == v
    ensures r.bounds == BitsBounds(Max(BitLength(v), 1))
    ensures AllCached(cs.fixed, r.limbs)
    ensures forall k :: k in old(cs.fixed) ==> k in cs.fixed && cs.fixed[k] == old(cs.fixed)[k]
  {
    hide Pow2, BasePow, Base, Value, AllOwned, Circuit.Valid, BitLength;
    var nbBits := Max(BitLength(v), 1);
    ConstantBits(v);
    var bounds := BitsBounds(nbBits);
    var digits := BigToLimbs(|bounds|, v);
    var limbs: seq<Cell> := [];
    NormalizeStart(cs.cells, [], []);
    for i := 0 to |bounds|
      invariant cs.Step() && |limbs| == i && AllOwned(cs.cells, limbs) && AllCached(cs.fixed, limbs)
      invariant forall k :: k in old(cs.fixed) ==> k in cs.fixed && cs.fixed[k] == old(cs.fixed)[k]
      invariant forall k :: 0 <= k < i ==> limbs[k].value == digits.value[k]
    {
      DigitBelowModulus(cs, digits.value[i]);
      ghost var before := cs.cells;
      var c := cs.AssignFixed(digits.value[i]);
      OwnedGrows(before, cs.cells, limbs);
      OwnedSnoc(cs.cells, limbs, c);
      limbs := limbs + [c];
    }
    assert Values(limbs) == digits.value;
    BitsBoundsMeaning(digits.value, nbBits);
    r := AssignedBigUint(limbs, bounds);
  }

  // ---------------------------------------------------------------- exponentiation

  ghost function Acc(res: Option<AssignedBigUint>): nat {
    if res.None? then 1 else Val(res.value)
  }

  ghost function BoundsOf(res: Option<AssignedBigUint>): Option<seq<nat>> {
    if res.None? then None else Some(res.value.bounds)
  }

  /** Bounds of the accumulator after the step for exponent k. */
  ghost function NextAcc(k: nat, acc: Option<seq<nat>>, tmp: seq<nat>, rest: seq<nat>): Option<seq<nat>> {
    if k % 2 == 0 then acc else if acc.None? then Some(tmp) else Some(rest)
  }

  /** No step of the loop for exponent k panics, from bounds acc of the accumulator and tmp of the running
      power; rest are the bounds of every remainder modulo m. */
  ghost predicate LoopFits(k: nat, acc: Option<seq<nat>>, tmp: seq<nat>, m: seq<nat>, rest: seq<nat>, numBits: nat) {
    k == 0 ||
    (&& (k % 2 == 1 && acc.Some? ==> ModMulFits(acc.value, tmp, m, false, numBits))
     && (k >= 2 ==>
           ModMulFits(tmp, tmp, m, true, numBits) && LoopFits(k / 2, NextAcc(k, acc, tmp, rest), rest, m, rest, numBits)))
  }

  /** Modular exponentiation does not panic. */
  ghost predicate ExpFits(n: nat, x: seq<nat>, m: seq<nat>, numBits: nat) {
    NbBits(m) >= 1 && LoopFits(n, None, x, m, BitsBounds(NbBits(m)), numBits)
  }

  lemma {:induction false} LoopFitsWhen(k: nat, acc: Option<seq<nat>>, tmp: seq<nat>, m: seq<nat>, rest: seq<nat>, numBits: nat)
    requires Roomy(tmp, numBits) && Roomy(m, numBits) && Roomy(rest, numBits) && (acc.Some? ==> Roomy(acc.value, numBits))
    ensures LoopFits(k, acc, tmp, m, rest, numBits)
  {
    hide Roomy, ModMulFits;
    if k > 0 {
      if acc.Some? {
        ModMulFitsWhen(acc.value, tmp, m, false, numBits);
      }
      ModMulFitsWhen(tmp, tmp, m, true, numBits);
      LoopFitsWhen(k / 2, NextAcc(k, acc, tmp, rest), rest, m, rest, numBits);
    }
  }

  /** Operands of at most NUM_BITS - 194 limbs never make it panic. */
  lemma ExpFitsWhen(n: nat, x: seq<nat>, m: seq<nat>, numBits: nat)
    requires Roomy(x, numBits) && Roomy(m, numBits)
    ensures ExpFits(n, x, m, numBits)
  {
    hide Roomy, LoopFits, NbBits, BitsBounds;
    RemainderRoomy(m, numBits);
    LoopFitsWhen(n, None, x, m, BitsBounds(NbBits(m)), numBits);
  }

  lemma RemainderRoomy(b: seq<nat>, numBits: nat)
    requires Roomy(b, numBits)
    ensures NbBits(b) >= 1 && Roomy(BitsBounds(NbBits(b)), numBits)
  {
    hide NbBits;
    SameLimbs(b);
  }

  lemma OneFactor(acc: nat, t: nat)
    ensures 1 * IPow(t, acc) == IPow(t, acc) && 1 * t == t && acc * IPow(t, 0) == acc
  {}

  /** What the loop keeps about the accumulator and the running power. */
  ghost predicate Running(
      cs: Circuit, res: Option<AssignedBigUint>, tmp: AssignedBigUint, m: AssignedBigUint, distinct: bool)
    reads cs
  {
    && Good(cs.cells, tmp) && Good(cs.cells, m) && (cs.sat ==> InRange(tmp) && InRange(m))
    && (res.Some? ==>
          && Good(cs.cells, res.value) && (cs.sat ==> InRange(res.value))
          && (distinct ==> !ZipEqual(res.value, tmp)))
  }

  /** One accumulation: the running power is copied the first time and multiplied in afterwards. */
  method TakeFactor(cs: Circuit, res: Option<AssignedBigUint>, tmp: AssignedBigUint, m: AssignedBigUint)
    returns (r: Option<AssignedBigUint>)
    requires cs.Valid() && Running(cs, res, tmp, m, true)
    modifies cs
    ensures cs.Step()
    ensures res.None? ==> r == Some(tmp)
    ensures res.Some? && r.Some? ==> ModMulFits(res.value.bounds, tmp.bounds, m.bounds, false, cs.numBits)
    ensures res.Some? && ModMulFits(res.value.bounds, tmp.bounds, m.bounds, false, cs.numBits) ==>
              (cs.honest ==> old(cs.sat) && Val(m) > 0) ==> r.Some?
    ensures r.Some? ==> Running(cs, r, tmp, m, false)
    ensures r.Some? && res.Some? ==> NbBits(m.bounds) >= 1 && r.value.bounds == BitsBounds(NbBits(m.bounds))
    ensures r.Some? && res.Some? && cs.sat ==> Val(m) > 0 && Val(r.value) == (Val(res.value) * Val(tmp)) % Val(m)
    ensures r.Some? && cs.honest && old(cs.sat) ==> cs.sat
  {
    hide Pow2, Circuit.Valid, Total, AllOwned, NbBits, InRange, BitsBounds, ZipEqual, Good, ModMulFits;
    match res
    case None =>
      r := Some(tmp);
    case Some(acc) =>
      ghost var before := cs.cells;
      PositiveBits(before, m);
      r := ModMul(cs, acc, tmp, m);
      GoodGrows(before, cs.cells, tmp);
      GoodGrows(before, cs.cells, m);
  }

  lemma PositiveBits(cells: seq<nat>, m: AssignedBigUint)
    requires Good(cells, m)
    ensures NbBits(m.bounds) >= 1
  {
    hide NbBits;
    OutLimbsEnough(m.bounds);
  }

  /** The running power squared; its cells are new, so it never looks equal to the accumulator. */
  method SquareRunning(cs: Circuit, res: Option<AssignedBigUint>, tmp: AssignedBigUint, m: AssignedBigUint)
    returns (r: Option<AssignedBigUint>)
    requires cs.Valid() && Running(cs, res, tmp, m, false)
    modifies cs
    ensures cs.Step()
    ensures r.Some? ==> ModMulFits(tmp.bounds, tmp.bounds, m.bounds, true, cs.numBits) && (cs.honest ==> Val(m) > 0)
    ensures ModMulFits(tmp.bounds, tmp.bounds, m.bounds, true, cs.numBits) ==>
              (cs.honest ==> old(cs.sat) && Val(m) > 0) ==> r.Some?
    ensures r.Some? ==> Running(cs, res, r.value, m, true)
    ensures r.Some? ==> NbBits(m.bounds) >= 1 && r.value.bounds == BitsBounds(NbBits(m.bounds))
    ensures r.Some? && cs.sat ==> Val(m) > 0 && Val(r.value) == (Val(tmp) * Val(tmp)) % Val(m)
    ensures r.Some? && cs.honest && old(cs.sat) ==> cs.sat
  {
    hide Pow2, Circuit.Valid, Total, AllOwned, NbBits, InRange, BitsBounds, ZipEqual, ModMulFits;
    ghost var before := cs.cells;
    PositiveBits(before, m);
    r := ModSquare(cs, tmp, m);
    GoodGrows(before, cs.cells, m);
    if r.Some? && res.Some? {
      GoodGrows(before, cs.cells, res.value);
      FreshDiffers(before, r.value, res.value);
    }
  }

  /** When a value that follows the three cases of the code is the power modulo m. */
  lemma IsPowerWhen(n: nat, x: nat, m: nat, v: nat)
    requires m > 0
    requires v == (if n == 0 then 1 else if n == 1 then x else IPow(x, n) % m)
    ensures v == IPow(x, n) % m <==> n >= 2 || (n == 0 && m > 1) || (n == 1 && x < m)
  {
    if n == 0 {
      assert IPow(x, 0) == 1;
      if m > 1 {
        ModSmall(1, m);
      }
    } else if n == 1 {
      assert IPow(x, 1) == x * IPow(x, 0) == x;
      DivMod(x, m);
      if x < m {
        ModSmall(x, m);
      }
    }
  }

  /** x^n by squaring and multiplying modulo m. For n == 0 and n == 1 nothing is reduced, so the result is
      the power modulo m exactly in the cases of the last clause. */
  method ModExp(cs: Circuit, x: AssignedBigUint, n: nat, m: AssignedBigUint) returns (r: Option<AssignedBigUint>)
    requires cs.Valid() && Good(cs.cells, x) && Good(cs.cells, m) && (cs.sat ==> InRange(x) && InRange(m))
    modifies cs
    ensures cs.Step()
    ensures r.Some? ==> ExpFits(n, x.bounds, m.bounds, cs.numBits) && (cs.honest && n >= 2 ==> Val(m) > 0)
    ensures ExpFits(n, x.bounds, m.bounds, cs.numBits) ==> (cs.honest && n >= 2 ==> old(cs.sat) && Val(m) > 0) ==> r.Some?
    ensures r.Some? ==> Good(cs.cells, r.value) && (cs.sat ==> InRange(r.value))
    ensures n == 0 ==> r.Some? && Val(r.value) == 1
    ensures n == 1 ==> r == Some(x)
    ensures n >= 2 && r.Some? && cs.sat ==> Val(m) > 0 && Val(r.value) == IPow(Val(x), n) % Val(m)
    ensures r.Some? && cs.honest && old(cs.sat) ==> cs.sat
    ensures r.Some? && cs.sat && Val(m) > 0 ==>
              (Val(r.value) == IPow(Val(x), n) % Val(m) <==>
               n >= 2 || (n == 0 && Val(m) > 1) || (n == 1 && Val(x) < Val(m)))
  {
    hide Circuit.Valid, Total, Good, InRange, Invariant, IPow, Running, BitsBounds, LoopFits, NbBits, ModMulFits;
    PositiveBits(cs.cells, m);
    ghost var rest := BitsBounds(NbBits(m.bounds));
    FitsZero(None, x.bounds, m.bounds, rest, cs.numBits);
    if n == 0 {
      var one := AssignFixedBigUint(cs, 1);
      if Val(m) > 0 {
        IsPowerWhen(n, Val(x), Val(m), 1);
      }
      return Some(one);
    }
    ghost var fits := LoopFits(n, None, x.bounds, m.bounds, rest, cs.numBits);
    ghost var goal := IPow(Val(x), n);
    var k: nat := n;
    var tmp := x;
    var res: Option<AssignedBigUint> := None;
    Begin(cs, x, n, m);
    while k > 0
      invariant cs.Step() && k <= n
      invariant cs.honest && old(cs.sat) ==> cs.sat
      invariant Running(cs, res, tmp, m, k > 0)
      invariant fits <==> LoopFits(k, BoundsOf(res), tmp.bounds, m.bounds, rest, cs.numBits)
      invariant k == n ==> tmp == x && res.None?
      invariant k == 0 ==> res.Some? && (n == 1 ==> res == Some(x))
      invariant cs.honest && k < n && n >= 2 ==> Val(m) > 0
      invariant cs.sat && k < n && n >= 2 ==> Val(m) > 0 && (if k > 0 then Val(tmp) else Acc(res)) < Val(m)
      invariant cs.sat ==> Invariant(Val(m), goal, Acc(res), Val(tmp), k)
    {
      ghost var acc, was := Acc(res), BoundsOf(res);
      FitsStep(k, was, tmp.bounds, m.bounds, rest, cs.numBits);
      if k % 2 == 1 {
        res := TakeFactor(cs, res, tmp, m);
        if res.None? {
          return None;
        }
        if cs.sat {
          OneFactor(1, Val(tmp));
          TakeOne(Val(m), goal, acc, Val(tmp), k, Acc(res));
        }
      } else {
        Loosen(cs, res, tmp, m);
      }
      k := k / 2;
      if k > 0 {
        ghost var t := tmp;
        var sq := SquareRunning(cs, res, tmp, m);
        if sq.None? {
          return None;
        }
        tmp := sq.value;
        if cs.sat {
          Halve(Val(m), goal, Acc(res), Val(t), k, Val(tmp));
        }
      }
      FitsZero(BoundsOf(res), tmp.bounds, m.bounds, rest, cs.numBits);
    }
    FitsZero(BoundsOf(res), tmp.bounds, m.bounds, rest, cs.numBits);
    r := res;
    Finish(cs, res, tmp, m, goal);
    if cs.sat && Val(m) > 0 {
      IsPowerWhen(n, Val(x), Val(m), Val(r.value));
    }
  }

  lemma FitsZero(acc: Option<seq<nat>>, tmp: seq<nat>, m: seq<nat>, rest: seq<nat>, numBits: nat)
    ensures LoopFits(0, acc, tmp, m, rest, numBits)
  {}

  lemma FitsStep(k: nat, acc: Option<seq<nat>>, tmp: seq<nat>, m: seq<nat>, rest: seq<nat>, numBits: nat)
    requires k > 0
    ensures LoopFits(k, acc, tmp, m, rest, numBits) <==>
              && (k % 2 == 1 && acc.Some? ==> ModMulFits(acc.value, tmp, m, false, numBits))
              && (k >= 2 ==>
                    ModMulFits(tmp, tmp, m, true, numBits) && LoopFits(k / 2, NextAcc(k, acc, tmp, rest), rest, m, rest, numBits))
  {
    hide ModMulFits;
  }

  lemma Begin(cs: Circuit, x: AssignedBigUint, n: nat, m: AssignedBigUint)
    requires Good(cs.cells, x) && Good(cs.cells, m) && (cs.sat ==> InRange(x) && InRange(m))
    ensures Running(cs, None, x, m, true)
    ensures Invariant(Val(m), IPow(Val(x), n), 1, Val(x), n)
  {
    hide IPow, Total;
    if Val(m) > 0 {
      CongRefl(IPow(Val(x), n), Val(m));
    }
  }

  lemma Loosen(cs: Circuit, res: Option<AssignedBigUint>, tmp: AssignedBigUint, m: AssignedBigUint)
    requires Running(cs, res, tmp, m, true)
    ensures Running(cs, res, tmp, m, false)
  {}

  lemma Finish(cs: Circuit, res: Option<AssignedBigUint>, tmp: AssignedBigUint, m: AssignedBigUint, goal: nat)
    requires Running(cs, res, tmp, m, false) && res.Some?
    requires cs.sat ==> Invariant(Val(m), goal, Acc(res), Val(tmp), 0)
    ensures Good(cs.cells, res.value) && (cs.sat ==> InRange(res.value))
    ensures cs.sat && Val(m) > 0 && Acc(res) < Val(m) ==> Acc(res) == goal % Val(m)
  {
    hide Total, Good;
    if cs.sat && Val(m) > 0 && Acc(res) < Val(m) {
      OneFactor(Acc(res), Val(tmp));
      CongModEq(Acc(res), goal, Val(m));
      ModSmall(Acc(res), Val(m));
    }
  }
}
