/** Normalization and addition of the big-integer gadget
    (circuits/src/biguint/biguint_gadget.rs). Every method states what holds of its result under
    each assignment that satisfies its constraints, and that the honest assignment satisfies them. */
module BigUint {
  import opened Numbers
  import opened BigNat
  import opened LimbBounds
  import opened Circuits
  import opened Wrappers

  datatype AssignedBigUint = AssignedBigUint(limbs: seq<Cell>, bounds: seq<nat>)

  /** Non-empty, every bound at least one bit, and every limb a cell of the circuit. */
  ghost predicate Good(cells: seq<nat>, x: AssignedBigUint) {
    && |x.limbs| == |x.bounds| >= 1
    && (forall i :: 0 <= i < |x.bounds| ==> x.bounds[i] >= 1)
    && AllOwned(cells, x.limbs)
  }

  lemma GoodGrows(cells: seq<nat>, more: seq<nat>, x: AssignedBigUint)
    requires cells <= more && Good(cells, x)
    ensures Good(more, x)
  {
    OwnedGrows(cells, more, x.limbs);
  }

  ghost predicate InRange(x: AssignedBigUint) {
    Within(Values(x.limbs), x.bounds)
  }

  ghost function Val(x: AssignedBigUint): nat {
    Total(Values(x.limbs))
  }

  // ---------------------------------------------------------------- native division by the base

  lemma NoWrap(cs: Circuit, x: nat, b: nat)
    requires cs.Valid() && b < cs.numBits && x < Pow2(b)
    ensures x % cs.p == x
  {
    Pow2Mono(b, cs.numBits - 1);
    ModSmall(x, cs.p);
  }

  lemma QuotientBound(v: nat, q: nat, r: nat, bound: nat)
    requires v == Base() * q + r && r < Base()
    ensures v < Pow2(bound) ==> q < Pow2(ShiftedBound(bound))
    ensures q < Pow2(ShiftedBound(bound)) ==> v < Pow2(Max(bound, LOG2_BASE))
  {
    hide Pow2;
    var s := ShiftedBound(bound);
    Pow2Add(LOG2_BASE, s);
    Pow2Mono(bound, Max(bound, LOG2_BASE));
    TopLimb(r, q, Base(), Pow2(s));
  }

  /** Range-checked parts recombine without wrapping around the modulus. */
  lemma RecombineExact(cs: Circuit, q: nat, r: nat, bound: nat)
    requires cs.Valid() && bound < cs.numBits && q < Pow2(ShiftedBound(bound)) && r < Base()
    ensures (Base() * q + r) % cs.p == Base() * q + r
  {
    hide Pow2;
    MulLe(Base(), 0, q);
    var v := Base() * q + r;
    QuotientBound(v, q, r, bound);
    NoWrap(cs, v, Max(bound, LOG2_BASE));
  }

  /** The quotient and remainder that the prover computes pass their range checks. */
  lemma HonestQuotient(cs: Circuit, x: nat, bound: nat)
    requires cs.Valid() && bound < cs.numBits && x < Pow2(bound)
    ensures var q, r := x / Pow2(LOG2_BASE), x % Pow2(LOG2_BASE);
            && 0 <= q == q % cs.p < Pow2(ShiftedBound(bound))
            && 0 <= r == r % cs.p < Base()
            && x == Base() * q + r
  {
    hide Pow2;
    DivMod(x, Pow2(LOG2_BASE));
    DivNonNegative(x, Pow2(LOG2_BASE));
    var q, r := x / Pow2(LOG2_BASE), x % Pow2(LOG2_BASE);
    QuotientBound(x, q, r, bound);
    Pow2Mono(ShiftedBound(bound), Max(bound, LOG2_BASE));
    NoWrap(cs, q, Max(bound, LOG2_BASE));
    NoWrap(cs, r, LOG2_BASE);
  }

  /** (q, r) with x == q * base + r over the integers and r below the base. */
  method DivRemNativeByBase(cs: Circuit, x: Cell, bound: nat) returns (q: Cell, r: Cell)
    requires cs.Valid() && bound < cs.numBits
    requires cs.sat ==> x.value < Pow2(bound)
    modifies cs
    ensures cs.Step() && Owned(cs.cells, q) && Owned(cs.cells, r)
    ensures cs.sat ==> x.value == Base() * q.value + r.value && r.value < Base()
    ensures cs.sat ==> q.value < Pow2(ShiftedBound(bound))
    ensures cs.honest && old(cs.sat) ==> cs.sat
  {
    hide Pow2, Circuit.Valid;
    if cs.sat {
      HonestQuotient(cs, x.value, bound);
    }
    DivNonNegative(x.value, Pow2(LOG2_BASE));
    q := cs.AssignLowerThan(x.value / Pow2(LOG2_BASE), Pow2(ShiftedBound(bound)));
    r := cs.AssignLowerThan(x.value % Pow2(LOG2_BASE), Pow2(LOG2_BASE));
    var s := cs.ShiftAdd(q, r);
    if cs.sat {
      RecombineExact(cs, q.value, r.value, bound);
    }
    cs.AssertEqual(x, s);
  }

  // ---------------------------------------------------------------- normalization

  /** Pads with zero limbs; fails when there are more than n limbs. */
  method Resize(cs: Circuit, n: nat, x: AssignedBigUint) returns (r: Option<AssignedBigUint>)
    requires cs.Valid() && |x.limbs| == |x.bounds| && AllOwned(cs.cells, x.limbs)
    modifies cs`cells, cs`fixed
    ensures cs.Step()
    ensures r.Some? <==> |x.limbs| <= n
    ensures r.Some? ==> |r.value.limbs| == n && r.value.bounds == Padded(x.bounds, n) && AllOwned(cs.cells, r.value.limbs)
    ensures r.Some? ==> forall i :: 0 <= i < n ==> r.value.limbs[i].value == (if i < |x.limbs| then x.limbs[i].value else 0)
    ensures r.Some? ==> Val(r.value) == Val(x) && (InRange(x) ==> InRange(r.value))
  {
    hide Value;
    if |x.limbs| > n {
      return None;
    }
    cs.Modulus();
    var zero := cs.AssignFixed(0);
    var pad := seq(n - |x.limbs|, _ => zero);
    var limbs := x.limbs + pad;
    r := Some(AssignedBigUint(limbs, Padded(x.bounds, n)));
    ValueZeros(Values(limbs), |x.limbs|, n);
    ValueSame(Values(limbs), Values(x.limbs), |x.limbs|);
  }

  /** Limb i and its carry out are the division of limb i plus its carry in. */
  ghost predicate Chain(xs: seq<nat>, ls: seq<nat>, cs: seq<nat>, n: nat) {
    && n == |ls| <= |xs| && |cs| == n + 1 && cs[0] == 0
    && forall i :: 0 <= i < n ==> cs[i] + xs[i] == Base() * cs[i + 1] + ls[i] && ls[i] < Base()
  }

  lemma ChainExtend(xs: seq<Cell>, ls: seq<Cell>, cs: seq<nat>, limb: Cell, q: Cell)
    requires |ls| < |xs| && Chain(Values(xs), Values(ls), cs, |ls|)
    requires cs[|ls|] + xs[|ls|].value == Base() * q.value + limb.value && limb.value < Base()
    ensures Chain(Values(xs), Values(ls + [limb]), cs + [q.value], |ls| + 1)
  {
    hide Base;
  }

  lemma NormalizeStart(cells: seq<nat>, xs: seq<nat>, bounds: seq<nat>)
    ensures Chain(xs, Values([]), [0], 0) && AllOwned(cells, []) && CarryBound(bounds, 0) == 0
  {}

  lemma OwnedSnoc(cells: seq<nat>, cs: seq<Cell>, c: Cell)
    requires Owned(cells, c)
    ensures AllOwned(cells, cs) ==> AllOwned(cells, cs + [c])
  {}

  lemma BoundStep(bounds: seq<nat>, i: nat)
    requires i < |bounds|
    ensures PayloadBound(bounds, i) == BoundOfAddition(CarryBound(bounds, i), bounds[i])
    ensures CarryBound(bounds, 0) == 0 && CarryBound(bounds, i + 1) == ShiftedBound(PayloadBound(bounds, i))
  {}

  lemma ChainEnd(xs: seq<nat>, ls: seq<nat>, cs: seq<nat>, bounds: seq<nat>, orig: seq<nat>)
    requires Chain(xs, ls, cs, |xs|) && Within(orig, bounds) && |xs| == OutLimbs(bounds) && Total(orig) == Total(xs)
    ensures Total(ls) == Total(xs) && cs[|xs|] == 0
    ensures Within(ls, seq(|xs|, _ => LOG2_BASE))
  {
    hide Value, BasePow, OutLimbs, Pow2;
    CarryChain(xs, ls, cs, |xs|);
    ValueFits(orig, bounds);
    if cs[|xs|] > 0 {
      MulLe(BasePow(|xs|), 1, cs[|xs|]);
    }
  }

  /** Splits every limb plus its carry in, from the least significant one. */
  method PropagateCarries(cs: Circuit, y: AssignedBigUint)
    returns (r: Option<seq<Cell>>, carry: Cell, ghost cseq: seq<nat>)
    requires cs.Valid() && |y.limbs| == |y.bounds| && (cs.sat ==> InRange(y))
    modifies cs
    ensures cs.Step()
    ensures r.Some? <==> CarriesFit(y.bounds, cs.numBits)
    ensures r.Some? ==> |r.value| == |y.limbs| && AllOwned(cs.cells, r.value) && |cseq| > |y.limbs| && cseq[|y.limbs|] == carry.value
    ensures r.Some? && cs.sat ==> Chain(Values(y.limbs), Values(r.value), cseq, |y.limbs|)
    ensures r.Some? && cs.honest && old(cs.sat) ==> cs.sat
  {
    hide Value, Base, Pow2, PayloadBound, CarryBound, Chain, Circuit.Valid, AllOwned;
    cs.Modulus();
    carry := cs.AssignFixed(0);
    var carryBound := 0;
    var limbs: seq<Cell> := [];
    cseq := [0];
    NormalizeStart(cs.cells, Values(y.limbs), y.bounds);
    for i := 0 to |y.limbs|
      invariant cs.Step() && AllOwned(cs.cells, limbs) && |limbs| == i
      invariant carryBound == CarryBound(y.bounds, i)
      invariant forall k :: 0 <= k < i ==> PayloadBound(y.bounds, k) < cs.numBits
      invariant |cseq| == i + 1 && cseq[i] == carry.value
      invariant cs.sat ==> Chain(Values(y.limbs), Values(limbs), cseq, i) && carry.value < Pow2(carryBound)
      invariant cs.honest && old(cs.sat) ==> cs.sat
    {
      ghost var before := cs.cells;
      BoundStep(y.bounds, i);
      var payload := cs.Add(carry, y.limbs[i]);
      var payloadBound := BoundOfAddition(carryBound, y.bounds[i]);
      if payloadBound >= cs.numBits {
        return None, carry, cseq;
      }
      if cs.sat {
        BoundOfSum(carryBound, y.bounds[i], carry.value, y.limbs[i].value);
        NoWrap(cs, carry.value + y.limbs[i].value, payloadBound);
      }
      var q, limb := DivRemNativeByBase(cs, payload, payloadBound);
      if cs.sat {
        ChainExtend(y.limbs, limbs, cseq, limb, q);
      }
      OwnedGrows(before, cs.cells, limbs);
      OwnedSnoc(cs.cells, limbs, limb);
      limbs := limbs + [limb];
      carryBound := ShiftedBound(payloadBound);
      carry := q;
      cseq := cseq + [q.value];
    }
    r := Some(limbs);
  }

  /** The same number with every limb below the base. */
  method Normalize(cs: Circuit, x: AssignedBigUint) returns (r: Option<AssignedBigUint>)
    requires cs.Valid() && Good(cs.cells, x) && (cs.sat ==> InRange(x))
    modifies cs
    ensures cs.Step()
    ensures r.Some? <==> NormFits(x.bounds, cs.numBits)
    ensures r.Some? ==> Good(cs.cells, r.value) && r.value.bounds == NormBounds(x.bounds)
    ensures r.Some? && cs.sat ==> InRange(r.value) && Val(r.value) == Val(x)
    ensures r.Some? && cs.honest && old(cs.sat) ==> cs.sat
  {
    hide Value, Base, Pow2, OutLimbs, CarriesFit, Chain, Circuit.Valid, AllOwned, Within;
    if Normalized(x.bounds) {
      return Some(x);
    }
    var n := OutLimbs(x.bounds);
    OutLimbsEnough(x.bounds);
    var resized := Resize(cs, n, x);
    var limbs, carry, cseq := PropagateCarries(cs, resized.value);
    if limbs.None? {
      return None;
    }
    if cs.sat {
      ChainEnd(Values(resized.value.limbs), Values(limbs.value), cseq, x.bounds, Values(x.limbs));
    }
    cs.AssertEqualToFixed(carry, 0);
    r := Some(AssignedBigUint(limbs.value, seq(n, _ => LOG2_BASE)));
  }

  // ---------------------------------------------------------------- columns that may have wrapped

  /** Each cell holds its column sum modulo p, and the sum respects its bound. */
  ghost predicate Tracks(p: nat, limbs: seq<Cell>, sums: seq<nat>, bounds: seq<nat>)
    requires p > 0
  {
    && |limbs| == |sums| == |bounds|
    && (forall k :: 0 <= k < |limbs| ==> limbs[k].value == sums[k] % p)
    && Within(sums, bounds)
  }

  lemma TracksInRange(p: nat, limbs: seq<Cell>, sums: seq<nat>, bounds: seq<nat>)
    requires p > 0 && Tracks(p, limbs, sums, bounds)
    ensures Within(Values(limbs), bounds)
  {
    hide Pow2;
    forall k | 0 <= k < |limbs|
      ensures limbs[k].value < Pow2(bounds[k])
    {
      DivMod(sums[k], p);
      DivNonNegative(sums[k], p);
      MulLe(p, 0, sums[k] / p);
    }
  }

  /** Bounds below the size of the modulus exclude any wraparound. */
  lemma TracksExact(cs: Circuit, limbs: seq<Cell>, sums: seq<nat>, bounds: seq<nat>)
    requires cs.Valid() && cs.p > 0 && Tracks(cs.p, limbs, sums, bounds)
    requires forall k :: 0 <= k < |bounds| ==> bounds[k] < cs.numBits
    ensures Values(limbs) == sums
  {
    hide Pow2, Circuit.Valid;
    forall k | 0 <= k < |limbs|
      ensures limbs[k].value == sums[k]
    {
      NoWrap(cs, sums[k], bounds[k]);
    }
  }

  /** Normalizes columns: over the integers the result is their weighted sum. */
  method NormalizeColumns(cs: Circuit, z: AssignedBigUint, ghost sums: seq<nat>) returns (r: Option<AssignedBigUint>)
    requires cs.Valid() && cs.p > 0 && Good(cs.cells, z) && (cs.sat ==> Tracks(cs.p, z.limbs, sums, z.bounds))
    modifies cs
    ensures cs.Step()
    ensures r.Some? <==> NormFits(z.bounds, cs.numBits)
    ensures r.Some? ==> Good(cs.cells, r.value) && r.value.bounds == NormBounds(z.bounds)
    ensures r.Some? && cs.sat ==> InRange(r.value) && Val(r.value) == Total(sums)
    ensures r.Some? && cs.honest && old(cs.sat) ==> cs.sat
  {
    hide Pow2, Circuit.Valid, Total, Tracks, NormFits;
    if cs.sat {
      TracksInRange(cs.p, z.limbs, sums, z.bounds);
    }
    r := Normalize(cs, z);
    if r.Some? && cs.sat {
      FitsBelow(cs, z.bounds);
      TracksExact(cs, z.limbs, sums, z.bounds);
    }
  }

  lemma FitsBelow(cs: Circuit, bounds: seq<nat>)
    requires cs.Valid() && NormFits(bounds, cs.numBits) && |bounds| > 0 && bounds[|bounds| - 1] >= 1
    ensures forall k :: 0 <= k < |bounds| ==> bounds[k] < cs.numBits
  {
    hide NormFits, Pow2;
    NormFitsWhen(bounds, cs.numBits);
  }

  // ---------------------------------------------------------------- addition

  function At(s: seq<nat>, i: nat): nat {
    if i < |s| then s[i] else 0
  }

  function AddBounds(a: seq<nat>, b: seq<nat>): (r: seq<nat>) {
    seq(Max(|a|, |b|), i requires i >= 0 => BoundOfAddition(At(a, i), At(b, i)))
  }

  /** Each tracked bound is the least one for the sum of the two limbs, a missing limb counting as zero. */
  lemma AddBoundsIsLeast(a: seq<nat>, b: seq<nat>, i: nat, c: nat)
    requires i < |a| || i < |b|
    ensures |AddBounds(a, b)| == if |a| >= |b| then |a| else |b|
    ensures AddBounds(a, b)[i] <= c <==>
            (if i < |a| then Pow2(a[i]) - 1 else 0) + (if i < |b| then Pow2(b[i]) - 1 else 0) < Pow2(c)
  {
    PowZero();
    hide Pow2;
    BoundIsLeast(At(a, i), At(b, i), c);
  }

  lemma ValuePadded(xs: seq<nat>, n: nat)
    requires n >= |xs|
    ensures Value(Padded(xs, n), n) == Total(xs)
  {
    hide Value;
    ValueZeros(Padded(xs, n), |xs|, n);
    ValueSame(Padded(xs, n), xs, |xs|);
  }

  /** The column sums of two limb vectors. */
  ghost function AddSums(xs: seq<nat>, ys: seq<nat>): (r: seq<nat>) {
    seq(Max(|xs|, |ys|), i requires i >= 0 => At(xs, i) + At(ys, i))
  }

  lemma AddSumsTotal(xs: seq<nat>, ys: seq<nat>)
    ensures Total(AddSums(xs, ys)) == Total(xs) + Total(ys)
  {
    hide Value;
    var n := Max(|xs|, |ys|);
    ValuePadded(xs, n);
    ValuePadded(ys, n);
    ValueAdd(Padded(xs, n), Padded(ys, n), AddSums(xs, ys), n);
  }

  lemma AddTracks(p: nat, limbs: seq<Cell>, x: AssignedBigUint, y: AssignedBigUint)
    requires p > 0 && InRange(x) && InRange(y)
    requires |limbs| == Max(|x.limbs|, |y.limbs|)
    requires forall i :: 0 <= i < |limbs| ==> limbs[i].value == (At(Values(x.limbs), i) + At(Values(y.limbs), i)) % p
    ensures Tracks(p, limbs, AddSums(Values(x.limbs), Values(y.limbs)), AddBounds(x.bounds, y.bounds))
  {
    hide Pow2, BoundOfAddition;
    var sums, bounds := AddSums(Values(x.limbs), Values(y.limbs)), AddBounds(x.bounds, y.bounds);
    assert Pow2(0) == 1 by { PowZero(); }
    forall i | 0 <= i < |limbs|
      ensures sums[i] < Pow2(bounds[i])
    {
      BoundOfSum(At(x.bounds, i), At(y.bounds, i), At(Values(x.limbs), i), At(Values(y.limbs), i));
    }
  }

  lemma PowZero()
    ensures Pow2(0) == 1
  {}

  /** Columns of a sum: n added cells, then the tail of the longer operand. */
  ghost predicate AddColumns(p: nat, z: AssignedBigUint, x: AssignedBigUint, y: AssignedBigUint, n: nat)
    requires p > 0 && n <= |x.limbs| == |x.bounds| && n <= |y.limbs| == |y.bounds|
  {
    && |z.limbs| == |z.bounds| == n
    && (forall k :: 0 <= k < n ==> z.limbs[k].value == (x.limbs[k].value + y.limbs[k].value) % p)
    && (forall k :: 0 <= k < n ==> z.bounds[k] == BoundOfAddition(x.bounds[k], y.bounds[k]))
  }

  lemma AddTail(cs: Circuit, z: AssignedBigUint, x: AssignedBigUint, y: AssignedBigUint, w: AssignedBigUint)
    requires cs.Valid() && cs.p > 0 && Good(cs.cells, x) && Good(cs.cells, y) && AllOwned(cs.cells, z.limbs)
    requires |x.limbs| >= |y.limbs| && AddColumns(cs.p, z, x, y, |y.limbs|)
    requires w == AssignedBigUint(z.limbs + x.limbs[|y.limbs|..], z.bounds + x.bounds[|y.limbs|..])
    ensures w.bounds == AddBounds(x.bounds, y.bounds) == AddBounds(y.bounds, x.bounds) && Good(cs.cells, w)
    ensures forall i :: 0 <= i < |w.limbs| ==>
              w.limbs[i].value == (At(Values(x.limbs), i) + At(Values(y.limbs), i)) % cs.p
  {
    hide Pow2;
    forall i | |y.limbs| <= i < |w.limbs|
      ensures w.limbs[i].value == x.limbs[i].value == x.limbs[i].value % cs.p
    {
      assert Owned(cs.cells, x.limbs[i]);
      ModSmall(x.limbs[i].value, cs.p);
    }
  }

  lemma AddColumnsStart(p: nat, x: AssignedBigUint, y: AssignedBigUint)
    requires p > 0 && |x.limbs| == |x.bounds| && |y.limbs| == |y.bounds|
    ensures AddColumns(p, AssignedBigUint([], []), x, y, 0)
  {}

  lemma AddColumnsStep(p: nat, z: AssignedBigUint, x: AssignedBigUint, y: AssignedBigUint, n: nat, c: Cell)
    requires p > 0 && n < |x.limbs| == |x.bounds| && n < |y.limbs| == |y.bounds| && AddColumns(p, z, x, y, n)
    requires c.value == (x.limbs[n].value + y.limbs[n].value) % p
    ensures AddColumns(p, AssignedBigUint(z.limbs + [c], z.bounds + [BoundOfAddition(x.bounds[n], y.bounds[n])]), x, y, n + 1)
  {
    hide BoundOfAddition;
  }

  /** The columns that both operands have. */
  method AddCommon(cs: Circuit, x: AssignedBigUint, y: AssignedBigUint, n: nat) returns (z: AssignedBigUint)
    requires cs.Valid() && cs.p > 0 && n <= |x.limbs| == |x.bounds| && n <= |y.limbs| == |y.bounds|
    modifies cs`cells
    ensures cs.Step() && AllOwned(cs.cells, z.limbs) && AddColumns(cs.p, z, x, y, n)
  {
    hide Pow2, Circuit.Valid, AllOwned, AddColumns, BoundOfAddition;
    var limbs: seq<Cell> := [];
    var bounds: seq<nat> := [];
    NormalizeStart(cs.cells, [], []);
    AddColumnsStart(cs.p, x, y);
    for i := 0 to n
      invariant cs.Step() && AllOwned(cs.cells, limbs)
      invariant AddColumns(cs.p, AssignedBigUint(limbs, bounds), x, y, i)
    {
      ghost var before := cs.cells;
      var c := cs.Add(x.limbs[i], y.limbs[i]);
      OwnedGrows(before, cs.cells, limbs);
      OwnedSnoc(cs.cells, limbs, c);
      AddColumnsStep(cs.p, AssignedBigUint(limbs, bounds), x, y, i, c);
      limbs := limbs + [c];
      bounds := bounds + [BoundOfAddition(x.bounds[i], y.bounds[i])];
    }
    z := AssignedBigUint(limbs, bounds);
  }

  /** The columns do not depend on the order of the operands. */
  lemma AddColumnsSwap(p: nat, z: AssignedBigUint, x: AssignedBigUint, y: AssignedBigUint, n: nat)
    requires p > 0 && n <= |x.limbs| == |x.bounds| && n <= |y.limbs| == |y.bounds| && AddColumns(p, z, x, y, n)
    ensures AddColumns(p, z, y, x, n)
  {}

  method AddLimbs(cs: Circuit, x: AssignedBigUint, y: AssignedBigUint) returns (z: AssignedBigUint)
    requires cs.Valid() && cs.p > 0 && Good(cs.cells, x) && Good(cs.cells, y)
    modifies cs`cells
    ensures cs.Step() && Good(cs.cells, z) && z.bounds == AddBounds(x.bounds, y.bounds)
    ensures forall i :: 0 <= i < |z.limbs| ==>
              z.limbs[i].value == (At(Values(x.limbs), i) + At(Values(y.limbs), i)) % cs.p
  {
    hide Pow2, Circuit.Valid, AddBounds, AllOwned, AddColumns, At;
    var n := if |x.limbs| <= |y.limbs| then |x.limbs| else |y.limbs|;
    var front := AddCommon(cs, x, y, n);
    OwnedGrows(old(cs.cells), cs.cells, x.limbs);
    OwnedGrows(old(cs.cells), cs.cells, y.limbs);
    if |x.limbs| >= |y.limbs| {
      z := AssignedBigUint(front.limbs + x.limbs[n..], front.bounds + x.bounds[n..]);
      AddTail(cs, front, x, y, z);
    } else {
      z := AssignedBigUint(front.limbs + y.limbs[n..], front.bounds + y.bounds[n..]);
      AddColumnsSwap(cs.p, front, x, y, n);
      AddTail(cs, front, y, x, z);
      SumsSwap(cs.p, x, y, z.limbs);
    }
  }

  lemma SumsSwap(p: nat, x: AssignedBigUint, y: AssignedBigUint, limbs: seq<Cell>)
    requires p > 0
    requires forall i :: 0 <= i < |limbs| ==> limbs[i].value == (At(Values(y.limbs), i) + At(Values(x.limbs), i)) % p
    ensures forall i :: 0 <= i < |limbs| ==> limbs[i].value == (At(Values(x.limbs), i) + At(Values(y.limbs), i)) % p
  {
    hide At;
  }

  method Add(cs: Circuit, x: AssignedBigUint, y: AssignedBigUint) returns (r: Option<AssignedBigUint>)
    requires cs.Valid() && Good(cs.cells, x) && Good(cs.cells, y) && (cs.sat ==> InRange(x) && InRange(y))
    modifies cs
    ensures cs.Step()
    ensures r.Some? <==> NormFits(AddBounds(x.bounds, y.bounds), cs.numBits)
    ensures r.Some? ==> Good(cs.cells, r.value) && r.value.bounds == NormBounds(AddBounds(x.bounds, y.bounds))
    ensures r.Some? && cs.sat ==> InRange(r.value) && Val(r.value) == Val(x) + Val(y)
    ensures r.Some? && cs.honest && old(cs.sat) ==> cs.sat
  {
    hide Pow2, Total, NormFits, NormBounds, Within, Tracks, AllOwned, Circuit.Valid;
    cs.Modulus();
    var z := AddLimbs(cs, x, y);
    ghost var sums := AddSums(Values(x.limbs), Values(y.limbs));
    if cs.sat {
      AddTracks(cs.p, z.limbs, x, y);
    }
    AddSumsTotal(Values(x.limbs), Values(y.limbs));
    r := NormalizeColumns(cs, z, sums);
  }
}
