/** Multiplication and squaring of the big-integer gadget
    (circuits/src/biguint/biguint_gadget.rs, mul and square). */
module BigUintMul {
  import opened Numbers
  import opened BigNat
  import opened LimbBounds
  import opened ProductBounds
  import opened Circuits
  import opened BigUint
  import opened Wrappers

  // ---------------------------------------------------------------- one column update

  lemma ModAdd(a: nat, d: nat, p: nat)
    requires p > 0
    ensures (a % p + d) % p == (a + d) % p
  {
    CongMod(a, p);
    CongRefl(d, p);
    CongAdd(a % p, a, d, d, p);
    CongModEq(a % p + d, a + d, p);
  }

  /** Adding a term to one column keeps cells, sums and bounds in step. */
  lemma TracksAdd(p: nat, limbs: seq<Cell>, sums: seq<nat>, bounds: seq<nat>, k: nat, c: Cell, d: nat, pb: nat)
    requires p > 0 && Tracks(p, limbs, sums, bounds) && k < |limbs| && d < Pow2(pb)
    requires c.value == (limbs[k].value + d) % p
    ensures Tracks(p, limbs[k := c], sums[k := sums[k] + d], bounds[k := BoundOfAddition(bounds[k], pb)])
  {
    hide Pow2;
    ModAdd(sums[k], d, p);
    BoundOfSum(bounds[k], pb, sums[k], d);
  }

  lemma OwnedUpdate(cells: seq<nat>, cs: seq<Cell>, k: nat, c: Cell)
    requires Owned(cells, c) && k < |cs| && AllOwned(cells, cs)
    ensures AllOwned(cells, cs[k := c])
  {}

  lemma ZeroColumns(p: nat, n: nat, zero: Cell)
    requires p > 0 && zero.value == 0
    ensures Tracks(p, seq(n, _ => zero), seq(n, _ => 0), seq(n, _ => 0)) && Total(seq(n, _ => 0)) == 0
  {
    ModSmall(0, p);
    ValueZeros(seq(n, _ => 0), 0, n);
  }

  // ---------------------------------------------------------------- the sums of the product

  /** a * w added to column i + j, in terms of the operands' values. */
  lemma ProductStep(v: nat, t: nat, x: nat, y: nat, wi: nat, wj: nat, u: nat)
    ensures v * t + x * wi * (u + y * wj) == v * t + x * wi * u + x * y * (wi * wj)
  {
    assert x * wi * (u + y * wj) == x * wi * u + x * wi * (y * wj);
    MulAssoc(x * wi, y, wj);
    MulAssoc(x, wi, y);
    MulAssoc(x, y, wi);
    MulAssoc(x * y, wi, wj);
  }

  ghost predicate MulTotal(xs: seq<nat>, ys: seq<nat>, sums: seq<nat>, i: nat, j: nat) {
    && i <= |xs| && j <= |ys| && (j > 0 ==> i < |xs|)
    && |sums| == |xs| + |ys| - 1
    && Total(sums) == Value(xs, i) * Total(ys) + (if j > 0 then xs[i] * BasePow(i) * Value(ys, j) else 0)
  }

  lemma MulTotalStep(xs: seq<nat>, ys: seq<nat>, sums: seq<nat>, i: nat, j: nat)
    requires i < |xs| && j < |ys| && MulTotal(xs, ys, sums, i, j)
    ensures MulTotal(xs, ys, sums[i + j := sums[i + j] + xs[i] * ys[j]], i, j + 1)
  {
    hide Value, BasePow, Total;
    ValueStep(ys, j + 1);
    ValueStep(ys, 0);
    ColumnAdd(sums, i, j, xs[i] * ys[j]);
    ProductStep(Value(xs, i), Total(ys), xs[i], ys[j], BasePow(i), BasePow(j), Value(ys, j));
  }

  lemma MulTotalRow(xs: seq<nat>, ys: seq<nat>, sums: seq<nat>, i: nat)
    requires |ys| > 0 && i < |xs| && MulTotal(xs, ys, sums, i, |ys|)
    ensures MulTotal(xs, ys, sums, i + 1, 0)
  {
    assert Total(ys) == Value(ys, |ys|);
    hide Value, BasePow, Total;
    ValueStep(xs, i + 1);
    TimesSum(Value(xs, i), xs[i] * BasePow(i), Total(ys));
  }

  /** limbs[k] += m * a * b, with the bound of the column. */
  method AddTerm(
      cs: Circuit, limbs: seq<Cell>, bounds: seq<nat>, ghost sums: seq<nat>, k: nat, a: Cell, b: Cell, m: nat, pb: nat)
    returns (limbs': seq<Cell>, bounds': seq<nat>, ghost sums': seq<nat>)
    requires cs.Valid() && cs.p > 0 && k < |limbs| == |bounds| == |sums| && AllOwned(cs.cells, limbs)
    requires cs.sat ==> Tracks(cs.p, limbs, sums, bounds) && m * (a.value * b.value) < Pow2(pb)
    modifies cs`cells
    ensures cs.Step() && |limbs'| == |limbs| && AllOwned(cs.cells, limbs')
    ensures bounds' == bounds[k := BoundOfAddition(bounds[k], pb)]
    ensures sums' == sums[k := sums[k] + m * (a.value * b.value)]
    ensures cs.sat ==> Tracks(cs.p, limbs', sums', bounds')
  {
    hide Pow2, Circuit.Valid, Tracks, AllOwned, BoundOfAddition;
    ghost var before := cs.cells;
    var c := cs.AddMul(a, b, limbs[k], m);
    ghost var d := m * (a.value * b.value);
    OwnedGrows(before, cs.cells, limbs);
    OwnedUpdate(cs.cells, limbs, k, c);
    limbs' := limbs[k := c];
    bounds' := bounds[k := BoundOfAddition(bounds[k], pb)];
    sums' := sums[k := sums[k] + d];
    if cs.sat {
      TracksAdd(cs.p, limbs, sums, bounds, k, c, d, pb);
    }
  }

  lemma ProductInRange(x: AssignedBigUint, y: AssignedBigUint, i: nat, j: nat)
    requires InRange(x) && InRange(y) && i < |x.limbs| && j < |y.limbs|
    ensures x.limbs[i].value * y.limbs[j].value < Pow2(x.bounds[i] + y.bounds[j])
  {
    hide Pow2;
    BoundOfProduct(x.bounds[i], y.bounds[j], x.limbs[i].value, y.limbs[j].value);
  }

  lemma ZeroOwned(cells: seq<nat>, n: nat, zero: Cell)
    requires Owned(cells, zero)
    ensures AllOwned(cells, seq(n, _ => zero))
  {}

  lemma MulBoundsStep(a: seq<nat>, b: seq<nat>, i: nat, j: nat)
    requires i < |a| && j < |b|
    ensures var s := MulBounds(a, b, i, j);
            MulBounds(a, b, i, j + 1) == s[i + j := BoundOfAddition(s[i + j], a[i] + b[j])]
    ensures MulBounds(a, b, i + 1, 0) == MulBounds(a, b, i, |b|)
    ensures MulBounds(a, b, 0, 0) == seq(|a| + |b| - 1, _ => 0)
  {
    hide BoundOfAddition;
  }

  /** Row i of the product: x_i times every limb of y. */
  method MulOneRow(cs: Circuit, x: AssignedBigUint, y: AssignedBigUint, i: nat, l: seq<Cell>, b: seq<nat>, ghost s: seq<nat>)
    returns (limbs: seq<Cell>, bounds: seq<nat>, ghost sums: seq<nat>)
    requires cs.Valid() && cs.p > 0 && |x.limbs| == |x.bounds| > i && |y.limbs| == |y.bounds| >= 1
    requires cs.sat ==> InRange(x) && InRange(y)
    requires |l| == |s| == |x.limbs| + |y.limbs| - 1 && AllOwned(cs.cells, l) && b == MulBounds(x.bounds, y.bounds, i, 0)
    requires (cs.sat ==> Tracks(cs.p, l, s, b)) && MulTotal(Values(x.limbs), Values(y.limbs), s, i, 0)
    modifies cs`cells
    ensures cs.Step() && |limbs| == |sums| == |l| && AllOwned(cs.cells, limbs)
    ensures bounds == MulBounds(x.bounds, y.bounds, i, |y.bounds|)
    ensures (cs.sat ==> Tracks(cs.p, limbs, sums, bounds)) && MulTotal(Values(x.limbs), Values(y.limbs), sums, i, |y.limbs|)
  {
    hide Pow2, Circuit.Valid, Tracks, AllOwned, BoundOfAddition, MulTotal, InRange, MulBounds;
    ghost var xs, ys := Values(x.limbs), Values(y.limbs);
    limbs, bounds, sums := l, b, s;
    for j := 0 to |y.limbs|
      invariant cs.Step() && |limbs| == |sums| == |l| && AllOwned(cs.cells, limbs)
      invariant bounds == MulBounds(x.bounds, y.bounds, i, j)
      invariant cs.sat ==> Tracks(cs.p, limbs, sums, bounds)
      invariant MulTotal(xs, ys, sums, i, j)
    {
      if cs.sat {
        ProductInRange(x, y, i, j);
      }
      MulTotalStep(xs, ys, sums, i, j);
      MulBoundsStep(x.bounds, y.bounds, i, j);
      limbs, bounds, sums := AddTerm(
        cs, limbs, bounds, sums, i + j, x.limbs[i], y.limbs[j], 1, x.bounds[i] + y.bounds[j]);
    }
  }

  /** The columns of the product, without carries. */
  method MulColumns(cs: Circuit, x: AssignedBigUint, y: AssignedBigUint)
    returns (z: AssignedBigUint, ghost sums: seq<nat>)
    requires cs.Valid() && cs.p > 0 && Good(cs.cells, x) && Good(cs.cells, y) && (cs.sat ==> InRange(x) && InRange(y))
    modifies cs`cells, cs`fixed
    ensures cs.Step() && Good(cs.cells, z) && z.bounds == ProductOf(x.bounds, y.bounds)
    ensures cs.sat ==> Tracks(cs.p, z.limbs, sums, z.bounds)
    ensures Total(sums) == Val(x) * Val(y)
  {
    hide Pow2, Circuit.Valid, Tracks, AllOwned, MulTotal, Value, InRange, MulBounds;
    var zero := cs.AssignFixed(0);
    var n := |x.limbs| + |y.limbs| - 1;
    var limbs := seq(n, _ => zero);
    var bounds: seq<nat> := seq(n, _ => 0);
    sums := seq(n, _ => 0);
    ZeroColumns(cs.p, n, zero);
    ZeroOwned(cs.cells, n, zero);
    ghost var xs, ys := Values(x.limbs), Values(y.limbs);
    MulTotalStart(xs, ys, sums);
    MulBoundsStep(x.bounds, y.bounds, 0, 0);
    for i := 0 to |x.limbs|
      invariant cs.Step() && |limbs| == |sums| == n && AllOwned(cs.cells, limbs)
      invariant bounds == MulBounds(x.bounds, y.bounds, i, 0)
      invariant cs.sat ==> Tracks(cs.p, limbs, sums, bounds)
      invariant MulTotal(xs, ys, sums, i, 0)
    {
      limbs, bounds, sums := MulOneRow(cs, x, y, i, limbs, bounds, sums);
      MulTotalRow(xs, ys, sums, i);
      MulBoundsStep(x.bounds, y.bounds, i, 0);
    }
    z := AssignedBigUint(limbs, bounds);
    MulTotalEnd(xs, ys, sums);
    ProductPositive(x.bounds, y.bounds);
    assert bounds == ProductOf(x.bounds, y.bounds);
  }

  lemma MulTotalStart(xs: seq<nat>, ys: seq<nat>, sums: seq<nat>)
    requires |xs| >= 1 && |ys| >= 1 && |sums| == |xs| + |ys| - 1 && Total(sums) == 0
    ensures MulTotal(xs, ys, sums, 0, 0)
  {}

  lemma MulTotalEnd(xs: seq<nat>, ys: seq<nat>, sums: seq<nat>)
    requires MulTotal(xs, ys, sums, |xs|, 0)
    ensures Total(sums) == Total(xs) * Total(ys)
  {}

  lemma ProductPositive(a: seq<nat>, b: seq<nat>)
    requires |a| >= 1 && |b| >= 1 && forall m :: 0 <= m < |a| ==> a[m] >= 1
    ensures forall k :: 0 <= k < |ProductOf(a, b)| ==> ProductOf(a, b)[k] >= 1
  {
    hide MulBounds;
    forall k | 0 <= k < |ProductOf(a, b)|
      ensures ProductOf(a, b)[k] >= 1
    {
      MulBoundsPositive(a, b, |a|, 0, k);
    }
  }

  // ---------------------------------------------------------------- the sums of the square

  ghost predicate SquareTotal(xs: seq<nat>, sums: seq<nat>, i: nat, j: nat) {
    && i <= j <= |xs| && |sums| == 2 * |xs| - 1
    && (var p, v := Value(xs, i), Total(xs);
        Total(sums) == 2 * (p * v) - p * p +
          (if j > i then
             var a := xs[i] * BasePow(i);
             a * a + 2 * (a * (Value(xs, j) - Value(xs, i + 1)))
           else 0))
  }

  lemma SquareStart(xs: seq<nat>, sums: seq<nat>)
    requires |xs| >= 1 && |sums| == 2 * |xs| - 1 && Total(sums) == 0
    ensures SquareTotal(xs, sums, 0, 0)
  {}

  lemma SquareEnd(xs: seq<nat>, sums: seq<nat>)
    requires SquareTotal(xs, sums, |xs|, |xs|)
    ensures Total(sums) == Total(xs) * Total(xs)
  {}

  lemma SquareDiagonal(xs: seq<nat>, sums: seq<nat>, i: nat)
    requires i < |xs| && SquareTotal(xs, sums, i, i)
    ensures SquareTotal(xs, sums[2 * i := sums[2 * i] + xs[i] * xs[i]], i, i + 1)
  {
    hide Value, BasePow, Total;
    ColumnAdd(sums, i, i, xs[i] * xs[i]);
    Regroup(xs[i], xs[i], BasePow(i), BasePow(i));
  }

  lemma Regroup(x: nat, y: nat, w: nat, u: nat)
    ensures x * y * (w * u) == (x * w) * (y * u)
  {
    MulAssoc(x, y, w * u);
    MulAssoc(y, w, u);
    MulAssoc(x, w, y * u);
  }

  lemma SquareOffDiagonal(xs: seq<nat>, sums: seq<nat>, i: nat, j: nat)
    requires i < j < |xs| && SquareTotal(xs, sums, i, j)
    ensures SquareTotal(xs, sums[i + j := sums[i + j] + 2 * (xs[i] * xs[j])], i, j + 1)
  {
    hide Value, BasePow, Total;
    ValueStep(xs, j + 1);
    var d := 2 * (xs[i] * xs[j]);
    ColumnAdd(sums, i, j, d);
    OffDiagonal(xs[i], xs[j], BasePow(i), BasePow(j), Value(xs, j) - Value(xs, i + 1));
  }

  lemma ColumnAdd(sums: seq<nat>, i: nat, j: nat, d: nat)
    requires i + j < |sums|
    ensures Total(sums[i + j := sums[i + j] + d]) == Total(sums) + d * (BasePow(i) * BasePow(j))
  {
    hide Value, BasePow;
    ValueUpdate(sums, i + j, d, |sums|);
    BasePowAdd(i, j);
  }

  lemma OffDiagonal(x: nat, y: nat, w: nat, u: nat, d: int)
    ensures 2 * (x * w * (d + y * u)) == 2 * (x * w * d) + 2 * (x * y) * (w * u)
  {
    Regroup(x, y, w, u);
    MulAssoc(2, x * y, w * u);
    assert (x * w) * (d + y * u) == (x * w) * d + (x * w) * (y * u);
  }

  lemma SquareRow(xs: seq<nat>, sums: seq<nat>, i: nat)
    requires i < |xs| && SquareTotal(xs, sums, i, |xs|)
    ensures SquareTotal(xs, sums, i + 1, i + 1)
  {
    assert Total(xs) == Value(xs, |xs|);
    hide Value, BasePow, Total;
    ValueStep(xs, i + 1);
    SquareStep(Value(xs, i), xs[i] * BasePow(i), Total(xs));
  }

  lemma SquareStep(p: int, a: int, v: int)
    ensures 2 * (p * v) - p * p + (a * a + 2 * (a * (v - (p + a)))) == 2 * ((p + a) * v) - (p + a) * (p + a)
  {
    assert a * (v - (p + a)) == a * v - a * p - a * a;
    assert (p + a) * v == p * v + a * v;
    assert (p + a) * (p + a) == p * p + 2 * (a * p) + a * a;
  }

  lemma DoubleInRange(x: AssignedBigUint, i: nat, j: nat)
    requires InRange(x) && i < |x.limbs| && j < |x.limbs|
    ensures 1 * (x.limbs[i].value * x.limbs[j].value) < Pow2(x.bounds[i] + x.bounds[j])
    ensures 2 * (x.limbs[i].value * x.limbs[j].value) < Pow2(1 + x.bounds[i] + x.bounds[j])
  {
    ProductInRange(x, x, i, j);
  }

  lemma SquareBoundsStep(a: seq<nat>, i: nat, j: nat)
    requires |a| >= 1 && i <= j < |a|
    ensures var s := SquareBounds(a, i, j);
            SquareBounds(a, i, j + 1) ==
              s[i + j := BoundOfAddition(s[i + j], if j == i then 2 * a[i] else 1 + a[i] + a[j])]
    ensures SquareBounds(a, i + 1, i + 1) == SquareBounds(a, i, |a|)
    ensures SquareBounds(a, 0, 0) == seq(2 * |a| - 1, _ => 0)
  {}

  /** Row i of the square: its diagonal term once, the following terms twice. */
  method SquareOneRow(cs: Circuit, x: AssignedBigUint, i: nat, l: seq<Cell>, b: seq<nat>, ghost s: seq<nat>)
    returns (limbs: seq<Cell>, bounds: seq<nat>, ghost sums: seq<nat>)
    requires cs.Valid() && cs.p > 0 && |x.limbs| == |x.bounds| > i && (cs.sat ==> InRange(x))
    requires |l| == |s| == 2 * |x.limbs| - 1 && AllOwned(cs.cells, l) && b == SquareBounds(x.bounds, i, i)
    requires (cs.sat ==> Tracks(cs.p, l, s, b)) && SquareTotal(Values(x.limbs), s, i, i)
    modifies cs`cells
    ensures cs.Step() && |limbs| == |sums| == 2 * |x.limbs| - 1 && AllOwned(cs.cells, limbs)
    ensures bounds == SquareBounds(x.bounds, i, |x.bounds|)
    ensures (cs.sat ==> Tracks(cs.p, limbs, sums, bounds)) && SquareTotal(Values(x.limbs), sums, i, |x.limbs|)
  {
    hide Pow2, Circuit.Valid, Tracks, AllOwned, BoundOfAddition, SquareTotal, InRange, SquareBounds;
    ghost var xs := Values(x.limbs);
    if cs.sat {
      DoubleInRange(x, i, i);
    }
    SquareDiagonal(xs, s, i);
    SquareBoundsStep(x.bounds, i, i);
    limbs, bounds, sums := AddTerm(cs, l, b, s, 2 * i, x.limbs[i], x.limbs[i], 1, 2 * x.bounds[i]);
    for j := i + 1 to |x.limbs|
      invariant cs.Step() && |limbs| == |sums| == 2 * |x.limbs| - 1 && AllOwned(cs.cells, limbs)
      invariant bounds == SquareBounds(x.bounds, i, j)
      invariant cs.sat ==> Tracks(cs.p, limbs, sums, bounds)
      invariant SquareTotal(xs, sums, i, j)
    {
      if cs.sat {
        DoubleInRange(x, i, j);
      }
      SquareOffDiagonal(xs, sums, i, j);
      SquareBoundsStep(x.bounds, i, j);
      limbs, bounds, sums := AddTerm(
        cs, limbs, bounds, sums, i + j, x.limbs[i], x.limbs[j], 2, 1 + x.bounds[i] + x.bounds[j]);
    }
  }

  /** The columns of the square. */
  method SquareColumns(cs: Circuit, x: AssignedBigUint) returns (z: AssignedBigUint, ghost sums: seq<nat>)
    requires cs.Valid() && cs.p > 0 && Good(cs.cells, x) && (cs.sat ==> InRange(x))
    modifies cs`cells, cs`fixed
    ensures cs.Step() && Good(cs.cells, z) && z.bounds == SquareOf(x.bounds)
    ensures cs.sat ==> Tracks(cs.p, z.limbs, sums, z.bounds)
    ensures Total(sums) == Val(x) * Val(x)
  {
    hide Pow2, Circuit.Valid, Tracks, AllOwned, SquareTotal, Value, InRange, SquareBounds;
    var zero := cs.AssignFixed(0);
    var n := |x.limbs|;
    var limbs := seq(2 * n - 1, _ => zero);
    var bounds: seq<nat> := seq(2 * n - 1, _ => 0);
    sums := seq(2 * n - 1, _ => 0);
    ZeroColumns(cs.p, 2 * n - 1, zero);
    ZeroOwned(cs.cells, 2 * n - 1, zero);
    ghost var xs := Values(x.limbs);
    SquareStart(xs, sums);
    SquareBoundsStep(x.bounds, 0, 0);
    for i := 0 to n
      invariant cs.Step() && |limbs| == |sums| == 2 * n - 1 && AllOwned(cs.cells, limbs)
      invariant bounds == SquareBounds(x.bounds, i, i)
      invariant cs.sat ==> Tracks(cs.p, limbs, sums, bounds)
      invariant SquareTotal(xs, sums, i, i)
    {
      limbs, bounds, sums := SquareOneRow(cs, x, i, limbs, bounds, sums);
      SquareRow(xs, sums, i);
      SquareBoundsStep(x.bounds, i, i);
    }
    z := AssignedBigUint(limbs, bounds);
    SquareEnd(xs, sums);
    SquarePositive(x.bounds);
    assert bounds == SquareOf(x.bounds);
  }

  lemma SquarePositive(a: seq<nat>)
    requires |a| >= 1 && forall m :: 0 <= m < |a| ==> a[m] >= 1
    ensures forall k :: 0 <= k < |SquareOf(a)| ==> SquareOf(a)[k] >= 1
  {
    hide SquareBounds;
    forall k | 0 <= k < |SquareOf(a)|
      ensures SquareOf(a)[k] >= 1
    {
      SquareBoundsPositive(a, |a|, |a|, k);
    }
  }

  // ---------------------------------------------------------------- the operations

  ghost predicate SquareFits(b: seq<nat>, numBits: nat) {
    NormFits(b, numBits) && |NormBounds(b)| >= 1 && NormFits(SquareOf(NormBounds(b)), numBits)
  }

  method Square(cs: Circuit, x: AssignedBigUint) returns (r: Option<AssignedBigUint>)
    requires cs.Valid() && Good(cs.cells, x) && (cs.sat ==> InRange(x))
    modifies cs
    ensures cs.Step()
    ensures r.Some? <==> SquareFits(x.bounds, cs.numBits)
    ensures r.Some? ==> Good(cs.cells, r.value) && r.value.bounds == NormBounds(SquareOf(NormBounds(x.bounds)))
    ensures r.Some? && cs.sat ==> InRange(r.value) && Val(r.value) == Val(x) * Val(x)
    ensures r.Some? && cs.honest && old(cs.sat) ==> cs.sat
  {
    hide Pow2, Circuit.Valid, Tracks, AllOwned, NormFits, NormBounds, Total, InRange, SquareOf;
    cs.Modulus();
    var x' := Normalize(cs, x);
    if x'.None? {
      return None;
    }
    var z, sums := SquareColumns(cs, x'.value);
    r := NormalizeColumns(cs, z, sums);
  }

  /** Equality as the gadget decides it: limbs are compared by cell, up to the shorter length. */
  predicate ZipEqual(x: AssignedBigUint, y: AssignedBigUint) {
    forall i :: 0 <= i < |x.limbs| && i < |y.limbs| ==> x.limbs[i].id == y.limbs[i].id
  }

  ghost predicate MulFits(a: seq<nat>, b: seq<nat>, numBits: nat) {
    && NormFits(a, numBits) && NormFits(b, numBits) && |NormBounds(a)| >= 1 && |NormBounds(b)| >= 1
    && NormFits(ProductOf(NormBounds(a), NormBounds(b)), numBits)
  }

  /** The product, or the square of x when the operands look equal. */
  method Mul(cs: Circuit, x: AssignedBigUint, y: AssignedBigUint) returns (r: Option<AssignedBigUint>)
    requires cs.Valid() && Good(cs.cells, x) && Good(cs.cells, y) && (cs.sat ==> InRange(x) && InRange(y))
    modifies cs
    ensures cs.Step()
    ensures r.Some? <==> if ZipEqual(x, y) then SquareFits(x.bounds, cs.numBits) else MulFits(x.bounds, y.bounds, cs.numBits)
    ensures r.Some? ==> Good(cs.cells, r.value) && Normalized(r.value.bounds)
    ensures r.Some? ==>
              r.value.bounds == NormBounds(if ZipEqual(x, y) then SquareOf(NormBounds(x.bounds))
                                           else ProductOf(NormBounds(x.bounds), NormBounds(y.bounds)))
    ensures r.Some? && cs.sat ==> InRange(r.value) && Val(r.value) == Val(x) * (if ZipEqual(x, y) then Val(x) else Val(y))
    ensures r.Some? && cs.honest && old(cs.sat) ==> cs.sat
  {
    hide Pow2, Circuit.Valid, Tracks, AllOwned, NormFits, NormBounds, Total, InRange, SquareOf, ProductOf, SquareFits, ZipEqual, Normalized;
    if ZipEqual(x, y) {
      r := Square(cs, x);
      return;
    }
    cs.Modulus();
    ghost var before := cs.cells;
    var x' := Normalize(cs, x);
    if x'.None? {
      return None;
    }
    GoodGrows(before, cs.cells, y);
    before := cs.cells;
    var y' := Normalize(cs, y);
    if y'.None? {
      return None;
    }
    GoodGrows(before, cs.cells, x'.value);
    var z, sums := MulColumns(cs, x'.value, y'.value);
    r := NormalizeColumns(cs, z, sums);
  }

  /** For operands of one circuit, what Mul returns is the product unless one is a proper cell-wise
      prefix of the other, the excess limbs are not all zero, and x is not zero. */
  lemma MulIsProduct(cells: seq<nat>, x: AssignedBigUint, y: AssignedBigUint)
    requires Good(cells, x) && Good(cells, y)
    ensures Val(x) * (if ZipEqual(x, y) then Val(x) else Val(y)) == Val(x) * Val(y) <==>
              || !ZipEqual(x, y)
              || (forall i :: 0 <= i < |x.limbs| ==> x.limbs[i].value == 0)
              || (&& (forall i :: |x.limbs| <= i < |y.limbs| ==> y.limbs[i].value == 0)
                  && (forall i :: |y.limbs| <= i < |x.limbs| ==> x.limbs[i].value == 0))
  {
    hide Value;
    var xs, ys := Values(x.limbs), Values(y.limbs);
    var n := if |xs| <= |ys| then |xs| else |ys|;
    if ZipEqual(x, y) {
      forall i | 0 <= i < n
        ensures xs[i] == ys[i]
      {
        assert Owned(cells, x.limbs[i]) && Owned(cells, y.limbs[i]);
      }
      ValueSame(xs, ys, n);
      ValueExtra(xs, n, |xs|);
      ValueExtra(ys, n, |ys|);
      ValueExtra(xs, 0, |xs|);
      ValueNone(xs);
      ProductCancel(Val(x), Val(y));
    }
  }

  lemma ValueNone(xs: seq<nat>)
    ensures Value(xs, 0) == 0
  {}

  lemma ProductCancel(a: nat, b: nat)
    ensures a * a == a * b <==> a == 0 || a == b
  {
    if a != 0 && a < b {
      MulLt(a, a, b);
    } else if a != 0 && b < a {
      MulLt(a, b, a);
    }
  }

  lemma SmallPowers()
    ensures Pow2(1) == 2 && Pow2(2) == 4 && Pow2(LOG2_BASE) >= 4
  {
    Pow2Mono(2, LOG2_BASE);
  }

  /** One limb 3 against limbs (3, 1) that share their first cell, with the bounds of the constants 3 and
      3 + 2^96: the square of 3 is not 3 * (3 + 2^96). */
  lemma MulPrefixExample()
    ensures var x := AssignedBigUint([Cell(0, 3)], [2]);
            var y := AssignedBigUint([Cell(0, 3), Cell(1, 1)], [LOG2_BASE, 1]);
            && Good([3, 1], x) && Good([3, 1], y) && InRange(x) && InRange(y)
            && Val(x) * (if ZipEqual(x, y) then Val(x) else Val(y)) != Val(x) * Val(y)
  {
    hide Pow2, Total;
    var x := AssignedBigUint([Cell(0, 3)], [2]);
    var y := AssignedBigUint([Cell(0, 3), Cell(1, 1)], [LOG2_BASE, 1]);
    SmallPowers();
    assert y.limbs[1].value == 1 && x.limbs[0].value == 3;
    MulIsProduct([3, 1], x, y);
  }
}
