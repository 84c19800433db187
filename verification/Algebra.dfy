/** Algebraic structures as records of operations, with their laws as predicates.
    Every law is guarded by a marker term (At1, At2, At3), so a proof uses a law only at the
    points where one of the lemmas below names it. */
module Algebra {

  ghost predicate At1<X>(x: X) { true }
  ghost predicate At2<X, Y>(x: X, y: Y) { true }
  ghost predicate At3<X, Y, Z>(x: X, y: Y, z: Z) { true }

  // ---------------------------------------------------------------- abelian groups

  datatype Group<!G> = Group(zero: G, add: (G, G) -> G, neg: G -> G)

  ghost predicate IsGroup<G(!new)>(g: Group<G>) {
    && (forall x: G {:trigger At1(x)} :: At1(x) ==> g.add(x, g.zero) == x && g.add(x, g.neg(x)) == g.zero)
    && (forall x: G, y: G {:trigger At2(x, y)} :: At2(x, y) ==> g.add(x, y) == g.add(y, x))
    && (forall x: G, y: G, z: G {:trigger At3(x, y, z)} :: At3(x, y, z) ==>
          g.add(g.add(x, y), z) == g.add(x, g.add(y, z)))
  }

  lemma GZero<G(!new)>(g: Group<G>, x: G)
    requires IsGroup(g)
    ensures g.add(x, g.zero) == x && g.add(g.zero, x) == x
  {
    assert At1(x) && At2(x, g.zero);
  }

  lemma GNeg<G(!new)>(g: Group<G>, x: G)
    requires IsGroup(g)
    ensures g.add(x, g.neg(x)) == g.zero && g.add(g.neg(x), x) == g.zero
  {
    assert At1(x) && At2(x, g.neg(x));
  }

  lemma GComm<G(!new)>(g: Group<G>, x: G, y: G)
    requires IsGroup(g)
    ensures g.add(x, y) == g.add(y, x)
  {
    assert At2(x, y);
  }

  lemma GAssoc<G(!new)>(g: Group<G>, x: G, y: G, z: G)
    requires IsGroup(g)
    ensures g.add(g.add(x, y), z) == g.add(x, g.add(y, z))
  {
    assert At3(x, y, z);
  }

  /** (a + b) + (c + d) == (a + c) + (b + d) */
  lemma GSwap<G(!new)>(g: Group<G>, a: G, b: G, c: G, d: G)
    requires IsGroup(g)
    ensures g.add(g.add(a, b), g.add(c, d)) == g.add(g.add(a, c), g.add(b, d))
  {
    GAssoc(g, a, b, g.add(c, d));
    GAssoc(g, b, c, d);
    GComm(g, b, c);
    GAssoc(g, c, b, d);
    GAssoc(g, a, c, g.add(b, d));
  }

  /** a + b == zero forces b == -a. */
  lemma GNegUnique<G(!new)>(g: Group<G>, a: G, b: G)
    requires IsGroup(g) && g.add(a, b) == g.zero
    ensures b == g.neg(a)
  {
    GAssoc(g, g.neg(a), a, b);
    GNeg(g, a);
    GZero(g, b);
    GZero(g, g.neg(a));
  }

  lemma GNegNeg<G(!new)>(g: Group<G>, a: G)
    requires IsGroup(g)
    ensures g.neg(g.neg(a)) == a
  {
    GNeg(g, a);
    GNegUnique(g, g.neg(a), a);
  }

  lemma GNegZero<G(!new)>(g: Group<G>)
    requires IsGroup(g)
    ensures g.neg(g.zero) == g.zero
  {
    GZero(g, g.zero);
    GNegUnique(g, g.zero, g.zero);
  }

  lemma GNegAdd<G(!new)>(g: Group<G>, a: G, b: G)
    requires IsGroup(g)
    ensures g.neg(g.add(a, b)) == g.add(g.neg(a), g.neg(b))
  {
    GSwap(g, a, b, g.neg(a), g.neg(b));
    GNeg(g, a);
    GNeg(g, b);
    GZero(g, g.zero);
    GNegUnique(g, g.add(a, b), g.add(g.neg(a), g.neg(b)));
  }

  lemma GCancel<G(!new)>(g: Group<G>, a: G, b: G, c: G)
    requires IsGroup(g) && g.add(a, c) == g.add(b, c)
    ensures a == b
  {
    GAssoc(g, a, c, g.neg(c));
    GAssoc(g, b, c, g.neg(c));
    GNeg(g, c);
    GZero(g, a);
    GZero(g, b);
  }

  /** Sum of a sequence of group elements, from the left. */
  ghost function Sum<G>(g: Group<G>, s: seq<G>): G {
    if |s| == 0 then g.zero else g.add(Sum(g, s[..|s| - 1]), s[|s| - 1])
  }

  lemma SumSnoc<G>(g: Group<G>, s: seq<G>, x: G)
    ensures Sum(g, s + [x]) == g.add(Sum(g, s), x)
  {
    assert (s + [x])[..|s|] == s;
  }

  // ---------------------------------------------------------------- integer multiples

  ghost function NatMul<G>(g: Group<G>, n: nat, x: G): G {
    if n == 0 then g.zero else g.add(NatMul(g, n - 1, x), x)
  }

  /** n * x for every integer n. */
  ghost function Mul<G>(g: Group<G>, n: int, x: G): G {
    if n >= 0 then NatMul(g, n, x) else g.neg(NatMul(g, -n, x))
  }

  lemma MulSucc<G(!new)>(g: Group<G>, n: int, x: G)
    requires IsGroup(g)
    ensures Mul(g, n + 1, x) == g.add(Mul(g, n, x), x)
  {
    if n < 0 {
      var y := NatMul(g, -n - 1, x);
      GNegAdd(g, y, x);
      GAssoc(g, g.neg(y), g.neg(x), x);
      GNeg(g, x);
      GZero(g, g.neg(y));
      GNegZero(g);
    }
  }

  lemma {:induction false} MulAdd<G(!new)>(g: Group<G>, n: int, m: int, x: G)
    requires IsGroup(g)
    ensures Mul(g, n + m, x) == g.add(Mul(g, n, x), Mul(g, m, x))
    decreases if m >= 0 then m else -m
  {
    if m == 0 {
      GZero(g, Mul(g, n, x));
    } else if m > 0 {
      MulAdd(g, n, m - 1, x);
      MulSucc(g, n + m - 1, x);
      MulSucc(g, m - 1, x);
      GAssoc(g, Mul(g, n, x), Mul(g, m - 1, x), x);
    } else {
      MulAdd(g, n, m + 1, x);
      MulSucc(g, n + m, x);
      MulSucc(g, m, x);
      GAssoc(g, Mul(g, n, x), Mul(g, m, x), x);
      GCancel(g, Mul(g, n + m, x), g.add(Mul(g, n, x), Mul(g, m, x)), x);
    }
  }

  lemma MulOne<G(!new)>(g: Group<G>, x: G)
    requires IsGroup(g)
    ensures Mul(g, 1, x) == x && Mul(g, 0, x) == g.zero
  {
    assert NatMul(g, 1, x) == g.add(NatMul(g, 0, x), x);
    GZero(g, x);
  }

  lemma MulNeg<G(!new)>(g: Group<G>, n: int, x: G)
    requires IsGroup(g)
    ensures Mul(g, -n, x) == g.neg(Mul(g, n, x)) == Mul(g, n, g.neg(x))
  {
    MulAdd(g, n, -n, x);
    GNegUnique(g, Mul(g, n, x), Mul(g, -n, x));
    MulDistributes(g, n, x, g.neg(x));
    GNeg(g, x);
    MulOfZero(g, n);
    GNegUnique(g, Mul(g, n, x), Mul(g, n, g.neg(x)));
  }

  lemma {:induction false} MulOfZero<G(!new)>(g: Group<G>, n: int)
    requires IsGroup(g)
    ensures Mul(g, n, g.zero) == g.zero
    decreases if n >= 0 then n else -n
  {
    if n > 0 {
      MulOfZero(g, n - 1);
      MulSucc(g, n - 1, g.zero);
      GZero(g, g.zero);
    } else if n < 0 {
      MulOfZero(g, n + 1);
      MulSucc(g, n, g.zero);
      GZero(g, Mul(g, n, g.zero));
    }
  }

  lemma {:induction false} MulDistributes<G(!new)>(g: Group<G>, n: int, x: G, y: G)
    requires IsGroup(g)
    ensures Mul(g, n, g.add(x, y)) == g.add(Mul(g, n, x), Mul(g, n, y))
    decreases if n >= 0 then n else -n
  {
    if n == 0 {
      GZero(g, g.zero);
    } else {
      var m := if n > 0 then n - 1 else n;
      MulSucc(g, m, x);
      MulSucc(g, m, y);
      MulSucc(g, m, g.add(x, y));
      GSwap(g, Mul(g, m, x), Mul(g, m, y), x, y);
      if n > 0 {
        MulDistributes(g, m, x, y);
      } else {
        MulDistributes(g, n + 1, x, y);
        GCancel(g, Mul(g, n, g.add(x, y)), g.add(Mul(g, n, x), Mul(g, n, y)), g.add(x, y));
      }
    }
  }

  lemma {:induction false} MulMul<G(!new)>(g: Group<G>, n: int, m: int, x: G)
    requires IsGroup(g)
    ensures Mul(g, n, Mul(g, m, x)) == Mul(g, n * m, x)
    decreases if n >= 0 then n else -n
  {
    if n == 0 {
      assert n * m == 0;
    } else if n > 0 {
      MulMul(g, n - 1, m, x);
      MulSucc(g, n - 1, Mul(g, m, x));
      assert n * m == (n - 1) * m + m;
      MulAdd(g, (n - 1) * m, m, x);
    } else {
      MulMul(g, n + 1, m, x);
      MulSucc(g, n, Mul(g, m, x));
      assert (n + 1) * m == n * m + m;
      MulAdd(g, n * m, m, x);
      GCancel(g, Mul(g, n, Mul(g, m, x)), Mul(g, n * m, x), Mul(g, m, x));
    }
  }

  lemma MulDouble<G(!new)>(g: Group<G>, n: int, x: G)
    requires IsGroup(g)
    ensures g.add(Mul(g, n, x), Mul(g, n, x)) == Mul(g, 2 * n, x)
  {
    MulAdd(g, n, n, x);
  }

  // ---------------------------------------------------------------- fields

  datatype Field<!F> = Field(
    zero: F, one: F,
    add: (F, F) -> F, mul: (F, F) -> F,
    neg: F -> F,
    inv: F -> F)
  {
    function Sub(x: F, y: F): F { add(x, neg(y)) }
    function Sq(x: F): F { mul(x, x) }
    function AddGroup(): Group<F> { Group(zero, add, neg) }
  }

  /** Field laws; inv is unconstrained at zero. */
  ghost predicate IsField<F(!new)>(k: Field<F>) {
    && IsGroup(k.AddGroup())
    && k.zero != k.one
    && (forall x: F {:trigger At1(x)} :: At1(x) ==>
          k.mul(x, k.one) == x && (x != k.zero ==> k.mul(x, k.inv(x)) == k.one))
    && (forall x: F, y: F {:trigger At2(x, y)} :: At2(x, y) ==> k.mul(x, y) == k.mul(y, x))
    && (forall x: F, y: F, z: F {:trigger At3(x, y, z)} :: At3(x, y, z) ==>
          && k.mul(k.mul(x, y), z) == k.mul(x, k.mul(y, z))
          && k.mul(x, k.add(y, z)) == k.add(k.mul(x, y), k.mul(x, z)))
  }

  lemma FOne<F(!new)>(k: Field<F>, x: F)
    requires IsField(k)
    ensures k.mul(x, k.one) == x && k.mul(k.one, x) == x
  {
    assert At1(x) && At2(x, k.one);
  }

  lemma FInv<F(!new)>(k: Field<F>, x: F)
    requires IsField(k) && x != k.zero
    ensures k.mul(x, k.inv(x)) == k.one && k.mul(k.inv(x), x) == k.one
  {
    assert At1(x) && At2(x, k.inv(x));
  }

  lemma FComm<F(!new)>(k: Field<F>, x: F, y: F)
    requires IsField(k)
    ensures k.mul(x, y) == k.mul(y, x)
  {
    assert At2(x, y);
  }

  lemma FAssoc<F(!new)>(k: Field<F>, x: F, y: F, z: F)
    requires IsField(k)
    ensures k.mul(k.mul(x, y), z) == k.mul(x, k.mul(y, z))
  {
    assert At3(x, y, z);
  }

  lemma FDist<F(!new)>(k: Field<F>, x: F, y: F, z: F)
    requires IsField(k)
    ensures k.mul(x, k.add(y, z)) == k.add(k.mul(x, y), k.mul(x, z))
    ensures k.mul(k.add(y, z), x) == k.add(k.mul(y, x), k.mul(z, x))
  {
    assert At3(x, y, z);
    FComm(k, x, k.add(y, z));
    FComm(k, x, y);
    FComm(k, x, z);
  }

  lemma FAddComm<F(!new)>(k: Field<F>, x: F, y: F)
    requires IsField(k)
    ensures k.add(x, y) == k.add(y, x)
  {
    GComm(k.AddGroup(), x, y);
  }

  lemma FAddAssoc<F(!new)>(k: Field<F>, x: F, y: F, z: F)
    requires IsField(k)
    ensures k.add(k.add(x, y), z) == k.add(x, k.add(y, z))
  {
    GAssoc(k.AddGroup(), x, y, z);
  }

  lemma FAddZero<F(!new)>(k: Field<F>, x: F)
    requires IsField(k)
    ensures k.add(x, k.zero) == x == k.add(k.zero, x)
  {
    GZero(k.AddGroup(), x);
  }

  lemma FNeg<F(!new)>(k: Field<F>, x: F)
    requires IsField(k)
    ensures k.add(x, k.neg(x)) == k.zero == k.add(k.neg(x), x)
    ensures k.neg(k.neg(x)) == x
  {
    GNeg(k.AddGroup(), x);
    GNegNeg(k.AddGroup(), x);
  }

  lemma FMulZero<F(!new)>(k: Field<F>, x: F)
    requires IsField(k)
    ensures k.mul(x, k.zero) == k.zero == k.mul(k.zero, x)
  {
    var g := k.AddGroup();
    FDist(k, x, k.zero, k.zero);
    FAddZero(k, k.zero);
    FAddZero(k, k.mul(x, k.zero));
    GCancel(g, k.zero, k.mul(x, k.zero), k.mul(x, k.zero));
    FComm(k, x, k.zero);
  }

  lemma FMulNeg<F(!new)>(k: Field<F>, x: F, y: F)
    requires IsField(k)
    ensures k.mul(x, k.neg(y)) == k.neg(k.mul(x, y)) == k.mul(k.neg(x), y)
  {
    var g := k.AddGroup();
    FDist(k, x, y, k.neg(y));
    FDist(k, y, x, k.neg(x));
    FNeg(k, x);
    FNeg(k, y);
    FMulZero(k, x);
    FMulZero(k, y);
    GNegUnique(g, k.mul(x, y), k.mul(x, k.neg(y)));
    GNegUnique(g, k.mul(x, y), k.mul(k.neg(x), y));
  }

  lemma FNoZeroDivisors<F(!new)>(k: Field<F>, x: F, y: F)
    requires IsField(k)
    ensures k.mul(x, y) == k.zero <==> x == k.zero || y == k.zero
  {
    FMulZero(k, x);
    FMulZero(k, y);
    if k.mul(x, y) == k.zero && x != k.zero {
      FInv(k, x);
      FAssoc(k, k.inv(x), x, y);
      FOne(k, y);
      FMulZero(k, k.inv(x));
    }
  }

  lemma FInvNonZero<F(!new)>(k: Field<F>, x: F)
    requires IsField(k) && x != k.zero
    ensures k.inv(x) != k.zero
  {
    FInv(k, x);
    FMulZero(k, x);
  }

  /** x * y == z * y with y non-zero forces x == z. */
  lemma FCancel<F(!new)>(k: Field<F>, x: F, z: F, y: F)
    requires IsField(k) && y != k.zero && k.mul(x, y) == k.mul(z, y)
    ensures x == z
  {
    FAssoc(k, x, y, k.inv(y));
    FAssoc(k, z, y, k.inv(y));
    FInv(k, y);
    FOne(k, x);
    FOne(k, z);
  }

  lemma FSubZero<F(!new)>(k: Field<F>, x: F, y: F)
    requires IsField(k)
    ensures k.Sub(x, y) == k.zero <==> x == y
  {
    var g := k.AddGroup();
    FNeg(k, y);
    if k.Sub(x, y) == k.zero {
      GCancel(g, x, y, k.neg(y));
    }
  }

  /** Squares agree only at equal or opposite elements. */
  lemma FSquareRoots<F(!new)>(k: Field<F>, x: F, y: F)
    requires IsField(k)
    ensures k.Sq(x) == k.Sq(y) <==> x == y || x == k.neg(y)
  {
    FMulNeg(k, y, y);
    FMulNeg(k, k.neg(y), y);
    FNeg(k, k.Sq(y));
    if k.Sq(x) == k.Sq(y) {
      var d, s := k.Sub(x, y), k.add(x, y);
      // (x - y)(x + y) == (xx + xy) + (-yx - yy)
      FDist(k, s, x, k.neg(y));
      FDist(k, x, x, y);
      FDist(k, k.neg(y), x, y);
      FMulNeg(k, y, x);
      FMulNeg(k, y, y);
      FComm(k, x, y);
      var g := k.AddGroup();
      var xy := k.mul(x, y);
      GSwap(g, k.Sq(x), xy, k.neg(xy), k.neg(k.Sq(y)));
      GComm(g, k.neg(xy), k.neg(k.Sq(y)));
      GSwap(g, k.Sq(x), xy, k.neg(k.Sq(y)), k.neg(xy));
      FNeg(k, k.Sq(y));
      FNeg(k, xy);
      FAddZero(k, k.zero);
      assert k.mul(d, s) == k.zero;
      FNoZeroDivisors(k, d, s);
      FSubZero(k, x, y);
      if s == k.zero {
        FAddComm(k, x, y);
        GNegUnique(g, y, x);
      }
    }
  }

  /** (a - b) * x == a*x - b*x */
  lemma SubTimes<F(!new)>(k: Field<F>, a: F, b: F, x: F)
    requires IsField(k)
    ensures k.mul(k.Sub(a, b), x) == k.Sub(k.mul(a, x), k.mul(b, x))
    ensures k.mul(x, k.Sub(a, b)) == k.Sub(k.mul(x, a), k.mul(x, b))
  {
    FDist(k, x, a, k.neg(b));
    FMulNeg(k, b, x);
    FMulNeg(k, x, b);
  }

  /** (a - b) * (a + b) == a^2 - b^2 */
  lemma Conjugates<F(!new)>(k: Field<F>, a: F, b: F)
    requires IsField(k)
    ensures k.mul(k.Sub(a, b), k.add(a, b)) == k.Sub(k.Sq(a), k.Sq(b))
  {
    var g, ab := k.AddGroup(), k.mul(a, b);
    FDist(k, k.Sub(a, b), a, b);
    SubTimes(k, a, b, a);
    SubTimes(k, a, b, b);
    FComm(k, a, b);
    // (aa - ab) + (ab - bb) == (aa + (-ab + ab)) - bb
    GAssoc(g, k.Sq(a), k.neg(ab), k.Sub(ab, k.Sq(b)));
    GAssoc(g, k.neg(ab), ab, k.neg(k.Sq(b)));
    FNeg(k, ab);
    FAddZero(k, k.neg(k.Sq(b)));
  }

  /** a + x == b exactly when a == b - x */
  lemma MoveOver<F(!new)>(k: Field<F>, a: F, x: F, b: F)
    requires IsField(k)
    ensures k.add(a, x) == b <==> a == k.Sub(b, x)
  {
    FAddAssoc(k, a, x, k.neg(x));
    FAddAssoc(k, b, k.neg(x), x);
    FNeg(k, x);
    FAddZero(k, a);
    FAddZero(k, b);
  }

  // ---------------------------------------------------------------- powers

  ghost function Pow<F>(k: Field<F>, x: F, n: nat): F {
    if n == 0 then k.one else k.mul(Pow(k, x, n - 1), x)
  }

  lemma {:induction false} PowAdd<F(!new)>(k: Field<F>, x: F, m: nat, n: nat)
    requires IsField(k)
    ensures Pow(k, x, m + n) == k.mul(Pow(k, x, m), Pow(k, x, n))
  {
    if n == 0 {
      FOne(k, Pow(k, x, m));
    } else {
      PowAdd(k, x, m, n - 1);
      FAssoc(k, Pow(k, x, m), Pow(k, x, n - 1), x);
    }
  }

  lemma {:induction false} PowMul<F(!new)>(k: Field<F>, x: F, m: nat, n: nat)
    requires IsField(k)
    ensures Pow(k, x, m * n) == Pow(k, Pow(k, x, m), n)
  {
    if n == 0 {
      assert m * n == 0;
    } else {
      assert m * n == m * (n - 1) + m;
      PowMul(k, x, m, n - 1);
      PowAdd(k, x, m * (n - 1), m);
    }
  }

  lemma {:induction false} PowOne<F(!new)>(k: Field<F>, n: nat)
    requires IsField(k)
    ensures Pow(k, k.one, n) == k.one
  {
    if n > 0 {
      PowOne(k, n - 1);
      FOne(k, k.one);
    }
  }

  lemma {:induction false} PowNonZero<F(!new)>(k: Field<F>, x: F, n: nat)
    requires IsField(k) && x != k.zero
    ensures Pow(k, x, n) != k.zero
  {
    if n > 0 {
      PowNonZero(k, x, n - 1);
      FNoZeroDivisors(k, Pow(k, x, n - 1), x);
    }
  }

  lemma {:induction false} PowMulBase<F(!new)>(k: Field<F>, x: F, y: F, n: nat)
    requires IsField(k)
    ensures Pow(k, k.mul(x, y), n) == k.mul(Pow(k, x, n), Pow(k, y, n))
  {
    if n == 0 {
      FOne(k, k.one);
    } else {
      PowMulBase(k, x, y, n - 1);
      FSwap(k, Pow(k, x, n - 1), Pow(k, y, n - 1), x, y);
    }
  }

  lemma FSwap<F(!new)>(k: Field<F>, a: F, b: F, c: F, d: F)
    requires IsField(k)
    ensures k.mul(k.mul(a, b), k.mul(c, d)) == k.mul(k.mul(a, c), k.mul(b, d))
  {
    FAssoc(k, a, b, k.mul(c, d));
    FAssoc(k, b, c, d);
    FComm(k, b, c);
    FAssoc(k, c, b, d);
    FAssoc(k, a, c, k.mul(b, d));
  }

  // ---------------------------------------------------------------- vector spaces

  /** A group together with scalars acting on it. */
  datatype Space<!F, !G> = Space(field: Field<F>, group: Group<G>, scale: (F, G) -> G)

  ghost predicate IsSpace<F(!new), G(!new)>(v: Space<F, G>) {
    && IsField(v.field)
    && IsGroup(v.group)
    && (forall x: G {:trigger At1(x)} :: At1(x) ==> v.scale(v.field.one, x) == x)
    && (forall a: F, b: F, x: G {:trigger At3(a, b, x)} :: At3(a, b, x) ==>
          && v.scale(v.field.mul(a, b), x) == v.scale(a, v.scale(b, x))
          && v.scale(v.field.add(a, b), x) == v.group.add(v.scale(a, x), v.scale(b, x)))
    && (forall a: F, x: G, y: G {:trigger At3(a, x, y)} :: At3(a, x, y) ==>
          v.scale(a, v.group.add(x, y)) == v.group.add(v.scale(a, x), v.scale(a, y)))
  }

  lemma SOne<F(!new), G(!new)>(v: Space<F, G>, x: G)
    requires IsSpace(v)
    ensures v.scale(v.field.one, x) == x
  {
    assert At1(x);
  }

  lemma SMul<F(!new), G(!new)>(v: Space<F, G>, a: F, b: F, x: G)
    requires IsSpace(v)
    ensures v.scale(v.field.mul(a, b), x) == v.scale(a, v.scale(b, x))
  {
    assert At3(a, b, x);
  }

  lemma SAddScalar<F(!new), G(!new)>(v: Space<F, G>, a: F, b: F, x: G)
    requires IsSpace(v)
    ensures v.scale(v.field.add(a, b), x) == v.group.add(v.scale(a, x), v.scale(b, x))
  {
    assert At3(a, b, x);
  }

  lemma SAdd<F(!new), G(!new)>(v: Space<F, G>, a: F, x: G, y: G)
    requires IsSpace(v)
    ensures v.scale(a, v.group.add(x, y)) == v.group.add(v.scale(a, x), v.scale(a, y))
  {
    assert At3(a, x, y);
  }

  lemma SZero<F(!new), G(!new)>(v: Space<F, G>, a: F, x: G)
    requires IsSpace(v)
    ensures v.scale(a, v.group.zero) == v.group.zero
    ensures v.scale(v.field.zero, x) == v.group.zero
  {
    var g, z := v.group, v.group.zero;
    SAdd(v, a, z, z);
    GZero(g, z);
    GZero(g, v.scale(a, z));
    GCancel(g, z, v.scale(a, z), v.scale(a, z));
    var s := v.scale(v.field.zero, x);
    SAddScalar(v, v.field.zero, v.field.zero, x);
    FAddZero(v.field, v.field.zero);
    GZero(g, s);
    GCancel(g, z, s, s);
  }

  lemma SNeg<F(!new), G(!new)>(v: Space<F, G>, a: F, x: G)
    requires IsSpace(v)
    ensures v.scale(v.field.neg(a), x) == v.group.neg(v.scale(a, x)) == v.scale(a, v.group.neg(x))
  {
    SAddScalar(v, a, v.field.neg(a), x);
    FNeg(v.field, a);
    SZero(v, a, x);
    GNegUnique(v.group, v.scale(a, x), v.scale(v.field.neg(a), x));
    SAdd(v, a, x, v.group.neg(x));
    GNeg(v.group, x);
    GNegUnique(v.group, v.scale(a, x), v.scale(a, v.group.neg(x)));
  }

  /** A non-zero scalar kills only zero. */
  lemma SNonZero<F(!new), G(!new)>(v: Space<F, G>, a: F, x: G)
    requires IsSpace(v) && a != v.field.zero && v.scale(a, x) == v.group.zero
    ensures x == v.group.zero
  {
    SMul(v, v.field.inv(a), a, x);
    FInv(v.field, a);
    SOne(v, x);
    SZero(v, v.field.inv(a), x);
  }
}
