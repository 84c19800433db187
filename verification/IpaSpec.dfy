/** Inner products of scalars and group elements, and their folding
    (aggregation/src/light_aggregator/inner_product_argument.rs). */
module IpaSpec {
  import opened Algebra
  import opened Numbers

  /** sum of s[i] * b[i] for i < n */
  function InnerTo<F, G>(v: Space<F, G>, s: seq<F>, b: seq<G>, n: nat): G
    requires n <= |s| && n <= |b|
  {
    if n == 0 then v.group.zero else v.group.add(InnerTo(v, s, b, n - 1), v.scale(s[n - 1], b[n - 1]))
  }

  function Inner<F, G>(v: Space<F, G>, s: seq<F>, b: seq<G>): G
    requires |s| == |b|
  {
    InnerTo(v, s, b, |s|)
  }

  lemma InnerStep<F, G>(v: Space<F, G>, s: seq<F>, b: seq<G>, n: nat)
    requires n <= |s| && n <= |b|
    ensures InnerTo(v, s, b, n) ==
            if n == 0 then v.group.zero else v.group.add(InnerTo(v, s, b, n - 1), v.scale(s[n - 1], b[n - 1]))
  {}

  lemma {:induction false} InnerPrefix<F, G>(v: Space<F, G>, s: seq<F>, b: seq<G>, s': seq<F>, b': seq<G>, n: nat)
    requires n <= |s| && n <= |b| && n <= |s'| && n <= |b'|
    requires forall i :: 0 <= i < n ==> s[i] == s'[i] && b[i] == b'[i]
    ensures InnerTo(v, s, b, n) == InnerTo(v, s', b', n)
  {
    hide InnerTo;
    InnerStep(v, s, b, n);
    InnerStep(v, s', b', n);
    if n > 0 {
      InnerPrefix(v, s, b, s', b', n - 1);
    }
  }

  lemma {:induction false} InnerSuffix<F(!new), G(!new)>(
      v: Space<F, G>, s: seq<F>, b: seq<G>, m: nat, t: seq<F>, c: seq<G>, n: nat)
    requires IsSpace(v) && |s| == |b| == m + |t| && |t| == |c| && n <= |t|
    requires forall i :: 0 <= i < |t| ==> s[m + i] == t[i] && b[m + i] == c[i]
    ensures InnerTo(v, s, b, m + n) == v.group.add(InnerTo(v, s, b, m), InnerTo(v, t, c, n))
  {
    hide InnerTo, IsSpace;
    SpaceGroup(v);
    InnerStep(v, t, c, n);
    if n == 0 {
      GZero(v.group, InnerTo(v, s, b, m));
    } else {
      InnerSuffix(v, s, b, m, t, c, n - 1);
      InnerStep(v, s, b, m + n);
      assert s[m + n - 1] == t[n - 1] && b[m + n - 1] == c[n - 1];
      GAssoc(v.group, InnerTo(v, s, b, m), InnerTo(v, t, c, n - 1), v.scale(t[n - 1], c[n - 1]));
    }
  }

  lemma InnerConcat<F(!new), G(!new)>(v: Space<F, G>, s: seq<F>, b: seq<G>, t: seq<F>, c: seq<G>)
    requires IsSpace(v) && |s| == |b| && |t| == |c|
    ensures Inner(v, s + t, b + c) == v.group.add(Inner(v, s, b), Inner(v, t, c))
  {
    hide IsSpace;
    InnerSuffix(v, s + t, b + c, |s|, t, c, |t|);
    InnerPrefix(v, s + t, b + c, s, b, |s|);
  }

  lemma InnerHalves<F(!new), G(!new)>(v: Space<F, G>, s: seq<F>, b: seq<G>, h: nat)
    requires IsSpace(v) && |s| == |b| && h <= |s|
    ensures Inner(v, s, b) == v.group.add(Inner(v, s[..h], b[..h]), Inner(v, s[h..], b[h..]))
  {
    hide IsSpace, InnerTo;
    InnerConcat(v, s[..h], b[..h], s[h..], b[h..]);
    assert s[..h] + s[h..] == s && b[..h] + b[h..] == b;
  }

  lemma InnerOne<F(!new), G(!new)>(v: Space<F, G>, a: F, x: G)
    requires IsSpace(v)
    ensures Inner(v, [a], [x]) == v.scale(a, x)
  {
    assert InnerTo(v, [a], [x], 1) == v.group.add(v.group.zero, v.scale(a, x));
    GZero(v.group, v.scale(a, x));
  }

  lemma InnerTwo<F(!new), G(!new)>(v: Space<F, G>, a: F, x: G, c: F, y: G)
    requires IsSpace(v)
    ensures Inner(v, [a, c], [x, y]) == v.group.add(v.scale(a, x), v.scale(c, y))
  {
    hide IsSpace, InnerTo;
    InnerConcat(v, [a], [x], [c], [y]);
    InnerOne(v, a, x);
    InnerOne(v, c, y);
    assert [a] + [c] == [a, c] && [x] + [y] == [x, y];
  }

  // ---------------------------------------------------------------- folding

  /** c0 * v0 + c1 * v1, entry by entry. */
  function Fold<S, T>(add: (T, T) -> T, scale: (S, T) -> T, c0: S, v0: seq<T>, c1: S, v1: seq<T>): (r: seq<T>)
    requires |v0| == |v1|
    ensures |r| == |v0|
  {
    seq(|v0|, i requires 0 <= i < |v0| => add(scale(c0, v0[i]), scale(c1, v1[i])))
  }

  function FoldPoints<F, G>(v: Space<F, G>, c0: F, v0: seq<G>, c1: F, v1: seq<G>): (r: seq<G>)
    requires |v0| == |v1|
    ensures |r| == |v0|
  {
    Fold(v.group.add, v.scale, c0, v0, c1, v1)
  }

  function FoldScalars<F>(k: Field<F>, c0: F, v0: seq<F>, c1: F, v1: seq<F>): (r: seq<F>)
    requires |v0| == |v1|
    ensures |r| == |v0|
  {
    Fold(k.add, k.mul, c0, v0, c1, v1)
  }

  /** Folding the points distributes over the inner product. */
  lemma {:induction false} InnerFoldPoints<F(!new), G(!new)>(
      v: Space<F, G>, s: seq<F>, c0: F, x: seq<G>, c1: F, y: seq<G>, n: nat)
    requires IsSpace(v) && |x| == |y| == |s| && n <= |s|
    ensures InnerTo(v, s, FoldPoints(v, c0, x, c1, y), n) ==
            v.group.add(v.scale(c0, InnerTo(v, s, x, n)), v.scale(c1, InnerTo(v, s, y, n)))
  {
    hide InnerTo, IsSpace;
    SpaceGroup(v);
    var g, z := v.group, FoldPoints(v, c0, x, c1, y);
    InnerStep(v, s, x, n);
    InnerStep(v, s, y, n);
    InnerStep(v, s, z, n);
    if n == 0 {
      SZero(v, c0, g.zero);
      SZero(v, c1, g.zero);
      GZero(g, g.zero);
    } else {
      InnerFoldPoints(v, s, c0, x, c1, y, n - 1);
      PointTerm(v, InnerTo(v, s, x, n - 1), InnerTo(v, s, y, n - 1), s[n - 1], c0, x[n - 1], c1, y[n - 1]);
    }
  }

  /** (c0*X + c1*Y) + a*(c0*p + c1*q) == c0*(X + a*p) + c1*(Y + a*q) */
  lemma PointTerm<F(!new), G(!new)>(v: Space<F, G>, X: G, Y: G, a: F, c0: F, p: G, c1: F, q: G)
    requires IsSpace(v)
    ensures v.group.add(v.group.add(v.scale(c0, X), v.scale(c1, Y)), v.scale(a, v.group.add(v.scale(c0, p), v.scale(c1, q)))) ==
            v.group.add(v.scale(c0, v.group.add(X, v.scale(a, p))), v.scale(c1, v.group.add(Y, v.scale(a, q))))
  {
    hide IsSpace;
    SpaceGroup(v);
    SAdd(v, a, v.scale(c0, p), v.scale(c1, q));
    ScaleSwap(v, a, c0, p);
    ScaleSwap(v, a, c1, q);
    GSwap(v.group, v.scale(c0, X), v.scale(c1, Y), v.scale(c0, v.scale(a, p)), v.scale(c1, v.scale(a, q)));
    SAdd(v, c0, X, v.scale(a, p));
    SAdd(v, c1, Y, v.scale(a, q));
  }

  lemma SpaceGroup<F(!new), G(!new)>(v: Space<F, G>)
    requires IsSpace(v)
    ensures IsGroup(v.group) && IsField(v.field)
  {}

  lemma ScaleSwap<F(!new), G(!new)>(v: Space<F, G>, a: F, c: F, p: G)
    requires IsSpace(v)
    ensures v.scale(a, v.scale(c, p)) == v.scale(c, v.scale(a, p))
  {
    SMul(v, a, c, p);
    SMul(v, c, a, p);
    FComm(v.field, a, c);
  }

  /** Folding the scalars distributes over the inner product. */
  lemma {:induction false} InnerFoldScalars<F(!new), G(!new)>(
      v: Space<F, G>, c0: F, s: seq<F>, c1: F, t: seq<F>, b: seq<G>, n: nat)
    requires IsSpace(v) && |s| == |t| == |b| && n <= |s|
    ensures InnerTo(v, FoldScalars(v.field, c0, s, c1, t), b, n) ==
            v.group.add(v.scale(c0, InnerTo(v, s, b, n)), v.scale(c1, InnerTo(v, t, b, n)))
  {
    hide InnerTo, IsSpace;
    SpaceGroup(v);
    var g, w := v.group, FoldScalars(v.field, c0, s, c1, t);
    InnerStep(v, s, b, n);
    InnerStep(v, t, b, n);
    InnerStep(v, w, b, n);
    if n == 0 {
      SZero(v, c0, g.zero);
      SZero(v, c1, g.zero);
      GZero(g, g.zero);
    } else {
      InnerFoldScalars(v, c0, s, c1, t, b, n - 1);
      ScalarTerm(v, InnerTo(v, s, b, n - 1), InnerTo(v, t, b, n - 1), c0, s[n - 1], c1, t[n - 1], b[n - 1]);
    }
  }

  /** (c0*X + c1*Y) + (c0*p + c1*q)*x == c0*(X + p*x) + c1*(Y + q*x) */
  lemma ScalarTerm<F(!new), G(!new)>(v: Space<F, G>, X: G, Y: G, c0: F, p: F, c1: F, q: F, x: G)
    requires IsSpace(v)
    ensures v.group.add(v.group.add(v.scale(c0, X), v.scale(c1, Y)), v.scale(v.field.add(v.field.mul(c0, p), v.field.mul(c1, q)), x)) ==
            v.group.add(v.scale(c0, v.group.add(X, v.scale(p, x))), v.scale(c1, v.group.add(Y, v.scale(q, x))))
  {
    hide IsSpace;
    SpaceGroup(v);
    SAddScalar(v, v.field.mul(c0, p), v.field.mul(c1, q), x);
    SMul(v, c0, p, x);
    SMul(v, c1, q, x);
    GSwap(v.group, v.scale(c0, X), v.scale(c1, Y), v.scale(c0, v.scale(p, x)), v.scale(c1, v.scale(q, x)));
    SAdd(v, c0, X, v.scale(p, x));
    SAdd(v, c1, Y, v.scale(q, x));
  }

  /** Scaling every scalar scales the inner product. */
  lemma {:induction false} InnerScale<F(!new), G(!new)>(v: Space<F, G>, c: F, s: seq<F>, t: seq<F>, b: seq<G>, n: nat)
    requires IsSpace(v) && |s| == |t| == |b| && n <= |s|
    requires forall i :: 0 <= i < n ==> t[i] == v.field.mul(s[i], c)
    ensures InnerTo(v, t, b, n) == v.scale(c, InnerTo(v, s, b, n))
  {
    hide InnerTo, IsSpace;
    SpaceGroup(v);
    InnerStep(v, s, b, n);
    InnerStep(v, t, b, n);
    if n == 0 {
      SZero(v, c, v.group.zero);
    } else {
      InnerScale(v, c, s, t, b, n - 1);
      FComm(v.field, s[n - 1], c);
      SMul(v, c, s[n - 1], b[n - 1]);
      SAdd(v, c, InnerTo(v, s, b, n - 1), v.scale(s[n - 1], b[n - 1]));
    }
  }

  // ---------------------------------------------------------------- one round

  /** L and R of a round, as the prover computes them. */
  function Left<F, G>(v: Space<F, G>, s: seq<F>, b: seq<G>, h: nat): G
    requires |s| == |b| == 2 * h
  {
    Inner(v, s[..h], b[h..])
  }

  function Right<F, G>(v: Space<F, G>, s: seq<F>, b: seq<G>, h: nat): G
    requires |s| == |b| == 2 * h
  {
    Inner(v, s[h..], b[..h])
  }

  /** u^2 * l + u^-2 * r */
  ghost function Cross<F, G>(v: Space<F, G>, u: F, l: G, r: G): G {
    v.group.add(v.scale(v.field.Sq(u), l), v.scale(v.field.Sq(v.field.inv(u)), r))
  }

  /** u * (u * a + w * b) == u^2 * a + b when u * w == 1 */
  lemma UnitDistributes<F(!new), G(!new)>(v: Space<F, G>, u: F, w: F, a: G, b: G)
    requires IsSpace(v) && v.field.mul(u, w) == v.field.one
    ensures v.scale(u, v.group.add(v.scale(u, a), v.scale(w, b))) == v.group.add(v.scale(v.field.Sq(u), a), b)
    ensures v.scale(w, v.group.add(v.scale(u, a), v.scale(w, b))) == v.group.add(a, v.scale(v.field.Sq(w), b))
  {
    SAdd(v, u, v.scale(u, a), v.scale(w, b));
    SMul(v, u, u, a);
    SMul(v, u, w, b);
    SOne(v, b);
    SAdd(v, w, v.scale(u, a), v.scale(w, b));
    SMul(v, w, w, b);
    SMul(v, w, u, a);
    FComm(v.field, u, w);
    SOne(v, a);
  }

  /** Folding both vectors changes their inner product by the cross terms only. */
  lemma FoldRound<F(!new), G(!new)>(v: Space<F, G>, s: seq<F>, b: seq<G>, h: nat, u: F)
    requires IsSpace(v) && |s| == |b| == 2 * h && u != v.field.zero
    ensures var w := v.field.inv(u);
            Inner(v, FoldScalars(v.field, u, s[..h], w, s[h..]), FoldPoints(v, u, b[h..], w, b[..h])) ==
            v.group.add(Inner(v, s, b), Cross(v, u, Left(v, s, b, h), Right(v, s, b, h)))
  {
    hide InnerTo, FoldPoints, FoldScalars;
    var g, w := v.group, v.field.inv(u);
    FInv(v.field, u);
    hide IsSpace;
    SpaceGroup(v);
    var b' := FoldPoints(v, u, b[h..], w, b[..h]);
    InnerFoldScalars(v, u, s[..h], w, s[h..], b', h);
    InnerFoldPoints(v, s[..h], u, b[h..], w, b[..h], h);
    InnerFoldPoints(v, s[h..], u, b[h..], w, b[..h], h);
    var l, r := Left(v, s, b, h), Right(v, s, b, h);
    var ll, rr := Inner(v, s[..h], b[..h]), Inner(v, s[h..], b[h..]);
    UnitDistributes(v, u, w, l, ll);
    UnitDistributes(v, u, w, rr, r);
    InnerHalves(v, s, b, h);
    RoundShuffle(g, v.scale(v.field.Sq(u), l), ll, rr, v.scale(v.field.Sq(w), r));
  }

  /** (a + b) + (c + d) == (b + c) + (a + d) */
  lemma RoundShuffle<G(!new)>(g: Group<G>, a: G, b: G, c: G, d: G)
    requires IsGroup(g)
    ensures g.add(g.add(a, b), g.add(c, d)) == g.add(g.add(b, c), g.add(a, d))
  {
    GComm(g, a, b);
    GSwap(g, b, a, c, d);
  }

  // ---------------------------------------------------------------- all rounds

  /** One round: the two cross terms and the challenge. */
  datatype Round<F, G> = Round(l: G, r: G, u: F)

  ghost predicate NonZero<F, G>(v: Space<F, G>, rounds: seq<Round<F, G>>) {
    forall i :: 0 <= i < |rounds| ==> rounds[i].u != v.field.zero
  }

  ghost function CrossSum<F, G>(v: Space<F, G>, rounds: seq<Round<F, G>>, i: nat): G
    requires i <= |rounds|
  {
    if i == 0 then v.group.zero
    else v.group.add(CrossSum(v, rounds, i - 1), Cross(v, rounds[i - 1].u, rounds[i - 1].l, rounds[i - 1].r))
  }

  /** The bases after i rounds of folding 2^k of them. */
  ghost function FoldBases<F, G>(v: Space<F, G>, rounds: seq<Round<F, G>>, k: nat, b: seq<G>, i: nat): (r: seq<G>)
    requires i <= k && i <= |rounds| && |b| == Pow2(k)
    ensures |r| == Pow2(k - i)
  {
    if i == 0 then b
    else
      var c, u := FoldBases(v, rounds, k, b, i - 1), rounds[i - 1].u;
      var h := Pow2(k - i);
      FoldPoints(v, u, c[h..], v.field.inv(u), c[..h])
  }

  ghost function FoldSecrets<F, G>(v: Space<F, G>, rounds: seq<Round<F, G>>, k: nat, s: seq<F>, i: nat): (r: seq<F>)
    requires i <= k && i <= |rounds| && |s| == Pow2(k)
    ensures |r| == Pow2(k - i)
  {
    if i == 0 then s
    else
      var c, u := FoldSecrets(v, rounds, k, s, i - 1), rounds[i - 1].u;
      var h := Pow2(k - i);
      FoldScalars(v.field, u, c[..h], v.field.inv(u), c[h..])
  }

  /** The cross terms of the first n rounds are those of an honest prover. */
  ghost predicate HonestTo<F, G>(v: Space<F, G>, rounds: seq<Round<F, G>>, k: nat, s: seq<F>, b: seq<G>, n: nat)
    requires n <= k && n <= |rounds| && |s| == |b| == Pow2(k)
  {
    forall i :: 0 <= i < n ==> HonestAt(v, rounds, k, s, b, i)
  }

  ghost predicate HonestAt<F, G>(v: Space<F, G>, rounds: seq<Round<F, G>>, k: nat, s: seq<F>, b: seq<G>, i: nat)
    requires i < k && i < |rounds| && |s| == |b| == Pow2(k)
  {
    var t, c, h := FoldSecrets(v, rounds, k, s, i), FoldBases(v, rounds, k, b, i), Pow2(k - i - 1);
    rounds[i].l == Left(v, t, c, h) && rounds[i].r == Right(v, t, c, h)
  }

  lemma {:induction false} FoldPrefix<F, G>(
      v: Space<F, G>, rounds: seq<Round<F, G>>, more: seq<Round<F, G>>, k: nat, s: seq<F>, b: seq<G>, i: nat)
    requires i <= |rounds| <= |more| && more[..|rounds|] == rounds && i <= k && |s| == |b| == Pow2(k)
    ensures FoldBases(v, more, k, b, i) == FoldBases(v, rounds, k, b, i)
    ensures FoldSecrets(v, more, k, s, i) == FoldSecrets(v, rounds, k, s, i)
  {
    hide FoldPoints, FoldScalars;
    if i > 0 {
      FoldPrefix(v, rounds, more, k, s, b, i - 1);
      assert more[i - 1] == rounds[i - 1];
    }
  }

  /** One more honest round. */
  lemma HonestSnoc<F, G>(v: Space<F, G>, rounds: seq<Round<F, G>>, k: nat, s: seq<F>, b: seq<G>, x: Round<F, G>)
    requires |rounds| < k && |s| == |b| == Pow2(k) && HonestTo(v, rounds, k, s, b, |rounds|)
    requires var t, c, h := FoldSecrets(v, rounds, k, s, |rounds|), FoldBases(v, rounds, k, b, |rounds|), Pow2(k - |rounds| - 1);
             x.l == Left(v, t, c, h) && x.r == Right(v, t, c, h)
    ensures HonestTo(v, rounds + [x], k, s, b, |rounds| + 1)
  {
    hide FoldBases, FoldSecrets, Left, Right;
    var more := rounds + [x];
    forall i | 0 <= i < |more|
      ensures HonestAt(v, more, k, s, b, i)
    {
      FoldPrefix(v, rounds, more, k, s, b, i);
      assert i < |rounds| ==> HonestAt(v, rounds, k, s, b, i);
    }
  }

  /** Honest folding keeps the inner product up to the cross terms. */
  lemma {:induction false} HonestInner<F(!new), G(!new)>(
      v: Space<F, G>, rounds: seq<Round<F, G>>, k: nat, s: seq<F>, b: seq<G>, i: nat)
    requires IsSpace(v) && i <= k <= |rounds| && |s| == |b| == Pow2(k)
    requires NonZero(v, rounds) && HonestTo(v, rounds, k, s, b, i)
    ensures Inner(v, FoldSecrets(v, rounds, k, s, i), FoldBases(v, rounds, k, b, i)) ==
            v.group.add(Inner(v, s, b), CrossSum(v, rounds, i))
  {
    hide IsSpace, Inner, Left, Right, Cross;
    SpaceGroup(v);
    if i == 0 {
      GZero(v.group, Inner(v, s, b));
    } else {
      HonestInner(v, rounds, k, s, b, i - 1);
      var t, c, h := FoldSecrets(v, rounds, k, s, i - 1), FoldBases(v, rounds, k, b, i - 1), Pow2(k - i);
      assert HonestAt(v, rounds, k, s, b, i - 1);
      FoldRound(v, t, c, h, rounds[i - 1].u);
      GAssoc(v.group, Inner(v, s, b), CrossSum(v, rounds, i - 1), Cross(v, rounds[i - 1].u, rounds[i - 1].l, rounds[i - 1].r));
    }
  }

  // ---------------------------------------------------------------- the verifier's scalars

  /** Doubles a scalar vector: the left half times 1/u, the right half times u. */
  function Spread<F>(k: Field<F>, w: seq<F>, u: F): (r: seq<F>)
    ensures |r| == 2 * |w|
  {
    seq(|w|, i requires 0 <= i < |w| => k.mul(w[i], k.inv(u))) + seq(|w|, i requires 0 <= i < |w| => k.mul(w[i], u))
  }

  /** Spreads over the first i rounds, the last of them first. */
  ghost function Expand<F, G>(k: Field<F>, rounds: seq<Round<F, G>>, i: nat, w: seq<F>): (r: seq<F>)
    requires i <= |rounds|
    ensures |r| == Pow2(i) * |w|
  {
    if i == 0 then w
    else
      assert Pow2(i - 1) * (2 * |w|) == Pow2(i) * |w|;
      Expand(k, rounds, i - 1, Spread(k, w, rounds[i - 1].u))
  }

  lemma SpreadInner<F(!new), G(!new)>(v: Space<F, G>, w: seq<F>, b: seq<G>, u: F, h: nat)
    requires IsSpace(v) && |w| == h && |b| == 2 * h
    ensures Inner(v, Spread(v.field, w, u), b) == Inner(v, w, FoldPoints(v, u, b[h..], v.field.inv(u), b[..h]))
  {
    hide IsSpace, InnerTo, FoldPoints;
    SpaceGroup(v);
    var inv, t := v.field.inv(u), Spread(v.field, w, u);
    InnerHalves(v, t, b, h);
    InnerScale(v, inv, w, t[..h], b[..h], h);
    InnerScale(v, u, w, t[h..], b[h..], h);
    InnerFoldPoints(v, w, u, b[h..], inv, b[..h], h);
    GComm(v.group, v.scale(inv, Inner(v, w, b[..h])), v.scale(u, Inner(v, w, b[h..])));
  }

  /** The spread scalars on the original bases are the scalars on the folded bases. */
  lemma {:induction false} ExpandInner<F(!new), G(!new)>(
      v: Space<F, G>, rounds: seq<Round<F, G>>, k: nat, b: seq<G>, i: nat, w: seq<F>)
    requires IsSpace(v) && i <= k <= |rounds| && |b| == Pow2(k) && |w| == Pow2(k - i)
    requires |Expand(v.field, rounds, i, w)| == |b|
    ensures Inner(v, Expand(v.field, rounds, i, w), b) == Inner(v, w, FoldBases(v, rounds, k, b, i))
  {
    hide IsSpace, Inner, Spread;
    if i > 0 {
      var u, h := rounds[i - 1].u, Pow2(k - i);
      SpreadInner(v, w, FoldBases(v, rounds, k, b, i - 1), u, h);
      ExpandInner(v, rounds, k, b, i - 1, Spread(v.field, w, u));
    }
  }
}
