/** From accepted transcripts to both claims of the inner product argument
    (aggregation/src/light_aggregator/inner_product_argument.rs): three batching challenges give scalars that
    satisfy the two claims, or a linear relation among the bases. */
module IpaBinding {
  import opened Algebra
  import opened Numbers
  import opened IpaSpec
  import opened IpaSoundness
  import opened Ipa

  // ---------------------------------------------------------------- accepted transcripts

  /** Some hash function leads to this transcript at the batching challenge r, and the verifier accepts it. */
  ghost predicate Replayed<F(!new), G(!new)>(
      v: Space<F, G>, rounds: seq<Round<F, G>>, s: F, b1: seq<G>, b2: seq<G>, res1: G, res2: G, r: F)
  {
    exists hash: seq<Item<F, G>> -> F :: ReplayedBy(v, hash, rounds, s, b1, b2, res1, res2, r)
  }

  ghost predicate ReplayedBy<F, G>(
      v: Space<F, G>, hash: seq<Item<F, G>> -> F, rounds: seq<Round<F, G>>, s: F,
      b1: seq<G>, b2: seq<G>, res1: G, res2: G, r: F)
  {
    var start := StatementLog([], b1, b2, res1, res2);
    && hash(start) == r && Consistent(hash, start + [Squeezed], rounds)
    && Verdict(v, hash, [], ProofOf(rounds, |rounds|) + [Scalar(s)], b1, b2, res1, res2) == Accepted
  }

  ghost predicate AllReplayed<F(!new), G(!new)>(
      v: Space<F, G>, t: Tree<F, G>, k: nat, b1: seq<G>, b2: seq<G>, res1: G, res2: G, r: F)
  {
    forall path: seq<nat> :: |path| == k ==> Replayed(v, RoundsOf(t, path), ScalarOf(t, path), b1, b2, res1, res2, r)
  }

  /** On written rounds the verdict is the verifier's equation. */
  lemma VerdictOnWritten<F(!new), G(!new)>(
      v: Space<F, G>, hash: seq<Item<F, G>> -> F, rounds: seq<Round<F, G>>, s: F,
      b1: seq<G>, b2: seq<G>, res1: G, res2: G, r: F)
    requires |b1| == |b2| == Pow2(|rounds|) && NonZero(v, rounds) && ReplayedBy(v, hash, rounds, s, b1, b2, res1, res2, r)
    ensures VerifierHolds(v, rounds, s, b1, b2, res1, res2, r)
  {
    hide VerifierHolds, StatementLog, Parse, ProofOf, LogAfter, Pow2;
    var k, start := |rounds|, StatementLog([], b1, b2, res1, res2);
    var proof := ProofOf(rounds, k) + [Scalar(s)];
    Log2Complete(k);
    ParseWritten(v, hash, start + [Squeezed], rounds, [Scalar(s)], proof, k);
    assert rounds[..k] == rounds;
    assert proof[2 * k..] == [Scalar(s)];
  }

  lemma {:induction false} TreeRounds<F, G>(v: Space<F, G>, t: Tree<F, G>, path: seq<nat>)
    requires Full(v, t, |path|)
    ensures |RoundsOf(t, path)| == |path| && NonZero(v, RoundsOf(t, path))
    decreases |path|
  {
    if |path| > 0 {
      FullChild(v, t, |path|, path[0]);
      TreeRounds(v, ChildAt(t, path[0]), path[1..]);
    }
  }

  /** Transcripts that IpaVerify accepts satisfy its equation. */
  lemma ReplayedIsAccepted<F(!new), G(!new)>(
      v: Space<F, G>, t: Tree<F, G>, k: nat, b1: seq<G>, b2: seq<G>, res1: G, res2: G, r: F)
    requires |b1| == |b2| == Pow2(k) && Full(v, t, k) && AllReplayed(v, t, k, b1, b2, res1, res2, r)
    ensures AllAccepted(v, t, k, b1, b2, res1, res2, r)
  {
    hide VerifierHolds, ReplayedBy, RoundsOf, ScalarOf, NonZero, Pow2, Full;
    forall path: seq<nat> | |path| == k
      ensures |RoundsOf(t, path)| == k && VerifierHolds(v, RoundsOf(t, path), ScalarOf(t, path), b1, b2, res1, res2, r)
    {
      TreeRounds(v, t, path);
      assert Replayed(v, RoundsOf(t, path), ScalarOf(t, path), b1, b2, res1, res2, r);
      var hash: seq<Item<F, G>> -> F :| ReplayedBy(v, hash, RoundsOf(t, path), ScalarOf(t, path), b1, b2, res1, res2, r);
      VerdictOnWritten(v, hash, RoundsOf(t, path), ScalarOf(t, path), b1, b2, res1, res2, r);
    }
  }

  // ---------------------------------------------------------------- a relation among the bases

  /** Scalars, not all zero, that combine both base vectors to zero. */
  ghost predicate IsRelation<F, G>(v: Space<F, G>, b1: seq<G>, b2: seq<G>, a: seq<F>, b: seq<F>)
    requires |a| == |b| == |b1| == |b2|
  {
    && (exists i :: 0 <= i < |a| && (a[i] != v.field.zero || b[i] != v.field.zero))
    && v.group.add(Inner(v, a, b1), Inner(v, b, b2)) == v.group.zero
  }

  /** c1*s1 + c2*s2 + c3*s3 */
  ghost function Three<F>(k: Field<F>, c1: F, s1: seq<F>, c2: F, s2: seq<F>, c3: F, s3: seq<F>): (s: seq<F>)
    requires |s1| == |s2| == |s3|
    ensures |s| == |s1|
  {
    FoldScalars(k, k.one, FoldScalars(k, c1, s1, c2, s2), c3, s3)
  }

  lemma ThreeInner<F(!new), G(!new)>(v: Space<F, G>, b: seq<G>, c1: F, s1: seq<F>, c2: F, s2: seq<F>, c3: F, s3: seq<F>)
    requires IsSpace(v) && |s1| == |s2| == |s3| == |b|
    ensures Inner(v, Three(v.field, c1, s1, c2, s2, c3, s3), b) ==
            v.group.add(v.group.add(v.scale(c1, Inner(v, s1, b)), v.scale(c2, Inner(v, s2, b))), v.scale(c3, Inner(v, s3, b)))
  {
    hide IsSpace, Inner, FoldScalars;
    var w := FoldScalars(v.field, c1, s1, c2, s2);
    Combine(v, b, v.field.one, w, c3, s3);
    Combine(v, b, c1, s1, c2, s2);
    SOne(v, Inner(v, w, b));
  }

  /** The three coefficients: e = r2 - r3, -f for f = r1 - r3, and minus their sum. */
  ghost function Weights<F>(k: Field<F>, r1: F, r2: F, r3: F): (F, F, F) {
    var c1, c2 := k.Sub(r2, r3), k.neg(k.Sub(r1, r3));
    (c1, c2, k.neg(k.add(c1, c2)))
  }

  lemma WeightsNonZero<F(!new)>(k: Field<F>, r1: F, r2: F, r3: F)
    requires IsField(k) && r1 != r2 && r1 != r3 && r2 != r3
    ensures var (c1, c2, c3) := Weights(k, r1, r2, r3);
            c1 != k.zero && k.Sub(r1, r3) != k.zero && c3 != k.zero
  {
    var g, e, f := k.AddGroup(), k.Sub(r2, r3), k.Sub(r1, r3);
    FSubZero(k, r2, r3);
    FSubZero(k, r1, r3);
    FSubZero(k, e, f);
    if e == f {
      GCancel(g, r2, r1, k.neg(r3));
    }
    GNegZero(g);
    FNeg(k, k.Sub(e, f));
  }

  /** c + r*d == (c + q*d) + (r - q)*d */
  lemma Rebase<F(!new), G(!new)>(v: Space<F, G>, c: G, d: G, r: F, q: F)
    requires IsSpace(v)
    ensures v.group.add(c, v.scale(r, d)) == v.group.add(v.group.add(c, v.scale(q, d)), v.scale(v.field.Sub(r, q), d))
  {
    var k := v.field;
    GAssoc(v.group, c, v.scale(q, d), v.scale(k.Sub(r, q), d));
    SAddScalar(v, q, k.Sub(r, q), d);
    FAddComm(k, q, k.Sub(r, q));
    MoveOver(k, k.Sub(r, q), q, r);
  }

  /** The weighted batched values cancel. */
  lemma Vanish<F(!new), G(!new)>(v: Space<F, G>, c: G, d: G, r1: F, r2: F, r3: F)
    requires IsSpace(v)
    ensures var (c1, c2, c3) := Weights(v.field, r1, r2, r3);
            v.group.add(v.group.add(v.scale(c1, v.group.add(c, v.scale(r1, d))), v.scale(c2, v.group.add(c, v.scale(r2, d)))),
                        v.scale(c3, v.group.add(c, v.scale(r3, d)))) == v.group.zero
  {
    var g, k := v.group, v.field;
    var e, f := k.Sub(r2, r3), k.Sub(r1, r3);
    var (c1, c2, c3) := Weights(k, r1, r2, r3);
    var y := g.add(c, v.scale(r3, d));
    Rebase(v, c, d, r1, r3);
    Rebase(v, c, d, r2, r3);
    SAdd(v, c1, y, v.scale(f, d));
    SAdd(v, c2, y, v.scale(e, d));
    SMul(v, c1, f, d);
    SMul(v, c2, e, d);
    FComm(k, e, f);
    FMulNeg(k, f, e);
    SNeg(v, k.mul(e, f), d);
    var m := v.scale(k.mul(e, f), d);
    GSwap(g, v.scale(c1, y), m, v.scale(c2, y), g.neg(m));
    GNeg(g, m);
    SAddScalar(v, c1, c2, y);
    GZero(g, v.scale(k.add(c1, c2), y));
    SNeg(v, k.add(c1, c2), y);
    GNeg(g, v.scale(k.add(c1, c2), y));
  }

  /** Scalars of one coordinate that vanish in both combinations are equal. */
  lemma Coordinate<F(!new)>(k: Field<F>, r1: F, r2: F, r3: F, x1: F, x2: F, x3: F)
    requires IsField(k) && r1 != r2 && r1 != r3 && r2 != r3
    requires var (c1, c2, c3) := Weights(k, r1, r2, r3);
             && k.add(k.add(k.mul(c1, x1), k.mul(c2, x2)), k.mul(c3, x3)) == k.zero
             && k.add(k.add(k.mul(k.mul(c1, r1), x1), k.mul(k.mul(c2, r2), x2)), k.mul(k.mul(c3, r3), x3)) == k.zero
    ensures x1 == x2 == x3
  {
    var g, e, f := k.AddGroup(), k.Sub(r2, r3), k.Sub(r1, r3);
    var (c1, c2, c3) := Weights(k, r1, r2, r3);
    WeightsNonZero(k, r1, r2, r3);
    var a1, a2, a3 := k.mul(c1, x1), k.mul(c2, x2), k.mul(c3, x3);
    // the second sum minus r3 times the first is f*a1 + e*a2
    Eliminated(k, r1, r2, r3, a1, a2, a3, c1, x1, c2, x2, c3, x3);
    assert k.add(k.mul(f, a1), k.mul(e, a2)) == k.zero;
    // f*(e*x1) - e*(f*x2) == (e*f)*(x1 - x2)
    FAssoc(k, f, e, x1);
    FComm(k, f, e);
    FMulNeg(k, f, x2);
    FMulNeg(k, e, k.mul(f, x2));
    FAssoc(k, e, f, x2);
    SubTimes(k, x1, x2, k.mul(e, f));
    FNoZeroDivisors(k, e, f);
    FNoZeroDivisors(k, k.mul(e, f), k.Sub(x1, x2));
    FSubZero(k, x1, x2);
    assert x1 == x2;
    // (c1 + c2)*x1 + c3*x3 == -c3*x1 + c3*x3
    var s := k.add(c1, c2);
    FDist(k, x1, c1, c2);
    FMulNeg(k, s, x3);
    SubTimes(k, x1, x3, s);
    FNeg(k, s);
    GNegZero(g);
    FNoZeroDivisors(k, s, k.Sub(x1, x3));
    FSubZero(k, x1, x3);
  }

  lemma Eliminated<F(!new)>(
      k: Field<F>, r1: F, r2: F, r3: F, a1: F, a2: F, a3: F, c1: F, x1: F, c2: F, x2: F, c3: F, x3: F)
    requires IsField(k) && a1 == k.mul(c1, x1) && a2 == k.mul(c2, x2) && a3 == k.mul(c3, x3)
    requires k.add(k.add(a1, a2), a3) == k.zero
    requires k.add(k.add(k.mul(k.mul(c1, r1), x1), k.mul(k.mul(c2, r2), x2)), k.mul(k.mul(c3, r3), x3)) == k.zero
    ensures k.add(k.mul(k.Sub(r1, r3), a1), k.mul(k.Sub(r2, r3), a2)) == k.zero
  {
    var g := k.AddGroup();
    Reorder(k, c1, r1, x1);
    Reorder(k, c2, r2, x2);
    Reorder(k, c3, r3, x3);
    // r3*a3 == -(r3*a1 + r3*a2)
    GNegUnique(g, k.add(a1, a2), a3);
    FMulNeg(k, r3, k.add(a1, a2));
    FDist(k, r3, a1, a2);
    var p1, p2, q1, q2 := k.mul(r1, a1), k.mul(r2, a2), k.mul(r3, a1), k.mul(r3, a2);
    GNegAdd(g, q1, q2);
    GSwap(g, p1, p2, k.neg(q1), k.neg(q2));
    SubTimes(k, r1, r3, a1);
    SubTimes(k, r2, r3, a2);
  }

  /** (c*r)*x == r*(c*x) */
  lemma Reorder<F(!new)>(k: Field<F>, c: F, r: F, x: F)
    requires IsField(k)
    ensures k.mul(k.mul(c, r), x) == k.mul(r, k.mul(c, x))
  {
    FComm(k, c, r);
    FAssoc(k, r, c, x);
  }

  /** The two vectors of the relation. */
  ghost function RelationOf<F>(k: Field<F>, r1: F, s1: seq<F>, r2: F, s2: seq<F>, r3: F, s3: seq<F>): (seq<F>, seq<F>)
    requires |s1| == |s2| == |s3|
  {
    var (c1, c2, c3) := Weights(k, r1, r2, r3);
    (Three(k, c1, s1, c2, s2, c3, s3), Three(k, k.mul(c1, r1), s1, k.mul(c2, r2), s2, k.mul(c3, r3), s3))
  }

  /** c*a + (c*r)*b == c*(a + r*b) */
  lemma Batched<F(!new), G(!new)>(v: Space<F, G>, c: F, r: F, a: G, b: G)
    requires IsSpace(v)
    ensures v.group.add(v.scale(c, a), v.scale(v.field.mul(c, r), b)) == v.scale(c, v.group.add(a, v.scale(r, b)))
  {
    SMul(v, c, r, b);
    SAdd(v, c, a, v.scale(r, b));
  }

  /** The relation's combination of the bases is zero. */
  lemma RelationVanishes<F(!new), G(!new)>(
      v: Space<F, G>, b1: seq<G>, b2: seq<G>, res1: G, res2: G, r1: F, s1: seq<F>, r2: F, s2: seq<F>, r3: F, s3: seq<F>)
    requires IsSpace(v) && |b1| == |b2| == |s1| == |s2| == |s3|
    requires v.group.add(Inner(v, s1, b1), v.scale(r1, Inner(v, s1, b2))) == v.group.add(res1, v.scale(r1, res2))
    requires v.group.add(Inner(v, s2, b1), v.scale(r2, Inner(v, s2, b2))) == v.group.add(res1, v.scale(r2, res2))
    requires v.group.add(Inner(v, s3, b1), v.scale(r3, Inner(v, s3, b2))) == v.group.add(res1, v.scale(r3, res2))
    ensures var (a, b) := RelationOf(v.field, r1, s1, r2, s2, r3, s3);
            v.group.add(Inner(v, a, b1), Inner(v, b, b2)) == v.group.zero
  {
    hide IsSpace, Inner, Three, Weights;
    SpaceGroup(v);
    var g, k := v.group, v.field;
    var (c1, c2, c3) := Weights(k, r1, r2, r3);
    ThreeInner(v, b1, c1, s1, c2, s2, c3, s3);
    ThreeInner(v, b2, k.mul(c1, r1), s1, k.mul(c2, r2), s2, k.mul(c3, r3), s3);
    var x1, x2, x3 := v.scale(c1, Inner(v, s1, b1)), v.scale(c2, Inner(v, s2, b1)), v.scale(c3, Inner(v, s3, b1));
    var z1, z2, z3 := v.scale(k.mul(c1, r1), Inner(v, s1, b2)), v.scale(k.mul(c2, r2), Inner(v, s2, b2)), v.scale(k.mul(c3, r3), Inner(v, s3, b2));
    GSwap(g, g.add(x1, x2), x3, g.add(z1, z2), z3);
    GSwap(g, x1, x2, z1, z2);
    Batched(v, c1, r1, Inner(v, s1, b1), Inner(v, s1, b2));
    Batched(v, c2, r2, Inner(v, s2, b1), Inner(v, s2, b2));
    Batched(v, c3, r3, Inner(v, s3, b1), Inner(v, s3, b2));
    Vanish(v, res1, res2, r1, r2, r3);
  }

  /** If the relation is trivial, the three scalar vectors are equal. */
  lemma TrivialRelation<F(!new)>(k: Field<F>, r1: F, s1: seq<F>, r2: F, s2: seq<F>, r3: F, s3: seq<F>)
    requires IsField(k) && |s1| == |s2| == |s3| && r1 != r2 && r1 != r3 && r2 != r3
    requires var (a, b) := RelationOf(k, r1, s1, r2, s2, r3, s3);
             |a| == |b| == |s1| && forall i :: 0 <= i < |a| ==> a[i] == k.zero && b[i] == k.zero
    ensures s1 == s2 == s3
  {
    var (a, b) := RelationOf(k, r1, s1, r2, s2, r3, s3);
    var (c1, c2, c3) := Weights(k, r1, r2, r3);
    forall i | 0 <= i < |s1|
      ensures s1[i] == s2[i] == s3[i]
    {
      assert a[i] == k.zero && b[i] == k.zero;
      FOne(k, k.add(k.mul(c1, s1[i]), k.mul(c2, s2[i])));
      FOne(k, k.add(k.mul(k.mul(c1, r1), s1[i]), k.mul(k.mul(c2, r2), s2[i])));
      Coordinate(k, r1, r2, r3, s1[i], s2[i], s3[i]);
    }
  }

  /** Openings of the batched claim at three challenges open both claims with the same scalars, or give a
      relation among the bases. */
  lemma ThreeBatches<F(!new), G(!new)>(
      v: Space<F, G>, b1: seq<G>, b2: seq<G>, res1: G, res2: G, r1: F, s1: seq<F>, r2: F, s2: seq<F>, r3: F, s3: seq<F>)
    requires IsSpace(v) && |b1| == |b2| == |s1| == |s2| == |s3| && r1 != r2 && r1 != r3 && r2 != r3
    requires v.group.add(Inner(v, s1, b1), v.scale(r1, Inner(v, s1, b2))) == v.group.add(res1, v.scale(r1, res2))
    requires v.group.add(Inner(v, s2, b1), v.scale(r2, Inner(v, s2, b2))) == v.group.add(res1, v.scale(r2, res2))
    requires v.group.add(Inner(v, s3, b1), v.scale(r3, Inner(v, s3, b2))) == v.group.add(res1, v.scale(r3, res2))
    ensures var (a, b) := RelationOf(v.field, r1, s1, r2, s2, r3, s3);
            || (s1 == s2 == s3 && Inner(v, s1, b1) == res1 && Inner(v, s1, b2) == res2)
            || IsRelation(v, b1, b2, a, b)
  {
    hide IsSpace, Inner, Three, Weights;
    SpaceGroup(v);
    var (a, b) := RelationOf(v.field, r1, s1, r2, s2, r3, s3);
    RelationVanishes(v, b1, b2, res1, res2, r1, s1, r2, s2, r3, s3);
    if forall i :: 0 <= i < |a| ==> a[i] == v.field.zero && b[i] == v.field.zero {
      TrivialRelation(v.field, r1, s1, r2, s2, r3, s3);
      SeparateClaims(v, Inner(v, s1, b1), Inner(v, s1, b2), res1, res2, r1, r2);
    }
  }

  /** Full trees of transcripts that IpaVerify accepts, at three batching challenges, determine scalars that
      satisfy both claims or a relation among the bases. */
  lemma AcceptedAtThreeChallenges<F(!new), G(!new)>(
      v: Space<F, G>, k: nat, b1: seq<G>, b2: seq<G>, res1: G, res2: G,
      r1: F, t1: Tree<F, G>, r2: F, t2: Tree<F, G>, r3: F, t3: Tree<F, G>)
    requires IsSpace(v) && |b1| == |b2| == Pow2(k) && r1 != r2 && r1 != r3 && r2 != r3
    requires Full(v, t1, k) && AllReplayed(v, t1, k, b1, b2, res1, res2, r1)
    requires Full(v, t2, k) && AllReplayed(v, t2, k, b1, b2, res1, res2, r2)
    requires Full(v, t3, k) && AllReplayed(v, t3, k, b1, b2, res1, res2, r3)
    ensures var s1, s2, s3 := Extract(v, t1, k), Extract(v, t2, k), Extract(v, t3, k);
            var (a, b) := RelationOf(v.field, r1, s1, r2, s2, r3, s3);
            || (s1 == s2 == s3 && Inner(v, s1, b1) == res1 && Inner(v, s1, b2) == res2)
            || IsRelation(v, b1, b2, a, b)
  {
    hide IsSpace, Inner, AllReplayed, AllAccepted, Full, Extract, RelationOf, IsRelation;
    ReplayedIsAccepted(v, t1, k, b1, b2, res1, res2, r1);
    ReplayedIsAccepted(v, t2, k, b1, b2, res1, res2, r2);
    ReplayedIsAccepted(v, t3, k, b1, b2, res1, res2, r3);
    AcceptedTreeHasWitness(v, t1, k, b1, b2, res1, res2, r1);
    AcceptedTreeHasWitness(v, t2, k, b1, b2, res1, res2, r2);
    AcceptedTreeHasWitness(v, t3, k, b1, b2, res1, res2, r3);
    ThreeBatches(v, b1, b2, res1, res2, r1, Extract(v, t1, k), r2, Extract(v, t2, k), r3, Extract(v, t3, k));
  }

  /** Only zero scalars combine both base vectors to zero. */
  ghost predicate Independent<F(!new), G>(v: Space<F, G>, b1: seq<G>, b2: seq<G>)
    requires |b1| == |b2|
  {
    forall a: seq<F>, b: seq<F> ::
      |a| == |b| == |b1| && v.group.add(Inner(v, a, b1), Inner(v, b, b2)) == v.group.zero ==>
      forall i :: 0 <= i < |a| ==> a[i] == v.field.zero && b[i] == v.field.zero
  }

  lemma NoRelation<F(!new), G(!new)>(v: Space<F, G>, b1: seq<G>, b2: seq<G>, a: seq<F>, b: seq<F>)
    requires |a| == |b| == |b1| == |b2| && Independent(v, b1, b2)
    ensures !IsRelation(v, b1, b2, a, b)
  {
    hide Inner;
    if v.group.add(Inner(v, a, b1), Inner(v, b, b2)) == v.group.zero {
      assert forall i :: 0 <= i < |a| ==> a[i] == v.field.zero && b[i] == v.field.zero;
    }
  }

  /** For independent bases the extracted scalars satisfy both claims. */
  lemma IndependentBases<F(!new), G(!new)>(
      v: Space<F, G>, k: nat, b1: seq<G>, b2: seq<G>, res1: G, res2: G,
      r1: F, t1: Tree<F, G>, r2: F, t2: Tree<F, G>, r3: F, t3: Tree<F, G>)
    requires IsSpace(v) && |b1| == |b2| == Pow2(k) && r1 != r2 && r1 != r3 && r2 != r3 && Independent(v, b1, b2)
    requires Full(v, t1, k) && AllReplayed(v, t1, k, b1, b2, res1, res2, r1)
    requires Full(v, t2, k) && AllReplayed(v, t2, k, b1, b2, res1, res2, r2)
    requires Full(v, t3, k) && AllReplayed(v, t3, k, b1, b2, res1, res2, r3)
    ensures var s := Extract(v, t1, k); |s| == |b1| && Inner(v, s, b1) == res1 && Inner(v, s, b2) == res2
  {
    hide IsSpace, Inner, AllReplayed, Full, Extract, Three, Weights, Independent, IsRelation;
    AcceptedAtThreeChallenges(v, k, b1, b2, res1, res2, r1, t1, r2, t2, r3, t3);
    var (a, b) := RelationOf(v.field, r1, Extract(v, t1, k), r2, Extract(v, t2, k), r3, Extract(v, t3, k));
    NoRelation(v, b1, b2, a, b);
  }
}
