/** Extraction of a witness from accepting transcripts of the inner product argument
    (aggregation/src/light_aggregator/inner_product_argument.rs): three challenges per round suffice. */
module IpaSoundness {
  import opened Algebra
  import opened Numbers
  import opened IpaSpec
  import Ipa

  /** Transcripts that share their messages until they differ in a challenge, three ways at every round. */
  datatype Tree<F, G> =
    | Leaf(s: F)
    | Node(l: G, r: G, u1: F, t1: Tree<F, G>, u2: F, t2: Tree<F, G>, u3: F, t3: Tree<F, G>)

  ghost predicate Full<F, G>(v: Space<F, G>, t: Tree<F, G>, k: nat)
    decreases k
  {
    if k == 0 then t.Leaf?
    else
      && t.Node? && (forall i :: 0 <= i < 3 ==> Full(v, ChildAt(t, i), k - 1))
      && t.u1 != v.field.zero && t.u2 != v.field.zero && t.u3 != v.field.zero
      && v.field.Sq(t.u1) != v.field.Sq(t.u2) && v.field.Sq(t.u1) != v.field.Sq(t.u3) && v.field.Sq(t.u2) != v.field.Sq(t.u3)
  }

  /** The rounds and the final scalar of the transcript that takes the given branches. */
  ghost function RoundsOf<F, G>(t: Tree<F, G>, path: seq<nat>): seq<Round<F, G>>
    decreases |path|
  {
    if |path| == 0 || t.Leaf? then []
    else [Round(t.l, t.r, ChallengeAt(t, path[0]))] + RoundsOf(ChildAt(t, path[0]), path[1..])
  }

  ghost function ScalarOf<F, G>(t: Tree<F, G>, path: seq<nat>): F
    decreases t
  {
    if t.Leaf? then t.s else ScalarOf(ChildAt(t, if |path| == 0 then 0 else path[0]), if |path| == 0 then [] else path[1..])
  }

  ghost function ChallengeAt<F, G>(t: Tree<F, G>, i: nat): F
    requires t.Node?
  {
    if i == 0 then t.u1 else if i == 1 then t.u2 else t.u3
  }

  ghost function ChildAt<F, G>(t: Tree<F, G>, i: nat): (c: Tree<F, G>)
    requires t.Node?
    ensures c < t
  {
    if i == 0 then t.t1 else if i == 1 then t.t2 else t.t3
  }

  /** Branches beyond the third are the third. */
  lemma FullChild<F, G>(v: Space<F, G>, t: Tree<F, G>, k: nat, i: nat)
    requires k >= 1 && Full(v, t, k)
    ensures Full(v, ChildAt(t, i), k - 1)
  {
    var j := if i < 3 then i else 2;
    assert ChildAt(t, i) == ChildAt(t, j);
  }

  lemma {:induction false} RoundsCount<F, G>(v: Space<F, G>, t: Tree<F, G>, path: seq<nat>)
    requires Full(v, t, |path|)
    ensures |RoundsOf(t, path)| == |path|
    decreases |path|
  {
    if |path| > 0 {
      FullChild(v, t, |path|, path[0]);
      RoundsCount(v, ChildAt(t, path[0]), path[1..]);
    }
  }

  /** s * b[0] == p + cross terms, for the bases folded over the rounds: what the verifier checks. */
  ghost predicate Checks<F, G>(v: Space<F, G>, rounds: seq<Round<F, G>>, s: F, b: seq<G>, p: G)
    requires |b| == Pow2(|rounds|)
  {
    v.scale(s, FoldBases(v, rounds, |rounds|, b, |rounds|)[0]) == v.group.add(p, CrossSum(v, rounds, |rounds|))
  }

  /** Every transcript of the tree passes the verifier's check. */
  ghost predicate AllPass<F, G>(v: Space<F, G>, t: Tree<F, G>, k: nat, b: seq<G>, p: G)
    requires |b| == Pow2(k)
  {
    forall path: seq<nat> :: |path| == k ==>
      |RoundsOf(t, path)| == k && Checks(v, RoundsOf(t, path), ScalarOf(t, path), b, p)
  }

  // ---------------------------------------------------------------- the first round

  ghost function FoldOnce<F, G>(v: Space<F, G>, b: seq<G>, u: F, h: nat): (r: seq<G>)
    requires |b| == 2 * h
    ensures |r| == h
  {
    FoldPoints(v, u, b[h..], v.field.inv(u), b[..h])
  }

  /** Folding over all rounds is folding over the first and then over the others. */
  lemma {:induction false} PeelBases<F, G>(v: Space<F, G>, x: Round<F, G>, rest: seq<Round<F, G>>, k: nat, b: seq<G>, i: nat)
    requires k >= 1 && i < k && i <= |rest| && |b| == Pow2(k)
    ensures FoldBases(v, [x] + rest, k, b, i + 1) == FoldBases(v, rest, k - 1, FoldOnce(v, b, x.u, Pow2(k - 1)), i)
  {
    hide FoldPoints;
    var all := [x] + rest;
    if i == 0 {
      assert FoldBases(v, all, k, b, 0) == b;
    } else {
      PeelBases(v, x, rest, k, b, i - 1);
      assert all[i] == rest[i - 1];
    }
  }

  lemma {:induction false} PeelCross<F(!new), G(!new)>(v: Space<F, G>, x: Round<F, G>, rest: seq<Round<F, G>>, i: nat)
    requires IsSpace(v) && i <= |rest|
    ensures CrossSum(v, [x] + rest, i + 1) == v.group.add(Cross(v, x.u, x.l, x.r), CrossSum(v, rest, i))
  {
    hide Cross;
    var all, g := [x] + rest, v.group;
    if i == 0 {
      assert CrossSum(v, all, 1) == g.add(CrossSum(v, all, 0), Cross(v, x.u, x.l, x.r));
      GZero(g, Cross(v, x.u, x.l, x.r));
    } else {
      PeelCross(v, x, rest, i - 1);
      var y := rest[i - 1];
      assert all[i] == y;
      GAssoc(g, Cross(v, x.u, x.l, x.r), CrossSum(v, rest, i - 1), Cross(v, y.u, y.l, y.r));
    }
  }

  /** The check over all rounds is the check of the folded statement over the others. */
  lemma PeelChecks<F(!new), G(!new)>(v: Space<F, G>, x: Round<F, G>, rest: seq<Round<F, G>>, s: F, b: seq<G>, p: G)
    requires IsSpace(v) && |b| == Pow2(|rest| + 1)
    ensures Checks(v, [x] + rest, s, b, p) <==>
            Checks(v, rest, s, FoldOnce(v, b, x.u, Pow2(|rest|)), v.group.add(p, Cross(v, x.u, x.l, x.r)))
  {
    hide IsSpace, Cross, FoldOnce, FoldBases, CrossSum;
    var n := |rest|;
    SpaceGroup(v);
    PeelBases(v, x, rest, n + 1, b, n);
    PeelCross(v, x, rest, n);
    GAssoc(v.group, p, Cross(v, x.u, x.l, x.r), CrossSum(v, rest, n));
  }

  /** Every transcript below a child passes the check of the child's folded statement. */
  lemma ChildPasses<F(!new), G(!new)>(v: Space<F, G>, t: Tree<F, G>, k: nat, b: seq<G>, p: G, i: nat)
    requires IsSpace(v) && k >= 1 && |b| == Pow2(k) && Full(v, t, k) && AllPass(v, t, k, b, p)
    ensures var u := ChallengeAt(t, i);
            AllPass(v, ChildAt(t, i), k - 1, FoldOnce(v, b, u, Pow2(k - 1)), v.group.add(p, Cross(v, u, t.l, t.r)))
  {
    hide IsSpace, Cross, FoldOnce, Checks;
    var u, c := ChallengeAt(t, i), ChildAt(t, i);
    FullChild(v, t, k, i);
    forall path: seq<nat> | |path| == k - 1
      ensures |RoundsOf(c, path)| == k - 1
      ensures Checks(v, RoundsOf(c, path), ScalarOf(c, path), FoldOnce(v, b, u, Pow2(k - 1)), v.group.add(p, Cross(v, u, t.l, t.r)))
    {
      var longer := [i] + path;
      assert longer[1..] == path;
      RoundsCount(v, c, path);
      assert Checks(v, RoundsOf(t, longer), ScalarOf(t, longer), b, p);
      PeelChecks(v, Round(t.l, t.r, u), RoundsOf(c, path), ScalarOf(c, path), b, p);
    }
  }

  // ---------------------------------------------------------------- elimination

  /** x * (p + (x * l + y * r)) == (x * p + x^2 * l) + r when x * y == 1 */
  lemma Clear<F(!new), G(!new)>(v: Space<F, G>, x: F, y: F, p: G, l: G, r: G)
    requires IsSpace(v) && v.field.mul(x, y) == v.field.one
    ensures v.scale(x, v.group.add(p, v.group.add(v.scale(x, l), v.scale(y, r)))) ==
            v.group.add(v.group.add(v.scale(x, p), v.scale(v.field.Sq(x), l)), r)
  {
    SAdd(v, x, p, v.group.add(v.scale(x, l), v.scale(y, r)));
    SAdd(v, x, v.scale(x, l), v.scale(y, r));
    SMul(v, x, x, l);
    SMul(v, x, y, r);
    SOne(v, r);
    GAssoc(v.group, v.scale(x, p), v.scale(v.field.Sq(x), l), r);
  }

  /** a - b for group elements, as a combination with coefficients 1 and -1 scaled by c. */
  lemma ScaledDifference<F(!new), G(!new)>(v: Space<F, G>, c: F, a: G, b: G)
    requires IsSpace(v)
    ensures v.group.add(v.scale(c, a), v.scale(v.field.neg(c), b)) == v.scale(c, v.group.add(a, v.group.neg(b)))
  {
    SNeg(v, c, b);
    SAdd(v, c, a, v.group.neg(b));
  }

  /** (a + r) - (b + r) == a - b */
  lemma DropCommon<G(!new)>(g: Group<G>, a: G, b: G, r: G)
    requires IsGroup(g)
    ensures g.add(g.add(a, r), g.neg(g.add(b, r))) == g.add(a, g.neg(b))
  {
    GNegAdd(g, b, r);
    GSwap(g, a, r, g.neg(b), g.neg(r));
    GNeg(g, r);
    GZero(g, g.add(a, g.neg(b)));
  }

  /** (x1*p + x1^2*l) - (x2*p + x2^2*l) == (x1 - x2) * (p + (x1 + x2) * l) */
  lemma FactorDifference<F(!new), G(!new)>(v: Space<F, G>, x1: F, x2: F, p: G, l: G)
    requires IsSpace(v)
    ensures var g, k := v.group, v.field;
            g.add(g.add(v.scale(x1, p), v.scale(k.Sq(x1), l)), g.neg(g.add(v.scale(x2, p), v.scale(k.Sq(x2), l)))) ==
            v.scale(k.Sub(x1, x2), g.add(p, v.scale(k.add(x1, x2), l)))
  {
    var g, k := v.group, v.field;
    var d := k.Sub(x1, x2);
    GNegAdd(g, v.scale(x2, p), v.scale(k.Sq(x2), l));
    GSwap(g, v.scale(x1, p), v.scale(k.Sq(x1), l), g.neg(v.scale(x2, p)), g.neg(v.scale(k.Sq(x2), l)));
    SNeg(v, x2, p);
    SNeg(v, k.Sq(x2), l);
    SAddScalar(v, x1, k.neg(x2), p);
    SAddScalar(v, k.Sq(x1), k.neg(k.Sq(x2)), l);
    Conjugates(k, x1, x2);
    SMul(v, d, k.add(x1, x2), l);
    SAdd(v, d, p, v.scale(k.add(x1, x2), l));
  }

  /** i * (d * a) == a when d * i == 1 */
  lemma Undo<F(!new), G(!new)>(v: Space<F, G>, d: F, a: G)
    requires IsSpace(v) && d != v.field.zero
    ensures v.scale(v.field.inv(d), v.scale(d, a)) == a
  {
    SMul(v, v.field.inv(d), d, a);
    FInv(v.field, d);
    SOne(v, a);
  }

  /** A combination of two vectors represents the combination of what they represent. */
  lemma Combine<F(!new), G(!new)>(v: Space<F, G>, b: seq<G>, c0: F, w0: seq<F>, c1: F, w1: seq<F>)
    requires IsSpace(v) && |w0| == |w1| == |b|
    ensures Inner(v, FoldScalars(v.field, c0, w0, c1, w1), b) ==
            v.group.add(v.scale(c0, Inner(v, w0, b)), v.scale(c1, Inner(v, w1, b)))
  {
    hide IsSpace;
    InnerFoldScalars(v, c0, w0, c1, w1, b, |b|);
  }

  /** Removes r: from openings of p + x_i*l + r/x_i, i = 1, 2, an opening of p + (x1 + x2)*l. */
  ghost function DropRight<F>(k: Field<F>, x1: F, w1: seq<F>, x2: F, w2: seq<F>): (w: seq<F>)
    requires |w1| == |w2|
    ensures |w| == |w1|
  {
    var i := k.inv(k.Sub(x1, x2));
    FoldScalars(k, k.mul(i, x1), w1, k.neg(k.mul(i, x2)), w2)
  }

  lemma DropRightMeaning<F(!new), G(!new)>(
      v: Space<F, G>, b: seq<G>, p: G, l: G, r: G, x1: F, y1: F, w1: seq<F>, x2: F, y2: F, w2: seq<F>)
    requires IsSpace(v) && |w1| == |w2| == |b| && x1 != x2
    requires v.field.mul(x1, y1) == v.field.one && v.field.mul(x2, y2) == v.field.one
    requires Inner(v, w1, b) == v.group.add(p, v.group.add(v.scale(x1, l), v.scale(y1, r)))
    requires Inner(v, w2, b) == v.group.add(p, v.group.add(v.scale(x2, l), v.scale(y2, r)))
    ensures Inner(v, DropRight(v.field, x1, w1, x2, w2), b) == v.group.add(p, v.scale(v.field.add(x1, x2), l))
  {
    hide IsSpace, Inner, FoldScalars;
    SpaceGroup(v);
    var g, k := v.group, v.field;
    var d := k.Sub(x1, x2);
    var i := k.inv(d);
    var e1, e2 := Inner(v, w1, b), Inner(v, w2, b);
    FSubZero(k, x1, x2);
    Combine(v, b, k.mul(i, x1), w1, k.neg(k.mul(i, x2)), w2);
    SMul(v, i, x1, e1);
    SMul(v, i, x2, e2);
    SNeg(v, k.mul(i, x2), e2);
    SNeg(v, i, v.scale(x2, e2));
    ScaledDifference(v, i, v.scale(x1, e1), v.scale(x2, e2));
    Clear(v, x1, y1, p, l, r);
    Clear(v, x2, y2, p, l, r);
    DropCommon(g, g.add(v.scale(x1, p), v.scale(k.Sq(x1), l)), g.add(v.scale(x2, p), v.scale(k.Sq(x2), l)), r);
    FactorDifference(v, x1, x2, p, l);
    Undo(v, d, g.add(p, v.scale(k.add(x1, x2), l)));
  }

  /** Removes l: from openings of p + c*l and p + c'*l an opening of p. */
  ghost function DropLeft<F>(k: Field<F>, c: F, w: seq<F>, c': F, w': seq<F>): (r: seq<F>)
    requires |w| == |w'|
    ensures |r| == |w|
  {
    var e := k.mul(c, k.inv(k.Sub(c, c')));
    FoldScalars(k, k.one, w, k.neg(e), FoldScalars(k, k.one, w, k.neg(k.one), w'))
  }

  lemma DropLeftMeaning<F(!new), G(!new)>(v: Space<F, G>, b: seq<G>, p: G, l: G, c: F, w: seq<F>, c': F, w': seq<F>)
    requires IsSpace(v) && |w| == |w'| == |b| && c != c'
    requires Inner(v, w, b) == v.group.add(p, v.scale(c, l)) && Inner(v, w', b) == v.group.add(p, v.scale(c', l))
    ensures Inner(v, DropLeft(v.field, c, w, c', w'), b) == p
  {
    hide IsSpace, Inner, FoldScalars;
    SpaceGroup(v);
    var g, k := v.group, v.field;
    var d := k.Sub(c, c');
    var e := k.mul(c, k.inv(d));
    var diff := FoldScalars(k, k.one, w, k.neg(k.one), w');
    Combine(v, b, k.one, w, k.neg(k.one), w');
    Combine(v, b, k.one, w, k.neg(e), diff);
    var cl, cl' := v.scale(c, l), v.scale(c', l);
    // the difference opens (c - c') * l
    ScaledDifference(v, k.one, Inner(v, w, b), Inner(v, w', b));
    GComm(g, p, cl);
    GComm(g, p, cl');
    DropCommon(g, cl, cl', p);
    SNeg(v, c', l);
    SAddScalar(v, c, k.neg(c'), l);
    SOne(v, v.scale(d, l));
    SOne(v, Inner(v, w, b));
    assert Inner(v, diff, b) == v.scale(d, l);
    // e * (d * l) == c * l
    FSubZero(k, c, c');
    SMul(v, c, k.inv(d), v.scale(d, l));
    Undo(v, d, l);
    SNeg(v, e, v.scale(d, l));
    GAssoc(g, p, cl, g.neg(cl));
    GNeg(g, cl);
    GZero(g, p);
  }

  // ---------------------------------------------------------------- the witness

  /** One opening from three openings of the folded statement. */
  ghost function Merge<F>(f: Field<F>, u1: F, e1: seq<F>, u2: F, e2: seq<F>, u3: F, e3: seq<F>): (w: seq<F>)
    requires |e1| == |e2| == |e3|
    ensures |w| == 2 * |e1|
  {
    var x1, x2, x3 := f.Sq(u1), f.Sq(u2), f.Sq(u3);
    var w1, w2, w3 := Spread(f, e1, u1), Spread(f, e2, u2), Spread(f, e3, u3);
    DropLeft(f, f.add(x1, x2), DropRight(f, x1, w1, x2, w2), f.add(x1, x3), DropRight(f, x1, w1, x3, w3))
  }

  /** The scalars that a full tree of transcripts determines. */
  ghost function Extract<F, G>(v: Space<F, G>, t: Tree<F, G>, k: nat): (w: seq<F>)
    requires Full(v, t, k)
    ensures |w| == Pow2(k)
    decreases k
  {
    if k == 0 then [t.s]
    else
      assert ChildAt(t, 0) == t.t1 && ChildAt(t, 1) == t.t2 && ChildAt(t, 2) == t.t3;
      Merge(v.field, t.u1, Extract(v, t.t1, k - 1), t.u2, Extract(v, t.t2, k - 1), t.u3, Extract(v, t.t3, k - 1))
  }

  /** A child's opening, spread over the unfolded bases, opens p plus the cross terms of its challenge. */
  lemma SpreadOpens<F(!new), G(!new)>(v: Space<F, G>, e: seq<F>, b: seq<G>, u: F, p: G, l: G, r: G)
    requires IsSpace(v) && |b| == 2 * |e| && u != v.field.zero
    requires Inner(v, e, FoldOnce(v, b, u, |e|)) == v.group.add(p, Cross(v, u, l, r))
    ensures var f := v.field;
            && f.mul(f.Sq(u), f.Sq(f.inv(u))) == f.one
            && Inner(v, Spread(f, e, u), b) == v.group.add(p, v.group.add(v.scale(f.Sq(u), l), v.scale(f.Sq(f.inv(u)), r)))
  {
    hide IsSpace, Inner, Spread;
    SpaceGroup(v);
    SpreadInner(v, e, b, u, |e|);
    UnitSquares(v.field, u);
  }

  lemma UnitSquares<F(!new)>(k: Field<F>, u: F)
    requires IsField(k) && u != k.zero
    ensures k.mul(k.Sq(u), k.Sq(k.inv(u))) == k.one
  {
    FSwap(k, u, u, k.inv(u), k.inv(u));
    FInv(k, u);
    FOne(k, k.one);
  }

  /** x1 + x2 == x1 + x3 only if x2 == x3 */
  lemma SumsDiffer<F(!new)>(k: Field<F>, x1: F, x2: F, x3: F)
    requires IsField(k) && x2 != x3
    ensures k.add(x1, x2) != k.add(x1, x3)
  {
    FAddComm(k, x1, x2);
    FAddComm(k, x1, x3);
    if k.add(x1, x2) == k.add(x1, x3) {
      GCancel(k.AddGroup(), x2, x3, x1);
    }
  }

  /** If all transcripts of a full tree pass the verifier's check, the extracted scalars open p. */
  lemma {:induction false} Extraction<F(!new), G(!new)>(v: Space<F, G>, t: Tree<F, G>, k: nat, b: seq<G>, p: G)
    requires IsSpace(v) && |b| == Pow2(k) && Full(v, t, k) && AllPass(v, t, k, b, p)
    ensures Inner(v, Extract(v, t, k), b) == p
    decreases k, 2
  {
    if k == 0 {
      LeafOpens(v, t, b, p);
    } else {
      hide IsSpace, Inner, AllPass, Full, Extract;
      NodeOpens(v, t, k, b, p);
    }
  }

  lemma NodeOpens<F(!new), G(!new)>(v: Space<F, G>, t: Tree<F, G>, k: nat, b: seq<G>, p: G)
    requires IsSpace(v) && k >= 1 && |b| == Pow2(k) && Full(v, t, k) && AllPass(v, t, k, b, p)
    ensures Inner(v, Extract(v, t, k), b) == p
    decreases k, 1
  {
    hide IsSpace, Inner, AllPass, Merge, FoldOnce, Full, Extract, Cross;
    NodeParts(v, t, k);
    NodeExtract(v, t, k, Extract(v, t.t1, k - 1), Extract(v, t.t2, k - 1), Extract(v, t.t3, k - 1));
    ChildOpens(v, t, k, b, p, 0);
    ChildOpens(v, t, k, b, p, 1);
    ChildOpens(v, t, k, b, p, 2);
    ThreeOpen(v, b, p, t.l, t.r, t.u1, Extract(v, t.t1, k - 1), t.u2, Extract(v, t.t2, k - 1), t.u3, Extract(v, t.t3, k - 1));
  }

  lemma NodeParts<F, G>(v: Space<F, G>, t: Tree<F, G>, k: nat)
    requires k >= 1 && Full(v, t, k)
    ensures t.Node? && Full(v, t.t1, k - 1) && Full(v, t.t2, k - 1) && Full(v, t.t3, k - 1)
    ensures t.u1 != v.field.zero && t.u2 != v.field.zero && t.u3 != v.field.zero
    ensures v.field.Sq(t.u1) != v.field.Sq(t.u2) && v.field.Sq(t.u1) != v.field.Sq(t.u3) && v.field.Sq(t.u2) != v.field.Sq(t.u3)
  {
    assert ChildAt(t, 0) == t.t1 && ChildAt(t, 1) == t.t2 && ChildAt(t, 2) == t.t3;
  }

  lemma NodeExtract<F, G>(v: Space<F, G>, t: Tree<F, G>, k: nat, e1: seq<F>, e2: seq<F>, e3: seq<F>)
    requires k >= 1 && t.Node? && |e1| == |e2| == |e3|
    requires Full(v, t.t1, k - 1) && e1 == Extract(v, t.t1, k - 1)
    requires Full(v, t.t2, k - 1) && e2 == Extract(v, t.t2, k - 1)
    requires Full(v, t.t3, k - 1) && e3 == Extract(v, t.t3, k - 1)
    requires Full(v, t, k)
    ensures Extract(v, t, k) == Merge(v.field, t.u1, e1, t.u2, e2, t.u3, e3)
  {
    hide Merge;
  }

  lemma ChildOpens<F(!new), G(!new)>(v: Space<F, G>, t: Tree<F, G>, k: nat, b: seq<G>, p: G, i: nat)
    requires IsSpace(v) && k >= 1 && |b| == Pow2(k) && Full(v, t, k) && AllPass(v, t, k, b, p)
    ensures t.Node? && Full(v, ChildAt(t, i), k - 1)
    ensures var u := ChallengeAt(t, i);
            Inner(v, Extract(v, ChildAt(t, i), k - 1), FoldOnce(v, b, u, Pow2(k - 1))) == v.group.add(p, Cross(v, u, t.l, t.r))
    decreases k, 0
  {
    hide IsSpace, Inner, AllPass, FoldOnce, Extract, Cross;
    var u := ChallengeAt(t, i);
    FullChild(v, t, k, i);
    ChildPasses(v, t, k, b, p, i);
    Extraction(v, ChildAt(t, i), k - 1, FoldOnce(v, b, u, Pow2(k - 1)), v.group.add(p, Cross(v, u, t.l, t.r)));
  }

  /** Three openings of the folded statement at challenges with distinct squares give one of the statement. */
  lemma ThreeOpen<F(!new), G(!new)>(
      v: Space<F, G>, b: seq<G>, p: G, l: G, r: G, u1: F, e1: seq<F>, u2: F, e2: seq<F>, u3: F, e3: seq<F>)
    requires IsSpace(v) && |b| == 2 * |e1| && |e1| == |e2| == |e3|
    requires u1 != v.field.zero && u2 != v.field.zero && u3 != v.field.zero
    requires v.field.Sq(u1) != v.field.Sq(u2) && v.field.Sq(u1) != v.field.Sq(u3) && v.field.Sq(u2) != v.field.Sq(u3)
    requires Inner(v, e1, FoldOnce(v, b, u1, |e1|)) == v.group.add(p, Cross(v, u1, l, r))
    requires Inner(v, e2, FoldOnce(v, b, u2, |e1|)) == v.group.add(p, Cross(v, u2, l, r))
    requires Inner(v, e3, FoldOnce(v, b, u3, |e1|)) == v.group.add(p, Cross(v, u3, l, r))
    ensures Inner(v, Merge(v.field, u1, e1, u2, e2, u3, e3), b) == p
  {
    hide IsSpace, Inner, Spread, DropLeft, DropRight, FoldOnce, Cross;
    SpaceGroup(v);
    var f := v.field;
    var x1, x2, x3 := f.Sq(u1), f.Sq(u2), f.Sq(u3);
    var w1, w2, w3 := Spread(f, e1, u1), Spread(f, e2, u2), Spread(f, e3, u3);
    SpreadOpens(v, e1, b, u1, p, l, r);
    SpreadOpens(v, e2, b, u2, p, l, r);
    SpreadOpens(v, e3, b, u3, p, l, r);
    DropRightMeaning(v, b, p, l, r, x1, f.Sq(f.inv(u1)), w1, x2, f.Sq(f.inv(u2)), w2);
    DropRightMeaning(v, b, p, l, r, x1, f.Sq(f.inv(u1)), w1, x3, f.Sq(f.inv(u3)), w3);
    SumsDiffer(f, x1, x2, x3);
    DropLeftMeaning(v, b, p, l, f.add(x1, x2), DropRight(f, x1, w1, x2, w2), f.add(x1, x3), DropRight(f, x1, w1, x3, w3));
  }

  lemma LeafOpens<F(!new), G(!new)>(v: Space<F, G>, t: Tree<F, G>, b: seq<G>, p: G)
    requires IsSpace(v) && |b| == 1 && t.Leaf? && AllPass(v, t, 0, b, p)
    ensures Inner(v, [t.s], b) == p
  {
    var path: seq<nat> := [];
    assert Checks(v, RoundsOf(t, path), ScalarOf(t, path), b, p);
    assert b == [b[0]];
    InnerOne(v, t.s, b[0]);
    GZero(v.group, p);
  }

  // ---------------------------------------------------------------- the batched statement

  /** Every transcript of the tree is one that IpaVerify accepts at the batching challenge r. */
  ghost predicate AllAccepted<F, G>(
      v: Space<F, G>, t: Tree<F, G>, k: nat, b1: seq<G>, b2: seq<G>, res1: G, res2: G, r: F)
    requires |b1| == |b2| == Pow2(k)
  {
    forall path: seq<nat> :: |path| == k ==>
      |RoundsOf(t, path)| == k && Ipa.VerifierHolds(v, RoundsOf(t, path), ScalarOf(t, path), b1, b2, res1, res2, r)
  }

  /** A full tree of accepted transcripts determines scalars that satisfy the batched claim. */
  lemma AcceptedTreeHasWitness<F(!new), G(!new)>(
      v: Space<F, G>, t: Tree<F, G>, k: nat, b1: seq<G>, b2: seq<G>, res1: G, res2: G, r: F)
    requires IsSpace(v) && |b1| == |b2| == Pow2(k) && Full(v, t, k) && AllAccepted(v, t, k, b1, b2, res1, res2, r)
    ensures var s := Extract(v, t, k);
            v.group.add(Inner(v, s, b1), v.scale(r, Inner(v, s, b2))) == v.group.add(res1, v.scale(r, res2))
  {
    hide IsSpace, Inner, FoldPoints, Full, Extract, FoldBases, CrossSum;
    var b, p := FoldPoints(v, v.field.one, b1, r, b2), v.group.add(res1, v.scale(r, res2));
    forall path: seq<nat> | |path| == k
      ensures |RoundsOf(t, path)| == k && Checks(v, RoundsOf(t, path), ScalarOf(t, path), b, p)
    {
      assert Ipa.VerifierHolds(v, RoundsOf(t, path), ScalarOf(t, path), b1, b2, res1, res2, r);
    }
    Extraction(v, t, k, b, p);
    Ipa.InnerBatch(v, Extract(v, t, k), b1, b2, r);
  }

  /** Scalars that satisfy the batched claim at two challenges satisfy both claims. */
  lemma SeparateClaims<F(!new), G(!new)>(v: Space<F, G>, a: G, b: G, res1: G, res2: G, r: F, r': F)
    requires IsSpace(v) && r != r'
    requires v.group.add(a, v.scale(r, b)) == v.group.add(res1, v.scale(r, res2))
    requires v.group.add(a, v.scale(r', b)) == v.group.add(res1, v.scale(r', res2))
    ensures a == res1 && b == res2
  {
    hide IsSpace;
    SpaceGroup(v);
    var g, k := v.group, v.field;
    var d := k.Sub(r, r');
    BatchDifference(v, a, b, r, r');
    BatchDifference(v, res1, res2, r, r');
    FSubZero(k, r, r');
    Undo(v, d, b);
    Undo(v, d, res2);
    GCancel(g, a, res1, v.scale(r, b));
  }

  /** (a + r*b) - (a + r'*b) == (r - r') * b */
  lemma BatchDifference<F(!new), G(!new)>(v: Space<F, G>, a: G, b: G, r: F, r': F)
    requires IsSpace(v)
    ensures v.group.add(v.group.add(a, v.scale(r, b)), v.group.neg(v.group.add(a, v.scale(r', b)))) ==
            v.scale(v.field.Sub(r, r'), b)
  {
    var g := v.group;
    GComm(g, a, v.scale(r, b));
    GComm(g, a, v.scale(r', b));
    DropCommon(g, v.scale(r, b), v.scale(r', b), a);
    SNeg(v, r', b);
    SAddScalar(v, r, v.field.neg(r'), b);
  }
}
