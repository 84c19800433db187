/** The inner product argument over a transcript
    (aggregation/src/light_aggregator/inner_product_argument.rs). */
module Ipa {
  import opened Algebra
  import opened Numbers
  import opened IpaSpec
  import opened Wrappers

  datatype Item<F, G> = Point(g: G) | Scalar(f: F) | Squeezed

  /** A running transcript: challenges are a function of everything absorbed so far. */
  class Transcript<F, G> {
    const hash: seq<Item<F, G>> -> F
    var log: seq<Item<F, G>>
    /** Messages written by a prover, or not yet read by a verifier. */
    var proof: seq<Item<F, G>>

    constructor (hash: seq<Item<F, G>> -> F, proof: seq<Item<F, G>>)
      ensures this.hash == hash && log == [] && this.proof == proof
    {
      this.hash := hash;
      log, this.proof := [], proof;
    }

    method Common(x: Item<F, G>)
      modifies this`log
      ensures log == old(log) + [x]
    {
      log := log + [x];
    }

    method Write(x: Item<F, G>)
      modifies this
      ensures log == old(log) + [x] && proof == old(proof) + [x]
    {
      log, proof := log + [x], proof + [x];
    }

    method Read() returns (r: Option<Item<F, G>>)
      modifies this
      ensures r.Some? <==> |old(proof)| > 0
      ensures r.Some? ==> r.value == old(proof)[0] && log == old(log) + [r.value] && proof == old(proof)[1..]
    {
      if |proof| == 0 {
        return None;
      }
      r := Some(proof[0]);
      log, proof := log + [proof[0]], proof[1..];
    }

    method SqueezeChallenge() returns (c: F)
      modifies this`log
      ensures c == hash(old(log)) && log == old(log) + [Squeezed]
    {
      c := hash(log);
      log := log + [Squeezed];
    }
  }

  // ---------------------------------------------------------------- powers of two

  /** The exponent of a power of two. */
  function Log2(n: nat): (r: Option<nat>)
    ensures r.Some? ==> n == Pow2(r.value)
  {
    if n == 0 then None
    else if n == 1 then Some(0)
    else if n % 2 == 1 then None
    else
      var h := Log2(n / 2);
      if h.Some? then Some(h.value + 1) else None
  }

  /** Every power of two is recognised. */
  lemma {:induction false} Log2Complete(k: nat)
    ensures Log2(Pow2(k)) == Some(k)
  {
    if k > 0 {
      Log2Complete(k - 1);
    }
  }

  // ---------------------------------------------------------------- logs

  ghost function PointsTo<F, G>(b: seq<G>, n: nat): seq<Item<F, G>>
    requires n <= |b|
  {
    if n == 0 then [] else PointsTo(b, n - 1) + [Point(b[n - 1])]
  }

  /** The statement, absorbed in order. */
  ghost function StatementLog<F, G>(log: seq<Item<F, G>>, b1: seq<G>, b2: seq<G>, res1: G, res2: G): seq<Item<F, G>> {
    log + PointsTo(b1, |b1|) + PointsTo(b2, |b2|) + [Point(res1)] + [Point(res2)]
  }

  /** now extends log by exactly the points of b1, the points of b2, res1 and res2. */
  ghost predicate Absorbed<F, G>(log: seq<Item<F, G>>, now: seq<Item<F, G>>, b1: seq<G>, b2: seq<G>, res1: G, res2: G) {
    && |now| == |log| + |b1| + |b2| + 2 && now[..|log|] == log
    && (forall i :: 0 <= i < |b1| ==> now[|log| + i] == Point(b1[i]))
    && (forall i :: 0 <= i < |b2| ==> now[|log| + |b1| + i] == Point(b2[i]))
    && now[|log| + |b1| + |b2|] == Point(res1) && now[|log| + |b1| + |b2| + 1] == Point(res2)
  }

  lemma {:induction false} PointsAt<F, G>(b: seq<G>, n: nat)
    requires n <= |b|
    ensures |PointsTo<F, G>(b, n)| == n && forall i :: 0 <= i < n ==> PointsTo<F, G>(b, n)[i] == Point(b[i])
  {
    if n > 0 {
      PointsAt<F, G>(b, n - 1);
    }
  }

  lemma StatementItems<F, G>(log: seq<Item<F, G>>, b1: seq<G>, b2: seq<G>, res1: G, res2: G)
    ensures Absorbed(log, StatementLog(log, b1, b2, res1, res2), b1, b2, res1, res2)
  {
    PointsAt<F, G>(b1, |b1|);
    PointsAt<F, G>(b2, |b2|);
  }

  ghost function LogAfter<F, G>(log: seq<Item<F, G>>, rounds: seq<Round<F, G>>, i: nat): seq<Item<F, G>>
    requires i <= |rounds|
  {
    if i == 0 then log
    else LogAfter(log, rounds, i - 1) + [Point(rounds[i - 1].l)] + [Point(rounds[i - 1].r)] + [Squeezed]
  }

  ghost function ProofOf<F, G>(rounds: seq<Round<F, G>>, i: nat): seq<Item<F, G>>
    requires i <= |rounds|
  {
    if i == 0 then [] else ProofOf(rounds, i - 1) + [Point(rounds[i - 1].l)] + [Point(rounds[i - 1].r)]
  }

  /** Every challenge is the hash of the log that precedes it. */
  ghost predicate Consistent<F, G>(hash: seq<Item<F, G>> -> F, log: seq<Item<F, G>>, rounds: seq<Round<F, G>>) {
    forall i :: 0 <= i < |rounds| ==> ConsistentAt(hash, log, rounds, i)
  }

  ghost predicate ConsistentAt<F, G>(hash: seq<Item<F, G>> -> F, log: seq<Item<F, G>>, rounds: seq<Round<F, G>>, i: nat)
    requires i < |rounds|
  {
    rounds[i].u == hash(LogAfter(log, rounds, i) + [Point(rounds[i].l)] + [Point(rounds[i].r)])
  }

  lemma {:induction false} LogPrefix<F, G>(log: seq<Item<F, G>>, rounds: seq<Round<F, G>>, more: seq<Round<F, G>>, i: nat)
    requires i <= |rounds| <= |more| && more[..|rounds|] == rounds
    ensures LogAfter(log, more, i) == LogAfter(log, rounds, i) && ProofOf(more, i) == ProofOf(rounds, i)
  {
    if i > 0 {
      LogPrefix(log, rounds, more, i - 1);
      assert more[i - 1] == rounds[i - 1];
    }
  }

  lemma ConsistentSnoc<F, G>(
      hash: seq<Item<F, G>> -> F, log: seq<Item<F, G>>, rounds: seq<Round<F, G>>, x: Round<F, G>)
    requires Consistent(hash, log, rounds)
    requires x.u == hash(LogAfter(log, rounds, |rounds|) + [Point(x.l)] + [Point(x.r)])
    ensures Consistent(hash, log, rounds + [x])
    ensures LogAfter(log, rounds + [x], |rounds| + 1) == LogAfter(log, rounds, |rounds|) + [Point(x.l)] + [Point(x.r)] + [Squeezed]
    ensures ProofOf(rounds + [x], |rounds| + 1) == ProofOf(rounds, |rounds|) + [Point(x.l)] + [Point(x.r)]
  {
    var more := rounds + [x];
    LogPrefix(log, rounds, more, |rounds|);
    forall i | 0 <= i < |more|
      ensures ConsistentAt(hash, log, more, i)
    {
      LogPrefix(log, rounds, more, i);
      if i < |rounds| {
        assert ConsistentAt(hash, log, rounds, i);
      }
    }
  }

  method AbsorbPoints<F, G>(transcript: Transcript<F, G>, b: seq<G>)
    modifies transcript`log
    ensures transcript.log == old(transcript.log) + PointsTo(b, |b|)
  {
    for i := 0 to |b|
      invariant transcript.log == old(transcript.log) + PointsTo(b, i)
    {
      transcript.Common(Point(b[i]));
    }
  }

  /** Both sides absorb the statement and derive the batching challenge. */
  method AbsorbStatement<F, G>(transcript: Transcript<F, G>, b1: seq<G>, b2: seq<G>, res1: G, res2: G) returns (r: F)
    modifies transcript`log
    ensures r == transcript.hash(StatementLog(old(transcript.log), b1, b2, res1, res2))
    ensures transcript.log == StatementLog(old(transcript.log), b1, b2, res1, res2) + [Squeezed]
    ensures Absorbed(old(transcript.log), transcript.log[..|transcript.log| - 1], b1, b2, res1, res2)
    ensures r == transcript.hash(transcript.log[..|transcript.log| - 1])
  {
    StatementItems(transcript.log, b1, b2, res1, res2);
    AbsorbPoints(transcript, b1);
    AbsorbPoints(transcript, b2);
    transcript.Common(Point(res1));
    transcript.Common(Point(res2));
    r := transcript.SqueezeChallenge();
    assert transcript.log[..|transcript.log| - 1] == StatementLog(old(transcript.log), b1, b2, res1, res2);
  }

  // ---------------------------------------------------------------- the prover

  /** What an honest run leaves behind: challenges from the log, honest cross terms, no zero challenge. */
  ghost predicate Honest<F, G>(
      v: Space<F, G>, hash: seq<Item<F, G>> -> F, log: seq<Item<F, G>>, rounds: seq<Round<F, G>>,
      k: nat, s: seq<F>, b: seq<G>)
    requires |rounds| <= k && |s| == |b| == Pow2(k)
  {
    Consistent(hash, log, rounds) && NonZero(v, rounds) && HonestTo(v, rounds, k, s, b, |rounds|)
  }

  lemma HonestExtend<F, G>(
      v: Space<F, G>, hash: seq<Item<F, G>> -> F, log: seq<Item<F, G>>, rounds: seq<Round<F, G>>,
      k: nat, s: seq<F>, b: seq<G>, x: Round<F, G>)
    requires |rounds| < k && |s| == |b| == Pow2(k) && Honest(v, hash, log, rounds, k, s, b)
    requires x.u == hash(LogAfter(log, rounds, |rounds|) + [Point(x.l)] + [Point(x.r)]) && x.u != v.field.zero
    requires var t, c, h := FoldSecrets(v, rounds, k, s, |rounds|), FoldBases(v, rounds, k, b, |rounds|), Pow2(k - |rounds| - 1);
             x.l == Left(v, t, c, h) && x.r == Right(v, t, c, h)
    ensures Honest(v, hash, log, rounds + [x], k, s, b)
    ensures var n, h, inv := |rounds|, Pow2(k - |rounds| - 1), v.field.inv(x.u);
            var t, c := FoldSecrets(v, rounds, k, s, n), FoldBases(v, rounds, k, b, n);
            && FoldSecrets(v, rounds + [x], k, s, n + 1) == FoldScalars(v.field, x.u, t[..h], inv, t[h..])
            && FoldBases(v, rounds + [x], k, b, n + 1) == FoldPoints(v, x.u, c[h..], inv, c[..h])
  {
    hide FoldPoints, FoldScalars, Left, Right, LogAfter;
    ConsistentSnoc(hash, log, rounds, x);
    HonestSnoc(v, rounds, k, s, b, x);
    FoldPrefix(v, rounds, rounds + [x], k, s, b, |rounds|);
  }

  /** The k rounds: cross terms written, challenges drawn, both vectors folded. Fails on a zero challenge. */
  method ProveRounds<F(==), G>(v: Space<F, G>, k: nat, scalars: seq<F>, bases: seq<G>, transcript: Transcript<F, G>)
    returns (ok: bool, s: seq<F>, ghost rounds: seq<Round<F, G>>)
    requires |scalars| == |bases| == Pow2(k)
    modifies transcript
    ensures ok ==> |rounds| == k && Honest(v, transcript.hash, old(transcript.log), rounds, k, scalars, bases)
    ensures ok ==> |s| == 1 && s == FoldSecrets(v, rounds, k, scalars, k)
    ensures ok ==> transcript.log == LogAfter(old(transcript.log), rounds, k)
    ensures ok ==> transcript.proof == old(transcript.proof) + ProofOf(rounds, k)
    ensures !ok ==> |rounds| > 0 && Consistent(transcript.hash, old(transcript.log), rounds) && rounds[|rounds| - 1].u == v.field.zero
  {
    hide FoldPoints, FoldScalars, Left, Right, LogAfter, FoldBases, FoldSecrets, Honest, ProofOf, Consistent, Pow2;
    rounds := [];
    s := scalars;
    var b := bases;
    ghost var start := transcript.log;
    ProveStart(v, transcript.hash, start, k, s, b);
    for i := 0 to k
      invariant |rounds| == i && |s| == |b| == Pow2(k - i)
      invariant Honest(v, transcript.hash, start, rounds, k, scalars, bases)
      invariant s == FoldSecrets(v, rounds, k, scalars, i) && b == FoldBases(v, rounds, k, bases, i)
      invariant transcript.log == LogAfter(start, rounds, i)
      invariant transcript.proof == old(transcript.proof) + ProofOf(rounds, i)
    {
      HalfOfPower(k - i);
      var half := |s| / 2;
      var l := Left(v, s, b, half);
      var r := Right(v, s, b, half);
      transcript.Write(Point(l));
      transcript.Write(Point(r));
      var u := transcript.SqueezeChallenge();
      ghost var x := Round(l, r, u);
      LogSnoc(v, transcript.hash, start, rounds, k, scalars, bases, x);
      if u == v.field.zero {
        return false, s, rounds + [x];
      }
      HonestExtend(v, transcript.hash, start, rounds, k, scalars, bases, x);
      s, b := FoldScalars(v.field, u, s[..half], v.field.inv(u), s[half..]),
              FoldPoints(v, u, b[half..], v.field.inv(u), b[..half]);
      rounds := rounds + [x];
    }
    OneLeft(k);
    ok := true;
  }

  lemma HalfOfPower(m: nat)
    requires m > 0
    ensures Pow2(m) / 2 == Pow2(m - 1) && Pow2(m) == 2 * Pow2(m - 1)
  {}

  lemma OneLeft(k: nat)
    ensures Pow2(k - k) == 1
  {}

  /** Writes the cross terms of every round and the last scalar. Fails on bad lengths and on a zero challenge. */
  method IpaProve<F(==), G>(
      v: Space<F, G>, scalars: seq<F>, bases1: seq<G>, bases2: seq<G>, res1: G, res2: G, transcript: Transcript<F, G>)
    returns (ok: bool, ghost rounds: seq<Round<F, G>>)
    modifies transcript
    ensures ok ==> |scalars| == |bases1| == |bases2| && Log2(|scalars|).Some?
    ensures ok ==>
              var start := StatementLog(old(transcript.log), bases1, bases2, res1, res2);
              var b := FoldPoints(v, v.field.one, bases1, transcript.hash(start), bases2);
              var k := Log2(|scalars|).value;
              && |rounds| == k && Honest(v, transcript.hash, start + [Squeezed], rounds, k, scalars, b)
              && transcript.proof == old(transcript.proof) + ProofOf(rounds, k) + [Scalar(FoldSecrets(v, rounds, k, scalars, k)[0])]
              && transcript.log == LogAfter(start + [Squeezed], rounds, k) + [Scalar(FoldSecrets(v, rounds, k, scalars, k)[0])]
    ensures !ok && |scalars| == |bases1| == |bases2| && Log2(|scalars|).Some? ==>
              var start := StatementLog(old(transcript.log), bases1, bases2, res1, res2);
              && |rounds| > 0 && Consistent(transcript.hash, start + [Squeezed], rounds)
              && rounds[|rounds| - 1].u == v.field.zero
  {
    hide FoldPoints, FoldSecrets, LogAfter, Honest, ProofOf, Consistent, StatementLog, Pow2, Log2;
    rounds := [];
    if |scalars| != |bases1| || |scalars| != |bases2| || Log2(|scalars|).None? {
      return false, rounds;
    }
    var k := Log2(|scalars|).value;
    var r := AbsorbStatement(transcript, bases1, bases2, res1, res2);
    var bases := FoldPoints(v, v.field.one, bases1, r, bases2);
    var s: seq<F>;
    ok, s, rounds := ProveRounds(v, k, scalars, bases, transcript);
    if ok {
      transcript.Write(Scalar(s[0]));
    }
  }

  lemma ProveStart<F, G>(
      v: Space<F, G>, hash: seq<Item<F, G>> -> F, log: seq<Item<F, G>>, k: nat, s: seq<F>, b: seq<G>)
    requires |s| == |b| == Pow2(k)
    ensures Honest(v, hash, log, [], k, s, b) && LogAfter(log, [], 0) == log && ProofOf<F, G>([], 0) == []
    ensures FoldSecrets<F, G>(v, [], k, s, 0) == s && FoldBases(v, [], k, b, 0) == b
  {}

  lemma LogSnoc<F, G>(
      v: Space<F, G>, hash: seq<Item<F, G>> -> F, log: seq<Item<F, G>>, rounds: seq<Round<F, G>>,
      k: nat, s: seq<F>, b: seq<G>, x: Round<F, G>)
    requires |rounds| <= k && |s| == |b| == Pow2(k) && Honest(v, hash, log, rounds, k, s, b)
    requires x.u == hash(LogAfter(log, rounds, |rounds|) + [Point(x.l)] + [Point(x.r)])
    ensures Consistent(hash, log, rounds + [x])
    ensures LogAfter(log, rounds + [x], |rounds| + 1) == LogAfter(log, rounds, |rounds|) + [Point(x.l)] + [Point(x.r)] + [Squeezed]
    ensures ProofOf(rounds + [x], |rounds| + 1) == ProofOf(rounds, |rounds|) + [Point(x.l)] + [Point(x.r)]
  {
    hide LogAfter, ProofOf;
    ConsistentSnoc(hash, log, rounds, x);
  }

  // ---------------------------------------------------------------- the verifier's equation

  ghost function CrossScalars<F, G>(k: Field<F>, rounds: seq<Round<F, G>>, i: nat): (r: seq<F>)
    requires i <= |rounds|
    ensures |r| == 2 * i
  {
    if i == 0 then [] else CrossScalars(k, rounds, i - 1) + [k.Sq(rounds[i - 1].u), k.Sq(k.inv(rounds[i - 1].u))]
  }

  ghost function CrossBases<F, G>(rounds: seq<Round<F, G>>, i: nat): (r: seq<G>)
    requires i <= |rounds|
    ensures |r| == 2 * i
  {
    if i == 0 then [] else CrossBases(rounds, i - 1) + [rounds[i - 1].l, rounds[i - 1].r]
  }

  lemma {:induction false} CrossInner<F(!new), G(!new)>(v: Space<F, G>, rounds: seq<Round<F, G>>, i: nat)
    requires IsSpace(v) && i <= |rounds|
    ensures Inner(v, CrossScalars(v.field, rounds, i), CrossBases(rounds, i)) == CrossSum(v, rounds, i)
  {
    hide IsSpace;
    if i > 0 {
      CrossInner(v, rounds, i - 1);
      hide InnerTo, Inner;
      var x, k := rounds[i - 1], v.field;
      InnerConcat(v, CrossScalars(k, rounds, i - 1), CrossBases(rounds, i - 1), [k.Sq(x.u), k.Sq(k.inv(x.u))], [x.l, x.r]);
      InnerTwo(v, k.Sq(x.u), x.l, k.Sq(k.inv(x.u)), x.r);
    }
  }

  /** s * b[0] == (res1 + r * res2) + sum of the cross terms, for the bases folded as the prover does. */
  ghost predicate VerifierHolds<F, G>(
      v: Space<F, G>, rounds: seq<Round<F, G>>, s: F, b1: seq<G>, b2: seq<G>, res1: G, res2: G, r: F)
    requires |b1| == |b2| == Pow2(|rounds|)
  {
    var b := FoldPoints(v, v.field.one, b1, r, b2);
    v.scale(s, FoldBases(v, rounds, |rounds|, b, |rounds|)[0]) ==
    v.group.add(v.group.add(res1, v.scale(r, res2)), CrossSum(v, rounds, |rounds|))
  }

  /** The inner product of ipa scalars with both base vectors. */
  lemma BatchedInner<F(!new), G(!new)>(v: Space<F, G>, w: seq<F>, wr: seq<F>, b1: seq<G>, b2: seq<G>, r: F)
    requires IsSpace(v) && |w| == |wr| == |b1| == |b2|
    requires forall i :: 0 <= i < |w| ==> wr[i] == v.field.mul(w[i], r)
    ensures v.group.add(Inner(v, w, b1), Inner(v, wr, b2)) == Inner(v, w, FoldPoints(v, v.field.one, b1, r, b2))
  {
    hide IsSpace, InnerTo, FoldPoints;
    InnerScale(v, r, w, wr, b2, |w|);
    InnerFoldPoints(v, w, v.field.one, b1, r, b2, |w|);
    SOne(v, Inner(v, w, b1));
  }

  /** cross + ((-x) + c) == 0 exactly when x == c + cross */
  lemma ZeroSum<G(!new)>(g: Group<G>, cross: G, x: G, c: G)
    requires IsGroup(g)
    ensures g.add(cross, g.add(g.neg(x), c)) == g.zero <==> x == g.add(c, cross)
  {
    var y := g.add(c, cross);
    GComm(g, g.neg(x), c);
    GAssoc(g, cross, c, g.neg(x));
    GComm(g, cross, c);
    GNeg(g, x);
    assert g.add(cross, g.add(g.neg(x), c)) == g.add(y, g.neg(x));
    if g.add(y, g.neg(x)) == g.zero {
      GCancel(g, y, x, g.neg(x));
    }
  }

  /** The verifier's multi-scalar multiplication vanishes exactly when its equation holds. */
  lemma FinalSum<F(!new), G(!new)>(
      v: Space<F, G>, rounds: seq<Round<F, G>>, s: F, ipa: seq<F>, ipaR: seq<F>,
      b1: seq<G>, b2: seq<G>, res1: G, res2: G, r: F)
    requires IsSpace(v) && |b1| == |b2| == |ipa| == |ipaR| == Pow2(|rounds|)
    requires ipa == Expand(v.field, rounds, |rounds|, [v.field.neg(s)])
    requires forall i :: 0 <= i < |ipa| ==> ipaR[i] == v.field.mul(ipa[i], r)
    ensures Inner(v, CrossScalars(v.field, rounds, |rounds|) + (ipa + ipaR + [v.field.one, r]),
                  CrossBases(rounds, |rounds|) + (b1 + b2 + [res1, res2])) == v.group.zero <==>
            VerifierHolds(v, rounds, s, b1, b2, res1, res2, r)
  {
    hide IsSpace, Inner, FoldPoints, Expand, CrossScalars, CrossBases, CrossSum;
    SpaceGroup(v);
    var n, g := |rounds|, v.group;
    var b := FoldPoints(v, v.field.one, b1, r, b2);
    InnerConcat(v, CrossScalars(v.field, rounds, n), CrossBases(rounds, n), ipa + ipaR + [v.field.one, r], b1 + b2 + [res1, res2]);
    InnerConcat(v, ipa + ipaR, b1 + b2, [v.field.one, r], [res1, res2]);
    InnerConcat(v, ipa, b1, ipaR, b2);
    CrossInner(v, rounds, n);
    InnerTwo(v, v.field.one, res1, r, res2);
    SOne(v, res1);
    BatchedInner(v, ipa, ipaR, b1, b2, r);
    ExpandInner(v, rounds, n, b, n, [v.field.neg(s)]);
    var f := FoldBases(v, rounds, n, b, n);
    assert Pow2(0) == 1;
    hide FoldBases, Pow2;
    assert f == [f[0]];
    InnerOne(v, v.field.neg(s), f[0]);
    SNeg(v, s, f[0]);
    ZeroSum(g, CrossSum(v, rounds, n), v.scale(s, f[0]), g.add(res1, v.scale(r, res2)));
  }

  // ---------------------------------------------------------------- the verifier

  datatype Outcome = Accepted | Opening | ReadError | Panic

  /** The first i rounds read from a proof, or what stops the reading. */
  datatype Parsed<F, G> = Rounds(rounds: seq<Round<F, G>>, log: seq<Item<F, G>>, rest: seq<Item<F, G>>) | Bad(why: Outcome)

  ghost function Parse<F, G>(
      v: Space<F, G>, hash: seq<Item<F, G>> -> F, log: seq<Item<F, G>>, proof: seq<Item<F, G>>, i: nat): (r: Parsed<F, G>)
    ensures r.Rounds? ==> |r.rounds| == i && NonZero(v, r.rounds)
    ensures r.Bad? ==> r.why == ReadError || r.why == Panic
  {
    if i == 0 then Rounds([], log, proof)
    else
      match Parse(v, hash, log, proof, i - 1)
      case Bad(why) => Bad(why)
      case Rounds(rounds, lg, pf) =>
        if |pf| < 2 || !pf[0].Point? || !pf[1].Point? then Bad(ReadError)
        else
          var u := hash(lg + [pf[0]] + [pf[1]]);
          if u == v.field.zero then Bad(Panic)
          else Rounds(rounds + [Round(pf[0].g, pf[1].g, u)], lg + [pf[0]] + [pf[1]] + [Squeezed], pf[2..])
  }

  lemma {:induction false} BadStays<F, G>(
      v: Space<F, G>, hash: seq<Item<F, G>> -> F, log: seq<Item<F, G>>, proof: seq<Item<F, G>>, i: nat, k: nat)
    requires i <= k && Parse(v, hash, log, proof, i).Bad?
    ensures Parse(v, hash, log, proof, k) == Parse(v, hash, log, proof, i)
  {
    if i < k {
      BadStays(v, hash, log, proof, i, k - 1);
    }
  }

  /** The outcome that the proof determines. */
  ghost function Verdict<F, G>(
      v: Space<F, G>, hash: seq<Item<F, G>> -> F, log: seq<Item<F, G>>, proof: seq<Item<F, G>>,
      b1: seq<G>, b2: seq<G>, res1: G, res2: G): Outcome
  {
    if |b1| != |b2| || Log2(|b1|).None? then Panic
    else
      var start := StatementLog(log, b1, b2, res1, res2);
      match Parse(v, hash, start + [Squeezed], proof, Log2(|b1|).value)
      case Bad(why) => why
      case Rounds(rounds, _, rest) =>
        if |rest| == 0 || !rest[0].Scalar? then ReadError
        else if VerifierHolds(v, rounds, rest[0].f, b1, b2, res1, res2, hash(start)) then Accepted
        else Opening
  }

  /** Reads one round: two points, then a challenge that must not be zero. */
  method ReadRound<F(==), G>(v: Space<F, G>, transcript: Transcript<F, G>) returns (l: Option<G>, r: Option<G>, u: F)
    modifies transcript
    ensures l.Some? && r.Some? <==> |old(transcript.proof)| >= 2 && old(transcript.proof)[0].Point? && old(transcript.proof)[1].Point?
    ensures l.Some? && r.Some? ==>
              var pf := old(transcript.proof);
              && pf[0] == Point(l.value) && pf[1] == Point(r.value) && transcript.proof == pf[2..]
              && u == transcript.hash(old(transcript.log) + [pf[0]] + [pf[1]])
              && transcript.log == old(transcript.log) + [pf[0]] + [pf[1]] + [Squeezed]
  {
    l, r, u := None, None, v.field.zero;
    var x := transcript.Read();
    if x.None? || !x.value.Point? {
      return;
    }
    var y := transcript.Read();
    if y.None? || !y.value.Point? {
      return;
    }
    u := transcript.SqueezeChallenge();
    l, r := Some(x.value.g), Some(y.value.g);
  }

  lemma CrossSnoc<F, G>(k: Field<F>, rounds: seq<Round<F, G>>, x: Round<F, G>, i: nat)
    requires i <= |rounds|
    ensures CrossScalars(k, rounds + [x], i) == CrossScalars(k, rounds, i) && CrossBases(rounds + [x], i) == CrossBases(rounds, i)
    ensures CrossScalars(k, rounds + [x], |rounds| + 1) == CrossScalars(k, rounds, |rounds|) + [k.Sq(x.u), k.Sq(k.inv(x.u))]
    ensures CrossBases(rounds + [x], |rounds| + 1) == CrossBases(rounds, |rounds|) + [x.l, x.r]
  {
    CrossPrefix(k, rounds, rounds + [x], i);
    CrossPrefix(k, rounds, rounds + [x], |rounds|);
  }

  lemma {:induction false} CrossPrefix<F, G>(k: Field<F>, rounds: seq<Round<F, G>>, more: seq<Round<F, G>>, i: nat)
    requires i <= |rounds| <= |more| && more[..|rounds|] == rounds
    ensures CrossScalars(k, more, i) == CrossScalars(k, rounds, i) && CrossBases(more, i) == CrossBases(rounds, i)
  {
    if i > 0 {
      CrossPrefix(k, rounds, more, i - 1);
      assert more[i - 1] == rounds[i - 1];
    }
  }

  /** Scalars of the folded bases, spread over the rounds from the last to the first. */
  method IpaScalars<F, G>(k: Field<F>, ghost rounds: seq<Round<F, G>>, ujs: seq<F>, c: F) returns (w: seq<F>)
    requires |ujs| == |rounds| && forall i :: 0 <= i < |ujs| ==> ujs[i] == rounds[i].u
    ensures w == Expand(k, rounds, |rounds|, [c]) && |w| == Pow2(|rounds|)
  {
    w := [c];
    var j := |ujs|;
    while j > 0
      invariant 0 <= j <= |ujs| && Expand(k, rounds, j, w) == Expand(k, rounds, |rounds|, [c])
    {
      w := Spread(k, w, ujs[j - 1]);
      j := j - 1;
    }
    assert Pow2(|rounds|) * 1 == Pow2(|rounds|);
  }

  /** Reads k rounds and collects their part of the multi-scalar multiplication. */
  method ReadRounds<F(==), G>(v: Space<F, G>, transcript: Transcript<F, G>, k: nat)
    returns (bad: Option<Outcome>, scalars: seq<F>, bases: seq<G>, ujs: seq<F>, ghost rounds: seq<Round<F, G>>)
    modifies transcript
    ensures Parse(v, transcript.hash, old(transcript.log), old(transcript.proof), k) ==
            if bad.Some? then Bad(bad.value) else Rounds(rounds, transcript.log, transcript.proof)
    ensures bad.None? ==> |ujs| == |rounds| == k && forall j :: 0 <= j < k ==> ujs[j] == rounds[j].u
    ensures bad.None? ==> scalars == CrossScalars(v.field, rounds, k) && bases == CrossBases(rounds, k)
  {
    hide CrossScalars, CrossBases;
    ghost var start, proof := transcript.log, transcript.proof;
    bad, scalars, bases, ujs, rounds := None, [], [], [], [];
    NoCross<F, G>(v.field);
    for i := 0 to k
      invariant bad.None?
      invariant Parse(v, transcript.hash, start, proof, i) == Rounds(rounds, transcript.log, transcript.proof)
      invariant |ujs| == |rounds| == i && forall j :: 0 <= j < i ==> ujs[j] == rounds[j].u
      invariant scalars == CrossScalars(v.field, rounds, i) && bases == CrossBases(rounds, i)
    {
      var l, r, u := ReadRound(v, transcript);
      if l.None? || r.None? {
        BadStays(v, transcript.hash, start, proof, i + 1, k);
        bad := Some(ReadError);
        return;
      }
      if u == v.field.zero {
        BadStays(v, transcript.hash, start, proof, i + 1, k);
        bad := Some(Panic);
        return;
      }
      bases := bases + [l.value, r.value];
      scalars := scalars + [v.field.Sq(u), v.field.Sq(v.field.inv(u))];
      ujs := ujs + [u];
      CrossSnoc(v.field, rounds, Round(l.value, r.value, u), 0);
      rounds := rounds + [Round(l.value, r.value, u)];
    }
  }

  /** Accepts exactly when the proof parses and the verifier's equation holds. */
  method IpaVerify<F(==, !new), G(==, !new)>(
      v: Space<F, G>, bases1: seq<G>, bases2: seq<G>, res1: G, res2: G, transcript: Transcript<F, G>)
    returns (outcome: Outcome)
    requires IsSpace(v)
    modifies transcript
    ensures outcome == Verdict(v, transcript.hash, old(transcript.log), old(transcript.proof), bases1, bases2, res1, res2)
  {
    hide IsSpace, Inner, CrossScalars, CrossBases, Expand, VerifierHolds, StatementLog, Parse, Log2;
    if |bases1| != |bases2| || Log2(|bases1|).None? {
      return Panic;
    }
    var k := Log2(|bases1|).value;
    var r := AbsorbStatement(transcript, bases1, bases2, res1, res2);
    var bad, scalars, bases, ujs, rounds := ReadRounds(v, transcript, k);
    if bad.Some? {
      return bad.value;
    }
    var x := transcript.Read();
    if x.None? || !x.value.Scalar? {
      return ReadError;
    }
    var s := x.value.f;
    var ipa := IpaScalars(v.field, rounds, ujs, v.field.neg(s));
    var ipaR := seq(|ipa|, i requires 0 <= i < |ipa| => v.field.mul(ipa[i], r));
    FinalSum(v, rounds, s, ipa, ipaR, bases1, bases2, res1, res2, r);
    var total := Inner(v, scalars + (ipa + ipaR + [v.field.one, r]), bases + (bases1 + bases2 + [res1, res2]));
    outcome := if total == v.group.zero then Accepted else Opening;
  }

  lemma NoCross<F, G>(k: Field<F>)
    ensures CrossScalars<F, G>(k, [], 0) == [] && CrossBases<F, G>([], 0) == []
  {}

  // ---------------------------------------------------------------- prover and verifier together

  /** The verifier reads back the rounds that were written, and derives the same challenges. */
  lemma {:induction false} ParseWritten<F, G>(
      v: Space<F, G>, hash: seq<Item<F, G>> -> F, log: seq<Item<F, G>>, rounds: seq<Round<F, G>>,
      tail: seq<Item<F, G>>, proof: seq<Item<F, G>>, i: nat)
    requires i <= |rounds| && Consistent(hash, log, rounds) && NonZero(v, rounds)
    requires proof == ProofOf(rounds, |rounds|) + tail
    ensures |ProofOf(rounds, i)| == 2 * i && 2 * i <= |proof|
    ensures Parse(v, hash, log, proof, i) == Rounds(rounds[..i], LogAfter(log, rounds, i), proof[2 * i..])
  {
    hide Parse, ProofOf, LogAfter, Consistent, NonZero;
    ProofAt(rounds, |rounds|);
    ProofAt(rounds, i);
    ParseNone(v, hash, log, proof, rounds);
    if i > 0 {
      ParseWritten(v, hash, log, rounds, tail, proof, i - 1);
      var pf, x := proof[2 * (i - 1)..], rounds[i - 1];
      assert pf[0] == Point(x.l) && pf[1] == Point(x.r);
      WrittenRound(v, hash, log, rounds, i - 1);
      ParseStep(v, hash, log, proof, i - 1, rounds[..i - 1], LogAfter(log, rounds, i - 1), pf, x);
      assert pf[2..] == proof[2 * i..];
      assert rounds[..i] == rounds[..i - 1] + [x];
    }
  }

  lemma ParseNone<F, G>(
      v: Space<F, G>, hash: seq<Item<F, G>> -> F, log: seq<Item<F, G>>, proof: seq<Item<F, G>>, rounds: seq<Round<F, G>>)
    ensures Parse(v, hash, log, proof, 0) == Rounds(rounds[..0], LogAfter(log, rounds, 0), proof[0..])
  {}

  lemma WrittenRound<F, G>(
      v: Space<F, G>, hash: seq<Item<F, G>> -> F, log: seq<Item<F, G>>, rounds: seq<Round<F, G>>, i: nat)
    requires i < |rounds| && Consistent(hash, log, rounds) && NonZero(v, rounds)
    ensures var x := rounds[i];
            && x.u == hash(LogAfter(log, rounds, i) + [Point(x.l)] + [Point(x.r)]) && x.u != v.field.zero
            && LogAfter(log, rounds, i + 1) == LogAfter(log, rounds, i) + [Point(x.l)] + [Point(x.r)] + [Squeezed]
  {
    assert ConsistentAt(hash, log, rounds, i);
  }

  /** Reading one more round. */
  lemma ParseStep<F, G>(
      v: Space<F, G>, hash: seq<Item<F, G>> -> F, log: seq<Item<F, G>>, proof: seq<Item<F, G>>, i: nat,
      rounds: seq<Round<F, G>>, lg: seq<Item<F, G>>, pf: seq<Item<F, G>>, x: Round<F, G>)
    requires Parse(v, hash, log, proof, i) == Rounds(rounds, lg, pf)
    requires |pf| >= 2 && pf[0] == Point(x.l) && pf[1] == Point(x.r)
    requires x.u == hash(lg + [pf[0]] + [pf[1]]) && x.u != v.field.zero
    ensures Parse(v, hash, log, proof, i + 1) == Rounds(rounds + [x], lg + [pf[0]] + [pf[1]] + [Squeezed], pf[2..])
  {}

  lemma {:induction false} ProofAt<F, G>(rounds: seq<Round<F, G>>, n: nat)
    requires n <= |rounds|
    ensures |ProofOf(rounds, n)| == 2 * n
    ensures forall i :: 0 <= i < n ==> ProofOf(rounds, n)[2 * i] == Point(rounds[i].l)
    ensures forall i :: 0 <= i < n ==> ProofOf(rounds, n)[2 * i + 1] == Point(rounds[i].r)
  {
    if n > 0 {
      ProofAt(rounds, n - 1);
    }
  }

  /** For honest rounds the verifier's equation is the claim itself. */
  lemma HonestVerdict<F(!new), G(!new)>(
      v: Space<F, G>, rounds: seq<Round<F, G>>, s: seq<F>, b1: seq<G>, b2: seq<G>, res1: G, res2: G, r: F)
    requires IsSpace(v) && |s| == |b1| == |b2| == Pow2(|rounds|) && NonZero(v, rounds)
    requires HonestTo(v, rounds, |rounds|, s, FoldPoints(v, v.field.one, b1, r, b2), |rounds|)
    ensures VerifierHolds(v, rounds, FoldSecrets(v, rounds, |rounds|, s, |rounds|)[0], b1, b2, res1, res2, r) <==>
            v.group.add(res1, v.scale(r, res2)) == v.group.add(Inner(v, s, b1), v.scale(r, Inner(v, s, b2)))
  {
    hide IsSpace, Inner, FoldPoints, CrossSum, HonestTo;
    SpaceGroup(v);
    var n := |rounds|;
    var b := FoldPoints(v, v.field.one, b1, r, b2);
    HonestInner(v, rounds, n, s, b, n);
    var t, c := FoldSecrets(v, rounds, n, s, n), FoldBases(v, rounds, n, b, n);
    assert Pow2(0) == 1;
    hide FoldSecrets, FoldBases, Pow2;
    assert t == [t[0]] && c == [c[0]];
    InnerOne(v, t[0], c[0]);
    InnerBatch(v, s, b1, b2, r);
    if v.group.add(Inner(v, s, b), CrossSum(v, rounds, n)) == v.group.add(v.group.add(res1, v.scale(r, res2)), CrossSum(v, rounds, n)) {
      GCancel(v.group, Inner(v, s, b), v.group.add(res1, v.scale(r, res2)), CrossSum(v, rounds, n));
    }
  }

  lemma InnerBatch<F(!new), G(!new)>(v: Space<F, G>, s: seq<F>, b1: seq<G>, b2: seq<G>, r: F)
    requires IsSpace(v) && |s| == |b1| == |b2|
    ensures Inner(v, s, FoldPoints(v, v.field.one, b1, r, b2)) == v.group.add(Inner(v, s, b1), v.scale(r, Inner(v, s, b2)))
  {
    hide IsSpace, InnerTo, FoldPoints;
    InnerFoldPoints(v, s, v.field.one, b1, r, b2, |s|);
    SOne(v, Inner(v, s, b1));
  }

  /** A proof made by IpaProve is accepted exactly when the batched claim holds, for any claimed results. */
  method ProveThenVerify<F(==, !new), G(==, !new)>(
      v: Space<F, G>, scalars: seq<F>, bases1: seq<G>, bases2: seq<G>, res1: G, res2: G, hash: seq<Item<F, G>> -> F)
    returns (proved: bool, outcome: Outcome)
    requires IsSpace(v)
    ensures proved ==> |scalars| == |bases1| == |bases2|
    ensures proved ==>
              var r := hash(StatementLog([], bases1, bases2, res1, res2));
              outcome ==
                if v.group.add(res1, v.scale(r, res2)) ==
                   v.group.add(Inner(v, scalars, bases1), v.scale(r, Inner(v, scalars, bases2)))
                then Accepted else Opening
    ensures proved && res1 == Inner(v, scalars, bases1) && res2 == Inner(v, scalars, bases2) ==> outcome == Accepted
  {
    hide IsSpace, Inner, StatementLog, VerifierHolds, Honest, Parse, ProofOf, LogAfter, FoldSecrets, FoldPoints;
    var pt := new Transcript(hash, []);
    ghost var rounds: seq<Round<F, G>>;
    proved, rounds := IpaProve(v, scalars, bases1, bases2, res1, res2, pt);
    outcome := Panic;
    if proved {
      var vt := new Transcript(hash, pt.proof);
      ghost var start := StatementLog([], bases1, bases2, res1, res2);
      ghost var k := |rounds|;
      ghost var s0 := FoldSecrets(v, rounds, k, scalars, k)[0];
      HonestParts(v, hash, start + [Squeezed], rounds, k, scalars, FoldPoints(v, v.field.one, bases1, hash(start), bases2));
      ParseWritten(v, hash, start + [Squeezed], rounds, [Scalar(s0)], pt.proof, k);
      HonestVerdict(v, rounds, scalars, bases1, bases2, res1, res2, hash(start));
      assert rounds[..k] == rounds;
      ProofAt(rounds, k);
      assert pt.proof[2 * k..] == [Scalar(s0)];
      outcome := IpaVerify(v, bases1, bases2, res1, res2, vt);
    }
  }

  lemma HonestParts<F, G>(
      v: Space<F, G>, hash: seq<Item<F, G>> -> F, log: seq<Item<F, G>>, rounds: seq<Round<F, G>>,
      k: nat, s: seq<F>, b: seq<G>)
    requires |rounds| <= k && |s| == |b| == Pow2(k) && Honest(v, hash, log, rounds, k, s, b)
    ensures Consistent(hash, log, rounds) && NonZero(v, rounds) && HonestTo(v, rounds, k, s, b, |rounds|)
  {}
}
