/** What the challenges of the inner product argument are bound to, and which outcome each proof has
    (aggregation/src/light_aggregator/inner_product_argument.rs). */
module IpaTranscript {
  import opened Algebra
  import opened Numbers
  import opened IpaSpec
  import opened Ipa

  // ---------------------------------------------------------------- binding

  /** The batching challenge is bound to the whole statement. */
  lemma StatementIsBound<F, G>(
      log: seq<Item<F, G>>, b1: seq<G>, b2: seq<G>, res1: G, res2: G, c1: seq<G>, c2: seq<G>, res1': G, res2': G)
    requires |b1| == |b2| && |c1| == |c2|
    requires StatementLog(log, b1, b2, res1, res2) == StatementLog(log, c1, c2, res1', res2')
    ensures b1 == c1 && b2 == c2 && res1 == res1' && res2 == res2'
  {
    var x := StatementLog(log, b1, b2, res1, res2);
    StatementItems(log, b1, b2, res1, res2);
    StatementItems(log, c1, c2, res1', res2');
    hide StatementLog;
    var n, m := |log|, |log| + |b1|;
    forall i | 0 <= i < |b1|
      ensures b1[i] == c1[i] && b2[i] == c2[i]
    {
      assert x[n + i] == Point(b1[i]) && x[m + i] == Point(b2[i]);
      assert x[n + i] == Point(c1[i]) && x[m + i] == Point(c2[i]);
    }
  }

  /** Each round adds its two cross terms and a mark, in order. */
  lemma {:induction false} RoundItems<F, G>(log: seq<Item<F, G>>, rounds: seq<Round<F, G>>, n: nat)
    requires n <= |rounds|
    ensures |LogAfter(log, rounds, n)| == |log| + 3 * n && LogAfter(log, rounds, n)[..|log|] == log
    ensures forall i :: 0 <= i < n ==>
              var at := |log| + 3 * i;
              LogAfter(log, rounds, n)[at..at + 3] == [Point(rounds[i].l), Point(rounds[i].r), Squeezed]
  {
    if n > 0 {
      RoundItems(log, rounds, n - 1);
      RoundAdded(log, rounds, n);
    }
  }

  lemma RoundAdded<F, G>(log: seq<Item<F, G>>, rounds: seq<Round<F, G>>, n: nat)
    requires 0 < n <= |rounds| && |LogAfter(log, rounds, n - 1)| == |log| + 3 * (n - 1)
    ensures var before, after := LogAfter(log, rounds, n - 1), LogAfter(log, rounds, n);
            && |after| == |before| + 3 && after[..|before|] == before
            && after[|before|..] == [Point(rounds[n - 1].l), Point(rounds[n - 1].r), Squeezed]
            && forall i :: 0 <= i < n - 1 ==>
                 var at := |log| + 3 * i; after[at..at + 3] == before[at..at + 3]
  {
    var before, after := LogAfter(log, rounds, n - 1), LogAfter(log, rounds, n);
    assert after[..|before|] == before;
    forall i | 0 <= i < n - 1
      ensures var at := |log| + 3 * i; after[at..at + 3] == before[at..at + 3]
    {
      var at := |log| + 3 * i;
      assert after[at..at + 3] == after[..|before|][at..at + 3];
    }
  }

  /** The challenge of round i is drawn from a log that holds the statement's log, all earlier rounds and the two
      cross terms of round i, and nothing else. */
  lemma ChallengeIsBound<F, G>(
      hash: seq<Item<F, G>> -> F, log: seq<Item<F, G>>, rounds: seq<Round<F, G>>, i: nat) returns (now: seq<Item<F, G>>)
    requires i < |rounds| && Consistent(hash, log, rounds)
    ensures rounds[i].u == hash(now) && |now| == |log| + 3 * i + 2 && now[..|log|] == log
    ensures forall j :: 0 <= j < i ==>
              var at := |log| + 3 * j;
              now[at..at + 3] == [Point(rounds[j].l), Point(rounds[j].r), Squeezed]
    ensures now[|log| + 3 * i..] == [Point(rounds[i].l), Point(rounds[i].r)]
  {
    var before := LogAfter(log, rounds, i);
    now := before + [Point(rounds[i].l)] + [Point(rounds[i].r)];
    assert ConsistentAt(hash, log, rounds, i);
    RoundItems(log, rounds, i);
    hide LogAfter;
    assert now[..|before|] == before && now[..|log|] == before[..|log|];
    forall j | 0 <= j < i
      ensures var at := |log| + 3 * j; now[at..at + 3] == before[at..at + 3]
    {
      var at := |log| + 3 * j;
      assert now[at..at + 3] == now[..|before|][at..at + 3];
    }
  }

  // ---------------------------------------------------------------- outcomes

  /** The last round read. */
  lemma LastRead<F, G>(
      v: Space<F, G>, hash: seq<Item<F, G>> -> F, log: seq<Item<F, G>>, proof: seq<Item<F, G>>, i: nat)
    returns (x: Round<F, G>)
    requires i > 0 && Parse(v, hash, log, proof, i).Rounds?
    ensures var p, q := Parse(v, hash, log, proof, i - 1), Parse(v, hash, log, proof, i);
            && p.Rounds? && p.rest == [Point(x.l)] + [Point(x.r)] + q.rest && q.rounds == p.rounds + [x]
            && x.u == hash(p.log + [Point(x.l)] + [Point(x.r)])
            && q.log == p.log + [Point(x.l)] + [Point(x.r)] + [Squeezed]
  {
    var p, q := Parse(v, hash, log, proof, i - 1), Parse(v, hash, log, proof, i);
    x := q.rounds[i - 1];
  }

  /** Reading i rounds: what was read, the log and the rest are determined by the proof. */
  lemma {:induction false} ParsedIsWritten<F, G>(
      v: Space<F, G>, hash: seq<Item<F, G>> -> F, log: seq<Item<F, G>>, proof: seq<Item<F, G>>, i: nat)
    requires Parse(v, hash, log, proof, i).Rounds?
    ensures var p := Parse(v, hash, log, proof, i);
            && Consistent(hash, log, p.rounds) && p.log == LogAfter(log, p.rounds, i)
            && proof == ProofOf(p.rounds, i) + p.rest
  {
    hide Parse, Consistent, LogAfter, ProofOf;
    if i == 0 {
      ParsedNone(v, hash, log, proof);
    } else {
      var x := LastRead(v, hash, log, proof, i);
      ParsedIsWritten(v, hash, log, proof, i - 1);
      ConsistentSnoc(hash, log, Parse(v, hash, log, proof, i - 1).rounds, x);
    }
  }

  lemma ParsedNone<F, G>(v: Space<F, G>, hash: seq<Item<F, G>> -> F, log: seq<Item<F, G>>, proof: seq<Item<F, G>>)
    ensures Parse(v, hash, log, proof, 0) == Rounds([], log, proof)
    ensures Consistent(hash, log, []) && LogAfter<F, G>(log, [], 0) == log && ProofOf<F, G>([], 0) == []
  {}

  /** The proof starts with these rounds, whose challenges come from the transcript and are not zero, and goes
      on with tail. */
  ghost predicate Wrote<F, G>(
      v: Space<F, G>, hash: seq<Item<F, G>> -> F, start: seq<Item<F, G>>, proof: seq<Item<F, G>>,
      rounds: seq<Round<F, G>>, tail: seq<Item<F, G>>)
  {
    proof == ProofOf(rounds, |rounds|) + tail && Consistent(hash, start + [Squeezed], rounds) && NonZero(v, rounds)
  }

  lemma ReadBack<F, G>(
      v: Space<F, G>, hash: seq<Item<F, G>> -> F, start: seq<Item<F, G>>, proof: seq<Item<F, G>>,
      rounds: seq<Round<F, G>>, tail: seq<Item<F, G>>)
    requires Wrote(v, hash, start, proof, rounds, tail)
    ensures Parse(v, hash, start + [Squeezed], proof, |rounds|) == Rounds(rounds, LogAfter(start + [Squeezed], rounds, |rounds|), tail)
  {
    hide Parse, ProofOf, LogAfter, Consistent, NonZero;
    var k := |rounds|;
    ParseWritten(v, hash, start + [Squeezed], rounds, tail, proof, k);
    assert rounds[..k] == rounds && proof[2 * k..] == tail;
  }

  /** Acceptance: k rounds, then a scalar, and the verifier's equation. */
  ghost predicate Accepts<F, G>(
      v: Space<F, G>, hash: seq<Item<F, G>> -> F, start: seq<Item<F, G>>, proof: seq<Item<F, G>>,
      b1: seq<G>, b2: seq<G>, res1: G, res2: G, rounds: seq<Round<F, G>>, s: F, tail: seq<Item<F, G>>)
  {
    && |b1| == |b2| == Pow2(|rounds|) && Wrote(v, hash, start, proof, rounds, [Scalar(s)] + tail)
    && VerifierHolds(v, rounds, s, b1, b2, res1, res2, hash(start))
  }

  /** A proof is accepted exactly if it is such a proof for the log that absorbed the statement. */
  lemma AcceptedExactly<F(!new), G(!new)>(
      v: Space<F, G>, hash: seq<Item<F, G>> -> F, log: seq<Item<F, G>>, proof: seq<Item<F, G>>,
      b1: seq<G>, b2: seq<G>, res1: G, res2: G, start: seq<Item<F, G>>)
    requires Absorbed(log, start, b1, b2, res1, res2)
    ensures Verdict(v, hash, log, proof, b1, b2, res1, res2) == Accepted <==>
            exists rounds: seq<Round<F, G>>, s: F, tail: seq<Item<F, G>> ::
              Accepts(v, hash, start, proof, b1, b2, res1, res2, rounds, s, tail)
  {
    StatementItems(log, b1, b2, res1, res2);
    SameStatement(log, start, StatementLog(log, b1, b2, res1, res2), b1, b2, res1, res2);
    hide VerifierHolds, StatementLog, Consistent, NonZero, ProofOf, Log2, Pow2, Parse, Absorbed;
    if Verdict(v, hash, log, proof, b1, b2, res1, res2) == Accepted {
      var k := Log2(|b1|).value;
      ParsedIsWritten(v, hash, start + [Squeezed], proof, k);
      var p := Parse(v, hash, start + [Squeezed], proof, k);
      assert p.rest == [Scalar(p.rest[0].f)] + p.rest[1..];
      assert Accepts(v, hash, start, proof, b1, b2, res1, res2, p.rounds, p.rest[0].f, p.rest[1..]);
    }
    if rounds: seq<Round<F, G>>, s: F, tail: seq<Item<F, G>> :|
       Accepts(v, hash, start, proof, b1, b2, res1, res2, rounds, s, tail) {
      Log2Complete(|rounds|);
      ReadBack(v, hash, start, proof, rounds, [Scalar(s)] + tail);
    }
  }

  lemma SameStatement<F, G>(
      log: seq<Item<F, G>>, x: seq<Item<F, G>>, y: seq<Item<F, G>>, b1: seq<G>, b2: seq<G>, res1: G, res2: G)
    requires Absorbed(log, x, b1, b2, res1, res2) && Absorbed(log, y, b1, b2, res1, res2)
    ensures x == y
  {
    forall i | 0 <= i < |x|
      ensures x[i] == y[i]
    {
      var n, m := |log|, |log| + |b1|;
      if i < n {
        assert x[i] == x[..n][i] && y[i] == y[..n][i];
      } else if i < m {
        var j := i - n;
        assert x[n + j] == Point(b1[j]) && y[n + j] == Point(b1[j]);
      } else if i < m + |b2| {
        var j := i - m;
        assert x[m + j] == Point(b2[j]) && y[m + j] == Point(b2[j]);
      }
    }
  }

  /** Every outcome for lengths that agree: a proof that breaks off or holds the wrong kind of message is a read
      error, a zero challenge panics, and a complete proof is accepted or rejected by the equation. */
  lemma ProofOutcome<F(!new), G(!new)>(
      v: Space<F, G>, hash: seq<Item<F, G>> -> F, log: seq<Item<F, G>>, proof: seq<Item<F, G>>,
      b1: seq<G>, b2: seq<G>, res1: G, res2: G, k: nat, rounds: seq<Round<F, G>>, tail: seq<Item<F, G>>)
    requires |b1| == |b2| == Pow2(k) && |rounds| <= k
    requires Wrote(v, hash, StatementLog(log, b1, b2, res1, res2), proof, rounds, tail)
    ensures var start := StatementLog(log, b1, b2, res1, res2);
            var outcome := Verdict(v, hash, log, proof, b1, b2, res1, res2);
            if |rounds| < k then
              var points := |tail| >= 2 && tail[0].Point? && tail[1].Point?;
              && (!points ==> outcome == ReadError)
              && (points && hash(LogAfter(start + [Squeezed], rounds, |rounds|) + [tail[0]] + [tail[1]]) == v.field.zero ==>
                    outcome == Panic)
            else if |tail| == 0 || !tail[0].Scalar? then outcome == ReadError
            else
              outcome == if VerifierHolds(v, rounds, tail[0].f, b1, b2, res1, res2, hash(start)) then Accepted else Opening
  {
    hide VerifierHolds, StatementLog, Pow2, Log2, Wrote;
    var start := StatementLog(log, b1, b2, res1, res2);
    Log2Complete(k);
    ReadBack(v, hash, start, proof, rounds, tail);
    if |rounds| < k && Parse(v, hash, start + [Squeezed], proof, |rounds| + 1).Bad? {
      BadStays(v, hash, start + [Squeezed], proof, |rounds| + 1, k);
    }
  }

  /** The length check recognises exactly the powers of two. */
  lemma Log2Exactly(n: nat)
    ensures Log2(n).Some? <==> exists k: nat :: n == Pow2(k)
  {
    hide Log2, Pow2;
    if Log2(n).Some? {
      var k: nat := Log2(n).value;
      assert n == Pow2(k);
    }
    if k: nat :| n == Pow2(k) {
      Log2Complete(k);
    }
  }

  /** Lengths that differ or are not a power of two panic. */
  lemma BadLengths<F(!new), G(!new)>(
      v: Space<F, G>, hash: seq<Item<F, G>> -> F, log: seq<Item<F, G>>, proof: seq<Item<F, G>>,
      b1: seq<G>, b2: seq<G>, res1: G, res2: G)
    requires |b1| != |b2| || !exists k: nat :: |b1| == Pow2(k)
    ensures Verdict(v, hash, log, proof, b1, b2, res1, res2) == Panic
  {
    hide VerifierHolds, StatementLog, Parse, Log2, Pow2;
    Log2Exactly(|b1|);
  }
}
