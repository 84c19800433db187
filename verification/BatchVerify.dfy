/** Verification of many proofs by one random linear combination (zk_stdlib/src/lib.rs, batch_verify). */
module BatchVerify {
  import opened Algebra
  import opened Polynomials
  import opened Wrappers

  datatype Outcome = Accepted | InvalidInstances | PrepareError | Opening

  /** What one proof is reduced to: a guard, a summary of its transcript, and whether bytes were left over. */
  datatype Prepared<F, G> = Prepared(guard: G, summary: F, leftover: bool)

  /** The parts of the proof system that batching relies on. A guard holds when check sends it to zero. */
  datatype System<!V, !P, !F, !G, !T> = System(
    space: Space<F, G>,
    target: Space<F, T>,
    check: G -> T,
    nbPublicInputs: V -> nat,
    prepare: (V, seq<F>, P) -> Option<Prepared<F, G>>,
    challenge: seq<F> -> F)

  /** The check of a guard is a linear map. */
  ghost predicate IsLinear<V, P, F(!new), G(!new), T(!new)>(y: System<V, P, F, G, T>) {
    && IsSpace(y.space) && IsSpace(y.target) && y.space.field == y.target.field
    && (forall a: G, b: G {:trigger At2(a, b)} :: At2(a, b) ==>
          y.check(y.space.group.add(a, b)) == y.target.group.add(y.check(a), y.check(b)))
    && (forall c: F, a: G {:trigger At2(c, a)} :: At2(c, a) ==>
          y.check(y.space.scale(c, a)) == y.target.scale(c, y.check(a)))
  }

  ghost predicate Holds<V, P, F, G, T>(y: System<V, P, F, G, T>, g: G) {
    y.check(g) == y.target.group.zero
  }

  lemma LinearZero<V, P, F(!new), G(!new), T(!new)>(y: System<V, P, F, G, T>)
    requires IsLinear(y)
    ensures y.check(y.space.group.zero) == y.target.group.zero
  {
    var z := y.space.group.zero;
    SZero(y.space, y.space.field.zero, z);
    assert At2(y.space.field.zero, z);
    SZero(y.target, y.target.field.zero, y.check(z));
  }

  // ---------------------------------------------------------------- the combined guard

  ghost function Checks<V, P, F, G, T>(y: System<V, P, F, G, T>, guards: seq<G>): (r: seq<T>)
    ensures |r| == |guards| && forall i :: 0 <= i < |r| ==> r[i] == y.check(guards[i])
  {
    seq(|guards|, i requires 0 <= i < |guards| => y.check(guards[i]))
  }

  /** Checking a combination of guards combines their checks. */
  lemma {:induction false} CheckTerms<V, P, F(!new), G(!new), T(!new)>(
      y: System<V, P, F, G, T>, guards: seq<G>, r: F, n: nat)
    requires IsLinear(y) && n <= |guards|
    ensures y.check(Terms(y.space, guards, r, n)) == Terms(y.target, Checks(y, guards), r, n)
  {
    if n == 0 {
      LinearZero(y);
    } else {
      CheckTerms(y, guards, r, n - 1);
      var p := Pow(y.space.field, r, n - 1);
      assert At2(Terms(y.space, guards, r, n - 1), y.space.scale(p, guards[n - 1]));
      assert At2(p, guards[n - 1]);
    }
  }

  /** If every guard holds, the combination holds for every challenge. */
  lemma AllHold<V, P, F(!new), G(!new), T(!new)>(y: System<V, P, F, G, T>, guards: seq<G>, r: F)
    requires IsLinear(y) && forall i :: 0 <= i < |guards| ==> Holds(y, guards[i])
    ensures Holds(y, Eval(y.space, guards, r))
  {
    CheckTerms(y, guards, r, |guards|);
    hide IsLinear;
    LinearParts(y);
    ZeroTerms(y.target, Checks(y, guards), r, |guards|);
  }

  lemma LinearParts<V, P, F(!new), G(!new), T(!new)>(y: System<V, P, F, G, T>)
    requires IsLinear(y)
    ensures IsSpace(y.space) && IsSpace(y.target) && y.space.field == y.target.field
  {}

  lemma {:induction false} ZeroTerms<F(!new), T(!new)>(t: Space<F, T>, s: seq<T>, r: F, n: nat)
    requires IsSpace(t) && n <= |s| && forall i :: 0 <= i < |s| ==> s[i] == t.group.zero
    ensures Terms(t, s, r, n) == t.group.zero
  {
    if n > 0 {
      ZeroTerms(t, s, r, n - 1);
      SZero(t, Pow(t.field, r, n - 1), t.group.zero);
      GZero(t.group, t.group.zero);
    }
  }

  /** If the combination of n guards holds for n distinct challenges, every guard holds. */
  lemma EnoughChallenges<V, P, F(!new), G(!new), T(!new)>(y: System<V, P, F, G, T>, guards: seq<G>, rs: seq<F>)
    requires IsLinear(y) && |rs| >= |guards| && Distinct(rs)
    requires forall j :: 0 <= j < |rs| ==> Holds(y, Eval(y.space, guards, rs[j]))
    ensures forall i :: 0 <= i < |guards| ==> Holds(y, guards[i])
  {
    hide IsLinear;
    LinearParts(y);
    var s := Checks(y, guards);
    forall j | 0 <= j < |rs|
      ensures Eval(y.target, s, rs[j]) == y.target.group.zero
    {
      assert Holds(y, Eval(y.space, guards, rs[j]));
      CheckTerms(y, guards, rs[j], |guards|);
    }
    RootCounting(y.target, s, rs);
  }

  /** A batch with a guard that fails passes for fewer than n challenges. */
  lemma FewBadChallenges<V, P, F(!new), G(!new), T(!new)>(
      y: System<V, P, F, G, T>, guards: seq<G>, k: nat, rs: seq<F>)
    requires IsLinear(y) && k < |guards| && !Holds(y, guards[k]) && Distinct(rs)
    requires forall j :: 0 <= j < |rs| ==> Holds(y, Eval(y.space, guards, rs[j]))
    ensures |rs| < |guards|
  {
    hide IsLinear;
    if |rs| >= |guards| {
      EnoughChallenges(y, guards, rs);
    }
  }

  // ---------------------------------------------------------------- the algorithm

  /** What stops the preparation of proof i, if anything. */
  ghost function PrepareFailure<V, P, F, G, T>(y: System<V, P, F, G, T>, vk: V, pi: seq<F>, proof: P): Option<Outcome> {
    if |pi| != y.nbPublicInputs(vk) then Some(InvalidInstances)
    else
      match y.prepare(vk, pi, proof)
      case None => Some(PrepareError)
      case Some(p) => if p.leftover then Some(Opening) else None
  }

  /** Wrong numbers of public inputs, proofs that do not prepare and bytes left over, in this order. */
  lemma FailureCases<V, P, F, G, T>(y: System<V, P, F, G, T>, vk: V, pi: seq<F>, proof: P)
    ensures var f, p := PrepareFailure(y, vk, pi, proof), y.prepare(vk, pi, proof);
            && (f == Some(InvalidInstances) <==> |pi| != y.nbPublicInputs(vk))
            && (f == Some(PrepareError) <==> |pi| == y.nbPublicInputs(vk) && p.None?)
            && (f == Some(Opening) <==> |pi| == y.nbPublicInputs(vk) && p.Some? && p.value.leftover)
            && (f == None <==> |pi| == y.nbPublicInputs(vk) && p.Some? && !p.value.leftover)
            && f != Some(Accepted)
  {}

  /** Guards and transcript summaries of all proofs, or the first failure. */
  method PrepareAll<V, P, F, G, T>(y: System<V, P, F, G, T>, vks: seq<V>, pis: seq<seq<F>>, proofs: seq<P>)
    returns (failure: Option<Outcome>, guards: seq<G>, summaries: seq<F>)
    requires |vks| == |pis| == |proofs|
    ensures failure.Some? <==> exists i :: 0 <= i < |vks| && PrepareFailure(y, vks[i], pis[i], proofs[i]).Some?
    ensures failure.Some? ==> exists i :: 0 <= i < |vks| && PrepareFailure(y, vks[i], pis[i], proofs[i]) == failure
    ensures failure.None? ==> |guards| == |summaries| == |vks|
    ensures failure.None? ==>
              forall i :: 0 <= i < |vks| ==>
                && |pis[i]| == y.nbPublicInputs(vks[i])
                && y.prepare(vks[i], pis[i], proofs[i]) == Some(Prepared(guards[i], summaries[i], false))
  {
    failure, guards, summaries := None, [], [];
    for i := 0 to |vks|
      invariant failure.None? && |guards| == |summaries| == i
      invariant forall j :: 0 <= j < i ==>
                  && |pis[j]| == y.nbPublicInputs(vks[j])
                  && y.prepare(vks[j], pis[j], proofs[j]) == Some(Prepared(guards[j], summaries[j], false))
    {
      if |pis[i]| != y.nbPublicInputs(vks[i]) {
        failure := Some(InvalidInstances);
        return;
      }
      var p := y.prepare(vks[i], pis[i], proofs[i]);
      if p.None? {
        failure := Some(PrepareError);
        return;
      }
      if p.value.leftover {
        failure := Some(Opening);
        return;
      }
      guards, summaries := guards + [p.value.guard], summaries + [p.value.summary];
    }
  }

  /** 1, r, r^2, ... */
  method PowersOf<F>(k: Field<F>, r: F, n: nat) returns (powers: seq<F>)
    ensures |powers| == n && forall i :: 0 <= i < n ==> powers[i] == Pow(k, r, i)
  {
    powers := [];
    var p := k.one;
    for i := 0 to n
      invariant |powers| == i && p == Pow(k, r, i)
      invariant forall j :: 0 <= j < i ==> powers[j] == Pow(k, r, j)
    {
      powers := powers + [p];
      p := k.mul(p, r);
    }
  }

  /** Scales each guard by its power and adds them, the last one first. */
  method Combine<F(!new), G(!new)>(v: Space<F, G>, guards0: seq<G>, r: F) returns (acc: Option<G>)
    requires IsSpace(v)
    ensures acc.None? <==> guards0 == []
    ensures acc.Some? ==> acc.value == Eval(v, guards0, r)
  {
    hide IsSpace, Terms;
    var n := |guards0|;
    var powers := PowersOf(v.field, r, n);
    var guards := guards0;
    for i := 0 to n
      invariant |guards| == n
      invariant forall j :: 0 <= j < i ==> guards[j] == v.scale(Pow(v.field, r, j), guards0[j])
      invariant forall j :: i <= j < n ==> guards[j] == guards0[j]
    {
      guards := guards[i := v.scale(powers[i], guards[i])];
    }
    if n == 0 {
      return None;
    }
    var last := guards[n - 1];
    guards := guards[..n - 1];
    var sum := last;
    NoTerms(v, guards0, r, last);
    for i := 0 to n - 1
      invariant sum == v.group.add(last, Terms(v, guards0, r, i))
    {
      TermsStep(v, guards0, r, i, last);
      sum := v.group.add(sum, guards[i]);
    }
    TermsLast(v, guards0, r);
    acc := Some(sum);
  }

  lemma NoTerms<F(!new), G(!new)>(v: Space<F, G>, s: seq<G>, r: F, last: G)
    requires IsSpace(v)
    ensures v.group.add(last, Terms(v, s, r, 0)) == last
  {
    GZero(v.group, last);
  }

  lemma TermsStep<F(!new), G(!new)>(v: Space<F, G>, s: seq<G>, r: F, i: nat, last: G)
    requires IsSpace(v) && i < |s|
    ensures v.group.add(v.group.add(last, Terms(v, s, r, i)), v.scale(Pow(v.field, r, i), s[i])) ==
            v.group.add(last, Terms(v, s, r, i + 1))
  {
    GAssoc(v.group, last, Terms(v, s, r, i), v.scale(Pow(v.field, r, i), s[i]));
  }

  lemma TermsLast<F(!new), G(!new)>(v: Space<F, G>, s: seq<G>, r: F)
    requires IsSpace(v) && |s| > 0
    ensures v.group.add(v.scale(Pow(v.field, r, |s| - 1), s[|s| - 1]), Terms(v, s, r, |s| - 1)) == Eval(v, s, r)
  {
    GComm(v.group, v.scale(Pow(v.field, r, |s| - 1), s[|s| - 1]), Terms(v, s, r, |s| - 1));
  }

  /** Accepts a batch that can be prepared exactly when the combined guard holds at the derived challenge;
      in particular whenever every guard holds, and for the empty batch. */
  method BatchVerify<V, P, F(!new), G(!new), T(==, !new)>(
      y: System<V, P, F, G, T>, vks: seq<V>, pis: seq<seq<F>>, proofs: seq<P>)
    returns (outcome: Outcome, ghost guards: seq<G>, ghost summaries: seq<F>)
    requires IsLinear(y)
    ensures outcome == Accepted ==>
              && |pis| == |proofs| == |vks|
              && forall i :: 0 <= i < |vks| ==>
                   && |pis[i]| == y.nbPublicInputs(vks[i])
                   && y.prepare(vks[i], pis[i], proofs[i]).Some? && !y.prepare(vks[i], pis[i], proofs[i]).value.leftover
    ensures |pis| != |vks| || |proofs| != |vks| ==> outcome == InvalidInstances
    ensures |pis| == |proofs| == |vks| && (exists i :: 0 <= i < |vks| && PrepareFailure(y, vks[i], pis[i], proofs[i]).Some?) ==>
              exists i :: 0 <= i < |vks| && PrepareFailure(y, vks[i], pis[i], proofs[i]) == Some(outcome)
    ensures |pis| == |proofs| == |vks| && (forall i :: 0 <= i < |vks| ==> PrepareFailure(y, vks[i], pis[i], proofs[i]).None?) ==>
              && |guards| == |summaries| == |vks|
              && (forall i :: 0 <= i < |vks| ==>
                    y.prepare(vks[i], pis[i], proofs[i]) == Some(Prepared(guards[i], summaries[i], false)))
              && outcome == (if Holds(y, Eval(y.space, guards, y.challenge(summaries))) then Accepted else Opening)
              && ((forall i :: 0 <= i < |vks| ==> Holds(y, guards[i])) ==> outcome == Accepted)
  {
    hide IsLinear, Terms, Eval;
    guards, summaries := [], [];
    if |pis| != |vks| || |proofs| != |vks| {
      return InvalidInstances, guards, summaries;
    }
    var failure, gs, ss := PrepareAll(y, vks, pis, proofs);
    if failure.Some? {
      return failure.value, guards, summaries;
    }
    var c := y.challenge(ss);
    LinearParts(y);
    var acc := Combine(y.space, gs, c);
    guards, summaries := gs, ss;
    if forall i :: 0 <= i < |gs| ==> Holds(y, gs[i]) {
      AllHold(y, gs, c);
    }
    if acc.None? {
      AllHold(y, gs, c);
      return Accepted, guards, summaries;
    }
    outcome := if y.check(acc.value) == y.target.group.zero then Accepted else Opening;
  }
}
