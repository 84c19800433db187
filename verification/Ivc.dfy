/** Incrementally verifiable computation (aggregation/src/ivc). Proofs are finite terms that carry the
    witness they were made from; the proof system is idealised by the hypotheses Sound and Complete. */
module Ivc {
  import opened Algebra
  import opened Accumulators
  import opened Wrappers

  datatype Instance<S, F, G> = Instance(vk: F, state: S, acc: Accumulator<F, G>)

  datatype Witness<S, W, F, G> = Witness(
    prevState: S, prevAcc: Accumulator<F, G>, prevProof: Proof<S, W, F, G>, step: W)

  /** No bytes, a proof made under a key from a witness, or any other bytes. */
  datatype Proof<S, W, F, G> = NoProof | Term(key: F, made: Witness<S, W, F, G>) | OtherBytes(id: nat)

  datatype System<!S, !W, !F, !G, !T> = System(
    pairing: Pairing<F, G, T>,
    /** The challenge derived from two accumulators. */
    hash: (Accumulator<F, G>, Accumulator<F, G>) -> F,
    genesis: S,
    isGenesis: S -> bool,
    transition: (S, W) -> S,
    decider: S -> bool,
    /** Verification of a proof up to its pairing check, inside the circuit and outside of it. */
    prepareIn: (F, Instance<S, F, G>, Proof<S, W, F, G>) -> Accumulator<F, G>,
    prepare: (F, Instance<S, F, G>, Proof<S, W, F, G>) -> Option<Accumulator<F, G>>,
    leftover: Proof<S, W, F, G> -> bool,
    prove: (F, Instance<S, F, G>, Witness<S, W, F, G>) -> Option<Proof<S, W, F, G>>)

  // ---------------------------------------------------------------- the circuit

  /** One base with scalar one per side; fixed scalars for every name, on the right only. */
  ghost predicate Collapsed<S, W, F, G, T>(y: System<S, W, F, G, T>, a: Accumulator<F, G>) {
    && |a.lhs.bases| == |a.rhs.bases| == 1
    && a.lhs.scalars == [y.pairing.space.field.one] && a.rhs.scalars == [y.pairing.space.field.one]
    && a.lhs.fixed == map[] && a.rhs.fixed.Keys == set name | name in y.pairing.names
  }

  /** What preparing a proof yields: as many scalars as bases, fixed scalars on the right only. */
  ghost predicate PreparedShape<S, W, F, G, T>(y: System<S, W, F, G, T>, a: Accumulator<F, G>) {
    WellFormedAcc(a) && a.lhs.fixed == map[] && forall name :: name in a.rhs.fixed ==> name in y.pairing.names
  }

  ghost predicate ShapesAgree<S(!new), W(!new), F(!new), G(!new), T>(y: System<S, W, F, G, T>, vk: F) {
    forall inst: Instance<S, F, G>, p: Proof<S, W, F, G> :: PreparedShape(y, y.prepareIn(vk, inst, p))
  }

  function Combined<S, W, F, G, T>(y: System<S, W, F, G, T>, a: Accumulator<F, G>, b: Accumulator<F, G>): Accumulator<F, G> {
    Accumulate(y.pairing.space.field, a, b, y.hash(a, b))
  }

  /** The accumulation of a and b, collapsed. */
  function NextAcc<S, W, F, G, T>(y: System<S, W, F, G, T>, a: Accumulator<F, G>, b: Accumulator<F, G>): Accumulator<F, G>
    requires WellFormedAcc(a) && WellFormedAcc(b)
  {
    Collapse(y.pairing.space, Combined(y, a, b))
  }

  /** The accumulator of the previous proof, multiplied by zero when the previous state is genesis. */
  ghost function PrevProofAcc<S, W, F, G, T>(y: System<S, W, F, G, T>, vk: F, w: Witness<S, W, F, G>): Accumulator<F, G> {
    var k := y.pairing.space.field;
    var bit := if y.isGenesis(w.prevState) then k.zero else k.one;
    ScaleAcc(k, y.prepareIn(vk, Instance(vk, w.prevState, w.prevAcc), w.prevProof), bit)
  }

  /** The circuit is satisfied by this instance and witness. */
  ghost predicate Relation<S, W, F, G, T>(y: System<S, W, F, G, T>, inst: Instance<S, F, G>, w: Witness<S, W, F, G>) {
    && inst.state == y.transition(w.prevState, w.step)
    && Collapsed(y, w.prevAcc)
    && WellFormedAcc(PrevProofAcc(y, inst.vk, w))
    && inst.acc == NextAcc(y, PrevProofAcc(y, inst.vk, w), w.prevAcc)
  }

  // ---------------------------------------------------------------- hypotheses

  /** A prepared proof that passes the pairing check was made under the key from a satisfying witness. */
  ghost predicate KnowledgeSound<S(!new), W(!new), F(!new), G(!new), T>(y: System<S, W, F, G, T>, vk: F) {
    forall inst: Instance<S, F, G>, p: Proof<S, W, F, G> {:trigger y.prepareIn(vk, inst, p)} ::
      inst.vk == vk && Valid(y.pairing, y.prepareIn(vk, inst, p)) ==> p.Term? && p.key == vk && Relation(y, inst, p.made)
  }

  /** The derived challenge is never the one that hides an invalid accumulator. */
  ghost predicate Binding<S, W, F(!new), G(!new), T>(y: System<S, W, F, G, T>) {
    forall a: Accumulator<F, G>, b: Accumulator<F, G> {:trigger Combined(y, a, b)} ::
      WellFormedAcc(a) && WellFormedAcc(b) && Valid(y.pairing, Combined(y, a, b)) ==> Valid(y.pairing, a) && Valid(y.pairing, b)
  }

  /** Off-circuit preparation agrees with the circuit whenever it succeeds. */
  ghost predicate PrepareAgrees<S(!new), W(!new), F(!new), G(!new), T>(y: System<S, W, F, G, T>, vk: F) {
    forall inst: Instance<S, F, G>, p: Proof<S, W, F, G> {:trigger y.prepare(vk, inst, p)} ::
      y.prepare(vk, inst, p).Some? ==> y.prepare(vk, inst, p).value == y.prepareIn(vk, inst, p)
  }

  ghost predicate Sound<S(!new), W(!new), F(!new), G(!new), T(!new)>(y: System<S, W, F, G, T>, vk: F) {
    IsPairing(y.pairing) && ShapesAgree(y, vk) && PrepareAgrees(y, vk) && KnowledgeSound(y, vk) && Binding(y)
  }

  /** A satisfying witness yields a proof that verifies. */
  ghost predicate Complete<S(!new), W(!new), F(!new), G(!new), T(!new)>(y: System<S, W, F, G, T>, vk: F) {
    && IsPairing(y.pairing) && ShapesAgree(y, vk) && PrepareAgrees(y, vk) && y.isGenesis(y.genesis)
    && forall inst: Instance<S, F, G>, w: Witness<S, W, F, G> {:trigger y.prove(vk, inst, w)} ::
         inst.vk == vk && Relation(y, inst, w) ==>
           y.prove(vk, inst, w) == Some(Term(vk, w)) && Verifies(y, vk, inst, Term(vk, w))
  }

  /** The proof prepares, leaves no bytes over, and passes the pairing check. */
  ghost predicate Verifies<S, W, F, G, T>(y: System<S, W, F, G, T>, vk: F, inst: Instance<S, F, G>, p: Proof<S, W, F, G>) {
    y.prepare(vk, inst, p).Some? && !y.leftover(p) && Valid(y.pairing, y.prepareIn(vk, inst, p))
  }

  // ---------------------------------------------------------------- the verifier

  datatype Outcome = Accepted | VkMismatch | DeciderFailed | InvalidProof | TranscriptNotEmpty

  ghost function Verify<S, W, F, G, T>(
      y: System<S, W, F, G, T>, vk: F, inst: Instance<S, F, G>, proof: Proof<S, W, F, G>): Outcome
  {
    if inst.vk != vk then VkMismatch
    else if !y.decider(inst.state) then DeciderFailed
    else
      var a := y.prepare(vk, inst, proof);
      if a.None? then InvalidProof
      else if y.leftover(proof) then TranscriptNotEmpty
      else if !WellFormedAcc(a.value) || !WellFormedAcc(inst.acc) then InvalidProof
      else if Valid(y.pairing, Combined(y, a.value, inst.acc)) then Accepted
      else InvalidProof
  }

  /** The weight of the next accumulator: that of the first plus the derived challenge times that of the second. */
  lemma NextWeight<S, W, F(!new), G(!new), T(!new)>(y: System<S, W, F, G, T>, a: Accumulator<F, G>, b: Accumulator<F, G>)
    requires IsPairing(y.pairing) && WellFormedAcc(a) && WellFormedAcc(b)
    ensures WellFormedAcc(Combined(y, a, b)) && WellFormedAcc(NextAcc(y, a, b))
    ensures Weight(y.pairing, NextAcc(y, a, b)) == Weight(y.pairing, Combined(y, a, b)) ==
            y.pairing.target.group.add(Weight(y.pairing, a), y.pairing.target.scale(y.hash(a, b), Weight(y.pairing, b)))
  {
    hide IsPairing, Weight, Valid, Accumulate, Collapse;
    WeightAccumulate(y.pairing, a, b, y.hash(a, b));
    CollapseValid(y.pairing, Combined(y, a, b));
  }

  /** The outcome in every case: a foreign key, a state that the decider rejects, a proof that does not prepare, bytes
      left over, and otherwise the one pairing check of the two accumulators. */
  lemma VerifyOutcome<S, W, F(!new), G(!new), T(!new)>(
      y: System<S, W, F, G, T>, vk: F, inst: Instance<S, F, G>, proof: Proof<S, W, F, G>)
    requires IsPairing(y.pairing)
    ensures var r, a := Verify(y, vk, inst, proof), y.prepare(vk, inst, proof);
            && (r == VkMismatch <==> inst.vk != vk)
            && (r == DeciderFailed <==> inst.vk == vk && !y.decider(inst.state))
            && (inst.vk == vk && y.decider(inst.state) && a.None? ==> r == InvalidProof)
            && (r == TranscriptNotEmpty <==> inst.vk == vk && y.decider(inst.state) && a.Some? && y.leftover(proof))
            && (y.leftover(proof) ==> r != Accepted)
            && (inst.vk == vk && y.decider(inst.state) && a.Some? && !y.leftover(proof)
                  && WellFormedAcc(a.value) && WellFormedAcc(inst.acc) ==>
                  var t, c := y.pairing.target, y.hash(a.value, inst.acc);
                  var sum := t.group.add(Weight(y.pairing, a.value), t.scale(c, Weight(y.pairing, inst.acc)));
                  r == if sum == t.group.zero then Accepted else InvalidProof)
  {
    hide IsPairing, Weight, Accumulate;
    var a := y.prepare(vk, inst, proof);
    if a.Some? && WellFormedAcc(a.value) && WellFormedAcc(inst.acc) {
      NextWeight(y, a.value, inst.acc);
    }
  }

  // ---------------------------------------------------------------- safety

  /** The steps that a proof carries, from the first one. */
  ghost function StepsOf<S, W, F, G, T>(y: System<S, W, F, G, T>, p: Proof<S, W, F, G>): seq<(S, W)> {
    if !p.Term? then []
    else
      var w := p.made;
      (if y.isGenesis(w.prevState) then [] else StepsOf(y, w.prevProof)) + [(w.prevState, w.step)]
  }

  /** The steps start at a genesis state, follow each other, and end in the given state. */
  ghost predicate IsChain<S, W, F, G, T>(y: System<S, W, F, G, T>, steps: seq<(S, W)>, last: S) {
    && |steps| >= 1 && y.isGenesis(steps[0].0)
    && (forall i :: 0 <= i < |steps| - 1 ==> y.transition(steps[i].0, steps[i].1) == steps[i + 1].0)
    && y.transition(steps[|steps| - 1].0, steps[|steps| - 1].1) == last
  }

  /** Every proof of the chain was made under the key. */
  ghost predicate AllUnder<S, W, F, G, T>(y: System<S, W, F, G, T>, vk: F, p: Proof<S, W, F, G>) {
    p.Term? && p.key == vk && (y.isGenesis(p.made.prevState) || AllUnder(y, vk, p.made.prevProof))
  }

  /** The keys under which the steps of a proof were proved, from the first one. */
  ghost function KeysOf<S, W, F, G, T>(y: System<S, W, F, G, T>, p: Proof<S, W, F, G>): seq<F> {
    if !p.Term? then [] else (if y.isGenesis(p.made.prevState) then [] else KeysOf(y, p.made.prevProof)) + [p.key]
  }

  lemma {:induction false} AllKeys<S, W, F, G, T>(y: System<S, W, F, G, T>, vk: F, p: Proof<S, W, F, G>)
    requires AllUnder(y, vk, p)
    ensures |KeysOf(y, p)| == |StepsOf(y, p)| && forall i :: 0 <= i < |KeysOf(y, p)| ==> KeysOf(y, p)[i] == vk
    decreases p
  {
    if !y.isGenesis(p.made.prevState) {
      AllKeys(y, vk, p.made.prevProof);
    }
  }

  lemma ChainSnoc<S, W, F, G, T>(y: System<S, W, F, G, T>, steps: seq<(S, W)>, s: S, w: W)
    requires IsChain(y, steps, s)
    ensures IsChain(y, steps + [(s, w)], y.transition(s, w))
  {}

  /** The parts of an accumulated, collapsed accumulator that is valid are valid. */
  lemma SplitValid<S, W, F(!new), G(!new), T(!new)>(y: System<S, W, F, G, T>, a: Accumulator<F, G>, b: Accumulator<F, G>)
    requires IsPairing(y.pairing) && Binding(y) && WellFormedAcc(a) && WellFormedAcc(b) && Valid(y.pairing, NextAcc(y, a, b))
    ensures Valid(y.pairing, a) && Valid(y.pairing, b)
  {
    hide IsPairing, Valid;
    CollapseValid(y.pairing, Combined(y, a, b));
  }

  /** A valid proof of an instance with a valid accumulator carries a chain from genesis to its state. */
  lemma {:induction false} ProofIsChain<S(!new), W(!new), F(!new), G(!new), T(!new)>(
      y: System<S, W, F, G, T>, vk: F, inst: Instance<S, F, G>, p: Proof<S, W, F, G>)
    requires Sound(y, vk) && inst.vk == vk
    requires Valid(y.pairing, y.prepareIn(vk, inst, p)) && Valid(y.pairing, inst.acc)
    ensures IsChain(y, StepsOf(y, p), inst.state) && AllUnder(y, vk, p)
    decreases p
  {
    hide Valid, NextAcc, IsPairing, IsChain;
    var w := p.made;
    var a := PrevProofAcc(y, vk, w);
    SplitValid(y, a, w.prevAcc);
    if y.isGenesis(w.prevState) {
      OneStep(y, w.prevState, w.step);
    } else {
      NotScaled(y, vk, w);
      ProofIsChain(y, vk, Instance(vk, w.prevState, w.prevAcc), w.prevProof);
      ChainSnoc(y, StepsOf(y, w.prevProof), w.prevState, w.step);
    }
  }

  lemma OneStep<S, W, F, G, T>(y: System<S, W, F, G, T>, s: S, w: W)
    requires y.isGenesis(s)
    ensures IsChain(y, [] + [(s, w)], y.transition(s, w))
  {}

  /** Outside genesis the previous proof's accumulator is used as it is. */
  lemma NotScaled<S, W, F(!new), G(!new), T(!new)>(y: System<S, W, F, G, T>, vk: F, w: Witness<S, W, F, G>)
    requires IsPairing(y.pairing) && !y.isGenesis(w.prevState)
    ensures PrevProofAcc(y, vk, w) == y.prepareIn(vk, Instance(vk, w.prevState, w.prevAcc), w.prevProof)
  {
    var a := y.prepareIn(vk, Instance(vk, w.prevState, w.prevAcc), w.prevProof);
    ScaleByBit(y.pairing.space.field, a.lhs);
    ScaleByBit(y.pairing.space.field, a.rhs);
  }

  /** An accepted instance has a state reachable from genesis, by steps all proved under the verifier's key. */
  lemma AcceptedIsReachable<S(!new), W(!new), F(!new), G(!new), T(!new)>(
      y: System<S, W, F, G, T>, vk: F, inst: Instance<S, F, G>, proof: Proof<S, W, F, G>)
    requires Sound(y, vk) && Verify(y, vk, inst, proof) == Accepted
    ensures IsChain(y, StepsOf(y, proof), inst.state) && AllUnder(y, vk, proof) && y.decider(inst.state)
    ensures |KeysOf(y, proof)| == |StepsOf(y, proof)| && forall i :: 0 <= i < |KeysOf(y, proof)| ==> KeysOf(y, proof)[i] == vk
  {
    hide Valid, IsPairing, IsChain, KnowledgeSound, StepsOf, AllUnder, KeysOf;
    ProofIsChain(y, vk, inst, proof);
    AllKeys(y, vk, proof);
  }

  // ---------------------------------------------------------------- the prover

  /** A prover state that can be continued and verified: the proof is empty exactly at genesis, where the
      accumulator is trivial; the accumulator is valid; and a proof, if any, verifies. */
  ghost predicate Ready<S, W, F, G, T>(
      y: System<S, W, F, G, T>, vk: F, state: S, proof: Proof<S, W, F, G>, acc: Accumulator<F, G>)
  {
    && (y.isGenesis(state) <==> proof.NoProof?)
    && Collapsed(y, acc) && Valid(y.pairing, acc)
    && (proof.NoProof? ==> acc == Trivial(y.pairing))
    && (!proof.NoProof? ==> Verifies(y, vk, Instance(vk, state, acc), proof))
  }

  /** A state with a proof that verifies and a valid accumulator, whether it is genesis or not. */
  ghost predicate Proved<S, W, F, G, T>(
      y: System<S, W, F, G, T>, vk: F, state: S, proof: Proof<S, W, F, G>, acc: Accumulator<F, G>)
  {
    !proof.NoProof? && Collapsed(y, acc) && Valid(y.pairing, acc) && Verifies(y, vk, Instance(vk, state, acc), proof)
  }

  lemma CollapsedShape<S, W, F(!new), G(!new), T(!new)>(y: System<S, W, F, G, T>, a: Accumulator<F, G>, b: Accumulator<F, G>)
    requires PreparedShape(y, a) && Collapsed(y, b)
    ensures WellFormedAcc(b) && Collapsed(y, NextAcc(y, a, b))
  {}

  lemma TrivialShape<S, W, F, G, T>(y: System<S, W, F, G, T>)
    ensures PreparedShape(y, Trivial(y.pairing)) && Collapsed(y, Trivial(y.pairing))
  {}

  /** At genesis both executions reach the trivial accumulator, although their challenges differ. */
  lemma GenesisAgrees<S(!new), W(!new), F(!new), G(!new), T(!new)>(y: System<S, W, F, G, T>, a: Accumulator<F, G>)
    requires IsPairing(y.pairing) && PreparedShape(y, a)
    ensures PreparedShape(y, ScaleAcc(y.pairing.space.field, a, y.pairing.space.field.zero))
    ensures NextAcc(y, ScaleAcc(y.pairing.space.field, a, y.pairing.space.field.zero), Trivial(y.pairing)) ==
            NextAcc(y, Trivial(y.pairing), Trivial(y.pairing)) == Trivial(y.pairing)
  {
    hide IsPairing, IsSpace, IsField, AccumulateWithR, CollapseMsm;
    var e := y.pairing;
    var k, t := e.space.field, Trivial(e);
    var z := ScaleAcc(k, a, k.zero);
    PairingField(e);
    ScaleByBit(k, a.lhs);
    ScaleByBit(k, a.rhs);
    ZeroSides(e, z, y.hash(z, t));
    ZeroSides(e, t, y.hash(t, t));
  }

  lemma PairingField<F(!new), G(!new), T(!new)>(e: Pairing<F, G, T>)
    requires IsPairing(e)
    ensures IsSpace(e.space) && IsField(e.space.field)
  {}

  /** An accumulator without weight, combined with the trivial one, collapses to the trivial one. */
  lemma ZeroSides<F(!new), G(!new), T(!new)>(e: Pairing<F, G, T>, z: Accumulator<F, G>, r: F)
    requires IsSpace(e.space) && WellFormedAcc(z)
    requires forall i :: 0 <= i < |z.lhs.scalars| ==> z.lhs.scalars[i] == e.space.field.zero || z.lhs.bases[i] == e.space.group.zero
    requires forall i :: 0 <= i < |z.rhs.scalars| ==> z.rhs.scalars[i] == e.space.field.zero || z.rhs.bases[i] == e.space.group.zero
    requires z.lhs.fixed == map[] && forall name :: name in z.rhs.fixed ==> name in e.names && z.rhs.fixed[name] == e.space.field.zero
    ensures WellFormedAcc(Accumulate(e.space.field, z, Trivial(e), r))
    ensures Collapse(e.space, Accumulate(e.space.field, z, Trivial(e), r)) == Trivial(e)
  {
    hide IsSpace, AccumulateWithR, CollapseMsm;
    var k, t := e.space.field, Trivial(e);
    ZeroCollapse(e, z.lhs, t.lhs, r);
    ZeroCollapse(e, z.rhs, t.rhs, r);
    assert z.lhs.fixed.Keys + t.lhs.fixed.Keys == {};
    assert z.rhs.fixed.Keys + t.rhs.fixed.Keys == t.rhs.fixed.Keys;
    assert (map name | name in t.rhs.fixed.Keys :: k.zero) == t.rhs.fixed;
  }

  /** The accumulator that the prover puts in front of its own: the previous proof's, or the trivial one. */
  ghost function OffCircuitAcc<S, W, F, G, T>(
      y: System<S, W, F, G, T>, vk: F, state: S, proof: Proof<S, W, F, G>, acc: Accumulator<F, G>): Accumulator<F, G>
  {
    if proof.NoProof? then Trivial(y.pairing) else y.prepareIn(vk, Instance(vk, state, acc), proof)
  }

  /** From a ready state, the prover's next instance satisfies the circuit: its accumulator is the circuit's. */
  lemma StepSatisfies<S(!new), W(!new), F(!new), G(!new), T(!new)>(
      y: System<S, W, F, G, T>, vk: F, state: S, proof: Proof<S, W, F, G>, acc: Accumulator<F, G>, step: W)
    requires Complete(y, vk) && Ready(y, vk, state, proof, acc)
    ensures WellFormedAcc(OffCircuitAcc(y, vk, state, proof, acc)) && WellFormedAcc(acc)
    ensures var next := NextAcc(y, OffCircuitAcc(y, vk, state, proof, acc), acc);
            && Collapsed(y, next) && Valid(y.pairing, next)
            && Relation(y, Instance(vk, y.transition(state, step), next), Witness(state, acc, proof, step))
  {
    hide Valid, IsPairing, NextAcc;
    var a := y.prepareIn(vk, Instance(vk, state, acc), proof);
    var off := OffCircuitAcc(y, vk, state, proof, acc);
    var w := Witness(state, acc, proof, step);
    TrivialShape(y);
    TrivialValid(y.pairing);
    CollapsedShape(y, off, acc);
    NextValid(y, off, acc);
    if proof.NoProof? {
      GenesisAgrees(y, a);
    } else {
      NotScaled(y, vk, w);
    }
  }

  lemma NextValid<S, W, F(!new), G(!new), T(!new)>(y: System<S, W, F, G, T>, a: Accumulator<F, G>, b: Accumulator<F, G>)
    requires IsPairing(y.pairing) && WellFormedAcc(a) && WellFormedAcc(b) && Valid(y.pairing, a) && Valid(y.pairing, b)
    ensures Valid(y.pairing, NextAcc(y, a, b))
  {
    hide IsPairing, Weight;
    AccumulateValid(y.pairing, a, b, y.hash(a, b));
    CollapseValid(y.pairing, Combined(y, a, b));
  }

  /** A successful step: the previous proof prepares and passes its check, the accumulators are combined, and
      the new proof is for the new instance. */
  ghost predicate Stepped<S, W, F, G, T>(
      y: System<S, W, F, G, T>, vk: F, state: S, proof: Proof<S, W, F, G>, acc: Accumulator<F, G>, step: W,
      state': S, proof': Proof<S, W, F, G>, acc': Accumulator<F, G>)
  {
    var a := if proof.NoProof? then Some(Trivial(y.pairing)) else y.prepare(vk, Instance(vk, state, acc), proof);
    && a.Some? && WellFormedAcc(a.value) && WellFormedAcc(acc) && (!proof.NoProof? ==> Valid(y.pairing, a.value))
    && state' == y.transition(state, step) && acc' == NextAcc(y, a.value, acc)
    && y.prove(vk, Instance(vk, state', acc'), Witness(state, acc, proof, step)) == Some(proof')
  }

  lemma SteppedState<S, W, F, G, T>(
      y: System<S, W, F, G, T>, vk: F, state: S, proof: Proof<S, W, F, G>, acc: Accumulator<F, G>, step: W,
      state': S, proof': Proof<S, W, F, G>, acc': Accumulator<F, G>)
    requires Stepped(y, vk, state, proof, acc, step, state', proof', acc')
    ensures state' == y.transition(state, step)
  {}

  class IvcProver<S(!new), W(!new), F(!new), G(!new), T(==, !new)> {
    const y: System<S, W, F, G, T>
    const vk: F
    var state: S
    var proof: Proof<S, W, F, G>
    var acc: Accumulator<F, G>

    /** setup: the prover starts at genesis with no proof and the trivial accumulator. */
    constructor (y: System<S, W, F, G, T>, vk: F)
      ensures this.y == y && this.vk == vk
      ensures state == y.genesis && proof == NoProof && acc == Trivial(y.pairing)
    {
      this.y, this.vk := y, vk;
      state, proof, acc := y.genesis, NoProof, Trivial(y.pairing);
    }

    function GetInstance(): Instance<S, F, G>
      reads this
    {
      Instance(vk, state, acc)
    }

    method ResumeFrom(state: S, proof: Proof<S, W, F, G>, acc: Accumulator<F, G>)
      modifies this
      ensures this.state == state && this.proof == proof && this.acc == acc
    {
      this.state, this.proof, this.acc := state, proof, acc;
    }

    /** One step. A failure changes nothing. From a ready state, unless the transition returns to genesis,
        it succeeds, the circuit relation holds between the new instance and the old state, and the new
        state is ready. */
    method ProveStep(step: W) returns (r: Option<Proof<S, W, F, G>>)
      modifies this
      ensures r.None? ==> state == old(state) && proof == old(proof) && acc == old(acc)
      ensures r.Some? ==> r.value == proof && Stepped(y, vk, old(state), old(proof), old(acc), step, state, proof, acc)
      ensures r.Some? && !old(proof).NoProof? ==>
                var a := y.prepare(vk, Instance(vk, old(state), old(acc)), old(proof));
                a.Some? && Valid(y.pairing, a.value) && WellFormedAcc(old(acc)) && acc == NextAcc(y, a.value, old(acc))
      ensures r.Some? && old(proof).NoProof? ==> WellFormedAcc(old(acc)) && acc == NextAcc(y, Trivial(y.pairing), old(acc))
      ensures r.Some? ==>
                && state == y.transition(old(state), step)
                && y.prove(vk, GetInstance(), Witness(old(state), old(acc), old(proof), step)) == r
      ensures Complete(y, vk) && Ready(y, vk, old(state), old(proof), old(acc)) ==>
                && r.Some?
                && Relation(y, GetInstance(), Witness(old(state), old(acc), old(proof), step))
                && Proved(y, vk, state, proof, acc)
                && (!y.isGenesis(state) ==> Ready(y, vk, state, proof, acc))
    {
      hide Valid, Relation, Verifies, Collapsed, Trivial, NextAcc, Eval, Complete;
      ghost var ready := Complete(y, vk) && Ready(y, vk, state, proof, acc);
      if ready {
        StepSatisfies(y, vk, state, proof, acc, step);
        StepFacts(y, vk, state, proof, acc, step);
      }
      var next := y.transition(state, step);
      var proofAcc: Accumulator<F, G>;
      if proof.NoProof? {
        proofAcc := Trivial(y.pairing);
      } else {
        var a := y.prepare(vk, Instance(vk, state, acc), proof);
        if a.None? || !WellFormedAcc(a.value) || !Check(y.pairing, a.value) {
          return None;
        }
        proofAcc := a.value;
      }
      if !WellFormedAcc(proofAcc) || !WellFormedAcc(acc) {
        return None;
      }
      var nextAcc := NextAcc(y, proofAcc, acc);
      var p := y.prove(vk, Instance(vk, next, nextAcc), Witness(state, acc, proof, step));
      if p.None? {
        return None;
      }
      state, proof, acc := next, p.value, nextAcc;
      r := p;
    }
  }

  /** The pairing check. */
  predicate Check<F, G, T(==)>(e: Pairing<F, G, T>, a: Accumulator<F, G>)
    requires WellFormedAcc(a)
    ensures Check(e, a) <==> Valid(e, a)
  {
    Weight(e, a) == e.target.group.zero
  }

  /** What completeness gives for the prover's next instance. */
  lemma StepFacts<S(!new), W(!new), F(!new), G(!new), T(!new)>(
      y: System<S, W, F, G, T>, vk: F, state: S, proof: Proof<S, W, F, G>, acc: Accumulator<F, G>, step: W)
    requires Complete(y, vk) && Ready(y, vk, state, proof, acc)
    ensures var off := OffCircuitAcc(y, vk, state, proof, acc);
            && WellFormedAcc(off) && WellFormedAcc(acc)
            && (!proof.NoProof? ==> y.prepare(vk, Instance(vk, state, acc), proof) == Some(off) && Valid(y.pairing, off))
            && var inst, w := Instance(vk, y.transition(state, step), NextAcc(y, off, acc)), Witness(state, acc, proof, step);
               y.prove(vk, inst, w) == Some(Term(vk, w)) && Verifies(y, vk, inst, Term(vk, w))
  {
    hide Valid, NextAcc, Relation;
    StepSatisfies(y, vk, state, proof, acc, step);
    hide IsPairing;
  }

  // ---------------------------------------------------------------- runs

  ghost function StateAfter<S, W, F, G, T>(y: System<S, W, F, G, T>, steps: seq<W>, n: nat): S
    requires n <= |steps|
  {
    if n == 0 then y.genesis else y.transition(StateAfter(y, steps, n - 1), steps[n - 1])
  }

  /** From setup, every list of steps that does not pass through genesis again is proved to its end, and the
      final instance is accepted whenever the decider accepts its state. */
  method Run<S(!new), W(!new), F(!new), G(!new), T(==, !new)>(y: System<S, W, F, G, T>, vk: F, steps: seq<W>)
    returns (prover: IvcProver<S, W, F, G, T>, ok: bool)
    requires Complete(y, vk)
    requires forall i :: 0 < i < |steps| ==> !y.isGenesis(StateAfter(y, steps, i))
    ensures ok && prover.y == y && prover.vk == vk && prover.state == StateAfter(y, steps, |steps|)
    ensures |steps| == 0 || !y.isGenesis(prover.state) ==> Ready(y, vk, prover.state, prover.proof, prover.acc)
    ensures |steps| > 0 ==> Proved(y, vk, prover.state, prover.proof, prover.acc)
    ensures |steps| > 0 && y.decider(prover.state) ==> Verify(y, vk, prover.GetInstance(), prover.proof) == Accepted
  {
    hide Valid, Relation, Verifies, Collapsed, Trivial, Complete, Stepped, Ready, Proved, NextAcc, Verify;
    prover := new IvcProver(y, vk);
    ok := true;
    StartReady(y, vk);
    for i := 0 to |steps|
      invariant ok && prover.y == y && prover.vk == vk && prover.state == StateAfter(y, steps, i)
      invariant i == 0 || !y.isGenesis(prover.state) ==> Ready(y, vk, prover.state, prover.proof, prover.acc)
      invariant i > 0 ==> Proved(y, vk, prover.state, prover.proof, prover.acc)
    {
      ghost var s, p, a := prover.state, prover.proof, prover.acc;
      var r := prover.ProveStep(steps[i]);
      SteppedState(y, vk, s, p, a, steps[i], prover.state, prover.proof, prover.acc);
      ok := ok && r.Some?;
    }
    if |steps| > 0 && y.decider(prover.state) {
      ProvedIsAccepted(y, vk, prover.state, prover.proof, prover.acc);
    }
  }

  lemma StartReady<S(!new), W(!new), F(!new), G(!new), T(!new)>(y: System<S, W, F, G, T>, vk: F)
    requires Complete(y, vk)
    ensures Ready(y, vk, y.genesis, NoProof, Trivial(y.pairing))
  {
    hide Valid;
    TrivialShape(y);
    TrivialValid(y.pairing);
  }

  /** A proved state is accepted by the verifier if its decider accepts. */
  lemma ProvedIsAccepted<S(!new), W(!new), F(!new), G(!new), T(!new)>(
      y: System<S, W, F, G, T>, vk: F, state: S, proof: Proof<S, W, F, G>, acc: Accumulator<F, G>)
    requires Complete(y, vk) && Proved(y, vk, state, proof, acc) && y.decider(state)
    ensures Verify(y, vk, Instance(vk, state, acc), proof) == Accepted
  {
    var a := y.prepareIn(vk, Instance(vk, state, acc), proof);
    assert Valid(y.pairing, a) && Valid(y.pairing, acc);
    hide Valid, Weight, IsPairing;
    assert WellFormedAcc(a) && WellFormedAcc(acc) by { ValidShape(y.pairing, a); ValidShape(y.pairing, acc); }
    AccumulateValid(y.pairing, a, acc, y.hash(a, acc));
  }

  lemma ValidShape<F, G, T>(e: Pairing<F, G, T>, a: Accumulator<F, G>)
    requires Valid(e, a)
    ensures WellFormedAcc(a)
  {}
}
