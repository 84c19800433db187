/** The hypotheses of the abstract developments can be met: the real numbers are a field, and over them
    there is a proof system that is both Sound and Complete. */
module Consistency {
  import opened Algebra
  import opened Accumulators
  import opened Ivc
  import opened IvcGenesis
  import opened Wrappers
  import IpaSpec
  import BatchVerify

  ghost function RealField(): Field<real> {
    Field(0.0, 1.0, (x: real, y: real) => x + y, (x: real, y: real) => x * y, (x: real) => -x,
          (x: real) => if x == 0.0 then 0.0 else 1.0 / x)
  }

  ghost function RealSpace(): Space<real, real> {
    Space(RealField(), RealField().AddGroup(), (a: real, x: real) => a * x)
  }

  lemma RealLaws(x: real, y: real, z: real)
    ensures (x * y) * z == x * (y * z) && x * (y + z) == x * y + x * z && (x + y) * z == x * z + y * z
    ensures x != 0.0 ==> x * (1.0 / x) == 1.0
  {}

  lemma RealProducts(x: real, y: real, z: real)
    ensures var k := RealField();
            && k.mul(k.mul(x, y), z) == k.mul(x, k.mul(y, z)) && k.mul(x, k.add(y, z)) == k.add(k.mul(x, y), k.mul(x, z))
            && k.mul(x, y) == k.mul(y, x) && k.mul(x, k.one) == x && (x != k.zero ==> k.mul(x, k.inv(x)) == k.one)
  {
    RealLaws(x, y, z);
  }

  lemma RealSums()
    ensures IsGroup(RealField().AddGroup()) && RealField().zero != RealField().one
  {}

  lemma RealsAreAField()
    ensures IsField(RealField())
  {
    var k := RealField();
    RealSums();
    hide RealField, IsGroup;
    forall x: real, y: real, z: real | At3(x, y, z)
      ensures k.mul(k.mul(x, y), z) == k.mul(x, k.mul(y, z)) && k.mul(x, k.add(y, z)) == k.add(k.mul(x, y), k.mul(x, z))
    {
      RealProducts(x, y, z);
    }
    forall x: real, y: real | At2(x, y)
      ensures k.mul(x, y) == k.mul(y, x)
    {
      RealProducts(x, y, y);
    }
    forall x: real | At1(x)
      ensures k.mul(x, k.one) == x && (x != k.zero ==> k.mul(x, k.inv(x)) == k.one)
    {
      RealProducts(x, x, x);
    }
  }

  lemma RealsAreASpace()
    ensures IsSpace(RealSpace())
  {
    RealsAreAField();
    FieldIsGroup(RealField());
    hide IsField, IsGroup;
    var v := RealSpace();
    forall x: real, y: real, z: real | At3(x, y, z)
      ensures v.scale(v.field.mul(x, y), z) == v.scale(x, v.scale(y, z))
      ensures v.scale(v.field.add(x, y), z) == v.group.add(v.scale(x, z), v.scale(y, z))
      ensures v.scale(x, v.group.add(y, z)) == v.group.add(v.scale(x, y), v.scale(x, z))
    {
      RealLaws(x, y, z);
    }
  }

  lemma FieldIsGroup(k: Field<real>)
    requires IsField(k)
    ensures IsGroup(k.AddGroup())
  {}

  /** Guards that are real numbers and hold when they are zero. */
  ghost function RealGuards(): BatchVerify.System<int, int, real, real, real> {
    BatchVerify.System(RealSpace(), RealSpace(), (g: real) => g, (vk: int) => 0,
                       (vk: int, pi: seq<real>, proof: int) => None, (summaries: seq<real>) => 0.0)
  }

  lemma RealGuardsAreLinear()
    ensures BatchVerify.IsLinear(RealGuards())
  {
    RealsAreASpace();
    hide IsSpace;
  }

  // ---------------------------------------------------------------- an ideal proof system

  ghost function RealPairing(): Pairing<real, real, real> {
    Pairing(RealSpace(), RealSpace(), (a: real, b: real) => a - b, [], (name: string) => 0.0)
  }

  lemma RealPairingIsPairing()
    ensures IsPairing(RealPairing())
  {
    RealsAreASpace();
    hide IsSpace;
    var e := RealPairing();
    forall r: real, a: real, b: real | At3(r, a, b)
      ensures e.pair(e.space.scale(r, a), e.space.scale(r, b)) == e.target.scale(r, e.pair(a, b))
    {
      RealLaws(r, a, -b);
    }
    forall a: real, b: real, c: real, d: real | At2(At2(a, b), At2(c, d))
      ensures e.pair(e.space.group.add(a, c), e.space.group.add(b, d)) == e.target.group.add(e.pair(a, b), e.pair(c, d))
    {}
  }

  type Acc = Accumulator<real, real>
  type Inst = Instance<int, real, real>
  type Prf = Proof<int, int, real, real>
  type Wit = Witness<int, int, real, real>

  /** A challenge that never hides an invalid accumulator. */
  ghost function Challenge(a: Acc, b: Acc): real {
    if !WellFormedAcc(a) || !WellFormedAcc(b) then 0.0
    else
      var wa, wb := Weight(RealPairing(), a), Weight(RealPairing(), b);
      if wb == 0.0 then 0.0 else (1.0 - wa) / wb
  }

  /** The system without its proofs: states are running totals from zero. */
  ghost function Frame(): System<int, int, real, real, real> {
    System(RealPairing(), (a: Acc, b: Acc) => Challenge(a, b), 0, (s: int) => s == 0, (s: int, w: int) => s + w,
           (s: int) => true, (vk: real, i: Inst, p: Prf) => Invalid(), (vk: real, i: Inst, p: Prf) => None,
           (p: Prf) => false, (vk: real, i: Inst, w: Wit) => None)
  }

  ghost function Invalid(): Acc {
    Accumulator(Msm([1.0], [1.0], map[]), Msm([0.0], [1.0], map[]))
  }

  ghost function One(): Acc {
    Accumulator(Msm([1.0], [1.0], map[]), Msm([1.0], [1.0], map[]))
  }

  /** Preparing a proof yields a valid accumulator exactly when the term satisfies the circuit. */
  ghost function Prep(vk: real, i: Inst, p: Prf): Acc
    decreases p
  {
    if p.Term? && p.key == vk && i.vk == vk && Meets(vk, i, p.made, Prep(vk, Instance(vk, p.made.prevState, p.made.prevAcc), p.made.prevProof))
    then One() else Invalid()
  }

  /** The circuit relation, given what preparing the previous proof yields. */
  ghost predicate Meets(vk: real, i: Inst, w: Wit, prev: Acc) {
    var y, k := Frame(), RealField();
    var a := ScaleAcc(k, prev, if y.isGenesis(w.prevState) then k.zero else k.one);
    && i.state == y.transition(w.prevState, w.step) && Collapsed(y, w.prevAcc)
    && WellFormedAcc(a) && i.acc == NextAcc(y, a, w.prevAcc)
  }

  ghost function Ideal(): System<int, int, real, real, real> {
    Frame().(
      prepareIn := (vk: real, i: Inst, p: Prf) => Prep(vk, i, p),
      prepare := (vk: real, i: Inst, p: Prf) => Some(Prep(vk, i, p)),
      prove := (vk: real, i: Inst, w: Wit) => Some(Term(vk, w)))
  }

  lemma MeetsIsRelation(vk: real, i: Inst, w: Wit)
    requires i.vk == vk
    ensures Meets(vk, i, w, Prep(vk, Instance(vk, w.prevState, w.prevAcc), w.prevProof)) <==> Relation(Ideal(), i, w)
  {
    hide Prep, ScaleAcc;
  }

  lemma OneAndInvalid()
    ensures WellFormedAcc(Invalid()) && !Valid(RealPairing(), Invalid())
    ensures WellFormedAcc(One()) && Valid(RealPairing(), One())
  {
    var e, a, o := RealPairing(), Invalid(), One();
    RealsAreASpace();
    IpaInner(1.0);
    IpaInner(0.0);
    assert Eval(e, a.lhs) == 1.0 && Eval(e, a.rhs) == 0.0;
    assert Eval(e, o.lhs) == 1.0 && Eval(e, o.rhs) == 1.0;
  }

  lemma IpaInner(x: real)
    ensures Eval(RealPairing(), Msm([x], [1.0], map[])) == x
  {
    RealsAreASpace();
    hide IsSpace;
    assert FixedTo(RealPairing(), map[], 0) == 0.0;
    SumOfOne(x);
  }

  lemma SumOfOne(x: real)
    requires IsSpace(RealSpace())
    ensures IpaSpec.Inner(RealSpace(), [1.0], [x]) == x
  {
    IpaSpec.InnerOne(RealSpace(), 1.0, x);
  }

  lemma ChallengeBinds(a: Acc, b: Acc)
    requires WellFormedAcc(a) && WellFormedAcc(b) && Valid(RealPairing(), Combined(Ideal(), a, b))
    ensures Valid(RealPairing(), a) && Valid(RealPairing(), b)
  {
    RealPairingIsPairing();
    hide IsPairing, Weight;
    WeightAccumulate(RealPairing(), a, b, Challenge(a, b));
    var wa, wb := Weight(RealPairing(), a), Weight(RealPairing(), b);
    if wb != 0.0 {
      Quotient(1.0 - wa, wb);
    }
  }

  lemma Quotient(x: real, y: real)
    requires y != 0.0
    ensures (x / y) * y == x
  {}

  lemma PrepIsSound(vk: real, i: Inst, p: Prf)
    ensures PreparedShape(Ideal(), Prep(vk, i, p))
    ensures i.vk == vk && Valid(RealPairing(), Prep(vk, i, p)) ==> p.Term? && p.key == vk && Relation(Ideal(), i, p.made)
  {
    hide Valid, Relation, Meets;
    OneAndInvalid();
    if p.Term? && i.vk == vk {
      MeetsIsRelation(vk, i, p.made);
    }
  }

  lemma PrepIsComplete(vk: real, i: Inst, w: Wit)
    requires i.vk == vk && Relation(Ideal(), i, w)
    ensures Verifies(Ideal(), vk, i, Term(vk, w))
  {
    hide Valid, Relation, Meets;
    OneAndInvalid();
    MeetsIsRelation(vk, i, w);
  }

  /** The idealised hypotheses about the proof system are satisfiable together. */
  lemma IdealSystem(vk: real)
    ensures Sound(Ideal(), vk) && Complete(Ideal(), vk)
  {
    var y := Ideal();
    RealPairingIsPairing();
    hide IsPairing, Valid, Relation, Challenge, Prep;
    forall i: Inst, p: Prf
      ensures PreparedShape(y, y.prepareIn(vk, i, p))
      ensures i.vk == vk && Valid(y.pairing, y.prepareIn(vk, i, p)) ==> p.Term? && p.key == vk && Relation(y, i, p.made)
    {
      PrepIsSound(vk, i, p);
    }
    forall i: Inst, w: Wit | i.vk == vk && Relation(y, i, w)
      ensures Verifies(y, vk, i, Term(vk, w))
    {
      PrepIsComplete(vk, i, w);
    }
    forall a: Acc, b: Acc | WellFormedAcc(a) && WellFormedAcc(b) && Valid(y.pairing, Combined(y, a, b))
      ensures Valid(y.pairing, a) && Valid(y.pairing, b)
    {
      ChallengeBinds(a, b);
    }
  }

  /** A step that stays at genesis is proved and verifies, but no step after it satisfies the circuit. */
  lemma ReturnToGenesisStalls(vk: real, step: int)
    ensures var y, trivial := Ideal(), Trivial(RealPairing());
            var proof := Term(vk, Witness(0, trivial, NoProof, 0));
            var off := OffCircuitAcc(y, vk, 0, proof, trivial);
            && y.isGenesis(y.transition(y.genesis, 0)) && Proved(y, vk, 0, proof, trivial)
            && WellFormedAcc(off)
            && !Relation(y, Instance(vk, y.transition(0, step), NextAcc(y, off, trivial)), Witness(0, trivial, proof, step))
  {
    var y, trivial := Ideal(), Trivial(RealPairing());
    var w := Witness(0, trivial, NoProof, 0);
    var proof: Prf := Term(vk, w);
    IdealSystem(vk);
    RealPairingIsPairing();
    OneAndInvalid();
    TrivialShape(y);
    TrivialValid(RealPairing());
    assert y.prepareIn(vk, Instance(vk, 0, trivial), proof) == One() by {
      FirstStep(vk);
    }
    AfterReturn(y, vk, 0, proof, trivial, step);
    RealsAreASpace();
    SumOfOne(1.0);
    assert trivial.lhs.bases[0] == 0.0;
  }

  /** The step zero from genesis satisfies the circuit, and its proof prepares to a valid accumulator. */
  lemma FirstStep(vk: real)
    ensures var trivial := Trivial(RealPairing());
            Prep(vk, Instance(vk, 0, trivial), Term(vk, Witness(0, trivial, NoProof, 0))) == One()
  {
    var y, trivial := Ideal(), Trivial(RealPairing());
    var w: Wit := Witness(0, trivial, NoProof, 0);
    IdealSystem(vk);
    RealPairingIsPairing();
    StartReady(y, vk);
    StepSatisfies(y, vk, 0, NoProof, trivial, 0);
    TrivialShape(y);
    GenesisAgrees(y, trivial);
    MeetsIsRelation(vk, Instance(vk, 0, trivial), w);
  }
}
