/** What happens after a transition back to genesis (aggregation/src/ivc): the prover recognises genesis by
    its empty proof and the circuit by its state, so the accumulators of the next step part ways. */
module IvcGenesis {
  import opened Algebra
  import opened IpaSpec
  import opened Accumulators
  import opened Ivc

  /** p + r*x == r'*x exactly when p == (r' - r)*x */
  lemma ScalarOffset<F(!new)>(k: Field<F>, p: F, r: F, r': F, x: F)
    requires IsField(k)
    ensures k.add(p, k.mul(r, x)) == k.mul(r', x) <==> p == k.mul(k.Sub(r', r), x)
  {
    MoveOver(k, p, k.mul(r, x), k.mul(r', x));
    SubTimes(k, r', r, x);
  }

  lemma PointOffset<F(!new), G(!new)>(v: Space<F, G>, p: G, r: F, r': F, x: G)
    requires IsSpace(v)
    ensures v.group.add(p, v.scale(r, x)) == v.scale(r', x) <==> p == v.scale(v.field.Sub(r', r), x)
  {
    var g, a, b := v.group, v.scale(r, x), v.scale(r', x);
    SNeg(v, r, x);
    SAddScalar(v, r', v.field.neg(r), x);
    GAssoc(g, p, a, g.neg(a));
    GAssoc(g, b, g.neg(a), a);
    GNeg(g, a);
    GZero(g, p);
    GZero(g, b);
  }

  /** Accumulating a collapsed side adds r times its base. */
  lemma VariablePart<F(!new), G(!new)>(v: Space<F, G>, m: Msm<F, G>, o: Msm<F, G>, r: F)
    requires IsSpace(v) && WellFormed(m) && |o.bases| == 1 && o.scalars == [v.field.one]
    ensures var a := AccumulateWithR(v.field, m, o, r);
            WellFormed(a) && Inner(v, a.scalars, a.bases) == v.group.add(Inner(v, m.scalars, m.bases), v.scale(r, o.bases[0]))
  {
    var t := Scaled(v.field, o.scalars, r);
    FOne(v.field, r);
    assert t == [r] && o.bases == [o.bases[0]];
    hide IsSpace, InnerTo;
    InnerConcat(v, m.scalars, m.bases, t, o.bases);
    InnerOne(v, r, o.bases[0]);
  }

  /** The fixed scalar of a name, absent meaning zero. */
  function FixedAt<F>(k: Field<F>, fixed: map<string, F>, name: string): F {
    if name in fixed then fixed[name] else k.zero
  }

  /** a is d times b: their variable parts and their fixed scalars by name. */
  ghost predicate IsMultiple<F, G>(v: Space<F, G>, names: seq<string>, a: Accumulator<F, G>, b: Accumulator<F, G>, d: F)
    requires WellFormedAcc(a) && |b.lhs.bases| == |b.rhs.bases| == 1
  {
    && Inner(v, a.lhs.scalars, a.lhs.bases) == v.scale(d, b.lhs.bases[0])
    && Inner(v, a.rhs.scalars, a.rhs.bases) == v.scale(d, b.rhs.bases[0])
    && forall name :: name in names ==> FixedAt(v.field, a.rhs.fixed, name) == v.field.mul(d, FixedAt(v.field, b.rhs.fixed, name))
  }

  /** The fixed scalars after accumulating a, or a times zero, agree exactly when a's are the multiple. */
  lemma FixedOffset<F(!new), G(!new)>(k: Field<F>, a: Msm<F, G>, o: Msm<F, G>, r: F, r': F, name: string)
    requires IsField(k) && name in o.fixed
    ensures var z := ScaleMsm(k, a, k.zero);
            AccumulateWithR(k, a, o, r).fixed[name] == AccumulateWithR(k, z, o, r').fixed[name] <==>
            FixedAt(k, a.fixed, name) == k.mul(k.Sub(r', r), FixedAt(k, o.fixed, name))
  {
    var p, x := FixedAt(k, a.fixed, name), o.fixed[name];
    ScalarOffset(k, p, r, r', x);
    FMulZero(k, p);
    FAddZero(k, k.mul(r, x));
    FAddZero(k, k.mul(r', x));
  }

  lemma FixedOffsets<F(!new), G(!new)>(k: Field<F>, a: Msm<F, G>, o: Msm<F, G>, r: F, r': F)
    requires IsField(k) && forall name :: name in a.fixed ==> name in o.fixed
    ensures var z := ScaleMsm(k, a, k.zero);
            AccumulateWithR(k, a, o, r).fixed == AccumulateWithR(k, z, o, r').fixed <==>
            forall name :: name in o.fixed ==> FixedAt(k, a.fixed, name) == k.mul(k.Sub(r', r), FixedAt(k, o.fixed, name))
  {
    var z := ScaleMsm(k, a, k.zero);
    var m, m' := AccumulateWithR(k, a, o, r).fixed, AccumulateWithR(k, z, o, r').fixed;
    assert m.Keys == o.fixed.Keys == m'.Keys;
    forall name | name in o.fixed
      ensures m[name] == m'[name] <==> FixedAt(k, a.fixed, name) == k.mul(k.Sub(r', r), FixedAt(k, o.fixed, name))
    {
      FixedOffset(k, a, o, r, r', name);
    }
    hide IsField, AccumulateWithR, FixedAt;
    if forall name :: name in o.fixed ==> m[name] == m'[name] {
      assert m == m';
    }
  }

  /** One side of the next accumulator is the same in both executions exactly when it is the multiple. */
  lemma SideAgrees<F(!new), G(!new)>(v: Space<F, G>, a: Msm<F, G>, o: Msm<F, G>, r: F, r': F)
    requires IsSpace(v) && WellFormed(a) && |o.bases| == 1 && o.scalars == [v.field.one]
    requires forall name :: name in a.fixed ==> name in o.fixed
    ensures var k := v.field;
            var z := ScaleMsm(k, a, k.zero);
            && WellFormed(AccumulateWithR(k, a, o, r)) && WellFormed(AccumulateWithR(k, z, o, r'))
            && (CollapseMsm(v, AccumulateWithR(k, a, o, r)) == CollapseMsm(v, AccumulateWithR(k, z, o, r')) <==>
                  && Inner(v, a.scalars, a.bases) == v.scale(k.Sub(r', r), o.bases[0])
                  && forall name :: name in o.fixed ==> FixedAt(k, a.fixed, name) == k.mul(k.Sub(r', r), FixedAt(k, o.fixed, name)))
  {
    SpaceGroup(v);
    var k := v.field;
    var z := ScaleMsm(k, a, k.zero);
    ScaleByBit(k, a);
    VariablePart(v, a, o, r);
    VariablePart(v, z, o, r');
    ZeroInner(v, z.scalars, z.bases, |z.scalars|);
    GZero(v.group, v.scale(r', o.bases[0]));
    PointOffset(v, Inner(v, a.scalars, a.bases), r, r', o.bases[0]);
    FixedOffsets(k, a, o, r, r');
  }

  /** After a return to genesis the prover's next instance satisfies the circuit if and only if the prepared
      previous proof is (r' - r) times the stored accumulator, for the challenges r of the prover and r' of
      the circuit. */
  lemma AfterReturn<S(!new), W(!new), F(!new), G(!new), T(!new)>(
      y: System<S, W, F, G, T>, vk: F, state: S, proof: Proof<S, W, F, G>, acc: Accumulator<F, G>, step: W)
    requires IsPairing(y.pairing) && ShapesAgree(y, vk) && Collapsed(y, acc)
    requires y.isGenesis(state) && !proof.NoProof?
    ensures var k, a := y.pairing.space.field, OffCircuitAcc(y, vk, state, proof, acc);
            && WellFormedAcc(a) && WellFormedAcc(acc)
            && (Relation(y, Instance(vk, y.transition(state, step), NextAcc(y, a, acc)), Witness(state, acc, proof, step)) <==>
                IsMultiple(y.pairing.space, y.pairing.names, a, acc,
                           k.Sub(y.hash(ScaleAcc(k, a, k.zero), acc), y.hash(a, acc))))
  {
    var v := y.pairing.space;
    var k, a := v.field, y.prepareIn(vk, Instance(vk, state, acc), proof);
    var z := ScaleAcc(k, a, k.zero);
    var r, r' := y.hash(a, acc), y.hash(z, acc);
    PairingParts(y.pairing);
    assert PreparedShape(y, a);
    hide IsPairing, IsSpace, AccumulateWithR, CollapseMsm, ScaleMsm, Inner;
    SideAgrees(v, a.lhs, acc.lhs, r, r');
    SideAgrees(v, a.rhs, acc.rhs, r, r');
  }
}
