/** Pairing accumulators whose sides are multi-scalar multiplications with a fixed-base part
    (circuits/src/verifier/msm.rs and circuits/src/verifier/accumulator.rs). */
module Accumulators {
  import opened Algebra
  import opened IpaSpec

  /** sum of scalars[i] * bases[i] plus the named fixed bases times their scalars */
  datatype Msm<F, G> = Msm(bases: seq<G>, scalars: seq<F>, fixed: map<string, F>)

  datatype Accumulator<F, G> = Accumulator(lhs: Msm<F, G>, rhs: Msm<F, G>)

  /** The curve, its fixed bases in order, and the pairing check as a map on both sides of an accumulator. */
  datatype Pairing<!F, !G, !T> = Pairing(
    space: Space<F, G>,
    target: Space<F, T>,
    pair: (G, G) -> T,
    names: seq<string>,
    base: string -> G)

  ghost predicate IsPairing<F(!new), G(!new), T(!new)>(e: Pairing<F, G, T>) {
    && IsSpace(e.space) && IsSpace(e.target) && e.space.field == e.target.field
    && (forall a: G, b: G, c: G, d: G {:trigger At2(At2(a, b), At2(c, d))} :: At2(At2(a, b), At2(c, d)) ==>
          e.pair(e.space.group.add(a, c), e.space.group.add(b, d)) == e.target.group.add(e.pair(a, b), e.pair(c, d)))
    && (forall r: F, a: G, b: G {:trigger At3(r, a, b)} :: At3(r, a, b) ==>
          e.pair(e.space.scale(r, a), e.space.scale(r, b)) == e.target.scale(r, e.pair(a, b)))
  }

  // ---------------------------------------------------------------- evaluation

  predicate WellFormed<F, G>(m: Msm<F, G>) { |m.bases| == |m.scalars| }

  predicate WellFormedAcc<F, G>(a: Accumulator<F, G>) { WellFormed(a.lhs) && WellFormed(a.rhs) }

  function FixedTerm<F, G, T>(e: Pairing<F, G, T>, fixed: map<string, F>, name: string): G {
    if name in fixed then e.space.scale(fixed[name], e.base(name)) else e.space.group.zero
  }

  function FixedTo<F, G, T>(e: Pairing<F, G, T>, fixed: map<string, F>, n: nat): G
    requires n <= |e.names|
  {
    if n == 0 then e.space.group.zero
    else e.space.group.add(FixedTo(e, fixed, n - 1), FixedTerm(e, fixed, e.names[n - 1]))
  }

  function Eval<F, G, T>(e: Pairing<F, G, T>, m: Msm<F, G>): G
    requires WellFormed(m)
  {
    e.space.group.add(Inner(e.space, m.scalars, m.bases), FixedTo(e, m.fixed, |e.names|))
  }

  // ---------------------------------------------------------------- operations

  function Scaled<F>(k: Field<F>, s: seq<F>, r: F): (t: seq<F>)
    ensures |t| == |s|
  {
    seq(|s|, i requires 0 <= i < |s| => k.mul(s[i], r))
  }

  /** self + r * other, merging the fixed scalars by name */
  function AccumulateWithR<F, G>(k: Field<F>, m: Msm<F, G>, other: Msm<F, G>, r: F): Msm<F, G> {
    Msm(m.bases + other.bases, m.scalars + Scaled(k, other.scalars, r),
        map name | name in m.fixed.Keys + other.fixed.Keys ::
          if name in m.fixed && name in other.fixed then k.add(m.fixed[name], k.mul(r, other.fixed[name]))
          else if name in other.fixed then k.mul(r, other.fixed[name])
          else m.fixed[name])
  }

  function ScaleMsm<F, G>(k: Field<F>, m: Msm<F, G>, r: F): Msm<F, G> {
    Msm(m.bases, Scaled(k, m.scalars, r), map name | name in m.fixed :: k.mul(r, m.fixed[name]))
  }

  /** The variable part evaluated to one base with scalar one. */
  function CollapseMsm<F, G>(v: Space<F, G>, m: Msm<F, G>): Msm<F, G>
    requires WellFormed(m)
  {
    Msm([Inner(v, m.scalars, m.bases)], [v.field.one], m.fixed)
  }

  lemma FixedTermAccumulate<F(!new), G(!new), T>(e: Pairing<F, G, T>, m: Msm<F, G>, o: Msm<F, G>, r: F, name: string)
    requires IsSpace(e.space)
    ensures FixedTerm(e, AccumulateWithR(e.space.field, m, o, r).fixed, name) ==
            e.space.group.add(FixedTerm(e, m.fixed, name), e.space.scale(r, FixedTerm(e, o.fixed, name)))
  {
    var v := e.space;
    var b := e.base(name);
    SZero(v, r, v.group.zero);
    GZero(v.group, FixedTerm(e, m.fixed, name));
    if name in o.fixed {
      SMul(v, r, o.fixed[name], b);
      if name in m.fixed {
        SAddScalar(v, m.fixed[name], v.field.mul(r, o.fixed[name]), b);
      } else {
        GZero(v.group, v.scale(v.field.mul(r, o.fixed[name]), b));
      }
    }
  }

  lemma {:induction false} FixedAccumulate<F(!new), G(!new), T>(e: Pairing<F, G, T>, m: Msm<F, G>, o: Msm<F, G>, r: F, n: nat)
    requires IsSpace(e.space) && n <= |e.names|
    ensures FixedTo(e, AccumulateWithR(e.space.field, m, o, r).fixed, n) ==
            e.space.group.add(FixedTo(e, m.fixed, n), e.space.scale(r, FixedTo(e, o.fixed, n)))
  {
    hide FixedTerm, AccumulateWithR;
    var v := e.space;
    if n == 0 {
      SZero(v, r, v.group.zero);
      GZero(v.group, v.group.zero);
    } else {
      FixedAccumulate(e, m, o, r, n - 1);
      FixedTermAccumulate(e, m, o, r, e.names[n - 1]);
      hide IsSpace;
      SpaceGroup(v);
      var x, y := FixedTo(e, m.fixed, n - 1), FixedTo(e, o.fixed, n - 1);
      var p, q := FixedTerm(e, m.fixed, e.names[n - 1]), FixedTerm(e, o.fixed, e.names[n - 1]);
      GSwap(v.group, x, v.scale(r, y), p, v.scale(r, q));
      SAdd(v, r, y, q);
    }
  }

  /** Accumulation evaluates to self + r * other. */
  lemma EvalAccumulate<F(!new), G(!new), T>(e: Pairing<F, G, T>, m: Msm<F, G>, o: Msm<F, G>, r: F)
    requires IsSpace(e.space) && WellFormed(m) && WellFormed(o)
    ensures WellFormed(AccumulateWithR(e.space.field, m, o, r))
    ensures Eval(e, AccumulateWithR(e.space.field, m, o, r)) == e.space.group.add(Eval(e, m), e.space.scale(r, Eval(e, o)))
  {
    var v, n := e.space, |e.names|;
    var t := Scaled(v.field, o.scalars, r);
    hide IsSpace, InnerTo, FixedTo;
    SpaceGroup(v);
    InnerConcat(v, m.scalars, m.bases, t, o.bases);
    InnerScale(v, r, o.scalars, t, o.bases, |t|);
    FixedAccumulate(e, m, o, r, n);
    var x, y := Inner(v, m.scalars, m.bases), Inner(v, o.scalars, o.bases);
    var p, q := FixedTo(e, m.fixed, n), FixedTo(e, o.fixed, n);
    GSwap(v.group, x, v.scale(r, y), p, v.scale(r, q));
    SAdd(v, r, y, q);
  }

  /** Collapsing does not change the evaluation. */
  lemma EvalCollapse<F(!new), G(!new), T>(e: Pairing<F, G, T>, m: Msm<F, G>)
    requires IsSpace(e.space) && WellFormed(m)
    ensures Eval(e, CollapseMsm(e.space, m)) == Eval(e, m)
  {
    hide IsSpace, InnerTo, FixedTo;
    var x := Inner(e.space, m.scalars, m.bases);
    InnerOne(e.space, e.space.field.one, x);
    SOne(e.space, x);
  }

  lemma {:induction false} FixedScale<F(!new), G(!new), T>(e: Pairing<F, G, T>, m: Msm<F, G>, r: F, n: nat)
    requires IsSpace(e.space) && n <= |e.names|
    ensures FixedTo(e, ScaleMsm(e.space.field, m, r).fixed, n) == e.space.scale(r, FixedTo(e, m.fixed, n))
  {
    var v := e.space;
    if n == 0 {
      SZero(v, r, v.group.zero);
    } else {
      FixedScale(e, m, r, n - 1);
      var name := e.names[n - 1];
      if name in m.fixed {
        SMul(v, r, m.fixed[name], e.base(name));
      } else {
        SZero(v, r, v.group.zero);
      }
      SAdd(v, r, FixedTo(e, m.fixed, n - 1), FixedTerm(e, m.fixed, name));
    }
  }

  /** Scaling multiplies the evaluation. */
  lemma EvalScale<F(!new), G(!new), T>(e: Pairing<F, G, T>, m: Msm<F, G>, r: F)
    requires IsSpace(e.space) && WellFormed(m)
    ensures WellFormed(ScaleMsm(e.space.field, m, r))
    ensures Eval(e, ScaleMsm(e.space.field, m, r)) == e.space.scale(r, Eval(e, m))
  {
    var v, n := e.space, |e.names|;
    FixedScale(e, m, r, n);
    hide IsSpace, InnerTo, FixedTo;
    InnerScale(v, r, m.scalars, Scaled(v.field, m.scalars, r), m.bases, |m.scalars|);
    SAdd(v, r, Inner(v, m.scalars, m.bases), FixedTo(e, m.fixed, n));
  }

  /** Scaling by one changes nothing; scaling by zero leaves zero scalars. */
  lemma ScaleByBit<F(!new), G>(k: Field<F>, m: Msm<F, G>)
    requires IsField(k)
    ensures ScaleMsm(k, m, k.one) == m
    ensures forall i :: 0 <= i < |m.scalars| ==> ScaleMsm(k, m, k.zero).scalars[i] == k.zero
    ensures forall name :: name in m.fixed ==> ScaleMsm(k, m, k.zero).fixed[name] == k.zero
  {
    forall i | 0 <= i < |m.scalars|
      ensures k.mul(m.scalars[i], k.one) == m.scalars[i] && k.mul(m.scalars[i], k.zero) == k.zero
    {
      FOne(k, m.scalars[i]);
      FMulZero(k, m.scalars[i]);
    }
    forall name | name in m.fixed
      ensures k.mul(k.one, m.fixed[name]) == m.fixed[name] && k.mul(k.zero, m.fixed[name]) == k.zero
    {
      FOne(k, m.fixed[name]);
      FMulZero(k, m.fixed[name]);
    }
    hide IsField;
    assert ScaleMsm(k, m, k.one).fixed == m.fixed;
    assert ScaleMsm(k, m, k.one).scalars == m.scalars;
  }

  // ---------------------------------------------------------------- the invariant

  /** The pairing invariant of an accumulator. */
  ghost predicate Valid<F, G, T>(e: Pairing<F, G, T>, a: Accumulator<F, G>) {
    WellFormedAcc(a) && Weight(e, a) == e.target.group.zero
  }

  function Weight<F, G, T>(e: Pairing<F, G, T>, a: Accumulator<F, G>): T
    requires WellFormedAcc(a)
  {
    e.pair(Eval(e, a.lhs), Eval(e, a.rhs))
  }

  function Accumulate<F, G>(k: Field<F>, a: Accumulator<F, G>, b: Accumulator<F, G>, r: F): Accumulator<F, G> {
    Accumulator(AccumulateWithR(k, a.lhs, b.lhs, r), AccumulateWithR(k, a.rhs, b.rhs, r))
  }

  function Collapse<F, G>(v: Space<F, G>, a: Accumulator<F, G>): Accumulator<F, G>
    requires WellFormedAcc(a)
  {
    Accumulator(CollapseMsm(v, a.lhs), CollapseMsm(v, a.rhs))
  }

  function ScaleAcc<F, G>(k: Field<F>, a: Accumulator<F, G>, r: F): Accumulator<F, G> {
    Accumulator(ScaleMsm(k, a.lhs, r), ScaleMsm(k, a.rhs, r))
  }

  lemma WeightAccumulate<F(!new), G(!new), T(!new)>(e: Pairing<F, G, T>, a: Accumulator<F, G>, b: Accumulator<F, G>, r: F)
    requires IsPairing(e) && WellFormedAcc(a) && WellFormedAcc(b)
    ensures WellFormedAcc(Accumulate(e.space.field, a, b, r))
    ensures Weight(e, Accumulate(e.space.field, a, b, r)) == e.target.group.add(Weight(e, a), e.target.scale(r, Weight(e, b)))
  {
    hide Eval, IsSpace;
    var v := e.space;
    EvalAccumulate(e, a.lhs, b.lhs, r);
    EvalAccumulate(e, a.rhs, b.rhs, r);
    var la, ra, lb, rb := Eval(e, a.lhs), Eval(e, a.rhs), Eval(e, b.lhs), Eval(e, b.rhs);
    assert At3(r, lb, rb);
    assert At2(At2(la, ra), At2(v.scale(r, lb), v.scale(r, rb)));
  }

  lemma PairingParts<F(!new), G(!new), T(!new)>(e: Pairing<F, G, T>)
    requires IsPairing(e)
    ensures IsSpace(e.space) && IsSpace(e.target) && e.space.field == e.target.field
  {}

  /** Valid accumulators accumulate to a valid one, whatever the challenge. */
  lemma AccumulateValid<F(!new), G(!new), T(!new)>(e: Pairing<F, G, T>, a: Accumulator<F, G>, b: Accumulator<F, G>, r: F)
    requires IsPairing(e) && Valid(e, a) && Valid(e, b)
    ensures Valid(e, Accumulate(e.space.field, a, b, r))
  {
    hide IsPairing, Weight;
    PairingParts(e);
    WeightAccumulate(e, a, b, r);
    SZero(e.target, r, e.target.group.zero);
    GZero(e.target.group, e.target.group.zero);
  }

  /** At most one challenge can hide an invalid accumulator: two of them that accept prove both sides valid. */
  lemma AtMostOneBadChallenge<F(!new), G(!new), T(!new)>(
      e: Pairing<F, G, T>, a: Accumulator<F, G>, b: Accumulator<F, G>, r: F, r': F)
    requires IsPairing(e) && WellFormedAcc(a) && WellFormedAcc(b) && r != r'
    requires Valid(e, Accumulate(e.space.field, a, b, r)) && Valid(e, Accumulate(e.space.field, a, b, r'))
    ensures Valid(e, a) && Valid(e, b)
  {
    hide IsPairing, Weight;
    PairingParts(e);
    WeightAccumulate(e, a, b, r);
    WeightAccumulate(e, a, b, r');
    var t, g, k, x, y := e.target, e.target.group, e.target.field, Weight(e, a), Weight(e, b);
    // r * y == r' * y, so (r - r') * y == 0
    GComm(g, x, t.scale(r, y));
    GComm(g, x, t.scale(r', y));
    GCancel(g, t.scale(r, y), t.scale(r', y), x);
    SAddScalar(t, r, k.neg(r'), y);
    SNeg(t, r', y);
    GNeg(g, t.scale(r', y));
    FSubZero(k, r, r');
    SNonZero(t, k.Sub(r, r'), y);
    SZero(t, r, y);
    GZero(g, x);
  }

  lemma CollapseValid<F(!new), G(!new), T(!new)>(e: Pairing<F, G, T>, a: Accumulator<F, G>)
    requires IsPairing(e) && WellFormedAcc(a)
    ensures Valid(e, Collapse(e.space, a)) <==> Valid(e, a)
    ensures WellFormedAcc(Collapse(e.space, a)) && Weight(e, Collapse(e.space, a)) == Weight(e, a)
  {
    hide Eval, IsSpace;
    EvalCollapse(e, a.lhs);
    EvalCollapse(e, a.rhs);
  }

  // ---------------------------------------------------------------- the trivial accumulator

  function ZeroScalars<F>(k: Field<F>, names: seq<string>): (r: map<string, F>)
    ensures r.Keys == set name | name in names
  {
    map name | name in names :: k.zero
  }

  /** Identity on both sides. */
  function Trivial<F, G, T>(e: Pairing<F, G, T>): Accumulator<F, G> {
    Accumulator(Msm([e.space.group.zero], [e.space.field.one], map[]),
                Msm([e.space.group.zero], [e.space.field.one], ZeroScalars(e.space.field, e.names)))
  }

  lemma {:induction false} ZeroFixed<F(!new), G(!new), T>(e: Pairing<F, G, T>, fixed: map<string, F>, n: nat)
    requires IsSpace(e.space) && n <= |e.names| && forall name :: name in fixed ==> fixed[name] == e.space.field.zero
    ensures FixedTo(e, fixed, n) == e.space.group.zero
  {
    if n > 0 {
      ZeroFixed(e, fixed, n - 1);
      SZero(e.space, e.space.field.zero, e.base(e.names[n - 1]));
      GZero(e.space.group, e.space.group.zero);
    }
  }

  lemma {:induction false} ZeroInner<F(!new), G(!new)>(v: Space<F, G>, s: seq<F>, b: seq<G>, n: nat)
    requires IsSpace(v) && n <= |s| && n <= |b|
    requires forall i :: 0 <= i < n ==> s[i] == v.field.zero || b[i] == v.group.zero
    ensures InnerTo(v, s, b, n) == v.group.zero
  {
    if n > 0 {
      ZeroInner(v, s, b, n - 1);
      SZero(v, s[n - 1], b[n - 1]);
      GZero(v.group, v.group.zero);
    }
  }

  lemma TrivialValid<F(!new), G(!new), T(!new)>(e: Pairing<F, G, T>)
    requires IsPairing(e)
    ensures Valid(e, Trivial(e))
  {
    var v, t := e.space, Trivial(e);
    ZeroFixed(e, t.lhs.fixed, |e.names|);
    ZeroFixed(e, t.rhs.fixed, |e.names|);
    ZeroInner(v, t.lhs.scalars, t.lhs.bases, 1);
    GZero(v.group, v.group.zero);
    var z := v.group.zero;
    assert Eval(e, t.lhs) == z && Eval(e, t.rhs) == z;
    SZero(v, v.field.zero, z);
    assert At3(v.field.zero, z, z);
    SZero(e.target, v.field.zero, e.pair(z, z));
  }

  /** Accumulating two zero sides collapses to zero, whatever the challenge. */
  lemma ZeroCollapse<F(!new), G(!new), T>(e: Pairing<F, G, T>, m: Msm<F, G>, o: Msm<F, G>, r: F)
    requires IsSpace(e.space) && WellFormed(m) && WellFormed(o)
    requires forall i :: 0 <= i < |m.scalars| ==> m.scalars[i] == e.space.field.zero || m.bases[i] == e.space.group.zero
    requires forall i :: 0 <= i < |o.bases| ==> o.bases[i] == e.space.group.zero
    requires forall name :: name in m.fixed ==> m.fixed[name] == e.space.field.zero
    requires forall name :: name in o.fixed ==> o.fixed[name] == e.space.field.zero
    ensures WellFormed(AccumulateWithR(e.space.field, m, o, r))
    ensures CollapseMsm(e.space, AccumulateWithR(e.space.field, m, o, r)) ==
            Msm([e.space.group.zero], [e.space.field.one],
                map name | name in m.fixed.Keys + o.fixed.Keys :: e.space.field.zero)
  {
    var v, k := e.space, e.space.field;
    var a := AccumulateWithR(k, m, o, r);
    ZeroInner(v, a.scalars, a.bases, |a.scalars|);
    FMulZero(k, r);
    FAddZero(k, k.zero);
    assert a.fixed == map name | name in m.fixed.Keys + o.fixed.Keys :: k.zero;
  }
}
