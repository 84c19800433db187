/** Polynomials with coefficients in a vector space. */
module Polynomials {
  import opened Algebra

  /** sum over k < n of x^k * s[k] */
  ghost function Terms<F, G>(v: Space<F, G>, s: seq<G>, x: F, n: nat): G
    requires n <= |s|
  {
    if n == 0 then v.group.zero
    else v.group.add(Terms(v, s, x, n - 1), v.scale(Pow(v.field, x, n - 1), s[n - 1]))
  }

  /** The value at x of the polynomial with coefficients s. */
  ghost function Eval<F, G>(v: Space<F, G>, s: seq<G>, x: F): G {
    Terms(v, s, x, |s|)
  }

  /** (c + x*e) + (p*x)*last == c + x*(e + p*last) */
  lemma FactorOut<F(!new), G(!new)>(v: Space<F, G>, c: G, e: G, p: F, last: G, x: F)
    requires IsSpace(v)
    ensures v.group.add(v.group.add(c, v.scale(x, e)), v.scale(v.field.mul(p, x), last)) ==
            v.group.add(c, v.scale(x, v.group.add(e, v.scale(p, last))))
  {
    FComm(v.field, p, x);
    SMul(v, x, p, last);
    SAdd(v, x, e, v.scale(p, last));
    GAssoc(v.group, c, v.scale(x, e), v.scale(x, v.scale(p, last)));
  }

  /** Horner's rule on a sequence t that is s shifted by one with c in front. */
  lemma {:induction false} TermsShift<F(!new), G(!new)>(v: Space<F, G>, c: G, s: seq<G>, t: seq<G>, x: F, n: nat)
    requires IsSpace(v) && n <= |s| && |t| == |s| + 1 && t[0] == c
    requires forall i :: 0 <= i < |s| ==> t[i + 1] == s[i]
    ensures Terms(v, t, x, n + 1) == v.group.add(c, v.scale(x, Terms(v, s, x, n)))
  {
    if n == 0 {
      assert Terms(v, t, x, 1) == v.group.add(v.group.zero, v.scale(v.field.one, c));
      SOne(v, c);
      GZero(v.group, c);
      SZero(v, x, c);
    } else {
      TermsShift(v, c, s, t, x, n - 1);
      FactorOut(v, c, Terms(v, s, x, n - 1), Pow(v.field, x, n - 1), s[n - 1], x);
    }
  }

  lemma EvalCons<F(!new), G(!new)>(v: Space<F, G>, c: G, s: seq<G>, x: F)
    requires IsSpace(v)
    ensures Eval(v, [c] + s, x) == v.group.add(c, v.scale(x, Eval(v, s, x)))
  {
    TermsShift(v, c, s, [c] + s, x, |s|);
  }

  lemma EvalSingle<F(!new), G(!new)>(v: Space<F, G>, c: G, x: F)
    requires IsSpace(v)
    ensures Eval(v, [c], x) == c
  {
    TermsShift(v, c, [], [c], x, 0);
    SZero(v, x, c);
    GZero(v.group, c);
  }

  // ---------------------------------------------------------------- counting roots

  /** Synthetic division by (X - r). */
  ghost function Quotient<F, G>(v: Space<F, G>, s: seq<G>, r: F): (q: seq<G>)
    ensures |q| == if |s| == 0 then 0 else |s| - 1
  {
    if |s| <= 1 then [] else [Eval(v, s[1..], r)] + Quotient(v, s[1..], r)
  }

  /** s(x) == s(r) + (x - r) * q(x) */
  lemma {:induction false} Division<F(!new), G(!new)>(v: Space<F, G>, s: seq<G>, r: F, x: F)
    requires IsSpace(v) && |s| > 0
    ensures Eval(v, s, x) ==
            v.group.add(Eval(v, s, r), v.scale(v.field.Sub(x, r), Eval(v, Quotient(v, s, r), x)))
    decreases |s|
  {
    var g, t := v.group, s[1..];
    assert s == [s[0]] + t;
    EvalCons(v, s[0], t, x);
    EvalCons(v, s[0], t, r);
    var d, q := v.field.Sub(x, r), Quotient(v, s, r);
    if |t| == 0 {
      SZero(v, x, g.zero);
      SZero(v, r, g.zero);
      SZero(v, d, g.zero);
      GZero(g, s[0]);
    } else {
      Division(v, t, r, x);
      var er, q' := Eval(v, t, r), Quotient(v, t, r);
      var eq := Eval(v, q', x);
      EvalCons(v, er, q', x);
      // x * (er + d*eq) == r * er + d * (er + x * eq)
      SAdd(v, x, er, v.scale(d, eq));
      SMul(v, x, d, eq);
      FComm(v.field, x, d);
      SMul(v, d, x, eq);
      SAdd(v, d, er, v.scale(x, eq));
      var rer, der, dxeq := v.scale(r, er), v.scale(d, er), v.scale(d, v.scale(x, eq));
      SplitDifference(v, x, r, er);
      GAssoc(g, rer, der, dxeq);
      GAssoc(g, s[0], rer, g.add(der, dxeq));
    }
  }

  /** x * e == r * e + (x - r) * e */
  lemma SplitDifference<F(!new), G(!new)>(v: Space<F, G>, x: F, r: F, e: G)
    requires IsSpace(v)
    ensures v.scale(x, e) == v.group.add(v.scale(r, e), v.scale(v.field.Sub(x, r), e))
  {
    var k := v.field;
    SAddScalar(v, r, k.Sub(x, r), e);
    FAddComm(k, r, k.Sub(x, r));
    FAddAssoc(k, x, k.neg(r), r);
    FNeg(k, r);
    FAddZero(k, x);
  }

  /** A polynomial whose quotient by (X - r) vanishes and whose value at r vanishes is zero. */
  lemma {:induction false} ZeroFromQuotient<F(!new), G(!new)>(v: Space<F, G>, s: seq<G>, r: F)
    requires IsSpace(v) && |s| > 0 && Eval(v, s, r) == v.group.zero
    requires forall i :: 0 <= i < |s| - 1 ==> Quotient(v, s, r)[i] == v.group.zero
    ensures forall i :: 0 <= i < |s| ==> s[i] == v.group.zero
    decreases |s|
  {
    var t := s[1..];
    assert s == [s[0]] + t;
    EvalCons(v, s[0], t, r);
    if |t| > 0 {
      var q := Quotient(v, s, r);
      assert q[0] == Eval(v, t, r);
      assert forall i :: 0 <= i < |t| - 1 ==> Quotient(v, t, r)[i] == q[i + 1];
      ZeroFromQuotient(v, t, r);
    }
    SZero(v, r, v.group.zero);
    GZero(v.group, s[0]);
    assert s[0] == v.group.zero;
    assert forall i :: 1 <= i < |s| ==> s[i] == t[i - 1];
  }

  ghost predicate Distinct<X>(xs: seq<X>) {
    forall i, j :: 0 <= i < j < |xs| ==> xs[i] != xs[j]
  }

  /** A polynomial with at least as many distinct roots as coefficients is zero. */
  lemma {:induction false} RootCounting<F(!new), G(!new)>(v: Space<F, G>, s: seq<G>, roots: seq<F>)
    requires IsSpace(v) && |roots| >= |s| && Distinct(roots)
    requires forall i :: 0 <= i < |roots| ==> Eval(v, s, roots[i]) == v.group.zero
    ensures forall i :: 0 <= i < |s| ==> s[i] == v.group.zero
    decreases |s|
  {
    if |s| > 0 {
      var r, rest := roots[0], roots[1..];
      var q := Quotient(v, s, r);
      forall i | 0 <= i < |rest|
        ensures Eval(v, q, rest[i]) == v.group.zero
      {
        var x := rest[i];
        assert x == roots[i + 1] && x != r;
        Division(v, s, r, x);
        GZero(v.group, v.scale(v.field.Sub(x, r), Eval(v, q, x)));
        FSubZero(v.field, x, r);
        SNonZero(v, v.field.Sub(x, r), Eval(v, q, x));
      }
      RootCounting(v, q, rest);
      ZeroFromQuotient(v, s, r);
    }
  }
}
