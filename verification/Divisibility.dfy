/** Greatest common divisors, least common multiples and their Bezout identity. */
module Divisibility {
  import opened Numbers

  /** m divides x. */
  ghost predicate Divides(m: int, x: int)
    requires m > 0
  {
    Cong(x, 0, m)
  }

  function Gcd(a: nat, b: nat): (g: nat)
    requires a > 0 || b > 0
    ensures g > 0
    decreases b
  {
    if b == 0 then a else Gcd(b, a % b)
  }

  /** g == s * a + t * b, and g divides both: a == g * a', b == g * b'. */
  lemma {:induction false} Bezout(a: nat, b: nat) returns (s: int, t: int, a': nat, b': nat)
    requires a > 0 || b > 0
    ensures Gcd(a, b) == s * a + t * b
    ensures a == Gcd(a, b) * a' && b == Gcd(a, b) * b'
    decreases b
  {
    hide Gcd;
    GcdStep(a, b);
    if b == 0 {
      s, t, a', b' := 1, 0, 1, 0;
    } else {
      var q, r := a / b, a % b;
      DivMod(a, b);
      DivNonNegative(a, b);
      var s0, t0, x, y := Bezout(b, r);
      GcdStep(a, b);
      s, t := t0, s0 - t0 * q;
      BezoutStep(Gcd(b, r), s0, t0, a, b, q, r);
      FactorStep(Gcd(b, r), x, y, q, a, b, r);
      a', b' := x * q + y, x;
    }
  }

  lemma GcdStep(a: nat, b: nat)
    requires a > 0 || b > 0
    ensures Gcd(a, b) == if b == 0 then a else Gcd(b, a % b)
  {}

  lemma BezoutStep(g: int, s0: int, t0: int, a: int, b: int, q: int, r: int)
    requires g == s0 * b + t0 * r && a == b * q + r
    ensures g == t0 * a + (s0 - t0 * q) * b
  {
    assert t0 * (b * q + r) == t0 * (b * q) + t0 * r;
    MulAssoc(t0, b, q);
    MulAssoc(t0, q, b);
    assert (s0 - t0 * q) * b == s0 * b - t0 * q * b;
  }

  lemma FactorStep(g: int, x: nat, y: nat, q: nat, a: int, b: int, r: int)
    requires a == b * q + r && b == g * x && r == g * y
    ensures a == g * (x * q + y) && x * q + y >= 0
  {
    MulAssoc(g, x, q);
    assert g * (x * q + y) == g * (x * q) + g * y;
    MulLe(x, 0, q);
  }

  /** The least common multiple as the script computes it. */
  function LcmOf2(a: nat, b: nat): (r: nat)
    requires a > 0 && b > 0
  {
    DivNonNegative(a * b, Gcd(a, b));
    a * b / Gcd(a, b)
  }

  lemma LcmFactor(a: nat, b: nat) returns (s: int, t: int, a': nat, b': nat)
    requires a > 0 && b > 0
    ensures a == Gcd(a, b) * a' && b == Gcd(a, b) * b' && Gcd(a, b) == s * a + t * b
    ensures LcmOf2(a, b) == a' * b == a * b' && LcmOf2(a, b) > 0 && a' > 0 && b' > 0
  {
    s, t, a', b' := Bezout(a, b);
    var g := Gcd(a, b);
    MulAssoc(g, a', b);
    MulAssoc(g, b', a);
    if a' == 0 || b' == 0 {
      assert false;
    }
    MulLt(b, 0, a');
    DivModUnique(a * b, g, a' * b, 0);
    assert a * b == g * (a' * b);
    assert a * b == g * (a * b');
    DivModUnique(a * b, g, a * b', 0);
  }

  /** A common multiple of a and b is a multiple of their least common multiple, and conversely. */
  lemma LcmDivides(a: nat, b: nat, x: int)
    requires a > 0 && b > 0
    ensures LcmOf2(a, b) > 0
    ensures Divides(LcmOf2(a, b), x) <==> Divides(a, x) && Divides(b, x)
  {
    var s, t, a', b' := LcmFactor(a, b);
    var g, l := Gcd(a, b), LcmOf2(a, b);
    if Divides(a, x) && Divides(b, x) {
      var x1 := CongGet(x, 0, a);
      var x2 := CongGet(x, 0, b);
      CommonMultiple(g, s, t, a, b, a', x, x1, x2);
      CongBy(x, 0, l, s * x2 + t * x1);
    }
    if Divides(l, x) {
      var y := CongGet(x, 0, l);
      MulAssoc(a', b, y);
      MulAssoc(b, a', y);
      CongBy(x, 0, b, a' * y);
      MulAssoc(a, b', y);
      CongBy(x, 0, a, b' * y);
    }
  }

  lemma CommonMultiple(g: nat, s: int, t: int, a: nat, b: nat, a': nat, x: int, x1: int, x2: int)
    requires g > 0 && g == s * a + t * b && a == g * a' && x == a * x1 && x == b * x2
    ensures x == a' * b * (s * x2 + t * x1)
  {
    // g * x == s*a*x + t*b*x == a*b*(s*x2 + t*x1) == g * (a'*b*(s*x2 + t*x1))
    var y := s * x2 + t * x1;
    assert g * x == s * a * x + t * b * x;
    MulAssoc(s * a, b, x2);
    MulAssoc(t * b, a, x1);
    assert s * a * x == a * b * (s * x2) by { MulAssoc(s, a, b * x2); MulAssoc(a, b, s * x2); MulAssoc(s, b, x2); MulAssoc(b, s, x2); MulAssoc(a, s, b * x2); }
    assert t * b * x == a * b * (t * x1) by { MulAssoc(t, b, a * x1); MulAssoc(a, b, t * x1); MulAssoc(t, a, x1); MulAssoc(b, t, a * x1); MulAssoc(b, a, t * x1); }
    assert a * b * (s * x2) + a * b * (t * x1) == a * b * y;
    MulAssoc(g, a', b);
    MulAssoc(g, a' * b, y);
    assert g * x == g * (a' * b * y);
    CancelLeft(g, x, a' * b * y);
  }

  lemma CancelLeft(g: int, x: int, y: int)
    requires g > 0 && g * x == g * y
    ensures x == y
  {
    if x < y {
      MulLt(g, x, y);
    } else if y < x {
      MulLt(g, y, x);
    }
  }

  ghost function LcmOfPrefix(l: seq<nat>, n: nat): (r: nat)
    requires n <= |l| && forall i :: 0 <= i < |l| ==> l[i] > 0
    ensures r > 0
  {
    if n == 0 then 1
    else
      var acc := LcmOfPrefix(l, n - 1);
      LcmDivides(acc, l[n - 1], 0);
      LcmOf2(acc, l[n - 1])
  }

  method Lcm(l: seq<nat>) returns (acc: nat)
    requires forall i :: 0 <= i < |l| ==> l[i] > 0
    ensures acc == LcmOfPrefix(l, |l|)
  {
    acc := 1;
    for i := 0 to |l|
      invariant acc == LcmOfPrefix(l, i)
    {
      acc := LcmOf2(acc, l[i]);
    }
  }

  /** The least common multiple of a list divides exactly the common multiples of its members. */
  lemma {:induction false} LcmIsLeast(l: seq<nat>, n: nat, x: int)
    requires n <= |l| && forall i :: 0 <= i < |l| ==> l[i] > 0
    ensures Divides(LcmOfPrefix(l, n), x) <==> forall i :: 0 <= i < n ==> Divides(l[i], x)
  {
    if n == 0 {
      CongBy(x, 0, 1, x);
    } else {
      LcmIsLeast(l, n - 1, x);
      LcmDivides(LcmOfPrefix(l, n - 1), l[n - 1], x);
    }
  }
}
