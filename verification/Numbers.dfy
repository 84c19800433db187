/** Powers of two, division facts and little-endian byte strings. */
module Numbers {

  function Pow2(n: nat): (r: nat)
    ensures r >= 1
  {
    if n == 0 then 1 else 2 * Pow2(n - 1)
  }

  lemma {:induction false} Pow2Add(m: nat, n: nat)
    ensures Pow2(m + n) == Pow2(m) * Pow2(n)
  {
    if n == 0 {
    } else {
      Pow2Add(m, n - 1);
      MulAssoc(Pow2(m), 2, Pow2(n - 1));
    }
  }

  lemma Pow2Next(c: nat, w: nat)
    ensures Pow2(c * (w + 1)) == Pow2(c * w) * Pow2(c)
  {
    assert c * (w + 1) == c * w + c;
    Pow2Add(c * w, c);
  }

  function Max(a: int, b: int): (r: int)
    ensures r >= a && r >= b && (r == a || r == b)
  {
    if a >= b then a else b
  }

  lemma MulAssoc(a: int, b: int, c: int)
    ensures a * (b * c) == b * (a * c) == a * b * c
  {}

  function IPow(b: nat, n: nat): nat {
    if n == 0 then 1 else b * IPow(b, n - 1)
  }

  lemma {:induction false} IPowPositive(b: nat, n: nat)
    requires b >= 1
    ensures IPow(b, n) >= 1
  {
    if n > 0 {
      IPowPositive(b, n - 1);
      MulLe(IPow(b, n - 1), 1, b);
    }
  }

  lemma {:induction false} IPowAdd(b: nat, m: nat, n: nat)
    ensures IPow(b, m + n) == IPow(b, m) * IPow(b, n)
  {
    if m > 0 {
      IPowAdd(b, m - 1, n);
      MulAssoc(b, IPow(b, m - 1), IPow(b, n));
    }
  }

  lemma {:induction false} Pow2Mono(m: nat, n: nat)
    requires m <= n
    ensures Pow2(m) <= Pow2(n)
    ensures m < n ==> 2 * Pow2(m) <= Pow2(n)
  {
    if m < n {
      Pow2Mono(m, n - 1);
    }
  }

  /** a == b * q + r with 0 <= r < b determines the quotient and the remainder. */
  lemma DivModUnique(a: int, b: int, q: int, r: int)
    requires b > 0 && 0 <= r < b && a == b * q + r
    ensures a / b == q && a % b == r
  {
    var q', r' := a / b, a % b;
    assert a == b * q' + r';
    assert b * (q - q') == r' - r;
    if q - q' >= 1 {
      MulLe(b, 1, q - q');
    } else if q - q' <= -1 {
      MulLe(b, q - q', -1);
    }
  }

  lemma MulLe(a: int, x: int, y: int)
    requires 0 <= a && x <= y
    ensures a * x <= a * y && x * a <= y * a
  {}

  lemma MulLt(a: int, x: int, y: int)
    requires 0 < a && x < y
    ensures a * x < a * y && x * a < y * a
  {}

  lemma DivMod(a: int, b: int)
    requires b > 0
    ensures a == b * (a / b) + a % b && 0 <= a % b < b
  {}

  lemma DivNonNegative(a: int, b: int)
    requires b > 0 && a >= 0
    ensures a / b >= 0 && a / b <= a
  {
    DivMod(a, b);
    if a / b < 0 {
      MulLe(b, a / b, -1);
    }
    MulLe(a / b, 1, b);
  }

  /** Dividing by a product is dividing twice. */
  lemma DivDiv(a: int, b: int, c: int)
    requires b > 0 && c > 0
    ensures b * c > 0 && a / (b * c) == a / b / c
  {
    MulLt(b, 0, c);
    var q, r := a / b, a % b;
    DivMod(a, b);
    DivMod(q, c);
    TwoDivisions(a, b, c, q, r, q / c, q % c);
    DivModUnique(a, b * c, q / c, b * (q % c) + r);
  }

  lemma TwoDivisions(a: int, b: int, c: int, q: int, r: int, q': int, r': int)
    requires b > 0 && c > 0 && a == b * q + r && 0 <= r < b && q == c * q' + r' && 0 <= r' < c
    ensures a == (b * c) * q' + (b * r' + r) && 0 <= b * r' + r < b * c
  {
    MulAssoc(b, c, q');
    assert b * (c * q' + r') == b * (c * q') + b * r';
    MulLe(b, r', c - 1);
    assert b * (c - 1) == b * c - b;
    MulLe(b, 0, r');
  }

  /** (a + b * k) / b == a / b + k, and the remainder does not change. */
  lemma DivShift(a: int, b: int, k: int)
    requires b > 0
    ensures (a + b * k) / b == a / b + k && (a + b * k) % b == a % b
  {
    DivMod(a, b);
    assert b * (a / b + k) == b * (a / b) + b * k;
    DivModUnique(a + b * k, b, a / b + k, a % b);
  }

  /** Splitting a remainder: a % (b*c) == b * ((a / b) % c) + a % b. */
  lemma ModSplit(a: int, b: int, c: int)
    requires b > 0 && c > 0
    ensures b * c > 0 && a % (b * c) == b * ((a / b) % c) + a % b
    ensures (a % (b * c)) / b == (a / b) % c && (a % (b * c)) % b == a % b
  {
    MulLt(b, 0, c);
    var q, r := a / b, a % b;
    var q', r' := q / c, q % c;
    DivMod(a, b);
    DivMod(q, c);
    TwoDivisions(a, b, c, q, r, q', r');
    DivModUnique(a, b * c, q', b * r' + r);
    DivModUnique(b * r' + r, b, r', r);
  }

  /** The top half of [0, 2q) is where bit q is set. */
  lemma HighBit(a: int, q: int, m: int)
    requires q > 0 && m == 2 * q
    ensures a % m >= q <==> a / q % 2 == 1
  {
    ModSplit(a, q, 2);
    assert q * 2 == 2 * q;
    DivMod(a, q);
  }

  lemma ModSmall(a: int, b: int)
    requires 0 <= a < b
    ensures a % b == a && a / b == 0
  {
    DivModUnique(a, b, 0, a);
  }

  // ---------------------------------------------------------------- congruences

  /** a and b leave the same remainder modulo m. */
  ghost predicate Cong(a: int, b: int, m: int)
    requires m > 0
  {
    (a - b) % m == 0
  }

  lemma CongBy(a: int, b: int, m: int, k: int)
    requires m > 0 && a == b + m * k
    ensures Cong(a, b, m)
  {
    DivModUnique(a - b, m, k, 0);
  }

  lemma CongGet(a: int, b: int, m: int) returns (k: int)
    requires m > 0 && Cong(a, b, m)
    ensures a == b + m * k
  {
    k := (a - b) / m;
    DivMod(a - b, m);
  }

  lemma CongRefl(a: int, m: int)
    requires m > 0
    ensures Cong(a, a, m)
  {
    CongBy(a, a, m, 0);
  }

  lemma CongMod(a: int, m: int)
    requires m > 0
    ensures Cong(a % m, a, m)
  {
    DivMod(a, m);
    assert m * -(a / m) == -(m * (a / m));
    CongBy(a % m, a, m, -(a / m));
  }

  lemma CongTrans(a: int, b: int, c: int, m: int)
    requires m > 0 && Cong(a, b, m) && Cong(b, c, m)
    ensures Cong(a, c, m)
  {
    var k := CongGet(a, b, m);
    var l := CongGet(b, c, m);
    assert m * (k + l) == m * k + m * l;
    CongBy(a, c, m, k + l);
  }

  lemma CongSym(a: int, b: int, m: int)
    requires m > 0 && Cong(a, b, m)
    ensures Cong(b, a, m)
  {
    var k := CongGet(a, b, m);
    assert m * -k == -(m * k);
    CongBy(b, a, m, -k);
  }

  lemma CongAdd(a: int, b: int, c: int, d: int, m: int)
    requires m > 0 && Cong(a, b, m) && Cong(c, d, m)
    ensures Cong(a + c, b + d, m) && Cong(a - c, b - d, m)
  {
    var k := CongGet(a, b, m);
    var l := CongGet(c, d, m);
    assert m * (k + l) == m * k + m * l;
    CongBy(a + c, b + d, m, k + l);
    assert m * (k - l) == m * k - m * l;
    CongBy(a - c, b - d, m, k - l);
  }

  lemma CongMul(a: int, b: int, c: int, d: int, m: int)
    requires m > 0 && Cong(a, b, m) && Cong(c, d, m)
    ensures Cong(a * c, b * d, m)
  {
    var k := CongGet(a, b, m);
    var l := CongGet(c, d, m);
    MulAssoc(b, m, l);
    MulAssoc(m, k, d);
    MulAssoc(m * k, m, l);
    MulAssoc(m, k * m, l);
    assert a * c == b * d + m * (b * l + k * d + k * m * l) by {
      assert (b + m * k) * (d + m * l) == b * d + b * (m * l) + m * k * d + m * k * (m * l);
      assert m * (b * l + k * d + k * m * l) == m * (b * l) + m * (k * d) + m * (k * m * l);
      MulAssoc(k, m, l);
      MulAssoc(m, k, m * l);
    }
    CongBy(a * c, b * d, m, b * l + k * d + k * m * l);
  }

  /** Congruent numbers that are both in [0, m) are equal. */
  lemma CongSmall(a: int, b: int, m: int)
    requires m > 0 && Cong(a, b, m) && -m < a - b < m
    ensures a == b
  {
    var k := CongGet(a, b, m);
    if k >= 1 {
      MulLe(m, 1, k);
    } else if k <= -1 {
      MulLe(m, k, -1);
    }
  }

  lemma CongModEq(a: int, b: int, m: int)
    requires m > 0
    ensures Cong(a, b, m) <==> a % m == b % m
  {
    CongMod(a, m);
    CongMod(b, m);
    if Cong(a, b, m) {
      CongTrans(a % m, a, b, m);
      CongSym(b % m, b, m);
      CongTrans(a % m, b, b % m, m);
      CongSmall(a % m, b % m, m);
    }
    if a % m == b % m {
      CongSym(a % m, a, m);
      CongTrans(a, a % m, b, m);
    }
  }

  // ---------------------------------------------------------------- bits

  /** Bit i of x. */
  ghost function Bit(x: nat, i: nat): nat {
    DivNonNegative(x, Pow2(i));
    x / Pow2(i) % 2
  }

  lemma BitLow(x: nat)
    ensures Bit(x, 0) == x % 2
  {
    DivModUnique(x, 1, x, 0);
  }

  lemma BitNext(x: nat, i: nat)
    ensures Bit(x, i + 1) == Bit(x / 2, i)
  {
    DivDiv(x, 2, Pow2(i));
  }

  lemma Parity(p: int, q: int)
    ensures (p % 2 + q % 2) % 2 == (p + q) % 2
  {}

  // ---------------------------------------------------------------- bytes

  type Byte = n: int | 0 <= n < 256

  /** Value of a little-endian byte string. */
  ghost function FromLe(bytes: seq<Byte>): (r: nat) {
    if |bytes| == 0 then 0 else bytes[0] + 256 * FromLe(bytes[1..])
  }

  lemma {:induction false} FromLeSplit(bytes: seq<Byte>, k: nat)
    requires k <= |bytes|
    ensures FromLe(bytes) == FromLe(bytes[..k]) + Pow2(8 * k) * FromLe(bytes[k..])
    decreases k
  {
    if k == 0 {
      assert bytes[0..] == bytes;
    } else {
      var tail := bytes[1..];
      FromLeSplit(tail, k - 1);
      assert bytes[..k][1..] == tail[..k - 1] && bytes[k..] == tail[k - 1..];
      Pow2Add(8, 8 * k - 8);
      assert Pow2(8) == 256;
      MulAssoc(256, Pow2(8 * k - 8), FromLe(bytes[k..]));
    }
  }

  /** A byte stands for itself, and a byte string for the sum of its bytes times powers of 256. */
  lemma FromLeDigits(bytes: seq<Byte>, b: Byte)
    ensures FromLe([]) == 0 && FromLe([b]) == b
    ensures FromLe(bytes + [b]) == FromLe(bytes) + Pow2(8 * |bytes|) * b
  {
    assert [b][1..] == [];
    var all := bytes + [b];
    FromLeSplit(all, |bytes|);
    assert all[..|bytes|] == bytes && all[|bytes|..] == [b];
  }

  lemma {:induction false} FromLeBound(bytes: seq<Byte>)
    ensures FromLe(bytes) < Pow2(8 * |bytes|)
  {
    if |bytes| > 0 {
      FromLeBound(bytes[1..]);
      Pow2Add(8, 8 * |bytes| - 8);
      assert Pow2(8) == 256;
    }
  }

  lemma {:induction false} FromLeZeros(bytes: seq<Byte>)
    requires forall i :: 0 <= i < |bytes| ==> bytes[i] == 0
    ensures FromLe(bytes) == 0
  {
    if |bytes| > 0 {
      FromLeZeros(bytes[1..]);
    }
  }

  /** Bitwise or of two bytes, bit by bit. */
  function Or(a: nat, b: nat): (r: nat)
    ensures r == 0 <==> a == 0 && b == 0
    ensures forall n: nat :: a < Pow2(n) && b < Pow2(n) ==> r < Pow2(n)
    decreases a + b
  {
    if a == 0 && b == 0 then 0
    else 2 * Or(a / 2, b / 2) + (if a % 2 == 1 || b % 2 == 1 then 1 else 0)
  }

  lemma OrUnfold(a: nat, b: nat)
    ensures Or(a, b) / 2 == Or(a / 2, b / 2) && (Or(a, b) % 2 == 1 <==> a % 2 == 1 || b % 2 == 1)
  {}

  /** A bit of the result is set exactly when it is set in an operand. */
  lemma {:induction false} OrBit(a: nat, b: nat, i: nat)
    ensures Bit(Or(a, b), i) == 1 <==> Bit(a, i) == 1 || Bit(b, i) == 1
  {
    hide Bit, Or;
    OrUnfold(a, b);
    if i == 0 {
      BitLow(a);
      BitLow(b);
      BitLow(Or(a, b));
    } else {
      OrBit(a / 2, b / 2, i - 1);
      BitNext(a, i - 1);
      BitNext(b, i - 1);
      BitNext(Or(a, b), i - 1);
    }
  }
}
