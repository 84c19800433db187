/** Booth recoding of scalars into signed windows (curves/src/msm.rs, get_booth_index). */
module Booth {
  import opened Numbers

  const U32: nat := 0x1_0000_0000

  /** The c+1 bits of 2*s that start at bit c*w: window w of the scalar s together with the bit
      just below it (zero below the least significant window). */
  function Window(s: nat, c: nat, w: nat): nat {
    (2 * s / Pow2(c * w)) % Pow2(c + 1)
  }

  /** The signed digit that a window stands for. */
  function Digit(s: nat, c: nat, w: nat): int {
    var v := Window(s, c, w);
    if v < Pow2(c) then (v + 1) / 2 else (v + 1) / 2 - Pow2(c)
  }

  /** Four bytes as a 32-bit word. */
  function Word(b0: int, b1: int, b2: int, b3: int): int {
    b0 + 0x100 * b1 + 0x1_0000 * b2 + 0x100_0000 * b3
  }

  lemma U32IsPow2()
    ensures U32 == Pow2(32)
  {
    assert Pow2(8) == 256;
    Pow2Add(8, 8);
    Pow2Add(16, 16);
  }

  /** The recoding step as the code performs it, on 32-bit words read from the bytes. */
  method GetBoothIndex(windowIndex: nat, windowSize: nat, el: seq<Byte>) returns (d: int)
    requires 1 <= windowSize <= 24
    ensures d == Digit(FromLe(el), windowSize, windowIndex)
    ensures 0 - Pow2(windowSize - 1) <= d <= Pow2(windowSize - 1)
  {
    var product := windowIndex * windowSize;
    MulSigns(windowIndex, windowSize);
    var skipBits := if product == 0 then 0 else product - 1;
    var skipBytes := skipBits / 8;

    // fill four bytes, leaving zeros past the end of the scalar
    var v: seq<Byte> := [0, 0, 0, 0];
    var i := 0;
    while i < 4 && skipBytes + i < |el|
      invariant 0 <= i <= 4 && |v| == 4
      invariant i == 0 || skipBytes + i <= |el|
      invariant forall j :: 0 <= j < i ==> v[j] == el[skipBytes + j]
      invariant forall j :: i <= j < 4 ==> v[j] == 0
    {
      v := v[i := el[skipBytes + i]];
      i := i + 1;
    }
    var tmp := Word(v[0], v[1], v[2], v[3]);
    WordRead(el, skipBytes, v);

    if windowIndex == 0 {
      tmp := tmp * 2 % U32;
    }
    tmp := tmp / Pow2(skipBits - skipBytes * 8);
    tmp := tmp % Pow2(windowSize + 1);
    WordIsWindow(FromLe(el), windowSize, windowIndex, skipBits, skipBytes);
    DigitRange(FromLe(el), windowSize, windowIndex);

    // bit windowSize of the masked word decides the sign
    var sign := (tmp / Pow2(windowSize)) % 2 == 0;
    TopBit(tmp, windowSize);
    tmp := (tmp + 1) / 2;
    if sign {
      d := tmp;
    } else {
      ComplementMask(tmp, windowSize);
      d := -((U32 - 1 - (tmp - 1)) % Pow2(windowSize));
    }
  }

  lemma MulSigns(a: nat, b: nat)
    requires b >= 1
    ensures a * b >= 0 && (a * b == 0 <==> a == 0) && a * b == b * a
  {
    if a >= 1 {
      MulLe(b, 1, a);
    }
  }

  lemma FromLeWord(v: seq<Byte>)
    requires |v| == 4
    ensures FromLe(v) == Word(v[0], v[1], v[2], v[3])
  {
    assert FromLe(v[3..]) == v[3];
    assert v[2..][1..] == v[3..];
    assert FromLe(v[2..]) == v[2] + 256 * FromLe(v[3..]);
    assert v[1..][1..] == v[2..];
    assert FromLe(v[1..]) == v[1] + 256 * FromLe(v[2..]);
  }

  /** The low four bytes of a byte string, padded with zeros. */
  lemma LowWord(rest: seq<Byte>, v: seq<Byte>)
    requires |v| == 4
    requires forall j :: 0 <= j < 4 ==> v[j] == if j < |rest| then rest[j] else 0
    ensures FromLe(v) == FromLe(rest) % U32
  {
    U32IsPow2();
    FromLeBound(v);
    if |rest| <= 4 {
      FromLeZeros(v[|rest|..]);
      FromLeSplit(v, |rest|);
      assert v[..|rest|] == rest;
      ModSmall(FromLe(v), U32);
    } else {
      assert rest[..4] == v;
      FromLeSplit(rest, 4);
      DivModUnique(FromLe(rest), U32, FromLe(rest[4..]), FromLe(v));
    }
  }

  /** Bytes beyond the end of the scalar count as zero. */
  lemma WordRead(el: seq<Byte>, k: nat, v: seq<Byte>)
    requires |v| == 4
    requires forall j :: 0 <= j < 4 ==> v[j] == if k + j < |el| then el[k + j] else 0
    ensures Word(v[0], v[1], v[2], v[3]) == (FromLe(el) / Pow2(8 * k)) % U32
  {
    FromLeWord(v);
    if k >= |el| {
      FromLeBound(el);
      Pow2Mono(8 * |el|, 8 * k);
      ModSmall(FromLe(el), Pow2(8 * k));
      LowWord([], v);
    } else {
      LowWord(el[k..], v);
      FromLeSplit(el, k);
      FromLeBound(el[..k]);
      DivModUnique(FromLe(el), Pow2(8 * k), FromLe(el[k..]), FromLe(el[..k]));
    }
  }

  /** The word, shifted and masked, is the window: 32 bits suffice because c + 1 + 7 <= 32. */
  lemma WordIsWindow(s: nat, c: nat, w: nat, skipBits: nat, skipBytes: nat)
    requires 1 <= c <= 24
    requires skipBits == (if w * c == 0 then 0 else w * c - 1) && skipBytes == skipBits / 8
    ensures var word := (s / Pow2(8 * skipBytes)) % U32;
            var padded := if w == 0 then word * 2 % U32 else word;
            (padded / Pow2(skipBits - 8 * skipBytes)) % Pow2(c + 1) == Window(s, c, w)
  {
    U32IsPow2();
    MulSigns(w, c);
    if w == 0 {
      FirstWindow(s, c);
    } else {
      LaterWindow(s, c, c * w, 8 * skipBytes, skipBits - 8 * skipBytes);
    }
  }

  lemma FirstWindow(s: nat, c: nat)
    requires c <= 24
    ensures (s / Pow2(0)) % Pow2(32) * 2 % Pow2(32) / Pow2(0) % Pow2(c + 1) == Window(s, c, 0)
  {
    assert Pow2(c * 0) == 1;
    MulModLeft(s, Pow2(32));
    ModMod(2 * s, c + 1, 32);
  }

  lemma LaterWindow(s: nat, c: nat, n: nat, k: nat, r: nat)
    requires c <= 24 && n >= 1 && k + r == n - 1 && r < 8
    ensures ((s / Pow2(k)) % Pow2(32)) / Pow2(r) % Pow2(c + 1) == 2 * s / Pow2(n) % Pow2(c + 1)
  {
    WordBits(s, k, r, c + 1);
    HalfShift(s, n);
  }

  lemma HalfShift(s: nat, n: nat)
    requires n >= 1
    ensures 2 * s / Pow2(n) == s / Pow2(n - 1)
  {
    DivDiv(2 * s, 2, Pow2(n - 1));
  }

  /** Reading m bits at offset k + r through a 32-bit word at offset k. */
  lemma WordBits(s: nat, k: nat, r: nat, m: nat)
    requires r + m <= 32
    ensures ((s / Pow2(k)) % Pow2(32)) / Pow2(r) % Pow2(m) == s / Pow2(k + r) % Pow2(m)
  {
    var a := s / Pow2(k);
    DivNonNegative(s, Pow2(k));
    Pow2Add(r, 32 - r);
    ModSplit(a, Pow2(r), Pow2(32 - r));
    DivNonNegative(a, Pow2(r));
    ModMod(a / Pow2(r), m, 32 - r);
    Pow2Add(k, r);
    DivDiv(s, Pow2(k), Pow2(r));
  }

  lemma DoubleDivision(s: int, m: int, q: int, r: int)
    requires s == m * q + r
    ensures 2 * s == r * 2 + m * (2 * q)
  {
    MulAssoc(m, 2, q);
  }

  lemma MulModLeft(s: nat, m: nat)
    requires m > 0
    ensures s % m * 2 % m == 2 * s % m
  {
    var q, r := s / m, s % m;
    DivMod(s, m);
    DoubleDivision(s, m, q, r);
    DivShift(r * 2, m, 2 * q);
  }

  lemma ModMod(a: nat, m: nat, n: nat)
    requires m <= n
    ensures a % Pow2(n) % Pow2(m) == a % Pow2(m)
  {
    Pow2Add(m, n - m);
    ModSplit(a, Pow2(m), Pow2(n - m));
  }

  lemma TopBit(t: nat, c: nat)
    requires t < Pow2(c + 1)
    ensures (t / Pow2(c)) % 2 == 0 <==> t < Pow2(c)
  {
    if t < Pow2(c) {
      ModSmall(t, Pow2(c));
    } else {
      DivModUnique(t, Pow2(c), 1, t - Pow2(c));
    }
  }

  /** Masking the 32-bit complement yields 2^c - t. */
  lemma ComplementMask(t: nat, c: nat)
    requires 1 <= c <= 24 && 1 <= t <= Pow2(c)
    ensures U32 - t >= 0
    ensures (U32 - t) % Pow2(c) == Pow2(c) - t
  {
    U32IsPow2();
    Pow2Mono(c, 32);
    Pow2Add(c, 32 - c);
    ComplementMod(t, Pow2(c), Pow2(32 - c));
  }

  lemma ComplementMod(t: nat, m: nat, k: nat)
    requires 1 <= t <= m && k >= 1
    ensures m * k >= t && (m * k - t) % m == m - t
  {
    MulLe(m, 1, k);
    assert m * (k - 1) == m * k - m;
    DivModUnique(m * k - t, m, k - 1, m - t);
  }

  lemma DigitRange(s: nat, c: nat, w: nat)
    requires c >= 1
    ensures 0 - Pow2(c - 1) <= Digit(s, c, w) <= Pow2(c - 1)
    ensures 0 <= Window(s, c, w) < Pow2(c + 1)
  {
    DivMod(2 * s / Pow2(c * w), Pow2(c + 1));
  }

  // ---------------------------------------------------------------- the recoding theorem

  /** sum of Digit(s, c, i) * 2^(c*i) for i < n */
  ghost function Recoded(s: nat, c: nat, n: nat): int {
    if n == 0 then 0 else Recoded(s, c, n - 1) + Digit(s, c, n - 1) * Pow2(c * (n - 1))
  }

  /** The bit of s just below position c*w. */
  ghost function Below(s: nat, c: nat, w: nat): nat {
    2 * s / Pow2(c * w) % 2
  }

  /** A window is the plain window of s followed by the bit below it. */
  lemma WindowLow(s: nat, c: nat, w: nat)
    ensures Window(s, c, w) == 2 * (s / Pow2(c * w) % Pow2(c)) + Below(s, c, w)
  {
    var p := Pow2(c * w);
    var a := 2 * s / p;
    DivDiv(2 * s, p, 2);
    DivDiv(2 * s, 2, p);
    assert p * 2 == 2 * p;
    assert 2 * s / 2 == s;
    ModSplit(a, 2, Pow2(c));
  }

  /** Shifting by c*(w+1) is shifting by c*w and then by c. */
  lemma ShiftAgain(s: nat, c: nat, w: nat) returns (a: int, q: int, b: int)
    ensures a == 2 * s / Pow2(c * w) && q == Pow2(c)
    ensures b == 2 * s / Pow2(c * (w + 1)) && b == a / q
  {
    Pow2Next(c, w);
    q := Pow2(c);
    a := 2 * s / Pow2(c * w);
    b := a / q;
    DivDiv(2 * s, Pow2(c * w), q);
  }

  lemma TopBitOfWindow(s: nat, c: nat, w: nat, a: int, q: int, b: int)
    requires a == 2 * s / Pow2(c * w) && q == Pow2(c)
    requires b == 2 * s / Pow2(c * (w + 1)) && b == a / q
    ensures Window(s, c, w) >= Pow2(c) <==> Below(s, c, w + 1) == 1
  {
    HighBit(a, q, Pow2(c + 1));
    assert Window(s, c, w) == a % Pow2(c + 1);
    assert Below(s, c, w + 1) == a / q % 2;
  }

  /** The top bit of a window is the bit below the next one. */
  lemma WindowHigh(s: nat, c: nat, w: nat)
    ensures Window(s, c, w) >= Pow2(c) <==> Below(s, c, w + 1) == 1
  {
    var a, q, b := ShiftAgain(s, c, w);
    TopBitOfWindow(s, c, w, a, q, b);
  }

  /** A digit is the plain window digit, plus the bit below, minus 2^c times the bit handed up. */
  lemma DigitIsBorrow(s: nat, c: nat, w: nat)
    ensures Digit(s, c, w) == s / Pow2(c * w) % Pow2(c) + Below(s, c, w) - Pow2(c) * Below(s, c, w + 1)
  {
    WindowLow(s, c, w);
    WindowHigh(s, c, w);
  }

  lemma Telescope(p: int, q: int, v: int, b: int, b': int, low: int)
    ensures low - p * b + (v + b - q * b') * p == p * v + low - p * q * b'
  {
    MulAssoc(p, q, b');
    assert (v + b - q * b') * p == p * v + p * b - p * (q * b');
  }

  lemma {:induction false} RecodedPrefix(s: nat, c: nat, n: nat)
    requires c >= 1
    ensures Recoded(s, c, n) == s % Pow2(c * n) - Pow2(c * n) * Below(s, c, n)
  {
    hide Recoded, Digit, Pow2, Below;
    if n == 0 {
      RecodedNone(s, c);
    } else {
      RecodedPrefix(s, c, n - 1);
      RecodedStep(s, c, n - 1);
      DigitIsBorrow(s, c, n - 1);
      var p, q := Pow2(c * (n - 1)), Pow2(c);
      Pow2Next(c, n - 1);
      ModSplit(s, p, q);
      Telescope(p, q, s / p % q, Below(s, c, n - 1), Below(s, c, n), s % p);
    }
  }

  lemma RecodedNone(s: nat, c: nat)
    ensures Recoded(s, c, 0) == s % Pow2(c * 0) - Pow2(c * 0) * Below(s, c, 0)
  {
    assert c * 0 == 0;
    assert 2 * s / 1 == 2 * s;
  }

  lemma RecodedStep(s: nat, c: nat, n: nat)
    ensures Recoded(s, c, n + 1) == Recoded(s, c, n) + Digit(s, c, n) * Pow2(c * n)
  {
    hide Digit, Pow2;
  }

  /** The digits add up to the scalar whenever the windows reach past its top bit. */
  lemma RecodingTheorem(s: nat, c: nat, n: nat, bits: nat)
    requires c >= 1 && s < Pow2(bits) && bits < c * n
    ensures Recoded(s, c, n) == s
  {
    RecodedPrefix(s, c, n);
    Pow2Mono(bits, c * n);
    ModSmall(s, Pow2(c * n));
    ModSmall(2 * s, Pow2(c * n));
  }

  /** The window count bits / c + 1 of both callers is always enough. */
  lemma WindowCountSuffices(bits: nat, c: nat)
    requires c >= 1
    ensures bits / c + 1 >= 1 && bits < c * (bits / c + 1)
  {
    DivMod(bits, c);
    DivNonNegative(bits, c);
    assert c * (bits / c + 1) == c * (bits / c) + c;
  }

  /** Digits beyond the top of the scalar vanish, so extra windows change nothing. */
  lemma DigitsPastTheTop(s: nat, c: nat, w: nat)
    requires c >= 1 && 2 * s < Pow2(c * w)
    ensures Digit(s, c, w) == 0
  {
    ModSmall(2 * s, Pow2(c * w));
  }
}
