/** expand_message (curves/src/hash_to_curve.rs) against expand_message_xmd of section 5.3.1 of RFC 9380. */
module ExpandMessage {
  import opened Numbers
  import opened Wrappers

  /** Bitwise exclusive or of two bytes, bit by bit. */
  function XorNat(a: nat, b: nat): (r: nat)
    ensures forall n: nat :: a < Pow2(n) && b < Pow2(n) ==> r < Pow2(n)
    decreases a + b
  {
    if a == 0 && b == 0 then 0 else 2 * XorNat(a / 2, b / 2) + (a % 2 + b % 2) % 2
  }

  lemma XorUnfold(a: nat, b: nat)
    ensures XorNat(a, b) / 2 == XorNat(a / 2, b / 2) && XorNat(a, b) % 2 == (a % 2 + b % 2) % 2
  {}

  lemma {:induction false} XorBits(a: nat, b: nat, i: nat)
    ensures Bit(XorNat(a, b), i) == (Bit(a, i) + Bit(b, i)) % 2
  {
    hide Bit, XorNat;
    XorUnfold(a, b);
    if i == 0 {
      BitLow(a);
      BitLow(b);
      BitLow(XorNat(a, b));
    } else {
      XorBits(a / 2, b / 2, i - 1);
      BitNext(a, i - 1);
      BitNext(b, i - 1);
      BitNext(XorNat(a, b), i - 1);
    }
  }

  /** Each bit of the result is the sum of the operands' bits modulo two. */
  lemma XorBit(a: nat, b: nat, i: nat)
    ensures XorNat(a, b) / Pow2(i) % 2 == (a / Pow2(i) + b / Pow2(i)) % 2
  {
    XorBits(a, b, i);
    hide XorNat, Pow2;
    Parity(a / Pow2(i), b / Pow2(i));
  }

  function Xor(a: Byte, b: Byte): Byte {
    assert Pow2(8) == 256;
    XorNat(a, b)
  }

  /** A digest: its input block size and its output size. */
  datatype Digest = Digest(hash: seq<Byte> -> seq<Byte>, blockSize: nat, outputSize: nat)

  ghost predicate IsDigest(d: Digest) {
    d.outputSize >= 1 && forall m: seq<Byte> :: |d.hash(m)| == d.outputSize
  }

  /** There are digests of every positive output size. */
  lemma DigestsExist(blockSize: nat, outputSize: nat)
    requires outputSize >= 1
    ensures IsDigest(Digest((m: seq<Byte>) => seq(outputSize, _ => 0), blockSize, outputSize))
  {}

  function ToByte(n: nat): Byte { n % 256 }

  /** Number of digest outputs that cover the requested length. */
  function Ell(d: Digest, outLen: nat): (ell: nat)
    requires d.outputSize >= 1
    ensures outLen <= ell * d.outputSize && (outLen == 0 <==> ell == 0)
    ensures ell >= 1 ==> (ell - 1) * d.outputSize < outLen
  {
    CeilFacts(outLen, d.outputSize);
    (outLen + d.outputSize - 1) / d.outputSize
  }

  lemma CeilFacts(outLen: nat, size: nat)
    requires size >= 1
    ensures var ell := (outLen + size - 1) / size;
            ell >= 0 && outLen <= ell * size && (outLen == 0 <==> ell == 0) && (ell >= 1 ==> (ell - 1) * size < outLen)
  {
    var ell := (outLen + size - 1) / size;
    DivMod(outLen + size - 1, size);
    DivNonNegative(outLen + size - 1, size);
    assert (ell - 1) * size == size * ell - size;
    assert size * 0 == 0;
    if outLen == 0 {
      ModSmall(size - 1, size);
    }
  }

  function XorSeq(a: seq<Byte>, b: seq<Byte>): seq<Byte>
    requires |a| == |b|
  {
    seq(|a|, i requires 0 <= i < |a| => Xor(a[i], b[i]))
  }

  // ---------------------------------------------------------------- the standard

  /** The big-endian encodings on one and on two bytes. */
  function I2osp1(n: nat): seq<Byte>
    requires n <= 255
  {
    [n]
  }

  function I2osp2(n: nat): seq<Byte>
    requires n <= 65535
  {
    [n / 256, n % 256]
  }

  ghost function XmdBlock0(d: Digest, dst: seq<Byte>, msg: seq<Byte>, outLen: nat): seq<Byte>
    requires |dst| <= 255 && outLen <= 65535
  {
    d.hash(seq(d.blockSize, _ => 0) + msg + I2osp2(outLen) + [0] + (dst + I2osp1(|dst|)))
  }

  ghost function XmdBlock(d: Digest, dst: seq<Byte>, b0: seq<Byte>, i: nat): (b: seq<Byte>)
    requires IsDigest(d) && |b0| == d.outputSize && 1 <= i <= 255 && |dst| <= 255
    ensures |b| == d.outputSize
  {
    if i == 1 then d.hash(b0 + I2osp1(1) + (dst + I2osp1(|dst|)))
    else d.hash(XorSeq(b0, XmdBlock(d, dst, b0, i - 1)) + I2osp1(i) + (dst + I2osp1(|dst|)))
  }

  ghost function XmdBlocks(d: Digest, dst: seq<Byte>, b0: seq<Byte>, n: nat): (r: seq<Byte>)
    requires IsDigest(d) && |b0| == d.outputSize && n <= 255 && |dst| <= 255
    ensures |r| == n * d.outputSize
  {
    if n == 0 then []
    else
      assert n * d.outputSize == (n - 1) * d.outputSize + d.outputSize;
      XmdBlocks(d, dst, b0, n - 1) + XmdBlock(d, dst, b0, n)
  }

  /** expand_message_xmd; None where the standard aborts. */
  ghost function ExpandMessageXmd(d: Digest, dst: seq<Byte>, msg: seq<Byte>, outLen: nat): Option<seq<Byte>>
    requires IsDigest(d)
  {
    if Ell(d, outLen) > 255 || outLen > 65535 || |dst| > 255 then None
    else Some(XmdBlocks(d, dst, XmdBlock0(d, dst, msg, outLen), Ell(d, outLen))[..outLen])
  }

  // ---------------------------------------------------------------- the blocks of the code

  /** The domain separation tag followed by its length. */
  function DstPrime(dst: seq<Byte>): seq<Byte> {
    dst + [ToByte(|dst|)]
  }

  function Block0(d: Digest, dst: seq<Byte>, msg: seq<Byte>, outLen: nat): seq<Byte> {
    d.hash(seq(d.blockSize, _ => 0) + msg + [ToByte(outLen / 256), ToByte(outLen)] + [0] + DstPrime(dst))
  }

  /** Block i >= 1; its index is truncated to a byte. */
  ghost function Block(d: Digest, dst: seq<Byte>, b0: seq<Byte>, i: nat): (b: seq<Byte>)
    requires IsDigest(d) && |b0| == d.outputSize && i >= 1
    ensures |b| == d.outputSize
  {
    if i == 1 then d.hash(b0 + [1] + DstPrime(dst))
    else d.hash(XorSeq(b0, Block(d, dst, b0, i - 1)) + [ToByte(i)] + DstPrime(dst))
  }

  /** The first n blocks. */
  ghost function Uniform(d: Digest, dst: seq<Byte>, b0: seq<Byte>, n: nat): (r: seq<Byte>)
    requires IsDigest(d) && |b0| == d.outputSize
    ensures |r| == n * d.outputSize
  {
    if n == 0 then []
    else
      assert n * d.outputSize == (n - 1) * d.outputSize + d.outputSize;
      Uniform(d, dst, b0, n - 1) + Block(d, dst, b0, n)
  }

  /** Up to 255 blocks and 65535 bytes the code's blocks are the standard's. */
  lemma {:induction false} BlockIsXmd(d: Digest, dst: seq<Byte>, b0: seq<Byte>, i: nat)
    requires IsDigest(d) && |b0| == d.outputSize && 1 <= i <= 255 && |dst| <= 255
    ensures Block(d, dst, b0, i) == XmdBlock(d, dst, b0, i)
  {
    if i > 1 {
      BlockIsXmd(d, dst, b0, i - 1);
    }
  }

  lemma {:induction false} UniformIsXmd(d: Digest, dst: seq<Byte>, b0: seq<Byte>, n: nat)
    requires IsDigest(d) && |b0| == d.outputSize && n <= 255 && |dst| <= 255
    ensures Uniform(d, dst, b0, n) == XmdBlocks(d, dst, b0, n)
  {
    hide Block, XmdBlock;
    if n > 0 {
      UniformIsXmd(d, dst, b0, n - 1);
      BlockIsXmd(d, dst, b0, n);
    }
  }

  lemma Block0IsXmd(d: Digest, dst: seq<Byte>, msg: seq<Byte>, outLen: nat)
    requires IsDigest(d) && |dst| <= 255 && outLen <= 65535
    ensures Block0(d, dst, msg, outLen) == XmdBlock0(d, dst, msg, outLen) && |Block0(d, dst, msg, outLen)| == d.outputSize
  {
    TwoBytes(outLen);
    hide I2osp2, ToByte;
    LengthByte(dst);
  }

  lemma TwoBytes(n: nat)
    requires n <= 65535
    ensures [ToByte(n / 256), ToByte(n)] == I2osp2(n)
  {}

  lemma LengthByte(dst: seq<Byte>)
    requires |dst| <= 255
    ensures DstPrime(dst) == dst + I2osp1(|dst|)
  {}

  lemma ExpansionIsXmd(d: Digest, dst: seq<Byte>, msg: seq<Byte>, outLen: nat)
    requires IsDigest(d) && |dst| <= 255 && Ell(d, outLen) <= 255 && outLen <= 65535
    ensures ExpandMessageXmd(d, dst, msg, outLen) == Some(Uniform(d, dst, Block0(d, dst, msg, outLen), Ell(d, outLen))[..outLen])
  {
    hide Block0, XmdBlock0, Uniform, XmdBlocks, Ell;
    Block0IsXmd(d, dst, msg, outLen);
    UniformIsXmd(d, dst, Block0(d, dst, msg, outLen), Ell(d, outLen));
  }

  // ---------------------------------------------------------------- the code

  /** Arithmetic that overflows panics in a build with overflow checks and wraps around in one without. */
  datatype Build = Checked | Wrapping

  /** Overwrites out from position start with as much of b as fits. */
  method CopyAt(out: array<Byte>, start: nat, b: seq<Byte>)
    requires start <= out.Length
    modifies out
    ensures var n := if |b| <= out.Length - start then |b| else out.Length - start;
            out[..] == old(out[..])[..start] + b[..n] + old(out[..])[start + n..]
  {
    var n := if |b| <= out.Length - start then |b| else out.Length - start;
    ghost var was := out[..];
    for j := 0 to n
      invariant forall i :: 0 <= i < out.Length ==> out[i] == Overwritten(was, start, b, j, i)
    {
      out[start + j] := b[j];
    }
    CopyDone(was, start, b, n, out[..]);
  }

  /** Entry i after the first j bytes of b were written at start. */
  ghost function Overwritten(was: seq<Byte>, start: nat, b: seq<Byte>, j: nat, i: nat): Byte
    requires i < |was| && j <= |b|
  {
    if start <= i < start + j then b[i - start] else was[i]
  }

  lemma CopyDone(was: seq<Byte>, start: nat, b: seq<Byte>, n: nat, now: seq<Byte>)
    requires n <= |b| && start + n <= |was| == |now|
    requires forall i :: 0 <= i < |was| ==> now[i] == Overwritten(was, start, b, n, i)
    ensures now == was[..start] + b[..n] + was[start + n..]
  {}

  ghost predicate StartsWith(s: seq<Byte>, done: seq<Byte>) {
    |done| <= |s| && s[..|done|] == done
  }

  /** One more block after those already written. */
  lemma CopyExtends(was: seq<Byte>, done: seq<Byte>, b: seq<Byte>, n: nat, now: seq<Byte>)
    requires n <= |b| && |done| + n <= |was| && StartsWith(was, done)
    requires now == was[..|done|] + b[..n] + was[|done| + n..]
    ensures StartsWith(now, done + b[..n])
  {}

  lemma Empty(s: seq<Byte>)
    ensures StartsWith(s, [])
  {}

  lemma Complete(s: seq<Byte>, done: seq<Byte>)
    requires StartsWith(s, done) && |s| == |done|
    ensures s == done
  {}

  lemma WholeBlock(b: seq<Byte>, n: nat)
    requires |b| == n
    ensures b[..n] == b
  {}

  /** Writes n bytes of a block after those already written: all of it, or what still fits. */
  method WriteBlock(out: array<Byte>, pos: nat, b: seq<Byte>, ghost n: nat, ghost done: seq<Byte>)
    requires |done| == pos && pos + n <= out.Length && StartsWith(out[..], done)
    requires n == |b| || (n <= |b| && pos + n == out.Length)
    modifies out
    ensures StartsWith(out[..], done + b[..n])
  {
    hide StartsWith;
    ghost var was := out[..];
    CopyAt(out, pos, b);
    CopyExtends(was, done, b, n, out[..]);
  }

  /** Writes the blocks into the output, computing each from the previous one. With overflow checks the index
      of block 256 panics. */
  method FillBlocks(build: Build, d: Digest, ghost dst: seq<Byte>, tag: seq<Byte>, b0: seq<Byte>, b1: seq<Byte>, outLen: nat)
    returns (r: Option<array<Byte>>)
    requires IsDigest(d) && |b0| == d.outputSize && tag == DstPrime(dst) && b1 == Block(d, dst, b0, 1) && outLen >= 1
    ensures r.Some? <==> (build.Checked? ==> Ell(d, outLen) <= 255)
    ensures r.Some? ==> fresh(r.value) && r.value[..] == Uniform(d, dst, b0, Ell(d, outLen))[..outLen]
  {
    hide Uniform, Block, XorSeq, DstPrime, ToByte, Ell, AtBlock, StartsWith;
    var size, ell := d.outputSize, Ell(d, outLen);
    var out := new Byte[outLen](_ => 0);
    var pos, bi := 0, b1;
    NoBlocks(d, dst, b0, size, ell, outLen);
    Empty(out[..]);
    for i := 1 to ell
      invariant AtBlock(pos, i, size, ell, outLen) && out.Length == outLen && fresh(out)
      invariant bi == Block(d, dst, b0, i)
      invariant StartsWith(out[..], Uniform(d, dst, b0, i - 1))
      invariant build.Checked? ==> i <= 255
    {
      if build.Checked? && i % 256 == 255 {
        return None;
      }
      var next := d.hash(XorSeq(b0, bi) + [ToByte(1 + i)] + tag);
      NextBlock(i, size, ell, outLen, pos);
      BlockStep(d, dst, b0, i);
      DoneBlocks(d, dst, b0, i, ell, outLen, pos);
      WriteBlock(out, pos, bi, size, Uniform(d, dst, b0, i - 1));
      WholeBlock(bi, size);
      pos := pos + size;
      bi := next;
    }
    DoneBlocks(d, dst, b0, ell, ell, outLen, pos);
    LastBlock(d, dst, b0, ell, outLen, pos);
    WriteBlock(out, pos, bi, outLen - pos, Uniform(d, dst, b0, ell - 1));
    Complete(out[..], Uniform(d, dst, b0, ell)[..outLen]);
    r := Some(out);
  }

  /** Where block i starts, with the blocks after it still to come. */
  ghost predicate AtBlock(pos: int, i: nat, size: nat, ell: nat, outLen: nat) {
    i >= 1 && 0 <= pos == (i - 1) * size && pos + size * (ell - i) < outLen
  }

  lemma NoBlocks(d: Digest, dst: seq<Byte>, b0: seq<Byte>, size: nat, ell: nat, outLen: nat)
    requires IsDigest(d) && |b0| == d.outputSize && ell >= 1 && (ell - 1) * size < outLen
    ensures Uniform(d, dst, b0, 0) == [] && AtBlock(0, 1, size, ell, outLen)
  {}

  lemma DoneBlocks(d: Digest, dst: seq<Byte>, b0: seq<Byte>, i: nat, ell: nat, outLen: nat, pos: nat)
    requires IsDigest(d) && |b0| == d.outputSize && i <= ell && AtBlock(pos, i, d.outputSize, ell, outLen)
    ensures |Uniform(d, dst, b0, i - 1)| == pos < outLen
  {
    MulLe(d.outputSize, 0, ell - i);
  }

  lemma BlockStep(d: Digest, dst: seq<Byte>, b0: seq<Byte>, i: nat)
    requires IsDigest(d) && |b0| == d.outputSize && i >= 1
    ensures Block(d, dst, b0, i + 1) == d.hash(XorSeq(b0, Block(d, dst, b0, i)) + [ToByte(1 + i)] + DstPrime(dst))
    ensures Uniform(d, dst, b0, i) == Uniform(d, dst, b0, i - 1) + Block(d, dst, b0, i)
  {}

  ghost function Contents(r: Option<array<Byte>>): Option<seq<Byte>>
    reads if r.Some? then {r.value} else {}
  {
    if r.Some? then Some(r.value[..]) else None
  }

  // ---------------------------------------------------------------- the output, bit by bit

  /** x is the bitwise sum of a and b modulo two. */
  ghost predicate IsXor(x: seq<Byte>, a: seq<Byte>, b: seq<Byte>) {
    && |x| == |a| == |b|
    && forall j: nat, i: nat :: j < |x| && i < 8 ==> IsXorAt(x[j], a[j], b[j], i)
  }

  ghost predicate IsXorAt(x: Byte, a: Byte, b: Byte, i: nat) {
    x / Pow2(i) % 2 == (a / Pow2(i) + b / Pow2(i)) % 2
  }

  lemma XorSeqMeaning(a: seq<Byte>, b: seq<Byte>)
    requires |a| == |b|
    ensures IsXor(XorSeq(a, b), a, b)
  {
    var x := XorSeq(a, b);
    hide Pow2;
    forall j: nat, i: nat | j < |x| && i < 8
      ensures IsXorAt(x[j], a[j], b[j], i)
    {
      XorBit(a[j], b[j], i);
    }
  }

  /** The output holds a whole block i, counted from one. */
  ghost predicate HasBlock(d: Digest, out: seq<Byte>, i: nat) {
    i >= 1 && 0 <= (i - 1) * d.outputSize <= i * d.outputSize <= |out|
  }

  ghost function BlockAt(d: Digest, out: seq<Byte>, i: nat): seq<Byte>
    requires HasBlock(d, out, i)
  {
    out[(i - 1) * d.outputSize..i * d.outputSize]
  }

  /** Block i is the digest of (b0 xor the block before it), its index and the tag. */
  ghost predicate ChainedAt(d: Digest, tag: seq<Byte>, b0: seq<Byte>, out: seq<Byte>, i: nat)
    requires i >= 2 && HasBlock(d, out, i - 1) && HasBlock(d, out, i)
  {
    exists x: seq<Byte> :: IsXor(x, b0, BlockAt(d, out, i - 1)) && BlockAt(d, out, i) == d.hash(x + [i % 256] + tag)
  }

  /** The whole blocks of the output: b0 comes from the padded message, the first block from b0, and every further
      one from b0 and the block before it. */
  ghost predicate Chained(d: Digest, dst: seq<Byte>, msg: seq<Byte>, out: seq<Byte>) {
    var tag := dst + [|dst| % 256];
    var b0 := d.hash(seq(d.blockSize, _ => 0) + msg + [|out| / 256 % 256, |out| % 256, 0] + tag);
    && (HasBlock(d, out, 1) ==> BlockAt(d, out, 1) == d.hash(b0 + [1] + tag))
    && (forall i: nat :: i >= 2 && HasBlock(d, out, i) ==> HasBlock(d, out, i - 1) && ChainedAt(d, tag, b0, out, i))
  }

  lemma {:induction false} UniformAt(d: Digest, dst: seq<Byte>, b0: seq<Byte>, n: nat, i: nat)
    requires IsDigest(d) && |b0| == d.outputSize && 1 <= i <= n
    ensures HasBlock(d, Uniform(d, dst, b0, n), i) && BlockAt(d, Uniform(d, dst, b0, n), i) == Block(d, dst, b0, i)
  {
    hide Block;
    BlockFits(d, Uniform(d, dst, b0, n), n, i);
    if i < n {
      UniformAt(d, dst, b0, n - 1, i);
      BlockOfPrefix(d, Uniform(d, dst, b0, n - 1), Uniform(d, dst, b0, n), i);
    }
  }

  lemma BlockFits(d: Digest, out: seq<Byte>, n: nat, i: nat)
    requires |out| == n * d.outputSize && 1 <= i <= n
    ensures HasBlock(d, out, i)
  {
    MulLe(d.outputSize, 0, i - 1);
    MulLe(d.outputSize, i - 1, i);
    MulLe(d.outputSize, i, n);
  }

  /** A longer sequence has the same block. */
  lemma BlockOfPrefix(d: Digest, s: seq<Byte>, t: seq<Byte>, i: nat)
    requires HasBlock(d, s, i) && |s| <= |t| && t[..|s|] == s
    ensures HasBlock(d, t, i) && BlockAt(d, t, i) == BlockAt(d, s, i)
  {
    SameSlice(s, t, (i - 1) * d.outputSize, i * d.outputSize);
  }

  lemma SameSlice(s: seq<Byte>, t: seq<Byte>, x: nat, y: nat)
    requires x <= y <= |s| <= |t| && t[..|s|] == s
    ensures t[x..y] == s[x..y]
  {
    forall j | x <= j < y
      ensures t[j] == s[j]
    {
      assert t[j] == t[..|s|][j];
    }
  }

  /** A whole block that the first bytes of the blocks still hold. */
  lemma OutputAt(d: Digest, dst: seq<Byte>, b0: seq<Byte>, n: nat, outLen: nat, i: nat)
    requires IsDigest(d) && |b0| == d.outputSize && outLen <= n * d.outputSize
    requires HasBlock(d, Uniform(d, dst, b0, n)[..outLen], i)
    ensures i <= n && BlockAt(d, Uniform(d, dst, b0, n)[..outLen], i) == Block(d, dst, b0, i)
  {
    hide Block, Uniform;
    if i > n {
      MulLt(d.outputSize, n, i);
    }
    UniformAt(d, dst, b0, n, i);
    BlockOfPrefix(d, Uniform(d, dst, b0, n)[..outLen], Uniform(d, dst, b0, n), i);
  }

  lemma OutputIsChained(d: Digest, dst: seq<Byte>, msg: seq<Byte>, n: nat, outLen: nat)
    requires IsDigest(d) && outLen <= n * d.outputSize
    ensures Chained(d, dst, msg, Uniform(d, dst, Block0(d, dst, msg, outLen), n)[..outLen])
  {
    var b0 := Block0(d, dst, msg, outLen);
    var out, tag := Uniform(d, dst, b0, n)[..outLen], DstPrime(dst);
    FirstDigest(d, dst, msg, outLen);
    assert Block(d, dst, b0, 1) == d.hash(b0 + [1] + tag);
    hide Uniform, Block, Block0, XorSeq, IsXor, BlockAt, DstPrime, ToByte;
    if HasBlock(d, out, 1) {
      OutputAt(d, dst, b0, n, outLen, 1);
    }
    forall i: nat | i >= 2 && HasBlock(d, out, i)
      ensures HasBlock(d, out, i - 1) && ChainedAt(d, tag, b0, out, i)
    {
      Earlier(d, out, i);
      OutputAt(d, dst, b0, n, outLen, i);
      OutputAt(d, dst, b0, n, outLen, i - 1);
      BlockStep(d, dst, b0, i - 1);
      XorSeqMeaning(b0, Block(d, dst, b0, i - 1));
      ByteValue(i);
    }
  }

  lemma Earlier(d: Digest, out: seq<Byte>, i: nat)
    requires i >= 2 && HasBlock(d, out, i)
    ensures HasBlock(d, out, i - 1)
  {
    MulLe(d.outputSize, 0, i - 2);
    MulLe(d.outputSize, i - 2, i - 1);
  }

  lemma ByteValue(n: nat)
    ensures ToByte(n) == n % 256
  {}

  lemma FirstDigest(d: Digest, dst: seq<Byte>, msg: seq<Byte>, outLen: nat)
    ensures DstPrime(dst) == dst + [|dst| % 256]
    ensures Block0(d, dst, msg, outLen) ==
            d.hash(seq(d.blockSize, _ => 0) + msg + [outLen / 256 % 256, outLen % 256, 0] + (dst + [|dst| % 256]))
  {
    var pad, hi, lo := seq(d.blockSize, _ => 0), outLen / 256 % 256, outLen % 256;
    assert pad + msg + [hi, lo] + [0] == pad + msg + [hi, lo, 0];
  }

  /** The first outLen bytes of the code's blocks, a partial last block included. Fails on a tag of 256 bytes
      or more and, with overflow checks, on an empty output and on more than 255 blocks. The outcome is that
      of expand_message_xmd exactly in the cases of the last clause: the standard's aborts for more than 255
      blocks and for more than 65535 bytes are missing. */
  method Expand(
      build: Build, d: Digest, domainPrefix: seq<Byte>, domain: seq<Byte>, message: seq<Byte>, outLen: nat)
    returns (r: Option<array<Byte>>)
    requires IsDigest(d)
    ensures r.Some? <==>
              |domainPrefix| + |domain| < 256 && (build.Checked? ==> outLen >= 1 && Ell(d, outLen) <= 255)
    ensures r.Some? ==> fresh(r.value)
    ensures r.Some? ==>
              var dst := domainPrefix + domain;
              r.value[..] == Uniform(d, dst, Block0(d, dst, message, outLen), Ell(d, outLen))[..outLen]
    ensures r.Some? ==> r.value.Length == outLen && Chained(d, domainPrefix + domain, message, r.value[..])
    ensures Contents(r) == ExpandMessageXmd(d, domainPrefix + domain, message, outLen) <==>
              || |domainPrefix| + |domain| >= 256
              || (build.Checked? && Ell(d, outLen) > 255)
              || (Ell(d, outLen) <= 255 && outLen <= 65535 && (build.Checked? ==> outLen >= 1))
  {
    hide Uniform, Ell, XmdBlocks, Chained;
    if |domainPrefix| + |domain| >= 256 {
      return None;
    }
    ghost var dst := domainPrefix + domain;
    OutputIsChained(d, dst, message, Ell(d, outLen), outLen);
    if Ell(d, outLen) <= 255 && outLen <= 65535 {
      ExpansionIsXmd(d, dst, message, outLen);
    }
    var tag := domainPrefix + domain + [ToByte(|domain| + |domainPrefix|)];
    var pad := seq(d.blockSize, _ => 0);
    Assoc(pad + message, [ToByte(outLen / 256), ToByte(outLen)], [0]);
    assert [ToByte(outLen / 256), ToByte(outLen), 0] == [ToByte(outLen / 256), ToByte(outLen)] + [0];
    var b0 := d.hash(pad + message + [ToByte(outLen / 256), ToByte(outLen), 0] + tag);
    var b1 := d.hash(b0 + [1] + tag);
    if outLen == 0 {
      // the position ell - 1 of the last block underflows; wrapped around, it is past the empty output
      if build.Checked? {
        return None;
      }
      var empty := new Byte[0];
      return Some(empty);
    }
    r := FillBlocks(build, d, dst, tag, b0, b1, outLen);
  }

  /** With a digest of one byte, 256 blocks are returned without overflow checks where the standard aborts,
      and an empty output panics with them where the standard returns it. With a digest of 65536 bytes, that
      many bytes are returned where the standard aborts. */
  method ExpandDifferences(d: Digest, wide: Digest)
    returns (long: Option<array<Byte>>, empty: Option<array<Byte>>, large: Option<array<Byte>>)
    requires IsDigest(d) && d.outputSize == 1 && IsDigest(wide) && wide.outputSize == 65536
    ensures long.Some? && long.value.Length == 256 && ExpandMessageXmd(d, [], [], 256).None?
    ensures empty.None? && ExpandMessageXmd(d, [], [], 0) == Some([])
    ensures large.Some? && large.value.Length == 65536 && ExpandMessageXmd(wide, [], [], 65536).None?
  {
    assert Ell(d, 256) == 256 && Ell(d, 0) == 0 && Ell(wide, 65536) == 1;
    hide Ell, Uniform, XmdBlock0;
    assert ExpandMessageXmd(d, [], [], 0) == Some([]);
    hide ExpandMessageXmd;
    long := Expand(Wrapping, d, [], [], [], 256);
    empty := Expand(Checked, d, [], [], [], 0);
    large := Expand(Checked, wide, [], [], [], 65536);
    assert |long.value[..]| == 256;
    assert |large.value[..]| == 65536;
  }

  lemma Assoc(a: seq<Byte>, b: seq<Byte>, c: seq<Byte>)
    ensures a + (b + c) == a + b + c
  {}

  lemma NextBlock(i: nat, size: nat, ell: nat, outLen: nat, pos: nat)
    requires 1 <= i < ell && AtBlock(pos, i, size, ell, outLen)
    ensures AtBlock(pos + size, i + 1, size, ell, outLen) && pos + size < outLen
  {
    assert (i - 1) * size == i * size - size;
    assert size * (ell - i - 1) == size * (ell - i) - size;
    MulLe(size, 0, ell - i - 1);
  }

  /** The last block, cut to the output length. */
  lemma LastBlock(d: Digest, dst: seq<Byte>, b0: seq<Byte>, ell: nat, outLen: nat, pos: nat)
    requires IsDigest(d) && |b0| == d.outputSize && ell >= 1 && AtBlock(pos, ell, d.outputSize, ell, outLen)
    requires outLen <= ell * d.outputSize
    ensures outLen - pos <= d.outputSize
    ensures Uniform(d, dst, b0, ell)[..outLen] == Uniform(d, dst, b0, ell - 1) + Block(d, dst, b0, ell)[..outLen - pos]
  {
    assert (ell - 1) * d.outputSize == ell * d.outputSize - d.outputSize;
  }
}
