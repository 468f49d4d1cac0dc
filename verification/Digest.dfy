/** Streaming and one-shot Merkle-Damgard digests, and HMAC, over an uninterpreted compression function. */
module Digest {

  type Byte = x: int | 0 <= x < 256

  const U64 := 0x1_0000_0000_0000_0000

  /** A digest algorithm: its start value, its block function, its output encoding, and the byte order of the length. */
  datatype Algorithm<!H> = Algorithm(iv: H, compress: (H, seq<Byte>) -> H, output: H -> seq<Byte>, bigEndian: bool)

  /** Compressing whole blocks in order. */
  function Blocks<H>(alg: Algorithm<H>, m: seq<Byte>): H
    requires |m| % 64 == 0
  {
    if |m| == 0 then alg.iv
    else alg.compress(Blocks(alg, m[..|m| - 64]), m[|m| - 64..])
  }

  /** The same from the front: each block in turn goes into the state, beginning with the start value. */
  function FromLeft<H>(alg: Algorithm<H>, h: H, m: seq<Byte>): H
    requires |m| % 64 == 0
  {
    if m == [] then h else FromLeft(alg, alg.compress(h, m[..64]), m[64..])
  }

  lemma {:induction false} BlocksFromLeft<H>(alg: Algorithm<H>, front: seq<Byte>, rest: seq<Byte>)
    requires |front| % 64 == 0 && |rest| % 64 == 0
    ensures Blocks(alg, front + rest) == FromLeft(alg, Blocks(alg, front), rest)
    decreases |rest|
  {
    if rest == [] {
      assert front + rest == front;
    } else {
      BlocksPush(alg, front, rest[..64]);
      BlocksFromLeft(alg, front + rest[..64], rest[64..]);
      assert front + rest[..64] + rest[64..] == front + rest;
    }
  }

  /** The digest: the padded message's blocks, first to last, from the start value, and the output of the end state. */
  lemma HashIs<H>(alg: Algorithm<H>, m: seq<Byte>)
    ensures Hash(alg, m) == alg.output(FromLeft(alg, alg.iv, Pad(m, alg.bigEndian)))
  {
    BlocksNone(alg);
    BlocksFromLeft(alg, [], Pad(m, alg.bigEndian));
    assert [] + Pad(m, alg.bigEndian) == Pad(m, alg.bigEndian);
  }

  function ZeroBytes(n: nat): (z: seq<Byte>)
    ensures |z| == n
  {
    seq(n, _ => 0)
  }

  /** How many zero bytes follow the 0x80. */
  function PadCount(n: nat): (z: nat)
    ensures z < 64 && (n + 1 + z) % 64 == 56
  {
    (119 - n % 64) % 64
  }

  /** Section 5.1.1 of FIPS 180-4 asks for the least number of zeros. */
  lemma PadCountLeast(n: nat, z: nat)
    requires (n + 1 + z) % 64 == 56
    ensures PadCount(n) <= z
  {
  }

  function Pow256(i: nat): (p: nat)
    ensures p > 0
  {
    if i == 0 then 1 else 256 * Pow256(i - 1)
  }

  /** Byte i of a 64-bit number, byte 0 the lowest. */
  function ByteOf(x: nat, i: nat): Byte {
    if i == 0 then x % 256 else ByteOf(x / 256, i - 1)
  }

  /** The eight length bytes, highest first or lowest first. */
  function LengthBytes(bits: nat, bigEndian: bool): (b: seq<Byte>)
    ensures |b| == 8
  {
    seq(8, i requires 0 <= i < 8 => ByteOf(bits, if bigEndian then 7 - i else i))
  }

  /** The padded message: 0x80, zeros up to 56 modulo 64, and the bit length modulo 2^64. */
  function Pad(m: seq<Byte>, bigEndian: bool): (p: seq<Byte>)
    ensures |p| % 64 == 0
  {
    m + [0x80] + ZeroBytes(PadCount(|m|)) + LengthBytes(|m| * 8 % U64, bigEndian)
  }

  /** The digest of a message. */
  function Hash<H>(alg: Algorithm<H>, m: seq<Byte>): seq<Byte> {
    alg.output(Blocks(alg, Pad(m, alg.bigEndian)))
  }

  lemma BlocksNone<H>(alg: Algorithm<H>)
    ensures Blocks(alg, []) == alg.iv
  {
  }

  /** One more block. */
  lemma BlocksPush<H>(alg: Algorithm<H>, m: seq<Byte>, b: seq<Byte>)
    requires |m| % 64 == 0 && |b| == 64
    ensures Blocks(alg, m + b) == alg.compress(Blocks(alg, m), b)
  {
    assert (m + b)[..|m|] == m && (m + b)[|m|..] == b;
  }

  // ---- the padding tells messages apart ----

  lemma {:induction false} BytesDecide(x: nat, y: nat, k: nat)
    requires forall i :: 0 <= i < k ==> ByteOf(x, i) == ByteOf(y, i)
    requires x < Pow256(k) && y < Pow256(k)
    ensures x == y
  {
    if k != 0 {
      assert ByteOf(x, 0) == ByteOf(y, 0);
      forall i | 0 <= i < k - 1 ensures ByteOf(x / 256, i) == ByteOf(y / 256, i) {
        assert ByteOf(x, i + 1) == ByteOf(y, i + 1);
      }
      BytesDecide(x / 256, y / 256, k - 1);
    }
  }

  lemma SixtyFour()
    ensures Pow256(8) == U64
  {
    assert Pow256(4) == 0x1_0000_0000;
    assert Pow256(8) == 256 * (256 * (256 * (256 * Pow256(4))));
  }

  lemma LengthBytesInjective(x: nat, y: nat, bigEndian: bool)
    requires x < U64 && y < U64 && LengthBytes(x, bigEndian) == LengthBytes(y, bigEndian)
    ensures x == y
  {
    var a, b := LengthBytes(x, bigEndian), LengthBytes(y, bigEndian);
    forall i | 0 <= i < 8 ensures ByteOf(x, i) == ByteOf(y, i) {
      var k := if bigEndian then 7 - i else i;
      assert a[k] == b[k];
    }
    SixtyFour();
    BytesDecide(x, y, 8);
  }

  function Quad(a: int, b: int, c: int, d: int): int {
    ((a * 256 + b) * 256 + c) * 256 + d
  }

  /** Eight bytes, highest first, as a number. */
  function Word64(b: seq<Byte>): int
    requires |b| == 8
  {
    Quad(b[0], b[1], b[2], b[3]) * 0x1_0000_0000 + Quad(b[4], b[5], b[6], b[7])
  }

  function Backwards(b: seq<Byte>): seq<Byte>
    requires |b| == 8
  {
    [b[7], b[6], b[5], b[4], b[3], b[2], b[1], b[0]]
  }

  lemma ByteStep(x: nat, i: nat)
    ensures ByteOf(x, 0) == x % 256 && ByteOf(x, i + 1) == ByteOf(x / 256, i) && x == x / 256 * 256 + x % 256
  {
  }

  /** The bytes of a number below 2^64 make it up. */
  lemma BytesMakeUp(x: nat)
    requires x < U64
    ensures Word64([ByteOf(x, 7), ByteOf(x, 6), ByteOf(x, 5), ByteOf(x, 4),
                    ByteOf(x, 3), ByteOf(x, 2), ByteOf(x, 1), ByteOf(x, 0)]) == x
  {
    var y := x / 256 / 256 / 256 / 256;
    Bytes4(x, y);
    Bytes4(y, 0);
    FourMore(x);
    hide ByteOf, Quad;
    assert ByteOf(x, 0 + 4) == ByteOf(y, 0) && ByteOf(x, 1 + 4) == ByteOf(y, 1);
    assert ByteOf(x, 2 + 4) == ByteOf(y, 2) && ByteOf(x, 3 + 4) == ByteOf(y, 3);
  }

  /** The lower four bytes and what is left. */
  lemma Bytes4(x: nat, y: nat)
    requires y == x / 256 / 256 / 256 / 256
    ensures x == y * 0x1_0000_0000 + Quad(ByteOf(x, 3), ByteOf(x, 2), ByteOf(x, 1), ByteOf(x, 0))
  {
    hide ByteOf;
    var x1 := x / 256;
    var x2 := x1 / 256;
    var x3 := x2 / 256;
    ByteStep(x, 0);
    ByteStep(x, 1);
    ByteStep(x, 2);
    ByteStep(x1, 0);
    ByteStep(x1, 1);
    ByteStep(x2, 0);
    ByteStep(x3, 0);
  }

  lemma FourMore(x: nat)
    ensures forall i: nat :: i < 4 ==> ByteOf(x, i + 4) == ByteOf(x / 256 / 256 / 256 / 256, i)
  {
    forall i: nat | i < 4 ensures ByteOf(x, i + 4) == ByteOf(x / 256 / 256 / 256 / 256, i) {
      ByteStep(x, i + 3);
      ByteStep(x / 256, i + 2);
      ByteStep(x / 256 / 256, i + 1);
      ByteStep(x / 256 / 256 / 256, i);
    }
  }

  /**
   * The padded message, byte by byte: the message, 0x80, fewer than 64 zeros, and in the last eight bytes the
   * bit length modulo 2^64, highest byte first or lowest byte first.
   */
  lemma PadLayout(m: seq<Byte>, bigEndian: bool)
    ensures var p := Pad(m, bigEndian);
            && |p| % 64 == 0 && |m| + 9 <= |p| < |m| + 73 && p[..|m|] == m && p[|m|] == 0x80
            && (forall i :: |m| < i < |p| - 8 ==> p[i] == 0)
            && Word64(if bigEndian then p[|p| - 8..] else Backwards(p[|p| - 8..]))
               == |m| * 8 % 0x1_0000_0000_0000_0000
  {
    var bits := |m| * 8 % U64;
    var p := Pad(m, bigEndian);
    BytesMakeUp(bits);
    LengthIs(bits, bigEndian);
    hide PadCount, LengthBytes, ByteOf;
    assert p[|p| - 8..] == LengthBytes(bits, bigEndian);
  }

  lemma LengthIs(bits: nat, bigEndian: bool)
    ensures var b := LengthBytes(bits, bigEndian);
            (if bigEndian then b else Backwards(b))
            == [ByteOf(bits, 7), ByteOf(bits, 6), ByteOf(bits, 5), ByteOf(bits, 4),
                ByteOf(bits, 3), ByteOf(bits, 2), ByteOf(bits, 1), ByteOf(bits, 0)]
  {
    hide ByteOf;
  }

  /** Different messages of less than 2^61 bytes never pad to the same blocks. */
  lemma PadInjective(m: seq<Byte>, n: seq<Byte>, bigEndian: bool)
    requires Pad(m, bigEndian) == Pad(n, bigEndian) && |m| * 8 < U64 && |n| * 8 < U64
    ensures m == n
  {
    var p, q := Pad(m, bigEndian), Pad(n, bigEndian);
    hide PadCount, LengthBytes;
    assert p[|p| - 8..] == LengthBytes(|m| * 8 % U64, bigEndian);
    assert q[|q| - 8..] == LengthBytes(|n| * 8 % U64, bigEndian);
    LengthBytesInjective(|m| * 8, |n| * 8, bigEndian);
    assert p[..|m|] == m && q[..|n|] == n;
  }

  // ---- whole blocks and the rest ----

  function Whole(m: seq<Byte>): (w: seq<Byte>)
    ensures |w| % 64 == 0
  {
    m[..|m| - |m| % 64]
  }

  function Rest(m: seq<Byte>): (r: seq<Byte>)
    ensures |r| == |m| % 64
  {
    m[|m| - |m| % 64..]
  }

  lemma AppendBlock(m: seq<Byte>, d: seq<Byte>)
    requires Rest(m) == [] && |d| == 64
    ensures Rest(m + d) == [] && Whole(m + d) == Whole(m) + d
  {
    assert m == Whole(m);
  }

  lemma AppendRest(m: seq<Byte>, d: seq<Byte>)
    requires |Rest(m)| + |d| <= 64
    ensures |Rest(m)| + |d| < 64 ==> Rest(m + d) == Rest(m) + d && Whole(m + d) == Whole(m)
    ensures |Rest(m)| + |d| == 64 ==> Rest(m + d) == [] && Whole(m + d) == Whole(m) + (Rest(m) + d)
  {
    assert m == Whole(m) + Rest(m);
  }

  lemma NoRest(m: seq<Byte>)
    requires |m| % 64 == 0
    ensures Rest(m) == [] && Whole(m) == m
  {
  }

  lemma LengthAdds(len: nat, n: nat, d: nat)
    requires len == n % U64
    ensures (len + d) % U64 == (n + d) % U64
  {
  }

  // ---- the streaming context ----

  lemma TakeMore(f: seq<Byte>, data: seq<Byte>, i: nat, take: nat)
    requires i + take <= |data|
    ensures f + data[..i] + data[i..i + take] == f + data[..i + take]
  {
    assert data[..i + take] == data[..i] + data[i..i + take];
  }

  class Context<!H> {
    const alg: Algorithm<H>
    var h: H
    var len: nat
    var bl: nat
    const buf: array<Byte>
    ghost var fed: seq<Byte>         // everything fed since reset

    /** The buffer holds what does not fill a block, the state has absorbed the rest. */
    ghost predicate Buffered()
      reads this`h, this`bl, this`fed, buf
    {
      && buf.Length == 64 && bl == |Rest(fed)| && buf[..bl] == Rest(fed)
      && h == Blocks(alg, Whole(fed))
    }

    ghost predicate Valid()
      reads this, buf
    {
      Buffered() && len == |fed| % U64
    }

    constructor (alg: Algorithm<H>)
      ensures Valid() && fed == [] && fresh(buf) && buf.Length == 64 && this.alg == alg
    {
      this.alg := alg;
      h := alg.iv;
      len := 0;
      bl := 0;
      buf := new Byte[64](_ => 0);
      fed := [];
    }

    method Reset()
      requires buf.Length == 64
      modifies this
      ensures Valid() && fed == []
    {
      hide Blocks, Whole, Rest;
      h := alg.iv;
      len := 0;
      bl := 0;
      fed := [];
      NoRest(fed);
      BlocksNone(alg);
      assert buf[..0] == [];
    }

    lemma BufferRoom()
      requires Buffered()
      ensures bl < 64
    {
      hide Blocks, Whole;
    }

    /** Whole blocks go straight to the block function while the buffer is empty; the rest is buffered. */
    method Feed(data: seq<Byte>)
      requires Valid()
      modifies this, buf
      ensures Valid() && fed == old(fed) + data
    {
      hide Blocks, Whole, Rest, Buffered;
      ghost var f0 := fed;
      LengthAdds(len, |f0|, |data|);
      len := (len + |data|) % U64;
      var i := 0;
      assert fed == f0 + data[..0];
      while i < |data|
        invariant 0 <= i <= |data| && Buffered()
        invariant fed == f0 + data[..i]
        invariant len == (|f0| + |data|) % U64
        decreases |data| - i
      {
        BufferRoom();
        var take := 64;
        if bl == 0 && |data| - i >= 64 {
          TakeBlock(data[i..i + 64]);
        } else {
          take := if 64 - bl > |data| - i then |data| - i else 64 - bl;
          TakeBytes(data[i..i + take]);
        }
        TakeMore(f0, data, i, take);
        i := i + take;
      }
      assert data[..i] == data;
    }

    method TakeBlock(d: seq<Byte>)
      requires Buffered() && bl == 0 && |d| == 64
      modifies this`h, this`fed
      ensures Buffered() && fed == old(fed) + d
    {
      hide Blocks, Whole, Rest;
      AppendBlock(fed, d);
      BlocksPush(alg, Whole(fed), d);
      h := alg.compress(h, d);
      fed := fed + d;
      assert buf[..0] == [];
    }

    /** Copy into the buffer, and compress it when it is full. */
    method TakeBytes(d: seq<Byte>)
      requires Buffered() && 0 < |d| <= 64 - bl
      modifies this`h, this`bl, this`fed, buf
      ensures Buffered() && fed == old(fed) + d
    {
      hide Blocks, Whole, Rest;
      ghost var b0 := buf[..bl];
      var k := 0;
      while k < |d|
        invariant 0 <= k <= |d| && bl == old(bl) && fed == old(fed) && h == old(h)
        invariant buf[..bl + k] == b0 + d[..k]
      {
        buf[bl + k] := d[k];
        k := k + 1;
        assert d[..k] == d[..k - 1] + [d[k - 1]];
      }
      assert d[..k] == d;
      AppendRest(fed, d);
      bl := bl + |d|;
      if bl == 64 {
        assert buf[..64] == buf[..];
        BlocksPush(alg, Whole(fed), buf[..]);
        h := alg.compress(h, buf[..]);
        bl := 0;
        assert buf[..0] == [];
      }
      fed := fed + d;
    }

    /** Pad, feed the length and read the state out: the digest of everything fed. */
    method Done() returns (out: seq<Byte>)
      requires Valid()
      modifies this, buf
      ensures out == Hash(alg, old(fed))
    {
      hide Blocks, Whole, Rest, PadCount, LengthBytes;
      ghost var m := fed;
      var bits := len * 8 % U64;
      LengthWraps(|m|);
      Feed([0x80]);
      ghost var z := 0;
      assert fed == m + [0x80] + ZeroBytes(0);
      while bl != 56
        invariant Valid() && 0 <= z <= PadCount(|m|)
        invariant fed == m + [0x80] + ZeroBytes(z)
        decreases PadCount(|m|) - z
      {
        RestSize(fed);
        NotYet(|m|, z);
        Feed([0]);
        z := z + 1;
        assert ZeroBytes(z - 1) + [0] == ZeroBytes(z);
      }
      RestSize(fed);
      Reached(|m|, z);
      Feed(LengthBytes(bits, alg.bigEndian));
      assert fed == Pad(m, alg.bigEndian);
      NoRest(fed);
      out := alg.output(h);
    }
  }

  lemma RestSize(m: seq<Byte>)
    ensures |Rest(m)| == |m| % 64
  {
  }

  lemma LengthWraps(n: nat)
    ensures n % U64 * 8 % U64 == n * 8 % U64
  {
    var q, r := n / U64, n % U64;
    assert n * 8 == (q * 8) * U64 + r * 8;
  }

  /** Before the last zero the buffer does not stand at 56. */
  lemma NotYet(n: nat, z: nat)
    requires z <= PadCount(n) && (n + 1 + z) % 64 != 56
    ensures z < PadCount(n)
  {
  }

  lemma Reached(n: nat, z: nat)
    requires z <= PadCount(n) && (n + 1 + z) % 64 == 56
    ensures z == PadCount(n)
  {
  }

  /** However a message is cut into chunks, the streaming digest is the digest of the whole. */
  method Stream<H>(alg: Algorithm<H>, chunks: seq<seq<Byte>>) returns (out: seq<Byte>)
    ensures out == Hash(alg, Joined(chunks))
  {
    var x := new Context(alg);
    var i := 0;
    while i < |chunks|
      invariant 0 <= i <= |chunks| && x.Valid() && x.alg == alg && fresh(x) && fresh(x.buf)
      invariant x.fed == Joined(chunks[..i])
    {
      x.Feed(chunks[i]);
      assert chunks[..i + 1][..i] == chunks[..i];
      i := i + 1;
    }
    assert chunks[..i] == chunks;
    out := x.Done();
  }

  function Joined(chunks: seq<seq<Byte>>): seq<Byte> {
    if chunks == [] then [] else Joined(chunks[..|chunks| - 1]) + chunks[|chunks| - 1]
  }

  // ---- one shot ----

  /** sha256 of runtime_core.zan: full blocks from the message, then one or two padded ones. */
  method OneShot<H>(alg: Algorithm<H>, data: seq<Byte>) returns (out: seq<Byte>)
    requires alg.bigEndian
    ensures out == Hash(alg, data)
  {
    hide Blocks, ByteOf, PadCount;
    var h, off := FullBlocks(alg, data);
    ghost var done := data[..off];
    var blk := new Byte[64](_ => 0);
    var t := |data| - off;
    LastBytes(blk, data, off);
    if t + 1 > 56 {
      BlocksPush(alg, done, blk[..]);
      h := alg.compress(h, blk[..]);
      done := done + blk[..];
      forall j | 0 <= j < 64 { blk[j] := 0; }
    }
    ghost var head := blk[..56];
    WriteLength(blk, |data| * 8 % U64);
    BlocksPush(alg, done, blk[..]);
    h := alg.compress(h, blk[..]);
    LastBlocks(data, off, done, head, blk[..]);
    out := alg.output(h);
  }

  /** zan_sha256 of zanstubs.c: the same blocks from an uncleared buffer, cleared around the tail only. */
  method OneShotUncleared<H>(alg: Algorithm<H>, data: seq<Byte>) returns (out: seq<Byte>)
    requires alg.bigEndian
    ensures out == Hash(alg, data)
  {
    hide Blocks, ByteOf, PadCount, LengthBytes, LastHead;
    var h, off := FullBlocks(alg, data);
    var block := new Byte[64];
    ghost var done;
    h, done := TailBlock(alg, data, off, h, block);
    ghost var head := block[..56];
    WriteLength(block, |data| * 8 % U64);
    BlocksPush(alg, done, block[..]);
    h := alg.compress(h, block[..]);
    LastBlocks(data, off, done, head, block[..]);
    out := alg.output(h);
  }

  /** The tail and its 0x80, compressed at once when the length does not fit behind it. */
  method TailBlock<H>(alg: Algorithm<H>, data: seq<Byte>, off: nat, h0: H, block: array<Byte>)
    returns (h: H, ghost done: seq<Byte>)
    requires block.Length == 64 && off <= |data| && off % 64 == 0 && |data| - off < 64
    requires h0 == Blocks(alg, data[..off])
    modifies block
    ensures |done| % 64 == 0 && h == Blocks(alg, done) && LastHead(data, off, done, block[..56])
  {
    hide Blocks;
    h, done := h0, data[..off];
    var tail := |data| - off;
    CopyTail(block, data, off);
    block[tail] := 0x80;
    ghost var start := data[off..] + [0x80];
    assert block[..tail + 1] == start;
    if tail + 1 > 56 {
      ClearBytes(block, tail + 1, 64 - tail - 1);
      assert block[..] == start + ZeroBytes(63 - tail);
      BlocksPush(alg, done, block[..]);
      h := alg.compress(h, block[..]);
      done := done + block[..];
      ClearBytes(block, 0, 56);
      assert block[..56] == ZeroBytes(56);
    } else {
      ClearBytes(block, tail + 1, 56 - tail - 1);
      assert block[..56] == start + ZeroBytes(55 - tail);
      assert (start + ZeroBytes(63 - tail))[..56] == start + ZeroBytes(55 - tail);
    }
  }

  method ClearBytes(block: array<Byte>, lo: nat, n: nat)
    requires lo + n <= block.Length
    modifies block
    ensures block[..] == old(block[..lo]) + ZeroBytes(n) + old(block[lo + n..])
  {
    var i := 0;
    while i < n
      invariant 0 <= i <= n
      invariant block[..lo] == old(block[..lo]) && block[lo + n..] == old(block[lo + n..])
      invariant forall j :: lo <= j < lo + i ==> block[j] == 0
    {
      block[lo + i] := 0;
      i := i + 1;
    }
    assert block[lo..lo + n] == ZeroBytes(n);
    assert block[..] == block[..lo] + block[lo..lo + n] + block[lo + n..];
  }

  method CopyTail(block: array<Byte>, data: seq<Byte>, off: nat)
    requires block.Length == 64 && off <= |data| && |data| - off < 64
    modifies block
    ensures block[..|data| - off] == data[off..]
  {
    var k := 0;
    while k < |data| - off
      invariant 0 <= k <= |data| - off
      invariant block[..k] == data[off..off + k]
    {
      block[k] := data[off + k];
      k := k + 1;
    }
  }

  /** The loop over the blocks the message fills. */
  method FullBlocks<H>(alg: Algorithm<H>, data: seq<Byte>) returns (h: H, off: nat)
    ensures off <= |data| && off % 64 == 0 && |data| - off < 64 && h == Blocks(alg, data[..off])
  {
    h := alg.iv;
    off := 0;
    while off + 64 <= |data|
      invariant 0 <= off <= |data| && off % 64 == 0
      invariant h == Blocks(alg, data[..off])
    {
      BlocksPush(alg, data[..off], data[off..off + 64]);
      assert data[..off + 64] == data[..off] + data[off..off + 64];
      h := alg.compress(h, data[off..off + 64]);
      off := off + 64;
    }
  }

  /** The tail of the message and the 0x80 after it, in a cleared block. */
  method LastBytes(blk: array<Byte>, data: seq<Byte>, off: nat)
    requires blk.Length == 64 && off <= |data| && |data| - off < 64
    requires forall j :: 0 <= j < 64 ==> blk[j] == 0
    modifies blk
    ensures blk[..] == data[off..] + [0x80] + ZeroBytes(63 - (|data| - off))
  {
    var t := |data| - off;
    var k := 0;
    while k < t
      invariant 0 <= k <= t
      invariant blk[..k] == data[off..off + k]
      invariant forall j :: k <= j < 64 ==> blk[j] == 0
    {
      blk[k] := data[off + k];
      k := k + 1;
    }
    blk[t] := 0x80;
    assert blk[..t] == data[off..];
  }

  method WriteLength(blk: array<Byte>, bits: nat)
    requires blk.Length == 64
    modifies blk
    ensures blk[..] == old(blk[..56]) + LengthBytes(bits, true)
  {
    hide ByteOf;
    ghost var head := blk[..56];
    var i := 0;
    while i < 8
      invariant 0 <= i <= 8
      invariant blk[..56] == head
      invariant forall j :: 0 <= j < i ==> blk[56 + j] == LengthBytes(bits, true)[j]
    {
      blk[56 + i] := ByteOf(bits, 7 - i);
      i := i + 1;
    }
    assert forall j :: 56 <= j < 64 ==> blk[j] == LengthBytes(bits, true)[j - 56];
  }

  /** What has been compressed, and the first 56 bytes of the last block. */
  predicate LastHead(data: seq<Byte>, off: nat, done: seq<Byte>, head: seq<Byte>)
    requires off <= |data| && |data| - off < 64
  {
    var t := |data| - off;
    if t + 1 > 56 then done == data[..off] + (data[off..] + [0x80] + ZeroBytes(63 - t)) && head == ZeroBytes(56)
    else done == data[..off] && head == (data[off..] + [0x80] + ZeroBytes(63 - t))[..56]
  }

  /** The blocks the one-shot digest compresses are those of the padded message. */
  lemma LastBlocks(data: seq<Byte>, off: nat, done: seq<Byte>, head: seq<Byte>, last: seq<Byte>)
    requires off <= |data| && off % 64 == 0 && |data| - off < 64
    requires LastHead(data, off, done, head)
    requires last == head + LengthBytes(|data| * 8 % U64, true)
    ensures done + last == Pad(data, true)
  {
    var t := |data| - off;
    TailCount(|data|, off);
    assert data == data[..off] + data[off..];
    hide PadCount, LengthBytes;
    if t + 1 > 56 {
      TwoBlocks(data[..off], data[off..], LengthBytes(|data| * 8 % U64, true));
    } else {
      OneBlock(data[..off], data[off..], LengthBytes(|data| * 8 % U64, true));
    }
  }

  lemma TailCount(n: nat, off: nat)
    requires off <= n && off % 64 == 0 && n - off < 64
    ensures PadCount(n) == (if n - off + 1 > 56 then 119 else 55) - (n - off)
  {
  }

  lemma TwoBlocks(front: seq<Byte>, tail: seq<Byte>, length: seq<Byte>)
    requires |tail| < 64
    ensures front + (tail + [0x80] + ZeroBytes(63 - |tail|)) + (ZeroBytes(56) + length)
         == front + tail + [0x80] + ZeroBytes(119 - |tail|) + length
  {
    assert ZeroBytes(63 - |tail|) + ZeroBytes(56) == ZeroBytes(119 - |tail|);
  }

  lemma OneBlock(front: seq<Byte>, tail: seq<Byte>, length: seq<Byte>)
    requires |tail| < 56
    ensures front + ((tail + [0x80] + ZeroBytes(63 - |tail|))[..56] + length)
         == front + tail + [0x80] + ZeroBytes(55 - |tail|) + length
  {
    assert (tail + [0x80] + ZeroBytes(63 - |tail|))[..56] == tail + [0x80] + ZeroBytes(55 - |tail|);
  }

  // ---- HMAC ----

  function Xor(x: Byte, y: Byte): Byte {
    ((x as bv8) ^ (y as bv8)) as Byte
  }

  function Masked(k: seq<Byte>, y: Byte): (r: seq<Byte>)
    ensures |r| == |k|
  {
    seq(|k|, i requires 0 <= i < |k| => Xor(k[i], y))
  }

  /** The key hashed when longer than a block, then zero-filled to one. */
  function BlockKey<H>(alg: Algorithm<H>, key: seq<Byte>): seq<Byte> {
    var k := if |key| > 64 then Hash(alg, key) else key;
    if |k| <= 64 then k + ZeroBytes(64 - |k|) else k[..64]
  }

  /** Section 2 of RFC 2104. */
  function Hmac<H>(alg: Algorithm<H>, key: seq<Byte>, data: seq<Byte>): seq<Byte> {
    var k := BlockKey(alg, key);
    Hash(alg, Masked(k, 0x5c) + Hash(alg, Masked(k, 0x36) + data))
  }

  /** r is k with every byte flipped where y has a one. */
  predicate Flipped(r: seq<Byte>, k: seq<Byte>, y: Byte) {
    |r| == |k| && forall i :: 0 <= i < |r| ==> r[i] as bv8 == (k[i] as bv8) ^ (y as bv8)
  }

  lemma MaskFlips(k: seq<Byte>, y: Byte)
    ensures Flipped(Masked(k, y), k, y)
  {
    hide Xor;
    forall i | 0 <= i < |k| ensures Masked(k, y)[i] as bv8 == (k[i] as bv8) ^ (y as bv8) {
      XorBits(k[i], y);
    }
  }

  lemma XorBits(x: Byte, y: Byte)
    ensures Xor(x, y) as bv8 == (x as bv8) ^ (y as bv8)
  {
    BackToBits((x as bv8) ^ (y as bv8));
  }

  lemma BackToBits(c: bv8)
    ensures (c as Byte) as bv8 == c
  {
  }

  /**
   * The HMAC spelled out: the key, or its digest when it is longer than 64 bytes, filled up with zeros to 64; the
   * inner digest goes over that key xor 0x36 and the data, the outer one over the key xor 0x5c and the inner.
   */
  lemma HmacParts<H(!new)>(alg: Algorithm<H>, key: seq<Byte>, data: seq<Byte>)
    returns (k: seq<Byte>, inner: seq<Byte>, outer: seq<Byte>)
    requires ShortOutput(alg)
    ensures Hmac(alg, key, data) == Hash(alg, outer + Hash(alg, inner + data))
    ensures |k| == 64 && Flipped(inner, k, 0x36) && Flipped(outer, k, 0x5c)
    ensures var base := if |key| > 64 then Hash(alg, key) else key;
            |base| <= 64 && k[..|base|] == base && forall i :: |base| <= i < 64 ==> k[i] == 0
  {
    HashShort(alg, key);
    hide Hash, Masked, Flipped;
    k := BlockKey(alg, key);
    inner, outer := Masked(k, 0x36), Masked(k, 0x5c);
    MaskFlips(k, 0x36);
    MaskFlips(k, 0x5c);
  }

  /** The algorithm's output fits the key block. */
  ghost predicate ShortOutput<H(!new)>(alg: Algorithm<H>) {
    forall h: H :: |alg.output(h)| <= 64
  }

  lemma HashShort<H(!new)>(alg: Algorithm<H>, m: seq<Byte>)
    requires ShortOutput(alg)
    ensures |Hash(alg, m)| <= 64
  {
  }

  /** CCHmac: one context, reset between the inner and the outer digest. */
  method StreamingHmac<H(!new)>(alg: Algorithm<H>, key: seq<Byte>, data: seq<Byte>) returns (mac: seq<Byte>)
    requires ShortOutput(alg)
    ensures mac == Hmac(alg, key, data)
  {
    hide Hash, Masked, Blocks, Whole, Rest, BlockKey, Xor, Pad, Context.Buffered;
    var k0 := PadKey(alg, key);
    var ipad, opad := MaskKeys(k0);
    var x := new Context(alg);
    x.Feed(ipad);
    x.Feed(data);
    assert x.fed == ipad + data;
    var inner := x.Done();
    x.Reset();
    x.Feed(opad);
    x.Feed(inner);
    assert x.fed == opad + inner;
    mac := x.Done();
  }

  /** memset, then the key or its digest. */
  method PadKey<H(!new)>(alg: Algorithm<H>, key: seq<Byte>) returns (k0: seq<Byte>)
    requires ShortOutput(alg)
    ensures k0 == BlockKey(alg, key) && |k0| == 64
  {
    var k := key;
    if |key| > 64 {
      k := Stream(alg, [key]);
      assert Joined([key]) == key by {
        assert [key][..0] == [];
      }
    }
    var b := new Byte[64](_ => 0);
    var i := 0;
    while i < |k|
      invariant 0 <= i <= |k| <= 64
      invariant b[..i] == k[..i]
      invariant forall j :: i <= j < 64 ==> b[j] == 0
    {
      b[i] := k[i];
      i := i + 1;
    }
    k0 := b[..];
    assert k0 == k + ZeroBytes(64 - |k|);
  }

  method MaskKeys(k0: seq<Byte>) returns (ipad: seq<Byte>, opad: seq<Byte>)
    requires |k0| == 64
    ensures ipad == Masked(k0, 0x36) && opad == Masked(k0, 0x5c)
  {
    var a := new Byte[64](_ => 0);
    var b := new Byte[64](_ => 0);
    var i := 0;
    while i < 64
      invariant 0 <= i <= 64
      invariant forall j :: 0 <= j < i ==> a[j] == Xor(k0[j], 0x36) && b[j] == Xor(k0[j], 0x5c)
    {
      a[i] := Xor(k0[i], 0x36);
      b[i] := Xor(k0[i], 0x5c);
      i := i + 1;
    }
    return a[..], b[..];
  }

  /** hmac_sha256: the same from two one-shot digests over concatenations. */
  method OneShotHmac<H(!new)>(alg: Algorithm<H>, key: seq<Byte>, data: seq<Byte>) returns (mac: seq<Byte>)
    requires ShortOutput(alg) && alg.bigEndian
    ensures mac == Hmac(alg, key, data)
  {
    hide Hash, Masked;
    HashShort(alg, key);
    var k := key;
    if |key| > 64 {
      k := OneShot(alg, key);
    }
    var k0 := k + ZeroBytes(64 - |k|);
    var ipad, opad := MaskKeys(k0);
    var inner := OneShot(alg, ipad + data);
    mac := OneShot(alg, opad + inner);
  }
}
