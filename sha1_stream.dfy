/** The SHA-1 context of src/realtime_file_monitor.cc: a hash value, a
    64-bit count of the bits absorbed (two 32-bit halves) and a 64-octet
    buffer for the incomplete block. Init, Update and Final are proved to
    compute Sha1.Hash of everything absorbed. */
module Sha1Stream {
  import opened Bytes
  import opened Sha1
  import OneShotSha1

  /** The five words of a state array as hash words. */
  function VarsOf(s: seq<word>): Vars
    requires |s| == 5
  {
    Vars(s[0], s[1], s[2], s[3], s[4])
  }

  /** Sha1Transform: one block compressed into state[0..5]. The schedule
      and the 80 rounds are the same loops as in ComputeSHA1Hash. */
  method Sha1Transform(state: array<word>, block: seq<byte>)
    requires state.Length == 5 && |block| == 64
    modifies state
    ensures VarsOf(state[..]) == Compress(VarsOf(old(state[..])), block)
  {
    var w := OneShotSha1.ScheduleChunk(block);
    var a, b, c, d, e := OneShotSha1.RunRounds(state[0], state[1], state[2], state[3], state[4], w);
    state[0] := Add32(state[0], a);
    state[1] := Add32(state[1], b);
    state[2] := Add32(state[2], c);
    state[3] := Add32(state[3], d);
    state[4] := Add32(state[4], e);
  }

  /** memcpy of src into dst at offset at. */
  method CopyInto(dst: array<byte>, at: nat, src: seq<byte>)
    requires at + |src| <= dst.Length
    modifies dst
    ensures dst[..] == old(dst[..at]) + src + old(dst[at + |src|..])
  {
    forall k | 0 <= k < |src| {
      dst[at + k] := src[k];
    }
  }

  class Sha1Ctx {
    const state: array<word>
    /** count[0] and count[1]: the low and high words of the bit count. */
    var count0: nat
    var count1: nat
    const buffer: array<byte>
    /** Every octet given to Update since Init. */
    ghost var absorbed: seq<byte>
    /** The number of blocks already compressed into state. */
    ghost var blocks: nat

    /** The state holds the blocks compressed so far, the count is the bit
        length modulo 2^64, and the buffer starts with the octets after the
        last whole block. */
    ghost predicate Valid()
      reads this, state, buffer
    {
      state.Length == 5 && buffer.Length == 64
      && CountIs(count0, count1, |absorbed|)
      && 64 * blocks <= |absorbed| < 64 * blocks + 64
      && VarsOf(state[..]) == ProcessBlocks(H0, absorbed, blocks)
      && buffer[..|absorbed| - 64 * blocks] == absorbed[64 * blocks..]
    }

    /** The declaration `Sha1Ctx ctx;`: storage whose contents Init sets. */
    constructor ()
      ensures state.Length == 5 && buffer.Length == 64
      ensures fresh(state) && fresh(buffer)
    {
      state := new word[5];
      buffer := new byte[64];
    }

    /** Sha1Init: the initial hash value and a zero count. */
    method Init()
      requires state.Length == 5 && buffer.Length == 64
      modifies this, state
      ensures Valid() && absorbed == []
    {
      state[0] := 0x67452301;
      state[1] := 0xEFCDAB89;
      state[2] := 0x98BADCFE;
      state[3] := 0x10325476;
      state[4] := 0xC3D2E1F0;
      count0, count1 := 0, 0;
      absorbed, blocks := [], 0;
      hide Compress;
      assert VarsOf(state[..]) == H0 == ProcessBlocks(H0, absorbed, blocks);
      assert CountIs(count0, count1, |absorbed|);
    }

    /** The count update of Sha1Update: len << 3 is added to count[0] and
        a carry, then len >> 29, to count[1]. */
    method AddBitCount(len: nat, ghost n: nat)
      requires CountIs(count0, count1, n) && len < 0x1_0000_0000
      modifies this
      ensures CountIs(count0, count1, n + len)
      ensures absorbed == old(absorbed) && blocks == old(blocks)
    {
      var lenBits := (len * 8) % 0x1_0000_0000;
      count0 := (count0 + lenBits) % 0x1_0000_0000;
      if count0 < lenBits {
        count1 := (count1 + 1) % 0x1_0000_0000;
      }
      count1 := (count1 + len / 0x2000_0000) % 0x1_0000_0000;
      CountCarry(old(count0), old(count1), len, count0, count1, lenBits);
      BitLengthAdd(n, len);
    }

    /** Sha1Update: fill the buffer; when it is full, compress it and then
        every whole block of the data; keep the rest in the buffer. */
    method Update(data: seq<byte>)
      requires Valid()
      requires |data| + 63 < 0x1_0000_0000
      modifies this, state, buffer
      ensures Valid() && absorbed == old(absorbed) + data
    {
      hide Compress, ProcessBlocks;
      ghost var a := absorbed;
      ghost var b := blocks;
      var len := |data|;
      var j := (count0 / 8) % 64;
      PendingOctets(count0, count1, |a|, b);
      hide CountIs;
      AddBitCount(len, |a|);
      var i: nat;
      // The octets the buffer keeps ahead of the copied data.
      ghost var kept: seq<byte>;
      if j + len > 63 {
        ghost var k;
        i, k := CompressThrough(data, j, a, b);
        j := 0;
        blocks := k;
        kept := [];
        Pending(a, data, k, i);
      } else {
        i := 0;
        kept := a[64 * b..];
        AppendKeepsBlocks(a, data, b);
        assert data[i..] == data;
      }
      KeepRest(data, i, j, a, kept);
    }

    /** The last memcpy of Sha1Update: the data after the compressed
        blocks goes into the buffer after the octets it keeps. */
    method KeepRest(data: seq<byte>, i: nat, j: nat, ghost a: seq<byte>, ghost kept: seq<byte>)
      requires state.Length == 5 && buffer.Length == 64
      requires i <= |data| && |kept| == j <= 64 && buffer[..j] == kept
      requires CountIs(count0, count1, |a + data|)
      requires 64 * blocks <= |a + data| < 64 * blocks + 64
      requires VarsOf(state[..]) == ProcessBlocks(H0, a + data, blocks)
      requires kept + data[i..] == (a + data)[64 * blocks..]
      modifies this, buffer
      ensures Valid() && absorbed == a + data
    {
      hide Compress, ProcessBlocks, CountIs;
      CopyInto(buffer, j, data[i..]);
      CopiedPrefix(buffer[..], kept, data[i..]);
      absorbed := a + data;
    }

    /** The first branch of Sha1Update: the buffer is completed from the
        data and compressed, then every whole block of the data after it. */
    method CompressThrough(data: seq<byte>, j: nat, ghost a: seq<byte>, ghost b: nat)
      returns (i: nat, ghost k: nat)
      requires state.Length == 5 && buffer.Length == 64
      requires |a| == 64 * b + j && j < 64 && j + |data| > 63
      requires VarsOf(state[..]) == ProcessBlocks(H0, a, b) && buffer[..j] == a[64 * b..]
      modifies state, buffer
      ensures 64 - j <= i <= |data| < i + 64 && |a| + i == 64 * k
      ensures VarsOf(state[..]) == ProcessBlocks(H0, a + data, k)
    {
      hide Compress, ProcessBlocks;
      var partLen := 64 - j;
      CopyInto(buffer, j, data[..partLen]);
      FillBlock(a, data, b);
      AppendKeepsBlocks(a, data, b);
      assert buffer[..] == Block(a + data, b);
      Sha1Transform(state, buffer[..]);
      NextBlock(a + data, b);
      i, k := TransformBlocks(data, partLen, a, b + 1);
    }

    /** The block loop of Sha1Update: every whole block of data from
        offset start on is compressed; i stops at the first offset with
        fewer than 64 octets after it. */
    method TransformBlocks(data: seq<byte>, start: nat, ghost a: seq<byte>, ghost k0: nat)
      returns (i: nat, ghost k: nat)
      requires state.Length == 5 && start <= |data| && |a| + start == 64 * k0
      requires VarsOf(state[..]) == ProcessBlocks(H0, a + data, k0)
      modifies state
      ensures start <= i <= |data| < i + 64 && |a| + i == 64 * k
      ensures VarsOf(state[..]) == ProcessBlocks(H0, a + data, k)
    {
      hide Compress, ProcessBlocks;
      i, k := start, k0;
      while i + 63 < |data|
        invariant start <= i <= |data| && |a| + i == 64 * k
        invariant VarsOf(state[..]) == ProcessBlocks(H0, a + data, k)
      {
        DataBlock(a, data, k, i);
        Sha1Transform(state, data[i..i + 64]);
        NextBlock(a + data, k);
        i := i + 64;
        k := k + 1;
      }
    }

    /** Sha1Final: the counts as eight octets, 0x80, zeros until 56 octets
        modulo 64, the eight count octets, and the state words most
        significant octet first. */
    method Final(digest: array<byte>)
      requires Valid() && digest.Length == 20
      modifies this, state, buffer, digest
      ensures digest[..] == Hash(old(absorbed))
      ensures Valid() && absorbed == Pad(old(absorbed))
    {
      ghost var m := absorbed;
      var finalCount := CountOctets();
      Update([0x80]);
      AppendZeros(m);
      Update(finalCount[..]);
      PadLength(m);
      WholeBlocks(|absorbed|, blocks);
      WriteDigest(digest);
    }

    /** final_count: count[1] then count[0], each most significant octet
        first. */
    method CountOctets() returns (finalCount: array<byte>)
      requires Valid()
      ensures fresh(finalCount)
      ensures finalCount[..] == LengthBytes(BitLength(|absorbed|))
    {
      hide ByteOf, LengthBytes, Pow256;
      finalCount := new byte[8];
      CountHalves(count0, count1, BitLength(|absorbed|));
      for i := 0 to 8
        invariant finalCount[..i] == LengthBytes(BitLength(|absorbed|))[..i]
        modifies finalCount
      {
        FinalCountOctet(count0, count1, BitLength(|absorbed|), i);
        finalCount[i] := ByteOf((if i >= 4 then count0 else count1) / Pow256(3 - i % 4) % 256);
      }
      assert finalCount[..] == finalCount[..8];
    }

    /** The loop of Sha1Final that appends zero octets. The test
        (count[0] & 504) != 448 reads bits 3 to 8 of the bit count, that is
        the octet count modulo 64, and compares them with 56. */
    method AppendZeros(ghost m: seq<byte>)
      requires Valid() && absorbed == m + [0x80]
      modifies this, state, buffer
      ensures Valid() && absorbed == m + [0x80] + Zeros(ZeroCount(|m|))
    {
      hide Compress, ProcessBlocks;
      ZeroCountReaches56(|m|);
      ghost var z: nat := 0;
      assert absorbed == m + [0x80] + Zeros(z);
      while (count0 / 8) % 64 != 56
        invariant Valid() && z <= ZeroCount(|m|)
        invariant absorbed == m + [0x80] + Zeros(z)
        decreases ZeroCount(|m|) - z
      {
        PendingOctets(count0, count1, |absorbed|, blocks);
        assert z != ZeroCount(|m|);
        PadZero(m, z);
        z := z + 1;
      }
      PendingOctets(count0, count1, |absorbed|, blocks);
      ZeroCountUnique(|m|, z);
    }

    /** One pass of the zero-padding loop of Sha1Final: one 0x00 octet. */
    method PadZero(ghost m: seq<byte>, ghost z: nat)
      requires Valid() && absorbed == m + [0x80] + Zeros(z)
      modifies this, state, buffer
      ensures Valid() && absorbed == m + [0x80] + Zeros(z + 1)
    {
      hide Compress, ProcessBlocks;
      Update([0x00]);
      ZerosSnoc(m, z);
    }

    /** The output loop of Sha1Final: digest[i] is octet 3 - i % 4 of
        state[i / 4]. */
    method WriteDigest(digest: array<byte>)
      requires state.Length == 5 && digest.Length == 20
      modifies digest
      ensures digest[..] == Digest(VarsOf(state[..]))
    {
      hide Octet, WordBytes, Digest, VarsOf;
      ghost var h := VarsOf(state[..]);
      for i := 0 to 20
        invariant digest[..i] == Digest(h)[..i]
      {
        DigestOctet(state[..], i);
        digest[i] := Octet(state[i / 4], 3 - i % 4);
      }
      assert digest[..] == digest[..20];
    }
  }

  /** Valid fixes a context by the octets it has absorbed alone, so two
      contexts fed the same octets in different Update calls (say
      Update(a); Update(b) against Update(a + b)) hold the same state, the
      same count and the same pending octets. */
  lemma {:induction false} SameAbsorbedSameContext(x: Sha1Ctx, y: Sha1Ctx)
    requires x.Valid() && y.Valid() && x.absorbed == y.absorbed
    ensures x.blocks == y.blocks && x.state[..] == y.state[..]
    ensures x.count0 == y.count0 && x.count1 == y.count1
    ensures x.buffer[..|x.absorbed| - 64 * x.blocks] == y.buffer[..|y.absorbed| - 64 * y.blocks]
  {
    hide Compress, ProcessBlocks;
    assert x.blocks == y.blocks;
    assert VarsOf(x.state[..]) == VarsOf(y.state[..]);
    assert forall i | 0 <= i < 5 :: x.state[..][i] == y.state[..][i];
  }

  /** The words c0 (count[0]) and c1 (count[1]) hold the bit length of n
      octets modulo 2^64. */
  predicate CountIs(c0: nat, c1: nat, n: nat)
  {
    c0 < 0x1_0000_0000 && c1 < 0x1_0000_0000
    && c1 * 0x1_0000_0000 + c0 == BitLength(n)
  }

  /** The carry of the low count word into the high one gives the 64-bit
      sum. */
  lemma {:induction false} CountCarry(c0: nat, c1: nat, len: nat, c0': nat, c1': nat, lenBits: nat)
    requires c0 < 0x1_0000_0000 && c1 < 0x1_0000_0000 && len < 0x1_0000_0000
    requires lenBits == (len * 8) % 0x1_0000_0000
    requires c0' == (c0 + lenBits) % 0x1_0000_0000
    requires c1' == ((if c0' < lenBits then (c1 + 1) % 0x1_0000_0000 else c1) + len / 0x2000_0000) % 0x1_0000_0000
    ensures c1' * 0x1_0000_0000 + c0' == (c1 * 0x1_0000_0000 + c0 + 8 * len) % 0x1_0000_0000_0000_0000
  {
    var hi := len / 0x2000_0000;
    SplitBits(len, lenBits);
    var carry := if c0' < lenBits then 1 else 0;
    LowCarry(c0, lenBits, c0');
    var c1a := (c1 + carry) % 0x1_0000_0000;
    var x := (c1 + carry) / 0x1_0000_0000;
    var y := (c1a + hi) / 0x1_0000_0000;
    assert c1 + carry == x * 0x1_0000_0000 + c1a;
    assert c1a + hi == y * 0x1_0000_0000 + c1';
    assert c1 * 0x1_0000_0000 + c0 + 8 * len == (x + y) * 0x1_0000_0000_0000_0000 + (c1' * 0x1_0000_0000 + c0');
    ModOf64(c1 * 0x1_0000_0000 + c0 + 8 * len, x + y, c1' * 0x1_0000_0000 + c0');
  }

  /** len << 3 in 32 bits and len >> 29 are the two words of 8 * len. */
  lemma {:induction false} SplitBits(len: nat, lenBits: nat)
    requires len < 0x1_0000_0000 && lenBits == (len * 8) % 0x1_0000_0000
    ensures 8 * len == (len / 0x2000_0000) * 0x1_0000_0000 + lenBits
  {
    assert len == (len / 0x2000_0000) * 0x2000_0000 + len % 0x2000_0000;
  }

  /** The low word wrapped exactly when it came out below what was added. */
  lemma {:induction false} LowCarry(c0: nat, lenBits: nat, c0': nat)
    requires c0 < 0x1_0000_0000 && lenBits < 0x1_0000_0000 && c0' == (c0 + lenBits) % 0x1_0000_0000
    ensures c0 + lenBits == (if c0' < lenBits then 1 else 0) * 0x1_0000_0000 + c0'
  {
  }

  /** The remainder modulo 2^64 of q * 2^64 + r, for r below 2^64. */
  lemma {:induction false} ModOf64(v: int, q: int, r: int)
    requires v == q * 0x1_0000_0000_0000_0000 + r && 0 <= r < 0x1_0000_0000_0000_0000
    ensures v % 0x1_0000_0000_0000_0000 == r
  {
  }

  /** The bit count modulo 2^64 can be kept by adding modulo 2^64. */
  lemma {:induction false} BitLengthAdd(n: nat, len: nat)
    ensures BitLength(n + len) == (BitLength(n) + 8 * len) % 0x1_0000_0000_0000_0000
  {
    var q := (n * 8) / 0x1_0000_0000_0000_0000;
    assert n * 8 == q * 0x1_0000_0000_0000_0000 + BitLength(n);
    assert (n + len) * 8 == q * 0x1_0000_0000_0000_0000 + (BitLength(n) + 8 * len);
    ModShift(BitLength(n) + 8 * len, q);
  }

  lemma {:induction false} ModShift(x: nat, q: nat)
    ensures (q * 0x1_0000_0000_0000_0000 + x) % 0x1_0000_0000_0000_0000 == x % 0x1_0000_0000_0000_0000
  {
    var r := x / 0x1_0000_0000_0000_0000;
    assert x == r * 0x1_0000_0000_0000_0000 + x % 0x1_0000_0000_0000_0000;
    assert q * 0x1_0000_0000_0000_0000 + x == (q + r) * 0x1_0000_0000_0000_0000 + x % 0x1_0000_0000_0000_0000;
  }

  /** The octets pending in the buffer are the octet count modulo 64,
      which is bits 3 to 8 of the bit count. */
  lemma {:induction false} PendingOctets(c0: nat, c1: nat, n: nat, b: nat)
    requires c0 < 0x1_0000_0000 && c1 < 0x1_0000_0000 && c1 * 0x1_0000_0000 + c0 == BitLength(n)
    requires 64 * b <= n < 64 * b + 64
    ensures (c0 / 8) % 64 == n - 64 * b == n % 64
  {
    var t := (n * 8) / 0x1_0000_0000_0000_0000;
    assert n * 8 == t * 0x1_0000_0000_0000_0000 + c1 * 0x1_0000_0000 + c0;
    var u := t * 0x1_0000_0000 + c1;
    assert c0 == 8 * (n - u * 0x2000_0000);
    assert c0 / 8 == n - u * 0x2000_0000;
    assert n - u * 0x2000_0000 == 64 * (b - u * 0x80_0000) + (n - 64 * b);
  }

  /** Bits of the 64-bit count split into its two words. */
  lemma {:induction false} CountHalves(c0: nat, c1: nat, x: nat)
    requires c0 < 0x1_0000_0000 && c1 < 0x1_0000_0000 && c1 * 0x1_0000_0000 + c0 == x
    ensures x < 0x1_0000_0000_0000_0000
    ensures x / 0x1_0000_0000 == c1 && x % 0x1_0000_0000 == c0
  {
  }

  /** Octet i of final_count is octet i of the length field. */
  lemma {:induction false} FinalCountOctet(c0: nat, c1: nat, x: nat, i: nat)
    requires c0 < 0x1_0000_0000 && c1 < 0x1_0000_0000 && c1 * 0x1_0000_0000 + c0 == x && i < 8
    ensures (if i >= 4 then c0 else c1) / Pow256(3 - i % 4) % 256 < 256
    ensures LengthBytes(x)[i] == ByteOf((if i >= 4 then c0 else c1) / Pow256(3 - i % 4) % 256)
  {
    CountHalves(c0, c1, x);
    assert LengthBytes(x) == BigEndian32(c1) + BigEndian32(c0);
    hide ByteOf, BigEndian32, LengthBytes, Pow256;
    var j := 3 - i % 4;
    if i >= 4 {
      assert j == 7 - i;
      assert LengthBytes(x)[i] == BigEndian32(c0)[3 - j];
      BigEndianOctet(c0, j);
    } else {
      assert j == 3 - i;
      assert LengthBytes(x)[i] == BigEndian32(c1)[3 - j];
      BigEndianOctet(c1, j);
    }
  }

  /** Octet 3 - j of a big-endian word is bits 8j..8j+7. */
  lemma {:induction false} BigEndianOctet(c: nat, j: nat)
    requires c < 0x1_0000_0000 && j < 4
    ensures BigEndian32(c)[3 - j] == ByteOf(c / Pow256(j) % 256)
  {
    Pow256Values();
    hide Pow256, ByteOf;
  }

  lemma {:induction false} Pow256Values()
    ensures Pow256(0) == 1 && Pow256(1) == 0x100 && Pow256(2) == 0x1_0000 && Pow256(3) == 0x100_0000
  {
    assert Pow256(1) == 256 * Pow256(0);
    assert Pow256(2) == 256 * Pow256(1);
    assert Pow256(3) == 256 * Pow256(2);
  }

  /** The buffer's octets and the start of the data make up the next
      block. */
  lemma {:induction false} FillBlock(a: seq<byte>, data: seq<byte>, b: nat)
    requires 64 * b <= |a| < 64 * b + 64 && |a| + |data| >= 64 * b + 64
    ensures a[64 * b..] + data[..64 * b + 64 - |a|] == Block(a + data, b)
  {
    var m := a + data;
    assert m[64 * b..64 * b + 64] == m[64 * b..|a|] + m[|a|..64 * b + 64];
    assert m[64 * b..|a|] == a[64 * b..];
    assert m[|a|..64 * b + 64] == data[..64 * b + 64 - |a|];
  }

  lemma {:induction false} NextBlock(m: seq<byte>, k: nat)
    requires 64 * k + 64 <= |m|
    ensures ProcessBlocks(H0, m, k + 1) == Compress(ProcessBlocks(H0, m, k), Block(m, k))
  {
  }

  /** A whole block inside the data. */
  lemma {:induction false} DataBlock(a: seq<byte>, data: seq<byte>, k: nat, i: nat)
    requires |a| + i == 64 * k && i + 64 <= |data|
    ensures data[i..i + 64] == Block(a + data, k)
  {
    assert (a + data)[64 * k..64 * k + 64] == data[i..i + 64];
  }

  /** Appending leaves the blocks already compressed as they were. */
  lemma {:induction false} AppendKeepsBlocks(a: seq<byte>, data: seq<byte>, b: nat)
    requires 64 * b <= |a|
    ensures ProcessBlocks(H0, a + data, b) == ProcessBlocks(H0, a, b)
    ensures (a + data)[64 * b..] == a[64 * b..] + data
  {
    assert (a + data)[..64 * b] == a[..64 * b];
    ProcessBlocksPrefix(H0, a, a + data, b);
  }

  /** The data after position i is what follows the last whole block. */
  lemma {:induction false} Pending(a: seq<byte>, data: seq<byte>, k: nat, i: nat)
    requires 64 * k == |a| + i || (i == 0 && 64 * k <= |a|)
    requires i <= |data|
    ensures (a + data)[|a| + i..] == data[i..]
  {
  }

  lemma {:induction false} CopiedPrefix(buf: seq<byte>, kept: seq<byte>, src: seq<byte>)
    requires |kept| + |src| <= |buf| && buf[..|kept|] == kept && buf[|kept|..|kept| + |src|] == src
    ensures buf[..|kept| + |src|] == kept + src
  {
    assert buf[..|kept| + |src|] == buf[..|kept|] + buf[|kept|..|kept| + |src|];
  }

  lemma {:induction false} ZerosSnoc(m: seq<byte>, z: nat)
    ensures m + [0x80] + Zeros(z) + [0x00] == m + [0x80] + Zeros(z + 1)
  {
  }

  lemma {:induction false} WholeBlocks(n: nat, b: nat)
    requires n % 64 == 0 && 64 * b <= n < 64 * b + 64
    ensures n == 64 * b && n / 64 == b
  {
  }

  lemma {:induction false} WordBytesOctet(x: word, r: nat)
    requires r < 4
    ensures WordBytes(x)[r] == Octet(x, 3 - r)
  {
    hide Octet;
  }

  /** Octet i of the digest is octet 3 - i % 4 of hash word i / 4. */
  lemma {:induction false} DigestOctet(s: seq<word>, i: nat)
    requires |s| == 5 && i < 20
    ensures Digest(VarsOf(s))[i] == Octet(s[i / 4], 3 - i % 4)
  {
    hide Octet, WordBytes, Digest;
    var h := VarsOf(s);
    assert h == Vars(s[0], s[1], s[2], s[3], s[4]);
    hide VarsOf;
    var q, r := i / 4, i % 4;
    QuarterSplit(i);
    var d := Digest(h);
    assert d[4 * q..4 * q + 4] == WordBytes(s[q]) by {
      OneShotSha1.DigestWord(h, q, s[q]);
    }
    assert d[i] == d[4 * q..4 * q + 4][r];
    WordBytesOctet(s[q], r);
  }

  lemma {:induction false} QuarterSplit(i: nat)
    requires i < 20
    ensures i == 4 * (i / 4) + i % 4 && i / 4 < 5 && i % 4 < 4
  {
  }
}
