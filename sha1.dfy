/** SHA-1 as FIPS 180-4 section 6.1 (and RFC 3174) defines it: message
    padding, the message schedule, the 80 rounds of each block and the
    big-endian digest. ComputeSHA1Hash of src/util.h is proved against
    this definition; the streaming context of src/realtime_file_monitor.cc
    is proved against it in module Sha1Stream. */
module Sha1 {
  import opened Bytes

  type word = bv32

  /** Circular left shift by n bits. */
  function RotL(x: word, n: word): word
    requires 0 < n < 32
  {
    (x << n) | (x >> (32 - n))
  }

  /** Addition modulo 2^32. */
  function Add32(x: word, y: word): word
  {
    x + y
  }

  function Xor4(w: word, x: word, y: word, z: word): word
  {
    w ^ x ^ y ^ z
  }

  /** Four octets, most significant first, as one word. */
  function WordOf(b0: byte, b1: byte, b2: byte, b3: byte): word
  {
    (b0 as word << 24) | (b1 as word << 16) | (b2 as word << 8) | (b3 as word)
  }

  /** The sixteen words of a 64-octet block, each read big-endian. */
  function BlockWords(block: seq<byte>): (m: seq<word>)
    requires |block| == 64
    ensures |m| == 16
  {
    seq(16, i requires 0 <= i < 16 => WordOf(block[4 * i], block[4 * i + 1], block[4 * i + 2], block[4 * i + 3]))
  }

  /** Word t of a schedule obeys the recurrence of section 6.1.2 step 1:
      w[t] = ROTL1(w[t-3] ^ w[t-8] ^ w[t-14] ^ w[t-16]). */
  predicate Expands(w: seq<word>, t: nat)
    requires 16 <= t < |w|
  {
    w[t] == RotL(Xor4(w[t - 3], w[t - 8], w[t - 14], w[t - 16]), 1)
  }

  /** The message schedule: the block's sixteen words, then the
      recurrence up to t = 79. */
  ghost predicate IsSchedule(m: seq<word>, w: seq<word>)
  {
    |m| == 16 && |w| == 80 && w[..16] == m &&
    forall t | 16 <= t < 80 :: Expands(w, t)
  }

  /** The schedule completed from its first |w| words. */
  function ScheduleFrom(w: seq<word>): (r: seq<word>)
    requires 16 <= |w| <= 80
    ensures |r| == 80 && r[..|w|] == w
    ensures forall t | |w| <= t < 80 :: Expands(r, t)
    decreases 80 - |w|
  {
    if |w| == 80 then w
    else
      var n := |w|;
      var r := ScheduleFrom(w + [RotL(Xor4(w[n - 3], w[n - 8], w[n - 14], w[n - 16]), 1)]);
      assert r[..n] == r[..n + 1][..n];
      assert r[n - 3] == w[n - 3] && r[n - 8] == w[n - 8] && r[n - 14] == w[n - 14] && r[n - 16] == w[n - 16];
      assert Expands(r, n);
      r
  }

  function Schedule(m: seq<word>): (w: seq<word>)
    requires |m| == 16
    ensures IsSchedule(m, w)
  {
    ScheduleFrom(m)
  }

  /** The recurrence leaves no choice: a sequence that starts with the
      block's words and obeys it is the schedule. */
  lemma {:induction false} ScheduleUnique(m: seq<word>, w: seq<word>)
    requires IsSchedule(m, w)
    ensures w == Schedule(m)
  {
    var s := Schedule(m);
    forall t | 0 <= t < 80
      ensures w[t] == s[t]
    {
      ScheduleAgree(m, w, s, t);
    }
  }

  lemma {:induction false} ScheduleAgree(m: seq<word>, w: seq<word>, s: seq<word>, t: nat)
    requires IsSchedule(m, w) && IsSchedule(m, s) && t < 80
    ensures w[..t + 1] == s[..t + 1]
    decreases t
  {
    if t < 16 {
      assert w[..t + 1] == m[..t + 1] == s[..t + 1];
    } else {
      ScheduleAgree(m, w, s, t - 1);
      assert Expands(w, t) && Expands(s, t);
      assert w[t - 3] == s[t - 3] && w[t - 8] == s[t - 8] && w[t - 14] == s[t - 14] && w[t - 16] == s[t - 16] by {
        assert w[..t] == s[..t];
        assert w[t - 3] == w[..t][t - 3] && s[t - 3] == s[..t][t - 3];
        assert w[t - 8] == w[..t][t - 8] && s[t - 8] == s[..t][t - 8];
        assert w[t - 14] == w[..t][t - 14] && s[t - 14] == s[..t][t - 14];
        assert w[t - 16] == w[..t][t - 16] && s[t - 16] == s[..t][t - 16];
      }
      assert w[..t + 1] == w[..t] + [w[t]] && s[..t + 1] == s[..t] + [s[t]];
    }
  }

  /** The logical functions of the rounds, with Ch and Maj written with OR
      as the source writes them; ChMajStandard proves them equal to the XOR
      forms of section 4.1.1 of FIPS 180-4. */
  function Ch(x: word, y: word, z: word): word
  {
    (x & y) | (!x & z)
  }

  function Parity(x: word, y: word, z: word): word
  {
    x ^ y ^ z
  }

  function Maj(x: word, y: word, z: word): word
  {
    (x & y) | (x & z) | (y & z)
  }

  /** FIPS 180-4, section 4.1.1: Ch(x, y, z) = (x AND y) XOR (NOT x AND z)
      and Maj(x, y, z) = (x AND y) XOR (x AND z) XOR (y AND z). */
  lemma {:induction false} ChMajStandard(x: word, y: word, z: word)
    ensures Ch(x, y, z) == (x & y) ^ (!x & z)
    ensures Maj(x, y, z) == (x & y) ^ (x & z) ^ (y & z)
  {
  }

  /** The logical function for round t. */
  function F(t: nat, b: word, c: word, d: word): word
  {
    if t < 20 then Ch(b, c, d)
    else if t < 40 then Parity(b, c, d)
    else if t < 60 then Maj(b, c, d)
    else Parity(b, c, d)
  }

  /** The round constant of section 4.2.1. */
  function K(t: nat): word
  {
    if t < 20 then 0x5A827999
    else if t < 40 then 0x6ED9EBA1
    else if t < 60 then 0x8F1BBCDC
    else 0xCA62C1D6
  }

  /** T = ROTL5(a) + f + e + K + W, all modulo 2^32 (section 6.1.2 step 3). */
  function RoundT(a: word, f: word, e: word, k: word, wt: word): word
  {
    RotL(a, 5) + f + e + k + wt
  }

  /** The five working variables (or the five hash words). */
  datatype Vars = Vars(a: word, b: word, c: word, d: word, e: word)

  /** The initial hash value of section 5.3.1. */
  const H0: Vars := Vars(0x67452301, 0xEFCDAB89, 0x98BADCFE, 0x10325476, 0xC3D2E1F0)

  /** Round t of section 6.1.2 step 3. */
  function Round(v: Vars, t: nat, wt: word): Vars
  {
    Vars(RoundT(v.a, F(t, v.b, v.c, v.d), v.e, K(t), wt), v.a, RotL(v.b, 30), v.c, v.d)
  }

  /** The working variables after the first n rounds. */
  function Rounds(v: Vars, w: seq<word>, n: nat): Vars
    requires n <= |w|
  {
    if n == 0 then v else Round(Rounds(v, w, n - 1), n - 1, w[n - 1])
  }

  /** Word-wise addition modulo 2^32 (step 4). */
  function Add(h: Vars, v: Vars): Vars
  {
    Vars(Add32(h.a, v.a), Add32(h.b, v.b), Add32(h.c, v.c), Add32(h.d, v.d), Add32(h.e, v.e))
  }

  /** The compression of one 64-octet block into the hash value. */
  function Compress(h: Vars, block: seq<byte>): Vars
    requires |block| == 64
  {
    var w := Schedule(BlockWords(block));
    Add(h, Rounds(h, w, |w|))
  }

  /** Block i (from 0) of a message: octets 64i..64i+63. */
  function Block(m: seq<byte>, i: nat): (b: seq<byte>)
    requires 64 * i + 64 <= |m|
    ensures |b| == 64
  {
    m[64 * i..64 * i + 64]
  }

  /** The hash value after the first n blocks of m, first to last. */
  function ProcessBlocks(h: Vars, m: seq<byte>, n: nat): Vars
    requires 64 * n <= |m|
  {
    if n == 0 then h else Compress(ProcessBlocks(h, m, n - 1), Block(m, n - 1))
  }

  /** Only the blocks processed matter. */
  lemma {:induction false} ProcessBlocksPrefix(h: Vars, m: seq<byte>, m': seq<byte>, n: nat)
    requires 64 * n <= |m| && 64 * n <= |m'| && m[..64 * n] == m'[..64 * n]
    ensures ProcessBlocks(h, m, n) == ProcessBlocks(h, m', n)
  {
    if n > 0 {
      SamePrefixShorter(m, m', 64 * (n - 1), 64 * n);
      ProcessBlocksPrefix(h, m, m', n - 1);
      SameBlock(m, m', n - 1, n);
    }
  }

  lemma {:induction false} SamePrefixShorter(m: seq<byte>, m': seq<byte>, k: nat, n: nat)
    requires k <= n <= |m| && n <= |m'| && m[..n] == m'[..n]
    ensures m[..k] == m'[..k]
  {
    assert m[..k] == m[..n][..k];
    assert m'[..k] == m'[..n][..k];
  }

  lemma {:induction false} SameBlock(m: seq<byte>, m': seq<byte>, i: nat, n: nat)
    requires n == i + 1 && 64 * n <= |m| && 64 * n <= |m'| && m[..64 * n] == m'[..64 * n]
    ensures Block(m, i) == Block(m', i)
  {
    assert Block(m, i) == m[..64 * n][64 * i..];
    assert Block(m', i) == m'[..64 * n][64 * i..];
  }

  /** 256^i. */
  function Pow256(i: nat): (p: nat)
    ensures p >= 1
  {
    if i == 0 then 1 else 256 * Pow256(i - 1)
  }

  /** The number of zero octets after 0x80: the least k with
      n + 1 + k = 56 (mod 64). */
  function ZeroCount(n: nat): nat
  {
    (55 - n) % 64
  }

  function Zeros(k: nat): (r: seq<byte>)
    ensures |r| == k && forall i | 0 <= i < k :: r[i] == 0
  {
    seq(k, _ => 0)
  }

  /** The message length in bits as the 64-bit counter holds it. */
  function BitLength(n: nat): nat
  {
    (n * 8) % 0x1_0000_0000_0000_0000
  }

  /** A 64-bit value as eight octets, most significant first. */
  function LengthBytes(x: nat): (r: seq<byte>)
    requires x < 0x1_0000_0000_0000_0000
    ensures |r| == 8
  {
    BigEndian32(x / 0x1_0000_0000) + BigEndian32(x % 0x1_0000_0000)
  }

  /** Section 5.1.1: the message, 0x80, zeros, and the 64-bit bit length. */
  function Pad(m: seq<byte>): seq<byte>
  {
    m + [0x80] + Zeros(ZeroCount(|m|)) + LengthBytes(BitLength(|m|))
  }

  /** Bits 8j..8j+7 of a word. */
  function Octet(x: word, j: nat): byte
    requires j < 4
  {
    if j == 0 then (x & 0xFF) as byte
    else if j == 1 then ((x >> 8) & 0xFF) as byte
    else if j == 2 then ((x >> 16) & 0xFF) as byte
    else ((x >> 24) & 0xFF) as byte
  }

  /** A hash word as four octets, most significant first. */
  function WordBytes(x: word): (r: seq<byte>)
    ensures |r| == 4
  {
    [Octet(x, 3), Octet(x, 2), Octet(x, 1), Octet(x, 0)]
  }

  /** The 160-bit digest: the five hash words big-endian. */
  function Digest(h: Vars): (r: seq<byte>)
    ensures |r| == 20
  {
    WordBytes(h.a) + WordBytes(h.b) + WordBytes(h.c) + WordBytes(h.d) + WordBytes(h.e)
  }

  /** SHA-1 of a message. */
  function Hash(m: seq<byte>): (r: seq<byte>)
    ensures |r| == 20
  {
    var p := Pad(m);
    Digest(ProcessBlocks(H0, p, |p| / 64))
  }

  /** Padding reaches 56 modulo 64 before the length with the fewest zeros
      possible, and the padded message is a whole number of blocks that
      starts with the message. */
  lemma {:induction false} PadLength(m: seq<byte>)
    ensures ZeroCount(|m|) < 64 && (|m| + 1 + ZeroCount(|m|)) % 64 == 56
    ensures |Pad(m)| == |m| + 9 + ZeroCount(|m|) && |Pad(m)| % 64 == 0
    ensures Pad(m)[..|m|] == m && Pad(m)[|m|] == 0x80
    ensures forall i | |m| < i <= |m| + ZeroCount(|m|) :: Pad(m)[i] == 0
    ensures Pad(m)[|Pad(m)| - 8..] == LengthBytes(BitLength(|m|))
  {
    ZeroCountReaches56(|m|);
    BlockBoundary(|m| + 1 + ZeroCount(|m|));
    PadPrefix(m);
    PadZeros(m);
    PadSuffix(m);
  }

  lemma {:induction false} BlockBoundary(x: nat)
    requires x % 64 == 56
    ensures (x + 8) % 64 == 0
  {
    var q := x / 64;
    assert x + 8 == 64 * (q + 1);
  }

  lemma {:induction false} PadPrefix(m: seq<byte>)
    ensures Pad(m)[..|m|] == m && Pad(m)[|m|] == 0x80
  {
    var a := m + [0x80];
    var b := Zeros(ZeroCount(|m|)) + LengthBytes(BitLength(|m|));
    assert Pad(m) == a + b;
    assert (a + b)[..|m|] == a[..|m|];
  }

  lemma {:induction false} PadZeros(m: seq<byte>)
    ensures forall i | |m| < i <= |m| + ZeroCount(|m|) :: Pad(m)[i] == 0
  {
    var z := Zeros(ZeroCount(|m|));
    var l := LengthBytes(BitLength(|m|));
    assert Pad(m) == (m + [0x80]) + (z + l);
    forall i | |m| < i <= |m| + |z|
      ensures Pad(m)[i] == 0
    {
      assert Pad(m)[i] == (z + l)[i - |m| - 1] == z[i - |m| - 1];
    }
  }

  lemma {:induction false} PadSuffix(m: seq<byte>)
    ensures Pad(m)[|Pad(m)| - 8..] == LengthBytes(BitLength(|m|))
  {
    var a := m + [0x80] + Zeros(ZeroCount(|m|));
    var l := LengthBytes(BitLength(|m|));
    assert Pad(m) == a + l;
    assert (a + l)[|a|..] == l;
  }

  lemma {:induction false} ZeroCountReaches56(n: nat)
    ensures ZeroCount(n) < 64 && (n + 1 + ZeroCount(n)) % 64 == 56
  {
    var q := (55 - n) / 64;
    assert 55 - n == 64 * q + ZeroCount(n);
    assert n + 1 + ZeroCount(n) == 56 - 64 * q;
  }

  /** A zero count that reaches 56 modulo 64 without exceeding the least
      one is the least one. */
  lemma {:induction false} ZeroCountUnique(n: nat, z: nat)
    requires z <= ZeroCount(n) && (n + 1 + z) % 64 == 56
    ensures z == ZeroCount(n)
  {
    ZeroCountReaches56(n);
  }

  /** Octet 7 - i of the length field is bits 8i..8i+7 of the length. */
  lemma {:induction false} LengthByteAt(x: nat, i: nat)
    requires x < 0x1_0000_0000_0000_0000 && i < 8
    ensures LengthBytes(x)[7 - i] == ByteOf(x / Pow256(i) % 256)
  {
    if i < 4 {
      LowLengthByte(x, i);
    } else {
      HighLengthByte(x, i);
    }
  }

  lemma {:induction false} LowLengthByte(x: nat, i: nat)
    requires x < 0x1_0000_0000_0000_0000 && i < 4
    ensures LengthBytes(x)[7 - i] == ByteOf(x / Pow256(i) % 256)
  {
    var r := x % 0x1_0000_0000;
    var b := BigEndian32(r);
    assert LengthBytes(x)[7 - i] == b[3 - i];
    if i == 0 {
      assert Pow256(i) == 1;
      assert x / Pow256(i) == x;
      LowWordByte0(x);
    } else if i == 1 {
      assert Pow256(i) == 0x100;
      LowWordByte1(x);
      assert x / Pow256(i) % 256 == r / 0x100 % 0x100;
    } else if i == 2 {
      assert Pow256(i) == 0x1_0000;
      LowWordByte2(x);
      assert x / Pow256(i) % 256 == r / 0x1_0000 % 0x100;
    } else {
      assert Pow256(i) == 0x100_0000;
      LowWordByte3(x);
      assert x / Pow256(i) % 256 == r / 0x100_0000;
    }
  }

  lemma {:induction false} HighLengthByte(x: nat, i: nat)
    requires x < 0x1_0000_0000_0000_0000 && 4 <= i < 8
    ensures LengthBytes(x)[7 - i] == ByteOf(x / Pow256(i) % 256)
  {
    var q := x / 0x1_0000_0000;
    var b := BigEndian32(q);
    assert LengthBytes(x)[7 - i] == b[7 - i];
    HighWordBytes(x);
    if i == 4 {
      assert Pow256(i) == 0x1_0000_0000;
      assert x / Pow256(i) % 256 == q % 0x100;
    } else if i == 5 {
      assert Pow256(i) == 0x100_0000_0000;
      assert x / Pow256(i) % 256 == q / 0x100 % 0x100;
    } else if i == 6 {
      assert Pow256(i) == 0x1_0000_0000_0000;
      assert x / Pow256(i) % 256 == q / 0x1_0000 % 0x100;
    } else {
      assert Pow256(i) == 0x100_0000_0000_0000;
      assert x / Pow256(i) % 256 == q / 0x100_0000;
    }
  }
}
