/** ComputeSHA1Hash of src/util.h: pad a copy of the input, run each
    64-octet chunk through the schedule and the 80 rounds, and serialise
    h0..h4 big-endian. Proved equal to Sha1.Hash. */
module OneShotSha1 {
  import opened Bytes
  import opened Sha1

  /** The padding test of the source: the padded length in bits is 448
      modulo 512 exactly when the length in octets is 56 modulo 64. */
  lemma {:induction false} BitPaddingTest(n: nat)
    ensures (n * 8) % 512 == 448 <==> n % 64 == 56
  {
    var q := n / 64;
    assert n == 64 * q + n % 64;
    assert n * 8 == 512 * q + (n % 64) * 8;
  }

  method ComputeSHA1Hash(input: seq<byte>) returns (hash: seq<byte>)
    ensures hash == Hash(input)
  {
    var originalBitLen := (|input| * 8) % 0x1_0000_0000_0000_0000;
    var padded := PadMessage(input, originalBitLen);
    var h0, h1, h2, h3, h4 := ProcessChunks(padded);
    hash := SerializeDigest(h0, h1, h2, h3, h4);
  }

  /** The chunk loop, from the initial h0..h4 over every 64-octet chunk. */
  method ProcessChunks(padded: seq<byte>) returns (h0: word, h1: word, h2: word, h3: word, h4: word)
    requires |padded| % 64 == 0
    ensures Vars(h0, h1, h2, h3, h4) == ProcessBlocks(H0, padded, |padded| / 64)
  {
    // The loop needs only that each step is Compress, not what Compress computes.
    hide Compress;
    h0, h1, h2, h3, h4 := 0x67452301, 0xEFCDAB89, 0x98BADCFE, 0x10325476, 0xC3D2E1F0;
    var chunkCount := |padded| * 8 / 512;
    ChunkCount(|padded|);
    for chunk := 0 to chunkCount
      invariant Vars(h0, h1, h2, h3, h4) == ProcessBlocks(H0, padded, chunk)
    {
      var chunkData := padded[chunk * 64..chunk * 64 + 64];
      assert chunkData == Block(padded, chunk);
      h0, h1, h2, h3, h4 := ProcessChunk(h0, h1, h2, h3, h4, chunkData);
    }
  }

  /** One iteration of the chunk loop: schedule, 80 rounds, and the
      addition into h0..h4. */
  method ProcessChunk(h0: word, h1: word, h2: word, h3: word, h4: word, chunkData: seq<byte>)
    returns (r0: word, r1: word, r2: word, r3: word, r4: word)
    requires |chunkData| == 64
    ensures Vars(r0, r1, r2, r3, r4) == Compress(Vars(h0, h1, h2, h3, h4), chunkData)
  {
    var w := ScheduleChunk(chunkData);
    var a, b, c, d, e := RunRounds(h0, h1, h2, h3, h4, w);
    r0 := Add32(h0, a);
    r1 := Add32(h1, b);
    r2 := Add32(h2, c);
    r3 := Add32(h3, d);
    r4 := Add32(h4, e);
  }

  /** The chunk count of the source is the number of 64-octet blocks. */
  lemma {:induction false} ChunkCount(n: nat)
    requires n % 64 == 0
    ensures n * 8 / 512 == n / 64 && 64 * (n / 64) == n
  {
    var q := n / 64;
    assert n == 64 * q;
    assert n * 8 == 512 * q;
  }

  /** The padding part: 0x80, zeros up to 56 modulo 64, then the 64-bit
      bit length, most significant octet first. */
  method PadMessage(input: seq<byte>, originalBitLen: nat) returns (padded: seq<byte>)
    requires originalBitLen == BitLength(|input|)
    ensures padded == Pad(input)
    ensures |padded| % 64 == 0
  {
    PadLength(input);
    padded := AppendZeros(input);
    padded := AppendLength(padded, originalBitLen);
  }

  /** 0x80, then zero octets until the length in bits is 448 modulo 512. */
  method AppendZeros(input: seq<byte>) returns (padded: seq<byte>)
    ensures padded == input + [0x80] + Zeros(ZeroCount(|input|))
  {
    var z := ZeroCount(|input|);
    ZeroCountReaches56(|input|);
    padded := input + [0x80];
    while (|padded| * 8) % 512 != 448
      invariant |input| + 1 <= |padded| <= |input| + 1 + z
      invariant padded == input + [0x80] + Zeros(|padded| - |input| - 1)
      decreases |input| + 1 + z - |padded|
    {
      BitPaddingTest(|padded|);
      padded := padded + [0x00];
    }
    BitPaddingTest(|padded|);
    ZeroCountUnique(|input|, |padded| - |input| - 1);
  }

  /** The eight octets of the bit length, octet 7 (the most significant)
      first. */
  method AppendLength(prefix: seq<byte>, originalBitLen: nat) returns (padded: seq<byte>)
    requires originalBitLen < 0x1_0000_0000_0000_0000
    ensures padded == prefix + LengthBytes(originalBitLen)
  {
    padded := prefix;
    for i := 8 downto 0
      invariant padded == prefix + LengthBytes(originalBitLen)[..8 - i]
    {
      LengthByteAt(originalBitLen, i);
      assert LengthBytes(originalBitLen)[..8 - i] == LengthBytes(originalBitLen)[..7 - i] + [LengthBytes(originalBitLen)[7 - i]];
      padded := padded + [ByteOf(originalBitLen / Pow256(i) % 256)];
    }
  }

  /** The source's w[80] for one chunk: sixteen big-endian words, then the
      schedule recurrence. */
  method ScheduleChunk(chunkData: seq<byte>) returns (schedule: seq<word>)
    requires |chunkData| == 64
    ensures schedule == Schedule(BlockWords(chunkData))
  {
    var w := new word[80];
    ghost var m := BlockWords(chunkData);
    for i := 0 to 16
      invariant w[..i] == m[..i]
    {
      w[i] := WordOf(chunkData[i * 4], chunkData[i * 4 + 1], chunkData[i * 4 + 2], chunkData[i * 4 + 3]);
      assert w[..i + 1] == m[..i + 1];
    }
    for i := 16 to 80
      invariant w[..16] == m
      invariant forall t | 16 <= t < i :: Expands(w[..i], t)
    {
      var temp := Xor4(w[i - 3], w[i - 8], w[i - 14], w[i - 16]);
      w[i] := RotL(temp, 1);
      ScheduleStep(w[..i], w[..i + 1]);
    }
    schedule := w[..];
    assert schedule == w[..80];
    ScheduleUnique(m, schedule);
  }

  /** Appending the recurrence's next word keeps the recurrence. */
  lemma {:induction false} ScheduleStep(w: seq<word>, w': seq<word>)
    requires 16 <= |w| && |w'| == |w| + 1 && w'[..|w|] == w
    requires forall t | 16 <= t < |w| :: Expands(w, t)
    requires w'[|w|] == RotL(Xor4(w[|w| - 3], w[|w| - 8], w[|w| - 14], w[|w| - 16]), 1)
    ensures w'[..16] == w[..16]
    ensures forall t | 16 <= t < |w'| :: Expands(w', t)
  {
    forall t | 16 <= t < |w'|
      ensures Expands(w', t)
    {
      if t < |w| {
        assert Expands(w, t);
        assert w'[t] == w[t] && w'[t - 3] == w[t - 3] && w'[t - 8] == w[t - 8];
        assert w'[t - 14] == w[t - 14] && w'[t - 16] == w[t - 16];
      } else {
        assert w'[t - 3] == w[t - 3] && w'[t - 8] == w[t - 8];
        assert w'[t - 14] == w[t - 14] && w'[t - 16] == w[t - 16];
      }
    }
  }

  /** The 80 rounds over a, b, c, d, e. */
  method RunRounds(h0: word, h1: word, h2: word, h3: word, h4: word, w: seq<word>)
    returns (a: word, b: word, c: word, d: word, e: word)
    requires |w| == 80
    ensures Vars(a, b, c, d, e) == Rounds(Vars(h0, h1, h2, h3, h4), w, |w|)
  {
    a, b, c, d, e := h0, h1, h2, h3, h4;
    for i := 0 to 80
      invariant Vars(a, b, c, d, e) == Rounds(Vars(h0, h1, h2, h3, h4), w, i)
    {
      var f: word, k: word;
      if i < 20 {
        f := Ch(b, c, d);
        k := 0x5A827999;
      } else if i < 40 {
        f := Parity(b, c, d);
        k := 0x6ED9EBA1;
      } else if i < 60 {
        f := Maj(b, c, d);
        k := 0x8F1BBCDC;
      } else {
        f := Parity(b, c, d);
        k := 0xCA62C1D6;
      }
      var temp := RoundT(a, f, e, k, w[i]);
      e := d;
      d := c;
      c := RotL(b, 30);
      b := a;
      a := temp;
    }
  }

  /** The output loop: h0..h4, each most significant octet first. */
  method SerializeDigest(h0: word, h1: word, h2: word, h3: word, h4: word) returns (hash: seq<byte>)
    ensures hash == Digest(Vars(h0, h1, h2, h3, h4))
  {
    hide WordBytes;
    ghost var digest := Digest(Vars(h0, h1, h2, h3, h4));
    hash := [];
    for i := 0 to 5
      invariant hash == digest[..4 * i]
    {
      var h: word;
      if i == 0 {
        h := h0;
      } else if i == 1 {
        h := h1;
      } else if i == 2 {
        h := h2;
      } else if i == 3 {
        h := h3;
      } else {
        h := h4;
      }
      hash := AppendWord(hash, h);
      DigestWord(Vars(h0, h1, h2, h3, h4), i, h);
      assert digest[..4 * (i + 1)] == digest[..4 * i] + digest[4 * i..4 * i + 4];
    }
    assert digest[..20] == digest;
  }

  /** The inner loop of the output: octets 3 down to 0 of one word. */
  method AppendWord(prefix: seq<byte>, h: word) returns (hash: seq<byte>)
    ensures hash == prefix + WordBytes(h)
  {
    hash := prefix;
    for j := 4 downto 0
      invariant hash == prefix + WordBytes(h)[..3 - j + 1]
    {
      assert WordBytes(h)[..4 - j] == WordBytes(h)[..3 - j] + [Octet(h, j)];
      hash := hash + [Octet(h, j)];
    }
  }

  /** Octets 4i..4i+3 of the digest are hash word i. */
  lemma {:induction false} DigestWord(h: Vars, i: nat, x: word)
    requires i < 5
    requires i == 0 ==> x == h.a
    requires i == 1 ==> x == h.b
    requires i == 2 ==> x == h.c
    requires i == 3 ==> x == h.d
    requires i == 4 ==> x == h.e
    ensures Digest(h)[4 * i..4 * i + 4] == WordBytes(x)
  {
    var d := Digest(h);
    if i == 0 {
      assert d[0..4] == WordBytes(h.a);
    } else if i == 1 {
      assert d[4..8] == WordBytes(h.b);
    } else if i == 2 {
      assert d[8..12] == WordBytes(h.c);
    } else if i == 3 {
      assert d[12..16] == WordBytes(h.d);
    } else {
      assert d[16..20] == WordBytes(h.e);
    }
  }
}
