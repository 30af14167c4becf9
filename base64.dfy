/** Base64 encoding of RFC 4648, section 4, as both copies in the sources
    compute it: EncodeBase64 of src/util.h and Base64Encode of
    src/realtime_file_monitor.cc. The specification Encode works on
    groups of three octets; Decode, its inverse, shows that nothing is
    lost. */
module Base64 {
  import opened Bytes

  /** A run of n consecutive ASCII codes from `first`. */
  function Run(first: byte, n: nat): (r: seq<byte>)
    requires first as int + n <= 256
    ensures |r| == n
  {
    seq(n, i requires 0 <= i < n => first + (i as bv8))
  }

  /** The 64-symbol alphabet of section 4 (table 1): A-Z, a-z, 0-9, '+', '/'. */
  const Alphabet: seq<byte> := Run(0x41, 26) + Run(0x61, 26) + Run(0x30, 10) + [0x2B, 0x2F]

  /** The pad symbol '='. */
  const Pad: byte := 0x3D

  /** The value of a symbol, or None for an octet outside the alphabet. */
  function ValueOf(c: byte): (v: Option<bv8>)
    ensures v.Some? ==> v.value < 64
  {
    if 0x41 <= c <= 0x5A then Some(c - 0x41)
    else if 0x61 <= c <= 0x7A then Some(c - 0x61 + 26)
    else if 0x30 <= c <= 0x39 then Some(c - 0x30 + 52)
    else if c == 0x2B then Some(62)
    else if c == 0x2F then Some(63)
    else None
  }

  /** Symbol k of the alphabet has value k, so no two symbols coincide, and
      the pad symbol is not one of them. */
  lemma {:induction false} ValueOfSymbol(k: bv8)
    requires k < 64
    ensures ValueOf(Alphabet[k]) == Some(k)
    ensures Alphabet[k] != Pad
  {
    if k < 26 {
      UpperCase(k);
    } else if k < 52 {
      LowerCase(k);
    } else if k < 62 {
      Digit(k);
    }
  }

  lemma {:induction false} UpperCase(k: bv8)
    requires k < 26
    ensures Alphabet[k] == 0x41 + k
  {
  }

  lemma {:induction false} LowerCase(k: bv8)
    requires 26 <= k < 52
    ensures Alphabet[k] == 0x61 + (k - 26)
  {
    assert Alphabet[k] == Run(0x61, 26)[k - 26];
  }

  lemma {:induction false} Digit(k: bv8)
    requires 52 <= k < 62
    ensures Alphabet[k] == 0x30 + (k - 52)
  {
    assert Alphabet[k] == Run(0x30, 10)[k - 52];
  }

  /** The four 6-bit groups of a 24-bit input group, most significant
      first. */
  function Sextet0(a: byte): (s: bv8)
    ensures s < 64
  {
    (a & 0xFC) >> 2
  }

  function Sextet1(a: byte, b: byte): (s: bv8)
    ensures s < 64
  {
    ((a & 0x03) << 4) | ((b & 0xF0) >> 4)
  }

  function Sextet2(b: byte, c: byte): (s: bv8)
    ensures s < 64
  {
    ((b & 0x0F) << 2) | ((c & 0xC0) >> 6)
  }

  function Sextet3(c: byte): (s: bv8)
    ensures s < 64
  {
    c & 0x3F
  }

  /** src/util.h joins the two parts of sextets 1 and 2 with `+`; the
      parts occupy disjoint bits, so the sum is the same as the `|` of the
      specification and of src/realtime_file_monitor.cc. */
  function Sextet1Sum(a: byte, b: byte): bv8
  {
    ((a & 0x03) << 4) + ((b & 0xF0) >> 4)
  }

  function Sextet2Sum(b: byte, c: byte): bv8
  {
    ((b & 0x0F) << 2) + ((c & 0xC0) >> 6)
  }

  lemma {:induction false} SumIsOr(a: byte, b: byte, c: byte)
    ensures Sextet1Sum(a, b) == Sextet1(a, b)
    ensures Sextet2Sum(b, c) == Sextet2(b, c)
  {
  }

  /** The symbols of a run of sextets. */
  function Symbols(s: seq<bv8>): (r: seq<byte>)
    requires forall i | 0 <= i < |s| :: s[i] < 64
    ensures |r| == |s|
  {
    seq(|s|, i requires 0 <= i < |s| => Alphabet[s[i]])
  }

  lemma {:induction false} SymbolsSnoc(s: seq<bv8>, k: nat)
    requires k < |s| && forall i | 0 <= i < |s| :: s[i] < 64
    ensures Symbols(s[..k + 1]) == Symbols(s[..k]) + [Alphabet[s[k]]]
  {
  }

  /** The loop both encoders use to output symbols: the symbols of the
      first n sextets held in a. */
  method EmitSymbols(a: array<bv8>, n: nat) returns (symbols: seq<byte>)
    requires n <= a.Length && forall k | 0 <= k < n :: a[k] < 64
    ensures symbols == Symbols(a[..n])
  {
    symbols := [];
    for j := 0 to n
      invariant symbols == Symbols(a[..j])
    {
      SymbolsSnoc(a[..n], j);
      assert a[..n][..j] == a[..j] && a[..n][..j + 1] == a[..j + 1];
      symbols := symbols + [Alphabet[a[j]]];
    }
  }

  /** Three octets as four symbols. */
  function Quad(a: byte, b: byte, c: byte): (r: seq<byte>)
    ensures |r| == 4
  {
    Symbols([Sextet0(a), Sextet1(a, b), Sextet2(b, c), Sextet3(c)])
  }

  /** Section 4: each full group of three octets becomes four symbols; a
      final single octet becomes two symbols and "==", a final pair three
      symbols and "=" (the missing octets read as zero). */
  function Encode(m: seq<byte>): (r: seq<byte>)
    decreases |m|
  {
    if |m| == 0 then []
    else if |m| == 1 then [Alphabet[Sextet0(m[0])], Alphabet[Sextet1(m[0], 0)], Pad, Pad]
    else if |m| == 2 then [Alphabet[Sextet0(m[0])], Alphabet[Sextet1(m[0], m[1])], Alphabet[Sextet2(m[1], 0)], Pad]
    else Quad(m[0], m[1], m[2]) + Encode(m[3..])
  }

  /** Four symbols back to octets: the 6-bit groups concatenated and cut
      into 8-bit groups. */
  function Octet0(s0: bv8, s1: bv8): byte
  {
    (s0 << 2) | (s1 >> 4)
  }

  function Octet1(s1: bv8, s2: bv8): byte
  {
    ((s1 & 0x0F) << 4) | (s2 >> 2)
  }

  function Octet2(s2: bv8, s3: bv8): byte
  {
    ((s2 & 0x03) << 6) | s3
  }

  /** One group of four symbols back to octets: "xx==" gives one octet,
      "xxx=" two, "xxxx" three; None for an octet outside the alphabet or
      a misplaced pad. */
  function DecodeGroup(q: seq<byte>): (r: Option<seq<byte>>)
    requires |q| == 4
    ensures r.Some? ==> 1 <= |r.value| <= 3
  {
    var v0, v1, v2, v3 := ValueOf(q[0]), ValueOf(q[1]), ValueOf(q[2]), ValueOf(q[3]);
    if v0.None? || v1.None? then None
    else if q[2] == Pad && q[3] == Pad then Some([Octet0(v0.value, v1.value)])
    else if v2.None? then None
    else if q[3] == Pad then Some([Octet0(v0.value, v1.value), Octet1(v1.value, v2.value)])
    else if v3.None? then None
    else Some([Octet0(v0.value, v1.value), Octet1(v1.value, v2.value), Octet2(v2.value, v3.value)])
  }

  /** The inverse of Encode (section 4 read backwards): None for a text
      whose length is not a multiple of 4, for an octet outside the
      alphabet, and for padding anywhere but in the last group. */
  function Decode(e: seq<byte>): Option<seq<byte>>
    decreases |e|
  {
    if e == [] then Some([])
    else if |e| < 4 then None
    else
      match DecodeGroup(e[..4])
      case None => None
      case Some(g) =>
        if |g| < 3 then (if |e| == 4 then Some(g) else None)
        else
          match Decode(e[4..])
          case None => None
          case Some(rest) => Some(g + rest)
  }

  /** The sextets of a group put back together give the group. */
  lemma {:induction false} GroupRoundTrip(a: byte, b: byte, c: byte)
    ensures Octet0(Sextet0(a), Sextet1(a, b)) == a
    ensures Octet1(Sextet1(a, b), Sextet2(b, c)) == b
    ensures Octet2(Sextet2(b, c), Sextet3(c)) == c
  {
  }

  lemma {:induction false} DecodeQuad(a: byte, b: byte, c: byte)
    ensures DecodeGroup(Quad(a, b, c)) == Some([a, b, c])
  {
    var q := Quad(a, b, c);
    ValueOfSymbol(Sextet0(a));
    ValueOfSymbol(Sextet1(a, b));
    ValueOfSymbol(Sextet2(b, c));
    ValueOfSymbol(Sextet3(c));
    GroupRoundTrip(a, b, c);
  }

  lemma {:induction false} DecodeOne(a: byte)
    ensures DecodeGroup(Encode([a])) == Some([a])
  {
    ValueOfSymbol(Sextet0(a));
    ValueOfSymbol(Sextet1(a, 0));
    GroupRoundTrip(a, 0, 0);
  }

  lemma {:induction false} DecodeTwo(a: byte, b: byte)
    ensures DecodeGroup(Encode([a, b])) == Some([a, b])
  {
    var q := Encode([a, b]);
    ValueOfSymbol(Sextet0(a));
    ValueOfSymbol(Sextet1(a, b));
    ValueOfSymbol(Sextet2(b, 0));
    GroupRoundTrip(a, b, 0);
    assert q[2] != Pad && q[3] == Pad;
  }

  /** Round trip: decoding an encoding gives back the octets. */
  lemma {:induction false} DecodeEncode(m: seq<byte>)
    ensures Decode(Encode(m)) == Some(m)
    decreases |m|
  {
    hide DecodeGroup;
    var e := Encode(m);
    if |m| == 1 {
      DecodeOne(m[0]);
      assert m == [m[0]] && e[..4] == e;
    } else if |m| == 2 {
      DecodeTwo(m[0], m[1]);
      assert m == [m[0], m[1]] && e[..4] == e;
    } else if |m| >= 3 {
      DecodeQuad(m[0], m[1], m[2]);
      FirstGroup(m);
      DecodeEncode(m[3..]);
      assert m == [m[0], m[1], m[2]] + m[3..];
    }
  }

  /** The first four symbols encode the first three octets. */
  lemma {:induction false} FirstGroup(m: seq<byte>)
    requires |m| >= 3
    ensures |Encode(m)| >= 4
    ensures Encode(m)[..4] == Quad(m[0], m[1], m[2]) && Encode(m)[4..] == Encode(m[3..])
  {
    hide Quad;
    var q, t := Quad(m[0], m[1], m[2]), Encode(m[3..]);
    assert Encode(m) == q + t;
    assert (q + t)[..4] == q;
  }

  /** The output length: four symbols per started group of three. */
  lemma {:induction false} EncodeLength(m: seq<byte>)
    ensures |Encode(m)| == 4 * ((|m| + 2) / 3)
    decreases |m|
  {
    if |m| >= 3 {
      EncodeLength(m[3..]);
    }
  }

  /** Whole groups give symbols of the alphabet only, never the pad. */
  lemma {:induction false} WholeGroupSymbols(m: seq<byte>)
    requires |m| % 3 == 0
    ensures forall i | 0 <= i < |Encode(m)| :: Encode(m)[i] in Alphabet && Encode(m)[i] != Pad
    decreases |m|
  {
    if |m| > 0 {
      QuadSymbols(m[0], m[1], m[2]);
      WholeGroupSymbols(m[3..]);
      FirstGroup(m);
      hide Encode, Quad;
      var e := Encode(m);
      forall i | 0 <= i < |e|
        ensures e[i] in Alphabet && e[i] != Pad
      {
        if i < 4 {
          assert e[i] == e[..4][i];
        } else {
          assert e[i] == e[4..][i - 4];
        }
      }
    }
  }

  /** The four symbols of a whole group are symbols of the alphabet. */
  lemma {:induction false} QuadSymbols(a: byte, b: byte, c: byte)
    ensures forall i | 0 <= i < 4 :: Quad(a, b, c)[i] in Alphabet && Quad(a, b, c)[i] != Pad
  {
    ValueOfSymbol(Sextet0(a));
    ValueOfSymbol(Sextet1(a, b));
    ValueOfSymbol(Sextet2(b, c));
    ValueOfSymbol(Sextet3(c));
  }

  /** The encoding of the whole groups, then that of the octets left over. */
  lemma {:induction false} SplitTail(m: seq<byte>) returns (w: nat)
    ensures w == |m| - |m| % 3 && |m[..w]| % 3 == 0
    ensures Encode(m) == Encode(m[..w]) + Encode(m[w..])
  {
    w := |m| - |m| % 3;
    assert m == m[..w] + m[w..];
    EncodeAppend(m[..w], m[w..]);
  }

  /** Every output octet is a symbol of the alphabet or the pad symbol. */
  lemma {:induction false} EncodeSymbols(m: seq<byte>)
    ensures forall i | 0 <= i < |Encode(m)| :: Encode(m)[i] in Alphabet || Encode(m)[i] == Pad
  {
    var w := SplitTail(m);
    WholeGroupSymbols(m[..w]);
  }

  /** The pad symbol appears only at the end: twice when one octet is left
      over, once when two are, never otherwise. */
  lemma {:induction false} EncodePadding(m: seq<byte>)
    ensures var e := Encode(m);
      (|m| % 3 == 0 ==> Pad !in e) &&
      (|m| % 3 == 1 ==> |e| >= 4 && e[|e| - 2..] == [Pad, Pad] && Pad !in e[..|e| - 2]) &&
      (|m| % 3 == 2 ==> |e| >= 4 && e[|e| - 1] == Pad && Pad !in e[..|e| - 1])
  {
    var w := SplitTail(m);
    WholeGroupSymbols(m[..w]);
    if |m| % 3 == 1 {
      OneLeftOver(m, w);
    } else if |m| % 3 == 2 {
      TwoLeftOver(m, w);
    }
  }

  lemma {:induction false} OneLeftOver(m: seq<byte>, w: nat)
    requires w == |m| - 1 && Encode(m) == Encode(m[..w]) + Encode(m[w..])
    requires Pad !in Encode(m[..w])
    ensures var e := Encode(m);
      |e| >= 4 && e[|e| - 2..] == [Pad, Pad] && Pad !in e[..|e| - 2]
  {
    var h, t := Encode(m[..w]), Encode(m[w..]);
    ValueOfSymbol(Sextet0(m[w]));
    ValueOfSymbol(Sextet1(m[w], 0));
    assert t[..2] == [Alphabet[Sextet0(m[w])], Alphabet[Sextet1(m[w], 0)]];
    assert (h + t)[..|h| + 2] == h + t[..2];
    assert (h + t)[|h| + 2..] == t[2..];
  }

  lemma {:induction false} TwoLeftOver(m: seq<byte>, w: nat)
    requires w == |m| - 2 && Encode(m) == Encode(m[..w]) + Encode(m[w..])
    requires Pad !in Encode(m[..w])
    ensures var e := Encode(m);
      |e| >= 4 && e[|e| - 1] == Pad && Pad !in e[..|e| - 1]
  {
    var h, t := Encode(m[..w]), Encode(m[w..]);
    ValueOfSymbol(Sextet0(m[w]));
    ValueOfSymbol(Sextet1(m[w], m[w + 1]));
    ValueOfSymbol(Sextet2(m[w + 1], 0));
    assert t[..3] == [Alphabet[Sextet0(m[w])], Alphabet[Sextet1(m[w], m[w + 1])], Alphabet[Sextet2(m[w + 1], 0)]];
    assert (h + t)[..|h| + 3] == h + t[..3];
  }

  /** A multiple of 3 octets is a run of whole groups. */
  lemma {:induction false} WholeGroups(g: nat)
    ensures (3 * g) % 3 == 0
  {
  }

  /** The loop step of the encoders: a whole group read into the
      three-octet buffer adds its four symbols to the encoding so far. */
  lemma {:induction false} GroupStep(m: seq<byte>, d: nat, group: seq<byte>, done: seq<byte>, g: nat)
    requires d == 3 * g && d + 3 <= |m| && group == m[d..d + 3]
    requires done == Encode(m[..d])
    ensures done + Quad(group[0], group[1], group[2]) == Encode(m[..d + 3])
  {
    hide Quad;
    WholeGroups(g);
    EncodeStep(m, d);
    assert group[0] == m[d] && group[1] == m[d + 1] && group[2] == m[d + 2];
  }

  /** One more whole group: its four symbols follow. */
  lemma {:induction false} EncodeStep(m: seq<byte>, d: nat)
    requires d % 3 == 0 && d + 3 <= |m|
    ensures Encode(m[..d + 3]) == Encode(m[..d]) + Quad(m[d], m[d + 1], m[d + 2])
  {
    assert m[..d + 3] == m[..d] + m[d..d + 3];
    EncodeAppend(m[..d], m[d..d + 3]);
    assert Encode(m[d..d + 3]) == Quad(m[d], m[d + 1], m[d + 2]) + Encode([]);
  }

  /** A final one or two octets: the symbols of the first two or three
      sextets of the zero-completed group, then '=' up to four. */
  lemma {:induction false} TailGroup(t: seq<byte>, sextets: seq<bv8>)
    requires 1 <= |t| <= 2 && |sextets| == |t| + 1
    requires sextets[0] == Sextet0(t[0])
    requires sextets[1] == Sextet1(t[0], if |t| == 2 then t[1] else 0)
    requires |t| == 2 ==> sextets[2] == Sextet2(t[1], 0)
    ensures forall i | 0 <= i < |sextets| :: sextets[i] < 64
    ensures Symbols(sextets) + seq(3 - |t|, _ => Pad) == Encode(t)
  {
  }

  /** Encoding splits at every whole group: what the loops of both
      encoders rely on. */
  lemma {:induction false} EncodeAppend(m: seq<byte>, t: seq<byte>)
    requires |m| % 3 == 0
    ensures Encode(m + t) == Encode(m) + Encode(t)
    decreases |m|
  {
    if |m| > 0 {
      assert (m + t)[3..] == m[3..] + t;
      EncodeAppend(m[3..], t);
    } else {
      assert m + t == t;
    }
  }
}

/** EncodeBase64 of src/util.h: octets are collected in char_array_3; each
    time three are there, their sextets go to char_array_4 and out as four
    symbols; a final one or two octets are completed with zeros, and the
    symbols needed are followed by '=' up to four. */
module UtilBase64 {
  import opened Bytes
  import opened Base64

  method EncodeBase64(input: seq<byte>) returns (encoded: seq<byte>)
    ensures encoded == Encode(input)
  {
    hide Quad;
    var len: nat := |input|;
    var data: nat := 0;
    var i: nat := 0;
    var charArray3 := new byte[3];
    var charArray4 := new byte[4];
    encoded := [];
    assert encoded == Encode(input[..0]);
    hide Encode;
    ghost var groups: nat := 0;
    while len > 0
      invariant data + len == |input| && data == 3 * groups + i && i < 3
      invariant charArray3[..i] == input[data - i..data]
      invariant encoded == Encode(input[..3 * groups])
      decreases len
    {
      len := len - 1;
      ghost var kept := charArray3[..i];
      charArray3[i] := input[data];
      assert charArray3[..i + 1] == kept + [input[data]];
      assert input[data - i..data + 1] == input[data - i..data] + [input[data]];
      data := data + 1;
      i := i + 1;
      if i == 3 {
        assert charArray3[..3] == input[3 * groups..3 * groups + 3];
        encoded := AppendGroup(input, charArray3, charArray4, groups, encoded);
        i := 0;
        groups := groups + 1;
      }
    }
    WholeGroups(groups);
    encoded := FinishTail(input, charArray3, charArray4, i, encoded);
  }

  /** The `if (i == 3)` branch: the four symbols of the full group are
      appended. */
  method AppendGroup(input: seq<byte>, charArray3: array<byte>, charArray4: array<byte>, ghost groups: nat, done: seq<byte>)
    returns (r: seq<byte>)
    requires charArray3.Length == 3 && charArray4.Length == 4 && charArray3 != charArray4
    requires 3 * groups + 3 <= |input| && charArray3[..3] == input[3 * groups..3 * groups + 3]
    requires done == Encode(input[..3 * groups])
    modifies charArray4
    ensures r == Encode(input[..3 * groups + 3])
  {
    hide Quad, Encode;
    GroupStep(input, 3 * groups, charArray3[..3], done, groups);
    var symbols := EmitGroup(charArray3, charArray4);
    r := done + symbols;
  }

  /** After the loop of EncodeBase64: one or two octets left in char_array_3
      are emitted with their padding; none left adds nothing. */
  method FinishTail(input: seq<byte>, charArray3: array<byte>, charArray4: array<byte>, i: nat, done: seq<byte>)
    returns (r: seq<byte>)
    requires charArray3.Length == 3 && charArray4.Length == 4 && i < 3 && i <= |input| && (|input| - i) % 3 == 0
    requires charArray3[..i] == input[|input| - i..] && done == Encode(input[..|input| - i])
    modifies charArray3, charArray4
    ensures r == Encode(input)
  {
    hide Encode;
    r := done;
    if i != 0 {
      var symbols := EmitTail(charArray3, charArray4, i);
      r := r + symbols;
      EncodeAppend(input[..|input| - i], input[|input| - i..]);
      assert input[..|input| - i] + input[|input| - i..] == input;
    } else {
      assert input[..|input|] == input;
    }
  }

  /** A full char_array_3: the four sextets, joined with `+`, and their
      symbols. */
  method EmitGroup(charArray3: array<byte>, charArray4: array<byte>) returns (symbols: seq<byte>)
    requires charArray3.Length == 3 && charArray4.Length == 4
    modifies charArray4
    ensures symbols == Quad(charArray3[0], charArray3[1], charArray3[2])
  {
    hide Sextet0, Sextet1, Sextet2, Sextet3, Sextet1Sum, Sextet2Sum;
    charArray4[0] := Sextet0(charArray3[0]);
    charArray4[1] := Sextet1Sum(charArray3[0], charArray3[1]);
    charArray4[2] := Sextet2Sum(charArray3[1], charArray3[2]);
    charArray4[3] := Sextet3(charArray3[2]);
    SumIsOr(charArray3[0], charArray3[1], charArray3[2]);
    ghost var sextets := [Sextet0(charArray3[0]), Sextet1(charArray3[0], charArray3[1]), Sextet2(charArray3[1], charArray3[2]), Sextet3(charArray3[2])];
    assert charArray4[..4] == sextets;
    symbols := EmitSymbols(charArray4, 4);
  }

  /** One or two octets left: zero the rest of char_array_3, emit the
      first i + 1 symbols, then '=' until i reaches 3. */
  method EmitTail(charArray3: array<byte>, charArray4: array<byte>, i: nat) returns (symbols: seq<byte>)
    requires charArray3.Length == 3 && charArray4.Length == 4 && 1 <= i <= 2
    modifies charArray3, charArray4
    ensures symbols == Encode(old(charArray3[..i]))
  {
    ghost var t := charArray3[..i];
    for j := i to 3
      invariant charArray3[..i] == t
      invariant forall k | i <= k < j :: charArray3[k] == 0
    {
      charArray3[j] := 0;
    }
    charArray4[0] := Sextet0(charArray3[0]);
    charArray4[1] := Sextet1Sum(charArray3[0], charArray3[1]);
    charArray4[2] := Sextet2Sum(charArray3[1], charArray3[2]);
    charArray4[3] := Sextet3(charArray3[2]);
    SumIsOr(charArray3[0], charArray3[1], charArray3[2]);
    symbols := EmitSymbols(charArray4, i + 1);
    var n := i;
    while n < 3
      invariant i <= n <= 3
      invariant symbols == Symbols(charArray4[..i + 1]) + seq(n - i, _ => Pad)
    {
      n := n + 1;
      symbols := symbols + [Pad];
    }
    TailGroup(t, charArray4[..i + 1]);
  }
}
