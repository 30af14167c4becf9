/** Base64Encode of src/realtime_file_monitor.cc: the same loop as
    EncodeBase64 of src/util.h, with the parts of sextets 1 and 2 joined by
    `|`, and with char_array_4[3] left as it was in the final group, where
    it is never output. */
module MonitorBase64 {
  import opened Bytes
  import opened Base64
  import UtilBase64

  method Base64Encode(input: seq<byte>) returns (output: seq<byte>)
    ensures output == Encode(input)
  {
    hide Quad;
    var len: nat := |input|;
    var data: nat := 0;
    var i: nat := 0;
    var charArray3 := new byte[3];
    var charArray4 := new byte[4];
    output := [];
    assert output == Encode(input[..0]);
    hide Encode;
    ghost var groups: nat := 0;
    while len > 0
      invariant data + len == |input| && data == 3 * groups + i && i < 3
      invariant charArray3[..i] == input[data - i..data]
      invariant output == Encode(input[..3 * groups])
      decreases len
    {
      len := len - 1;
      ghost var kept := charArray3[..i];
      charArray3[i] := input[data];
      assert charArray3[..i + 1] == kept + [input[data]];
      assert input[data - i..data + 1] == input[data - i..data] + [input[data]];
      data := data + 1;
      i := i + 1;
      if i == 3 {
        assert charArray3[..3] == input[3 * groups..3 * groups + 3];
        output := AppendGroup(input, charArray3, charArray4, groups, output);
        i := 0;
        groups := groups + 1;
      }
    }
    WholeGroups(groups);
    output := FinishTail(input, charArray3, charArray4, i, output);
  }

  /** The `if (i == 3)` branch: the four symbols of the full group are
      appended. */
  method AppendGroup(input: seq<byte>, charArray3: array<byte>, charArray4: array<byte>, ghost groups: nat, done: seq<byte>)
    returns (r: seq<byte>)
    requires charArray3.Length == 3 && charArray4.Length == 4 && charArray3 != charArray4
    requires 3 * groups + 3 <= |input| && charArray3[..3] == input[3 * groups..3 * groups + 3]
    requires done == Encode(input[..3 * groups])
    modifies charArray4
    ensures r == Encode(input[..3 * groups + 3])
  {
    hide Quad, Encode;
    GroupStep(input, 3 * groups, charArray3[..3], done, groups);
    var symbols := EmitGroup(charArray3, charArray4);
    r := done + symbols;
  }

  /** After the loop of Base64Encode: one or two octets left in char_array_3
      are emitted with their padding; none left adds nothing. */
  method FinishTail(input: seq<byte>, charArray3: array<byte>, charArray4: array<byte>, i: nat, done: seq<byte>)
    returns (r: seq<byte>)
    requires charArray3.Length == 3 && charArray4.Length == 4 && i < 3 && i <= |input| && (|input| - i) % 3 == 0
    requires charArray3[..i] == input[|input| - i..] && done == Encode(input[..|input| - i])
    modifies charArray3, charArray4
    ensures r == Encode(input)
  {
    hide Encode;
    r := done;
    if i != 0 {
      var symbols := EmitTail(charArray3, charArray4, i);
      r := r + symbols;
      EncodeAppend(input[..|input| - i], input[|input| - i..]);
      assert input[..|input| - i] + input[|input| - i..] == input;
    } else {
      assert input[..|input|] == input;
    }
  }

  /** A full char_array_3: the four sextets, joined with `|`, and their
      symbols. */
  method EmitGroup(charArray3: array<byte>, charArray4: array<byte>) returns (symbols: seq<byte>)
    requires charArray3.Length == 3 && charArray4.Length == 4
    modifies charArray4
    ensures symbols == Quad(charArray3[0], charArray3[1], charArray3[2])
  {
    hide Sextet0, Sextet1, Sextet2, Sextet3;
    charArray4[0] := Sextet0(charArray3[0]);
    charArray4[1] := Sextet1(charArray3[0], charArray3[1]);
    charArray4[2] := Sextet2(charArray3[1], charArray3[2]);
    charArray4[3] := Sextet3(charArray3[2]);
    ghost var sextets := [Sextet0(charArray3[0]), Sextet1(charArray3[0], charArray3[1]), Sextet2(charArray3[1], charArray3[2]), Sextet3(charArray3[2])];
    assert charArray4[..4] == sextets;
    symbols := EmitSymbols(charArray4, 4);
  }

  /** One or two octets left: zero the rest of char_array_3, compute
      sextets 0 to 2, emit the first i + 1 symbols, then '=' until i
      reaches 3. */
  method EmitTail(charArray3: array<byte>, charArray4: array<byte>, i: nat) returns (symbols: seq<byte>)
    requires charArray3.Length == 3 && charArray4.Length == 4 && 1 <= i <= 2
    modifies charArray3, charArray4
    ensures symbols == Encode(old(charArray3[..i]))
  {
    ghost var t := charArray3[..i];
    for j := i to 3
      invariant charArray3[..i] == t
      invariant forall k | i <= k < j :: charArray3[k] == 0
    {
      charArray3[j] := 0;
    }
    charArray4[0] := Sextet0(charArray3[0]);
    charArray4[1] := Sextet1(charArray3[0], charArray3[1]);
    charArray4[2] := Sextet2(charArray3[1], charArray3[2]);
    symbols := EmitSymbols(charArray4, i + 1);
    var n := i;
    while n < 3
      invariant i <= n <= 3
      invariant symbols == Symbols(charArray4[..i + 1]) + seq(n - i, _ => Pad)
    {
      n := n + 1;
      symbols := symbols + [Pad];
    }
    TailGroup(t, charArray4[..i + 1]);
  }

  /** The monitor's encoder and the one in src/util.h give the same text
      for every input. */
  method EncodersAgree(input: seq<byte>) returns (util: seq<byte>, monitor: seq<byte>)
    ensures util == monitor
    ensures |monitor| == 4 * ((|input| + 2) / 3)
  {
    util := UtilBase64.EncodeBase64(input);
    monitor := Base64Encode(input);
    EncodeLength(input);
  }
}
