/** WebSocket base framing (RFC 6455, section 5.2) and payload masking
    (section 5.3) as src/core.h builds and parses frames. */
module Frame {
  import opened Bytes

  /** WSOpcode: the 4-bit frame type. */
  datatype Opcode = Continuation | Text | Binary | Close | Ping | Pong

  function Code(op: Opcode): (c: byte)
    ensures c & 0xF0 == 0
  {
    match op
    case Continuation => 0x0
    case Text => 0x1
    case Binary => 0x2
    case Close => 0x8
    case Ping => 0x9
    case Pong => 0xA
  }

  /** Largest payload the 16-bit extended length can describe; the codec
      never produces the 64-bit form. */
  const MaxPayload: nat := 0xFFFF

  /** Payload length field of section 5.2: the length itself when below
      126, otherwise the marker 126 and the length as 16 bits, most
      significant byte first. */
  function LengthField(n: nat): (r: seq<byte>)
    requires n <= MaxPayload
  {
    if n < 126 then [ByteOf(n)] else [126, ByteOf(n / 0x100), ByteOf(n % 0x100)]
  }

  /** An unmasked, final frame carrying `m`. */
  function EncodeFrame(m: seq<byte>, op: Opcode): seq<byte>
    requires |m| <= MaxPayload
  {
    [0x80 | Code(op)] + LengthField(|m|) + m
  }

  /** Masking of section 5.3: octet i is XOR-ed with octet i mod 4 of the key. */
  function Mask(data: seq<byte>, key: seq<byte>): (r: seq<byte>)
    requires |key| == 4
    ensures |r| == |data|
  {
    seq(|data|, i requires 0 <= i < |data| => data[i] ^ key[i % 4])
  }

  /** A masked final frame as a conforming client sends it: the mask bit
      set in the second octet, the masking key after the length field. */
  function EncodeMaskedFrame(m: seq<byte>, op: Opcode, key: seq<byte>): seq<byte>
    requires |m| <= MaxPayload && |key| == 4
  {
    var len := LengthField(|m|);
    [0x80 | Code(op), 0x80 | len[0]] + len[1..] + key + Mask(m, key)
  }

  /** What the first two to four octets of a received buffer declare:
      whether the payload is masked, its length, and where the masking
      key (or else the payload) starts. None for a buffer shorter than its
      length field and for the 64-bit length code 127. */
  datatype Header = Header(masked: bool, length: nat, start: nat)

  function ReadHeader(buffer: seq<byte>): (h: Option<Header>)
    ensures h.Some? ==> h.value.start <= |buffer| && h.value.start in {2, 4}
  {
    if |buffer| < 2 then None
    else
      var masked := buffer[1] & 0x80 != 0;
      var code := buffer[1] & 0x7F;
      if code == 127 then None
      else if code == 126 then
        if |buffer| < 4 then None
        else Some(Header(masked, buffer[2] as int * 0x100 + buffer[3] as int, 4))
      else Some(Header(masked, code as int, 2))
  }

  /** The payload a received buffer carries, or None where the header is
      unreadable or the buffer is shorter than the header declares. */
  function Decode(buffer: seq<byte>): Option<seq<byte>>
  {
    match ReadHeader(buffer)
    case None => None
    case Some(Header(masked, len, pos)) =>
      if masked then
        if |buffer| < pos + 4 + len then None
        else Some(Mask(buffer[pos + 4..pos + 4 + len], buffer[pos..pos + 4]))
      else
        if |buffer| < pos + len then None
        else Some(buffer[pos..pos + len])
  }

  /** ParseWSFrame's result: the payload, or "" on every failure. */
  function PayloadOrEmpty(d: Option<seq<byte>>): seq<byte>
  {
    match d
    case Some(p) => p
    case None => []
  }

  /** BuildWSFrame: FIN is set, the low nibble of the first octet is the
      opcode, the mask bit is clear, and the payload follows a 1- or
      3-octet length field. A payload above 0xFFFF octets gets no length
      field at all (the 64-bit form is not implemented). */
  method BuildWSFrame(message: seq<byte>, opcode: Opcode) returns (frame: seq<byte>)
    ensures |message| <= MaxPayload ==> frame == EncodeFrame(message, opcode)
    ensures |message| > MaxPayload ==> frame == [0x80 | Code(opcode)] + message
    ensures frame[0] & 0x80 == 0x80 && frame[0] & 0x0F == Code(opcode)
    ensures |message| < 126 ==> |frame| == |message| + 2 && frame[1] == ByteOf(|message|) && frame[1] & 0x80 == 0
    ensures 126 <= |message| <= MaxPayload ==> (|frame| == |message| + 4 && frame[1] == 126
      && frame[2] == ByteOf(|message| / 0x100) && frame[3] == ByteOf(|message| % 0x100))
    ensures frame[|frame| - |message|..] == message
  {
    frame := [0x80 | Code(opcode)];
    var len := |message|;
    if len < 126 {
      frame := frame + [ByteOf(len)];
      SmallLengthUnmasked(len);
    } else if len <= 0xFFFF {
      frame := frame + [126, ByteOf((len / 0x100) % 0x100), ByteOf(len % 0x100)];
    }
    frame := frame + message;
  }

  lemma {:induction false} SmallLengthUnmasked(n: int)
    requires 0 <= n < 126
    ensures ByteOf(n) & 0x80 == 0 && ByteOf(n) & 0x7F == ByteOf(n) && (ByteOf(n) & 0x7F) as int == n
  {
    ByteOfValue(n);
  }

  /** ParseWSFrame: the received frame's payload, unmasked when the mask
      bit is set, or "" where Decode fails. */
  method ParseWSFrame(buffer: seq<byte>) returns (message: seq<byte>)
    ensures message == PayloadOrEmpty(Decode(buffer))
  {
    var header := ParseHeader(buffer);
    if header.None? {
      return [];
    }
    var Header(mask, payloadLen, pos) := header.value;
    if mask {
      if |buffer| < pos + 4 + payloadLen {
        return [];
      }
      message := UnmaskPayload(buffer, pos, payloadLen);
    } else {
      if |buffer| < pos + payloadLen {
        return [];
      }
      message := CopyPayload(buffer, pos, payloadLen);
    }
  }

  /** The header part of ParseWSFrame: the mask bit, the 7-bit length code
      and, for code 126, the 16-bit extended length. */
  method ParseHeader(buffer: seq<byte>) returns (header: Option<Header>)
    ensures header == ReadHeader(buffer)
  {
    if |buffer| < 2 {
      return None;
    }
    var byte2 := buffer[1];
    var mask := byte2 & 0x80 != 0;
    var payloadLen: int := (byte2 & 0x7F) as int;
    var pos := 2;
    if byte2 & 0x7F == 126 {
      if |buffer| < 4 {
        return None;
      }
      payloadLen := buffer[2] as int * 0x100 + buffer[3] as int;
      pos := pos + 2;
    } else if byte2 & 0x7F == 127 {
      return None;
    }
    header := Some(Header(mask, payloadLen, pos));
  }

  /** The masked branch of ParseWSFrame: copy the 4-octet key at `pos`,
      then XOR each payload octet after it with key octet i mod 4. */
  method UnmaskPayload(buffer: seq<byte>, pos: nat, payloadLen: nat) returns (message: seq<byte>)
    requires pos + 4 + payloadLen <= |buffer|
    ensures message == Mask(buffer[pos + 4..pos + 4 + payloadLen], buffer[pos..pos + 4])
  {
    var maskKey := new byte[4];
    for i := 0 to 4
      invariant maskKey[..i] == buffer[pos..pos + i]
    {
      maskKey[i] := buffer[pos + i];
    }
    var start := pos + 4;
    ghost var key := maskKey[..];
    assert key == buffer[pos..pos + 4];
    ghost var data := buffer[start..start + payloadLen];
    message := [];
    for i := 0 to payloadLen
      invariant maskKey[..] == key
      invariant message == Mask(data[..i], key)
    {
      MaskSnoc(data, key, i);
      assert data[i] == buffer[start + i];
      message := message + [buffer[start + i] ^ maskKey[i % 4]];
    }
    assert data[..payloadLen] == data;
  }

  /** The unmasked branch of ParseWSFrame: the payload octets as they are. */
  method CopyPayload(buffer: seq<byte>, pos: nat, payloadLen: nat) returns (message: seq<byte>)
    requires pos + payloadLen <= |buffer|
    ensures message == buffer[pos..pos + payloadLen]
  {
    message := [];
    for i := 0 to payloadLen
      invariant message == buffer[pos..pos + i]
    {
      message := message + [buffer[pos + i]];
    }
  }

  /** The failure cases: fewer than 2 octets, length code 127, length code
      126 without its two extension octets, or fewer octets than the header,
      the masking key and the declared payload need. */
  lemma {:induction false} DecodeFailures(buffer: seq<byte>)
    ensures |buffer| < 2 ==> Decode(buffer) == None
    ensures |buffer| >= 2 && buffer[1] & 0x7F == 127 ==> Decode(buffer) == None
    ensures 2 <= |buffer| < 4 && buffer[1] & 0x7F == 126 ==> Decode(buffer) == None
    ensures ReadHeader(buffer).Some? ==>
      var h := ReadHeader(buffer).value;
      (Decode(buffer) == None <==> |buffer| < h.start + (if h.masked then 4 else 0) + h.length)
  {
  }

  /** A masked payload is the declared number of octets after the key,
      each XOR-ed with key octet i mod 4. */
  lemma {:induction false} DecodeMasked(buffer: seq<byte>)
    requires ReadHeader(buffer).Some? && ReadHeader(buffer).value.masked
    requires Decode(buffer).Some?
    ensures var h := ReadHeader(buffer).value; var p := Decode(buffer).value;
      |p| == h.length && h.start + 4 + h.length <= |buffer| &&
      forall i | 0 <= i < |p| :: p[i] == buffer[h.start + 4 + i] ^ buffer[h.start + i % 4]
  {
  }

  /** Round trip: parsing a built frame gives back its payload, whatever
      the opcode and whatever bytes follow the frame. */
  lemma {:induction false} DecodeEncode(m: seq<byte>, op: Opcode, rest: seq<byte>)
    requires |m| <= MaxPayload
    ensures Decode(EncodeFrame(m, op) + rest) == Some(m)
  {
    var f := EncodeFrame(m, op) + rest;
    var n := |m|;
    if n < 126 {
      assert f[1] == ByteOf(n);
      ShortHeader(f, n, false);
      assert f[2..2 + n] == m;
    } else {
      assert f[1] == 126 && f[2] == ByteOf(n / 0x100) && f[3] == ByteOf(n % 0x100);
      ExtendedHeader(f, n, false);
      assert f[4..4 + n] == m;
    }
  }

  /** The header of a frame whose second octet carries a length below 126. */
  lemma {:induction false} ShortHeader(f: seq<byte>, n: nat, masked: bool)
    requires n < 126 && |f| >= 2
    requires f[1] == if masked then 0x80 | ByteOf(n) else ByteOf(n)
    ensures ReadHeader(f) == Some(Header(masked, n, 2))
  {
    SmallLengthUnmasked(n);
    if masked {
      MaskedLength(ByteOf(n));
    }
  }

  /** The header of a frame with the 16-bit extended length (which a
      reader takes as it stands, even below 126). */
  lemma {:induction false} ExtendedHeader(f: seq<byte>, n: nat, masked: bool)
    requires n <= MaxPayload && |f| >= 4
    requires f[1] == if masked then 0x80 | 126 else 126
    requires f[2] == ByteOf(n / 0x100) && f[3] == ByteOf(n % 0x100)
    ensures ReadHeader(f) == Some(Header(masked, n, 4))
  {
    ByteOfValue(n / 0x100);
    ByteOfValue(n % 0x100);
  }

  lemma {:induction false} MaskSnoc(data: seq<byte>, key: seq<byte>, i: nat)
    requires |key| == 4 && i < |data|
    ensures Mask(data[..i + 1], key) == Mask(data[..i], key) + [data[i] ^ key[i % 4]]
  {
  }

  lemma {:induction false} MaskInvolution(data: seq<byte>, key: seq<byte>)
    requires |key| == 4
    ensures Mask(Mask(data, key), key) == data
  {
  }

  /** Masking a payload with any key and then parsing recovers it. */
  lemma {:induction false} DecodeMaskedEncode(m: seq<byte>, op: Opcode, key: seq<byte>, rest: seq<byte>)
    requires |m| <= MaxPayload && |key| == 4
    ensures Decode(EncodeMaskedFrame(m, op, key) + rest) == Some(m)
  {
    if |m| < 126 {
      ShortMaskedLayout(m, op, key, rest);
    } else {
      ExtendedMaskedLayout(m, op, key, rest);
    }
    MaskInvolution(m, key);
  }

  lemma {:induction false} ShortMaskedLayout(m: seq<byte>, op: Opcode, key: seq<byte>, rest: seq<byte>)
    requires |m| < 126 && |key| == 4
    ensures var f := EncodeMaskedFrame(m, op, key) + rest;
      |f| >= 6 + |m| && ReadHeader(f) == Some(Header(true, |m|, 2)) && f[2..6] == key && f[6..6 + |m|] == Mask(m, key)
  {
    var f := EncodeMaskedFrame(m, op, key) + rest;
    assert f[1] == 0x80 | ByteOf(|m|);
    ShortHeader(f, |m|, true);
    assert f[2..6] == key;
    assert f[6..6 + |m|] == Mask(m, key);
  }

  lemma {:induction false} ExtendedMaskedLayout(m: seq<byte>, op: Opcode, key: seq<byte>, rest: seq<byte>)
    requires 126 <= |m| <= MaxPayload && |key| == 4
    ensures var f := EncodeMaskedFrame(m, op, key) + rest;
      |f| >= 8 + |m| && ReadHeader(f) == Some(Header(true, |m|, 4)) && f[4..8] == key && f[8..8 + |m|] == Mask(m, key)
  {
    var f := EncodeMaskedFrame(m, op, key) + rest;
    var n := |m|;
    assert f[1] == 0x80 | 126 && f[2] == ByteOf(n / 0x100) && f[3] == ByteOf(n % 0x100);
    ExtendedHeader(f, n, true);
    assert f[4..8] == key;
    assert f[8..8 + n] == Mask(m, key);
  }

  lemma {:induction false} MaskedLength(b: byte)
    requires b & 0x80 == 0
    ensures (0x80 | b) & 0x80 != 0 && (0x80 | b) & 0x7F == b
  {
  }

  /** The first octet (FIN, RSV and opcode) never influences the payload. */
  lemma {:induction false} FirstOctetIgnored(buffer: seq<byte>, x: byte)
    requires |buffer| >= 1
    ensures Decode([x] + buffer[1..]) == Decode(buffer)
  {
    var b := [x] + buffer[1..];
    assert b[1..] == buffer[1..];
    if |buffer| >= 2 {
      SameHeader(b, buffer);
      match ReadHeader(buffer)
      case None =>
      case Some(Header(masked, len, pos)) =>
        if masked && |buffer| >= pos + 4 + len {
          SameSlice(b, buffer, pos, pos + 4 + len);
          SameSlice(b, buffer, pos, pos + 4);
          SameSlice(b, buffer, pos + 4, pos + 4 + len);
        } else if !masked && |buffer| >= pos + len {
          SameSlice(b, buffer, pos, pos + len);
        }
    }
  }

  /** Two buffers that agree after their first octet declare the same header. */
  lemma {:induction false} SameHeader(b: seq<byte>, b': seq<byte>)
    requires |b| == |b'| >= 2 && b[1..] == b'[1..]
    ensures ReadHeader(b) == ReadHeader(b')
  {
    assert b[1] == b[1..][0] == b'[1];
    if |b| >= 4 {
      assert b[2] == b[1..][1] == b'[2];
      assert b[3] == b[1..][2] == b'[3];
    }
  }

  lemma {:induction false} SameSlice(b: seq<byte>, b': seq<byte>, i: nat, j: nat)
    requires 1 <= i <= j <= |b| == |b'| && b[1..] == b'[1..]
    ensures b[i..j] == b'[i..j]
  {
    assert b[i..j] == b[1..][i - 1..j - 1];
    assert b'[i..j] == b'[1..][i - 1..j - 1];
  }

  /** A decoded payload never reaches past the received bytes: with the
      header the declared length fits in the buffer. */
  lemma {:induction false} DecodedFitsBuffer(buffer: seq<byte>)
    requires Decode(buffer).Some?
    ensures |Decode(buffer).value| + 2 <= |buffer|
  {
  }
}
