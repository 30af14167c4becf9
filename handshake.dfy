/** The opening handshake of RFC 6455 (sections 1.3 and 4.2.2) as the
    chat server, the chat client and the file monitor carry it out: the
    accept key derived from the client's key, the 101 response, and the
    client's upgrade request. */
module Handshake {
  import opened Bytes
  import Sha1
  import Base64
  import opened HttpHeader

  /** The GUID of section 1.3 of RFC 6455. */
  const Guid: seq<byte> := Ascii("258EAFA5-E914-47DA-95CA-C5AB0DC85B11")

  const KeyName: seq<byte> := Ascii("Sec-WebSocket-Key")
  const AcceptName: seq<byte> := Ascii("Sec-WebSocket-Accept")
  const Switching: seq<byte> := Ascii("101 Switching Protocols")
  const UpgradeWebsocket: seq<byte> := Ascii("Upgrade: websocket")

  /** Sec-WebSocket-Accept for a Sec-WebSocket-Key: the base64 text of the
      SHA-1 digest of the key followed by the GUID. */
  function AcceptKey(key: seq<byte>): seq<byte>
  {
    Base64.Encode(Sha1.Hash(key + Guid))
  }

  /** A header value that survives the trimming of a header line: not
      empty, no blank at either end, no line break inside. */
  predicate IsToken(v: seq<byte>)
  {
    v != [] && !IsLeadingSpace(v[0]) && !IsTrailingSpace(v[|v| - 1]) && LF !in v
  }

  /** Neither a base64 symbol nor the pad symbol is a blank, a line break
      or NUL. */
  lemma {:induction false} SymbolNotBlank(c: byte)
    requires c in Base64.Alphabet || c == Base64.Pad
    ensures !IsLeadingSpace(c) && !IsTrailingSpace(c) && c != 0
  {
    if c != Base64.Pad {
      var k :| 0 <= k < |Base64.Alphabet| && Base64.Alphabet[k] == c;
      Base64.ValueOfSymbol(k as bv8);
    }
  }

  /** An accept key is 28 symbols of the base64 alphabet, the last one the
      pad symbol and no other, so it is a token. */
  lemma {:induction false} AcceptKeyShape(key: seq<byte>)
    ensures var a := AcceptKey(key);
      |a| == 28 && a[27] == Base64.Pad && Base64.Pad !in a[..27] &&
      (forall i | 0 <= i < 27 :: a[i] in Base64.Alphabet) && IsToken(a) && 0 !in a
  {
    hide Sha1.Hash, Base64.Encode;
    DigestEncodingShape(Sha1.Hash(key + Guid));
  }

  /** The base64 form of any 20 octets has that shape. */
  lemma {:induction false} DigestEncodingShape(h: seq<byte>)
    requires |h| == 20
    ensures var a := Base64.Encode(h);
      |a| == 28 && a[27] == Base64.Pad && Base64.Pad !in a[..27] &&
      (forall i | 0 <= i < 27 :: a[i] in Base64.Alphabet) && IsToken(a) && 0 !in a
  {
    hide Base64.Encode;
    var a := Base64.Encode(h);
    DigestEncodingLayout(h);
    SymbolsBeforePad(a);
    NoBlankSymbol(a);
  }

  /** Twenty octets are six whole groups and two left over: 28 symbols,
      only the last of them the pad. */
  lemma {:induction false} DigestEncodingLayout(h: seq<byte>)
    requires |h| == 20
    ensures var a := Base64.Encode(h);
      |a| == 28 && a[27] == Base64.Pad && Base64.Pad !in a[..27] &&
      forall i | 0 <= i < |a| :: a[i] in Base64.Alphabet || a[i] == Base64.Pad
  {
    hide Base64.Encode;
    assert |h| % 3 == 2 && (|h| + 2) / 3 * 4 == 28;
    Base64.EncodeLength(h);
    Base64.EncodePadding(h);
    Base64.EncodeSymbols(h);
  }

  lemma {:induction false} SymbolsBeforePad(a: seq<byte>)
    requires |a| == 28 && Base64.Pad !in a[..27]
    requires forall i | 0 <= i < |a| :: a[i] in Base64.Alphabet || a[i] == Base64.Pad
    ensures forall i | 0 <= i < 27 :: a[i] in Base64.Alphabet
  {
    forall i | 0 <= i < 27
      ensures a[i] in Base64.Alphabet
    {
      assert a[..27][i] == a[i];
    }
  }

  /** Symbols of the alphabet and the pad are neither blanks nor NUL, so
      such a text is a token. */
  lemma {:induction false} NoBlankSymbol(a: seq<byte>)
    requires |a| == 28 && a[27] == Base64.Pad && forall i | 0 <= i < 27 :: a[i] in Base64.Alphabet
    ensures IsToken(a) && 0 !in a
  {
    forall i | 0 <= i < 28
      ensures !IsLeadingSpace(a[i]) && !IsTrailingSpace(a[i]) && a[i] != 0
    {
      SymbolNotBlank(a[i]);
    }
  }

  /** A line `name: v` ended by CR gives v under both readings of the
      header scan, when name has no colon and v is a token. */
  lemma {:induction false} HeaderLineValue(name: seq<byte>, v: seq<byte>)
    requires 0x3A !in name && IsToken(v) && |v| < 0x1_0000_0000_0000_0000
    ensures var line := name + Colon + [0x20] + v + [CR];
      LineValueAsWritten(line, name + Colon) == Some(v) && LineValue(line, name + Colon) == Some(v)
  {
    var line := name + Colon + [0x20] + v + [CR];
    assert OccursAt(line, name + Colon, 0) by {
      assert line[0..|name| + 1] == name + Colon;
    }
    FirstColon(name, [0x20] + v + [CR]);
    assert line == name + Colon + ([0x20] + v + [CR]);
    TrimToken(v);
  }

  /** The first colon of `name:rest` is the one after name when name has
      none. */
  lemma {:induction false} FirstColon(name: seq<byte>, rest: seq<byte>)
    requires 0x3A !in name
    ensures var line := name + Colon + rest;
      Find(line, Colon, 0) == Some(|name|) && line[|name| + 1..] == rest
  {
    var line := name + Colon + rest;
    forall j | 0 <= j < |name|
      ensures !OccursAt(line, Colon, j)
    {
      assert line[j] == name[j];
      OccursAtHead(line, Colon, j);
    }
    assert OccursAt(line, Colon, |name|) by {
      assert line[|name|..|name| + 1] == Colon;
    }
    FindIs(line, Colon, |name|);
    assert line[|name| + 1..] == rest;
  }

  /** A token after one blank and before CR is trimmed back to itself. */
  lemma {:induction false} TrimToken(v: seq<byte>)
    requires IsToken(v) && |v| < 0x1_0000_0000_0000_0000
    ensures TrimAsWritten([0x20] + v + [CR]) == Some(v) && Trim([0x20] + v + [CR]) == Some(v)
  {
    var w := [0x20] + v + [CR];
    assert w[1..] == v + [CR];
    assert FirstNonBlank(w[1..]) == Some(0);
    assert FirstNonBlank(w) == Some(1);
    assert w[..|w| - 1] == [0x20] + v;
    assert LastNonTrailing(w[..|w| - 1]) == Some(|v|);
    assert LastNonTrailing(w) == Some(|v|);
    assert w[1..|v| + 1] == v;
    assert SizeT(|v| - 1 + 1) == |v|;
  }

  /** A line that lacks, at or after index i, the i-th symbol of the
      search text gives no value. */
  lemma {:induction false} LineWithout(line: seq<byte>, search: seq<byte>, i: nat)
    requires i < |search| && search[i] !in line
    ensures LineValueAsWritten(line, search).None? && LineValue(line, search).None?
  {
    NotContainsByPosition(line, search, i);
  }

  // The server's response, line by line; every line but the empty last
  // one ends with CR, and LF separates them.

  const StatusLine: seq<byte> := Ascii("HTTP/1.1 ") + Switching + [CR]
  const UpgradeLine: seq<byte> := UpgradeWebsocket + [CR]
  const ConnectionLine: seq<byte> := Ascii("Connection: Upgrade") + [CR]

  function AcceptLine(accept: seq<byte>): seq<byte>
  {
    AcceptName + Colon + [0x20] + accept + [CR]
  }

  /** The 101 response of the chat server and of the file monitor. */
  function Response(accept: seq<byte>): seq<byte>
  {
    StatusLine + [LF] + (UpgradeLine + [LF] + (ConnectionLine + [LF] + (AcceptLine(accept) + [LF] + ([CR] + [LF]))))
  }

  /** An octet that none of the fixed lines of the response holds. */
  lemma {:induction false} FixedLinesLack(c: char)
    requires c as int < 256 && c != '\r'
    requires c !in "HTTP/1.1 " && c !in "101 Switching Protocols"
    requires c !in "Upgrade: websocket" && c !in "Connection: Upgrade"
    ensures var b := (c as int) as bv8;
      b !in StatusLine && b !in UpgradeLine && b !in ConnectionLine
  {
    hide Ascii;
    StatusLineLacks(c);
    PlainLinesLack(c);
  }

  lemma {:induction false} StatusLineLacks(c: char)
    requires c as int < 256 && c != '\r'
    requires c !in "HTTP/1.1 " && c !in "101 Switching Protocols"
    ensures (c as int) as bv8 !in StatusLine
  {
    hide Ascii;
    AsciiLacks("HTTP/1.1 ", c);
    AsciiLacks("101 Switching Protocols", c);
  }

  /** The upgrade and connection lines, shared by the request and the
      response. */
  lemma {:induction false} PlainLinesLack(c: char)
    requires c as int < 256 && c != '\r'
    requires c !in "Upgrade: websocket" && c !in "Connection: Upgrade"
    ensures (c as int) as bv8 !in UpgradeLine && (c as int) as bv8 !in ConnectionLine
  {
    hide Ascii;
    AsciiLacks("Upgrade: websocket", c);
    AsciiLacks("Connection: Upgrade", c);
  }

  /** Four lines, each followed by LF, then the rest of the text. */
  lemma {:induction false} FourLines(s: seq<byte>, u: seq<byte>, c: seq<byte>, a: seq<byte>, t: seq<byte>)
    requires LF !in s && LF !in u && LF !in c && LF !in a
    ensures Lines(s + [LF] + (u + [LF] + (c + [LF] + (a + [LF] + t)))) == [s, u, c, a] + Lines(t)
  {
    hide Lines;
    LinesCons(a, t);
    LinesCons(c, a + [LF] + t);
    LinesCons(u, c + [LF] + (a + [LF] + t));
    LinesCons(s, u + [LF] + (c + [LF] + (a + [LF] + t)));
    assert [s] + ([u] + ([c] + ([a] + Lines(t)))) == [s, u, c, a] + Lines(t);
  }

  /** The blank line that ends a header block. */
  lemma {:induction false} BlankLine()
    ensures Lines([CR] + [LF]) == [[CR]]
  {
    assert Lines([]) == [];
    LinesCons([CR], []);
    assert [CR] + [LF] + [] == [CR] + [LF];
  }

  /** The response is four header lines and the blank line. */
  lemma {:induction false} ResponseLines(accept: seq<byte>)
    requires LF !in accept
    ensures Lines(Response(accept)) == [StatusLine, UpgradeLine, ConnectionLine, AcceptLine(accept), [CR]]
  {
    hide Ascii;
    FixedLinesLack('\n');
    AsciiLacks("Sec-WebSocket-Accept", '\n');
    assert LF !in AcceptLine(accept);
    FourLines(StatusLine, UpgradeLine, ConnectionLine, AcceptLine(accept), [CR] + [LF]);
    BlankLine();
  }

  /** The fixed lines of the response do not mention Sec-WebSocket-Accept:
      none of them holds the letter A. */
  lemma {:induction false} FixedLinesNoAccept()
    ensures var search := AcceptName + Colon;
      LineValueAsWritten(StatusLine, search).None? && LineValue(StatusLine, search).None? &&
      LineValueAsWritten(UpgradeLine, search).None? && LineValue(UpgradeLine, search).None? &&
      LineValueAsWritten(ConnectionLine, search).None? && LineValue(ConnectionLine, search).None?
  {
    hide Ascii, LineValueAsWritten, LineValue;
    var search := AcceptName + Colon;
    AcceptSearchA();
    FixedLinesLackA();
    LineWithout(StatusLine, search, 14);
    LineWithout(UpgradeLine, search, 14);
    LineWithout(ConnectionLine, search, 14);
  }

  /** Octet 14 of "Sec-WebSocket-Accept:" is 'A'. */
  lemma {:induction false} AcceptSearchA()
    ensures |AcceptName + Colon| == 21 && (AcceptName + Colon)[14] == 0x41
  {
    hide Ascii;
    AsciiAt("Sec-WebSocket-Accept", 14);
  }

  lemma {:induction false} FixedLinesLackA()
    ensures 0x41 !in StatusLine && 0x41 !in UpgradeLine && 0x41 !in ConnectionLine
  {
    hide Ascii;
    FixedLinesLack('A');
  }

  /** Reading Sec-WebSocket-Accept back from the response gives the accept
      key it was built with, under both readings of the scan. */
  lemma {:induction false} ResponseAccept(accept: seq<byte>)
    requires IsToken(accept) && |accept| < 0x1_0000_0000_0000_0000
    ensures HeaderValueAsWritten(Response(accept), AcceptName) == accept
    ensures HeaderValue(Response(accept), AcceptName) == accept
  {
    hide Ascii, Lines, LineValueAsWritten, LineValue, ScanAsWritten, Scan, Response;
    var search := AcceptName + Colon;
    ResponseLines(accept);
    FixedLinesNoAccept();
    AsciiLacks("Sec-WebSocket-Accept", ':');
    HeaderLineValue(AcceptName, accept);
    var lines := Lines(Response(accept));
    assert lines[3] == AcceptLine(accept);
    ScanFirstValue(lines, search, 3);
    ScanAsWrittenFirstValue(lines, search, 3);
  }

  /** The status text the client looks for is in the response. */
  lemma {:induction false} ResponseSwitching(accept: seq<byte>)
    ensures Contains(Response(accept), Switching)
  {
    var r := Response(accept);
    assert r[9..9 + |Switching|] == Switching;
    ContainsAt(r, Switching, 9);
  }

  /** The response holds no NUL octet when the accept key holds none, so
      it reaches the peer whole through a NUL-terminated buffer. */
  lemma {:induction false} ResponseNoNul(accept: seq<byte>)
    requires 0 !in accept
    ensures 0 !in Response(accept) && CString(Response(accept)) == Response(accept)
  {
    FixedLinesLack('\0');
    AsciiLacks("Sec-WebSocket-Accept", '\0');
    assert 0 !in AcceptLine(accept);
  }

  // The client's upgrade request, line by line in the same way.

  /** The octets of the decimal digits. */
  predicate IsDigit(b: byte)
  {
    0x30 <= b as int <= 0x39
  }

  /** The digits of n, most significant first. */
  function Digits(n: nat): (r: seq<byte>)
    ensures r != [] && forall i | 0 <= i < |r| :: IsDigit(r[i])
  {
    var d := ByteOf(0x30 + n % 10);
    ByteOfValue(0x30 + n % 10);
    assert IsDigit(d);
    if n < 10 then [d] else Digits(n / 10) + [d]
  }

  /** The value of a text of decimal digits. */
  function DigitsValue(s: seq<byte>): nat
    requires forall i | 0 <= i < |s| :: IsDigit(s[i])
  {
    if s == [] then 0
    else
      assert IsDigit(s[|s| - 1]);
      10 * DigitsValue(s[..|s| - 1]) + (s[|s| - 1] as int - 0x30)
  }

  /** Reading the digits back gives the number. */
  lemma {:induction false} DigitsRoundTrip(n: nat)
    ensures DigitsValue(Digits(n)) == n
  {
    DigitsSnoc(n);
    hide Digits, DigitsValue, ByteOf;
    var last := ByteOf(0x30 + n % 10);
    ByteOfValue(0x30 + n % 10);
    if n < 10 {
      DigitsValueSnoc([], last);
    } else {
      DigitsRoundTrip(n / 10);
      DigitsValueSnoc(Digits(n / 10), last);
    }
  }

  /** The last digit of n is n % 10, after the digits of n / 10. */
  lemma {:induction false} DigitsSnoc(n: nat)
    ensures 0x30 + n % 10 < 256
    ensures Digits(n) == (if n < 10 then [] else Digits(n / 10)) + [ByteOf(0x30 + n % 10)]
  {
  }

  /** One more digit: ten times the value so far, plus the digit. */
  lemma {:induction false} DigitsValueSnoc(s: seq<byte>, b: byte)
    requires (forall i | 0 <= i < |s| :: IsDigit(s[i])) && IsDigit(b)
    ensures DigitsValue(s + [b]) == 10 * DigitsValue(s) + (b as int - 0x30)
    ensures DigitsValue([]) == 0
  {
    assert (s + [b])[..|s|] == s;
  }

  /** An int as operator<< writes it: a minus sign, then the digits. */
  function Decimal(n: int): (r: seq<byte>)
    ensures forall i | 0 <= i < |r| :: IsDigit(r[i]) || r[i] == 0x2D
  {
    if n < 0 then [0x2D] + Digits(-n) else Digits(n)
  }

  /** A host written as a dotted-decimal IPv4 address. */
  predicate IsDottedHost(host: seq<byte>)
  {
    forall i | 0 <= i < |host| :: IsDigit(host[i]) || host[i] == 0x2E
  }

  const RequestLine: seq<byte> := Ascii("GET /chat HTTP/1.1") + [CR]
  const VersionLine: seq<byte> := Ascii("Sec-WebSocket-Version: 13") + [CR]

  function HostLine(host: seq<byte>, port: int): seq<byte>
  {
    Ascii("Host: ") + host + Colon + Decimal(port) + [CR]
  }

  function KeyLine(key: seq<byte>): seq<byte>
  {
    KeyName + Colon + [0x20] + key + [CR]
  }

  /** The upgrade request of the chat client, for the server it connects
      to and the key it offers. */
  function Request(host: seq<byte>, port: int, key: seq<byte>): seq<byte>
  {
    RequestLine + [LF] + (HostLine(host, port) + [LF] + (UpgradeLine + [LF] + (ConnectionLine + [LF] +
      (KeyLine(key) + [LF] + (VersionLine + [LF] + ([CR] + [LF]))))))
  }

  /** An octet that is not a digit, a dot, a colon, a minus sign or CR,
      and that the fixed text of the host line lacks. */
  lemma {:induction false} HostLineLacks(host: seq<byte>, port: int, c: char)
    requires IsDottedHost(host) && c as int < 256
    requires c != '\r' && c != ':' && c != '-' && c != '.' && !('0' <= c <= '9') && c !in "Host: "
    ensures (c as int) as bv8 !in HostLine(host, port)
  {
    var b := (c as int) as bv8;
    assert b as int == c as int;
    AsciiLacks("Host: ", c);
    assert b !in host;
    assert b !in Decimal(port);
  }

  /** An octet that the lines of the request before the key line lack,
      and the version line too. */
  lemma {:induction false} RequestLinesLack(host: seq<byte>, port: int, c: char)
    requires IsDottedHost(host) && c as int < 256
    requires c != '\r' && c != ':' && c != '-' && c != '.' && !('0' <= c <= '9')
    requires c !in "GET /chat HTTP/1.1" && c !in "Host: " && c !in "Sec-WebSocket-Version: 13"
    requires c !in "Upgrade: websocket" && c !in "Connection: Upgrade"
    ensures var b := (c as int) as bv8;
      b !in RequestLine && b !in HostLine(host, port) && b !in UpgradeLine && b !in ConnectionLine && b !in VersionLine
  {
    hide Ascii, HostLine;
    HostLineLacks(host, port, c);
    AsciiLacks("GET /chat HTTP/1.1", c);
    AsciiLacks("Sec-WebSocket-Version: 13", c);
    AsciiLacks("Upgrade: websocket", c);
    AsciiLacks("Connection: Upgrade", c);
  }

  /** No line of the request holds LF. */
  lemma {:induction false} RequestLinesNoLF(host: seq<byte>, port: int, key: seq<byte>)
    requires IsDottedHost(host) && LF !in key
    ensures LF !in RequestLine && LF !in HostLine(host, port) && LF !in UpgradeLine
    ensures LF !in ConnectionLine && LF !in KeyLine(key) && LF !in VersionLine
  {
    hide Ascii, HostLine;
    RequestLinesLack(host, port, '\n');
    AsciiLacks("Sec-WebSocket-Key", '\n');
  }

  /** The request is six header lines and the blank line. */
  lemma {:induction false} RequestLines(host: seq<byte>, port: int, key: seq<byte>)
    requires IsDottedHost(host) && LF !in key
    ensures Lines(Request(host, port, key)) ==
      [RequestLine, HostLine(host, port), UpgradeLine, ConnectionLine, KeyLine(key), VersionLine, [CR]]
  {
    hide Ascii, HostLine, Lines, KeyLine, Request;
    RequestLinesNoLF(host, port, key);
    RequestShape(host, port, key);
    FourLines(RequestLine, HostLine(host, port), UpgradeLine, ConnectionLine, RequestTail(key));
    TailLines(key);
  }

  /** The key line, the version line and the blank line. */
  function RequestTail(key: seq<byte>): seq<byte>
  {
    KeyLine(key) + [LF] + (VersionLine + [LF] + ([CR] + [LF]))
  }

  lemma {:induction false} RequestShape(host: seq<byte>, port: int, key: seq<byte>)
    ensures Request(host, port, key) ==
      RequestLine + [LF] + (HostLine(host, port) + [LF] + (UpgradeLine + [LF] + (ConnectionLine + [LF] + RequestTail(key))))
  {
    hide Ascii, HostLine, KeyLine;
  }

  lemma {:induction false} TailLines(key: seq<byte>)
    requires LF !in KeyLine(key) && LF !in VersionLine
    ensures Lines(RequestTail(key)) == [KeyLine(key), VersionLine, [CR]]
  {
    hide Ascii, KeyLine, Lines;
    BlankLine();
    LinesCons(VersionLine, [CR] + [LF]);
    LinesCons(KeyLine(key), VersionLine + [LF] + ([CR] + [LF]));
  }

  /** No line before the key line holds 'K', the first letter that tells
      the key's name from the version's. */
  lemma {:induction false} RequestLinesNoKey(host: seq<byte>, port: int)
    requires IsDottedHost(host)
    ensures var search := KeyName + Colon;
      LineValueAsWritten(RequestLine, search).None? && LineValue(RequestLine, search).None? &&
      LineValueAsWritten(HostLine(host, port), search).None? && LineValue(HostLine(host, port), search).None? &&
      LineValueAsWritten(UpgradeLine, search).None? && LineValue(UpgradeLine, search).None? &&
      LineValueAsWritten(ConnectionLine, search).None? && LineValue(ConnectionLine, search).None?
  {
    hide Ascii, LineValueAsWritten, LineValue, HostLine;
    var search := KeyName + Colon;
    KeySearchK();
    RequestLinesLackK(host, port);
    LineWithout(RequestLine, search, 14);
    LineWithout(HostLine(host, port), search, 14);
    LineWithout(UpgradeLine, search, 14);
    LineWithout(ConnectionLine, search, 14);
  }

  /** Octet 14 of "Sec-WebSocket-Key:" is 'K'. */
  lemma {:induction false} KeySearchK()
    ensures |KeyName + Colon| == 18 && (KeyName + Colon)[14] == 0x4B
  {
    hide Ascii;
    AsciiAt("Sec-WebSocket-Key", 14);
  }

  lemma {:induction false} RequestLinesLackK(host: seq<byte>, port: int)
    requires IsDottedHost(host)
    ensures 0x4B !in RequestLine && 0x4B !in HostLine(host, port) && 0x4B !in UpgradeLine && 0x4B !in ConnectionLine
  {
    hide Ascii, HostLine;
    RequestLinesLack(host, port, 'K');
  }

  /** Reading Sec-WebSocket-Key from the request gives the key the client
      offered, under both readings of the scan. */
  lemma {:induction false} RequestKey(host: seq<byte>, port: int, key: seq<byte>)
    requires IsDottedHost(host) && IsToken(key) && |key| < 0x1_0000_0000_0000_0000
    ensures HeaderValueAsWritten(Request(host, port, key), KeyName) == key
    ensures HeaderValue(Request(host, port, key), KeyName) == key
  {
    hide Ascii, Lines, LineValueAsWritten, LineValue, ScanAsWritten, Scan, Request;
    var search := KeyName + Colon;
    RequestLines(host, port, key);
    RequestLinesNoKey(host, port);
    KeyNameNoColon();
    HeaderLineValue(KeyName, key);
    var lines := Lines(Request(host, port, key));
    assert lines[4] == KeyLine(key);
    ScanFirstValue(lines, search, 4);
    ScanAsWrittenFirstValue(lines, search, 4);
  }

  lemma {:induction false} KeyNameNoColon()
    ensures 0x3A !in KeyName
  {
    hide Ascii;
    AsciiLacks("Sec-WebSocket-Key", ':');
  }

  /** The request holds no NUL octet when the key holds none. */
  lemma {:induction false} RequestNoNul(host: seq<byte>, port: int, key: seq<byte>)
    requires IsDottedHost(host) && 0 !in key
    ensures 0 !in Request(host, port, key) && CString(Request(host, port, key)) == Request(host, port, key)
  {
    hide Ascii, HostLine;
    RequestLinesLack(host, port, '\0');
    AsciiLacks("Sec-WebSocket-Key", '\0');
    assert 0 !in KeyLine(key);
  }
}
