/** The WebSocket side of src/realtime_file_monitor.cc: the text frames it
    pushes, its handshake (with its own SHA-1 context and base64 copy),
    the key-extraction branch of a new connection, and the list of
    connected clients. */
module FileMonitor {
  import opened Bytes
  import opened HttpHeader
  import opened Handshake
  import Frame
  import Sha1
  import Sha1Stream
  import MonitorBase64

  /** SendWsMessage: the 2- or 4-octet header built in a 4-octet array,
      then the data. The header and the data go out in two sends; `sent`
      is the two together. */
  method SendWsMessage(data: seq<byte>) returns (sent: seq<byte>)
    ensures |data| <= Frame.MaxPayload ==> sent == Frame.EncodeFrame(data, Frame.Text)
    ensures |data| > Frame.MaxPayload ==> sent == LongFrame(data)
  {
    var header := new byte[4];
    var headerLen := 2;
    header[0] := 0x81;
    var len := |data|;
    if len <= 125 {
      header[1] := ByteOf(len);
      assert header[..headerLen] == [0x81, ByteOf(len)];
      sent := header[..headerLen] + data;
      TextFrame(data);
    } else {
      header[1] := 126;
      // htons of the length cast to 16 bits, copied octet by octet
      var len16 := len % 0x10000;
      var hi, lo := ByteOf(len16 / 0x100), ByteOf(len16 % 0x100);
      header[2] := hi;
      header[3] := lo;
      headerLen := 4;
      assert header[..headerLen] == [0x81, 126, hi, lo];
      sent := header[..headerLen] + data;
      if len <= Frame.MaxPayload {
        assert len16 == len;
        TextFrame(data);
      } else {
        assert sent == LongFrame(data);
      }
    }
  }

  /** What SendWsMessage sends for more than 0xFFFF octets: the 16-bit
      length field holds the length modulo 2^16. */
  function LongFrame(data: seq<byte>): seq<byte>
  {
    var n := |data| % 0x10000;
    [0x81, 126, ByteOf(n / 0x100), ByteOf(n % 0x100)] + data
  }

  /** The unmasked text frame of the codec, octet by octet. */
  lemma {:induction false} TextFrame(data: seq<byte>)
    requires |data| <= Frame.MaxPayload
    ensures Frame.EncodeFrame(data, Frame.Text) ==
      (if |data| < 126 then [0x81, ByteOf(|data|)]
       else [0x81, 126, ByteOf(|data| % 0x10000 / 0x100), ByteOf(|data| % 0x100)]) + data
  {
    assert 0x80 | Frame.Code(Frame.Text) == 0x81;
  }

  /** Every frame SendWsMessage sends up to 0xFFFF octets parses back to
      its data. */
  lemma {:induction false} SentFrameDecodes(data: seq<byte>, rest: seq<byte>)
    requires |data| <= Frame.MaxPayload
    ensures Frame.Decode(Frame.EncodeFrame(data, Frame.Text) + rest) == Some(data)
  {
    Frame.DecodeEncode(data, Frame.Text, rest);
  }

  /** Above 0xFFFF octets the length is cut to its low 16 bits: a reader
      takes only that many octets as the payload. */
  lemma {:induction false} LongMessageTruncated(data: seq<byte>)
    requires |data| > Frame.MaxPayload
    ensures |data| % 0x10000 < |data| && Frame.Decode(LongFrame(data)) == Some(data[..|data| % 0x10000])
  {
    var n := |data| % 0x10000;
    var f := [0x81, 126, ByteOf(n / 0x100), ByteOf(n % 0x100)] + data;
    assert f == LongFrame(data);
    Frame.ExtendedHeader(f, n, false);
    assert f[4..4 + n] == data[..n];
  }

  /** snprintf into a buffer of `size` octets: at most size - 1 of them,
      then NUL. */
  function Snprintf(text: seq<byte>, size: nat): (r: seq<byte>)
    requires size > 0
    ensures |r| < size && r <= text
  {
    if |text| < size then text else text[..size - 1]
  }

  /** HandleHandshake: SHA-1 of the key and the GUID through the streaming
      context, base64 through the monitor's own encoder, and the response
      formatted into 256 octets and sent up to its NUL. */
  method HandleHandshake(clientKey: seq<byte>) returns (sent: seq<byte>)
    requires |clientKey| + |Guid| + 63 < 0x1_0000_0000
    ensures sent == Response(AcceptKey(clientKey))
  {
    var combined := clientKey + Guid;
    var digest := StreamDigest(combined);
    var b64 := MonitorBase64.Base64Encode(digest);
    ResponseFits(clientKey);
    hide Response, Sha1.Hash;
    var response := Snprintf(Response(b64), 256);
    sent := CString(response);
  }

  /** The SHA-1 part of HandleHandshake: a fresh context, one update with
      the whole input, then the final step into a 20-octet array. */
  method StreamDigest(combined: seq<byte>) returns (digest: seq<byte>)
    requires |combined| + 63 < 0x1_0000_0000
    ensures digest == Sha1.Hash(combined)
  {
    hide Sha1Stream.Sha1Ctx.Valid, Sha1.Hash, Sha1.Pad;
    var sha1Result := new byte[20];
    var ctx := new Sha1Stream.Sha1Ctx();
    ctx.Init();
    ctx.Update(combined);
    assert ctx.absorbed == combined;
    ctx.Final(sha1Result);
    assert sha1Result[..] == Sha1.Hash(combined);
    digest := sha1Result[..];
  }

  /** The formatted response is 129 octets without NUL, so neither
      snprintf nor strlen cuts it. */
  lemma {:induction false} ResponseFits(clientKey: seq<byte>)
    ensures var r := Response(AcceptKey(clientKey));
      |r| == 129 && Snprintf(r, 256) == r && CString(r) == r
  {
    var a := AcceptKey(clientKey);
    AcceptKeyShape(clientKey);
    ResponseNoNul(a);
  }

  const KeyField: seq<byte> := KeyName + Colon + [0x20]

  /** The key-extraction branch of ProcessNewConnection: a request that
      mentions "Upgrade: websocket" and has "Sec-WebSocket-Key: " followed
      later by CR yields the text in between, untrimmed; any other request
      yields None. */
  function UpgradeKey(request: seq<byte>): (r: Option<seq<byte>>)
    ensures r.Some? ==> Contains(request, UpgradeWebsocket) && CR !in r.value && |r.value| < |request|
  {
    if !Contains(request, UpgradeWebsocket) then None
    else
      match Find(request, KeyField, 0)
      case None => None
      case Some(p) =>
        match Find(request, [CR], p + |KeyField|)
        case None => None
        case Some(e) =>
          assert forall j | p + |KeyField| <= j < e :: !OccursAt(request, [CR], j) ==> request[j] != CR;
          Some(request[p + |KeyField|..e])
  }

  /** The key found sits right after the first "Sec-WebSocket-Key: " and
      right before the first CR after it. */
  lemma {:induction false} UpgradeKeyPlace(request: seq<byte>)
    requires UpgradeKey(request).Some?
    ensures var key := UpgradeKey(request).value;
      exists p | 0 <= p && p + |KeyField| + |key| < |request| ::
        OccursAt(request, KeyField, p) && (forall q | 0 <= q < p :: !OccursAt(request, KeyField, q)) &&
        request[p + |KeyField|..p + |KeyField| + |key|] == key && CR !in key &&
        request[p + |KeyField| + |key|] == CR
  {
    var p := Find(request, KeyField, 0).value;
    var e := Find(request, [CR], p + |KeyField|).value;
    OccursAtIndex(request, [CR], e, 0);
    assert e == p + |KeyField| + |UpgradeKey(request).value|;
    assert forall q | 0 <= q < p :: !OccursAt(request, KeyField, q);
  }

  /** The request lines before the key line, each ended by LF. */
  function RequestHead(host: seq<byte>, port: int): seq<byte>
  {
    RequestLine + [LF] + HostLine(host, port) + [LF] + UpgradeLine + [LF] + ConnectionLine + [LF]
  }

  /** The request lines after the key. */
  const KeyTail: seq<byte> := [LF] + (VersionLine + [LF] + ([CR] + [LF]))

  lemma {:induction false} RequestSplit(host: seq<byte>, port: int, key: seq<byte>)
    ensures Request(host, port, key) == RequestHead(host, port) + KeyField + (key + ([CR] + KeyTail))
  {
    RequestLayout(host, port, key);
    hide Request, RequestHead;
    Regroup(RequestHead(host, port), KeyField, key, CR, KeyTail);
  }

  /** Sequence concatenation regrouped around the key. */
  lemma {:induction false} Regroup(h: seq<byte>, f: seq<byte>, key: seq<byte>, c: byte, t: seq<byte>)
    ensures h + (f + key + [c]) + t == h + f + (key + ([c] + t))
  {
  }

  lemma {:induction false} RequestLayout(host: seq<byte>, port: int, key: seq<byte>)
    ensures Request(host, port, key) == RequestHead(host, port) + (KeyField + key + [CR]) + KeyTail
    ensures Request(host, port, key)[|RequestLine| + 1 + |HostLine(host, port)| + 1..][..|UpgradeWebsocket|] ==
      UpgradeWebsocket
  {
    hide Ascii, HostLine;
    assert KeyLine(key) == KeyField + key + [CR];
    var r := Request(host, port, key);
    var u := |RequestLine| + 1 + |HostLine(host, port)| + 1;
    assert r[u..] == UpgradeLine + [LF] + (ConnectionLine + [LF] +
      (KeyLine(key) + [LF] + (VersionLine + [LF] + ([CR] + [LF]))));
  }

  /** No octet 'S' comes before the key line: the first symbol of the key
      field cannot occur earlier. */
  lemma {:induction false} HeadLacksS(host: seq<byte>, port: int)
    requires IsDottedHost(host)
    ensures 0x53 !in RequestHead(host, port) && KeyField[0] == 0x53
  {
    hide Ascii, HostLine;
    FixedHeadLacksS();
    HostLacksS(host, port);
    KeyFieldStartsS();
  }

  lemma {:induction false} HostLacksS(host: seq<byte>, port: int)
    requires IsDottedHost(host)
    ensures 0x53 !in HostLine(host, port)
  {
    HostLineLacks(host, port, 'S');
  }

  lemma {:induction false} KeyFieldStartsS()
    ensures KeyField[0] == 0x53
  {
    hide Ascii;
    AsciiAt("Sec-WebSocket-Key", 0);
  }

  lemma {:induction false} FixedHeadLacksS()
    ensures 0x53 !in RequestLine && 0x53 !in UpgradeLine && 0x53 !in ConnectionLine
  {
    hide Ascii;
    RequestLineLacksS();
    UpgradeLineLacksS();
    ConnectionLineLacksS();
  }

  lemma {:induction false} RequestLineLacksS()
    ensures 0x53 !in RequestLine
  {
    hide Ascii;
    AsciiLacks("GET /chat HTTP/1.1", 'S');
  }

  lemma {:induction false} UpgradeLineLacksS()
    ensures 0x53 !in UpgradeLine
  {
    hide Ascii;
    AsciiLacks("Upgrade: websocket", 'S');
  }

  lemma {:induction false} ConnectionLineLacksS()
    ensures 0x53 !in ConnectionLine
  {
    hide Ascii;
    AsciiLacks("Connection: Upgrade", 'S');
  }

  /** The first "Sec-WebSocket-Key: " of the request is at the key line. */
  lemma {:induction false} KeyFieldFirst(host: seq<byte>, port: int, key: seq<byte>)
    requires IsDottedHost(host)
    ensures Find(Request(host, port, key), KeyField, 0) == Some(|RequestHead(host, port)|)
  {
    RequestSplit(host, port, key);
    HeadLacksS(host, port);
    hide Request, RequestHead, Find;
    FindAfterLacking(RequestHead(host, port), KeyField, key + ([CR] + KeyTail));
  }

  /** After the key field, the first CR is the one that ends the key. */
  lemma {:induction false} KeyEndFirst(host: seq<byte>, port: int, key: seq<byte>)
    requires CR !in key
    ensures var e := |RequestHead(host, port)| + |KeyField|;
      Find(Request(host, port, key), [CR], e) == Some(e + |key|) &&
      Request(host, port, key)[e..e + |key|] == key
  {
    RequestSplit(host, port, key);
    hide Request, RequestHead, Find;
    FindOctetAfter(RequestHead(host, port) + KeyField, key, CR, KeyTail);
  }

  /** The key the monitor extracts from the chat client's upgrade request
      is exactly the key the client offered. */
  lemma {:induction false} UpgradeKeyOfRequest(host: seq<byte>, port: int, key: seq<byte>)
    requires IsDottedHost(host) && CR !in key
    ensures UpgradeKey(Request(host, port, key)) == Some(key)
  {
    hide Request, RequestHead, Find, Contains;
    UpgradeInRequest(host, port, key);
    KeyFieldFirst(host, port, key);
    KeyEndFirst(host, port, key);
  }

  /** The request says "Upgrade: websocket", on its third line. */
  lemma {:induction false} UpgradeInRequest(host: seq<byte>, port: int, key: seq<byte>)
    ensures Contains(Request(host, port, key), UpgradeWebsocket)
  {
    RequestLayout(host, port, key);
    ContainsAt(Request(host, port, key), UpgradeWebsocket, |RequestLine| + 1 + |HostLine(host, port)| + 1);
  }

  /** The connected WebSocket clients (the global std::list<int>). */
  class Registry {
    var clients: seq<int>

    constructor ()
      ensures clients == []
    {
      clients := [];
    }

    /** AddClient: push_back. */
    method AddClient(sock: int)
      modifies this
      ensures clients == old(clients) + [sock]
    {
      clients := clients + [sock];
    }

    /** ProcessNewConnection after accept: `clientFd` is what accept
        returned, `bytes` what recv returned and `received` the octets it
        stored (at most 1023), and `html` the page GenerateHtmlResponse
        builds. An upgrade request with a key gets the handshake response
        and joins the list; any other request gets the page and is closed.
        Returns what was sent and whether the socket was closed. */
    method ProcessNewConnection(clientFd: int, bytes: int, received: seq<byte>, html: seq<byte>)
      returns (sent: seq<byte>, closed: bool)
      requires bytes > 0 ==> bytes == |received| < 1024
      modifies this
      ensures clientFd < 0 ==> sent == [] && !closed && clients == old(clients)
      ensures clientFd >= 0 && bytes <= 0 ==> sent == [] && closed && clients == old(clients)
      ensures clientFd >= 0 && bytes > 0 ==> match UpgradeKey(CString(received))
        case Some(key) => sent == Response(AcceptKey(key)) && !closed && clients == old(clients) + [clientFd]
        case None => sent == html && closed && clients == old(clients)
    {
      if clientFd < 0 {
        return [], false;
      }
      if bytes <= 0 {
        return [], true;
      }
      var request := CString(received);
      var key := UpgradeKey(request);
      if key.Some? {
        sent := HandleHandshake(key.value);
        AddClient(clientFd);
        closed := false;
        return;
      }
      sent, closed := html, true;
    }

    /** RemoveClient: std::list::remove takes out every occurrence; then
        the socket is closed. Returns the socket closed. */
    method RemoveClient(sock: int) returns (closed: int)
      modifies this
      ensures clients == Without(old(clients), {sock}) && closed == sock
    {
      clients := Without(clients, {sock});
      closed := sock;
    }

    /** BroadcastToClients: one SendWsMessage per listed socket, in list
        order. */
    method BroadcastToClients(message: seq<byte>) returns (sends: seq<(int, seq<byte>)>)
      ensures |sends| == |clients|
      ensures forall i | 0 <= i < |sends| :: sends[i].0 == clients[i]
      ensures forall i | 0 <= i < |sends| ::
        |message| <= Frame.MaxPayload ==> sends[i].1 == Frame.EncodeFrame(message, Frame.Text)
      ensures forall i | 0 <= i < |sends| ::
        |message| > Frame.MaxPayload ==> sends[i].1 == LongFrame(message)
    {
      sends := [];
      for i := 0 to |clients|
        invariant |sends| == i
        invariant forall k | 0 <= k < i :: sends[k].0 == clients[k]
        invariant forall k | 0 <= k < i ::
          |message| <= Frame.MaxPayload ==> sends[k].1 == Frame.EncodeFrame(message, Frame.Text)
        invariant forall k | 0 <= k < i ::
          |message| > Frame.MaxPayload ==> sends[k].1 == LongFrame(message)
      {
        var frame := SendWsMessage(message);
        sends := sends + [(clients[i], frame)];
      }
    }

    /** ProcessClientMessages: walk the list; a socket that select marked
        `ready` and whose recv then returns 0 or less (`hungUp`) is closed
        and erased, the iterator moving to the next element; every other
        socket stays. Returns the sockets closed, in list order. */
    method ProcessClientMessages(ready: set<int>, hungUp: set<int>) returns (closed: seq<int>)
      modifies this
      ensures clients == Without(old(clients), ready * hungUp)
      ensures closed == Only(old(clients), ready * hungUp)
    {
      ghost var all := clients;
      ghost var k := 0;
      var i := 0;
      closed := [];
      while i < |clients|
        invariant k <= |all| && i <= |clients|
        invariant clients[..i] == Without(all[..k], ready * hungUp)
        invariant clients[i..] == all[k..]
        invariant closed == Only(all[..k], ready * hungUp)
        decreases |clients| - i
      {
        var sock := clients[i];
        WalkStep(clients, i, all, k, ready * hungUp, closed);
        if sock in ready && sock in hungUp {
          closed := closed + [sock];
          clients := clients[..i] + clients[i + 1..];
        } else {
          i := i + 1;
        }
        k := k + 1;
      }
      assert all[..k] == all;
      assert clients[..i] == clients;
    }
  }

  /** One step of the walk in ProcessClientMessages: erasing the socket
      at i, or stepping over it, extends both halves by one element of the
      original list. */
  lemma {:induction false} WalkStep(s: seq<int>, i: nat, all: seq<int>, k: nat, d: set<int>, closed: seq<int>)
    requires i < |s| && k < |all| && s[i..] == all[k..]
    requires s[..i] == Without(all[..k], d) && closed == Only(all[..k], d)
    ensures s[i] in d ==> var t := s[..i] + s[i + 1..];
      t[..i] == Without(all[..k + 1], d) && t[i..] == all[k + 1..] &&
      closed + [s[i]] == Only(all[..k + 1], d)
    ensures s[i] !in d ==>
      s[..i + 1] == Without(all[..k + 1], d) && s[i + 1..] == all[k + 1..] &&
      closed == Only(all[..k + 1], d)
  {
    assert s[i] == all[k];
    assert all[..k + 1] == all[..k] + [s[i]];
    WithoutSnoc(all[..k], s[i], d);
    assert s[i + 1..] == s[i..][1..];
    if s[i] in d {
      var t := s[..i] + s[i + 1..];
      assert t[..i] == s[..i];
      assert t[i..] == s[i + 1..];
    } else {
      assert s[..i + 1] == s[..i] + [s[i]];
    }
  }

  /** The sockets of s not in d, in order. */
  function Without(s: seq<int>, d: set<int>): (r: seq<int>)
    ensures |r| <= |s|
  {
    if s == [] then []
    else if s[|s| - 1] in d then Without(s[..|s| - 1], d)
    else Without(s[..|s| - 1], d) + [s[|s| - 1]]
  }

  /** The sockets of s in d, in order. */
  function Only(s: seq<int>, d: set<int>): (r: seq<int>)
    ensures |r| <= |s|
  {
    if s == [] then []
    else if s[|s| - 1] in d then Only(s[..|s| - 1], d) + [s[|s| - 1]]
    else Only(s[..|s| - 1], d)
  }

  lemma {:induction false} WithoutSnoc(s: seq<int>, x: int, d: set<int>)
    ensures Without(s + [x], d) == if x in d then Without(s, d) else Without(s, d) + [x]
    ensures Only(s + [x], d) == if x in d then Only(s, d) + [x] else Only(s, d)
  {
    assert (s + [x])[..|s|] == s;
  }

  /** Erasing keeps exactly the sockets outside d, each as often as
      before, and nothing else; the erased ones are exactly the
      occurrences in d. */
  lemma {:induction false} WithoutOnly(s: seq<int>, d: set<int>)
    ensures multiset(Without(s, d)) + multiset(Only(s, d)) == multiset(s)
    ensures forall x | x in Without(s, d) :: x !in d
    ensures forall x | x in Only(s, d) :: x in d
    decreases |s|
  {
    if s != [] {
      var t, x := s[..|s| - 1], s[|s| - 1];
      WithoutOnly(t, d);
      assert s == t + [x];
    }
  }

  /** Erasing keeps the relative order of the sockets that stay: the kept
      list is a subsequence of the old one, picked by increasing
      positions. */
  lemma {:induction false} WithoutKeepsOrder(s: seq<int>, d: set<int>) returns (pos: seq<nat>)
    ensures |pos| == |Without(s, d)|
    ensures forall i | 0 <= i < |pos| :: pos[i] < |s| && s[pos[i]] == Without(s, d)[i]
    ensures forall i, j | 0 <= i < j < |pos| :: pos[i] < pos[j]
    decreases |s|
  {
    if s == [] {
      pos := [];
    } else {
      var t, x := s[..|s| - 1], s[|s| - 1];
      pos := WithoutKeepsOrder(t, d);
      if x !in d {
        pos := pos + [|s| - 1];
      }
    }
  }

  /** A socket that is removed appears no more; the others keep their
      count. */
  lemma {:induction false} RemovedEverywhere(s: seq<int>, sock: int)
    ensures sock !in Without(s, {sock})
    ensures forall y | y != sock :: multiset(Without(s, {sock}))[y] == multiset(s)[y]
  {
    WithoutOnly(s, {sock});
    forall y | y != sock
      ensures multiset(Without(s, {sock}))[y] == multiset(s)[y]
    {
      assert y !in Only(s, {sock});
      assert multiset(Only(s, {sock}))[y] == 0;
    }
  }
}
