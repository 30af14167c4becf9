/** The chat client of src/websocket_client.cc: its upgrade request, its
    check of the server's response, and the frames a console line sends. */
module Client {
  import opened Bytes
  import opened HttpHeader
  import opened Handshake
  import Frame
  import OneShotSha1
  import UtilBase64
  import Server
  import FileMonitor

  /** The fixed key the client offers (the sample nonce of section 1.3 of
      RFC 6455). */
  const ClientKey: seq<byte> := Ascii("dGhlIHNhbXBsZSBub25jZQ==")

  /** The response checks of the client: the status text is present and
      the Sec-WebSocket-Accept value is the accept key of ClientKey. */
  predicate Accepts(response: seq<byte>)
  {
    Contains(response, Switching) && HeaderValueAsWritten(response, AcceptName) == AcceptKey(ClientKey)
  }

  /** DoHandshake: sends the request, then judges what recv stored
      (`received`, with recv's result `bytesReceived`) up to its first
      NUL. */
  method DoHandshake(serverIp: seq<byte>, serverPort: int, bytesReceived: int, received: seq<byte>)
    returns (request: seq<byte>, ok: bool)
    ensures request == Request(serverIp, serverPort, ClientKey)
    ensures ok <==> bytesReceived > 0 && Accepts(CString(received))
  {
    request := Request(serverIp, serverPort, ClientKey);
    if bytesReceived <= 0 {
      return request, false;
    }
    var response := CString(received);
    var resWsAcceptKey := ExtractHTTPHeaderValue(response, AcceptName);
    if Find(response, Switching, 0).None? {
      return request, false;
    }
    var concatenatedKey := ClientKey + Guid;
    var sha1Hash := OneShotSha1.ComputeSHA1Hash(concatenatedKey);
    var expectedAcceptKey := UtilBase64.EncodeBase64(sha1Hash);
    ok := resWsAcceptKey == expectedAcceptKey;
  }

  /** The client's key survives the server's header scan intact. */
  lemma {:induction false} ClientKeyToken()
    ensures IsToken(ClientKey) && 0 !in ClientKey && CR !in ClientKey
  {
    hide Ascii;
    ClientKeyEnds();
    ClientKeyLacks();
  }

  lemma {:induction false} ClientKeyEnds()
    ensures ClientKey[0] == 0x64 && ClientKey[|ClientKey| - 1] == 0x3D
  {
    hide Ascii;
    AsciiAt("dGhlIHNhbXBsZSBub25jZQ==", 0);
    AsciiAt("dGhlIHNhbXBsZSBub25jZQ==", 23);
  }

  lemma {:induction false} ClientKeyLacks()
    ensures LF !in ClientKey && 0 !in ClientKey && CR !in ClientKey
  {
    hide Ascii;
    ClientKeyLacksChar('\n');
    ClientKeyLacksChar('\0');
    ClientKeyLacksChar('\r');
  }

  lemma {:induction false} ClientKeyLacksChar(c: char)
    requires c as int < 0x30 && c != '+' && c != '/'
    ensures (c as int) as bv8 !in ClientKey
  {
    hide Ascii;
    AsciiLacks("dGhlIHNhbXBsZSBub25jZQ==", c);
  }

  /** The two programs agree: the chat server answers the client's request
      for any dotted-decimal host and any port, and the client accepts the
      answer. */
  lemma {:induction false} HandshakeSucceeds(serverIp: seq<byte>, serverPort: int)
    requires IsDottedHost(serverIp)
    ensures var request := Request(serverIp, serverPort, ClientKey);
      Server.Reply(CString(request)) == Some(Response(AcceptKey(ClientKey))) &&
      Accepts(CString(Response(AcceptKey(ClientKey))))
  {
    var request := Request(serverIp, serverPort, ClientKey);
    ClientKeyToken();
    RequestNoNul(serverIp, serverPort, ClientKey);
    RequestKey(serverIp, serverPort, ClientKey);
    var accept := AcceptKey(ClientKey);
    AcceptKeyShape(ClientKey);
    ResponseNoNul(accept);
    ResponseSwitching(accept);
    ResponseAccept(accept);
  }

  /** The file monitor reads the client's own key from the client's
      request, so it answers with Response(AcceptKey(ClientKey)), the
      response HandshakeSucceeds shows the client accepts. */
  lemma {:induction false} MonitorAcceptsClient(serverIp: seq<byte>, serverPort: int)
    requires IsDottedHost(serverIp)
    ensures var request := Request(serverIp, serverPort, ClientKey);
      FileMonitor.UpgradeKey(CString(request)) == Some(ClientKey)
  {
    ClientKeyToken();
    RequestNoNul(serverIp, serverPort, ClientKey);
    FileMonitor.UpgradeKeyOfRequest(serverIp, serverPort, ClientKey);
  }

  /** The chat payload: the user name's length as four octets, most
      significant first (htonl of a uint32_t, so modulo 2^32), the user
      name, then the message. */
  function ChatPayload(username: seq<byte>, input: seq<byte>): seq<byte>
  {
    BigEndian32(|username| % 0x1_0000_0000) + username + input
  }

  /** A receiver finds the name's length in the first four octets, then
      the name, then the message. */
  lemma {:induction false} PayloadLayout(username: seq<byte>, input: seq<byte>)
    requires |username| < 0x1_0000_0000
    ensures var p := ChatPayload(username, input);
      |p| == 4 + |username| + |input| &&
      ReadBigEndian32(p[..4]) == |username| &&
      p[4..4 + |username|] == username && p[4 + |username|..] == input
  {
    BigEndian32RoundTrip(|username|);
    Mod32Small(|username|);
    hide BigEndian32, ReadBigEndian32;
    var p := ChatPayload(username, input);
    assert p == BigEndian32(|username|) + username + input;
    assert p[..4] == BigEndian32(|username|);
    assert p[4..4 + |username|] == username;
    assert p[4 + |username|..] == input;
  }

  /** The console branch of the client's loop: "/quit" sends an empty
      close frame and ends the loop; any other line goes out as a text
      frame of the chat payload, unmasked. */
  method ConsoleLine(username: seq<byte>, input: seq<byte>) returns (frame: seq<byte>, quit: bool)
    ensures quit <==> input == Server.Quit
    ensures quit ==> frame == [0x88, 0x00]
    ensures !quit && 4 + |username| + |input| <= Frame.MaxPayload ==>
      frame == Frame.EncodeFrame(ChatPayload(username, input), Frame.Text) &&
      Frame.Decode(frame) == Some(ChatPayload(username, input)) && frame[1] & 0x80 == 0
  {
    if input == Server.Quit {
      frame := Frame.BuildWSFrame([], Frame.Close);
      return frame, true;
    }
    var nameLen := |username| % 0x1_0000_0000;
    var payload := BigEndian32(nameLen);
    payload := payload + username;
    payload := payload + input;
    frame := Frame.BuildWSFrame(payload, Frame.Text);
    if |payload| <= Frame.MaxPayload {
      Frame.DecodeEncode(payload, Frame.Text, []);
      assert frame + [] == frame;
    }
    quit := false;
  }
}
