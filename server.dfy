/** The chat server of src/websocket_server.cc: its side of the opening
    handshake, and the frame a console line sends. */
module Server {
  import opened Bytes
  import opened HttpHeader
  import opened Handshake
  import Frame
  import OneShotSha1
  import UtilBase64

  /** What the server sends back for a request: the 101 response carrying
      the accept key of the request's Sec-WebSocket-Key, or nothing when
      the request yields no key. */
  function Reply(request: seq<byte>): Option<seq<byte>>
  {
    var key := HeaderValueAsWritten(request, KeyName);
    if key == [] then None else Some(Response(AcceptKey(key)))
  }

  /** DoHandshake: `received` is what recv stored in the zeroed buffer and
      `bytesReceived` its result; the request is the buffer up to its
      first NUL. Returns whether the handshake went through and what was
      sent. */
  method DoHandshake(bytesReceived: int, received: seq<byte>) returns (ok: bool, sent: seq<byte>)
    ensures bytesReceived <= 0 ==> !ok && sent == []
    ensures bytesReceived > 0 ==> ok == Reply(CString(received)).Some?
    ensures ok ==> sent == Reply(CString(received)).value
    ensures !ok ==> sent == []
  {
    if bytesReceived <= 0 {
      return false, [];
    }
    var request := CString(received);
    var websocketKey := ExtractHTTPHeaderValue(request, KeyName);
    if websocketKey == [] {
      return false, [];
    }
    var acceptSource := websocketKey + Guid;
    var sha1Hash := OneShotSha1.ComputeSHA1Hash(acceptSource);
    var acceptKey := UtilBase64.EncodeBase64(sha1Hash);
    return true, Response(acceptKey);
  }

  /** A reply names, in its Sec-WebSocket-Accept header, the accept key
      of the key the request offered, and says 101 Switching Protocols. */
  lemma {:induction false} ReplyAccept(request: seq<byte>)
    requires Reply(request).Some?
    ensures var r := Reply(request).value;
      var key := HeaderValueAsWritten(request, KeyName);
      HeaderValueAsWritten(r, AcceptName) == AcceptKey(key) &&
      HeaderValue(r, AcceptName) == AcceptKey(key) &&
      Contains(r, Switching) && CString(r) == r
  {
    var key := HeaderValueAsWritten(request, KeyName);
    AcceptKeyShape(key);
    ResponseAccept(AcceptKey(key));
    ResponseSwitching(AcceptKey(key));
    ResponseNoNul(AcceptKey(key));
  }

  /** A request in which no line mentions `Sec-WebSocket-Key:` gets no
      reply. */
  lemma {:induction false} NoKeyNoReply(request: seq<byte>)
    requires forall l | l in Lines(request) :: !Contains(l, KeyName + Colon)
    ensures Reply(request) == None
  {
    HeaderValueNotFound(request, KeyName);
  }

  const Quit: seq<byte> := Ascii("/quit")

  /** The console branch of the messaging loop: "/quit" sends an empty
      close frame and ends the loop; any other line goes out as a text
      frame. */
  method ConsoleLine(input: seq<byte>) returns (frame: seq<byte>, quit: bool)
    ensures quit <==> input == Quit
    ensures quit ==> frame == [0x88, 0x00] && Frame.Decode(frame) == Some([])
    ensures !quit && |input| <= Frame.MaxPayload ==>
      frame == Frame.EncodeFrame(input, Frame.Text) && Frame.Decode(frame) == Some(input)
  {
    if input == Quit {
      frame := Frame.BuildWSFrame([], Frame.Close);
      Frame.DecodeEncode([], Frame.Close, []);
      assert frame + [] == frame;
      return frame, true;
    }
    frame := Frame.BuildWSFrame(input, Frame.Text);
    if |input| <= Frame.MaxPayload {
      Frame.DecodeEncode(input, Frame.Text, []);
      assert frame + [] == frame;
    }
    quit := false;
  }
}
