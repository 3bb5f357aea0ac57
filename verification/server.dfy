/** The connection-level decisions of server.c: the older request dispatch,
    the rule that turns a handler status into what is written back, and
    closing a client. Sockets and epoll are not modelled; what reaches the
    socket is a byte sequence. */
module Server {
  import opened Bytes
  import opened Status
  import opened Wire

  // ---------------------------------------------------------------------
  // close_client

  /** A client is only its socket descriptor here; -1 marks it closed. */
  datatype Client = Client(fd: int)

  /** close_client: a negative descriptor is left alone; otherwise the
      socket is closed and the descriptor set to -1. */
  function CloseClient(c: Client): (r: Client)
  {
    if c.fd < 0 then c else Client(-1)
  }

  /** Closing leaves the client closed, touches an already closed client not
      at all, and closing twice is closing once. */
  lemma CloseClientSpec(c: Client)
    ensures CloseClient(c).fd < 0
    ensures c.fd < 0 ==> CloseClient(c) == c
    ensures c.fd >= 0 ==> CloseClient(c).fd == -1
    ensures CloseClient(CloseClient(c)) == CloseClient(c)
  {
  }

  // ---------------------------------------------------------------------
  // handle_request (server.c revision)

  /** The handlers the older dispatch knows. */
  datatype Handler = HandleGet | HandleSet | HandleDel | HandleClr

  datatype Dispatch = Route(handler: Handler, request: Request) | Reject(status: StatusCode)

  /** The dispatch of server.c: missing arguments are a bug, a bad magic and
      an op byte other than GET, SET, DEL or CLR are protocol errors. */
  function ServerDispatch(argsPresent: bool, h: seq<Byte>): (d: Dispatch)
    requires |h| == REQUEST_SIZE
  {
    if !argsPresent then Reject(Bug)
    else match DecodeRequest(h)
      case Refused(_) => Reject(ProtocolError)
      case Parsed(r) =>
        match r
        case Get(_, _) => Route(HandleGet, r)
        case Set(_, _, _, _) => Route(HandleSet, r)
        case Del(_) => Route(HandleDel, r)
        case Clr(_, _) => Route(HandleClr, r)
        case _ => Reject(ProtocolError)
  }

  /** The magic is checked before the op byte; a routed request is the one
      the header encodes, and its op byte selects the handler. LST and NFO
      are unknown to this revision. */
  lemma ServerDispatchSpec(argsPresent: bool, h: seq<Byte>)
    requires |h| == REQUEST_SIZE
    ensures !argsPresent ==> ServerDispatch(argsPresent, h) == Reject(Bug)
    ensures argsPresent && !HasMagic(h) ==> ServerDispatch(argsPresent, h) == Reject(ProtocolError)
    ensures argsPresent && HasMagic(h) ==>
              (ServerDispatch(argsPresent, h).Route? <==> h[3] in {CMD_BYTE_GET, CMD_BYTE_SET, CMD_BYTE_DEL, CMD_BYTE_CLR})
    ensures ServerDispatch(argsPresent, h).Route? ==>
              && EncodeRequest(ServerDispatch(argsPresent, h).request)[..5] == h[..5]
              && (h[3] == CMD_BYTE_GET <==> ServerDispatch(argsPresent, h).handler == HandleGet)
              && (h[3] == CMD_BYTE_SET <==> ServerDispatch(argsPresent, h).handler == HandleSet)
              && (h[3] == CMD_BYTE_DEL <==> ServerDispatch(argsPresent, h).handler == HandleDel)
              && (h[3] == CMD_BYTE_CLR <==> ServerDispatch(argsPresent, h).handler == HandleClr)
    ensures ServerDispatch(argsPresent, h).Reject? ==>
              ServerDispatch(argsPresent, h).status in {Bug, ProtocolError}
  {
    if argsPresent && DecodeRequest(h).Parsed? {
      RequestDecodeFaithful(h);
    }
  }

  // ---------------------------------------------------------------------
  // The status -> response rule of process_worker_events

  /** The payload a handler hands back; its length is a u32 field. */
  type Payload = p: seq<Byte> | |p| < U32_LIMIT

  /** What is done with the connection after a handler returned. */
  datatype Reply = CloseConnection | Write(bytes: seq<Byte>)

  /** The header the rule builds for a status that does not close the
      connection. */
  function HeaderFor(status: StatusCode, payload: Option<Payload>): (r: Response)
  {
    if IsClientError(status.Code()) || IsClientMessage(status.Code()) then Failure(status.Code())
    else Success(if payload.None? then 0 else |payload.value|)
  }

  /** The payload bytes that follow a header when the payload is present
      and non-empty. */
  function PayloadBytes(payload: Option<Payload>): seq<Byte>
  {
    if payload.Some? && |payload.value| > 0 then payload.value else []
  }

  /** The rule as written: an internal error closes the client; otherwise a
      header goes out, and then the payload whenever there is one, whatever
      the header said. */
  function ReplyAsWritten(status: StatusCode, payload: Option<Payload>): (r: Reply)
  {
    if IsInternalError(status.Code()) then CloseConnection
    else Write(EncodeResponse(HeaderFor(status, payload)) + PayloadBytes(payload))
  }

  /** The rule with the payload sent only after a success header. */
  function ServerReply(status: StatusCode, payload: Option<Payload>): (r: Reply)
  {
    if IsInternalError(status.Code()) then CloseConnection
    else if status.Ok? then Write(EncodeResponse(HeaderFor(status, payload)) + PayloadBytes(payload))
    else Write(EncodeResponse(Failure(status.Code())))
  }

  /** How a client reads one reply: an 8-byte header, then as many payload
      bytes as a success header announces. Returns the response, the payload
      and the bytes left over for the next reply. */
  function ReadReply(bytes: seq<Byte>): (r: Option<(Response, seq<Byte>, seq<Byte>)>)
  {
    if |bytes| < RESPONSE_SIZE then None
    else match DecodeResponse(bytes[..RESPONSE_SIZE])
      case None => None
      case Some(resp) =>
        var rest := bytes[RESPONSE_SIZE..];
        var n := if resp.Success? then resp.size else 0;
        if |rest| < n then None else Some((resp, rest[..n], rest[n..]))
  }

  /** Internal errors close the connection without a byte; client errors and
      messages answer a failure header carrying the code and nothing else;
      OK answers a success header with the payload length followed by the
      payload. A reader that consumes one reply consumes exactly it. */
  lemma ServerReplySpec(status: StatusCode, payload: Option<Payload>)
    ensures ServerReply(status, payload).CloseConnection? <==> status in {Bug, ConnectionClosed, NetworkError}
    ensures status in {ProtocolError, NotFound, Expired, OutOfMemory} ==>
              && ServerReply(status, payload) == Write(EncodeResponse(Failure(status.Code())))
              && ReadReply(ServerReply(status, payload).bytes) == Some((Failure(status.Code()), [], []))
    ensures status == Ok ==>
              && ServerReply(status, payload) == Write(EncodeResponse(Success(|PayloadBytes(payload)|)) + PayloadBytes(payload))
              && ReadReply(ServerReply(status, payload).bytes) == Some((Success(|PayloadBytes(payload)|), PayloadBytes(payload), []))
  {
    StatusSeries(status);
    var r := ServerReply(status, payload);
    if r.Write? {
      var resp := if status.Ok? then HeaderFor(status, payload) else Failure(status.Code());
      ResponseRoundTrip(resp);
      assert r.bytes[..RESPONSE_SIZE] == EncodeResponse(resp);
      var rest := r.bytes[RESPONSE_SIZE..];
      assert rest == (if status.Ok? then PayloadBytes(payload) else []);
      if status.Ok? {
        assert resp == Success(|PayloadBytes(payload)|);
        assert rest[..|rest|] == rest && rest[|rest|..] == [];
      }
    }
  }

  /** Replies written back to back are read back one after the other. */
  lemma ReadReplyConsumesOne(status: StatusCode, payload: Option<Payload>, next: seq<Byte>)
    requires ServerReply(status, payload).Write?
    ensures ReadReply(ServerReply(status, payload).bytes + next).Some?
    ensures ReadReply(ServerReply(status, payload).bytes + next).value.2 == next
  {
    StatusSeries(status);
    var b := ServerReply(status, payload).bytes;
    var resp := if status.Ok? then HeaderFor(status, payload) else Failure(status.Code());
    ResponseRoundTrip(resp);
    assert (b + next)[..RESPONSE_SIZE] == EncodeResponse(resp);
    assert (b + next)[RESPONSE_SIZE..] == (if status.Ok? then PayloadBytes(payload) else []) + next;
  }

  /** Where the handler returned no payload, or succeeded, the written rule
      and the corrected one agree. */
  lemma ReplyAgrees(status: StatusCode, payload: Option<Payload>)
    requires status.Ok? || PayloadBytes(payload) == []
    ensures ReplyAsWritten(status, payload) == ServerReply(status, payload)
  {
    StatusSeries(status);
    if !status.Ok? && !IsInternalError(status.Code()) {
      assert EncodeResponse(HeaderFor(status, payload)) + [] == EncodeResponse(HeaderFor(status, payload));
    }
  }

  /** As written, a failure that comes with a payload leaves the payload
      behind the failure header, where a client takes it for the start of
      the next reply. */
  lemma FailureLeavesPayload(status: StatusCode, payload: Option<Payload>)
    requires status in {ProtocolError, NotFound, Expired, OutOfMemory}
    ensures ReplyAsWritten(status, payload).Write?
    ensures ReadReply(ReplyAsWritten(status, payload).bytes) == Some((Failure(status.Code()), [], PayloadBytes(payload)))
  {
    StatusSeries(status);
    var b := ReplyAsWritten(status, payload).bytes;
    ResponseRoundTrip(Failure(status.Code()));
    assert b[..RESPONSE_SIZE] == EncodeResponse(Failure(status.Code()));
    assert b[RESPONSE_SIZE..] == PayloadBytes(payload);
  }

  /** NFO on a missing key answers NOT_FOUND with its 16-byte entry block
      already attached: as written, 24 bytes go out and 16 of them are left
      over after the failure reply; the corrected rule leaves nothing. */
  lemma FailureReplyCarriesPayload()
    ensures var payload: Option<Payload> := Some(Zeros(16));
            && ReplyAsWritten(NotFound, payload).Write?
            && |ReplyAsWritten(NotFound, payload).bytes| == RESPONSE_SIZE + 16
            && ReadReply(ReplyAsWritten(NotFound, payload).bytes) == Some((Failure(0x41), [], Zeros(16)))
            && ReadReply(ServerReply(NotFound, payload).bytes) == Some((Failure(0x41), [], []))
  {
    var payload: Option<Payload> := Some(Zeros(16));
    FailureLeavesPayload(NotFound, payload);
    ServerReplySpec(NotFound, payload);
  }
}
