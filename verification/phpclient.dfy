/** test.php: the `CiK` PHP client's SET path. It builds the older SET frame
    (three tag-length bytes, at most three tags), writes it with a retrying
    loop, and reads one response header with a single read for the payload.
    The socket is left out: each fwrite's result and each fread's bytes are
    parameters. */
module PhpClient {
  import opened Bytes
  import opened Wire
  import Status
  import Server

  // ---------------------------------------------------------------------
  // makeSetMessage

  /** `pack('C', x)` and `pack('c', x)` keep the low byte. */
  function PackByte(x: int): Byte
  {
    x % 0x100
  }

  /** `pack('N', x)`: the low 32 bits, most significant byte first. */
  function PackN(x: int): (r: seq<Byte>)
    ensures |r| == 4
  {
    BE32(x % U32_LIMIT)
  }

  /** The frame carries at most this many tags. */
  const MAX_TAGS: nat := 3

  /** The `i`-th `array_shift` of the tag list: the tag, or null. */
  function TagAt(tags: seq<seq<Byte>>, i: nat): Option<seq<Byte>>
  {
    if i < |tags| then Some(tags[i]) else None
  }

  /** A tag's length byte: `strlen` of the tag, 0 for null. */
  function TagLength(t: Option<seq<Byte>>): int
  {
    if t.Some? then |t.value| else 0
  }

  /** A tag's bytes in the body: null concatenates as nothing. */
  function TagText(t: Option<seq<Byte>>): seq<Byte>
  {
    if t.Some? then t.value else []
  }

  /** The ttl of the frame: `save` turns a missing lifetime into null, and
      null is sent as all ones. */
  function TtlWord(lifetime: Option<int>): int
  {
    if lifetime.None? then 0xFFFF_FFFF else lifetime.value
  }

  /** The sixteen header bytes of makeSetMessage: magic, op, key length,
      three tag lengths, value length and ttl. */
  function SetHeader(key: seq<Byte>, value: seq<Byte>, tags: seq<seq<Byte>>, lifetime: Option<int>): (h: seq<Byte>)
    ensures |h| == REQUEST_SIZE
  {
    Magic + [CMD_BYTE_SET, PackByte(|key|),
             PackByte(TagLength(TagAt(tags, 0))),
             PackByte(TagLength(TagAt(tags, 1))),
             PackByte(TagLength(TagAt(tags, 2)))]
    + PackN(|value|) + PackN(TtlWord(lifetime))
  }

  /** The tags the frame carries: the first three, a missing one as empty. */
  function FrameTags(tags: seq<seq<Byte>>): (r: seq<seq<Byte>>)
    ensures |r| == MAX_TAGS
  {
    [TagText(TagAt(tags, 0)), TagText(TagAt(tags, 1)), TagText(TagAt(tags, 2))]
  }

  /** makeSetMessage: the header, then key, the three tags and the value. */
  function MakeSetMessage(key: seq<Byte>, value: seq<Byte>, tags: seq<seq<Byte>>, lifetime: Option<int>): (m: seq<Byte>)
  {
    var t := FrameTags(tags);
    SetHeader(key, value, tags, lifetime) + key + t[0] + t[1] + t[2] + value
  }

  /** The lengths an older SET header announces. */
  datatype LegacyHead = LegacyHead(klen: nat, t0: nat, t1: nat, t2: nat, vlen: nat, ttl: U32)

  /** The older SET frame as a server of that revision reads it. */
  datatype LegacySet = LegacySet(key: seq<Byte>, tags: seq<seq<Byte>>, value: seq<Byte>, ttl: U32)

  /** The older header: `None` unless it starts with the magic and SET. */
  function ReadLegacyHead(h: seq<Byte>): (r: Option<LegacyHead>)
    requires |h| == REQUEST_SIZE
    ensures r.Some? <==> h[..4] == Magic + [CMD_BYTE_SET]
  {
    if h[..4] != Magic + [CMD_BYTE_SET] then None
    else Some(LegacyHead(h[4], h[5], h[6], h[7], FromBE32(h[8..12]), FromBE32(h[12..16])))
  }

  /** Cutting key, tags and value off a body by the header's lengths;
      `None` when the body is too short. */
  function SplitBody(b: seq<Byte>, hd: LegacyHead): (r: Option<(LegacySet, seq<Byte>)>)
  {
    var k := hd.klen;
    var a := k + hd.t0;
    var c := a + hd.t1;
    var d := c + hd.t2;
    var total := d + hd.vlen;
    if |b| < total then None
    else Some((LegacySet(b[..k], [b[k..a], b[a..c], b[c..d]], b[d..total], hd.ttl), b[total..]))
  }

  /** Reading one older SET frame off the front of a stream. */
  function DecodeLegacySet(m: seq<Byte>): (r: Option<(LegacySet, seq<Byte>)>)
  {
    if |m| < REQUEST_SIZE then None
    else
      match ReadLegacyHead(m[..REQUEST_SIZE])
      case None => None
      case Some(hd) => SplitBody(m[REQUEST_SIZE..], hd)
  }

  /** The header reads back as the key length, the first three tags'
      lengths (0 for a missing one), the value length and the lifetime's
      low 32 bits, for lengths that fit their fields. */
  lemma SetHeaderRoundTrip(key: seq<Byte>, value: seq<Byte>, tags: seq<seq<Byte>>, lifetime: Option<int>)
    requires |key| < 0x100 && |value| < U32_LIMIT
    requires forall i :: 0 <= i < |tags| && i < MAX_TAGS ==> |tags[i]| < 0x100
    ensures var t := FrameTags(tags);
            ReadLegacyHead(SetHeader(key, value, tags, lifetime))
            == Some(LegacyHead(|key|, |t[0]|, |t[1]|, |t[2]|, |value|, TtlWord(lifetime) % U32_LIMIT))
  {
    var h := SetHeader(key, value, tags, lifetime);
    var t := FrameTags(tags);
    TagLengthsFit(tags);
    assert h[..4] == Magic + [CMD_BYTE_SET];
    assert h[4] == |key| && h[5] == |t[0]| && h[6] == |t[1]| && h[7] == |t[2]|;
    assert h[8..12] == PackN(|value|) && h[12..16] == PackN(TtlWord(lifetime));
    BE32RoundTrip(|value|);
    BE32RoundTrip(TtlWord(lifetime) % U32_LIMIT);
  }

  /** Each of the three length bytes is the length of the tag the frame
      carries in that place. */
  lemma TagLengthsFit(tags: seq<seq<Byte>>)
    requires forall i :: 0 <= i < |tags| && i < MAX_TAGS ==> |tags[i]| < 0x100
    ensures forall i :: 0 <= i < MAX_TAGS ==> PackByte(TagLength(TagAt(tags, i))) == |FrameTags(tags)[i]|
  {
  }

  /** A body laid out by the header's lengths splits back into its parts. */
  lemma SplitBodyRoundTrip(key: seq<Byte>, t: seq<seq<Byte>>, value: seq<Byte>, ttl: U32, rest: seq<Byte>)
    requires |t| == MAX_TAGS
    ensures SplitBody(key + t[0] + t[1] + t[2] + value + rest, LegacyHead(|key|, |t[0]|, |t[1]|, |t[2]|, |value|, ttl))
            == Some((LegacySet(key, t, value, ttl), rest))
  {
    var b := key + t[0] + t[1] + t[2] + value + rest;
    var k := |key|;
    var a := k + |t[0]|;
    var c := a + |t[1]|;
    var d := c + |t[2]|;
    assert b[..k] == key;
    assert b[k..a] == t[0];
    assert b[a..c] == t[1];
    assert b[c..d] == t[2];
    assert b[d..d + |value|] == value;
    assert b[d + |value|..] == rest;
    assert [b[k..a], b[a..c], b[c..d]] == t;
  }

  /** A frame whose key and first three tags are under 256 bytes and whose
      value is under 4 GiB reads back as key, those tags, value and ttl (the
      lifetime's low 32 bits), and nothing of the stream after it is
      consumed. */
  lemma SetMessageRoundTrip(key: seq<Byte>, value: seq<Byte>, tags: seq<seq<Byte>>, lifetime: Option<int>, rest: seq<Byte>)
    requires |key| < 0x100 && |value| < U32_LIMIT
    requires forall i :: 0 <= i < |tags| && i < MAX_TAGS ==> |tags[i]| < 0x100
    ensures DecodeLegacySet(MakeSetMessage(key, value, tags, lifetime) + rest)
            == Some((LegacySet(key, FrameTags(tags), value, TtlWord(lifetime) % U32_LIMIT), rest))
  {
    var t := FrameTags(tags);
    var h := SetHeader(key, value, tags, lifetime);
    var body := key + t[0] + t[1] + t[2] + value + rest;
    var m := MakeSetMessage(key, value, tags, lifetime) + rest;
    assert m == h + body;
    assert m[..REQUEST_SIZE] == h && m[REQUEST_SIZE..] == body;
    SetHeaderRoundTrip(key, value, tags, lifetime);
    SplitBodyRoundTrip(key, t, value, TtlWord(lifetime) % U32_LIMIT, rest);
  }

  /** Tags past the third are dropped silently, and a missing tag is sent
      like an empty one. */
  lemma SetMessageTags(key: seq<Byte>, value: seq<Byte>, tags: seq<seq<Byte>>, lifetime: Option<int>)
    ensures |tags| > MAX_TAGS ==>
              MakeSetMessage(key, value, tags, lifetime) == MakeSetMessage(key, value, tags[..MAX_TAGS], lifetime)
    ensures |tags| < MAX_TAGS ==>
              MakeSetMessage(key, value, tags, lifetime) == MakeSetMessage(key, value, tags + [[]], lifetime)
  {
  }

  /** Lengths are not normalised: a 256-byte key is announced as length 0,
      so the frame reads back with an empty key and the key's bytes taken
      for the value. */
  lemma LongKeyWraps()
    ensures var m := MakeSetMessage(Zeros(0x100), [], [], None);
            && m[4] == 0
            && DecodeLegacySet(m) == Some((LegacySet([], [[], [], []], [], 0xFFFF_FFFF), Zeros(0x100)))
  {
    var m := MakeSetMessage(Zeros(0x100), [], [], None);
    var h := SetHeader(Zeros(0x100), [], [], None);
    assert m == h + Zeros(0x100);
    assert m[..REQUEST_SIZE] == h && m[REQUEST_SIZE..] == Zeros(0x100);
    assert h[8..12] == PackN(0) && h[12..16] == PackN(0xFFFF_FFFF);
    BE32RoundTrip(0);
    BE32RoundTrip(0xFFFF_FFFF);
    assert ReadLegacyHead(h) == Some(LegacyHead(0, 0, 0, 0, 0, 0xFFFF_FFFF));
  }

  /** The server of types.h reads the older frame's first tag length as
      the tag count and the two other tag lengths as padding. */
  lemma LegacyFrameUnderCurrentHeader(key: seq<Byte>, value: seq<Byte>, tags: seq<seq<Byte>>, lifetime: Option<int>)
    requires |key| < 0x100 && |value| < U32_LIMIT
    ensures var m := MakeSetMessage(key, value, tags, lifetime);
            DecodeRequest(m[..REQUEST_SIZE])
            == Parsed(Set(|key|, PackByte(TagLength(TagAt(tags, 0))), |value|, TtlWord(lifetime) % U32_LIMIT))
  {
    var m := MakeSetMessage(key, value, tags, lifetime);
    var h := SetHeader(key, value, tags, lifetime);
    assert m[..REQUEST_SIZE] == h;
    assert h[8..12] == PackN(|value|) && h[12..16] == PackN(TtlWord(lifetime));
    BE32RoundTrip(|value|);
    BE32RoundTrip(TtlWord(lifetime) % U32_LIMIT);
  }

  // ---------------------------------------------------------------------
  // writeMessage

  /** What one fwrite answered: false, or a byte count. fwrite sends at
      most the bytes it is given. */
  datatype Fwrite = WriteFailed | Wrote(count: nat)

  /** How a write loop ended, and the bytes the stream accepted in order. */
  datatype Written = Written(ok: bool, sent: seq<Byte>)

  /** The loop of writeMessage from `written` bytes on: each call offers
      the unsent suffix; false, or a second zero count in a row, gives up.
      `fwrite(i)` is the i-th call's answer. */
  function WriteFrom(msg: seq<Byte>, written: nat, lastFailed: bool, fwrite: nat -> Fwrite, call: nat): (r: Written)
    requires written <= |msg|
    ensures msg[..written] <= r.sent && r.sent <= msg
    ensures r.ok ==> r.sent == msg
    decreases 2 * (|msg| - written) + (if lastFailed then 0 else 1)
  {
    if written >= |msg| then Written(true, msg)
    else
      match fwrite(call)
      case WriteFailed => Written(false, msg[..written])
      case Wrote(n) =>
        var k := if n <= |msg| - written then n else |msg| - written;
        if k == 0 && lastFailed then Written(false, msg[..written])
        else WriteFrom(msg, written + k, k == 0, fwrite, call + 1)
  }

  /** writeMessage: `$lastFailed` starts unset, which PHP reads as false. */
  function WriteMessage(msg: seq<Byte>, fwrite: nat -> Fwrite): (r: Written)
    ensures r.sent <= msg && (r.ok ==> r.sent == msg)
  {
    WriteFrom(msg, 0, false, fwrite, 0)
  }

  /** A stream that takes at least one byte per call receives the whole
      message. */
  lemma {:induction false} ProgressCompletes(msg: seq<Byte>, written: nat, lastFailed: bool, fwrite: nat -> Fwrite, call: nat)
    requires written <= |msg|
    requires forall i :: fwrite(i).Wrote? && fwrite(i).count > 0
    ensures WriteFrom(msg, written, lastFailed, fwrite, call).ok
    decreases |msg| - written
  {
    if written < |msg| {
      var n := fwrite(call).count;
      var k := if n <= |msg| - written then n else |msg| - written;
      ProgressCompletes(msg, written + k, false, fwrite, call + 1);
    }
  }

  /** An empty message is sent without calling fwrite; a false answer gives
      up at once; one zero count is retried and a second in a row gives up. */
  lemma WriteMessageCases(msg: seq<Byte>, fwrite: nat -> Fwrite)
    ensures |msg| == 0 ==> WriteMessage(msg, fwrite).ok
    ensures |msg| > 0 && fwrite(0) == WriteFailed ==> WriteMessage(msg, fwrite) == Written(false, [])
    ensures |msg| > 0 && fwrite(0) == Wrote(0) && fwrite(1) == Wrote(0) ==> WriteMessage(msg, fwrite) == Written(false, [])
    ensures |msg| > 0 && fwrite(0) == Wrote(0) && fwrite(1) == Wrote(|msg|) ==> WriteMessage(msg, fwrite).ok
  {
    if |msg| > 0 && fwrite(0) == Wrote(0) {
      assert WriteMessage(msg, fwrite) == WriteFrom(msg, 0, true, fwrite, 1);
    }
  }

  // ---------------------------------------------------------------------
  // readMessage and save

  /** What a method of the client ends with: a value, or one of the
      exceptions readMessage throws. */
  datatype Php<T> =
    | Returns(value: T)
    | HeaderUnreadable
    | ServerError(code: U32)
    | PayloadUnreadable

  /** `unpack('c', ...)`: a byte as a signed char. */
  function Signed(b: Byte): int
  {
    if b < 0x80 then b else b - 0x100
  }

  /** readMessage: `header` is what fread(8) returned (empty for false),
      `payload` what the one fread of the payload returned. */
  function ReadMessage(header: seq<Byte>, payload: Option<seq<Byte>>): (r: Php<seq<Byte>>)
  {
    if |header| < RESPONSE_SIZE then HeaderUnreadable
    else if Signed(header[0]) != CONTROL_BYTE_1 || Signed(header[1]) != CONTROL_BYTE_2
         || Signed(header[2]) != CONTROL_BYTE_3
         || (Signed(header[3]) != SUCCESS_BYTE && Signed(header[3]) != FAILURE_BYTE)
    then HeaderUnreadable
    else
      var n := FromBE32(header[4..8]);
      if Signed(header[3]) != SUCCESS_BYTE then ServerError(n)
      else if n == 0 then Returns([])
      else if payload.None? then PayloadUnreadable
      else Returns(payload.value)
  }

  /** On an eight-byte header readMessage agrees with the protocol's header
      decoder: a framing fault throws, a failure throws its code, a
      success of size 0 is the empty string, and otherwise the payload is
      whatever the single fread returned, short or not. */
  lemma ReadMessageSpec(header: seq<Byte>, payload: Option<seq<Byte>>)
    requires |header| == RESPONSE_SIZE
    ensures ReadMessage(header, payload) == HeaderUnreadable <==> DecodeResponse(header).None?
    ensures forall c: U32 :: ReadMessage(header, payload) == ServerError(c) <==> DecodeResponse(header) == Some(Failure(c))
    ensures DecodeResponse(header) == Some(Success(0)) ==> ReadMessage(header, payload) == Returns([])
    ensures DecodeResponse(header).Some? && DecodeResponse(header).value.Success? && DecodeResponse(header).value.size > 0 ==>
              ReadMessage(header, payload) == (if payload.Some? then Returns(payload.value) else PayloadUnreadable)
  {
  }

  /** Headers the server builds read back as their class and value. */
  lemma ReadMessageOfResponse(r: Response, payload: seq<Byte>)
    ensures r.Failure? ==> ReadMessage(EncodeResponse(r), Some(payload)) == ServerError(r.code)
    ensures r.Success? ==> ReadMessage(EncodeResponse(r), Some(payload)) == Returns(if r.size == 0 then [] else payload)
  {
    ResponseRoundTrip(r);
    ReadMessageSpec(EncodeResponse(r), Some(payload));
  }

  /** save: write the frame, then read one reply; true exactly when both
      the write went through and the reply has no payload. The read is not
      attempted after a failed write; its exceptions escape. */
  function Save(value: seq<Byte>, key: seq<Byte>, tags: seq<seq<Byte>>, lifetime: Option<int>,
                fwrite: nat -> Fwrite, header: seq<Byte>, payload: Option<seq<Byte>>): (r: Php<bool>)
  {
    if !WriteMessage(MakeSetMessage(key, value, tags, lifetime), fwrite).ok then Returns(false)
    else
      match ReadMessage(header, payload)
      case Returns(p) => Returns(p == [])
      case HeaderUnreadable => HeaderUnreadable
      case ServerError(c) => ServerError(c)
      case PayloadUnreadable => PayloadUnreadable
  }

  /** save returns true exactly when the frame went out whole and the reply
      read as the empty string, and false when the write failed. */
  lemma SaveSpec(value: seq<Byte>, key: seq<Byte>, tags: seq<seq<Byte>>, lifetime: Option<int>,
                 fwrite: nat -> Fwrite, header: seq<Byte>, payload: Option<seq<Byte>>)
    ensures var w := WriteMessage(MakeSetMessage(key, value, tags, lifetime), fwrite);
            && ((Save(value, key, tags, lifetime, fwrite, header, payload) == Returns(true))
                <==> w.ok && w.sent == MakeSetMessage(key, value, tags, lifetime) && ReadMessage(header, payload) == Returns([]))
            && (!w.ok ==> Save(value, key, tags, lifetime, fwrite, header, payload) == Returns(false))
  {
  }

  /** After a write that went through, save is readMessage's answer:
      true for the empty string, false for any other payload, and its
      exceptions unchanged. */
  lemma SaveAfterWrite(value: seq<Byte>, key: seq<Byte>, tags: seq<seq<Byte>>, lifetime: Option<int>,
                       fwrite: nat -> Fwrite, header: seq<Byte>, payload: Option<seq<Byte>>)
    requires WriteMessage(MakeSetMessage(key, value, tags, lifetime), fwrite).ok
    ensures ReadMessage(header, payload).Returns? ==>
              Save(value, key, tags, lifetime, fwrite, header, payload) == Returns(ReadMessage(header, payload).value == [])
    ensures forall c: U32 :: ReadMessage(header, payload) == ServerError(c) <==>
                               Save(value, key, tags, lifetime, fwrite, header, payload) == ServerError(c)
  {
  }

  /** Against the server's reply rule: after a SET the client's save is
      true when the server answered OK without payload, and throws the
      status code of a client error or message. */
  lemma SaveAfterServerReply(value: seq<Byte>, key: seq<Byte>, tags: seq<seq<Byte>>, lifetime: Option<int>,
                             fwrite: nat -> Fwrite, status: Status.StatusCode, next: Option<seq<Byte>>)
    requires forall i :: fwrite(i).Wrote? && fwrite(i).count > 0
    requires Server.ServerReply(status, None).Write?
    ensures var b := Server.ServerReply(status, None).bytes;
            && (status == Status.Ok ==> Save(value, key, tags, lifetime, fwrite, b, next) == Returns(true))
            && (status != Status.Ok ==> Save(value, key, tags, lifetime, fwrite, b, next) == ServerError(status.Code()))
  {
    ProgressCompletes(MakeSetMessage(key, value, tags, lifetime), 0, false, fwrite, 0);
    ReplyReadsBack(status, next);
    SaveAfterWrite(value, key, tags, lifetime, fwrite, Server.ServerReply(status, None).bytes, next);
  }

  /** The header of a payload-free server reply reads back as the empty
      string for OK and as the status code otherwise. */
  lemma ReplyReadsBack(status: Status.StatusCode, next: Option<seq<Byte>>)
    requires Server.ServerReply(status, None).Write?
    ensures ReadMessage(Server.ServerReply(status, None).bytes, next)
            == if status == Status.Ok then Returns([]) else ServerError(status.Code())
  {
    Server.ServerReplySpec(status, None);
    var b := Server.ServerReply(status, None).bytes;
    if status == Status.Ok {
      assert Server.PayloadBytes(None) == [];
      assert b == EncodeResponse(Success(0)) + [];
      ResponseRoundTrip(Success(0));
    } else {
      assert b == EncodeResponse(Failure(status.Code()));
      ResponseRoundTrip(Failure(status.Code()));
    }
    ReadMessageSpec(b, next);
  }
}
