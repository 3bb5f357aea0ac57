/** The canonical frames of types.h: the 16-byte request header and the 8-byte
    response header. Multi-byte fields travel big-endian. */
module Wire {
  import opened Bytes

  const CONTROL_BYTE_1: Byte := 0x43 // 'C'
  const CONTROL_BYTE_2: Byte := 0x69 // 'i'
  const CONTROL_BYTE_3: Byte := 0x4B // 'K'
  const CMD_BYTE_GET: Byte := 0x67 // 'g'
  const CMD_BYTE_SET: Byte := 0x73 // 's'
  const CMD_BYTE_DEL: Byte := 0x64 // 'd'
  const CMD_BYTE_CLR: Byte := 0x63 // 'c'
  const CMD_BYTE_LST: Byte := 0x6C // 'l'
  const CMD_BYTE_NFO: Byte := 0x6E // 'n'
  const SUCCESS_BYTE: Byte := 0x74 // 't'
  const FAILURE_BYTE: Byte := 0x66 // 'f'

  const REQUEST_SIZE: nat := 16
  const RESPONSE_SIZE: nat := 8

  const GET_FLAG_IGNORE_EXPIRES: Byte := 0x01

  /** The three sentinel bytes every frame opens with. */
  const Magic: seq<Byte> := [CONTROL_BYTE_1, CONTROL_BYTE_2, CONTROL_BYTE_3]

  /** The `Request` union, one alternative per op byte; padding is not kept. */
  datatype Request =
    | Get(klen: Byte, flags: Byte)
    | Set(klen: Byte, ntags: Byte, vlen: U32, ttl: U32)
    | Del(klen: Byte)
    | Clr(mode: Byte, ntags: Byte)
    | Lst(mode: Byte, ntags: Byte)
    | Nfo(klen: Byte)
  {
    function Op(): Byte
    {
      match this
      case Get(_, _) => CMD_BYTE_GET
      case Set(_, _, _, _) => CMD_BYTE_SET
      case Del(_) => CMD_BYTE_DEL
      case Clr(_, _) => CMD_BYTE_CLR
      case Lst(_, _) => CMD_BYTE_LST
      case Nfo(_) => CMD_BYTE_NFO
    }
  }

  /** `n` zero bytes. */
  function Zeros(n: nat): (r: seq<Byte>)
    ensures |r| == n
  {
    seq(n, _ => 0)
  }

  /** The header bytes of a request, padding zeroed. */
  function EncodeRequest(r: Request): (h: seq<Byte>)
    ensures |h| == REQUEST_SIZE
  {
    Magic + [r.Op()] +
    match r
    case Get(klen, flags) => [klen, flags] + Zeros(10)
    case Set(klen, ntags, vlen, ttl) => [klen, ntags, 0, 0] + BE32(vlen) + BE32(ttl)
    case Del(klen) => [klen] + Zeros(11)
    case Clr(mode, ntags) => [mode, ntags] + Zeros(10)
    case Lst(mode, ntags) => [mode, ntags] + Zeros(10)
    case Nfo(klen) => [klen] + Zeros(11)
  }

  /** Why a header was refused. */
  datatype HeaderFault = BadMagic | UnknownOp

  datatype Decoded = Parsed(request: Request) | Refused(fault: HeaderFault)

  predicate HasMagic(h: seq<Byte>)
    requires |h| >= 3
  {
    h[0] == CONTROL_BYTE_1 && h[1] == CONTROL_BYTE_2 && h[2] == CONTROL_BYTE_3
  }

  /** Reading the header fields out of 16 received bytes, as the handlers of
      controller.c do: the magic first, then the op byte. */
  function DecodeRequest(h: seq<Byte>): (d: Decoded)
    requires |h| == REQUEST_SIZE
    ensures !HasMagic(h) <==> d == Refused(BadMagic)
    ensures d.Parsed? ==> d.request.Op() == h[3]
    ensures HasMagic(h) && h[3] !in {CMD_BYTE_GET, CMD_BYTE_SET, CMD_BYTE_DEL, CMD_BYTE_CLR, CMD_BYTE_LST, CMD_BYTE_NFO}
            <==> d == Refused(UnknownOp)
  {
    if !HasMagic(h) then Refused(BadMagic)
    else if h[3] == CMD_BYTE_GET then Parsed(Get(h[4], h[5]))
    else if h[3] == CMD_BYTE_SET then Parsed(Set(h[4], h[5], FromBE32(h[8..12]), FromBE32(h[12..16])))
    else if h[3] == CMD_BYTE_DEL then Parsed(Del(h[4]))
    else if h[3] == CMD_BYTE_CLR then Parsed(Clr(h[4], h[5]))
    else if h[3] == CMD_BYTE_LST then Parsed(Lst(h[4], h[5]))
    else if h[3] == CMD_BYTE_NFO then Parsed(Nfo(h[4]))
    else Refused(UnknownOp)
  }

  /** The field offsets IS_REQUEST_STRUCT_VALID asserts: op at 3, klen or
      mode at 4, flags or tag count at 5, SET's vlen at 8 and ttl at 12. */
  lemma RequestOffsets(r: Request)
    ensures EncodeRequest(r)[..3] == Magic
    ensures EncodeRequest(r)[3] == r.Op()
    ensures (r.Get? || r.Set? || r.Del? || r.Nfo?) ==> EncodeRequest(r)[4] == r.klen
    ensures (r.Clr? || r.Lst?) ==> EncodeRequest(r)[4] == r.mode && EncodeRequest(r)[5] == r.ntags
    ensures r.Get? ==> EncodeRequest(r)[5] == r.flags
    ensures r.Set? ==> EncodeRequest(r)[5] == r.ntags
                       && EncodeRequest(r)[8..12] == BE32(r.vlen)
                       && EncodeRequest(r)[12..16] == BE32(r.ttl)
  {
  }

  /** Every header decodes back to the request it was built from. */
  lemma RequestRoundTrip(r: Request)
    ensures DecodeRequest(EncodeRequest(r)) == Parsed(r)
  {
    var h := EncodeRequest(r);
    assert HasMagic(h);
    if r.Set? {
      assert h[8..12] == BE32(r.vlen);
      assert h[12..16] == BE32(r.ttl);
      BE32RoundTrip(r.vlen);
      BE32RoundTrip(r.ttl);
    }
  }

  /** A header that decodes re-encodes to the same bytes at every position
      that is not padding. */
  lemma RequestDecodeFaithful(h: seq<Byte>)
    requires |h| == REQUEST_SIZE && DecodeRequest(h).Parsed?
    ensures EncodeRequest(DecodeRequest(h).request)[..5] == h[..5]
    ensures !DecodeRequest(h).request.Del? && !DecodeRequest(h).request.Nfo?
            ==> EncodeRequest(DecodeRequest(h).request)[5] == h[5]
    ensures DecodeRequest(h).request.Set? ==> EncodeRequest(DecodeRequest(h).request)[8..] == h[8..]
  {
    var r := DecodeRequest(h).request;
    var e := EncodeRequest(r);
    RequestOffsets(r);
    assert e[..5] == e[..3] + [e[3], e[4]];
    assert h[..5] == h[..3] + [h[3], h[4]];
    if r.Set? {
      FromBE32RoundTrip(h[8..12]);
      FromBE32RoundTrip(h[12..16]);
      assert e[8..12] == h[8..12];
      assert e[12..16] == h[12..16];
      assert e[8..] == e[8..12] + e[12..16];
      assert h[8..] == h[8..12] + h[12..16] by {
        assert h[8..] == h[8..16];
      }
    }
  }

  /** The `Response` header: a success carries the payload size, a failure
      the status code, in the same four bytes. */
  datatype Response = Success(size: U32) | Failure(code: U32)

  /** MAKE_SUCCESS_RESPONSE / MAKE_FAILURE_RESPONSE. */
  function EncodeResponse(r: Response): (h: seq<Byte>)
    ensures |h| == RESPONSE_SIZE
  {
    match r
    case Success(size) => Magic + [SUCCESS_BYTE] + BE32(size)
    case Failure(code) => Magic + [FAILURE_BYTE] + BE32(code)
  }

  /** Reading a response header; None for a framing fault. */
  function DecodeResponse(h: seq<Byte>): (r: Option<Response>)
    requires |h| == RESPONSE_SIZE
    ensures r.None? <==> !HasMagic(h) || (h[3] != SUCCESS_BYTE && h[3] != FAILURE_BYTE)
  {
    if !HasMagic(h) then None
    else if h[3] == SUCCESS_BYTE then Some(Success(FromBE32(h[4..8])))
    else if h[3] == FAILURE_BYTE then Some(Failure(FromBE32(h[4..8])))
    else None
  }

  /** The magic sits at 0..2, the class byte at 3 and the 32-bit field at 4,
      and decoding recovers the class and the value. */
  lemma ResponseRoundTrip(r: Response)
    ensures EncodeResponse(r)[..3] == Magic
    ensures EncodeResponse(r)[3] == (if r.Success? then SUCCESS_BYTE else FAILURE_BYTE)
    ensures EncodeResponse(r)[4..] == BE32(if r.Success? then r.size else r.code)
    ensures DecodeResponse(EncodeResponse(r)) == Some(r)
  {
    var h := EncodeResponse(r);
    match r
    case Success(size) =>
      assert h[4..8] == BE32(size);
      BE32RoundTrip(size);
    case Failure(code) =>
      assert h[4..8] == BE32(code);
      BE32RoundTrip(code);
  }

  /** Every header that decodes is the encoding of what it decodes to. */
  lemma ResponseDecodeFaithful(h: seq<Byte>)
    requires |h| == RESPONSE_SIZE && DecodeResponse(h).Some?
    ensures EncodeResponse(DecodeResponse(h).value) == h
  {
    FromBE32RoundTrip(h[4..8]);
    assert h == h[..3] + [h[3]] + h[4..8];
  }
}
