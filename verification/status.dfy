/** Status codes, their mask classes and names, and the CLR/LST mode bytes
    (types.h). */
module Status {

  const MASK_INTERNAL_ERROR: nat := 0x10
  const MASK_CLIENT_ERROR: nat := 0x20
  const MASK_CLIENT_MESSAGE: nat := 0x40

  /** The statuses a handler can return. The mask values themselves are codes
      too but no handler returns them. */
  datatype StatusCode =
    | Ok
    | Bug
    | ConnectionClosed
    | NetworkError
    | ProtocolError
    | NotFound
    | Expired
    | OutOfMemory
  {
    /** The numeric value of the C enumerator. */
    function Code(): nat
    {
      match this
      case Ok => 0x00
      case Bug => 0x11
      case ConnectionClosed => 0x12
      case NetworkError => 0x13
      case ProtocolError => 0x21
      case NotFound => 0x41
      case Expired => 0x42
      case OutOfMemory => 0x43
    }
  }

  /** `code & mask` is non-zero, for a single-bit mask. */
  predicate HasBit(code: nat, mask: nat)
    requires mask > 0
  {
    (code / mask) % 2 == 1
  }

  predicate IsInternalError(code: nat) { HasBit(code, MASK_INTERNAL_ERROR) }
  predicate IsClientError(code: nat) { HasBit(code, MASK_CLIENT_ERROR) }
  predicate IsClientMessage(code: nat) { HasBit(code, MASK_CLIENT_MESSAGE) }

  /** The 0x10, 0x20 and 0x40 series are told apart by a single mask bit, and
      OK carries none of them. */
  lemma StatusSeries(s: StatusCode)
    ensures s.Ok? <==> s.Code() == 0
    ensures s.Ok? ==> !IsInternalError(s.Code()) && !IsClientError(s.Code()) && !IsClientMessage(s.Code())
    ensures (s.Bug? || s.ConnectionClosed? || s.NetworkError?)
            <==> (IsInternalError(s.Code()) && !IsClientError(s.Code()) && !IsClientMessage(s.Code()))
    ensures s.ProtocolError?
            <==> (IsClientError(s.Code()) && !IsInternalError(s.Code()) && !IsClientMessage(s.Code()))
    ensures (s.NotFound? || s.Expired? || s.OutOfMemory?)
            <==> (IsClientMessage(s.Code()) && !IsInternalError(s.Code()) && !IsClientError(s.Code()))
  {
  }

  /** Distinct statuses have distinct codes. */
  lemma CodeInjective(s: StatusCode, t: StatusCode)
    ensures s.Code() == t.Code() ==> s == t
  {
  }

  /** The codes the C enumeration defines, mask values included. */
  predicate IsDefinedCode(code: int)
  {
    code in {0x00, 0x10, 0x11, 0x12, 0x13, 0x20, 0x21, 0x40, 0x41, 0x42, 0x43}
  }

  /** `get_status_code_name`. */
  function StatusName(code: int): (name: string)
    ensures name == "Unknown" <==> !IsDefinedCode(code)
  {
    match code
    case 0x00 => "OK"
    case 0x10 => "[MASK_INTERNAL_ERROR]"
    case 0x11 => "BUG!"
    case 0x12 => "Connection closed"
    case 0x13 => "Network error"
    case 0x20 => "[MASK_CLIENT_ERROR]"
    case 0x21 => "Protocol error"
    case 0x40 => "[MASK_CLIENT_MESSAGE]"
    case 0x41 => "Not found"
    case 0x42 => "Expired"
    case 0x43 => "Out of memory"
    case _ => "Unknown"
  }

  /** Each defined code has a name of its own. */
  lemma StatusNameInjective(a: int, b: int)
    requires IsDefinedCode(a) && IsDefinedCode(b)
    ensures StatusName(a) == StatusName(b) ==> a == b
  {
  }

  /** The name of every status a handler returns. */
  lemma StatusNames(s: StatusCode)
    ensures StatusName(s.Code()) != "Unknown"
    ensures s.NotFound? ==> StatusName(s.Code()) == "Not found"
    ensures s.ProtocolError? ==> StatusName(s.Code()) == "Protocol error"
  {
  }

  /** ClearMode. */
  datatype ClearMode = ClearAll | ClearOld | ClearMatchAll | ClearMatchNone | ClearMatchAny
  {
    function ToByte(): nat
    {
      match this
      case ClearAll => 0
      case ClearOld => 1
      case ClearMatchAll => 2
      case ClearMatchNone => 3
      case ClearMatchAny => 4
    }
  }

  /** ListMode. */
  datatype ListMode = ListAllKeys | ListAllTags | ListMatchAll | ListMatchNone | ListMatchAny
  {
    function ToByte(): nat
    {
      match this
      case ListAllKeys => 0
      case ListAllTags => 1
      case ListMatchAll => 2
      case ListMatchNone => 3
      case ListMatchAny => 4
    }
  }

  datatype Maybe<T> = Unknown | Known(mode: T)

  /** The mode a CLR header byte names, if any. */
  function ClearModeOf(b: int): (m: Maybe<ClearMode>)
    ensures m.Known? <==> 0 <= b <= 4
    ensures m.Known? ==> m.mode.ToByte() == b
  {
    match b
    case 0 => Known(ClearAll)
    case 1 => Known(ClearOld)
    case 2 => Known(ClearMatchAll)
    case 3 => Known(ClearMatchNone)
    case 4 => Known(ClearMatchAny)
    case _ => Unknown
  }

  /** The mode an LST header byte names, if any. */
  function ListModeOf(b: int): (m: Maybe<ListMode>)
    ensures m.Known? <==> 0 <= b <= 4
    ensures m.Known? ==> m.mode.ToByte() == b
  {
    match b
    case 0 => Known(ListAllKeys)
    case 1 => Known(ListAllTags)
    case 2 => Known(ListMatchAll)
    case 3 => Known(ListMatchNone)
    case 4 => Known(ListMatchAny)
    case _ => Unknown
  }

  /** Exactly five clear modes, with distinct codes 0..4 that decode back. */
  lemma ClearModeCodes(m: ClearMode, n: ClearMode)
    ensures ClearModeOf(m.ToByte()) == Known(m)
    ensures m.ToByte() == n.ToByte() ==> m == n
    ensures |set c | 0 <= c < 0x100 && ClearModeOf(c).Known?| == 5
  {
    var s := set c | 0 <= c < 0x100 && ClearModeOf(c).Known?;
    assert s == {0, 1, 2, 3, 4};
  }

  /** Exactly five list modes, with distinct codes 0..4 that decode back. */
  lemma ListModeCodes(m: ListMode, n: ListMode)
    ensures ListModeOf(m.ToByte()) == Known(m)
    ensures m.ToByte() == n.ToByte() ==> m == n
    ensures |set c | 0 <= c < 0x100 && ListModeOf(c).Known?| == 5
  {
    var s := set c | 0 <= c < 0x100 && ListModeOf(c).Known?;
    assert s == {0, 1, 2, 3, 4};
  }
}
