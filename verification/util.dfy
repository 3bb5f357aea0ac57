/** util.h and util.c: reversing a byte range in place, and rendering a key
    or tag, back to front, into a per-thread 0x100-byte string buffer. */
module Util {
  import opened Bytes

  // ---------------------------------------------------------------------
  // reverse_bytes

  /** `buf` with its first `n` bytes read back to front. */
  function ReversePrefix(buf: seq<Byte>, n: nat): (r: seq<Byte>)
    requires n <= |buf|
  {
    Reverse(buf[..n]) + buf[n..]
  }

  /** Reversing the same prefix twice restores the buffer. */
  lemma ReversePrefixInvolution(buf: seq<Byte>, n: nat)
    requires n <= |buf|
    ensures ReversePrefix(ReversePrefix(buf, n), n) == buf
  {
    var r := ReversePrefix(buf, n);
    assert r[..n] == Reverse(buf[..n]);
    assert r[n..] == buf[n..];
    ReverseInvolution(buf[..n]);
  }

  /** The pointer loop of reverse_bytes: `i` from the front, `j` from the
      back, the bytes under them exchanged (the three XORs swap two distinct
      bytes) while `i < j`. `None` where `j` leaves the buffer, which the C
      code does not check. */
  function SwapFrom(buf: seq<Byte>, i: nat, j: nat): (r: Option<seq<Byte>>)
    decreases if i < j then j - i else 0
  {
    if i >= j then Some(buf)
    else if j >= |buf| then None
    else SwapFrom(buf[i := buf[j]][j := buf[i]], i + 1, j - 1)
  }

  /** Inside the buffer the loop mirrors the range `[i, j]` and leaves the
      rest alone. */
  lemma {:induction false} SwapFromMirrors(buf: seq<Byte>, i: nat, j: nat)
    requires j < |buf|
    ensures SwapFrom(buf, i, j).Some?
    ensures var r := SwapFrom(buf, i, j).value;
            && |r| == |buf|
            && (forall k :: i <= k <= j ==> r[k] == buf[i + j - k])
            && (forall k :: 0 <= k < |buf| && (k < i || j < k) ==> r[k] == buf[k])
    decreases if i < j then j - i else 0
  {
    if i < j {
      var b := buf[i := buf[j]][j := buf[i]];
      SwapFromMirrors(b, i + 1, j - 1);
    }
  }

  /** reverse_bytes as written: `j` starts at `base + (nmemb - 1)` with
      the subtraction done in 32 bits. */
  function ReverseBytesAsWritten(buf: seq<Byte>, n: U32): (r: Option<seq<Byte>>)
    requires n <= |buf|
  {
    SwapFrom(buf, 0, (n + U32_LIMIT - 1) % U32_LIMIT)
  }

  /** For one byte or more the written loop reverses the first `n` bytes. */
  lemma ReverseBytesAgrees(buf: seq<Byte>, n: U32)
    requires 1 <= n <= |buf|
    ensures ReverseBytesAsWritten(buf, n) == Some(ReversePrefix(buf, n))
  {
    assert (n + U32_LIMIT - 1) % U32_LIMIT == n - 1;
    SwapFromMirrors(buf, 0, n - 1);
    var r := SwapFrom(buf, 0, n - 1).value;
    var want := ReversePrefix(buf, n);
    forall k | 0 <= k < |buf|
      ensures r[k] == want[k]
    {
      if k >= n {
        assert want[k] == buf[n..][k - n];
      } else {
        assert want[k] == Reverse(buf[..n])[k] == buf[n - 1 - k];
      }
    }
    assert r == want;
  }

  /** With `nmemb` 0 the subtraction wraps, `j` lands 2^32 - 1 bytes past
      `base`, and the first exchange already reads outside any buffer
      shorter than that: here, an empty tag. */
  lemma ReverseEmptyOverruns()
    ensures ReverseBytesAsWritten([], 0).None?
    ensures ReverseBytesAsWritten([0x61, 0x62], 0).None?
  {
  }

  /** reverse_bytes with an empty range left alone. */
  method ReverseBytes(buf: seq<Byte>, n: nat) returns (r: seq<Byte>)
    requires n <= |buf|
    ensures r == ReversePrefix(buf, n)
  {
    r := buf;
    if n == 0 {
      assert buf[..0] == [];
      return;
    }
    var i, j := 0, n - 1;
    while i < j
      invariant 0 <= i && i + j == n - 1 && j < n && i <= j + 1
      invariant |r| == |buf|
      invariant forall k :: 0 <= k < i ==> r[k] == buf[n - 1 - k]
      invariant forall k :: j < k < n ==> r[k] == buf[n - 1 - k]
      invariant forall k :: i <= k <= j ==> r[k] == buf[k]
      invariant forall k :: n <= k < |buf| ==> r[k] == buf[k]
      decreases j - i
    {
      r := r[i := r[j]][j := r[i]];
      i, j := i + 1, j - 1;
    }
    var want := ReversePrefix(buf, n);
    forall k | 0 <= k < |buf|
      ensures r[k] == want[k]
    {
      if k >= n {
        assert want[k] == buf[n..][k - n];
      }
    }
  }

  // ---------------------------------------------------------------------
  // key2str and tag2str

  /** The size of the per-thread string buffer. */
  const STR_BUFFER_SIZE: nat := 0x100

  type StrBuffer = b: seq<Byte> | |b| == STR_BUFFER_SIZE witness seq(STR_BUFFER_SIZE, _ => 0)

  /** The thread's buffer: the one a previous call left, or else a fresh
      reservation (`None` when reserve_memory fails). Both functions return
      `None` when there is no buffer. */
  function BufferFor(current: Option<StrBuffer>, reserved: Option<StrBuffer>): Option<StrBuffer>
  {
    if current.Some? then current else reserved
  }

  /** The shared body of key2str and tag2str: the terminator at `nmemb`,
      then the bytes back to front with a `u8` index. The index and the
      terminator keep inside the buffer only for at most 255 bytes. */
  function RenderReversed(buffer: StrBuffer, bytes: seq<Byte>): (r: StrBuffer)
    requires |bytes| < STR_BUFFER_SIZE
    ensures r[..|bytes|] == Reverse(bytes) && r[|bytes|] == 0
    ensures r[|bytes| + 1..] == buffer[|bytes| + 1..]
  {
    Reverse(bytes) + [0] + buffer[|bytes| + 1..]
  }

  function KeyToStr(current: Option<StrBuffer>, reserved: Option<StrBuffer>, key: Key): (r: Option<StrBuffer>)
    requires |key| < STR_BUFFER_SIZE
    ensures r.None? <==> current.None? && reserved.None?
  {
    match BufferFor(current, reserved)
    case None => None
    case Some(b) => Some(RenderReversed(b, key))
  }

  function TagToStr(current: Option<StrBuffer>, reserved: Option<StrBuffer>, tag: Tag): (r: Option<StrBuffer>)
    ensures r.None? <==> current.None? && reserved.None?
  {
    match BufferFor(current, reserved)
    case None => None
    case Some(b) => Some(RenderReversed(b, tag))
  }

  /** The C string a buffer holds: the bytes before the first zero. */
  function CString(b: seq<Byte>): (s: seq<Byte>)
    ensures |s| <= |b| && s == b[..|s|] && forall k :: 0 <= k < |s| ==> s[k] != 0
    ensures |s| < |b| ==> b[|s|] == 0
  {
    if |b| == 0 || b[0] == 0 then [] else [b[0]] + CString(b[1..])
  }

  /** A key without zero bytes comes out as its reverse, and reversing the
      string again gives the key back. */
  lemma KeyToStrSpec(current: Option<StrBuffer>, reserved: Option<StrBuffer>, key: Key)
    requires |key| < STR_BUFFER_SIZE && (current.Some? || reserved.Some?)
    requires forall k :: 0 <= k < |key| ==> key[k] != 0
    ensures CString(KeyToStr(current, reserved, key).value) == Reverse(key)
    ensures Reverse(CString(KeyToStr(current, reserved, key).value)) == key
  {
    RenderedString(BufferFor(current, reserved).value, key);
    ReverseInvolution(key);
  }

  /** The string rendered from bytes without a zero is exactly their
      reverse: the terminator stops it. */
  lemma RenderedString(b: StrBuffer, bytes: seq<Byte>)
    requires |bytes| < STR_BUFFER_SIZE
    requires forall k :: 0 <= k < |bytes| ==> bytes[k] != 0
    ensures CString(RenderReversed(b, bytes)) == Reverse(bytes)
  {
    var r := RenderReversed(b, bytes);
    var n := |bytes|;
    forall k | 0 <= k < n
      ensures r[k] != 0
    {
      assert r[k] == r[..n][k] == bytes[n - 1 - k];
    }
    CStringUpTo(r, n);
  }

  /** The C string ends at the first zero byte. */
  lemma {:induction false} CStringUpTo(b: seq<Byte>, n: nat)
    requires n < |b| && b[n] == 0 && forall k :: 0 <= k < n ==> b[k] != 0
    ensures CString(b) == b[..n]
    decreases n
  {
    if n > 0 {
      CStringUpTo(b[1..], n - 1);
      assert [b[0]] + b[1..][..n - 1] == b[..n];
    }
  }

  /** tag2str renders a tag the same way. */
  lemma TagToStrSpec(current: Option<StrBuffer>, reserved: Option<StrBuffer>, tag: Tag)
    requires current.Some? || reserved.Some?
    requires forall k :: 0 <= k < |tag| ==> tag[k] != 0
    ensures CString(TagToStr(current, reserved, tag).value) == Reverse(tag)
  {
    KeyToStrSpec(current, reserved, tag);
  }

  /** The buffer is reused: after a second call the first result reads as
      the second, whatever the first was. */
  lemma SecondCallOverwrites(b: StrBuffer, first: Key, second: Key)
    requires |first| < STR_BUFFER_SIZE && |second| < STR_BUFFER_SIZE
    requires forall k :: 0 <= k < |second| ==> second[k] != 0
    ensures var after := KeyToStr(Some(b), None, first).value;
            CString(KeyToStr(Some(after), None, second).value) == Reverse(second)
  {
    var after := KeyToStr(Some(b), None, first).value;
    KeyToStrSpec(Some(after), None, second);
  }
}
