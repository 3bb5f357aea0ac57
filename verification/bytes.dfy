/** Byte strings, big-endian integers and the small failure datatype shared by
    every other module of the CiK model. */
module Bytes {

  /** One octet, the C `u8`. */
  type Byte = b: int | 0 <= b < 0x100

  const U32_LIMIT: int := 0x1_0000_0000
  const U64_LIMIT: int := 0x1_0000_0000_0000_0000

  /** The C `u32`. */
  type U32 = x: int | 0 <= x < U32_LIMIT

  datatype Option<+T> = None | Some(value: T)

  /** A `CacheKey`: its length field is 32 bits wide. */
  type Key = seq<Byte>

  /** A `CacheTag`: its length field is a `u8`, so a tag has at most 255
      bytes. */
  type Tag = t: seq<Byte> | |t| < 0x100

  /** `htonl`: a 32-bit value as four bytes, most significant first. */
  function BE32(x: U32): (r: seq<Byte>)
    ensures |r| == 4
  {
    var x1 := x / 0x100;
    var x2 := x1 / 0x100;
    [x2 / 0x100, x2 % 0x100, x1 % 0x100, x % 0x100]
  }

  /** `ntohl`: four bytes, most significant first, as a 32-bit value. */
  function FromBE32(b: seq<Byte>): (x: U32)
    requires |b| == 4
  {
    ((b[0] as int * 0x100 + b[1]) * 0x100 + b[2]) * 0x100 + b[3]
  }

  lemma BE32RoundTrip(x: U32)
    ensures FromBE32(BE32(x)) == x
  {
  }

  lemma FromBE32RoundTrip(b: seq<Byte>)
    requires |b| == 4
    ensures BE32(FromBE32(b)) == b
  {
    var x1: int := (b[0] as int * 0x100 + b[1]) * 0x100 + b[2];
    var x2: int := b[0] as int * 0x100 + b[1];
    ByteSplit(x1, b[3]);
    ByteSplit(x2, b[2]);
    ByteSplit(b[0], b[1]);
    assert b == [b[0], b[1], b[2], b[3]];
  }

  /** Shifting a byte in from the right is undone by `/` and `%`. */
  lemma ByteSplit(q: nat, r: Byte)
    ensures (q * 0x100 + r) / 0x100 == q && (q * 0x100 + r) % 0x100 == r
  {
  }

  /** `htonll` as written in controller.c: the low word's bytes go last. */
  function BE64(x: int): (r: seq<Byte>)
    requires 0 <= x < U64_LIMIT
    ensures |r| == 8
    ensures FromBE32(r[..4]) == x / U32_LIMIT && FromBE32(r[4..]) == x % U32_LIMIT
  {
    BE32RoundTrip(x / U32_LIMIT);
    BE32RoundTrip(x % U32_LIMIT);
    BE32(x / U32_LIMIT) + BE32(x % U32_LIMIT)
  }

  /** `ntohll`: eight bytes, most significant first. */
  function FromBE64(b: seq<Byte>): (x: int)
    requires |b| == 8
    ensures 0 <= x < U64_LIMIT
  {
    FromBE32(b[..4]) * U32_LIMIT + FromBE32(b[4..])
  }

  lemma BE64RoundTrip(x: int)
    requires 0 <= x < U64_LIMIT
    ensures FromBE64(BE64(x)) == x
  {
  }

  /** A sequence read back to front. */
  function Reverse<T>(s: seq<T>): (r: seq<T>)
    ensures |r| == |s|
  {
    seq(|s|, k requires 0 <= k < |s| => s[|s| - 1 - k])
  }

  lemma {:induction false} ReverseInvolution<T>(s: seq<T>)
    ensures Reverse(Reverse(s)) == s
  {
    var r := Reverse(Reverse(s));
    assert |r| == |s|;
    forall k | 0 <= k < |s|
      ensures r[k] == s[k]
    {
      assert r[k] == Reverse(s)[|s| - 1 - k];
    }
  }

  /** All byte strings of a list, one after the other. */
  function Flatten(parts: seq<seq<Byte>>): (r: seq<Byte>)
  {
    if |parts| == 0 then [] else parts[0] + Flatten(parts[1..])
  }

  lemma {:induction false} FlattenAppend(parts: seq<seq<Byte>>, last: seq<Byte>)
    ensures Flatten(parts + [last]) == Flatten(parts) + last
  {
    if |parts| == 0 {
      assert parts + [last] == [last];
    } else {
      assert (parts + [last])[1..] == parts[1..] + [last];
      FlattenAppend(parts[1..], last);
    }
  }

  /** Each string preceded by its length in one byte, the length truncated
      to its low eight bits as a store into a u8 does. */
  function Prefixed(items: seq<seq<Byte>>): (r: seq<Byte>)
  {
    if |items| == 0 then [] else [|items[0]| % 0x100] + items[0] + Prefixed(items[1..])
  }

  lemma {:induction false} PrefixedSnoc(items: seq<seq<Byte>>, x: seq<Byte>)
    ensures Prefixed(items + [x]) == Prefixed(items) + [|x| % 0x100] + x
  {
    if |items| == 0 {
      assert items + [x] == [x];
    } else {
      assert (items + [x])[1..] == items[1..] + [x];
      PrefixedSnoc(items[1..], x);
    }
  }

  /** Reading a stream of length-prefixed strings to its end; None when the
      last one is cut short. */
  function Unprefix(b: seq<Byte>): (r: Option<seq<seq<Byte>>>)
    decreases |b|
  {
    if |b| == 0 then Some([])
    else
      var n: int := b[0];
      if |b| < 1 + n then None
      else match Unprefix(b[1 + n..])
        case None => None
        case Some(rest) => Some([b[1..1 + n]] + rest)
  }

  /** Strings shorter than 256 bytes come back out of their prefixed form. */
  lemma {:induction false} UnprefixRoundTrip(items: seq<seq<Byte>>)
    requires forall i :: 0 <= i < |items| ==> |items[i]| < 0x100
    ensures Unprefix(Prefixed(items)) == Some(items)
  {
    if |items| > 0 {
      var b := Prefixed(items);
      var x := items[0];
      assert b[0] == |x|;
      assert b[1..1 + |x|] == x;
      assert b[1 + |x|..] == Prefixed(items[1..]);
      UnprefixRoundTrip(items[1..]);
      assert [x] + items[1..] == items;
    }
  }
}
