/** The shutdown persistence of main.c: every live entry is written out as
    the SET request that would store it again. The file descriptor and the
    clock are left out: the record is a byte sequence and `now` a
    parameter. The loader (load_request_log) is not part of this model. */
module Persistence {
  import opened Bytes
  import opened Wire
  import EntryMap
  import Util
  import Controller
  import Store

  type Entry = EntryMap.Entry

  /** What the callback does with one entry: an expired entry is skipped
      (the callback answers false); otherwise the request, key, tags and
      value are written, and the entry is left with its key and tags
      reversed in place. `Overrun` is where the written loop of
      reverse_bytes would leave the buffer. */
  datatype Record =
    | Expired
    | Overrun
    | Written(bytes: seq<Byte>, entry: Entry)

  /** An entry SET stored: a `u8` key length, at most 255 tags (the loop
      index is a `u8`) and a `u32` value length. */
  predicate Persistable(e: Entry)
  {
    |e.key| < 0x100 && |e.tags| < 0x100 && |e.value| < U32_LIMIT
  }

  /** The ttl the record carries: all ones without an expiry, the time left
      (as a `u32`) otherwise, and nothing for an entry already expired. */
  function PersistTtl(e: Entry, now: int): (t: Option<U32>)
  {
    match e.expires
    case None => Some(Controller.TTL_NONE)
    case Some(x) => if x < now then None else Some((x - now) % U32_LIMIT)
  }

  /** Each tag read back to front. */
  function ReverseAll(tags: seq<Tag>): (r: seq<Tag>)
    ensures |r| == |tags| && forall i :: 0 <= i < |r| ==> r[i] == Reverse(tags[i])
  {
    seq(|tags|, i requires 0 <= i < |tags| => Reverse(tags[i]))
  }

  /** The record with reverse_bytes leaving an empty range alone. */
  function WriteEntryAsSet(e: Entry, now: int): (r: Record)
    requires Persistable(e)
  {
    match PersistTtl(e, now)
    case None => Expired
    case Some(ttl) =>
      var key := Reverse(e.key);
      var tags := ReverseAll(e.tags);
      Written(EncodeRequest(Set(|e.key|, |e.tags|, |e.value|, ttl)) + key + Prefixed(tags) + e.value,
              e.(key := key, tags := tags))
  }

  /** The tags reversed one by one with reverse_bytes as written. */
  function ReverseTagsAsWritten(tags: seq<Tag>): (r: Option<seq<Tag>>)
    decreases |tags|
  {
    if |tags| == 0 then Some([])
    else
      match Util.ReverseBytesAsWritten(tags[0], |tags[0]|)
      case None => None
      case Some(t) =>
        match ReverseTagsAsWritten(tags[1..])
        case None => None
        case Some(ts) => if |t| < 0x100 then Some([t] + ts) else None
  }

  /** write_entry_as_set_request_callback as written. */
  function WriteEntryAsWritten(e: Entry, now: int): (r: Record)
    requires Persistable(e)
  {
    match PersistTtl(e, now)
    case None => Expired
    case Some(ttl) =>
      match (Util.ReverseBytesAsWritten(e.key, |e.key|), ReverseTagsAsWritten(e.tags))
      case (Some(key), Some(tags)) =>
        Written(EncodeRequest(Set(|e.key|, |e.tags|, |e.value|, ttl)) + key + Prefixed(tags) + e.value,
                e.(key := key, tags := tags))
      case _ => Overrun
  }

  /** Where no tag is empty the written loop reverses every tag. */
  lemma {:induction false} ReverseTagsAgrees(tags: seq<Tag>)
    requires forall i :: 0 <= i < |tags| ==> |tags[i]| > 0
    ensures ReverseTagsAsWritten(tags) == Some(ReverseAll(tags))
    decreases |tags|
  {
    if |tags| > 0 {
      var t := tags[0];
      Util.ReverseBytesAgrees(t, |t|);
      assert t[..|t|] == t && t[|t|..] == [];
      assert Util.ReversePrefix(t, |t|) == Reverse(t);
      assert Util.ReverseBytesAsWritten(t, |t|) == Some(Reverse(t));
      ReverseTagsAgrees(tags[1..]);
      assert ReverseTagsAsWritten(tags) == Some([Reverse(t)] + ReverseAll(tags[1..]));
      assert [Reverse(t)] + ReverseAll(tags[1..]) == ReverseAll(tags);
    }
  }

  /** With a non-empty key and no empty tag the callback as written is the
      corrected one. */
  lemma WriteEntryAgrees(e: Entry, now: int)
    requires Persistable(e) && |e.key| > 0
    requires forall i :: 0 <= i < |e.tags| ==> |e.tags[i]| > 0
    ensures WriteEntryAsWritten(e, now) == WriteEntryAsSet(e, now)
  {
    Util.ReverseBytesAgrees(e.key, |e.key|);
    assert e.key[..|e.key|] == e.key && e.key[|e.key|..] == [];
    ReverseTagsAgrees(e.tags);
  }

  /** SET accepts an empty tag, and an entry carrying one that has not
      expired sends reverse_bytes out of bounds when it is persisted. */
  lemma EmptyTagOverruns(e: Entry, now: int, rest: seq<Byte>, room: nat)
    requires Persistable(e) && e.expires.None? && e.tags == [[]]
    ensures Controller.ReadTags(Prefixed(e.tags) + rest, 1, room).tags == e.tags
    ensures WriteEntryAsWritten(e, now) == Overrun
    ensures WriteEntryAsSet(e, now).Written?
  {
    Controller.ReadTagsRoundTrip(e.tags, rest, room);
    assert Controller.TagBytes(e.tags) == 0;
    Util.ReverseEmptyOverruns();
    assert ReverseTagsAsWritten(e.tags).None?;
  }

  /** An expired entry writes nothing; otherwise the record is a SET
      header with the key length, tag count, value length and remaining
      time. */
  lemma WriteEntrySpec(e: Entry, now: int)
    requires Persistable(e)
    ensures WriteEntryAsSet(e, now).Expired? <==> e.expires.Some? && e.expires.value < now
    ensures WriteEntryAsSet(e, now).Written? ==>
              && var b := WriteEntryAsSet(e, now).bytes;
              && |b| >= REQUEST_SIZE
              && b[..4] == Magic + [CMD_BYTE_SET]
              && b[4] == |e.key| && b[5] == |e.tags|
              && FromBE32(b[8..12]) == |e.value|
              && (e.expires.None? ==> FromBE32(b[12..16]) == 0xFFFF_FFFF)
              && (e.expires.Some? ==> FromBE32(b[12..16]) == (e.expires.value - now) % U32_LIMIT)
  {
    if WriteEntryAsSet(e, now).Written? {
      var ttl := PersistTtl(e, now).value;
      var r := Set(|e.key|, |e.tags|, |e.value|, ttl);
      var h := EncodeRequest(r);
      var b := WriteEntryAsSet(e, now).bytes;
      assert b[..16] == h;
      RequestOffsets(r);
      RequestRoundTrip(r);
      assert b[8..12] == h[8..12] && b[12..16] == h[12..16];
    }
  }

  /** After the header the record carries the reversed key, the reversed
      tags length-prefixed, and the value, nothing else; the entry is left
      with its key and tags reversed. */
  lemma WriteEntryBody(e: Entry, now: int)
    requires Persistable(e) && WriteEntryAsSet(e, now).Written?
    ensures var b := WriteEntryAsSet(e, now).bytes;
            && |b| == REQUEST_SIZE + |e.key| + |Prefixed(e.tags)| + |e.value|
            && b[16..16 + |e.key|] == Reverse(e.key)
            && b[16 + |e.key|..|b| - |e.value|] == Prefixed(ReverseAll(e.tags))
            && b[|b| - |e.value|..] == e.value
    ensures var r := WriteEntryAsSet(e, now).entry;
            r.key == Reverse(e.key) && r.tags == ReverseAll(e.tags) && r.value == e.value
  {
    var ttl := PersistTtl(e, now).value;
    var h := EncodeRequest(Set(|e.key|, |e.tags|, |e.value|, ttl));
    var key := Reverse(e.key);
    var tags := Prefixed(ReverseAll(e.tags));
    var b := WriteEntryAsSet(e, now).bytes;
    PrefixedLength(e.tags);
    assert b == h + key + tags + e.value;
    assert b[16..16 + |e.key|] == key;
    assert b[16 + |e.key|..|b| - |e.value|] == tags;
  }

  /** Reversing the tags keeps their packed length. */
  lemma {:induction false} PrefixedLength(tags: seq<Tag>)
    ensures |Prefixed(ReverseAll(tags))| == |Prefixed(tags)|
    ensures Controller.TagBytes(ReverseAll(tags)) == Controller.TagBytes(tags)
    decreases |tags|
  {
    if |tags| > 0 {
      PrefixedLength(tags[1..]);
      assert ReverseAll(tags)[1..] == ReverseAll(tags[1..]);
    }
  }

  /** The reversed key and tags make SET ask for the same size. */
  lemma ReversedRequest(e: Entry)
    ensures Controller.RequestedSize(ReverseAll(e.tags), |Reverse(e.key)|, |e.value|)
         == Controller.RequestedSize(e.tags, |e.key|, |e.value|)
  {
    PrefixedLength(e.tags);
  }

  /** The record is a request handle_request routes to SET, which reads
      exactly the record and stores the reversed key and tags with the
      value, under the ttl written. */
  lemma RecordIsSet(c: Store.Cache, e: Entry, now: int, rest: seq<Byte>, env: Controller.Env)
    requires Store.Valid(c) && Persistable(e)
    requires Controller.TagBytes(e.tags) <= env.cap
    requires Controller.Granted(Controller.RequestedSize(e.tags, |e.key|, |e.value|), env)
    requires WriteEntryAsSet(e, now).Written?
    ensures var b := WriteEntryAsSet(e, now).bytes;
            var ttl := PersistTtl(e, now).value;
            && |b| >= REQUEST_SIZE
            && DecodeRequest(b[..REQUEST_SIZE]) == Parsed(Set(|e.key|, |e.tags|, |e.value|, ttl))
            && var o := Controller.HandleRequest(c, true, true, b[..REQUEST_SIZE], b[REQUEST_SIZE..] + rest, env);
            && o.rest == rest
            && o.payload.None?
            && (o.status, o.cache) == Controller.StoreEntry(c, Reverse(e.key), ReverseAll(e.tags), e.value, ttl, env)
  {
    var ttl := PersistTtl(e, now).value;
    var r := Set(|e.key|, |e.tags|, |e.value|, ttl);
    var key := Reverse(e.key);
    var tags := ReverseAll(e.tags);
    var b := WriteEntryAsSet(e, now).bytes;
    assert b[..REQUEST_SIZE] == EncodeRequest(r);
    assert b[REQUEST_SIZE..] + rest == key + (Prefixed(tags) + (e.value + rest));
    RequestRoundTrip(r);
    Controller.HandleRequestSpec(c, r, EncodeRequest(r), b[REQUEST_SIZE..] + rest, env);
    PrefixedLength(e.tags);
    ReversedRequest(e);
    Controller.HandleSetSpec(c, key, tags, e.value, rest, ttl, env);
  }

  /** SET of the record, at the same moment, gives the entry its expiry
      back: none stays none, and a time within 2^32 - 1 seconds is kept. */
  lemma RecordKeepsExpiry(e: Entry, now: int)
    requires PersistTtl(e, now).Some?
    requires e.expires.Some? ==> e.expires.value - now < Controller.TTL_NONE
    ensures Controller.ExpiryFor(now, PersistTtl(e, now).value) == e.expires
  {
  }
}
