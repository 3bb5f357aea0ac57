/** The request handlers of controller.c as transitions over the cache
    state. The request body is the byte stream the client sends after the
    header; a read that the stream cannot satisfy reports the connection
    closed. The clock, the byte order, the payload buffer capacity, whether
    the allocator found room for a new entry and the stale contents of the
    payload buffer are parameters. */
module Controller {
  import opened Bytes
  import opened Status
  import opened Wire
  import opened Store
  import EntryMap
  import TagTree

  /** What the handlers take from their surroundings. `reserved` says
      whether the allocator has a bucket to hand out for a request the
      largest partition fits; `stale` is what the first 16 bytes of the
      payload buffer hold from earlier requests. */
  datatype Env = Env(now: int, littleEndian: bool, cap: U32, reserved: bool, stale: Block)

  /** The 16 bytes at the head of the payload buffer. */
  type Block = b: seq<Byte> | |b| == 16 witness Zeros(16)

  /** A handler's status, the payload it hands back (None for NULL), the
      cache afterwards and the unread rest of the stream. */
  datatype Outcome = Outcome(status: StatusCode, payload: Option<seq<Byte>>, cache: Cache, rest: seq<Byte>)

  // ---------------------------------------------------------------------
  // Reading the request body

  datatype Read = Read(status: StatusCode, bytes: seq<Byte>, rest: seq<Byte>)

  /** read_request_payload over the stream: `n` bytes, or CONNECTION_CLOSED
      when the stream ends first. */
  function ReadPayload(input: seq<Byte>, n: nat): (r: Read)
    ensures r.status in {Ok, ConnectionClosed}
    ensures r.status == Ok <==> n <= |input|
    ensures r.status == Ok ==> |r.bytes| == n && input == r.bytes + r.rest
  {
    if n <= |input| then Read(Ok, input[..n], input[n..]) else Read(ConnectionClosed, input, [])
  }

  datatype TagsRead = TagsRead(status: StatusCode, tags: seq<Tag>, rest: seq<Byte>, used: nat)

  /** read_tags_using_payload_buffer: `n` tags, each a length byte and
      that many bytes; a tag longer than the buffer room left is
      OUT_OF_MEMORY. `used` is how much of the buffer the tags fill. */
  function ReadTags(input: seq<Byte>, n: nat, room: nat): (r: TagsRead)
    ensures r.status in {Ok, ConnectionClosed, OutOfMemory}
    ensures r.status == Ok ==> |r.tags| == n && r.used <= room
    decreases n
  {
    if n == 0 then TagsRead(Ok, [], input, 0)
    else
      var l := ReadPayload(input, 1);
      if l.status != Ok then TagsRead(l.status, [], l.rest, 0)
      else
        var len := l.bytes[0];
        if len > room then TagsRead(OutOfMemory, [], l.rest, 0)
        else
          var b := ReadPayload(l.rest, len);
          if b.status != Ok then TagsRead(b.status, [], b.rest, 0)
          else
            var more := ReadTags(b.rest, n - 1, room - len);
            TagsRead(more.status, [b.bytes] + more.tags, more.rest, len + more.used)
  }

  /** The total length of some tags. */
  function TagBytes(tags: seq<Tag>): nat
  {
    if |tags| == 0 then 0 else |tags[0]| + TagBytes(tags[1..])
  }

  /** A client that sends the tags length-prefixed gets them back exactly
      when they fit the buffer, and OUT_OF_MEMORY otherwise. */
  lemma {:induction false} ReadTagsRoundTrip(tags: seq<Tag>, rest: seq<Byte>, room: nat)
    ensures TagBytes(tags) <= room ==> ReadTags(Prefixed(tags) + rest, |tags|, room) == TagsRead(Ok, tags, rest, TagBytes(tags))
    ensures TagBytes(tags) > room ==> ReadTags(Prefixed(tags) + rest, |tags|, room).status == OutOfMemory
  {
    if |tags| > 0 {
      var x := tags[0];
      var input := Prefixed(tags) + rest;
      assert input == [|x| as Byte] + (x + (Prefixed(tags[1..]) + rest));
      assert input[..1] == [|x| as Byte];
      assert input[1..] == x + (Prefixed(tags[1..]) + rest);
      assert (x + (Prefixed(tags[1..]) + rest))[..|x|] == x;
      assert (x + (Prefixed(tags[1..]) + rest))[|x|..] == Prefixed(tags[1..]) + rest;
      if |x| <= room {
        ReadTagsRoundTrip(tags[1..], rest, room - |x|);
        assert [x] + tags[1..] == tags;
      }
    }
  }

  // ---------------------------------------------------------------------
  // The listing serialisation

  datatype Packed = Packed(status: StatusCode, bytes: seq<Byte>, count: nat)

  /** The list callbacks: each item appended as a length byte and its
      bytes; the first item that would pass `cap` sets OUT_OF_MEMORY and
      nothing after it is appended. */
  function Pack(items: seq<seq<Byte>>, cap: nat): (p: Packed)
    ensures p.status in {Ok, OutOfMemory}
    ensures p.count <= |items| && p.bytes == Prefixed(items[..p.count]) && |p.bytes| <= cap
    ensures p.status == Ok <==> p.count == |items|
    ensures p.status == OutOfMemory ==> |Prefixed(items[..p.count + 1])| > cap
    decreases |items|
  {
    if |items| == 0 then Packed(Ok, [], 0)
    else
      var init := items[..|items| - 1];
      var x := items[|items| - 1];
      var p := Pack(init, cap);
      assert init[..p.count] == items[..p.count];
      if p.status != Ok then
        assert init[..p.count + 1] == items[..p.count + 1];
        p
      else
        PrefixedSnoc(init, x);
        assert init + [x] == items && items[..|items|] == items;
        if |p.bytes| + 1 + |x| > cap then Packed(OutOfMemory, p.bytes, p.count)
        else Packed(Ok, p.bytes + [|x| % 0x100] + x, |items|)
  }

  /** A listing that fits reads back, item by item, as the items listed. */
  lemma PackRoundTrip(items: seq<seq<Byte>>, cap: nat)
    requires forall i :: 0 <= i < |items| ==> |items[i]| < 0x100
    ensures Pack(items, cap).status == Ok ==> Unprefix(Pack(items, cap).bytes) == Some(items)
    ensures Unprefix(Pack(items, cap).bytes) == Some(items[..Pack(items, cap).count])
  {
    var p := Pack(items, cap);
    UnprefixRoundTrip(items[..p.count]);
    assert items[..|items|] == items;
  }

  /** A listing of a prefix of the items is no longer than the full one. */
  lemma {:induction false} PrefixedGrows(items: seq<seq<Byte>>, n: nat)
    requires n <= |items|
    ensures |Prefixed(items[..n])| <= |Prefixed(items)|
    decreases |items|
  {
    if n < |items| {
      var init := items[..|items| - 1];
      PrefixedSnoc(init, items[|items| - 1]);
      assert init + [items[|items| - 1]] == items;
      assert init[..n] == items[..n];
      PrefixedGrows(init, n);
    } else {
      assert items[..n] == items;
    }
  }

  /** The listing is complete exactly when all of it fits. */
  lemma PackFits(items: seq<seq<Byte>>, cap: nat)
    ensures Pack(items, cap).status == Ok <==> |Prefixed(items)| <= cap
  {
    var p := Pack(items, cap);
    assert items[..|items|] == items;
    if p.status == OutOfMemory {
      PrefixedGrows(items, p.count + 1);
    }
  }

  // ---------------------------------------------------------------------
  // GET

  /** The expiry rule of GET: unless the request's flag bit 0 asks to
      ignore it, a set expiry strictly before now makes the entry EXPIRED. */
  predicate ExpiredFor(e: Entry, flags: Byte, now: int)
  {
    flags % 2 == 0 && e.expires.Some? && e.expires.value < now
  }

  /** handle_get_request. */
  function HandleGet(c: Cache, input: seq<Byte>, klen: Byte, flags: Byte, env: Env): (o: Outcome)
    requires Store.Valid(c)
  {
    var k := ReadPayload(input, klen);
    if k.status != Ok then Outcome(k.status, None, c, k.rest)
    else
      var i := MapIndex(k.bytes, |c.maps|, env.littleEndian);
      match EntryMap.Get(c.maps[i], k.bytes)
      case None => Outcome(NotFound, None, c, k.rest)
      case Some(e) =>
        if ExpiredFor(e, flags, env.now) then Outcome(Expired, None, c, k.rest)
        else if |e.value| > env.cap then Outcome(Bug, None, c, k.rest)
        else if |e.value| > 0 then Outcome(Ok, Some(e.value), c, k.rest)
        else Outcome(Ok, None, c, k.rest)
  }

  /** GET changes nothing; NOT_FOUND exactly when no entry holds the key;
      EXPIRED exactly when the entry found is expired for the flags; BUG
      exactly when the live value does not fit the payload buffer; OK
      otherwise, whatever the flags, with the value as payload (absent for
      an empty value). */
  lemma HandleGetSpec(c: Cache, key: Key, rest: seq<Byte>, flags: Byte, env: Env)
    requires Store.Valid(c) && |key| < 0x100
    ensures var o := HandleGet(c, key + rest, |key|, flags, env);
            var m := c.maps[MapIndex(key, |c.maps|, env.littleEndian)];
            && o.cache == c && o.rest == rest
            && o.status in {Ok, NotFound, Expired, Bug}
            && (o.status == NotFound <==> !EntryMap.Holds(m, key))
            && (o.status == Expired <==> EntryMap.Holds(m, key) && ExpiredFor(EntryMap.Get(m, key).value, flags, env.now))
            && (EntryMap.Holds(m, key) && !ExpiredFor(EntryMap.Get(m, key).value, flags, env.now) ==>
                  var v := EntryMap.Get(m, key).value.value;
                  && (o.status == Bug <==> |v| > env.cap)
                  && (o.status == Ok <==> |v| <= env.cap)
                  && (|v| <= env.cap ==> o.payload == (if |v| > 0 then Some(v) else None)))
            && (o.status == Ok ==> EntryMap.Holds(m, key))
  {
    assert (key + rest)[..|key|] == key && (key + rest)[|key|..] == rest;
  }

  // ---------------------------------------------------------------------
  // SET

  const TTL_NONE: U32 := 0xFFFF_FFFF

  /** The expiry SET stores: none for ttl 0xFFFFFFFF, else mtime + ttl. */
  function ExpiryFor(mtime: int, ttl: U32): Option<int>
  {
    if ttl == TTL_NONE then None else Some(mtime + ttl)
  }

  /** The tag index after a SET: the replaced entry's associations go first,
      then the new entry's are added. */
  function SetTags(t: Tree, previous: Option<Entry>, e: Entry): Tree
  {
    var cleared := if previous.Some? then Untag(t, previous.value.tags, previous.value.key) else t;
    Retag(cleared, e.tags, e.key)
  }

  /** The entry SET builds: the next id, stamped now. */
  function NewEntry(c: Cache, key: Key, tags: seq<Tag>, value: seq<Byte>, ttl: U32, env: Env): Entry
  {
    EntryMap.Entry(c.nextId, key, tags, value, env.now, ExpiryFor(env.now, ttl))
  }

  /** The store step of handle_set_request once the body is read: the new
      entry replaces an equal key where the probe stops on it; the map being
      full is OUT_OF_MEMORY. */
  function StoreEntry(c: Cache, key: Key, tags: seq<Tag>, value: seq<Byte>, ttl: U32, env: Env): (r: (StatusCode, Cache))
    requires Store.Valid(c)
  {
    var e := NewEntry(c, key, tags, value, ttl, env);
    var i := MapIndex(key, |c.maps|, env.littleEndian);
    var s := EntryMap.SetEntry(c.maps[i], e, true);
    if !s.ok then (OutOfMemory, c)
    else (Ok, Cache(c.maps[i := s.table], SetTags(c.tree, s.previous, e), c.nextId + 1))
  }

  // ---------------------------------------------------------------------
  // Sizing the entry SET reserves

  /** sizeof (CacheTag) and sizeof (CacheEntry) on a 64-bit target: a tag
      is a pointer and a u8 length; an entry holds key, tag array and value
      (each a pointer and a length), two time_t and the lock flag. */
  const TAG_SLOT: nat := 16
  const ENTRY_SIZE: nat := 72

  /** MAX_BUCKET_SIZE: the largest partition, so the largest request
      reserve_memory can serve. */
  const MAX_BUCKET_SIZE: nat := 0x80_0000

  /** The bytes a new entry occupies: its header, a tag slot per tag, then
      the tag, key and value bytes copied behind it. */
  function EntrySize(tags: seq<Tag>, klen: nat, vlen: nat): nat
  {
    ENTRY_SIZE + TAG_SLOT * |tags| + TagBytes(tags) + klen + vlen
  }

  /** The size handle_set_request asks for: the payload sum is taken in u32
      arithmetic, and reserve_memory's u32 parameter truncates once more
      after reserve_and_lock_entry adds the header. It is the entry's size
      exactly when that size is below 2^32. */
  function RequestedSize(tags: seq<Tag>, klen: nat, vlen: nat): (r: U32)
    ensures r == EntrySize(tags, klen, vlen) <==> EntrySize(tags, klen, vlen) < U32_LIMIT
  {
    var payload := (TAG_SLOT * |tags| + TagBytes(tags) + klen + vlen) % U32_LIMIT;
    (ENTRY_SIZE + payload) % U32_LIMIT
  }

  /** How SET sizes its reservation: `Wrapped` as handle_set_request does,
      `Exact` with the entry's true size. */
  datatype Sizing = Wrapped | Exact

  function Requested(sizing: Sizing, tags: seq<Tag>, klen: nat, vlen: nat): nat
  {
    match sizing
    case Wrapped => RequestedSize(tags, klen, vlen)
    case Exact => EntrySize(tags, klen, vlen)
  }

  /** reserve_and_lock_entry hands back an entry for `size` bytes when some
      partition is that large and the allocator has a bucket for it. */
  predicate Granted(size: int, env: Env)
  {
    size <= MAX_BUCKET_SIZE && env.reserved
  }

  /** handle_set_request: read the key, then the rest. */
  function HandleSet(c: Cache, input: seq<Byte>, klen: Byte, ntags: Byte, vlen: U32, ttl: U32, env: Env): (o: Outcome)
    requires Store.Valid(c)
  {
    var k := ReadPayload(input, klen);
    if k.status != Ok then Outcome(k.status, None, c, k.rest)
    else SetTagsRead(Wrapped, c, k.bytes, k.rest, ntags, vlen, ttl, env)
  }

  /** SET as intended: the reservation asks for the entry's true size, so a
      size past what a partition holds is OUT_OF_MEMORY rather than a small
      bucket. */
  function HandleSetChecked(c: Cache, input: seq<Byte>, klen: Byte, ntags: Byte, vlen: U32, ttl: U32, env: Env): (o: Outcome)
    requires Store.Valid(c)
  {
    var k := ReadPayload(input, klen);
    if k.status != Ok then Outcome(k.status, None, c, k.rest)
    else SetTagsRead(Exact, c, k.bytes, k.rest, ntags, vlen, ttl, env)
  }

  /** The tags come next; the entry's memory is reserved once they are in. */
  function SetTagsRead(sizing: Sizing, c: Cache, key: Key, input: seq<Byte>, ntags: Byte, vlen: U32, ttl: U32, env: Env): (o: Outcome)
    requires Store.Valid(c)
  {
    var ts := ReadTags(input, ntags, env.cap);
    if ts.status != Ok then Outcome(ts.status, None, c, ts.rest)
    else if !Granted(Requested(sizing, ts.tags, |key|, vlen), env) then Outcome(OutOfMemory, None, c, ts.rest)
    else SetValueRead(c, key, ts.tags, ts.rest, vlen, ttl, env)
  }

  /** The value is read straight into the reserved entry, then stored. */
  function SetValueRead(c: Cache, key: Key, tags: seq<Tag>, input: seq<Byte>, vlen: U32, ttl: U32, env: Env): (o: Outcome)
    requires Store.Valid(c)
  {
    var v := ReadPayload(input, vlen);
    if v.status != Ok then Outcome(v.status, None, c, v.rest)
    else
      var r := StoreEntry(c, key, tags, v.bytes, ttl, env);
      Outcome(r.0, None, r.1, v.rest)
  }

  /** The state after a successful store is fresh, and a lookup of the key
      finds the new entry first. */
  lemma StoreFresh(c: Cache, e: Entry, i: nat)
    requires Store.Valid(c) && i < |c.maps| && e.id == c.nextId
    requires EntryMap.SetEntry(c.maps[i], e, true).ok
    ensures var r := EntryMap.SetEntry(c.maps[i], e, true);
            && r.table != c.maps[i]
            && EntryMap.Get(r.table, e.key) == Some(e)
            && Fresh(Cache(c.maps[i := r.table], c.tree, c.nextId + 1))
  {
    var m := c.maps[i];
    var r := EntryMap.SetEntry(m, e, true);
    assert r.table != m;
    var p :| 0 <= p < |m.slots| && r.table.slots[p] == EntryMap.Full(EntryMap.Hash(e.key), e)
             && forall q :: 0 <= q < |m.slots| && q != p ==> r.table.slots[q] == m.slots[q];
    var c2 := Cache(c.maps[i := r.table], c.tree, c.nextId + 1);
    forall j, q | 0 <= j < |c2.maps| && 0 <= q < |c2.maps[j].slots| && c2.maps[j].slots[q].Full?
      ensures c2.maps[j].slots[q].entry.id < c2.nextId
    {
      if j == i && q != p {
        assert c2.maps[j].slots[q] == m.slots[q];
      }
    }
  }

  /** Re-tagging keeps the index valid; afterwards the key is listed under
      exactly its new tags, the replaced entry's associations are gone, and
      every other key's associations stand. */
  lemma SetTagsSpec(t: Tree, previous: Option<Entry>, e: Entry)
    requires TagTree.Valid(t) && (previous.Some? ==> previous.value.key == e.key)
    ensures TagTree.Valid(SetTags(t, previous, e))
    ensures forall tag, k :: k in TagTree.KeysByTag(SetTags(t, previous, e), tag)
                             <==> (k in TagTree.KeysByTag(t, tag) && !(previous.Some? && k == e.key && tag in previous.value.tags))
                                  || (k == e.key && tag in e.tags)
  {
    var cleared := if previous.Some? then Untag(t, previous.value.tags, previous.value.key) else t;
    if previous.Some? {
      UntagSpec(t, previous.value.tags, previous.value.key);
    }
    RetagSpec(cleared, e.tags, e.key);
  }

  /** The store step fails only on a full map without the key, with
      nothing changed; otherwise only the key's map changes, a lookup there
      finds the new entry with exactly the value, tags and expiry given, the
      map gains an entry unless an entry was replaced, a replaced entry is
      the one a lookup found before, and the index lists the key under
      exactly the new tags, the replaced entry's other tags dropped. */
  lemma StoreEntrySpec(c: Cache, key: Key, tags: seq<Tag>, value: seq<Byte>, ttl: U32, env: Env, i: nat)
    requires Store.Valid(c) && i == MapIndex(key, |c.maps|, env.littleEndian)
    ensures Store.Valid(StoreEntry(c, key, tags, value, ttl, env).1)
    ensures StoreEntry(c, key, tags, value, ttl, env).0 in {Ok, OutOfMemory}
    ensures StoreEntry(c, key, tags, value, ttl, env).0 == OutOfMemory <==>
              c.maps[i].count >= |c.maps[i].slots| && !EntryMap.Holds(c.maps[i], key)
    ensures StoreEntry(c, key, tags, value, ttl, env).0 == OutOfMemory ==> StoreEntry(c, key, tags, value, ttl, env).1 == c
    ensures var c2 := StoreEntry(c, key, tags, value, ttl, env).1;
            var e := NewEntry(c, key, tags, value, ttl, env);
            var replaced := EntryMap.SetEntry(c.maps[i], e, true).previous;
            StoreEntry(c, key, tags, value, ttl, env).0 == Ok ==>
              && |c2.maps| == |c.maps|
              && (forall j :: 0 <= j < |c.maps| && j != i ==> c2.maps[j] == c.maps[j])
              && EntryMap.Get(c2.maps[i], key) == Some(e)
              && (replaced.Some? ==> replaced == EntryMap.Get(c.maps[i], key) && c2.maps[i].count == c.maps[i].count)
              && (replaced.None? ==> c2.maps[i].count == c.maps[i].count + 1)
              && forall tag, k :: k in TagTree.KeysByTag(c2.tree, tag)
                                  <==> (k in TagTree.KeysByTag(c.tree, tag) && !(replaced.Some? && k == key && tag in replaced.value.tags))
                                       || (k == key && tag in tags)
  {
    var e := NewEntry(c, key, tags, value, ttl, env);
    var m := c.maps[i];
    var s := EntryMap.SetEntry(m, e, true);
    assert EntryMap.Unseen(m, e);
    EntryMap.SetEntryFails(m, e);
    if s.ok {
      StoredState(c, e, i);
      var c2 := Cache(c.maps[i := s.table], SetTags(c.tree, s.previous, e), c.nextId + 1);
      assert StoreEntry(c, key, tags, value, ttl, env) == (Ok, c2);
    }
  }

  /** The state after a store that went through: valid, only map `i`
      replaced, and the index re-tagged. */
  lemma StoredState(c: Cache, e: Entry, i: nat)
    requires Store.Valid(c) && i < |c.maps| && e.id == c.nextId
    requires EntryMap.SetEntry(c.maps[i], e, true).ok
    ensures var s := EntryMap.SetEntry(c.maps[i], e, true);
            var c2 := Cache(c.maps[i := s.table], SetTags(c.tree, s.previous, e), c.nextId + 1);
            && Store.Valid(c2)
            && EntryMap.Get(c2.maps[i], e.key) == Some(e)
            && forall tag, k :: k in TagTree.KeysByTag(c2.tree, tag)
                                <==> (k in TagTree.KeysByTag(c.tree, tag) && !(s.previous.Some? && k == e.key && tag in s.previous.value.tags))
                                     || (k == e.key && tag in e.tags)
  {
    var s := EntryMap.SetEntry(c.maps[i], e, true);
    StoreFresh(c, e, i);
    SetTagsSpec(c.tree, s.previous, e);
    var c2 := Cache(c.maps[i := s.table], SetTags(c.tree, s.previous, e), c.nextId + 1);
    assert forall j :: 0 <= j < |c2.maps| ==> EntryMap.Valid(c2.maps[j]);
  }

  /** SET on a body of key, length-prefixed tags and value reads exactly
      that body; it is OUT_OF_MEMORY when the tags do not fit the buffer or
      the size it asks for, wrapped to u32, is not granted, and otherwise
      it is the store step. */
  lemma HandleSetSpec(c: Cache, key: Key, tags: seq<Tag>, value: seq<Byte>, rest: seq<Byte>, ttl: U32, env: Env)
    requires Store.Valid(c) && |key| < 0x100 && |tags| < 0x100 && |value| < U32_LIMIT
    ensures var o := HandleSet(c, key + (Prefixed(tags) + (value + rest)), |key|, |tags|, |value|, ttl, env);
            var granted := Granted(RequestedSize(tags, |key|, |value|), env);
            && o.payload.None?
            && (TagBytes(tags) > env.cap || !granted ==> o.status == OutOfMemory && o.cache == c)
            && (TagBytes(tags) <= env.cap && granted ==>
                  && o.rest == rest
                  && (o.status, o.cache) == StoreEntry(c, key, tags, value, ttl, env))
  {
    var body := Prefixed(tags) + (value + rest);
    assert (key + body)[..|key|] == key && (key + body)[|key|..] == body;
    assert HandleSet(c, key + body, |key|, |tags|, |value|, ttl, env)
        == SetTagsRead(Wrapped, c, key, body, |tags|, |value|, ttl, env);
    SetTagsReadSpec(Wrapped, c, key, tags, value, rest, ttl, env);
  }

  /** The checked SET on the same body: OUT_OF_MEMORY when the tags do not
      fit or the entry's true size is not granted, otherwise the store
      step; so whenever it answers anything but OUT_OF_MEMORY, the entry
      it copies fits the bucket it reserved. */
  lemma HandleSetCheckedSpec(c: Cache, key: Key, tags: seq<Tag>, value: seq<Byte>, rest: seq<Byte>, ttl: U32, env: Env)
    requires Store.Valid(c) && |key| < 0x100 && |tags| < 0x100 && |value| < U32_LIMIT
    ensures var o := HandleSetChecked(c, key + (Prefixed(tags) + (value + rest)), |key|, |tags|, |value|, ttl, env);
            var granted := Granted(EntrySize(tags, |key|, |value|), env);
            && o.payload.None?
            && (TagBytes(tags) > env.cap || !granted ==> o.status == OutOfMemory && o.cache == c)
            && (TagBytes(tags) <= env.cap && granted ==>
                  && o.rest == rest
                  && (o.status, o.cache) == StoreEntry(c, key, tags, value, ttl, env))
            && (o.status != OutOfMemory ==> EntrySize(tags, |key|, |value|) <= MAX_BUCKET_SIZE)
  {
    var body := Prefixed(tags) + (value + rest);
    assert (key + body)[..|key|] == key && (key + body)[|key|..] == body;
    assert HandleSetChecked(c, key + body, |key|, |tags|, |value|, ttl, env)
        == SetTagsRead(Exact, c, key, body, |tags|, |value|, ttl, env);
    SetTagsReadSpec(Exact, c, key, tags, value, rest, ttl, env);
  }

  /** While the entry's size stays below 2^32 the wrapped request is the
      true size, and SET as written answers exactly as the checked SET. */
  lemma SetSizingAgrees(c: Cache, key: Key, tags: seq<Tag>, value: seq<Byte>, rest: seq<Byte>, ttl: U32, env: Env)
    requires Store.Valid(c) && |key| < 0x100 && |tags| < 0x100 && |value| < U32_LIMIT
    requires EntrySize(tags, |key|, |value|) < U32_LIMIT
    ensures HandleSet(c, key + (Prefixed(tags) + (value + rest)), |key|, |tags|, |value|, ttl, env)
         == HandleSetChecked(c, key + (Prefixed(tags) + (value + rest)), |key|, |tags|, |value|, ttl, env)
  {
    var body := Prefixed(tags) + (value + rest);
    assert (key + body)[..|key|] == key && (key + body)[|key|..] == body;
    assert HandleSet(c, key + body, |key|, |tags|, |value|, ttl, env)
        == SetTagsRead(Wrapped, c, key, body, |tags|, |value|, ttl, env);
    assert HandleSetChecked(c, key + body, |key|, |tags|, |value|, ttl, env)
        == SetTagsRead(Exact, c, key, body, |tags|, |value|, ttl, env);
    ReadTagsRoundTrip(tags, value + rest, env.cap);
    assert Requested(Wrapped, tags, |key|, |value|) == Requested(Exact, tags, |key|, |value|);
    SetTagsSame(c, key, body, |tags|, |value|, ttl, env);
  }

  /** The two sizings take the same steps wherever the sizes they ask for
      agree on the tags read. */
  lemma SetTagsSame(c: Cache, key: Key, input: seq<Byte>, ntags: Byte, vlen: U32, ttl: U32, env: Env)
    requires Store.Valid(c)
    requires var ts := ReadTags(input, ntags, env.cap);
             ts.status == Ok ==> Requested(Wrapped, ts.tags, |key|, vlen) == Requested(Exact, ts.tags, |key|, vlen)
    ensures SetTagsRead(Wrapped, c, key, input, ntags, vlen, ttl, env) == SetTagsRead(Exact, c, key, input, ntags, vlen, ttl, env)
  {
  }

  /** A one-byte key, no tags and a value length of 2^32 - 1: the u32 sum
      wraps to 0, so SET as written asks for the 72-byte header alone, is
      granted it, and goes on to read 2^32 - 1 value bytes into it; the
      checked SET refuses the request. */
  lemma SetReservationWraps(c: Cache, key: Key, rest: seq<Byte>, ttl: U32, env: Env)
    requires Store.Valid(c) && |key| == 1 && env.reserved
    ensures RequestedSize([], 1, 0xFFFF_FFFF) == ENTRY_SIZE
    ensures EntrySize([], 1, 0xFFFF_FFFF) == ENTRY_SIZE + U32_LIMIT
    ensures HandleSet(c, key + rest, 1, 0, 0xFFFF_FFFF, ttl, env)
         == SetValueRead(c, key, [], rest, 0xFFFF_FFFF, ttl, env)
    ensures HandleSetChecked(c, key + rest, 1, 0, 0xFFFF_FFFF, ttl, env) == Outcome(OutOfMemory, None, c, rest)
  {
    assert (key + rest)[..1] == key && (key + rest)[1..] == rest;
    assert TagBytes([]) == 0;
  }

  /** The tags step: OUT_OF_MEMORY with nothing changed when the tags do
      not fit or the requested size is not granted, otherwise on to the
      value step. */
  lemma SetTagsReadSpec(sizing: Sizing, c: Cache, key: Key, tags: seq<Tag>, value: seq<Byte>, rest: seq<Byte>, ttl: U32, env: Env)
    requires Store.Valid(c) && |tags| < 0x100 && |value| < U32_LIMIT
    ensures var o := SetTagsRead(sizing, c, key, Prefixed(tags) + (value + rest), |tags|, |value|, ttl, env);
            var granted := Granted(Requested(sizing, tags, |key|, |value|), env);
            && o.payload.None?
            && (TagBytes(tags) > env.cap || !granted ==> o.status == OutOfMemory && o.cache == c)
            && (TagBytes(tags) <= env.cap && granted ==>
                  && o.rest == rest
                  && (o.status, o.cache) == StoreEntry(c, key, tags, value, ttl, env))
  {
    var body := Prefixed(tags) + (value + rest);
    ReadTagsRoundTrip(tags, value + rest, env.cap);
    var ts := ReadTags(body, |tags|, env.cap);
    var o := SetTagsRead(sizing, c, key, body, |tags|, |value|, ttl, env);
    if TagBytes(tags) <= env.cap {
      assert ts == TagsRead(Ok, tags, value + rest, TagBytes(tags));
      if Granted(Requested(sizing, tags, |key|, |value|), env) {
        assert o == SetValueRead(c, key, tags, value + rest, |value|, ttl, env);
        SetValueSpec(c, key, tags, value, rest, ttl, env);
      } else {
        assert o == Outcome(OutOfMemory, None, c, ts.rest);
      }
    } else {
      assert ts.status == OutOfMemory;
      assert o == Outcome(OutOfMemory, None, c, ts.rest);
    }
  }

  /** The value step reads exactly the value and stores it. */
  lemma SetValueSpec(c: Cache, key: Key, tags: seq<Tag>, value: seq<Byte>, rest: seq<Byte>, ttl: U32, env: Env)
    requires Store.Valid(c) && |value| < U32_LIMIT
    ensures var o := SetValueRead(c, key, tags, value + rest, |value|, ttl, env);
            && o.payload.None? && o.rest == rest
            && (o.status, o.cache) == StoreEntry(c, key, tags, value, ttl, env)
  {
    assert (value + rest)[..|value|] == value && (value + rest)[|value|..] == rest;
  }

  /** A GET right after a successful SET of the same key (which is its
      store step, by HandleSetSpec), at the same moment and with any flags,
      answers OK with the value just stored (absent when empty) as long as
      it fits the buffer: an expiry set now is not yet past. */
  lemma SetThenGet(c: Cache, key: Key, tags: seq<Tag>, value: seq<Byte>, ttl: U32, flags: Byte, env: Env, next: seq<Byte>)
    requires Store.Valid(c) && |key| < 0x100 && |value| <= env.cap
    requires StoreEntry(c, key, tags, value, ttl, env).0 == Ok
    ensures var c2 := StoreEntry(c, key, tags, value, ttl, env).1;
            && Store.Valid(c2)
            && HandleGet(c2, key + next, |key|, flags, env)
                 == Outcome(Ok, if |value| > 0 then Some(value) else None, c2, next)
  {
    StoreEntryFinds(c, key, tags, value, ttl, env);
    var c2 := StoreEntry(c, key, tags, value, ttl, env).1;
    var e := NewEntry(c, key, tags, value, ttl, env);
    assert !ExpiredFor(e, flags, env.now);
    GetStored(c2, key, next, e, flags, env);
  }

  /** The part of the store step a later lookup sees. */
  lemma StoreEntryFinds(c: Cache, key: Key, tags: seq<Tag>, value: seq<Byte>, ttl: U32, env: Env)
    requires Store.Valid(c)
    ensures var c2 := StoreEntry(c, key, tags, value, ttl, env).1;
            && Store.Valid(c2) && |c2.maps| == |c.maps|
            && (StoreEntry(c, key, tags, value, ttl, env).0 == Ok ==>
                  EntryMap.Get(c2.maps[MapIndex(key, |c2.maps|, env.littleEndian)], key) == Some(NewEntry(c, key, tags, value, ttl, env)))
  {
    StoreEntrySpec(c, key, tags, value, ttl, env, MapIndex(key, |c.maps|, env.littleEndian));
  }

  /** GET of a key whose lookup finds an entry that is not expired for the
      flags answers with its value. */
  lemma GetStored(c: Cache, key: Key, next: seq<Byte>, e: Entry, flags: Byte, env: Env)
    requires Store.Valid(c) && |key| < 0x100 && |e.value| <= env.cap
    requires EntryMap.Get(c.maps[MapIndex(key, |c.maps|, env.littleEndian)], key) == Some(e)
    requires !ExpiredFor(e, flags, env.now)
    ensures HandleGet(c, key + next, |key|, flags, env)
              == Outcome(Ok, if |e.value| > 0 then Some(e.value) else None, c, next)
  {
    assert (key + next)[..|key|] == key && (key + next)[|key|..] == next;
  }

  // ---------------------------------------------------------------------
  // DEL

  /** handle_del_request: read the key, then delete_entry_by_key. */
  function HandleDel(c: Cache, input: seq<Byte>, klen: Byte, env: Env): (o: Outcome)
    requires Store.Valid(c)
  {
    var k := ReadPayload(input, klen);
    if k.status != Ok then Outcome(k.status, None, c, k.rest)
    else
      var d := DeleteByKey(c, k.bytes, env.littleEndian);
      Outcome(d.status, None, d.cache, k.rest)
  }

  /** DEL answers NOT_FOUND exactly when the key's map does not hold the
      key, changing nothing; otherwise no copy is left in the key's map and
      the other maps are untouched. */
  lemma HandleDelSpec(c: Cache, key: Key, rest: seq<Byte>, env: Env)
    requires Store.Valid(c) && |key| < 0x100
    ensures var o := HandleDel(c, key + rest, |key|, env);
            var i := MapIndex(key, |c.maps|, env.littleEndian);
            && Store.Valid(o.cache) && o.rest == rest && o.payload.None?
            && o.status in {Ok, NotFound}
            && (o.status == NotFound <==> !EntryMap.Holds(c.maps[i], key))
            && (o.status == NotFound ==> o.cache == c)
            && |o.cache.maps| == |c.maps|
            && !EntryMap.Holds(o.cache.maps[i], key)
            && (forall j :: 0 <= j < |c.maps| && j != i ==> o.cache.maps[j] == c.maps[j])
  {
    assert (key + rest)[..|key|] == key && (key + rest)[|key|..] == rest;
    DeleteByKeySpec(c, key, env.littleEndian);
    DeleteByKeyMaps(c, key, env.littleEndian);
  }

  /** A GET right after a DEL of the same key answers NOT_FOUND. */
  lemma DelThenGet(c: Cache, key: Key, rest: seq<Byte>, flags: Byte, env: Env, next: seq<Byte>)
    requires Store.Valid(c) && |key| < 0x100
    ensures var d := HandleDel(c, key + rest, |key|, env);
            Store.Valid(d.cache) && HandleGet(d.cache, key + next, |key|, flags, env).status == NotFound
  {
    HandleDelSpec(c, key, rest, env);
    var d := HandleDel(c, key + rest, |key|, env);
    HandleGetSpec(d.cache, key, next, flags, env);
  }

  // ---------------------------------------------------------------------
  // CLR

  /** What a known clearing mode does to the cache. */
  function Clear(c: Cache, mode: ClearMode, tags: seq<Tag>, env: Env): (r: Cache)
    requires Store.Valid(c)
    ensures Store.Valid(r)
  {
    match mode
    case ClearAll => SweepMapsValid(c, Everything); SweepMaps(c, Everything)
    case ClearOld => SweepMapsValid(c, ExpiredBefore(env.now)); SweepMaps(c, ExpiredBefore(env.now))
    case ClearMatchNone => SweepMapsValid(c, UntaggedBy(tags)); SweepMaps(c, UntaggedBy(tags))
    case ClearMatchAll => DeleteKeys(c, TagTree.MatchAll(c.tree, tags), env.littleEndian)
    case ClearMatchAny => DeleteKeys(c, TagTree.MatchAny(c.tree, tags), env.littleEndian)
  }

  /** handle_clr_request: read the tags, then clear by mode; an unknown
      mode is a PROTOCOL_ERROR after the tags were read. */
  function HandleClr(c: Cache, input: seq<Byte>, modeByte: Byte, ntags: Byte, env: Env): (o: Outcome)
    requires Store.Valid(c)
  {
    var ts := ReadTags(input, ntags, env.cap);
    if ts.status != Ok then Outcome(ts.status, None, c, ts.rest)
    else match ClearModeOf(modeByte)
      case Unknown => Outcome(ProtocolError, None, c, ts.rest)
      case Known(mode) => Outcome(Ok, None, Clear(c, mode, ts.tags, env), ts.rest)
  }

  /** ALL empties every slot; OLD empties exactly the slots whose entry has
      an expiry before now; MATCH_NONE empties exactly the slots whose entry
      carries none of the tags; MATCH_ALL and MATCH_ANY leave no copy of a
      key listed under all, or any, of the tags; the slot counts stay. */
  lemma ClearSpec(c: Cache, mode: ClearMode, tags: seq<Tag>, env: Env)
    requires Store.Valid(c)
    ensures var r := Clear(c, mode, tags, env);
            && |r.maps| == |c.maps|
            && (forall i :: 0 <= i < |c.maps| ==> |r.maps[i].slots| == |c.maps[i].slots|)
            && (mode == ClearAll ==>
                  forall i, p :: 0 <= i < |c.maps| && 0 <= p < |c.maps[i].slots| ==> r.maps[i].slots[p].Empty?)
            && (mode == ClearOld ==>
                  forall i, p :: 0 <= i < |c.maps| && 0 <= p < |c.maps[i].slots| ==>
                    r.maps[i].slots[p] == (if c.maps[i].slots[p].Full? && c.maps[i].slots[p].entry.expires.Some?
                                              && c.maps[i].slots[p].entry.expires.value < env.now
                                           then EntryMap.Empty else c.maps[i].slots[p]))
            && (mode == ClearMatchNone ==>
                  forall i, p :: 0 <= i < |c.maps| && 0 <= p < |c.maps[i].slots| ==>
                    r.maps[i].slots[p] == (if Picked(c.maps[i].slots[p], UntaggedBy(tags)) then EntryMap.Empty else c.maps[i].slots[p]))
            && (mode == ClearMatchAll ==>
                  forall k :: TagTree.InAll(c.tree, tags, k) && |tags| > 0 ==>
                    !EntryMap.Holds(r.maps[MapIndex(k, |c.maps|, env.littleEndian)], k))
            && (mode == ClearMatchAny ==>
                  forall k, t :: 0 <= t < |tags| && k in TagTree.KeysByTag(c.tree, tags[t]) ==>
                    !EntryMap.Holds(r.maps[MapIndex(k, |c.maps|, env.littleEndian)], k))
  {
    match mode
    case ClearMatchAll => TagTree.MatchAllSpec(c.tree, tags);
    case ClearMatchAny => TagTree.MatchAnySpec(c.tree, tags);
    case ClearMatchNone => SweepMapsSlots(c, UntaggedBy(tags));
    case ClearOld => SweepMapsSlots(c, ExpiredBefore(env.now));
    case ClearAll =>
      SweepMapsSlots(c, Everything);
      var r := Clear(c, mode, tags, env);
      forall i, p | 0 <= i < |c.maps| && 0 <= p < |c.maps[i].slots|
        ensures r.maps[i].slots[p].Empty?
      {
        if c.maps[i].slots[p].Full? {
          assert Picked(c.maps[i].slots[p], Everything);
        }
      }
  }

  /** The keys a MATCH_ALL or MATCH_ANY clear deletes: those listed under
      every one of the (at least one) tags, or under any of them. */
  predicate MatchedBy(t: Tree, mode: ClearMode, tags: seq<Tag>, k: Key)
  {
    if mode == ClearMatchAll then |tags| > 0 && TagTree.InAll(t, tags, k) else TagTree.InAny(t, tags, k)
  }

  /** MATCH_ALL and MATCH_ANY delete the matched keys one by one: exactly
      the slots holding a matched key in the map that key is routed to are
      emptied, and exactly the matched keys are taken off the tags of the
      entries their lookups find; every other slot and association stays. */
  lemma ClearByTagsSpec(c: Cache, mode: ClearMode, tags: seq<Tag>, env: Env)
    requires Store.Valid(c) && (mode == ClearMatchAll || mode == ClearMatchAny)
    ensures var r := Clear(c, mode, tags, env);
            var keys := MatchedKeys(c, mode, tags);
            && r == DeleteKeys(c, keys, env.littleEndian)
            && |r.maps| == |c.maps|
            && (forall i :: 0 <= i < |c.maps| ==> |r.maps[i].slots| == |c.maps[i].slots|)
            && SlotsAfter(c, keys, env.littleEndian, r)
            && IndexAfter(c, keys, env.littleEndian, r)
  {
    DeleteKeysEffect(c, MatchedKeys(c, mode, tags), env.littleEndian);
  }

  /** The key list the clear deletes, with its membership stated. */
  function MatchedKeys(c: Cache, mode: ClearMode, tags: seq<Tag>): (keys: seq<Key>)
    requires Store.Valid(c) && (mode == ClearMatchAll || mode == ClearMatchAny)
    ensures keys == if mode == ClearMatchAll then TagTree.MatchAll(c.tree, tags) else TagTree.MatchAny(c.tree, tags)
    ensures forall k :: k in keys <==> MatchedBy(c.tree, mode, tags, k)
  {
    if mode == ClearMatchAll then
      TagTree.MatchAllSpec(c.tree, tags);
      TagTree.MatchAll(c.tree, tags)
    else
      TagTree.MatchAnySpec(c.tree, tags);
      TagTree.MatchAny(c.tree, tags)
  }

  /** ALL, OLD and MATCH_NONE take off the tag index exactly the
      associations of the entries they clear. */
  lemma ClearSweepIndex(c: Cache, mode: ClearMode, tags: seq<Tag>, env: Env)
    requires Store.Valid(c)
    ensures var r := Clear(c, mode, tags, env);
            && (mode == ClearAll ==>
                  forall tag, k :: (k in TagTree.KeysByTag(r.tree, tag)
                    <==> k in TagTree.KeysByTag(c.tree, tag) && !ClearedOff(c, Everything, |c.maps|, tag, k)))
            && (mode == ClearOld ==>
                  forall tag, k :: (k in TagTree.KeysByTag(r.tree, tag)
                    <==> k in TagTree.KeysByTag(c.tree, tag) && !ClearedOff(c, ExpiredBefore(env.now), |c.maps|, tag, k)))
            && (mode == ClearMatchNone ==>
                  forall tag, k :: (k in TagTree.KeysByTag(r.tree, tag)
                    <==> k in TagTree.KeysByTag(c.tree, tag) && !ClearedOff(c, UntaggedBy(tags), |c.maps|, tag, k)))
  {
    match mode
    case ClearAll => SweepMapsTree(c, Everything);
    case ClearOld => SweepMapsTree(c, ExpiredBefore(env.now));
    case ClearMatchNone => SweepMapsTree(c, UntaggedBy(tags));
    case _ =>
  }

  /** CLR with tags that fit the buffer reads exactly them; an unknown mode
      is PROTOCOL_ERROR with nothing changed; a known mode is the clear. */
  lemma HandleClrSpec(c: Cache, modeByte: Byte, tags: seq<Tag>, rest: seq<Byte>, env: Env)
    requires Store.Valid(c) && |tags| < 0x100 && TagBytes(tags) <= env.cap
    ensures var o := HandleClr(c, Prefixed(tags) + rest, modeByte, |tags|, env);
            && o.rest == rest && o.payload.None? && Store.Valid(o.cache)
            && (o.status == ProtocolError <==> modeByte > 4)
            && (o.status == ProtocolError ==> o.cache == c)
            && (modeByte <= 4 ==> o.status == Ok && o.cache == Clear(c, ClearModeOf(modeByte).mode, tags, env))
  {
    var input := Prefixed(tags) + rest;
    ReadTagsRoundTrip(tags, rest, env.cap);
    assert ReadTags(input, |tags|, env.cap) == TagsRead(Ok, tags, rest, TagBytes(tags));
    var o := HandleClr(c, input, modeByte, |tags|, env);
    if modeByte <= 4 {
      assert o == Outcome(Ok, None, Clear(c, ClearModeOf(modeByte).mode, tags, env), rest);
    } else {
      assert o == Outcome(ProtocolError, None, c, rest);
    }
  }

  // ---------------------------------------------------------------------
  // LST

  /** What a known listing mode walks: every key, every tag of the index,
      the keys carrying none of the tags, or the keys listed under all, or
      any, of them. */
  function Listing(c: Cache, mode: ListMode, tags: seq<Tag>): seq<seq<Byte>>
  {
    match mode
    case ListAllKeys => CacheKeys(c.maps, Everything)
    case ListAllTags => InOrder(c.tree)
    case ListMatchNone => CacheKeys(c.maps, UntaggedBy(tags))
    case ListMatchAll => TagTree.MatchAll(c.tree, tags)
    case ListMatchAny => TagTree.MatchAny(c.tree, tags)
  }

  /** The buffer room a listing gets: MATCH_NONE keeps the tags it read at
      the head of the buffer and lists after them. */
  function ListRoom(mode: ListMode, cap: nat, used: nat): nat
  {
    if mode == ListMatchNone && used <= cap then cap - used else if mode == ListMatchNone then 0 else cap
  }

  /** handle_lst_request: read the tags, then serialise the listing into
      the buffer; an unknown mode is a PROTOCOL_ERROR after the tags were
      read. A listing cut short is OUT_OF_MEMORY and still handed back. */
  function HandleLst(c: Cache, input: seq<Byte>, modeByte: Byte, ntags: Byte, env: Env): (o: Outcome)
    requires Store.Valid(c)
  {
    var ts := ReadTags(input, ntags, env.cap);
    if ts.status != Ok then Outcome(ts.status, None, c, ts.rest)
    else match ListModeOf(modeByte)
      case Unknown => Outcome(ProtocolError, None, c, ts.rest)
      case Known(mode) =>
        var p := Pack(Listing(c, mode, ts.tags), ListRoom(mode, env.cap, ts.used));
        Outcome(p.status, Some(p.bytes), c, ts.rest)
  }

  /** The listing of each mode holds exactly what the mode asks for. */
  lemma ListingSpec(c: Cache, mode: ListMode, tags: seq<Tag>)
    requires Store.Valid(c)
    ensures mode == ListAllKeys ==>
              forall k :: k in Listing(c, mode, tags) <==>
                exists i, p :: 0 <= i < |c.maps| && 0 <= p < |c.maps[i].slots| && c.maps[i].slots[p].Full?
                               && c.maps[i].slots[p].entry.key == k
    ensures mode == ListAllTags ==>
              && (forall x :: x in Listing(c, mode, tags) <==> x in TagTree.Tags(c.tree))
              && forall a, b :: 0 <= a < b < |Listing(c, mode, tags)| ==>
                   TagTree.CompareTags(Listing(c, mode, tags)[a], Listing(c, mode, tags)[b]) < 0
    ensures mode == ListMatchNone ==>
              forall k :: k in Listing(c, mode, tags) <==>
                exists i, p :: 0 <= i < |c.maps| && 0 <= p < |c.maps[i].slots| && Picked(c.maps[i].slots[p], UntaggedBy(tags))
                               && c.maps[i].slots[p].entry.key == k
    ensures mode == ListMatchAll ==> forall k :: k in Listing(c, mode, tags) <==> |tags| > 0 && TagTree.InAll(c.tree, tags, k)
    ensures mode == ListMatchAny ==>
              forall k :: k in Listing(c, mode, tags) <==> exists t :: 0 <= t < |tags| && k in TagTree.KeysByTag(c.tree, tags[t])
  {
    match mode
    case ListAllKeys =>
      forall k | k in Listing(c, mode, tags)
        ensures exists i, p :: 0 <= i < |c.maps| && 0 <= p < |c.maps[i].slots| && c.maps[i].slots[p].Full?
                               && c.maps[i].slots[p].entry.key == k
      {
        var i, p :| 0 <= i < |c.maps| && 0 <= p < |c.maps[i].slots| && Picked(c.maps[i].slots[p], Everything)
                    && c.maps[i].slots[p].entry.key == k;
      }
      forall k | exists i, p :: 0 <= i < |c.maps| && 0 <= p < |c.maps[i].slots| && c.maps[i].slots[p].Full?
                               && c.maps[i].slots[p].entry.key == k
        ensures k in Listing(c, mode, tags)
      {
        var i, p :| 0 <= i < |c.maps| && 0 <= p < |c.maps[i].slots| && c.maps[i].slots[p].Full?
                    && c.maps[i].slots[p].entry.key == k;
        assert Picked(c.maps[i].slots[p], Everything);
      }
    case ListAllTags => InOrderSorted(c.tree);
    case ListMatchNone =>
    case ListMatchAll => TagTree.MatchAllSpec(c.tree, tags);
    case ListMatchAny => TagTree.MatchAnySpec(c.tree, tags);
  }

  /** LST with tags that fit the buffer changes nothing; an unknown mode is
      PROTOCOL_ERROR without a payload; otherwise the payload is the
      length-prefixed listing, complete and OK exactly when it fits the room
      the mode gets, else cut before the first item that does not fit and
      OUT_OF_MEMORY. */
  lemma HandleLstSpec(c: Cache, modeByte: Byte, tags: seq<Tag>, rest: seq<Byte>, env: Env)
    requires Store.Valid(c) && |tags| < 0x100 && TagBytes(tags) <= env.cap
    ensures var o := HandleLst(c, Prefixed(tags) + rest, modeByte, |tags|, env);
            && o.rest == rest && o.cache == c
            && (o.status == ProtocolError <==> modeByte > 4)
            && (o.status == ProtocolError ==> o.payload.None?)
            && (modeByte <= 4 ==>
                  var mode := ListModeOf(modeByte).mode;
                  var items := Listing(c, mode, tags);
                  var room := ListRoom(mode, env.cap, TagBytes(tags));
                  && o.payload.Some?
                  && (o.status == Ok <==> |Prefixed(items)| <= room)
                  && (o.status == Ok ==> o.payload.value == Prefixed(items))
                  && (o.status != Ok ==>
                        && o.status == OutOfMemory
                        && exists n :: 0 <= n < |items| && o.payload.value == Prefixed(items[..n])
                                       && |Prefixed(items[..n + 1])| > room))
  {
    ReadTagsRoundTrip(tags, rest, env.cap);
    if modeByte <= 4 {
      var mode := ListModeOf(modeByte).mode;
      var items := Listing(c, mode, tags);
      var room := ListRoom(mode, env.cap, TagBytes(tags));
      PackFits(items, room);
      assert items[..|items|] == items;
    }
  }

  // ---------------------------------------------------------------------
  // NFO

  /** The u64 word NFO sends for an expiry: the unset expiry is the
      zero-initialised field, a set one its two's-complement 64-bit form. */
  function ExpiresWord(expires: Option<int>): (w: int)
    ensures 0 <= w < U64_LIMIT
  {
    if expires.None? then 0 else expires.value % U64_LIMIT
  }

  /** handle_nfo_request: the payload is the buffer from the start, its
      first 16 bytes counted in, so every early return hands back stale
      bytes; a found entry fills in both times and its length-prefixed tags,
      and tags that do not fit are a BUG. An empty key is not implemented
      and is a BUG. */
  function HandleNfo(c: Cache, input: seq<Byte>, klen: Byte, env: Env): (o: Outcome)
    requires Store.Valid(c)
  {
    if klen == 0 then Outcome(Bug, Some(env.stale), c, input)
    else
      var k := ReadPayload(input, klen);
      if k.status != Ok then Outcome(k.status, Some(env.stale), c, k.rest)
      else
        var i := MapIndex(k.bytes, |c.maps|, env.littleEndian);
        match EntryMap.Get(c.maps[i], k.bytes)
        case None => Outcome(NotFound, Some(env.stale), c, k.rest)
        case Some(e) =>
          var p := Pack(e.tags, NfoRoom(env.cap));
          var head := BE64(ExpiresWord(e.expires)) + BE64(e.mtime % U64_LIMIT);
          Outcome(if p.status == Ok then Ok else Bug, Some(head + p.bytes), c, k.rest)
  }

  /** The room for tags behind the 16 header bytes; the per-tag test is
      done on the byte count including the header, in u32. */
  function NfoRoom(cap: U32): nat
  {
    if cap >= 16 then cap - 16 else 0
  }

  datatype EntryInfo = EntryInfo(expires: int, mtime: int, tags: seq<seq<Byte>>)

  /** How a client reads an NFO payload: two big-endian u64 words, then
      length-prefixed tags to the end. */
  function DecodeNfo(b: seq<Byte>): (r: Option<EntryInfo>)
  {
    if |b| < 16 then None
    else match Unprefix(b[16..])
      case None => None
      case Some(tags) => Some(EntryInfo(FromBE64(b[..8]), FromBE64(b[8..16]), tags))
  }

  /** NFO of the empty key is not implemented: BUG, with nothing read or
      changed and the buffer's stale block as the payload. */
  lemma NfoEmptyKey(c: Cache, input: seq<Byte>, env: Env)
    requires Store.Valid(c)
    ensures var o := HandleNfo(c, input, 0, env);
            && o.status == Bug && o.payload == Some(env.stale)
            && o.cache == c && o.rest == input
  {
  }

  /** NFO changes nothing. On a stored key it is OK exactly when the 16
      header bytes and the entry's tags fit the buffer, and then the payload
      reads back as the entry's expiry word, its modification time and its
      tags in order; a missing key is NOT_FOUND with the stale block. */
  lemma HandleNfoSpec(c: Cache, key: Key, rest: seq<Byte>, env: Env)
    requires Store.Valid(c) && 0 < |key| < 0x100
    ensures var o := HandleNfo(c, key + rest, |key|, env);
            var m := c.maps[MapIndex(key, |c.maps|, env.littleEndian)];
            && o.cache == c && o.rest == rest && o.payload.Some?
            && (o.status == NotFound <==> !EntryMap.Holds(m, key))
            && (o.status == NotFound ==> o.payload == Some(env.stale))
            && (EntryMap.Holds(m, key) ==>
                  var e := EntryMap.Get(m, key).value;
                  && (o.status == Ok <==> |Prefixed(e.tags)| <= NfoRoom(env.cap))
                  && (env.cap >= 16 ==> (o.status == Ok <==> 16 + |Prefixed(e.tags)| <= env.cap))
                  && (o.status != Ok ==> o.status == Bug)
                  && (o.status == Ok ==>
                        DecodeNfo(o.payload.value) == Some(EntryInfo(ExpiresWord(e.expires), e.mtime % U64_LIMIT, e.tags))))
  {
    assert (key + rest)[..|key|] == key && (key + rest)[|key|..] == rest;
    var m := c.maps[MapIndex(key, |c.maps|, env.littleEndian)];
    if EntryMap.Holds(m, key) {
      var e := EntryMap.Get(m, key).value;
      var room := NfoRoom(env.cap);
      PackFits(e.tags, room);
      var p := Pack(e.tags, room);
      if p.status == Ok {
        var a := BE64(ExpiresWord(e.expires));
        var b := BE64(e.mtime % U64_LIMIT);
        var payload := a + b + p.bytes;
        assert payload[..8] == a && payload[8..16] == b && payload[16..] == p.bytes;
        BE64RoundTrip(ExpiresWord(e.expires));
        BE64RoundTrip(e.mtime % U64_LIMIT);
        assert e.tags[..|e.tags|] == e.tags;
        UnprefixRoundTrip(e.tags);
      }
    }
  }

  // ---------------------------------------------------------------------
  // handle_request

  /** handle_request: missing arguments or worker are a BUG, a header
      without the magic or with an unknown op byte a PROTOCOL_ERROR;
      otherwise the op byte picks the handler, which reads its body from
      the stream. */
  function HandleRequest(c: Cache, argsPresent: bool, workerPresent: bool, h: seq<Byte>, input: seq<Byte>, env: Env): (o: Outcome)
    requires Store.Valid(c) && |h| == REQUEST_SIZE
  {
    if !argsPresent || !workerPresent then Outcome(Bug, None, c, input)
    else match DecodeRequest(h)
      case Refused(_) => Outcome(ProtocolError, None, c, input)
      case Parsed(r) =>
        match r
        case Get(klen, flags) => HandleGet(c, input, klen, flags, env)
        case Set(klen, ntags, vlen, ttl) => HandleSet(c, input, klen, ntags, vlen, ttl, env)
        case Del(klen) => HandleDel(c, input, klen, env)
        case Clr(mode, ntags) => HandleClr(c, input, mode, ntags, env)
        case Lst(mode, ntags) => HandleLst(c, input, mode, ntags, env)
        case Nfo(klen) => HandleNfo(c, input, klen, env)
  }

  /** Every handler keeps the cache valid. */
  lemma HandlersKeepValid(c: Cache, h: seq<Byte>, input: seq<Byte>, env: Env)
    requires Store.Valid(c) && |h| == REQUEST_SIZE
    ensures Store.Valid(HandleRequest(c, true, true, h, input, env).cache)
  {
    if DecodeRequest(h).Parsed? {
      match DecodeRequest(h).request
      case Set(klen, ntags, vlen, ttl) =>
        var k := ReadPayload(input, klen);
        if k.status == Ok {
          var ts := ReadTags(k.rest, ntags, env.cap);
          if ts.status == Ok && Granted(RequestedSize(ts.tags, |k.bytes|, vlen), env) {
            var v := ReadPayload(ts.rest, vlen);
            if v.status == Ok {
              StoreEntrySpec(c, k.bytes, ts.tags, v.bytes, ttl, env, MapIndex(k.bytes, |c.maps|, env.littleEndian));
            }
          }
        }
      case Del(klen) =>
        var k := ReadPayload(input, klen);
        if k.status == Ok {
          DeleteByKeySpec(c, k.bytes, env.littleEndian);
        }
      case _ =>
    }
  }

  /** A header the client encodes reaches the handler its op names, with
      the fields it carries; a header without the magic is a
      PROTOCOL_ERROR that reads nothing. */
  lemma HandleRequestSpec(c: Cache, r: Request, h: seq<Byte>, input: seq<Byte>, env: Env)
    requires Store.Valid(c) && |h| == REQUEST_SIZE
    ensures !HasMagic(h) ==> HandleRequest(c, true, true, h, input, env) == Outcome(ProtocolError, None, c, input)
    ensures HandleRequest(c, false, true, h, input, env).status == Bug
    ensures HandleRequest(c, true, false, h, input, env).status == Bug
    ensures var o := HandleRequest(c, true, true, EncodeRequest(r), input, env);
            match r
            case Get(klen, flags) => o == HandleGet(c, input, klen, flags, env)
            case Set(klen, ntags, vlen, ttl) => o == HandleSet(c, input, klen, ntags, vlen, ttl, env)
            case Del(klen) => o == HandleDel(c, input, klen, env)
            case Clr(mode, ntags) => o == HandleClr(c, input, mode, ntags, env)
            case Lst(mode, ntags) => o == HandleLst(c, input, mode, ntags, env)
            case Nfo(klen) => o == HandleNfo(c, input, klen, env)
  {
    RequestRoundTrip(r);
  }
}
