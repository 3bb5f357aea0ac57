/** log.c: the single-producer, single-consumer ring of log entries each
    worker fills and the logging thread drains, and the packing of a
    request's key or tags into an entry's fixed data block. The ring is
    modelled sequentially; the atomics only order the two sides. */
module LogQueue {
  import opened Bytes
  import Controller
  import Wire

  // ---------------------------------------------------------------------
  // The ring

  /** `mask` is `|elems| - 1`; `read` is the consumer's slot, `write` the
      producer's. */
  datatype Queue<T> = Queue(elems: seq<T>, read: nat, write: nat)

  predicate PowerOfTwo(n: nat)
  {
    n == 1 || (n > 1 && n % 2 == 0 && PowerOfTwo(n / 2))
  }

  /** The ring's size is a power of two (main.c asserts it at startup), so
      `x & mask` is `x % |elems|`; both cursors are slots. */
  predicate Valid<T>(q: Queue<T>)
  {
    PowerOfTwo(|q.elems|) && q.read < |q.elems| && q.write < |q.elems|
  }

  /** LOG_QUEUE_INIT: both cursors at slot 0. */
  function Init<T>(elems: seq<T>): (q: Queue<T>)
    requires PowerOfTwo(|elems|)
    ensures Valid(q)
  {
    Queue(elems, 0, 0)
  }

  /** `(x + 1) & mask` for a slot `x`: the next slot, wrapping to 0 past
      the last one. */
  function Next<T>(q: Queue<T>, x: nat): (y: nat)
    requires Valid(q) && x < |q.elems|
    ensures y < |q.elems|
  {
    if x + 1 == |q.elems| then 0 else x + 1
  }

  /** How many entries wait between `read` and `write`. */
  function Count<T>(q: Queue<T>): (n: nat)
    requires Valid(q)
    ensures n < |q.elems|
  {
    if q.write >= q.read then q.write - q.read else q.write + |q.elems| - q.read
  }

  /** `(read + i) & mask`: the slot `i` places after `read`. */
  function Slot<T>(q: Queue<T>, i: nat): (s: nat)
    requires Valid(q) && i < |q.elems|
    ensures s < |q.elems|
  {
    if q.read + i < |q.elems| then q.read + i else q.read + i - |q.elems|
  }

  /** The entries waiting, oldest first: what the ring stands for. */
  function Contents<T>(q: Queue<T>): (s: seq<T>)
    requires Valid(q)
    ensures |s| == Count(q)
  {
    seq(Count(q), i requires 0 <= i < Count(q) => q.elems[Slot(q, i)])
  }

  lemma InitEmpty<T>(elems: seq<T>)
    requires PowerOfTwo(|elems|)
    ensures Contents(Init(elems)) == []
  {
  }

  /** enqueue_log_entry: refuse when advancing `write` would meet `read`;
      otherwise store at `write` and advance it. */
  function Enqueue<T>(q: Queue<T>, e: T): (r: (bool, Queue<T>))
    requires Valid(q)
    ensures Valid(r.1) && |r.1.elems| == |q.elems|
  {
    if Next(q, q.write) == q.read then (false, q)
    else (true, Queue(q.elems[q.write := e], q.read, Next(q, q.write)))
  }

  /** dequeue_log_entry: nothing when `read` meets `write`; otherwise the
      entry at `read`, and `read` advances. */
  function Dequeue<T>(q: Queue<T>): (r: (Option<T>, Queue<T>))
    requires Valid(q)
    ensures Valid(r.1)
  {
    if q.read == q.write then (None, q)
    else (Some(q.elems[q.read]), Queue(q.elems, Next(q, q.read), q.write))
  }

  /** The waiting entries occupy other slots than `write`, and the slot
      right after the last one is `write`. */
  lemma SlotOf<T>(q: Queue<T>, i: nat)
    requires Valid(q) && i <= Count(q)
    ensures i < Count(q) ==> Slot(q, i) != q.write
    ensures i == Count(q) ==> Slot(q, i) == q.write
  {
  }

  /** Enqueueing fails exactly when `|elems| - 1` entries wait, and then
      changes nothing; otherwise the entry joins the back. */
  lemma EnqueueSpec<T>(q: Queue<T>, e: T)
    requires Valid(q)
    ensures Valid(Enqueue(q, e).1)
    ensures !Enqueue(q, e).0 <==> Count(q) == |q.elems| - 1
    ensures !Enqueue(q, e).0 ==> Enqueue(q, e).1 == q
    ensures Enqueue(q, e).0 ==> Contents(Enqueue(q, e).1) == Contents(q) + [e]
  {
    var r := Enqueue(q, e);
    if r.0 {
      var q2 := r.1;
      assert Count(q2) == Count(q) + 1;
      forall i | 0 <= i < Count(q2)
        ensures Contents(q2)[i] == (Contents(q) + [e])[i]
      {
        SlotOf(q, i);
        assert Slot(q2, i) == Slot(q, i);
      }
    }
  }

  /** Dequeueing yields nothing exactly when nothing waits, changing
      nothing; otherwise it yields the oldest entry and drops it. */
  lemma DequeueSpec<T>(q: Queue<T>)
    requires Valid(q)
    ensures Valid(Dequeue(q).1)
    ensures Dequeue(q).0.None? <==> Contents(q) == []
    ensures Dequeue(q).0.None? ==> Dequeue(q).1 == q
    ensures Dequeue(q).0.Some? ==>
              && Dequeue(q).0.value == Contents(q)[0]
              && Contents(Dequeue(q).1) == Contents(q)[1..]
  {
    var r := Dequeue(q);
    if r.0.Some? {
      var q2 := r.1;
      assert Count(q2) == Count(q) - 1;
      forall i | 0 <= i < Count(q2)
        ensures Contents(q2)[i] == Contents(q)[i + 1]
      {
        assert Slot(q2, i) == Slot(q, i + 1);
      }
    } else {
      assert Count(q) == 0;
    }
  }

  /** One dequeue from a non-empty ring: the entry taken and what is left
      make up what waited, and fewer entries wait. */
  lemma DequeueStep<T>(q: Queue<T>)
    requires Valid(q) && q.read != q.write
    ensures Dequeue(q).0.Some?
    ensures Contents(q) == [Dequeue(q).0.value] + Contents(Dequeue(q).1)
    ensures Count(Dequeue(q).1) < Count(q)
  {
    DequeueSpec(q);
    assert Contents(q) == [Contents(q)[0]] + Contents(q)[1..];
  }

  /** FIFO: whatever was enqueued into an empty ring comes back out in the
      same order. */
  lemma {:induction false} FifoOrder<T>(q: Queue<T>, xs: seq<T>)
    requires Valid(q) && Count(q) + |xs| < |q.elems|
    ensures Contents(EnqueueAll(q, xs)) == Contents(q) + xs
    ensures Valid(EnqueueAll(q, xs))
    decreases |xs|
  {
    if |xs| > 0 {
      var init := xs[..|xs| - 1];
      var x := xs[|xs| - 1];
      FifoOrder(q, init);
      var p := EnqueueAll(q, init);
      assert EnqueueAll(q, xs) == Enqueue(p, x).1;
      EnqueueSpec(p, x);
      assert Count(p) == |Contents(q) + init|;
      assert Enqueue(p, x).0;
      assert init + [x] == xs;
      assert Contents(q) + init + [x] == Contents(q) + xs;
    }
  }

  /** Enqueue each of `xs` in turn. */
  function EnqueueAll<T>(q: Queue<T>, xs: seq<T>): (r: Queue<T>)
    requires Valid(q)
    ensures Valid(r) && |r.elems| == |q.elems|
    decreases |xs|
  {
    if |xs| == 0 then q
    else
      Enqueue(EnqueueAll(q, xs[..|xs| - 1]), xs[|xs| - 1]).1
  }

  /** The consumer loop: dequeue until the ring is empty. */
  method DequeueAll<T>(q: Queue<T>) returns (out: seq<T>, rest: Queue<T>)
    requires Valid(q)
    ensures Valid(rest) && out == Contents(q) && Contents(rest) == []
  {
    out := [];
    rest := q;
    while true
      invariant Valid(rest)
      invariant out + Contents(rest) == Contents(q)
      decreases Count(rest)
    {
      var (got, next) := Dequeue(rest);
      if got.None? {
        assert Count(rest) == 0;
        assert out + [] == out;
        return;
      }
      DequeueStep(rest);
      out := out + [got.value];
      rest := next;
    }
  }

  // ---------------------------------------------------------------------
  // Log entries

  datatype LogType =
    | GetHit | GetMiss | SetKey | DelKey
    | ClrAll | ClrOld | ClrMatchNone | ClrMatchAll | ClrMatchAny

  /** The data block's size (the bound log_request_with_tags checks). */
  const DATA_SIZE: nat := 0x100

  /** A log entry: its type and its zero-initialised data block; the
      worker id and client address are not modelled. */
  datatype LogEntry = LogEntry(kind: LogType, data: seq<Byte>)

  /** Bytes written over `data` from `at` on. */
  function Splice(data: seq<Byte>, at: nat, bytes: seq<Byte>): (r: seq<Byte>)
    requires at + |bytes| <= |data|
    ensures |r| == |data| && r[at..at + |bytes|] == bytes
    ensures r[..at] == data[..at] && r[at + |bytes|..] == data[at + |bytes|..]
  {
    data[..at] + bytes + data[at + |bytes|..]
  }

  /** log_request_with_key: the key's length in data[0], its bytes after. */
  function KeyRecord(kind: LogType, key: Key): (e: LogEntry)
    requires |key| < DATA_SIZE
  {
    LogEntry(kind, Splice(Wire.Zeros(DATA_SIZE)[0 := |key|], 1, key))
  }

  /** How print_log_entry reads a key record back. */
  function RecordKey(e: LogEntry): Option<Key>
  {
    if |e.data| == 0 || 1 + e.data[0] > |e.data| then None
    else
      var n: int := e.data[0];
      Some(e.data[1..1 + n])
  }

  /** A key record reads back as the key. */
  lemma KeyRecordRoundTrip(kind: LogType, key: Key)
    requires |key| < DATA_SIZE
    ensures |KeyRecord(kind, key).data| == DATA_SIZE
    ensures RecordKey(KeyRecord(kind, key)) == Some(key)
    ensures KeyRecord(kind, key).kind == kind
  {
    var d := KeyRecord(kind, key).data;
    assert d[0] == |key|;
  }

  /** log_request_with_tags as written: the cursor is a u8, so a total of
      exactly 256 bytes wraps it to 0 and a later tag is written over the
      start of the block. */
  function TagsAsWritten(tags: seq<Tag>, t: nat, data: seq<Byte>, cursor: Byte): (r: seq<Byte>)
    requires |data| == DATA_SIZE && t <= |tags|
    ensures |r| == DATA_SIZE
    decreases |tags| - t
  {
    if t == |tags| then data
    else
      var len := |tags[t]|;
      if cursor + 1 + len > DATA_SIZE then data
      else
        var d := Splice(data[cursor := len], cursor + 1, tags[t]);
        TagsAsWritten(tags, t + 1, d, (cursor + 1 + len) % 0x100)
  }

  /** The same loop with a cursor wide enough not to wrap. */
  function TagsFrom(tags: seq<Tag>, t: nat, data: seq<Byte>, cursor: nat): (r: seq<Byte>)
    requires |data| == DATA_SIZE && t <= |tags| && cursor <= DATA_SIZE
    ensures |r| == DATA_SIZE
    decreases |tags| - t
  {
    if t == |tags| then data
    else
      var len := |tags[t]|;
      if cursor + 1 + len > DATA_SIZE then data
      else
        var d := Splice(data[cursor := len], cursor + 1, tags[t]);
        TagsFrom(tags, t + 1, d, cursor + 1 + len)
  }

  /** The tag record: the loop over a zeroed block. */
  function TagsRecord(kind: LogType, tags: seq<Tag>): LogEntry
  {
    LogEntry(kind, TagsFrom(tags, 0, Wire.Zeros(DATA_SIZE), 0))
  }

  /** Where the loop stops: the index of the first tag from `t` on that
      would pass the block, or the end. */
  function Fits(tags: seq<Tag>, t: nat, cursor: nat): (n: nat)
    requires t <= |tags|
    ensures t <= n <= |tags|
    decreases |tags| - t
  {
    if t == |tags| || cursor + 1 + |tags[t]| > DATA_SIZE then t
    else Fits(tags, t + 1, cursor + 1 + |tags[t]|)
  }

  /** Behind the packed first `t` tags, the tags up to the stop fit the
      block and the next one would not. */
  lemma {:induction false} FitsSpec(tags: seq<Tag>, t: nat)
    requires t <= |tags| && |Prefixed(tags[..t])| <= DATA_SIZE
    ensures var n := Fits(tags, t, |Prefixed(tags[..t])|);
            && |Prefixed(tags[..n])| <= DATA_SIZE
            && (n < |tags| ==> |Prefixed(tags[..n + 1])| > DATA_SIZE)
    decreases |tags| - t
  {
    if t < |tags| {
      PrefixedSnoc(tags[..t], tags[t]);
      assert tags[..t] + [tags[t]] == tags[..t + 1];
      if |Prefixed(tags[..t + 1])| <= DATA_SIZE {
        FitsSpec(tags, t + 1);
      }
    }
  }

  /** Writing the next tag behind a packed prefix extends the prefix. */
  lemma PackStep(tags: seq<Tag>, t: nat)
    requires t < |tags| && |Prefixed(tags[..t + 1])| <= DATA_SIZE
    ensures var pre := Prefixed(tags[..t]);
            var next := Prefixed(tags[..t + 1]);
            var x := tags[t];
            && |next| == |pre| + 1 + |x|
            && Splice((pre + Wire.Zeros(DATA_SIZE - |pre|))[|pre| := |x|], |pre| + 1, x)
               == next + Wire.Zeros(DATA_SIZE - |next|)
  {
    var pre := Prefixed(tags[..t]);
    var x := tags[t];
    PrefixedSnoc(tags[..t], x);
    assert tags[..t] + [x] == tags[..t + 1];
    var next := Prefixed(tags[..t + 1]);
    assert next == pre + [|x|] + x;
    var d := Splice((pre + Wire.Zeros(DATA_SIZE - |pre|))[|pre| := |x|], |pre| + 1, x);
    var want := next + Wire.Zeros(DATA_SIZE - |next|);
    forall i | 0 <= i < DATA_SIZE
      ensures d[i] == want[i]
    {
      if i < |pre| {
        assert d[..|pre| + 1][i] == d[i];
      } else if i == |pre| {
        assert d[..|pre| + 1][i] == d[i];
      } else if i < |next| {
        assert d[i] == d[|pre| + 1..|pre| + 1 + |x|][i - |pre| - 1];
      } else {
        assert d[i] == d[|pre| + 1 + |x|..][i - |pre| - 1 - |x|];
      }
    }
  }

  /** The loop from tag `t`, behind the packed first `t` tags, packs the
      tags up to where it stops. */
  lemma {:induction false} TagsFromPacks(tags: seq<Tag>, t: nat)
    requires t <= |tags| && |Prefixed(tags[..t])| <= DATA_SIZE
    ensures var pre := Prefixed(tags[..t]);
            var n := Fits(tags, t, |pre|);
            && |Prefixed(tags[..n])| <= DATA_SIZE
            && TagsFrom(tags, t, pre + Wire.Zeros(DATA_SIZE - |pre|), |pre|)
               == Prefixed(tags[..n]) + Wire.Zeros(DATA_SIZE - |Prefixed(tags[..n])|)
    decreases |tags| - t
  {
    FitsSpec(tags, t);
    if t < |tags| && |Prefixed(tags[..t + 1])| <= DATA_SIZE {
      TagsFromStep(tags, t);
      TagsFromPacks(tags, t + 1);
      var next := Prefixed(tags[..t + 1]);
      var n := Fits(tags, t + 1, |next|);
      assert TagsFrom(tags, t + 1, next + Wire.Zeros(DATA_SIZE - |next|), |next|)
          == Prefixed(tags[..n]) + Wire.Zeros(DATA_SIZE - |Prefixed(tags[..n])|);
    } else {
      TagsFromStop(tags, t);
    }
  }

  /** One more tag fits: the loop writes it and goes on behind it. */
  lemma TagsFromStep(tags: seq<Tag>, t: nat)
    requires t < |tags| && |Prefixed(tags[..t + 1])| <= DATA_SIZE
    ensures var pre := Prefixed(tags[..t]);
            var next := Prefixed(tags[..t + 1]);
            && |pre| < |next|
            && TagsFrom(tags, t, pre + Wire.Zeros(DATA_SIZE - |pre|), |pre|)
               == TagsFrom(tags, t + 1, next + Wire.Zeros(DATA_SIZE - |next|), |next|)
            && Fits(tags, t, |pre|) == Fits(tags, t + 1, |next|)
  {
    PackStep(tags, t);
  }

  /** No tag left, or the next one does not fit: the loop stops there. */
  lemma TagsFromStop(tags: seq<Tag>, t: nat)
    requires t <= |tags| && |Prefixed(tags[..t])| <= DATA_SIZE
    requires t < |tags| ==> |Prefixed(tags[..t + 1])| > DATA_SIZE
    ensures var pre := Prefixed(tags[..t]);
            && Fits(tags, t, |pre|) == t
            && TagsFrom(tags, t, pre + Wire.Zeros(DATA_SIZE - |pre|), |pre|) == pre + Wire.Zeros(DATA_SIZE - |pre|)
  {
    if t < |tags| {
      PrefixedSnoc(tags[..t], tags[t]);
      assert tags[..t] + [tags[t]] == tags[..t + 1];
    }
  }

  /** The record holds the longest prefix of the tags that fits the block,
      length-prefixed, then zeros; the next tag would not have fitted. */
  lemma TagsRecordSpec(kind: LogType, tags: seq<Tag>)
    ensures var n := Fits(tags, 0, 0);
            && |Prefixed(tags[..n])| <= DATA_SIZE
            && TagsRecord(kind, tags).data == Prefixed(tags[..n]) + Wire.Zeros(DATA_SIZE - |Prefixed(tags[..n])|)
            && (n < |tags| ==> |Prefixed(tags[..n + 1])| > DATA_SIZE)
  {
    assert tags[..0] == [];
    assert Prefixed(tags[..0]) == [];
    TagsFromPacks(tags, 0);
    FitsSpec(tags, 0);
    assert [] + Wire.Zeros(DATA_SIZE - 0) == Wire.Zeros(DATA_SIZE);
  }

  /** What print_log_entry's tag loop reads from a block: the tags it
      prints, and whether it read past the block's end (a length byte, or
      tag bytes, beyond the last of the block's bytes). */
  datatype Stream = Stream(tags: seq<seq<Byte>>, overrun: bool)

  /** print_log_entry's tag loop over the rest `s` of the block: a zero
      length ends it; nothing else does, so a block filled to its last byte
      sends it on to read beyond the block. */
  function TagStream(s: seq<Byte>): (r: Stream)
    ensures |s| == 0 ==> r == Stream([], true)
    ensures |s| > 0 && s[0] == 0 ==> r == Stream([], false)
    decreases |s|
  {
    if |s| == 0 then Stream([], true)
    else if s[0] == 0 then Stream([], false)
    else if 1 + s[0] > |s| then Stream([], true)
    else
      var n: int := s[0];
      var rest := TagStream(s[1 + n..]);
      Stream([s[1..1 + n]] + rest.tags, rest.overrun)
  }

  /** Non-empty tags packed over `k` zeros read back as exactly those tags;
      the loop stays inside the block exactly when at least one zero
      follows them. */
  lemma {:induction false} TagStreamRoundTrip(items: seq<seq<Byte>>, k: nat)
    requires forall i :: 0 <= i < |items| ==> 0 < |items[i]| < 0x100
    ensures TagStream(Prefixed(items) + Wire.Zeros(k)) == Stream(items, k == 0)
    decreases |items|
  {
    if |items| > 0 {
      var x := items[0];
      var s := Prefixed(items) + Wire.Zeros(k);
      assert s == [|x|] + x + (Prefixed(items[1..]) + Wire.Zeros(k));
      assert s[1..1 + |x|] == x;
      assert s[1 + |x|..] == Prefixed(items[1..]) + Wire.Zeros(k);
      TagStreamRoundTrip(items[1..], k);
      assert [x] + items[1..] == items;
    } else {
      assert Prefixed(items) + Wire.Zeros(k) == Wire.Zeros(k);
      if k > 0 {
        assert Wire.Zeros(k)[0] == 0;
      }
    }
  }

  /** A record of non-empty tags reads back as the tags that fitted; the
      reading runs past the block exactly when they fill all 256 bytes. */
  lemma TagsRecordRoundTrip(kind: LogType, tags: seq<Tag>)
    requires forall i :: 0 <= i < |tags| ==> |tags[i]| > 0
    ensures var n := Fits(tags, 0, 0);
            TagStream(TagsRecord(kind, tags).data) == Stream(tags[..n], |Prefixed(tags[..n])| == DATA_SIZE)
  {
    TagsRecordSpec(kind, tags);
    var n := Fits(tags, 0, 0);
    TagStreamRoundTrip(tags[..n], DATA_SIZE - |Prefixed(tags[..n])|);
  }

  /** While no prefix of the tags totals exactly 256 bytes the written
      loop is the corrected one. */
  lemma {:induction false} AsWrittenAgreesFrom(tags: seq<Tag>, t: nat, data: seq<Byte>, cursor: Byte)
    requires |data| == DATA_SIZE && t <= |tags| && cursor == |Prefixed(tags[..t])|
    requires forall j :: t <= j <= |tags| ==> |Prefixed(tags[..j])| != 0x100
    ensures TagsAsWritten(tags, t, data, cursor) == TagsFrom(tags, t, data, cursor)
    decreases |tags| - t
  {
    if t < |tags| && cursor + 1 + |tags[t]| <= DATA_SIZE {
      var next: int := cursor + 1 + |tags[t]|;
      PrefixedSnoc(tags[..t], tags[t]);
      assert tags[..t] + [tags[t]] == tags[..t + 1];
      assert next == |Prefixed(tags[..t + 1])| != 0x100;
      var d := Splice(data[cursor := |tags[t]|], cursor + 1, tags[t]);
      AsWrittenStep(tags, t, data, cursor);
      AsWrittenAgreesFrom(tags, t + 1, d, next);
    }
  }

  /** A tag that fits without the cursor reaching 256: both loops write
      it the same way and go on from the same place. */
  lemma AsWrittenStep(tags: seq<Tag>, t: nat, data: seq<Byte>, cursor: Byte)
    requires |data| == DATA_SIZE && t < |tags| && cursor + 1 + |tags[t]| < DATA_SIZE
    ensures var d := Splice(data[cursor := |tags[t]|], cursor + 1, tags[t]);
            var next := cursor + 1 + |tags[t]|;
            && TagsAsWritten(tags, t, data, cursor) == TagsAsWritten(tags, t + 1, d, next)
            && TagsFrom(tags, t, data, cursor) == TagsFrom(tags, t + 1, d, next)
  {
  }

  lemma AsWrittenAgrees(tags: seq<Tag>)
    requires forall j :: 0 <= j <= |tags| ==> |Prefixed(tags[..j])| != 0x100
    ensures TagsAsWritten(tags, 0, Wire.Zeros(DATA_SIZE), 0) == TagsRecord(ClrMatchAny, tags).data
  {
    assert tags[..0] == [];
    AsWrittenAgreesFrom(tags, 0, Wire.Zeros(DATA_SIZE), 0);
  }

  /** A 255-byte tag fills the block exactly; the u8 cursor wraps to 0 and
      the next tag overwrites the first one's length byte, so the block
      reads back as the second tag alone. With a wider cursor the second
      tag does not fit and the block reads back as the first. */
  lemma TagsWrapOverwrites()
    ensures var first: Tag := Wire.Zeros(255);
            var second: Tag := [7, 7, 7];
            var written := TagsAsWritten([first, second], 0, Wire.Zeros(DATA_SIZE), 0);
            && written[0] == 3
            && TagStream(written) == Stream([second], false)
            && TagStream(TagsRecord(ClrMatchAny, [first, second]).data) == Stream([first], true)
  {
    WrapWritten();
    WrapRecord();
  }

  /** The written loop on a 255-byte tag then a 3-byte one. */
  lemma WrapWritten()
    ensures TagsAsWritten([Wire.Zeros(255), [7, 7, 7]], 0, Wire.Zeros(DATA_SIZE), 0)
            == [3, 7, 7, 7] + Wire.Zeros(252)
  {
    var first: Tag := Wire.Zeros(255);
    var second: Tag := [7, 7, 7];
    var tags := [first, second];
    var z := Wire.Zeros(DATA_SIZE);
    var d1 := Splice(z[0 := 255], 1, first);
    assert d1 == [255] + Wire.Zeros(255);
    assert TagsAsWritten(tags, 0, z, 0) == TagsAsWritten(tags, 1, d1, 0);
    var d2 := Splice(d1[0 := 3], 1, second);
    assert d2 == [3, 7, 7, 7] + Wire.Zeros(252) by {
      forall i | 0 <= i < DATA_SIZE
        ensures d2[i] == ([3, 7, 7, 7] + Wire.Zeros(252))[i]
      {
        if 4 <= i {
          assert d2[i] == d2[4..][i - 4];
        } else if 1 <= i {
          assert d2[i] == d2[1..4][i - 1];
        }
      }
    }
    assert TagsAsWritten(tags, 1, d1, 0) == TagsAsWritten(tags, 2, d2, 4);
  }

  /** What the two blocks read back as. */
  lemma WrapRecord()
    ensures TagStream([3, 7, 7, 7] + Wire.Zeros(252)) == Stream([[7, 7, 7]], false)
    ensures TagStream(TagsRecord(ClrMatchAny, [Wire.Zeros(255), [7, 7, 7]]).data) == Stream([Wire.Zeros(255)], true)
  {
    var first: Tag := Wire.Zeros(255);
    var second: Tag := [7, 7, 7];
    var tags := [first, second];
    TagStreamRoundTrip([second], 252);
    assert Prefixed([second]) == [3, 7, 7, 7];
    TagsRecordRoundTrip(ClrMatchAny, tags);
    assert Prefixed(tags[..1]) == [255] + first;
    assert Fits(tags, 1, 256) == 1;
    assert Fits(tags, 0, 0) == 1;
    assert tags[..1] == [first];
  }
}
