/** One `CacheEntryHashMap` of entry.c: a fixed number of slots, linear
    probing from `hash % N` with wrap-around, and a djb2-xor hash. The slot
    count N is a parameter (the length of the slot sequence). */
module EntryMap {
  import opened Bytes

  /** A `CacheEntry`. `id` stands for the entry's address: two entries are
      the same object exactly when their ids agree. `expires` is None while
      it still holds its initial value. */
  datatype Entry = Entry(
    id: nat,
    key: Key,
    tags: seq<Tag>,
    value: seq<Byte>,
    mtime: int,
    expires: Option<int>)

  /** One slot: `mask[i]` false, or true with `hashes[i]` and `entries[i]`. */
  datatype Slot = Empty | Full(hash: U32, entry: Entry)

  datatype HashMap = HashMap(slots: seq<Slot>, count: nat)

  const HASH_SEED: U32 := 5381

  /** Bitwise xor of two bytes. */
  function ByteXor(a: Byte, b: Byte): Byte
  {
    (a as bv8 ^ b as bv8) as int
  }

  /** One step of get_hash, `((h << 5) + h) ^ b` in 32-bit arithmetic: the
      xor with a byte only changes the low byte of `h * 33 mod 2^32`. */
  function HashStep(h: U32, b: Byte): (r: U32)
  {
    var q := (h * 33) % U32_LIMIT;
    (q / 0x100) * 0x100 + ByteXor(q % 0x100, b)
  }

  /** get_hash over all of `s`, first byte first. */
  function Hash(s: seq<Byte>): U32
  {
    if |s| == 0 then HASH_SEED else HashStep(Hash(s[..|s| - 1]), s[|s| - 1])
  }

  /** get_hash as the loop entry.c runs. */
  method GetHash(s: seq<Byte>) returns (h: U32)
    ensures h == Hash(s)
  {
    h := HASH_SEED;
    var i := 0;
    while i < |s|
      invariant 0 <= i <= |s|
      invariant h == Hash(s[..i])
    {
      assert s[..i + 1][..i] == s[..i];
      h := HashStep(h, s[i]);
      i := i + 1;
    }
    assert s[..i] == s;
  }

  /** The probe position `j` steps after `home`, wrapping at `n`. */
  function Pos(home: nat, j: nat, n: nat): (p: nat)
    requires home < n && j < n
    ensures p < n
  {
    if home + j < n then home + j else home + j - n
  }

  /** The N probe positions visit every slot. */
  lemma PosCovers(home: nat, p: nat, n: nat) returns (j: nat)
    requires home < n && p < n
    ensures j < n && Pos(home, j, n) == p
  {
    j := if home <= p then p - home else p + n - home;
  }

  function Home(key: Key, n: nat): nat
    requires n > 0
  {
    Hash(key) % n
  }

  predicate Matches(s: Slot, key: Key, h: U32)
  {
    s.Full? && s.hash == h && s.entry.key == key
  }

  function CountFull(slots: seq<Slot>): (c: nat)
    ensures c <= |slots|
  {
    if |slots| == 0 then 0 else (if slots[0].Full? then 1 else 0) + CountFull(slots[1..])
  }

  /** The map's invariant: a slot's hash is its entry's key hash, and the
      count is the number of occupied slots. */
  predicate Valid(m: HashMap)
  {
    && |m.slots| > 0
    && (forall p :: 0 <= p < |m.slots| && m.slots[p].Full? ==> m.slots[p].hash == Hash(m.slots[p].entry.key))
    && m.count == CountFull(m.slots)
  }

  function EmptySlots(n: nat): (s: seq<Slot>)
    ensures |s| == n && forall p :: 0 <= p < n ==> s[p] == Empty
  {
    if n == 0 then [] else [Empty] + EmptySlots(n - 1)
  }

  lemma {:induction false} CountEmpty(n: nat)
    ensures CountFull(EmptySlots(n)) == 0
  {
    if n > 0 {
      assert EmptySlots(n)[1..] == EmptySlots(n - 1);
      CountEmpty(n - 1);
    }
  }

  /** init_cache_entry_map: every slot empty and a zero count. */
  function Init(n: nat): (m: HashMap)
    requires n > 0
    ensures Valid(m) && m.count == 0 && |m.slots| == n
    ensures forall p :: 0 <= p < n ==> m.slots[p] == Empty
  {
    CountEmpty(n);
    HashMap(EmptySlots(n), 0)
  }

  /** The first probe step, from step `i` on, whose slot holds `key`. */
  function FindFrom(slots: seq<Slot>, key: Key, h: U32, home: nat, i: nat): (r: Option<nat>)
    requires home < |slots| && i <= |slots|
    ensures r.Some? ==> i <= r.value < |slots| && Matches(slots[Pos(home, r.value, |slots|)], key, h)
    ensures r.Some? ==> forall j :: i <= j < r.value ==> !Matches(slots[Pos(home, j, |slots|)], key, h)
    ensures r.None? ==> forall j :: i <= j < |slots| ==> !Matches(slots[Pos(home, j, |slots|)], key, h)
    decreases |slots| - i
  {
    if i == |slots| then None
    else if Matches(slots[Pos(home, i, |slots|)], key, h) then Some(i)
    else FindFrom(slots, key, h, home, i + 1)
  }

  /** The probe step of the first slot holding `key`, if any. */
  function Find(m: HashMap, key: Key): (r: Option<nat>)
    requires |m.slots| > 0
    ensures r.Some? ==> r.value < |m.slots|
  {
    FindFrom(m.slots, key, Hash(key), Home(key, |m.slots|), 0)
  }

  /** `key` is stored somewhere in the map. */
  predicate Holds(m: HashMap, key: Key)
  {
    exists p :: 0 <= p < |m.slots| && m.slots[p].Full? && m.slots[p].entry.key == key
  }

  /** On a valid map the probe finds a key exactly when it is stored. */
  lemma FindComplete(m: HashMap, key: Key)
    requires Valid(m)
    ensures Find(m, key).Some? <==> Holds(m, key)
  {
    var n := |m.slots|;
    var home := Home(key, n);
    if Find(m, key).None? && Holds(m, key) {
      var p :| 0 <= p < n && m.slots[p].Full? && m.slots[p].entry.key == key;
      var j := PosCovers(home, p, n);
      assert Matches(m.slots[Pos(home, j, n)], key, Hash(key));
    }
  }

  /** lock_and_get_cache_entry: the entry with an equal key met first in probe
      order, if any. The map is not changed. */
  function Get(m: HashMap, key: Key): (r: Option<Entry>)
    requires Valid(m)
    ensures r.Some? ==> r.value.key == key
    ensures r.None? <==> !Holds(m, key)
    ensures r.Some? ==> exists p :: 0 <= p < |m.slots| && m.slots[p] == Full(Hash(key), r.value)
  {
    FindComplete(m, key);
    match Find(m, key)
    case None => None
    case Some(j) =>
      var p := Pos(Home(key, |m.slots|), j, |m.slots|);
      Some(m.slots[p].entry)
  }

  /** The probe from step `i` on sees only the slots that match. */
  lemma {:induction false} FindFromSame(s1: seq<Slot>, s2: seq<Slot>, key: Key, h: U32, home: nat, i: nat)
    requires |s1| == |s2| && home < |s1| && i <= |s1|
    requires forall q :: 0 <= q < |s1| ==> (Matches(s1[q], key, h) <==> Matches(s2[q], key, h))
    ensures FindFrom(s1, key, h, home, i) == FindFrom(s2, key, h, home, i)
    decreases |s1| - i
  {
    if i < |s1| {
      FindFromSame(s1, s2, key, h, home, i + 1);
    }
  }

  /** A lookup depends only on the slots holding the key: two maps that
      agree on those find the same entry. */
  lemma GetSame(m1: HashMap, m2: HashMap, key: Key)
    requires Valid(m1) && Valid(m2) && |m1.slots| == |m2.slots|
    requires forall q :: 0 <= q < |m1.slots| && ((m1.slots[q].Full? && m1.slots[q].entry.key == key)
                                                  || (m2.slots[q].Full? && m2.slots[q].entry.key == key))
                         ==> m1.slots[q] == m2.slots[q]
    ensures Get(m1, key) == Get(m2, key)
  {
    var n := |m1.slots|;
    forall q | 0 <= q < n
      ensures Matches(m1.slots[q], key, Hash(key)) <==> Matches(m2.slots[q], key, Hash(key))
    {
    }
    FindFromSame(m1.slots, m2.slots, key, Hash(key), Home(key, n), 0);
  }

  lemma {:induction false} CountUpdate(slots: seq<Slot>, p: nat, s: Slot)
    requires p < |slots|
    ensures CountFull(slots[p := s]) ==
            CountFull(slots) - (if slots[p].Full? then 1 else 0) + (if s.Full? then 1 else 0)
  {
    if p > 0 {
      assert slots[p := s][1..] == slots[1..][p - 1 := s];
      CountUpdate(slots[1..], p - 1, s);
    }
  }

  datatype Unset = Unset(table: HashMap, removed: Option<Entry>)

  /** lock_and_unset_cache_entry: empty the first slot holding `key` and
      return its entry; a miss changes nothing. */
  function UnsetKey(m: HashMap, key: Key): (u: Unset)
    requires Valid(m)
    ensures Valid(u.table) && |u.table.slots| == |m.slots|
    ensures u.removed == Get(m, key)
    ensures u.removed.None? ==> u.table == m
    ensures u.removed.Some? ==>
              && u.table.count == m.count - 1
              && exists p :: 0 <= p < |m.slots| && m.slots[p] == Full(Hash(key), u.removed.value)
                             && u.table.slots == m.slots[p := Empty]
  {
    match Find(m, key)
    case None => Unset(m, None)
    case Some(j) =>
      var p := Pos(Home(key, |m.slots|), j, |m.slots|);
      CountUpdate(m.slots, p, Empty);
      Unset(HashMap(m.slots[p := Empty], m.count - 1), Some(m.slots[p].entry))
  }

  /** What set_locked_cache_entry reports: success, the replaced entry when
      the caller asked for it, and the map afterwards. */
  datatype SetResult = SetResult(ok: bool, previous: Option<Entry>, table: HashMap)

  function SetFrom(m: HashMap, e: Entry, h: U32, home: nat, i: nat, wantOld: bool): (r: SetResult)
    requires home < |m.slots| && i <= |m.slots|
    decreases |m.slots| - i
  {
    var n := |m.slots|;
    if i == n then SetResult(false, None, m)
    else
      var p := Pos(home, i, n);
      match m.slots[p]
      case Empty => SetResult(true, None, HashMap(m.slots[p := Full(h, e)], m.count + 1))
      case Full(hash, occupant) =>
        if hash != h then SetFrom(m, e, h, home, i + 1, wantOld)
        else if occupant.id == e.id then SetResult(true, None, m)
        else if occupant.key == e.key then
          if wantOld then SetResult(true, Some(occupant), HashMap(m.slots[p := Full(h, e)], m.count))
          else SetResult(false, None, m)
        else SetFrom(m, e, h, home, i + 1, wantOld)
  }

  /** The slots where the insertion probe stops: a free slot, the entry
      itself, or another entry with the same key. */
  predicate Stops(s: Slot, e: Entry, h: U32)
  {
    s.Empty? || (s.hash == h && (s.entry.id == e.id || s.entry.key == e.key))
  }

  /** The first probe step, from step `i` on, where the insertion stops. */
  function LandingFrom(slots: seq<Slot>, e: Entry, h: U32, home: nat, i: nat): (r: Option<nat>)
    requires home < |slots| && i <= |slots|
    ensures r.Some? ==> i <= r.value < |slots| && Stops(slots[Pos(home, r.value, |slots|)], e, h)
    ensures r.Some? ==> forall j :: i <= j < r.value ==> !Stops(slots[Pos(home, j, |slots|)], e, h)
    ensures r.None? ==> forall j :: i <= j < |slots| ==> !Stops(slots[Pos(home, j, |slots|)], e, h)
    decreases |slots| - i
  {
    if i == |slots| then None
    else if Stops(slots[Pos(home, i, |slots|)], e, h) then Some(i)
    else LandingFrom(slots, e, h, home, i + 1)
  }

  /** What the insertion does at the slot where it stops. */
  function SetAt(m: HashMap, e: Entry, h: U32, p: nat, wantOld: bool): SetResult
    requires p < |m.slots|
  {
    match m.slots[p]
    case Empty => SetResult(true, None, HashMap(m.slots[p := Full(h, e)], m.count + 1))
    case Full(_, occupant) =>
      if occupant.id == e.id then SetResult(true, None, m)
      else if wantOld then SetResult(true, Some(occupant), HashMap(m.slots[p := Full(h, e)], m.count))
      else SetResult(false, None, m)
  }

  /** The probe loop acts only where it stops. */
  lemma {:induction false} SetFromLanding(m: HashMap, e: Entry, h: U32, home: nat, i: nat, wantOld: bool)
    requires home < |m.slots| && i <= |m.slots|
    ensures SetFrom(m, e, h, home, i, wantOld) ==
            match LandingFrom(m.slots, e, h, home, i)
            case None => SetResult(false, None, m)
            case Some(j) => SetAt(m, e, h, Pos(home, j, |m.slots|), wantOld)
    decreases |m.slots| - i
  {
    if i < |m.slots| && !Stops(m.slots[Pos(home, i, |m.slots|)], e, h) {
      SetFromLanding(m, e, h, home, i + 1, wantOld);
    }
  }

  /** A probe finds the first slot holding the key. */
  lemma {:induction false} FindFirst(slots: seq<Slot>, key: Key, h: U32, home: nat, i: nat, j: nat)
    requires home < |slots| && i <= j < |slots|
    requires Matches(slots[Pos(home, j, |slots|)], key, h)
    requires forall k :: i <= k < j ==> !Matches(slots[Pos(home, k, |slots|)], key, h)
    ensures FindFrom(slots, key, h, home, i) == Some(j)
    decreases j - i
  {
    if i < j {
      FindFirst(slots, key, h, home, i + 1, j);
    }
  }

  /** True when `r` is a correct outcome of storing `e` in `m`: on success
      the entry is what a lookup of its key finds next; a replaced entry is
      the one a lookup found before; at most one slot changes; a failure
      changes nothing. */
  predicate SetOutcome(m: HashMap, e: Entry, wantOld: bool, r: SetResult)
    requires Valid(m)
  {
    && Valid(r.table) && |r.table.slots| == |m.slots|
    && (!r.ok ==> r.table == m && r.previous.None?)
    && (r.previous.Some? ==> wantOld && r.ok && r.previous == Get(m, e.key) && r.table.count == m.count)
    && (r.ok && r.table != m ==>
          && Get(r.table, e.key) == Some(e)
          && exists p :: 0 <= p < |m.slots| && r.table.slots[p] == Full(Hash(e.key), e)
                         && forall q :: 0 <= q < |m.slots| && q != p ==> r.table.slots[q] == m.slots[q])
    && (r.ok && r.previous.None? && r.table != m ==> r.table.count == m.count + 1)
    && (r.ok && r.table == m ==>
          exists p :: 0 <= p < |m.slots| && m.slots[p].Full? && m.slots[p].entry.id == e.id)
  }

  /** Filling one slot with an entry under its own hash, and counting it
      when the slot was empty, keeps the table valid. */
  lemma PutValid(m: HashMap, p: nat, e: Entry)
    requires Valid(m) && p < |m.slots|
    ensures Valid(HashMap(m.slots[p := Full(Hash(e.key), e)], m.count + (if m.slots[p].Empty? then 1 else 0)))
  {
    CountUpdate(m.slots, p, Full(Hash(e.key), e));
  }

  /** Storing at the slot where the probe stops makes the entry the first
      one a lookup of its key meets. */
  lemma StoreIsFound(m: HashMap, e: Entry, j: nat)
    requires Valid(m) && LandingFrom(m.slots, e, Hash(e.key), Home(e.key, |m.slots|), 0) == Some(j)
    ensures var n := |m.slots|;
            var p := Pos(Home(e.key, n), j, n);
            var t := HashMap(m.slots[p := Full(Hash(e.key), e)], m.count + (if m.slots[p].Empty? then 1 else 0));
            Valid(t) && Get(t, e.key) == Some(e)
  {
    var n := |m.slots|;
    var p := Pos(Home(e.key, n), j, n);
    PutValid(m, p, e);
    assert forall k :: 0 <= k < j ==> !Matches(m.slots[Pos(Home(e.key, n), k, n)], e.key, Hash(e.key));
    FindAfterPut(m.slots, e.key, Hash(e.key), Home(e.key, n), j, Full(Hash(e.key), e));
  }

  /** Writing a matching slot at probe step `j`, past steps that do not
      match, makes `j` the step the probe finds. */
  lemma FindAfterPut(slots: seq<Slot>, key: Key, h: U32, home: nat, j: nat, s: Slot)
    requires home < |slots| && j < |slots| && Matches(s, key, h)
    requires forall k :: 0 <= k < j ==> !Matches(slots[Pos(home, k, |slots|)], key, h)
    ensures FindFrom(slots[Pos(home, j, |slots|) := s], key, h, home, 0) == Some(j)
  {
    var n := |slots|;
    var t := slots[Pos(home, j, n) := s];
    forall k | 0 <= k < j
      ensures !Matches(t[Pos(home, k, n)], key, h)
    {
      assert Pos(home, k, n) != Pos(home, j, n);
    }
    FindFirst(t, key, h, home, 0, j);
  }

  /** The entry a replacement displaces is the one a lookup found. */
  lemma ReplacedIsFound(m: HashMap, e: Entry, j: nat)
    requires Valid(m) && LandingFrom(m.slots, e, Hash(e.key), Home(e.key, |m.slots|), 0) == Some(j)
    requires m.slots[Pos(Home(e.key, |m.slots|), j, |m.slots|)].Full?
    requires m.slots[Pos(Home(e.key, |m.slots|), j, |m.slots|)].entry.id != e.id
    ensures Get(m, e.key) == Some(m.slots[Pos(Home(e.key, |m.slots|), j, |m.slots|)].entry)
  {
    var n := |m.slots|;
    var h := Hash(e.key);
    var home := Home(e.key, n);
    assert forall k :: 0 <= k < j ==> !Matches(m.slots[Pos(home, k, n)], e.key, h);
    FindFirst(m.slots, e.key, h, home, 0, j);
  }

  /** The outcome at the slot where the probe stops is a correct one; a
      failure there means the key is stored and no old entry was wanted. */
  lemma SetAtOutcome(m: HashMap, e: Entry, wantOld: bool, j: nat)
    requires Valid(m) && LandingFrom(m.slots, e, Hash(e.key), Home(e.key, |m.slots|), 0) == Some(j)
    ensures var r := SetAt(m, e, Hash(e.key), Pos(Home(e.key, |m.slots|), j, |m.slots|), wantOld);
            SetOutcome(m, e, wantOld, r) && (!r.ok ==> Holds(m, e.key) && !wantOld)
  {
    var n := |m.slots|;
    var p := Pos(Home(e.key, n), j, n);
    var r := SetAt(m, e, Hash(e.key), p, wantOld);
    match m.slots[p]
    case Empty =>
      StoreIsFound(m, e, j);
      assert r.table.slots[p] != m.slots[p];
    case Full(_, occupant) =>
      if occupant.id != e.id {
        ReplacedIsFound(m, e, j);
        if wantOld {
          StoreIsFound(m, e, j);
        }
      }
  }

  /** set_locked_cache_entry. `wantOld` is whether the caller passed a place
      for the replaced entry (handle_set_request always does). Without it a
      full map refuses at once; otherwise the insertion fails only when the
      key is already stored under another entry and no old entry is wanted,
      or when the probe meets no free slot in a full map. */
  function SetEntry(m: HashMap, e: Entry, wantOld: bool): (r: SetResult)
    requires Valid(m)
    ensures SetOutcome(m, e, wantOld, r)
    ensures m.count >= |m.slots| && !wantOld ==> !r.ok
    ensures !r.ok ==> (Holds(m, e.key) && !wantOld) || m.count >= |m.slots|
    ensures !r.ok && wantOld ==> m.count >= |m.slots| && !Holds(m, e.key)
  {
    var n := |m.slots|;
    var h := Hash(e.key);
    var home := Home(e.key, n);
    if m.count >= n && !wantOld then SetResult(false, None, m)
    else
      SetFromLanding(m, e, h, home, 0, wantOld);
      match LandingFrom(m.slots, e, h, home, 0)
      case None =>
        NoLandingMeansFull(m, e, h, home);
        SetResult(false, None, m)
      case Some(j) =>
        SetAtOutcome(m, e, wantOld, j);
        SetFrom(m, e, h, home, 0, wantOld)
  }

  /** No slot holds the entry itself (by its id). */
  predicate Unseen(m: HashMap, e: Entry)
  {
    forall p :: 0 <= p < |m.slots| && m.slots[p].Full? ==> m.slots[p].entry.id != e.id
  }

  /** With no slot to stop at, every slot is taken, none by the key. */
  lemma NoLandingMeansFull(m: HashMap, e: Entry, h: U32, home: nat)
    requires Valid(m) && home < |m.slots| && h == Hash(e.key)
    requires LandingFrom(m.slots, e, h, home, 0).None?
    ensures m.count >= |m.slots| && !Holds(m, e.key)
  {
    var n := |m.slots|;
    forall p | 0 <= p < n
      ensures m.slots[p].Full? && m.slots[p].entry.key != e.key
    {
      var j := PosCovers(home, p, n);
      assert !Stops(m.slots[Pos(home, j, n)], e, h);
    }
    AllFullCount(m.slots);
  }

  /** Conversely, a full map without the key or the entry has no slot to
      stop at. */
  lemma FullHasNoLanding(m: HashMap, e: Entry, home: nat)
    requires Valid(m) && home < |m.slots|
    ensures m.count >= |m.slots| && !Holds(m, e.key) && Unseen(m, e) ==>
              LandingFrom(m.slots, e, Hash(e.key), home, 0).None?
  {
    var r := LandingFrom(m.slots, e, Hash(e.key), home, 0);
    if m.count >= |m.slots| && !Holds(m, e.key) && Unseen(m, e) && r.Some? {
      FullCountAll(m.slots);
      assert false;
    }
  }

  /** Storing fails exactly when the map is full and holds neither the key
      nor (for a replacing store) the entry itself. */
  lemma SetEntryFails(m: HashMap, e: Entry)
    requires Valid(m) && Unseen(m, e)
    ensures !SetEntry(m, e, true).ok <==> m.count >= |m.slots| && !Holds(m, e.key)
  {
    FullHasNoLanding(m, e, Home(e.key, |m.slots|));
  }

  lemma {:induction false} FullCountAll(slots: seq<Slot>)
    requires CountFull(slots) >= |slots|
    ensures forall p :: 0 <= p < |slots| ==> slots[p].Full?
  {
    if |slots| > 0 {
      FullCountAll(slots[1..]);
      forall p | 0 < p < |slots|
        ensures slots[p].Full?
      {
        assert slots[p] == slots[1..][p - 1];
      }
    }
  }

  lemma {:induction false} AllFullCount(slots: seq<Slot>)
    requires forall p :: 0 <= p < |slots| ==> slots[p].Full?
    ensures CountFull(slots) == |slots|
  {
    if |slots| > 0 {
      AllFullCount(slots[1..]);
    }
  }

  /** Insertion stops at the first free slot, so a key whose copy sits past
      a slot freed by an earlier removal is stored a second time: two slots
      then hold the key, the newer copy is the one a lookup finds, and one
      removal leaves the older copy behind. */
  lemma DuplicateKeys(older: Entry, newer: Entry)
    requires older.key == [] && newer.key == [] && older.id != newer.id
    ensures var m := HashMap([Full(Hash([]), older), Empty], 1);
            var r := SetEntry(m, newer, true);
            && Valid(m) && Get(m, []) == Some(older)
            && r.ok && r.previous.None? && r.table.slots == [Full(Hash([]), older), Full(Hash([]), newer)]
            && Get(r.table, []) == Some(newer)
            && UnsetKey(r.table, []).removed == Some(newer)
            && Get(UnsetKey(r.table, []).table, []) == Some(older)
  {
    var m := HashMap([Full(Hash([]), older), Empty], 1);
    assert Home([], 2) == 1;
    assert CountFull(m.slots) == 1 by {
      assert m.slots[1..][1..] == [];
    }
    assert LandingFrom(m.slots, newer, Hash([]), 1, 0) == Some(0);
    SetFromLanding(m, newer, Hash([]), 1, 0, true);
    var r := SetEntry(m, newer, true);
    assert r.table.slots == [Full(Hash([]), older), Full(Hash([]), newer)];
    var u := UnsetKey(r.table, []);
    assert u.table.slots == [Full(Hash([]), older), Empty];
  }
}
