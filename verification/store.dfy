/** The cache state controller.c works on: the array of entry maps, the tag
    index, and the operations its handlers compose out of entry.c and tag.c
    (routing a key to its map, deleting by key, clearing by a predicate,
    collecting keys and tags for a listing). Entries are told apart by an
    id that stands for their address; `nextId` is the next fresh one. */
module Store {
  import opened Bytes
  import opened Status
  import EntryMap
  import TagTree

  type HashMap = EntryMap.HashMap
  type Entry = EntryMap.Entry
  type Tree = TagTree.Tree

  datatype Cache = Cache(maps: seq<HashMap>, tree: Tree, nextId: nat)

  /** Every occupied slot holds an entry older than `nextId`. */
  predicate Fresh(c: Cache)
  {
    forall i, p :: 0 <= i < |c.maps| && 0 <= p < |c.maps[i].slots| && c.maps[i].slots[p].Full?
                   ==> c.maps[i].slots[p].entry.id < c.nextId
  }

  /** The state's invariant: at least one map, every map and the index
      valid, ids fresh. */
  predicate Valid(c: Cache)
  {
    && |c.maps| > 0
    && (forall i :: 0 <= i < |c.maps| ==> EntryMap.Valid(c.maps[i]))
    && TagTree.Valid(c.tree)
    && Fresh(c)
  }

  // ---------------------------------------------------------------------
  // get_map_for_key

  /** An unsigned integer read most significant byte first. */
  function FromBE(s: seq<Byte>): nat
  {
    if |s| == 0 then 0 else FromBE(s[..|s| - 1]) * 0x100 + s[|s| - 1]
  }

  /** An unsigned integer read least significant byte first. */
  function FromLE(s: seq<Byte>): nat
  {
    if |s| == 0 then 0 else s[0] + 0x100 * FromLE(s[1..])
  }

  /** The unaligned native-endian load; the byte order is a parameter. */
  function LoadNative(s: seq<Byte>, littleEndian: bool): nat
  {
    if littleEndian then FromLE(s) else FromBE(s)
  }

  /** How many trailing key bytes get_map_for_key reads: a u64, u32, u16 or
      u8, the widest that fits. */
  function Width(n: nat): (w: nat)
    ensures w <= n
  {
    if n >= 8 then 8 else if n >= 4 then 4 else if n >= 2 then 2 else if n >= 1 then 1 else 0
  }

  /** get_map_for_key: the trailing word of the key modulo the number of
      maps; an empty key selects map 0. */
  function MapIndex(key: Key, maps: nat, littleEndian: bool): (i: nat)
    requires maps > 0
    ensures i < maps
  {
    if |key| == 0 then 0
    else LoadNative(key[|key| - Width(|key|)..], littleEndian) % maps
  }

  /** The map depends on nothing but the trailing word: keys of the same
      width class with the same trailing bytes share a map, a one-byte
      key's map is its byte modulo the map count, and the empty key uses
      map 0. */
  lemma MapIndexSpec(a: Key, b: Key, maps: nat, littleEndian: bool)
    requires maps > 0
    ensures |a| == 0 ==> MapIndex(a, maps, littleEndian) == 0
    ensures |a| == 1 ==> MapIndex(a, maps, littleEndian) == a[0] % maps
    ensures Width(|a|) == Width(|b|) && a[|a| - Width(|a|)..] == b[|b| - Width(|b|)..]
            ==> MapIndex(a, maps, littleEndian) == MapIndex(b, maps, littleEndian)
    ensures MapIndex(a[|a| - Width(|a|)..], maps, littleEndian) == MapIndex(a, maps, littleEndian)
  {
    if |a| == 1 {
      OneByte(a[0]);
      assert a[0..] == [a[0]];
    }
    var s := a[|a| - Width(|a|)..];
    assert |s| == Width(|a|);
    assert Width(|s|) == |s|;
    assert s[|s| - Width(|s|)..] == s;
  }

  lemma OneByte(x: Byte)
    ensures FromLE([x]) == x && FromBE([x]) == x
  {
    assert [x][1..] == [] && [x][..0] == [];
  }

  // ---------------------------------------------------------------------
  // Slot bookkeeping shared by the deleting operations

  /** `r` is `m` with some slots emptied and nothing else changed. */
  predicate Shrinks(m: HashMap, r: HashMap)
  {
    |r.slots| == |m.slots| && forall p :: 0 <= p < |m.slots| ==> r.slots[p] == m.slots[p] || r.slots[p] == EntryMap.Empty
  }

  lemma ShrinksTrans(a: HashMap, b: HashMap, c: HashMap)
    requires Shrinks(a, b) && Shrinks(b, c)
    ensures Shrinks(a, c)
  {
  }

  /** Emptying slots never makes a key present. */
  lemma ShrinksKeepsAbsent(m: HashMap, r: HashMap, key: Key)
    requires Shrinks(m, r) && !EntryMap.Holds(m, key)
    ensures !EntryMap.Holds(r, key)
  {
  }

  /** Emptying slots of one map keeps the state valid. */
  lemma ShrinkOne(c: Cache, i: nat, r: HashMap, t: Tree)
    requires Valid(c) && i < |c.maps| && EntryMap.Valid(r) && Shrinks(c.maps[i], r) && TagTree.Valid(t)
    ensures Valid(c.(maps := c.maps[i := r], tree := t))
  {
    var c2 := c.(maps := c.maps[i := r], tree := t);
    forall j, p | 0 <= j < |c2.maps| && 0 <= p < |c2.maps[j].slots| && c2.maps[j].slots[p].Full?
      ensures c2.maps[j].slots[p].entry.id < c2.nextId
    {
      if j == i {
        assert c.maps[i].slots[p] == r.slots[p];
      }
    }
  }

  // ---------------------------------------------------------------------
  // Tag bookkeeping: remove_key_from_tag / add_key_to_tag over a tag list

  /** remove_key_from_tag for each of `tags` in order. */
  function Untag(t: Tree, tags: seq<Tag>, key: Key): Tree
    decreases |tags|
  {
    if |tags| == 0 then t else TagTree.RemoveKey(Untag(t, tags[..|tags| - 1], key), tags[|tags| - 1], key)
  }

  /** Afterwards the key is missing from exactly the listed tags' lists;
      every other association stands. */
  lemma {:induction false} UntagSpec(t: Tree, tags: seq<Tag>, key: Key)
    requires TagTree.Valid(t)
    ensures TagTree.Valid(Untag(t, tags, key))
    ensures forall tag, k :: k in TagTree.KeysByTag(Untag(t, tags, key), tag)
                             <==> k in TagTree.KeysByTag(t, tag) && !(k == key && tag in tags)
    decreases |tags|
  {
    if |tags| > 0 {
      var init := tags[..|tags| - 1];
      var last := tags[|tags| - 1];
      UntagSpec(t, init, key);
      var u := Untag(t, init, key);
      forall tag
        ensures forall k :: k in TagTree.KeysByTag(TagTree.RemoveKey(u, last, key), tag)
                            <==> k in TagTree.KeysByTag(u, tag) && !(k == key && tag == last)
      {
        TagTree.RemoveKeySpec(u, last, key, tag);
      }
      TagTree.RemoveKeySpec(u, last, key, last);
      assert forall tag :: tag in tags <==> tag in init || tag == last;
    }
  }

  /** add_key_to_tag for each of `tags` in order (the stand-in associates). */
  function Retag(t: Tree, tags: seq<Tag>, key: Key): Tree
    decreases |tags|
  {
    if |tags| == 0 then t else TagTree.Associate(Retag(t, tags[..|tags| - 1], key), tags[|tags| - 1], key)
  }

  /** Afterwards the key is in each listed tag's list and nothing else was
      added or taken away. */
  lemma {:induction false} RetagSpec(t: Tree, tags: seq<Tag>, key: Key)
    requires TagTree.Valid(t)
    ensures TagTree.Valid(Retag(t, tags, key))
    ensures forall tag, k :: k in TagTree.KeysByTag(Retag(t, tags, key), tag)
                             <==> k in TagTree.KeysByTag(t, tag) || (k == key && tag in tags)
    decreases |tags|
  {
    if |tags| > 0 {
      var init := tags[..|tags| - 1];
      var last := tags[|tags| - 1];
      RetagSpec(t, init, key);
      var u := Retag(t, init, key);
      forall tag
        ensures forall k :: k in TagTree.KeysByTag(TagTree.Associate(u, last, key), tag)
                            <==> k in TagTree.KeysByTag(u, tag) || (k == key && tag == last)
      {
        TagTree.AssociateSpec(u, last, key, tag);
      }
      TagTree.AssociateSpec(u, last, key, last);
      assert forall tag :: tag in tags <==> tag in init || tag == last;
    }
  }

  // ---------------------------------------------------------------------
  // delete_entry_by_key

  /** The repeated lock_and_unset_cache_entry of delete_entry_by_key: unset
      until the map reports no entry with the key. */
  function Drain(m: HashMap, key: Key): (r: HashMap)
    requires EntryMap.Valid(m)
    ensures EntryMap.Valid(r) && Shrinks(m, r) && !EntryMap.Holds(r, key)
    ensures forall p :: 0 <= p < |m.slots| && r.slots[p] != m.slots[p]
                        ==> m.slots[p].Full? && m.slots[p].entry.key == key
    decreases m.count
  {
    var u := EntryMap.UnsetKey(m, key);
    if u.removed.None? then m
    else
      var r := Drain(u.table, key);
      assert forall p :: 0 <= p < |m.slots| && u.table.slots[p] != m.slots[p]
                         ==> m.slots[p].Full? && m.slots[p].entry.key == key;
      r
  }

  datatype Deleted = Deleted(status: StatusCode, cache: Cache)

  /** delete_entry_by_key: unset the key in its map; on a miss NOT_FOUND,
      otherwise drop the key from the first entry's tags and unset the
      remaining copies. */
  function DeleteByKey(c: Cache, key: Key, littleEndian: bool): (d: Deleted)
    requires Valid(c)
  {
    var i := MapIndex(key, |c.maps|, littleEndian);
    var u := EntryMap.UnsetKey(c.maps[i], key);
    match u.removed
    case None => Deleted(NotFound, c)
    case Some(e) => Deleted(Ok, c.(maps := c.maps[i := Drain(u.table, key)], tree := Untag(c.tree, e.tags, key)))
  }

  /** NOT_FOUND exactly when the key's map does not hold it, and then
      nothing changes; either way the state stays valid. */
  lemma DeleteByKeySpec(c: Cache, key: Key, littleEndian: bool)
    requires Valid(c)
    ensures var d := DeleteByKey(c, key, littleEndian);
            var i := MapIndex(key, |c.maps|, littleEndian);
            && Valid(d.cache) && |d.cache.maps| == |c.maps| && d.cache.nextId == c.nextId
            && d.status in {Ok, NotFound}
            && (d.status == NotFound <==> !EntryMap.Holds(c.maps[i], key))
            && (d.status == NotFound ==> d.cache == c)
  {
    var i := MapIndex(key, |c.maps|, littleEndian);
    var m := c.maps[i];
    var u := EntryMap.UnsetKey(m, key);
    if u.removed.Some? {
      var e := u.removed.value;
      var r := Drain(u.table, key);
      var t := Untag(c.tree, e.tags, key);
      DrainAfterUnset(m, key);
      UntagSpec(c.tree, e.tags, key);
      ShrinkOne(c, i, r, t);
      assert DeleteByKey(c, key, littleEndian) == Deleted(Ok, c.(maps := c.maps[i := r], tree := t));
    }
  }

  /** After a deletion no copy of the key is left in its map, only slots
      holding the key were emptied, and the other maps are untouched. */
  lemma DeleteByKeyMaps(c: Cache, key: Key, littleEndian: bool)
    requires Valid(c)
    ensures var d := DeleteByKey(c, key, littleEndian);
            var i := MapIndex(key, |c.maps|, littleEndian);
            && |d.cache.maps| == |c.maps|
            && EntryMap.Valid(d.cache.maps[i])
            && !EntryMap.Holds(d.cache.maps[i], key)
            && Shrinks(c.maps[i], d.cache.maps[i])
            && (forall p :: 0 <= p < |c.maps[i].slots| && d.cache.maps[i].slots[p] != c.maps[i].slots[p]
                            ==> c.maps[i].slots[p].Full? && c.maps[i].slots[p].entry.key == key)
            && (forall j :: 0 <= j < |c.maps| && j != i ==> d.cache.maps[j] == c.maps[j])
  {
    var i := MapIndex(key, |c.maps|, littleEndian);
    var m := c.maps[i];
    var u := EntryMap.UnsetKey(m, key);
    if u.removed.Some? {
      DrainAfterUnset(m, key);
      assert DeleteByKey(c, key, littleEndian).cache.maps == c.maps[i := Drain(u.table, key)];
    } else {
      assert DeleteByKey(c, key, littleEndian).cache == c;
    }
  }

  /** A deletion takes the key off exactly the tag lists of the entry a
      lookup finds, and changes no other association. */
  lemma DeleteByKeyIndex(c: Cache, key: Key, littleEndian: bool)
    requires Valid(c)
    ensures var d := DeleteByKey(c, key, littleEndian);
            var i := MapIndex(key, |c.maps|, littleEndian);
            d.status == Ok ==>
              forall tag, k :: k in TagTree.KeysByTag(d.cache.tree, tag)
                               <==> k in TagTree.KeysByTag(c.tree, tag)
                                    && !(k == key && tag in EntryMap.Get(c.maps[i], key).value.tags)
  {
    var i := MapIndex(key, |c.maps|, littleEndian);
    var u := EntryMap.UnsetKey(c.maps[i], key);
    if u.removed.Some? {
      UntagSpec(c.tree, u.removed.value.tags, key);
    }
  }

  /** The first unset and the drain together empty only slots holding the
      key, and leave none holding it. */
  lemma DrainAfterUnset(m: HashMap, key: Key)
    requires EntryMap.Valid(m) && EntryMap.UnsetKey(m, key).removed.Some?
    ensures var r := Drain(EntryMap.UnsetKey(m, key).table, key);
            && EntryMap.Valid(r) && Shrinks(m, r) && !EntryMap.Holds(r, key)
            && forall p :: 0 <= p < |m.slots| && r.slots[p] != m.slots[p]
                           ==> m.slots[p].Full? && m.slots[p].entry.key == key
  {
    var u := EntryMap.UnsetKey(m, key);
    var r := Drain(u.table, key);
    assert u.removed.value.key == key;
    assert Shrinks(m, u.table);
    ShrinksTrans(m, u.table, r);
    forall p | 0 <= p < |m.slots| && r.slots[p] != m.slots[p]
      ensures m.slots[p].Full? && m.slots[p].entry.key == key
    {
      if u.table.slots[p] == m.slots[p] {
        assert r.slots[p] != u.table.slots[p];
      }
    }
  }

  // ---------------------------------------------------------------------
  // The walk callbacks' selection predicates

  /** Which entries a clearing or listing walk picks: all of them, those
      expired before `now` (clear_old_callback), or those carrying none of
      `wanted` (the *_non_matching_callback pair). */
  datatype Selector = Everything | ExpiredBefore(now: int) | UntaggedBy(wanted: seq<Tag>)

  /** The callbacks' tag test: equal lengths and `memcmp` 0. */
  predicate TagEquals(a: Tag, b: Tag)
  {
    |a| == |b| && TagTree.MemCmp(a, b, 0, |b|) == 0
  }

  lemma TagEqualsIff(a: Tag, b: Tag)
    ensures TagEquals(a, b) <==> a == b
  {
    if |a| == |b| {
      TagTree.MemCmpIsLex(a, b, 0);
      TagTree.LexZero(a, b);
      assert a[0..] == a && b[0..] == b;
    }
  }

  /** The inner loop: some tag of `have`, from `j` on, equals `want`. */
  function HasTag(have: seq<Tag>, want: Tag, j: nat): bool
    decreases |have| - j
  {
    j < |have| && (TagEquals(want, have[j]) || HasTag(have, want, j + 1))
  }

  /** The outer loop: some tag of `wanted`, from `i` on, is among `have`. */
  function SharesTag(wanted: seq<Tag>, have: seq<Tag>, i: nat): bool
    decreases |wanted| - i
  {
    i < |wanted| && (HasTag(have, wanted[i], 0) || SharesTag(wanted, have, i + 1))
  }

  lemma {:induction false} HasTagIff(have: seq<Tag>, want: Tag, j: nat)
    ensures HasTag(have, want, j) <==> exists k :: j <= k < |have| && have[k] == want
    decreases |have| - j
  {
    if j < |have| {
      TagEqualsIff(want, have[j]);
      HasTagIff(have, want, j + 1);
    }
  }

  lemma {:induction false} SharesTagIff(wanted: seq<Tag>, have: seq<Tag>, i: nat)
    ensures SharesTag(wanted, have, i) <==> exists a, b :: i <= a < |wanted| && 0 <= b < |have| && wanted[a] == have[b]
    decreases |wanted| - i
  {
    if i < |wanted| {
      HasTagIff(have, wanted[i], 0);
      SharesTagIff(wanted, have, i + 1);
    }
  }

  predicate Selects(sel: Selector, e: Entry)
  {
    match sel
    case Everything => true
    case ExpiredBefore(now) => e.expires.Some? && e.expires.value < now
    case UntaggedBy(wanted) => !SharesTag(wanted, e.tags, 0)
  }

  /** clear_old_callback takes exactly the entries whose expiry is set and
      strictly before now; the non-matching callbacks take exactly the
      entries none of whose tags is byte-equal to a wanted tag. */
  lemma SelectsSpec(sel: Selector, e: Entry)
    ensures sel.ExpiredBefore? ==> (Selects(sel, e) <==> e.expires.Some? && e.expires.value < sel.now)
    ensures sel.UntaggedBy? ==>
              (Selects(sel, e) <==> forall a, b :: 0 <= a < |sel.wanted| && 0 <= b < |e.tags| ==> sel.wanted[a] != e.tags[b])
  {
    if sel.UntaggedBy? {
      SharesTagIff(sel.wanted, e.tags, 0);
    }
  }

  predicate Picked(s: EntryMap.Slot, sel: Selector)
  {
    s.Full? && Selects(sel, s.entry)
  }

  // ---------------------------------------------------------------------
  // Clearing walks (walk_entries with a callback that returns true)

  /** The stand-in for walk_entries (not part of entry.c) with a clearing
      callback, over the first `i` slots in order, as it affects the slots:
      a picked entry's slot is emptied. */
  function SweepTable(m: HashMap, sel: Selector, i: nat): (r: HashMap)
    requires EntryMap.Valid(m) && i <= |m.slots|
    ensures EntryMap.Valid(r) && |r.slots| == |m.slots|
    ensures forall p :: 0 <= p < |m.slots| ==>
              r.slots[p] == (if p < i && Picked(m.slots[p], sel) then EntryMap.Empty else m.slots[p])
    decreases i
  {
    if i == 0 then m
    else
      var r := SweepTable(m, sel, i - 1);
      if Picked(m.slots[i - 1], sel) then
        EntryMap.CountUpdate(r.slots, i - 1, EntryMap.Empty);
        EntryMap.HashMap(r.slots[i - 1 := EntryMap.Empty], r.count - 1)
      else r
  }

  /** The same walk as it affects the index: a picked entry leaves its
      tags' lists, in slot order. */
  function SweepIndex(m: HashMap, t: Tree, sel: Selector, i: nat): Tree
    requires i <= |m.slots|
    decreases i
  {
    if i == 0 then t
    else
      var before := SweepIndex(m, t, sel, i - 1);
      var slot := m.slots[i - 1];
      if Picked(slot, sel) then Untag(before, slot.entry.tags, slot.entry.key) else before
  }

  /** A key/tag association is picked off by the first `i` slots of a walk. */
  predicate SweptOff(m: HashMap, sel: Selector, i: nat, tag: Tag, k: Key)
  {
    exists p :: 0 <= p < i && p < |m.slots| && Picked(m.slots[p], sel)
                && m.slots[p].entry.key == k && tag in m.slots[p].entry.tags
  }

  /** The walk keeps the index valid. */
  lemma {:induction false} SweepValid(m: HashMap, t: Tree, sel: Selector, i: nat)
    requires i <= |m.slots| && TagTree.Valid(t)
    ensures TagTree.Valid(SweepIndex(m, t, sel, i))
    decreases i
  {
    if i > 0 {
      SweepValid(m, t, sel, i - 1);
      var slot := m.slots[i - 1];
      if Picked(slot, sel) {
        UntagSpec(SweepIndex(m, t, sel, i - 1), slot.entry.tags, slot.entry.key);
      }
    }
  }

  /** The index afterwards: exactly the associations of the cleared entries
      are gone. */
  lemma {:induction false} SweepTree(m: HashMap, t: Tree, sel: Selector, i: nat)
    requires i <= |m.slots| && TagTree.Valid(t)
    ensures forall tag, k :: k in TagTree.KeysByTag(SweepIndex(m, t, sel, i), tag)
                             <==> k in TagTree.KeysByTag(t, tag) && !SweptOff(m, sel, i, tag, k)
    decreases i
  {
    if i > 0 {
      SweepTree(m, t, sel, i - 1);
      SweepValid(m, t, sel, i - 1);
      var before := SweepIndex(m, t, sel, i - 1);
      var slot := m.slots[i - 1];
      if Picked(slot, sel) {
        UntagSpec(before, slot.entry.tags, slot.entry.key);
      }
      forall tag, k
        ensures SweptOff(m, sel, i, tag, k)
                <==> SweptOff(m, sel, i - 1, tag, k)
                     || (Picked(slot, sel) && slot.entry.key == k && tag in slot.entry.tags)
      {
        if SweptOff(m, sel, i, tag, k) && !SweptOff(m, sel, i - 1, tag, k) {
          var p :| 0 <= p < i && p < |m.slots| && Picked(m.slots[p], sel)
                   && m.slots[p].entry.key == k && tag in m.slots[p].entry.tags;
          assert p == i - 1;
        }
      }
    }
  }

  /** The index after the walk of the first `j` maps, in map order: each
      map's walk starts from the index the previous one left. */
  function SweepTrees(maps: seq<HashMap>, t: Tree, sel: Selector, j: nat): Tree
    requires j <= |maps|
    decreases j
  {
    if j == 0 then t
    else SweepIndex(maps[j - 1], SweepTrees(maps, t, sel, j - 1), sel, |maps[j - 1].slots|)
  }

  /** walk_all_entries with a clearing callback: every map walked, the
      index threaded through the walks in map order. */
  function SweepMaps(c: Cache, sel: Selector): (r: Cache)
    requires Valid(c)
    ensures |r.maps| == |c.maps| && r.nextId == c.nextId
  {
    Cache(seq(|c.maps|, i requires 0 <= i < |c.maps| => SweepTable(c.maps[i], sel, |c.maps[i].slots|)),
          SweepTrees(c.maps, c.tree, sel, |c.maps|),
          c.nextId)
  }

  lemma {:induction false} SweepTreesValid(maps: seq<HashMap>, t: Tree, sel: Selector, j: nat)
    requires j <= |maps| && TagTree.Valid(t)
    ensures TagTree.Valid(SweepTrees(maps, t, sel, j))
    decreases j
  {
    if j > 0 {
      SweepTreesValid(maps, t, sel, j - 1);
      SweepValid(maps[j - 1], SweepTrees(maps, t, sel, j - 1), sel, |maps[j - 1].slots|);
    }
  }

  /** The walk keeps the state valid. */
  lemma SweepMapsValid(c: Cache, sel: Selector)
    requires Valid(c)
    ensures Valid(SweepMaps(c, sel))
  {
    var r := SweepMaps(c, sel);
    SweepTreesValid(c.maps, c.tree, sel, |c.maps|);
    forall i | 0 <= i < |c.maps|
      ensures EntryMap.Valid(r.maps[i]) && Shrinks(c.maps[i], r.maps[i])
    {
      assert r.maps[i] == SweepTable(c.maps[i], sel, |c.maps[i].slots|);
    }
    forall i, p | 0 <= i < |r.maps| && 0 <= p < |r.maps[i].slots| && r.maps[i].slots[p].Full?
      ensures r.maps[i].slots[p].entry.id < r.nextId
    {
      assert r.maps[i].slots[p] == c.maps[i].slots[p];
    }
  }

  /** The walk empties exactly the picked slots and leaves every other
      slot as it was. */
  lemma SweepMapsSlots(c: Cache, sel: Selector)
    requires Valid(c)
    ensures forall i :: 0 <= i < |c.maps| ==> |SweepMaps(c, sel).maps[i].slots| == |c.maps[i].slots|
    ensures forall i, p :: 0 <= i < |c.maps| && 0 <= p < |c.maps[i].slots| ==>
              SweepMaps(c, sel).maps[i].slots[p]
              == (if Picked(c.maps[i].slots[p], sel) then EntryMap.Empty else c.maps[i].slots[p])
  {
    var r := SweepMaps(c, sel);
    forall i | 0 <= i < |c.maps|
      ensures r.maps[i] == SweepTable(c.maps[i], sel, |c.maps[i].slots|)
    {
    }
  }

  /** A key/tag association is picked off by the walk of the first `j`
      maps. */
  predicate ClearedOff(c: Cache, sel: Selector, j: nat, tag: Tag, k: Key)
  {
    exists i :: 0 <= i < j && i < |c.maps| && SweptOff(c.maps[i], sel, |c.maps[i].slots|, tag, k)
  }

  /** The index after the walk: exactly the associations of the cleared
      entries are gone. */
  lemma SweepMapsTree(c: Cache, sel: Selector)
    requires Valid(c)
    ensures forall tag, k :: k in TagTree.KeysByTag(SweepMaps(c, sel).tree, tag)
                             <==> k in TagTree.KeysByTag(c.tree, tag) && !ClearedOff(c, sel, |c.maps|, tag, k)
  {
    assert SweepMaps(c, sel).tree == SweepTrees(c.maps, c.tree, sel, |c.maps|);
    forall tag, k
      ensures k in TagTree.KeysByTag(SweepTrees(c.maps, c.tree, sel, |c.maps|), tag)
              <==> k in TagTree.KeysByTag(c.tree, tag) && !ClearedOff(c, sel, |c.maps|, tag, k)
    {
      SweepTreesAt(c, sel, |c.maps|, tag, k);
    }
  }

  /** One key/tag association through the walk of the first `j` maps. */
  lemma {:induction false} SweepTreesAt(c: Cache, sel: Selector, j: nat, tag: Tag, k: Key)
    requires TagTree.Valid(c.tree) && j <= |c.maps|
    ensures (k in TagTree.KeysByTag(SweepTrees(c.maps, c.tree, sel, j), tag))
            == (k in TagTree.KeysByTag(c.tree, tag) && !ClearedOff(c, sel, j, tag, k))
    decreases j
  {
    if j > 0 {
      SweepTreesAt(c, sel, j - 1, tag, k);
      SweepTreesValid(c.maps, c.tree, sel, j - 1);
      SweepTreeAt(c.maps[j - 1], SweepTrees(c.maps, c.tree, sel, j - 1), sel, tag, k);
      ClearedOffStep(c, sel, j, tag, k);
    } else {
      assert SweepTrees(c.maps, c.tree, sel, 0) == c.tree && !ClearedOff(c, sel, 0, tag, k);
    }
  }

  /** SweepTree for one key/tag association over a whole map. */
  lemma SweepTreeAt(m: HashMap, t: Tree, sel: Selector, tag: Tag, k: Key)
    requires TagTree.Valid(t)
    ensures (k in TagTree.KeysByTag(SweepIndex(m, t, sel, |m.slots|), tag))
            == (k in TagTree.KeysByTag(t, tag) && !SweptOff(m, sel, |m.slots|, tag, k))
  {
    SweepTree(m, t, sel, |m.slots|);
  }

  lemma ClearedOffStep(c: Cache, sel: Selector, j: nat, tag: Tag, k: Key)
    requires 0 < j <= |c.maps|
    ensures ClearedOff(c, sel, j, tag, k)
            <==> ClearedOff(c, sel, j - 1, tag, k) || SweptOff(c.maps[j - 1], sel, |c.maps[j - 1].slots|, tag, k)
  {
    if ClearedOff(c, sel, j, tag, k) && !ClearedOff(c, sel, j - 1, tag, k) {
      var i :| 0 <= i < j && i < |c.maps| && SweptOff(c.maps[i], sel, |c.maps[i].slots|, tag, k);
      assert i == j - 1;
    }
  }

  /** delete_entry_by_key for each key in order, whatever it reports
      (the CLR MATCH_ALL / MATCH_ANY loop). */
  function DeleteKeys(c: Cache, keys: seq<Key>, littleEndian: bool): (r: Cache)
    requires Valid(c)
    ensures Valid(r) && |r.maps| == |c.maps| && r.nextId == c.nextId
    ensures forall i :: 0 <= i < |c.maps| ==> Shrinks(c.maps[i], r.maps[i])
    ensures forall k :: k in keys ==> !EntryMap.Holds(r.maps[MapIndex(k, |c.maps|, littleEndian)], k)
    decreases |keys|
  {
    if |keys| == 0 then c
    else
      var r := DeleteKeys(c, keys[..|keys| - 1], littleEndian);
      var last := keys[|keys| - 1];
      var d := DeleteByKey(r, last, littleEndian).cache;
      DeleteKeysStep(c, r, keys, last, littleEndian);
      d
  }

  lemma DeleteKeysStep(c: Cache, r: Cache, keys: seq<Key>, last: Key, littleEndian: bool)
    requires Valid(c) && Valid(r) && |r.maps| == |c.maps| && r.nextId == c.nextId
    requires |keys| > 0 && last == keys[|keys| - 1]
    requires forall i :: 0 <= i < |c.maps| ==> Shrinks(c.maps[i], r.maps[i])
    requires forall k :: k in keys[..|keys| - 1] ==> !EntryMap.Holds(r.maps[MapIndex(k, |c.maps|, littleEndian)], k)
    ensures var d := DeleteByKey(r, last, littleEndian).cache;
            && Valid(d) && |d.maps| == |c.maps| && d.nextId == c.nextId
            && (forall i :: 0 <= i < |c.maps| ==> Shrinks(c.maps[i], d.maps[i]))
            && forall k :: k in keys ==> !EntryMap.Holds(d.maps[MapIndex(k, |c.maps|, littleEndian)], k)
  {
    DeleteByKeySpec(r, last, littleEndian);
    DeleteByKeyMaps(r, last, littleEndian);
    var d := DeleteByKey(r, last, littleEndian).cache;
    forall i | 0 <= i < |c.maps|
      ensures Shrinks(c.maps[i], d.maps[i])
    {
      assert Shrinks(r.maps[i], d.maps[i]);
      ShrinksTrans(c.maps[i], r.maps[i], d.maps[i]);
    }
    forall k | k in keys
      ensures !EntryMap.Holds(d.maps[MapIndex(k, |c.maps|, littleEndian)], k)
    {
      var i := MapIndex(k, |c.maps|, littleEndian);
      if k != last {
        assert k in keys[..|keys| - 1];
        assert Shrinks(r.maps[i], d.maps[i]);
        ShrinksKeepsAbsent(r.maps[i], d.maps[i], k);
      }
    }
  }

  /** Slot `p` of map `i` holds one of `keys`, in the map that key is
      routed to: the slots a deletion of `keys` empties. */
  predicate Listed(c: Cache, keys: seq<Key>, littleEndian: bool, i: nat, p: nat)
    requires i < |c.maps| && p < |c.maps[i].slots|
  {
    var s := c.maps[i].slots[p];
    s.Full? && s.entry.key in keys && MapIndex(s.entry.key, |c.maps|, littleEndian) == i
  }

  /** `tag` is on the entry a lookup of `k` finds: the association a
      deletion of `k` removes. */
  predicate Unlinked(c: Cache, k: Key, tag: Tag, littleEndian: bool)
    requires Valid(c)
  {
    var m := c.maps[MapIndex(k, |c.maps|, littleEndian)];
    EntryMap.Get(m, k).Some? && tag in EntryMap.Get(m, k).value.tags
  }

  /** The slots after deleting `keys`: exactly the listed ones emptied. */
  predicate SlotsAfter(c: Cache, keys: seq<Key>, littleEndian: bool, r: Cache)
    requires |r.maps| == |c.maps|
    requires forall i :: 0 <= i < |c.maps| ==> |r.maps[i].slots| == |c.maps[i].slots|
  {
    forall i, p :: 0 <= i < |c.maps| && 0 <= p < |c.maps[i].slots| ==>
      r.maps[i].slots[p] == if Listed(c, keys, littleEndian, i, p) then EntryMap.Empty else c.maps[i].slots[p]
  }

  /** The index after deleting `keys`: exactly the associations of the
      entries the lookups of `keys` find are gone. */
  ghost predicate IndexAfter(c: Cache, keys: seq<Key>, littleEndian: bool, r: Cache)
    requires Valid(c)
  {
    forall tag, k {:trigger k in TagTree.KeysByTag(r.tree, tag)} {:trigger k in TagTree.KeysByTag(c.tree, tag)} ::
      k in TagTree.KeysByTag(r.tree, tag)
      <==> k in TagTree.KeysByTag(c.tree, tag) && !(k in keys && Unlinked(c, k, tag, littleEndian))
  }

  /** Deleting `keys` one by one empties exactly the slots holding a listed
      key and removes exactly those keys' associations; every other slot
      and association stays. */
  lemma {:induction false} DeleteKeysEffect(c: Cache, keys: seq<Key>, littleEndian: bool)
    requires Valid(c)
    ensures var r := DeleteKeys(c, keys, littleEndian);
            && (forall i :: 0 <= i < |c.maps| ==> |r.maps[i].slots| == |c.maps[i].slots|)
            && SlotsAfter(c, keys, littleEndian, r)
            && IndexAfter(c, keys, littleEndian, r)
    decreases |keys|
  {
    if |keys| == 0 {
      forall i, p | 0 <= i < |c.maps| && 0 <= p < |c.maps[i].slots|
        ensures !Listed(c, keys, littleEndian, i, p)
      {
      }
    } else {
      var init := keys[..|keys| - 1];
      DeleteKeysEffect(c, init, littleEndian);
      var q := DeleteKeys(c, init, littleEndian);
      assert DeleteKeys(c, keys, littleEndian) == DeleteByKey(q, keys[|keys| - 1], littleEndian).cache;
      DeleteSlotsStep(c, q, keys, littleEndian);
      DeleteIndexStep(c, q, keys, littleEndian);
    }
  }

  lemma SnocIn(keys: seq<Key>)
    requires |keys| > 0
    ensures forall k :: k in keys <==> k in keys[..|keys| - 1] || k == keys[|keys| - 1]
  {
    assert keys == keys[..|keys| - 1] + [keys[|keys| - 1]];
  }

  /** One more deletion empties, besides the slots emptied so far, exactly
      the slots of the key's map that hold it. */
  lemma DeleteSlotsStep(c: Cache, q: Cache, keys: seq<Key>, littleEndian: bool)
    requires Valid(c) && Valid(q) && |q.maps| == |c.maps| && |keys| > 0
    requires forall i :: 0 <= i < |c.maps| ==> |q.maps[i].slots| == |c.maps[i].slots|
    requires SlotsAfter(c, keys[..|keys| - 1], littleEndian, q)
    ensures var r := DeleteByKey(q, keys[|keys| - 1], littleEndian).cache;
            && |r.maps| == |c.maps|
            && (forall i :: 0 <= i < |c.maps| ==> |r.maps[i].slots| == |c.maps[i].slots|)
            && SlotsAfter(c, keys, littleEndian, r)
  {
    var init := keys[..|keys| - 1];
    var last := keys[|keys| - 1];
    var i := MapIndex(last, |c.maps|, littleEndian);
    DeleteByKeyMaps(q, last, littleEndian);
    var r := DeleteByKey(q, last, littleEndian).cache;
    SnocIn(keys);
    forall j, p | 0 <= j < |c.maps| && 0 <= p < |c.maps[j].slots|
      ensures r.maps[j].slots[p] == if Listed(c, keys, littleEndian, j, p) then EntryMap.Empty else c.maps[j].slots[p]
    {
      SlotStep(c, q, r, init, last, keys, littleEndian, j, p);
    }
  }

  /** The slot-by-slot argument of the step above. */
  lemma SlotStep(c: Cache, q: Cache, r: Cache, init: seq<Key>, last: Key, keys: seq<Key>, littleEndian: bool, j: nat, p: nat)
    requires |c.maps| > 0 && |q.maps| == |c.maps| && |r.maps| == |c.maps|
    requires j < |c.maps| && p < |c.maps[j].slots| && p < |q.maps[j].slots| && p < |r.maps[j].slots|
    requires forall k :: k in keys <==> k in init || k == last
    requires q.maps[j].slots[p] == if Listed(c, init, littleEndian, j, p) then EntryMap.Empty else c.maps[j].slots[p]
    requires var i := MapIndex(last, |c.maps|, littleEndian);
             && (j != i ==> r.maps[j] == q.maps[j])
             && (j == i ==> !(r.maps[j].slots[p].Full? && r.maps[j].slots[p].entry.key == last))
             && (j == i ==> r.maps[j].slots[p] == q.maps[j].slots[p] || r.maps[j].slots[p] == EntryMap.Empty)
             && (j == i && r.maps[j].slots[p] != q.maps[j].slots[p] ==>
                   q.maps[j].slots[p].Full? && q.maps[j].slots[p].entry.key == last)
    ensures r.maps[j].slots[p] == if Listed(c, keys, littleEndian, j, p) then EntryMap.Empty else c.maps[j].slots[p]
  {
  }

  /** One more deletion takes off, besides the associations removed so
      far, exactly those of the entry the key's lookup finds. */
  lemma DeleteIndexStep(c: Cache, q: Cache, keys: seq<Key>, littleEndian: bool)
    requires Valid(c) && Valid(q) && |q.maps| == |c.maps| && |keys| > 0
    requires forall i :: 0 <= i < |c.maps| ==> |q.maps[i].slots| == |c.maps[i].slots|
    requires SlotsAfter(c, keys[..|keys| - 1], littleEndian, q)
    requires IndexAfter(c, keys[..|keys| - 1], littleEndian, q)
    ensures IndexAfter(c, keys, littleEndian, DeleteByKey(q, keys[|keys| - 1], littleEndian).cache)
  {
    var init := keys[..|keys| - 1];
    var last := keys[|keys| - 1];
    SameLookup(c, q, init, last, littleEndian);
    DeleteByKeySpec(q, last, littleEndian);
    DeleteByKeyIndex(q, last, littleEndian);
    SnocIn(keys);
    var d := DeleteByKey(q, last, littleEndian);
    forall tag, k
      ensures k in TagTree.KeysByTag(d.cache.tree, tag)
              <==> k in TagTree.KeysByTag(c.tree, tag) && !(k in keys && Unlinked(c, k, tag, littleEndian))
    {
      IndexPoint(c, q, d, init, last, keys, littleEndian, tag, k);
    }
  }

  /** The step above for one key/tag association. */
  lemma IndexPoint(c: Cache, q: Cache, d: Deleted, init: seq<Key>, last: Key, keys: seq<Key>,
                   littleEndian: bool, tag: Tag, k: Key)
    requires Valid(c) && Valid(q) && |q.maps| == |c.maps|
    requires forall x :: x in keys <==> x in init || x == last
    requires IndexAfter(c, init, littleEndian, q)
    requires var i := MapIndex(last, |c.maps|, littleEndian);
             && EntryMap.Get(q.maps[i], last) == (if last in init then None else EntryMap.Get(c.maps[i], last))
             && d.status in {Ok, NotFound}
             && (d.status == NotFound <==> !EntryMap.Holds(q.maps[i], last))
             && (d.status == NotFound ==> d.cache == q)
             && (d.status == Ok ==>
                   forall tag, k :: k in TagTree.KeysByTag(d.cache.tree, tag)
                                    <==> k in TagTree.KeysByTag(q.tree, tag)
                                         && !(k == last && tag in EntryMap.Get(q.maps[i], last).value.tags))
    ensures k in TagTree.KeysByTag(d.cache.tree, tag)
            <==> k in TagTree.KeysByTag(c.tree, tag) && !(k in keys && Unlinked(c, k, tag, littleEndian))
  {
    assert k in TagTree.KeysByTag(q.tree, tag)
           <==> k in TagTree.KeysByTag(c.tree, tag) && !(k in init && Unlinked(c, k, tag, littleEndian));
  }

  /** Until `last` is deleted, its lookup finds in the shrunk state what it
      finds in the original one; once deleted, nothing. */
  lemma SameLookup(c: Cache, q: Cache, init: seq<Key>, last: Key, littleEndian: bool)
    requires Valid(c) && Valid(q) && |q.maps| == |c.maps|
    requires forall i :: 0 <= i < |c.maps| ==> |q.maps[i].slots| == |c.maps[i].slots|
    requires SlotsAfter(c, init, littleEndian, q)
    ensures var i := MapIndex(last, |c.maps|, littleEndian);
            EntryMap.Get(q.maps[i], last) == if last in init then None else EntryMap.Get(c.maps[i], last)
  {
    var i := MapIndex(last, |c.maps|, littleEndian);
    if last in init {
      if EntryMap.Holds(q.maps[i], last) {
        var p :| 0 <= p < |q.maps[i].slots| && q.maps[i].slots[p].Full? && q.maps[i].slots[p].entry.key == last;
        assert Listed(c, init, littleEndian, i, p);
      }
    } else {
      forall p | 0 <= p < |c.maps[i].slots| && ((c.maps[i].slots[p].Full? && c.maps[i].slots[p].entry.key == last)
                                               || (q.maps[i].slots[p].Full? && q.maps[i].slots[p].entry.key == last))
        ensures c.maps[i].slots[p] == q.maps[i].slots[p]
      {
      }
      EntryMap.GetSame(c.maps[i], q.maps[i], last);
    }
  }

  // ---------------------------------------------------------------------
  // Listing walks (callbacks that return false)

  /** The keys of the picked entries among the first `i` slots, in slot
      order. */
  function SlotKeys(slots: seq<EntryMap.Slot>, sel: Selector, i: nat): (ks: seq<Key>)
    requires i <= |slots|
    ensures forall k :: k in ks <==> exists p :: 0 <= p < i && Picked(slots[p], sel) && slots[p].entry.key == k
    decreases i
  {
    if i == 0 then []
    else
      var ks := SlotKeys(slots, sel, i - 1);
      if Picked(slots[i - 1], sel) then ks + [slots[i - 1].entry.key] else ks
  }

  /** walk_all_entries with a listing callback: the picked keys of every
      map, maps in order. */
  function CacheKeys(maps: seq<HashMap>, sel: Selector): (ks: seq<Key>)
    ensures forall k :: k in ks <==>
              exists i, p :: 0 <= i < |maps| && 0 <= p < |maps[i].slots| && Picked(maps[i].slots[p], sel)
                             && maps[i].slots[p].entry.key == k
    decreases |maps|
  {
    if |maps| == 0 then []
    else
      var ks := CacheKeys(maps[..|maps| - 1], sel);
      var last := maps[|maps| - 1];
      var more := SlotKeys(last.slots, sel, |last.slots|);
      assert forall i :: 0 <= i < |maps| - 1 ==> maps[..|maps| - 1][i] == maps[i];
      ks + more
  }

  /** The stand-in for walk_all_tags (not part of tag.c): every node's tag,
      in order. */
  function InOrder(t: Tree): (ts: seq<Tag>)
    ensures forall x :: x in ts <==> x in TagTree.Tags(t)
  {
    match t
    case Leaf => []
    case Node(tag, _, l, r) => InOrder(l) + [tag] + InOrder(r)
  }

  /** Strictly ascending under compare_tags. */
  predicate Ascending(ws: seq<Tag>)
  {
    forall a, b :: 0 <= a < b < |ws| ==> TagTree.CompareTags(ws[a], ws[b]) < 0
  }

  /** On an ordered tree the walk is strictly ascending under
      compare_tags. */
  lemma {:induction false} InOrderSorted(t: Tree)
    requires TagTree.Ordered(t)
    ensures Ascending(InOrder(t))
  {
    match t
    case Leaf =>
    case Node(tag, _, l, r) =>
      InOrderSorted(l);
      InOrderSorted(r);
      AscendingJoin(InOrder(l), tag, InOrder(r));
  }

  /** Two ascending runs, one wholly below `tag` and one wholly above it,
      joined around it stay ascending. */
  lemma AscendingJoin(lw: seq<Tag>, tag: Tag, rw: seq<Tag>)
    requires Ascending(lw) && Ascending(rw)
    requires forall x :: x in lw ==> TagTree.CompareTags(x, tag) < 0
    requires forall y :: y in rw ==> TagTree.CompareTags(y, tag) > 0
    ensures Ascending(lw + [tag] + rw)
  {
    var ws := lw + [tag] + rw;
    forall a, b | 0 <= a < b < |ws|
      ensures TagTree.CompareTags(ws[a], ws[b]) < 0
    {
      var x := ws[a];
      var y := ws[b];
      if a < |lw| && b == |lw| {
        assert x in lw;
      } else if a < |lw| && b > |lw| {
        assert x in lw && y == rw[b - |lw| - 1] && y in rw;
        TagTree.CompareTagsOrder(x, tag, y);
        TagTree.CompareTagsOrder(tag, y, tag);
      } else if a == |lw| {
        assert y == rw[b - |lw| - 1] && y in rw;
        TagTree.CompareTagsOrder(tag, y, tag);
      } else if a > |lw| {
        assert x == rw[a - |lw| - 1] && y == rw[b - |lw| - 1];
      }
    }
  }
}
