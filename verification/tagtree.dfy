/** The tag index of tag.c: a binary search tree of tags under a "ROOT"
    sentinel, each node holding a duplicate-free list of keys, with the
    union and intersection queries CLR and LST use. Allocation is assumed
    to succeed. */
module TagTree {
  import opened Bytes

  // ---------------------------------------------------------------------
  // compare_tags

  /** The sign `memcmp` returns on the first `n` bytes, from index `i` on. */
  function MemCmp(a: seq<Byte>, b: seq<Byte>, i: nat, n: nat): (r: int)
    requires i <= n <= |a| && n <= |b|
    ensures -1 <= r <= 1
    decreases n - i
  {
    if i == n then 0
    else if a[i] < b[i] then -1
    else if a[i] > b[i] then 1
    else MemCmp(a, b, i + 1, n)
  }

  /** compare_tags: `memcmp` over the common length, then the shorter tag
      first. Only the sign matters to its callers. */
  function CompareTags(a: Tag, b: Tag): (r: int)
    ensures -1 <= r <= 1
  {
    var size := if |a| > |b| then |b| else |a|;
    var result := if size == 0 then 0 else MemCmp(a, b, 0, size);
    if result == 0 then
      if |a| < |b| then -1 else if |b| < |a| then 1 else 0
    else result
  }

  /** Lexicographic order on byte strings, the reference for compare_tags. */
  function Lex(a: seq<Byte>, b: seq<Byte>): (r: int)
    ensures -1 <= r <= 1
  {
    if |a| == 0 && |b| == 0 then 0
    else if |a| == 0 then -1
    else if |b| == 0 then 1
    else if a[0] < b[0] then -1
    else if a[0] > b[0] then 1
    else Lex(a[1..], b[1..])
  }

  lemma {:induction false} MemCmpIsLex(a: seq<Byte>, b: seq<Byte>, i: nat)
    requires i <= |a| && i <= |b|
    ensures var n := if |a| > |b| then |b| else |a|;
            var r := MemCmp(a, b, i, n);
            Lex(a[i..], b[i..]) == (if r != 0 then r else if |a| < |b| then -1 else if |b| < |a| then 1 else 0)
    decreases |a| - i
  {
    var n := if |a| > |b| then |b| else |a|;
    if i < n {
      assert a[i..][1..] == a[i + 1..] && b[i..][1..] == b[i + 1..];
      MemCmpIsLex(a, b, i + 1);
    }
  }

  /** compare_tags agrees with lexicographic order. */
  lemma CompareIsLex(a: Tag, b: Tag)
    ensures CompareTags(a, b) == Lex(a, b)
  {
    MemCmpIsLex(a, b, 0);
    assert a[0..] == a && b[0..] == b;
  }

  lemma {:induction false} LexZero(a: seq<Byte>, b: seq<Byte>)
    ensures Lex(a, b) == 0 <==> a == b
  {
    if |a| > 0 && |b| > 0 && a[0] == b[0] {
      LexZero(a[1..], b[1..]);
      if a[1..] == b[1..] {
        assert a == [a[0]] + a[1..] && b == [b[0]] + b[1..];
      }
    }
  }

  lemma {:induction false} LexAntisymmetric(a: seq<Byte>, b: seq<Byte>)
    ensures Lex(a, b) == -Lex(b, a)
  {
    if |a| > 0 && |b| > 0 && a[0] == b[0] {
      LexAntisymmetric(a[1..], b[1..]);
    }
  }

  lemma {:induction false} LexTransitive(a: seq<Byte>, b: seq<Byte>, c: seq<Byte>)
    requires Lex(a, b) < 0 && Lex(b, c) < 0
    ensures Lex(a, c) < 0
  {
    if |a| > 0 && |b| > 0 && |c| > 0 && a[0] == b[0] && b[0] == c[0] {
      LexTransitive(a[1..], b[1..], c[1..]);
    }
  }

  /** compare_tags is a total order: 0 exactly for equal tags, reversing
      the arguments flips the sign, and "less than" is transitive. */
  lemma CompareTagsOrder(a: Tag, b: Tag, c: Tag)
    ensures CompareTags(a, b) == 0 <==> a == b
    ensures CompareTags(a, b) == -CompareTags(b, a)
    ensures CompareTags(a, b) < 0 && CompareTags(b, c) < 0 ==> CompareTags(a, c) < 0
  {
    CompareIsLex(a, b);
    CompareIsLex(b, a);
    CompareIsLex(b, c);
    CompareIsLex(a, c);
    LexZero(a, b);
    LexAntisymmetric(a, b);
    if Lex(a, b) < 0 && Lex(b, c) < 0 {
      LexTransitive(a, b, c);
    }
  }

  // ---------------------------------------------------------------------
  // The tree

  /** A `TagNode` and its subtrees; `Leaf` is a NULL child. */
  datatype Tree = Leaf | Node(tag: Tag, keys: seq<Key>, left: Tree, right: Tree)

  const ROOT_TAG: Tag := [0x52, 0x4F, 0x4F, 0x54] // "ROOT"

  /** The index before any tag is associated: the sentinel alone. */
  const Root: Tree := Node(ROOT_TAG, [], Leaf, Leaf)

  function Tags(t: Tree): set<Tag>
  {
    match t
    case Leaf => {}
    case Node(tag, _, l, r) => {tag} + Tags(l) + Tags(r)
  }

  function Size(t: Tree): nat
  {
    match t
    case Leaf => 0
    case Node(_, _, l, r) => 1 + Size(l) + Size(r)
  }

  /** Binary-search-tree order under compare_tags. */
  predicate Ordered(t: Tree)
  {
    match t
    case Leaf => true
    case Node(tag, _, l, r) =>
      && Ordered(l) && Ordered(r)
      && (forall x :: x in Tags(l) ==> CompareTags(x, tag) < 0)
      && (forall x :: x in Tags(r) ==> CompareTags(x, tag) > 0)
  }

  /** The tree search of get_keys_by_tag reaches a node with the tag. */
  predicate Found(t: Tree, tag: Tag)
  {
    match t
    case Leaf => false
    case Node(x, _, l, r) =>
      var diff := CompareTags(tag, x);
      if diff == 0 then true else if diff < 0 then Found(l, tag) else Found(r, tag)
  }

  /** get_keys_by_tag: the key list of the node with an equal tag, or the
      empty list (NULL) when the search falls off the tree. */
  function KeysByTag(t: Tree, tag: Tag): (ks: seq<Key>)
    ensures !Found(t, tag) ==> ks == []
  {
    match t
    case Leaf => []
    case Node(x, keys, l, r) =>
      var diff := CompareTags(tag, x);
      if diff == 0 then keys else if diff < 0 then KeysByTag(l, tag) else KeysByTag(r, tag)
  }

  /** On an ordered tree the search finds exactly the tags the tree holds. */
  lemma {:induction false} FoundIffStored(t: Tree, tag: Tag)
    requires Ordered(t)
    ensures Found(t, tag) <==> tag in Tags(t)
  {
    match t
    case Leaf =>
    case Node(x, _, l, r) =>
      FoundIffStored(l, tag);
      FoundIffStored(r, tag);
      CompareTagsOrder(tag, x, tag);
      var diff := CompareTags(tag, x);
      if diff < 0 && tag in Tags(r) {
        CompareTagsOrder(x, tag, x);
      } else if diff > 0 && tag in Tags(l) {
        CompareTagsOrder(x, tag, x);
      }
  }

  /** The tree with the keys of the node the search for `tag` reaches
      replaced by `ks`; unchanged when the search finds nothing. */
  function WithKeys(t: Tree, tag: Tag, ks: seq<Key>): (r: Tree)
    ensures Tags(r) == Tags(t) && Size(r) == Size(t)
  {
    match t
    case Leaf => Leaf
    case Node(x, keys, l, rt) =>
      var diff := CompareTags(tag, x);
      if diff == 0 then Node(x, ks, l, rt)
      else if diff < 0 then Node(x, keys, WithKeys(l, tag, ks), rt)
      else Node(x, keys, l, WithKeys(rt, tag, ks))
  }

  /** Replacing one node's keys changes what that tag's lookup returns and
      nothing else. */
  lemma {:induction false} WithKeysLookup(t: Tree, tag: Tag, ks: seq<Key>, other: Tag)
    ensures Found(WithKeys(t, tag, ks), other) == Found(t, other)
    ensures KeysByTag(WithKeys(t, tag, ks), other) ==
            if other == tag && Found(t, tag) then ks else KeysByTag(t, other)
    ensures Ordered(t) ==> Ordered(WithKeys(t, tag, ks))
  {
    match t
    case Leaf =>
    case Node(x, keys, l, r) =>
      CompareTagsOrder(tag, x, tag);
      CompareTagsOrder(other, x, other);
      WithKeysLookup(l, tag, ks, other);
      WithKeysLookup(r, tag, ks, other);
  }

  /** get_or_create_node: the tree in which the search for `tag` succeeds,
      a new leaf node with no keys hung where the search fell off. */
  function GetOrCreate(t: Tree, tag: Tag): (r: Tree)
    ensures Found(r, tag)
    ensures Tags(r) == Tags(t) + {tag}
    ensures Found(t, tag) ==> r == t
    ensures !Found(t, tag) ==> Size(r) == Size(t) + 1
  {
    match t
    case Leaf =>
      CompareTagsOrder(tag, tag, tag);
      Node(tag, [], Leaf, Leaf)
    case Node(x, keys, l, rt) =>
      var diff := CompareTags(tag, x);
      CompareTagsOrder(tag, x, tag);
      if diff == 0 then t
      else if diff < 0 then Node(x, keys, GetOrCreate(l, tag), rt)
      else Node(x, keys, l, GetOrCreate(rt, tag))
  }

  /** Creating a node keeps the tree ordered and every lookup unchanged. */
  lemma {:induction false} GetOrCreateKeeps(t: Tree, tag: Tag, other: Tag)
    ensures KeysByTag(GetOrCreate(t, tag), other) == KeysByTag(t, other)
    ensures Found(GetOrCreate(t, tag), other) <==> Found(t, other) || other == tag
    ensures Ordered(t) ==> Ordered(GetOrCreate(t, tag))
  {
    match t
    case Leaf =>
      CompareTagsOrder(other, tag, other);
    case Node(x, keys, l, r) =>
      CompareTagsOrder(tag, x, tag);
      CompareTagsOrder(other, x, other);
      GetOrCreateKeeps(l, tag, other);
      GetOrCreateKeeps(r, tag, other);
      if Ordered(t) && CompareTags(tag, x) > 0 {
        CompareTagsOrder(x, tag, x);
      }
  }

  // ---------------------------------------------------------------------
  // Key lists

  predicate NoDup(ks: seq<Key>)
  {
    forall i, j :: 0 <= i < j < |ks| ==> ks[i] != ks[j]
  }

  lemma NoDupSnoc(s: seq<Key>, x: Key)
    ensures NoDup(s + [x]) <==> NoDup(s) && x !in s
  {
    assert forall i :: 0 <= i < |s| ==> (s + [x])[i] == s[i];
    if x in s {
      var i :| 0 <= i < |s| && s[i] == x;
      assert (s + [x])[i] == (s + [x])[|s|];
    }
  }

  datatype Insertion = Insertion(list: seq<Key>, inserted: bool)

  /** insert_if_unique: prepend the key unless an equal key is present. */
  function InsertIfUnique(list: seq<Key>, key: Key): (r: Insertion)
    ensures r.inserted <==> key !in list
    ensures r.inserted ==> |r.list| == |list| + 1 && r.list[0] == key && r.list[1..] == list
    ensures !r.inserted ==> r.list == list
    ensures NoDup(list) ==> NoDup(r.list)
    ensures key in r.list && forall k :: k in r.list <==> k in list || k == key
  {
    if key in list then Insertion(list, false) else Insertion([key] + list, true)
  }

  /** copy_key_list, walking the list and appending a copy of each node. */
  method CopyKeyList(list: seq<Key>) returns (copy: seq<Key>)
    ensures copy == list
  {
    copy := [];
    var i := 0;
    while i < |list|
      invariant 0 <= i <= |list|
      invariant copy == list[..i]
    {
      copy := copy + [list[i]];
      i := i + 1;
    }
    assert list[..i] == list;
  }

  /** Every key list of the tree is duplicate-free. */
  predicate UniqueLists(t: Tree)
  {
    match t
    case Leaf => true
    case Node(_, keys, l, r) => NoDup(keys) && UniqueLists(l) && UniqueLists(r)
  }

  lemma {:induction false} UniqueLookup(t: Tree, tag: Tag)
    requires UniqueLists(t)
    ensures NoDup(KeysByTag(t, tag))
  {
    match t
    case Leaf =>
    case Node(x, _, l, r) =>
      UniqueLookup(l, tag);
      UniqueLookup(r, tag);
  }

  lemma {:induction false} UniqueWithKeys(t: Tree, tag: Tag, ks: seq<Key>)
    requires UniqueLists(t) && NoDup(ks)
    ensures UniqueLists(WithKeys(t, tag, ks))
  {
    match t
    case Leaf =>
    case Node(x, _, l, r) =>
      UniqueWithKeys(l, tag, ks);
      UniqueWithKeys(r, tag, ks);
  }

  lemma {:induction false} UniqueGetOrCreate(t: Tree, tag: Tag)
    requires UniqueLists(t)
    ensures UniqueLists(GetOrCreate(t, tag))
  {
    match t
    case Leaf =>
    case Node(x, _, l, r) =>
      UniqueGetOrCreate(l, tag);
      UniqueGetOrCreate(r, tag);
  }

  /** The index's invariant: ordered, duplicate-free lists, the sentinel
      at the root. */
  predicate Valid(t: Tree)
  {
    Ordered(t) && UniqueLists(t) && t.Node? && t.tag == ROOT_TAG
  }

  lemma RootValid()
    ensures Valid(Root) && Tags(Root) == {ROOT_TAG}
  {
  }

  /** associate_key_with_tag: find or create the tag's node, then insert
      the key into its list if it is not there yet. */
  function Associate(t: Tree, tag: Tag, key: Key): (r: Tree)
  {
    var node := GetOrCreate(t, tag);
    WithKeys(node, tag, InsertIfUnique(KeysByTag(node, tag), key).list)
  }

  /** Afterwards the key is in the tag's list, the other lists are as they
      were, and the index stays valid. */
  lemma AssociateSpec(t: Tree, tag: Tag, key: Key, other: Tag)
    requires Valid(t)
    ensures Valid(Associate(t, tag, key))
    ensures Tags(Associate(t, tag, key)) == Tags(t) + {tag}
    ensures key in KeysByTag(Associate(t, tag, key), tag)
    ensures forall k :: k in KeysByTag(Associate(t, tag, key), tag) <==> k in KeysByTag(t, tag) || k == key
    ensures other != tag ==> KeysByTag(Associate(t, tag, key), other) == KeysByTag(t, other)
  {
    var node := GetOrCreate(t, tag);
    var ks := InsertIfUnique(KeysByTag(node, tag), key).list;
    GetOrCreateKeeps(t, tag, tag);
    GetOrCreateKeeps(t, tag, other);
    UniqueGetOrCreate(t, tag);
    UniqueLookup(node, tag);
    UniqueWithKeys(node, tag, ks);
    WithKeysLookup(node, tag, ks, tag);
    WithKeysLookup(node, tag, ks, other);
    assert node.Node? && node.tag == ROOT_TAG;
  }

  lemma {:induction false} WithOwnKeys(t: Tree, tag: Tag)
    ensures WithKeys(t, tag, KeysByTag(t, tag)) == t || !Found(t, tag)
  {
    match t
    case Leaf =>
    case Node(x, _, l, r) =>
      WithOwnKeys(l, tag);
      WithOwnKeys(r, tag);
  }

  lemma {:induction false} WithKeysTwice(t: Tree, tag: Tag, ks: seq<Key>, ks2: seq<Key>)
    ensures WithKeys(WithKeys(t, tag, ks), tag, ks2) == WithKeys(t, tag, ks2)
  {
    match t
    case Leaf =>
    case Node(x, _, l, r) =>
      WithKeysTwice(l, tag, ks, ks2);
      WithKeysTwice(r, tag, ks, ks2);
  }

  /** associate_key_with_tag is idempotent. */
  lemma AssociateIdempotent(t: Tree, tag: Tag, key: Key)
    ensures Associate(Associate(t, tag, key), tag, key) == Associate(t, tag, key)
  {
    var node := GetOrCreate(t, tag);
    var ks := InsertIfUnique(KeysByTag(node, tag), key).list;
    var once := WithKeys(node, tag, ks);
    WithKeysLookup(node, tag, ks, tag);
    WithKeysTwice(node, tag, ks, ks);
    assert GetOrCreate(once, tag) == once;
    assert KeysByTag(once, tag) == ks;
    assert InsertIfUnique(ks, key).list == ks;
  }

  /** The stand-in for remove_key_from_tag (not part of tag.c): the key
      leaves that tag's list, whose order is otherwise kept. */
  function RemoveKey(t: Tree, tag: Tag, key: Key): (r: Tree)
  {
    WithKeys(t, tag, Without(KeysByTag(t, tag), key))
  }

  function Without(ks: seq<Key>, key: Key): (r: seq<Key>)
    ensures forall k :: k in r <==> k in ks && k != key
    ensures NoDup(ks) ==> NoDup(r)
    ensures |r| <= |ks|
  {
    if |ks| == 0 then []
    else
      var r := Without(ks[..|ks| - 1], key);
      NoDupSnoc(ks[..|ks| - 1], ks[|ks| - 1]);
      if ks[|ks| - 1] != key then NoDupSnoc(r, ks[|ks| - 1]); r + [ks[|ks| - 1]] else r
  }

  /** Removal takes the key out of that tag's list only and keeps the
      index valid. */
  lemma RemoveKeySpec(t: Tree, tag: Tag, key: Key, other: Tag)
    requires Valid(t)
    ensures Valid(RemoveKey(t, tag, key)) && Tags(RemoveKey(t, tag, key)) == Tags(t)
    ensures forall k :: k in KeysByTag(RemoveKey(t, tag, key), tag) <==> k in KeysByTag(t, tag) && k != key
    ensures other != tag ==> KeysByTag(RemoveKey(t, tag, key), other) == KeysByTag(t, other)
  {
    var ks := Without(KeysByTag(t, tag), key);
    UniqueLookup(t, tag);
    UniqueWithKeys(t, tag, ks);
    WithKeysLookup(t, tag, ks, tag);
    WithKeysLookup(t, tag, ks, other);
  }

  // ---------------------------------------------------------------------
  // Union and intersection

  /** insert_if_unique applied to each key of `keys` in order. */
  function AddAll(found: seq<Key>, keys: seq<Key>): seq<Key>
  {
    if |keys| == 0 then found
    else InsertIfUnique(AddAll(found, keys[..|keys| - 1]), keys[|keys| - 1]).list
  }

  /** The inserts keep the list free of duplicates and add exactly the
      keys. */
  lemma {:induction false} AddAllSpec(found: seq<Key>, keys: seq<Key>)
    ensures NoDup(found) ==> NoDup(AddAll(found, keys))
    ensures forall k :: k in AddAll(found, keys) <==> k in found || k in keys
  {
    if |keys| > 0 {
      var init := keys[..|keys| - 1];
      AddAllSpec(found, init);
      assert keys == init + [keys[|keys| - 1]];
    }
  }

  /** get_keys_matching_any_tag: a copy of the first tag's list, then every
      other tag's keys inserted if new. */
  function MatchAny(t: Tree, tags: seq<Tag>): (r: seq<Key>)
    ensures |tags| == 0 ==> r == []
  {
    if |tags| == 0 then []
    else if |tags| == 1 then KeysByTag(t, tags[0])
    else AddAll(MatchAny(t, tags[..|tags| - 1]), KeysByTag(t, tags[|tags| - 1]))
  }

  /** `k` is listed under some tag of `tags`. */
  predicate InAny(t: Tree, tags: seq<Tag>, k: Key)
  {
    exists i :: 0 <= i < |tags| && k in KeysByTag(t, tags[i])
  }

  lemma InAnySnoc(t: Tree, tags: seq<Tag>, k: Key)
    requires |tags| > 0
    ensures InAny(t, tags, k) <==> InAny(t, tags[..|tags| - 1], k) || k in KeysByTag(t, tags[|tags| - 1])
  {
    var init := tags[..|tags| - 1];
    if InAny(t, tags, k) && k !in KeysByTag(t, tags[|tags| - 1]) {
      var i :| 0 <= i < |tags| && k in KeysByTag(t, tags[i]);
      assert init[i] == tags[i];
    }
    if InAny(t, init, k) {
      var i :| 0 <= i < |init| && k in KeysByTag(t, init[i]);
      assert init[i] == tags[i];
    }
  }

  /** The union holds the keys of every requested tag and no others, once
      each. */
  lemma {:induction false} MatchAnySpec(t: Tree, tags: seq<Tag>)
    requires UniqueLists(t)
    ensures NoDup(MatchAny(t, tags))
    ensures forall k :: k in MatchAny(t, tags) <==> InAny(t, tags, k)
  {
    if |tags| == 1 {
      UniqueLookup(t, tags[0]);
      forall k
        ensures k in MatchAny(t, tags) <==> InAny(t, tags, k)
      {
        if k in KeysByTag(t, tags[0]) {
          assert InAny(t, tags, k);
        }
      }
    } else if |tags| > 1 {
      var init := tags[..|tags| - 1];
      MatchAnySpec(t, init);
      AddAllSpec(MatchAny(t, init), KeysByTag(t, tags[|tags| - 1]));
      forall k
        ensures k in MatchAny(t, tags) <==> InAny(t, tags, k)
      {
        InAnySnoc(t, tags, k);
      }
    }
  }

  /** The keys of `found` that also appear in `keys`, in order. */
  function Keep(found: seq<Key>, keys: seq<Key>): seq<Key>
  {
    if |found| == 0 then []
    else Keep(found[..|found| - 1], keys) + (if found[|found| - 1] in keys then [found[|found| - 1]] else [])
  }

  /** Unlinking keeps exactly the found keys the list also holds and never
      grows the list. */
  lemma {:induction false} KeepSpec(found: seq<Key>, keys: seq<Key>)
    ensures forall k :: k in Keep(found, keys) <==> k in found && k in keys
    ensures |Keep(found, keys)| <= |found|
  {
    if |found| > 0 {
      KeepSpec(found[..|found| - 1], keys);
      assert found == found[..|found| - 1] + [found[|found| - 1]];
    }
  }

  /** Unlinking adds no duplicate. */
  lemma {:induction false} KeepNoDup(found: seq<Key>, keys: seq<Key>)
    requires NoDup(found)
    ensures NoDup(Keep(found, keys))
  {
    if |found| > 0 {
      var init := found[..|found| - 1];
      var last := found[|found| - 1];
      assert found == init + [last];
      NoDupSnoc(init, last);
      KeepNoDup(init, keys);
      if last in keys {
        KeepSpec(init, keys);
        NoDupSnoc(Keep(init, keys), last);
      }
    }
  }

  /** get_keys_matching_all_tags: a copy of the first tag's list, from which
      every key missing from another tag's list is unlinked. */
  function MatchAll(t: Tree, tags: seq<Tag>): (r: seq<Key>)
    ensures |tags| == 0 ==> r == []
  {
    if |tags| == 0 then []
    else if |tags| == 1 then KeysByTag(t, tags[0])
    else Keep(MatchAll(t, tags[..|tags| - 1]), KeysByTag(t, tags[|tags| - 1]))
  }

  /** `k` is listed under every tag of `tags`. */
  predicate InAll(t: Tree, tags: seq<Tag>, k: Key)
  {
    forall i :: 0 <= i < |tags| ==> k in KeysByTag(t, tags[i])
  }

  /** The keys of `s` listed under every tag of `tags`, in the order of
      `s`: the reference for the intersection. */
  function Common(s: seq<Key>, t: Tree, tags: seq<Tag>): (r: seq<Key>)
  {
    if |s| == 0 then []
    else Common(s[..|s| - 1], t, tags) + (if InAll(t, tags, s[|s| - 1]) then [s[|s| - 1]] else [])
  }

  lemma {:induction false} CommonMembers(s: seq<Key>, t: Tree, tags: seq<Tag>, k: Key)
    ensures k in Common(s, t, tags) <==> k in s && InAll(t, tags, k)
  {
    if |s| > 0 {
      CommonMembers(s[..|s| - 1], t, tags, k);
      assert s == s[..|s| - 1] + [s[|s| - 1]];
    }
  }

  lemma InAllSnoc(t: Tree, tags: seq<Tag>, x: Tag, k: Key)
    ensures InAll(t, tags + [x], k) <==> InAll(t, tags, k) && k in KeysByTag(t, x)
  {
    if InAll(t, tags, k) && k in KeysByTag(t, x) {
      forall i | 0 <= i < |tags + [x]|
        ensures k in KeysByTag(t, (tags + [x])[i])
      {
        if i < |tags| {
          assert (tags + [x])[i] == tags[i];
        }
      }
    }
    if InAll(t, tags + [x], k) {
      forall i | 0 <= i < |tags|
        ensures k in KeysByTag(t, tags[i])
      {
        assert (tags + [x])[i] == tags[i];
      }
      assert (tags + [x])[|tags|] == x;
    }
  }

  lemma InAllCons(t: Tree, tags: seq<Tag>, k: Key)
    requires |tags| > 0
    ensures InAll(t, tags, k) <==> k in KeysByTag(t, tags[0]) && InAll(t, tags[1..], k)
  {
    if k in KeysByTag(t, tags[0]) && InAll(t, tags[1..], k) {
      forall i | 0 <= i < |tags|
        ensures k in KeysByTag(t, tags[i])
      {
        if i > 0 {
          assert tags[1..][i - 1] == tags[i];
        }
      }
    }
    if InAll(t, tags, k) {
      forall i | 0 <= i < |tags[1..]|
        ensures k in KeysByTag(t, tags[1..][i])
      {
        assert tags[1..][i] == tags[i + 1];
      }
    }
  }

  lemma {:induction false} KeepCommon(s: seq<Key>, t: Tree, tags: seq<Tag>, x: Tag)
    ensures Keep(Common(s, t, tags), KeysByTag(t, x)) == Common(s, t, tags + [x])
  {
    if |s| > 0 {
      var init := s[..|s| - 1];
      var last := s[|s| - 1];
      KeepCommon(init, t, tags, x);
      InAllSnoc(t, tags, x, last);
      var c := Common(init, t, tags);
      var keys := KeysByTag(t, x);
      assert Common(s, t, tags + [x]) == Common(init, t, tags + [x]) + (if InAll(t, tags + [x], last) then [last] else []);
      if InAll(t, tags, last) {
        var cs := c + [last];
        assert Common(s, t, tags) == cs;
        assert cs[..|cs| - 1] == c && cs[|cs| - 1] == last;
        assert Keep(cs, keys) == Keep(c, keys) + (if last in keys then [last] else []);
      } else {
        assert Common(s, t, tags) == c;
      }
    }
  }

  lemma {:induction false} CommonNone(s: seq<Key>, t: Tree)
    ensures Common(s, t, []) == s
  {
    if |s| > 0 {
      CommonNone(s[..|s| - 1], t);
    }
  }

  /** The intersection is exactly the first tag's keys that every other tag
      also lists, in the first tag's order, once each. */
  lemma {:induction false} MatchAllSpec(t: Tree, tags: seq<Tag>)
    requires UniqueLists(t)
    ensures |tags| > 0 ==> MatchAll(t, tags) == Common(KeysByTag(t, tags[0]), t, tags[1..])
    ensures NoDup(MatchAll(t, tags))
    ensures forall k :: k in MatchAll(t, tags) <==> |tags| > 0 && InAll(t, tags, k)
  {
    if |tags| == 1 {
      UniqueLookup(t, tags[0]);
      CommonNone(KeysByTag(t, tags[0]), t);
      assert tags[1..] == [];
    } else if |tags| > 1 {
      var init := tags[..|tags| - 1];
      MatchAllSpec(t, init);
      KeepNoDup(MatchAll(t, init), KeysByTag(t, tags[|tags| - 1]));
      assert init[0] == tags[0];
      KeepCommon(KeysByTag(t, tags[0]), t, init[1..], tags[|tags| - 1]);
      assert init[1..] + [tags[|tags| - 1]] == tags[1..];
      forall k
        ensures k in MatchAll(t, tags) <==> InAll(t, tags, k)
      {
        InAllCons(t, tags, k);
        CommonMembers(KeysByTag(t, tags[0]), t, tags[1..], k);
      }
    }
  }

  /** get_keys_matching_any_tag as tag.c runs it: copy, then two nested
      walks inserting every key not yet present. */
  method MatchingAnyTag(t: Tree, tags: seq<Tag>) returns (found: seq<Key>)
    ensures found == MatchAny(t, tags)
  {
    if |tags| == 0 {
      return [];
    }
    found := CopyKeyList(KeysByTag(t, tags[0]));
    var n := 1;
    while n < |tags|
      invariant 1 <= n <= |tags|
      invariant found == MatchAny(t, tags[..n])
    {
      var keys := KeysByTag(t, tags[n]);
      var j := 0;
      while j < |keys|
        invariant 0 <= j <= |keys|
        invariant found == AddAll(MatchAny(t, tags[..n]), keys[..j])
      {
        assert keys[..j + 1][..j] == keys[..j];
        found := InsertIfUnique(found, keys[j]).list;
        j := j + 1;
      }
      assert keys[..j] == keys;
      assert tags[..n + 1][..n] == tags[..n];
      n := n + 1;
    }
    assert tags[..n] == tags;
  }

  /** get_keys_matching_all_tags as a filter: copy the first tag's keys,
      then for every further tag keep the found keys that tag lists. tag.c
      unlinks the others in place, which keeps the same keys in the same
      order. */
  method MatchingAllTags(t: Tree, tags: seq<Tag>) returns (found: seq<Key>)
    ensures found == MatchAll(t, tags)
  {
    if |tags| == 0 {
      return [];
    }
    found := CopyKeyList(KeysByTag(t, tags[0]));
    var n := 1;
    while n < |tags|
      invariant 1 <= n <= |tags|
      invariant found == MatchAll(t, tags[..n])
    {
      var keys := KeysByTag(t, tags[n]);
      var kept: seq<Key> := [];
      var j := 0;
      while j < |found|
        invariant 0 <= j <= |found|
        invariant kept == Keep(found[..j], keys)
      {
        assert found[..j + 1][..j] == found[..j];
        if found[j] in keys {
          kept := kept + [found[j]];
        }
        j := j + 1;
      }
      assert found[..j] == found;
      assert tags[..n + 1][..n] == tags[..n];
      found := kept;
      n := n + 1;
    }
    assert tags[..n] == tags;
  }
}
