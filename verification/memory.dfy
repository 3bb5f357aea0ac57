/** The size-class allocator of memory.c, sequentially: one region carved
    by a bump cursor, partitions of power-of-two bucket sizes, and a LIFO
    free list per partition. Addresses are offsets into the region; the
    region size, the alignment and the struct sizes are parameters. */
module Memory {
  import opened Bytes

  /** PADDING(s): the bytes that round `s` up to a multiple of `align`. */
  function Padding(s: nat, align: nat): nat
    requires align > 0
  {
    (align - s % align) % align
  }

  /** PADDED(s). */
  function Padded(s: nat, align: nat): nat
    requires align > 0
  {
    s + Padding(s, align)
  }

  /** The padding is below the alignment, rounds up to a multiple of it,
      and is zero exactly for sizes already aligned. */
  lemma PaddingSpec(s: nat, align: nat)
    requires align > 0
    ensures 0 <= Padding(s, align) < align
    ensures Padded(s, align) % align == 0
    ensures Padding(s, align) == 0 <==> s % align == 0
  {
    var q := s / align;
    var m := s % align;
    assert s == q * align + m;
    if m == 0 {
      assert (align - m) % align == 0;
    } else {
      assert (align - m) % align == align - m;
      var k := q + 1;
      assert s + (align - m) == k * align;
      assert (k * align) % align == 0 by {
        var r := (k * align) % align;
        var d := (k * align) / align;
        assert k * align == align * d + r;
        assert align * (k - d) == r;
        if k - d >= 1 {
          assert false;
        } else if k - d <= -1 {
          assert false;
        }
      }
    }
  }

  /** The allocator's fixed sizes. The largest bucket is
      `minBucket * 2^steps`; `header` is sizeof (Bucket). */
  datatype Layout = Layout(
    align: nat,
    header: nat,
    partitionSize: nat,
    minBucket: nat,
    steps: nat,
    total: nat)
  {
    predicate Sane()
    {
      align > 0 && minBucket > 0
    }

    /** TPADDED (Bucket): where a bucket's data begins. */
    function DataOffset(): nat
      requires Sane()
    {
      Padded(header, align)
    }

    /** The bucket size of the partition at `i` in list order. */
    function SizeAt(i: nat): nat
    {
      minBucket * Pow2(i)
    }

    function MaxBucket(): nat
    {
      SizeAt(steps)
    }
  }

  function Pow2(k: nat): (r: nat)
    ensures r >= 1
  {
    if k == 0 then 1 else 2 * Pow2(k - 1)
  }

  // ---------------------------------------------------------------------
  // push_memory

  datatype Push = Push(ptr: Option<nat>, cursor: nat)

  /** push_memory: the cursor moves by `size` whether or not the block
      fits; the old cursor is returned only when it does. */
  function PushMemory(cursor: nat, size: nat, total: nat): (p: Push)
  {
    var next := cursor + size;
    Push(if next > total then None else Some(cursor), next)
  }

  /** `n` blocks of `size` bytes, summed as init_memory sums them. */
  function Times(n: nat, size: nat): nat
  {
    if n == 0 then 0 else Times(n - 1, size) + size
  }

  lemma {:induction false} TimesGrows(m: nat, n: nat, size: nat)
    requires m <= n
    ensures Times(m, size) <= Times(n, size)
    decreases n
  {
    if m < n {
      TimesGrows(m, n - 1, size);
    }
  }

  lemma SizeHalves(l: Layout, j: nat)
    requires l.Sane()
    ensures j > 0 ==> l.SizeAt(j) / 2 == l.SizeAt(j - 1)
    ensures j == 0 ==> l.SizeAt(j) / 2 < l.minBucket
    ensures l.SizeAt(j) >= l.minBucket
  {
    if j > 0 {
      assert l.SizeAt(j) == 2 * l.SizeAt(j - 1);
    }
  }

  function Sum(sizes: seq<nat>): nat
  {
    if |sizes| == 0 then 0 else Sum(sizes[..|sizes| - 1]) + sizes[|sizes| - 1]
  }

  /** Once a push has failed, every later push fails too. */
  lemma PushFailureIsPermanent(cursor: nat, size: nat, later: seq<nat>, total: nat)
    requires PushMemory(cursor, size, total).ptr.None?
    ensures forall i :: 0 <= i < |later| ==>
              PushMemory(cursor + size + Sum(later[..i]), later[i], total).ptr.None?
  {
  }

  // ---------------------------------------------------------------------
  // Partitions and buckets

  /** A `Partition`: its bucket size, its free list (head first) and its
      counters. */
  datatype Partition = Partition(size: nat, free: seq<nat>, numUsed: int, numFree: int, numReused: int)

  /** The allocator: the cursor, the partitions in list order, and the
      partition each bucket (by address) belongs to. */
  datatype Heap = Heap(cursor: nat, parts: seq<Partition>, owner: map<nat, nat>)

  /** The partition setup loop of init_memory: from the largest size down,
      halving, each new partition pushed onto the front of the list, then
      the padding of the partition block. The region must hold them. */
  method InitPartitions(l: Layout) returns (h: Heap)
    requires l.Sane()
    requires Padded(Times(l.steps + 1, l.partitionSize), l.align) <= l.total
    ensures h.parts == InitialParts(l)
    ensures h.parts[0].size == l.minBucket && h.parts[l.steps].size == l.MaxBucket()
    ensures h.cursor == Padded(Times(l.steps + 1, l.partitionSize), l.align) && h.owner == map[]
  {
    var parts: seq<Partition> := [];
    var cursor: nat := 0;
    var size := l.MaxBucket();
    ghost var j: int := l.steps;
    while size >= l.minBucket
      invariant -1 <= j <= l.steps
      invariant j >= 0 ==> size == l.SizeAt(j)
      invariant j < 0 ==> size < l.minBucket
      invariant |parts| == l.steps - j
      invariant forall i :: 0 <= i < |parts| ==> parts[i] == Partition(l.SizeAt(i + j + 1), [], 0, 0, 0)
      invariant cursor == Times(|parts|, l.partitionSize)
      decreases size
    {
      SizeHalves(l, j);
      TimesGrows(|parts| + 1, l.steps + 1, l.partitionSize);
      var push := PushMemory(cursor, l.partitionSize, l.total);
      assert push.ptr.Some?;
      parts := [Partition(size, [], 0, 0, 0)] + parts;
      cursor := push.cursor;
      size := size / 2;
      j := j - 1;
    }
    if j >= 0 {
      SizeHalves(l, j);
    }
    assert j == -1;
    var total := Times(l.steps + 1, l.partitionSize);
    cursor := PushMemory(cursor, Padding(total, l.align), l.total).cursor;
    h := Heap(cursor, parts, map[]);
  }

  /** The partition list a fresh allocator starts with. */
  function InitialParts(l: Layout): (ps: seq<Partition>)
    ensures |ps| == l.steps + 1
  {
    seq(l.steps + 1, i requires 0 <= i => Partition(l.SizeAt(i), [], 0, 0, 0))
  }

  lemma {:induction false} SizeGrows(l: Layout, i: nat, j: nat)
    requires l.Sane() && i < j
    ensures l.SizeAt(i) < l.SizeAt(j)
    decreases j
  {
    SizeHalves(l, j);
    if i < j - 1 {
      SizeGrows(l, i, j - 1);
    }
  }

  /** The partitions of a fresh allocator are ascending powers of two
      apart: each is twice the one before. */
  lemma InitialPartsAscending(l: Layout)
    requires l.Sane()
    ensures Ascending(InitialParts(l))
    ensures forall i :: 0 <= i < |InitialParts(l)| ==> InitialParts(l)[i].size >= l.minBucket
    ensures forall i :: 0 < i < |InitialParts(l)| ==> InitialParts(l)[i].size == 2 * InitialParts(l)[i - 1].size
  {
    var ps := InitialParts(l);
    forall i, j | 0 <= i < j < |ps|
      ensures ps[i].size < ps[j].size
    {
      SizeGrows(l, i, j);
    }
    forall i | 0 <= i < |ps|
      ensures ps[i].size >= l.minBucket && (i > 0 ==> ps[i].size == 2 * ps[i - 1].size)
    {
      SizeHalves(l, i);
      if i > 0 {
        assert l.SizeAt(i) == 2 * l.SizeAt(i - 1);
      }
    }
  }

  predicate Ascending(ps: seq<Partition>)
  {
    forall i, j :: 0 <= i < j < |ps| ==> ps[i].size < ps[j].size
  }

  /** The allocator's invariant: ascending partitions; every free bucket
      belongs to the partition whose list holds it; the free counter is the
      list length; every bucket lies below the cursor; no partition is
      empty-sized. */
  predicate Valid(h: Heap)
  {
    && Ascending(h.parts)
    && (forall i :: 0 <= i < |h.parts| ==> h.parts[i].size > 0)
    && (forall i :: 0 <= i < |h.parts| ==> h.parts[i].numFree == |h.parts[i].free|)
    && (forall i, k :: 0 <= i < |h.parts| && 0 <= k < |h.parts[i].free| ==>
          h.parts[i].free[k] in h.owner && h.owner[h.parts[i].free[k]] == i)
    && (forall b :: b in h.owner ==> b < h.cursor && h.owner[b] < |h.parts|)
  }

  lemma InitialValid(l: Layout, cursor: nat)
    requires l.Sane()
    ensures Valid(Heap(cursor, InitialParts(l), map[]))
  {
    InitialPartsAscending(l);
  }

  /** The first partition, from index `i` on, whose buckets hold `size`. */
  function SelectFrom(ps: seq<Partition>, size: nat, i: nat): (r: Option<nat>)
    requires i <= |ps|
    ensures r.Some? ==> i <= r.value < |ps| && ps[r.value].size >= size
    ensures r.Some? ==> forall j :: i <= j < r.value ==> ps[j].size < size
    ensures r.None? ==> forall j :: i <= j < |ps| ==> ps[j].size < size
    decreases |ps| - i
  {
    if i == |ps| then None
    else if ps[i].size >= size then Some(i)
    else SelectFrom(ps, size, i + 1)
  }

  /** On ascending partitions the first fit is the smallest fit. */
  lemma SelectSmallest(ps: seq<Partition>, size: nat)
    requires Ascending(ps)
    ensures SelectFrom(ps, size, 0).Some? ==>
              forall j :: 0 <= j < |ps| && ps[j].size >= size ==> ps[SelectFrom(ps, size, 0).value].size <= ps[j].size
  {
  }

  /** What reserve_memory leaves behind. `NullDereference` is the state
      memory.c reaches when the region is exhausted: it writes through the
      NULL that push_memory returned. */
  datatype Reservation =
    | Reserved(heap: Heap, data: nat)
    | Null(heap: Heap)
    | NullDereference

  /** reserve_memory as written. */
  function ReserveAsWritten(l: Layout, h: Heap, size: nat): (r: Reservation)
    requires l.Sane()
  {
    match SelectFrom(h.parts, size, 0)
    case None => Null(h)
    case Some(i) =>
      var p := h.parts[i];
      if |p.free| > 0 then
        var parts := h.parts[i := p.(free := p.free[1..], numFree := p.numFree - 1,
                                      numReused := p.numReused + 1, numUsed := p.numUsed + 1)];
        Reserved(h.(parts := parts), p.free[0] + l.DataOffset())
      else
        var push := PushMemory(h.cursor, l.DataOffset() + Padded(p.size, l.align), l.total);
        match push.ptr
        case None => NullDereference
        case Some(b) =>
          Reserved(Heap(push.cursor, h.parts[i := p.(numUsed := p.numUsed + 1)], h.owner[b := i]),
                   b + l.DataOffset())
  }

  /** reserve_memory with the exhausted region reported as NULL, the
      cursor having moved as push_memory moves it. */
  function Reserve(l: Layout, h: Heap, size: nat): (r: Reservation)
    requires l.Sane()
    ensures r != NullDereference
  {
    match ReserveAsWritten(l, h, size)
    case NullDereference =>
      var i := SelectFrom(h.parts, size, 0).value;
      var p := h.parts[i];
      Null(h.(cursor := PushMemory(h.cursor, l.DataOffset() + Padded(p.size, l.align), l.total).cursor))
    case r => r
  }

  /** The data address minus the header is the bucket, in the partition
      the request selected. */
  function BucketOf(l: Layout, data: nat): int
    requires l.Sane()
  {
    data - l.DataOffset()
  }

  /** reserve_memory: the smallest partition that fits; its most recently
      freed bucket if there is one, otherwise a fresh bucket carved at the
      cursor; a request above the largest partition changes nothing. */
  lemma ReserveSpec(l: Layout, h: Heap, size: nat)
    requires l.Sane() && Valid(h)
    ensures var r := Reserve(l, h, size);
            var sel := SelectFrom(h.parts, size, 0);
            && (sel.None? <==> r == Null(h) && forall j :: 0 <= j < |h.parts| ==> h.parts[j].size < size)
            && (r.Reserved? ==>
                  && sel.Some?
                  && var i := sel.value;
                  && BucketOf(l, r.data) in r.heap.owner && r.heap.owner[BucketOf(l, r.data)] == i
                  && r.heap.parts[i].numUsed == h.parts[i].numUsed + 1
                  && (forall j :: 0 <= j < |h.parts| && j != i ==> r.heap.parts[j] == h.parts[j])
                  && (|h.parts[i].free| > 0 ==>
                        && BucketOf(l, r.data) == h.parts[i].free[0]
                        && r.heap.parts[i].free == h.parts[i].free[1..]
                        && r.heap.parts[i].numFree == h.parts[i].numFree - 1
                        && r.heap.parts[i].numReused == h.parts[i].numReused + 1)
                  && (|h.parts[i].free| == 0 ==>
                        && BucketOf(l, r.data) == h.cursor && h.cursor !in h.owner
                        && r.heap.parts[i].free == [] && r.heap.parts[i].numReused == h.parts[i].numReused))
            && (r.Null? && sel.Some? ==> r.heap.parts == h.parts && r.heap.owner == h.owner && r.heap.cursor > l.total)
  {
  }

  /** Either way reserve_memory leaves a valid heap with the same
      partitions. */
  lemma ReserveValid(l: Layout, h: Heap, size: nat)
    requires l.Sane() && Valid(h)
    ensures var r := Reserve(l, h, size);
            (r.Reserved? || r.Null?) && Valid(r.heap) && |r.heap.parts| == |h.parts|
  {
    match SelectFrom(h.parts, size, 0)
    case None =>
    case Some(i) =>
      var p := h.parts[i];
      if |p.free| > 0 {
        PopFreeValid(h, i);
        var h2 := h.(parts := h.parts[i := p.(free := p.free[1..], numFree := p.numFree - 1,
                                              numReused := p.numReused + 1, numUsed := p.numUsed + 1)]);
        assert Reserve(l, h, size) == Reserved(h2, p.free[0] + l.DataOffset());
      } else {
        var push := PushMemory(h.cursor, l.DataOffset() + Padded(p.size, l.align), l.total);
        if push.ptr.Some? {
          CarveValid(h, i, push.cursor);
          var h2 := Heap(push.cursor, h.parts[i := p.(numUsed := p.numUsed + 1)], h.owner[h.cursor := i]);
          assert Reserve(l, h, size) == Reserved(h2, h.cursor + l.DataOffset());
        } else {
          assert Reserve(l, h, size) == Null(h.(cursor := push.cursor));
        }
      }
  }

  /** Handing out the first free bucket of a partition keeps the heap
      valid. */
  lemma PopFreeValid(h: Heap, i: nat)
    requires Valid(h) && i < |h.parts| && |h.parts[i].free| > 0
    ensures var p := h.parts[i];
            Valid(h.(parts := h.parts[i := p.(free := p.free[1..], numFree := p.numFree - 1,
                                               numReused := p.numReused + 1, numUsed := p.numUsed + 1)]))
  {
    var p := h.parts[i];
    var h2 := h.(parts := h.parts[i := p.(free := p.free[1..], numFree := p.numFree - 1,
                                          numReused := p.numReused + 1, numUsed := p.numUsed + 1)]);
    forall a, k | 0 <= a < |h2.parts| && 0 <= k < |h2.parts[a].free|
      ensures h2.parts[a].free[k] in h2.owner && h2.owner[h2.parts[a].free[k]] == a
    {
      if a == i {
        assert h2.parts[a].free[k] == p.free[k + 1];
      }
    }
  }

  /** Carving a fresh bucket at the cursor for partition `i`, and moving
      the cursor past it, keeps the heap valid. */
  lemma CarveValid(h: Heap, i: nat, cursor: nat)
    requires Valid(h) && i < |h.parts| && h.cursor < cursor
    ensures Valid(Heap(cursor, h.parts[i := h.parts[i].(numUsed := h.parts[i].numUsed + 1)], h.owner[h.cursor := i]))
  {
  }

  /** release_memory: the bucket is recovered from the data address and
      pushed onto the front of its partition's free list. */
  function Release(l: Layout, h: Heap, data: nat): (h2: Heap)
    requires l.Sane() && Valid(h)
    requires BucketOf(l, data) >= 0 && BucketOf(l, data) in h.owner
  {
    var b: nat := BucketOf(l, data);
    var i := h.owner[b];
    var p := h.parts[i];
    h.(parts := h.parts[i := p.(free := [b] + p.free, numFree := p.numFree + 1, numUsed := p.numUsed - 1)])
  }

  /** Releasing keeps the invariant, frees exactly that bucket in its own
      partition and moves the two counters. */
  lemma ReleaseSpec(l: Layout, h: Heap, data: nat)
    requires l.Sane() && Valid(h)
    requires BucketOf(l, data) >= 0 && BucketOf(l, data) in h.owner
    ensures var h2 := Release(l, h, data);
            var i := h.owner[BucketOf(l, data)];
            && Valid(h2) && h2.cursor == h.cursor && h2.owner == h.owner
            && h2.parts[i].free == [BucketOf(l, data) as nat] + h.parts[i].free
            && h2.parts[i].numFree == h.parts[i].numFree + 1
            && h2.parts[i].numUsed == h.parts[i].numUsed - 1
            && h2.parts[i].numReused == h.parts[i].numReused
            && forall j :: 0 <= j < |h.parts| && j != i ==> h2.parts[j] == h.parts[j]
  {
    var h2 := Release(l, h, data);
    var b: nat := BucketOf(l, data);
    var i := h.owner[b];
    forall a, k | 0 <= a < |h2.parts| && 0 <= k < |h2.parts[a].free|
      ensures h2.parts[a].free[k] in h2.owner && h2.owner[h2.parts[a].free[k]] == a
    {
      if a == i && k > 0 {
        assert h2.parts[a].free[k] == h.parts[i].free[k - 1];
      }
    }
  }

  /** The free lists are LIFO: a release followed by a reservation that
      selects the same partition hands back the released address. */
  lemma ReleaseThenReserve(l: Layout, h: Heap, data: nat, size: nat)
    requires l.Sane() && Valid(h)
    requires BucketOf(l, data) >= 0 && BucketOf(l, data) in h.owner
    requires SelectFrom(h.parts, size, 0) == Some(h.owner[BucketOf(l, data)])
    ensures Reserve(l, Release(l, h, data), size).Reserved?
    ensures Reserve(l, Release(l, h, data), size).data == data
  {
    var h2 := Release(l, h, data);
    ReleaseSpec(l, h, data);
    assert h2.parts[h.owner[BucketOf(l, data)]].size == h.parts[h.owner[BucketOf(l, data)]].size;
    assert forall j :: 0 <= j < |h.parts| ==> h2.parts[j].size == h.parts[j].size;
    assert SelectFrom(h2.parts, size, 0) == SelectFrom(h.parts, size, 0) by {
      SelectSameSizes(h.parts, h2.parts, size, 0);
    }
  }

  lemma {:induction false} SelectSameSizes(ps: seq<Partition>, qs: seq<Partition>, size: nat, i: nat)
    requires |ps| == |qs| && i <= |ps|
    requires forall j :: 0 <= j < |ps| ==> ps[j].size == qs[j].size
    ensures SelectFrom(ps, size, i) == SelectFrom(qs, size, i)
    decreases |ps| - i
  {
    if i < |ps| {
      SelectSameSizes(ps, qs, size, i + 1);
    }
  }

  /** As written, a reservation that needs a fresh bucket when the region
      is exhausted writes through NULL: one 512-byte partition in a region
      of 512 bytes, and a request of one byte. The heap is a valid one
      (OnePartitionValid). */
  lemma ReserveExhaustedDereferencesNull()
    ensures var l := Layout(16, 24, 48, 0x200, 0, 0x200);
            var h := Heap(0, [Partition(0x200, [], 0, 0, 0)], map[]);
            && l.Sane()
            && ReserveAsWritten(l, h, 1) == NullDereference
            && Reserve(l, h, 1) == Null(h.(cursor := 0x220))
  {
    var l := Layout(16, 24, 48, 0x200, 0, 0x200);
    var h := Heap(0, [Partition(0x200, [], 0, 0, 0)], map[]);
    assert Padding(24, 16) == 8 && Padding(0x200, 16) == 0;
    assert l.DataOffset() + Padded(0x200, 16) == 0x220;
    assert SelectFrom(h.parts, 1, 0) == Some(0);
    assert PushMemory(0, 0x220, 0x200) == Push(None, 0x220);
    assert ReserveAsWritten(l, h, 1) == NullDereference;
  }

  /** A heap whose only partition is empty and which owns no bucket is
      valid. */
  lemma OnePartitionValid(h: Heap, size: nat)
    requires size > 0 && h.parts == [Partition(size, [], 0, 0, 0)] && h.owner == map[]
    ensures Valid(h)
  {
  }

  /** Wherever the code as written does not fault, the corrected
      reservation does exactly what it does. */
  lemma ReserveAgrees(l: Layout, h: Heap, size: nat)
    requires l.Sane()
    requires ReserveAsWritten(l, h, size) != NullDereference
    ensures Reserve(l, h, size) == ReserveAsWritten(l, h, size)
  {
  }
}
