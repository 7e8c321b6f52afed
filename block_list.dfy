/**
 * The list of occupied ranges that `memory_head` heads in memory_manager.c,
 * seen as a sequence of blocks in list order, with the gaps between them and
 * the two searches the allocator runs over it: the first-fit gap search of
 * `mem_alloc` and the search for a block by its start of `mem_free`.
 */
module BlockList {
  import opened Wrappers

  /** One `MemoryBlock` node: the occupied offsets `[start, end)` (`end` is exclusive). */
  datatype Block = Block(start: nat, end: nat) {

    /** The number of bytes the block occupies (`end - start`; blocks are never inverted). */
    function Size(): (n: nat) {
      if start <= end then end - start else 0
    }
  }

  /** The invariant the allocator keeps: every block is non-empty and inside
      `[0, capacity)`, and the list is in address order with no overlap. */
  predicate Ordered(bs: seq<Block>, capacity: nat) {
    (forall i :: 0 <= i < |bs| ==> bs[i].start < bs[i].end <= capacity) &&
    (forall i, j :: 0 <= i < j < |bs| ==> bs[i].end <= bs[j].start)
  }

  /** Where gap `i` begins: the arena base for the gap before the first block,
      otherwise the end of block `i - 1`. */
  function GapStart(bs: seq<Block>, i: nat): (start: nat)
    requires i <= |bs|
  {
    if i == 0 then 0 else bs[i - 1].end
  }

  /** Where gap `i` ends: the start of block `i`, or the arena end after the last block. */
  function GapEnd(bs: seq<Block>, capacity: nat, i: nat): (end: nat)
    requires i <= |bs|
  {
    if i == |bs| then capacity else bs[i].start
  }

  /** Gap `i` holds at least `size` bytes. */
  predicate GapFits(bs: seq<Block>, capacity: nat, i: nat, size: nat)
    requires i <= |bs|
  {
    GapStart(bs, i) + size <= GapEnd(bs, capacity, i)
  }

  /** The range `[o, o + size)` and the block `b` share no byte. */
  predicate Apart(b: Block, o: nat, size: nat) {
    o + size <= b.start || b.end <= o
  }

  /** The range `[o, o + size)` lies in the arena and overlaps no block. */
  predicate IsFree(bs: seq<Block>, capacity: nat, o: nat, size: nat) {
    o + size <= capacity && forall j :: 0 <= j < |bs| ==> Apart(bs[j], o, size)
  }

  /** The first gap, from gap `k` on, that holds `size` bytes. */
  function FirstFit(bs: seq<Block>, capacity: nat, size: nat, k: nat): (r: Option<nat>)
    requires k <= |bs| + 1
    ensures r.Some? ==> k <= r.value <= |bs|
    decreases |bs| + 1 - k
  {
    if k > |bs| then None
    else if GapFits(bs, capacity, k, size) then Some(k)
    else FirstFit(bs, capacity, size, k + 1)
  }

  /** The gap `FirstFit` finds holds `size` bytes and every gap it passes over
      is too small; when it finds none, every gap from `k` on is too small. */
  lemma {:induction false} FirstFitFinds(bs: seq<Block>, capacity: nat, size: nat, k: nat)
    requires k <= |bs| + 1
    ensures var r := FirstFit(bs, capacity, size, k);
      (r.Some? ==> GapFits(bs, capacity, r.value, size)) &&
      (r.Some? ==> forall j :: k <= j < r.value ==> !GapFits(bs, capacity, j, size)) &&
      (r.None? ==> forall j :: k <= j <= |bs| ==> !GapFits(bs, capacity, j, size))
    decreases |bs| + 1 - k
  {
    if k <= |bs| && !GapFits(bs, capacity, k, size) {
      FirstFitFinds(bs, capacity, size, k + 1);
    }
  }

  /** The first index, from `k` on, of a block that starts at `h`. */
  function FindStart(bs: seq<Block>, h: nat, k: nat): (r: Option<nat>)
    requires k <= |bs|
    ensures r.Some? ==> k <= r.value < |bs| && bs[r.value].start == h
    ensures r.Some? ==> forall j :: k <= j < r.value ==> bs[j].start != h
    ensures r.None? ==> forall j :: k <= j < |bs| ==> bs[j].start != h
    decreases |bs| - k
  {
    if k == |bs| then None
    else if bs[k].start == h then Some(k)
    else FindStart(bs, h, k + 1)
  }

  /** The list with `b` spliced in before position `i`. */
  function Insert(bs: seq<Block>, i: nat, b: Block): (ns: seq<Block>)
    requires i <= |bs|
  {
    bs[..i] + [b] + bs[i..]
  }

  /** The list with the node at position `i` unlinked. */
  function RemoveAt(bs: seq<Block>, i: nat): (ns: seq<Block>)
    requires i < |bs|
  {
    bs[..i] + bs[i + 1..]
  }

  /** The number of occupied bytes. */
  function TotalSize(bs: seq<Block>): (total: nat) {
    if bs == [] then 0 else bs[0].Size() + TotalSize(bs[1..])
  }

  // ---------------------------------------------------------------------------
  // Lemmas about ordered lists

  /** Block `i` is the only block that starts at its start. */
  lemma FindStartUnique(bs: seq<Block>, capacity: nat, i: nat)
    requires Ordered(bs, capacity)
    requires i < |bs|
    ensures FindStart(bs, bs[i].start, 0) == Some(i)
  {
  }

  /** Gaps start no earlier as the index grows. */
  lemma GapStartMonotone(bs: seq<Block>, capacity: nat, i: nat, j: nat)
    requires Ordered(bs, capacity)
    requires i <= j <= |bs|
    ensures GapStart(bs, i) <= GapStart(bs, j)
  {
    if 0 < i < j {
      assert bs[i - 1].end <= bs[j - 1].start < bs[j - 1].end;
    }
  }

  /** A gap that holds `size` bytes gives a free range at its start. */
  lemma GapIsFree(bs: seq<Block>, capacity: nat, i: nat, size: nat)
    requires Ordered(bs, capacity)
    requires i <= |bs| && GapFits(bs, capacity, i, size)
    ensures IsFree(bs, capacity, GapStart(bs, i), size)
  {
    var o := GapStart(bs, i);
    assert GapEnd(bs, capacity, i) <= capacity;
    forall j | 0 <= j < |bs|
      ensures Apart(bs[j], o, size)
    {
      if j < i {
        if j < i - 1 {
          assert bs[j].end <= bs[i - 1].start < bs[i - 1].end;
        }
      } else {
        if i < j {
          assert bs[i].start < bs[i].end <= bs[j].start;
        }
      }
    }
  }

  /** Every free range lies inside one gap: the one after the blocks that end
      at or before it. */
  lemma FreeRangeInGap(bs: seq<Block>, capacity: nat, o: nat, size: nat) returns (i: nat)
    requires Ordered(bs, capacity)
    requires IsFree(bs, capacity, o, size)
    ensures i <= |bs| && GapStart(bs, i) <= o && o + size <= GapEnd(bs, capacity, i)
  {
    i := 0;
    while i < |bs| && bs[i].end <= o
      invariant i <= |bs|
      invariant i > 0 ==> bs[i - 1].end <= o
    {
      i := i + 1;
    }
    if i < |bs| {
      assert Apart(bs[i], o, size);
    }
  }

  /** The first fitting gap starts at the least offset of any free range of
      `size` bytes. */
  lemma FirstFitIsLeast(bs: seq<Block>, capacity: nat, size: nat, i: nat)
    requires Ordered(bs, capacity)
    requires FirstFit(bs, capacity, size, 0) == Some(i)
    ensures IsFree(bs, capacity, GapStart(bs, i), size)
    ensures forall o: nat :: o < GapStart(bs, i) ==> !IsFree(bs, capacity, o, size)
  {
    FirstFitFinds(bs, capacity, size, 0);
    GapIsFree(bs, capacity, i, size);
    forall o: nat | o < GapStart(bs, i)
      ensures !IsFree(bs, capacity, o, size)
    {
      if IsFree(bs, capacity, o, size) {
        var j := FreeRangeInGap(bs, capacity, o, size);
        assert GapFits(bs, capacity, j, size);
        GapStartMonotone(bs, capacity, i, j);
        assert false;
      }
    }
  }

  /** When no gap holds `size` bytes, no range of `size` bytes is free. */
  lemma NoFitIsNoFreeRange(bs: seq<Block>, capacity: nat, size: nat)
    requires Ordered(bs, capacity)
    requires FirstFit(bs, capacity, size, 0).None?
    ensures forall o: nat :: !IsFree(bs, capacity, o, size)
  {
    FirstFitFinds(bs, capacity, size, 0);
    forall o: nat
      ensures !IsFree(bs, capacity, o, size)
    {
      if IsFree(bs, capacity, o, size) {
        var j := FreeRangeInGap(bs, capacity, o, size);
        assert GapFits(bs, capacity, j, size);
        assert false;
      }
    }
  }

  /** Element `k` of a list with `b` spliced in before position `i`. */
  lemma InsertAt(bs: seq<Block>, i: nat, b: Block, k: nat)
    requires i <= |bs| && k <= |bs|
    ensures |Insert(bs, i, b)| == |bs| + 1
    ensures Insert(bs, i, b)[k] == if k < i then bs[k] else if k == i then b else bs[k - 1]
  {
  }

  /** Element `k` of a list with position `i` unlinked. */
  lemma RemoveAtAt(bs: seq<Block>, i: nat, k: nat)
    requires i < |bs| && k < |bs| - 1
    ensures |RemoveAt(bs, i)| == |bs| - 1
    ensures RemoveAt(bs, i)[k] == if k < i then bs[k] else bs[k + 1]
  {
  }

  /** Splicing a new block of `size > 0` bytes at the start of a gap that holds
      it keeps the list ordered, and the new block sits at position `i`. */
  lemma InsertKeepsOrder(bs: seq<Block>, capacity: nat, i: nat, o: nat, size: nat)
    requires Ordered(bs, capacity)
    requires i <= |bs| && o == GapStart(bs, i) && GapFits(bs, capacity, i, size) && size > 0
    ensures Ordered(Insert(bs, i, Block(o, o + size)), capacity)
    ensures |Insert(bs, i, Block(o, o + size))| == |bs| + 1
    ensures Insert(bs, i, Block(o, o + size))[i] == Block(o, o + size)
  {
    var nb := Block(o, o + size);
    var ns := Insert(bs, i, nb);
    InsertAt(bs, i, nb, i);
    forall k | 0 <= k < |ns|
      ensures ns[k].start < ns[k].end <= capacity
    {
      InsertAt(bs, i, nb, k);
    }
    forall a, b | 0 <= a < b < |ns|
      ensures ns[a].end <= ns[b].start
    {
      InsertAt(bs, i, nb, a);
      InsertAt(bs, i, nb, b);
      if a < i && b == i {
        if a < i - 1 {
          assert bs[a].end <= bs[i - 1].start < bs[i - 1].end;
        }
      } else if a == i && b - 1 > i {
        assert bs[i].start < bs[i].end <= bs[b - 1].start;
      }
    }
  }

  /** Unlinking any node keeps the list ordered. */
  lemma RemoveKeepsOrder(bs: seq<Block>, capacity: nat, i: nat)
    requires Ordered(bs, capacity)
    requires i < |bs|
    ensures Ordered(RemoveAt(bs, i), capacity) && |RemoveAt(bs, i)| == |bs| - 1
  {
    var ns := RemoveAt(bs, i);
    forall k | 0 <= k < |ns|
      ensures ns[k].start < ns[k].end <= capacity
    {
      RemoveAtAt(bs, i, k);
    }
    forall a, b | 0 <= a < b < |ns|
      ensures ns[a].end <= ns[b].start
    {
      RemoveAtAt(bs, i, a);
      RemoveAtAt(bs, i, b);
    }
  }

  /** Unlinking the node just spliced in gives back the original list. */
  lemma RemoveInsert(bs: seq<Block>, i: nat, b: Block)
    requires i <= |bs|
    ensures RemoveAt(Insert(bs, i, b), i) == bs
  {
    var ns := Insert(bs, i, b);
    assert ns[..i] == bs[..i];
    assert ns[i + 1..] == bs[i..];
  }

  /** The block spliced in at the start of a fitting gap is the one the search
      by start finds, and unlinking it gives back the original list. */
  lemma InsertThenRemove(bs: seq<Block>, capacity: nat, i: nat, size: nat)
    requires Ordered(bs, capacity)
    requires i <= |bs| && GapFits(bs, capacity, i, size) && size > 0
    ensures var o := GapStart(bs, i);
      var ns := Insert(bs, i, Block(o, o + size));
      FindStart(ns, o, 0) == Some(i) && RemoveAt(ns, i) == bs
  {
    var o := GapStart(bs, i);
    var ns := Insert(bs, i, Block(o, o + size));
    assert FindStart(ns, o, 0) == Some(i) by {
      InsertKeepsOrder(bs, capacity, i, o, size);
      FindStartUnique(ns, capacity, i);
    }
    RemoveInsert(bs, i, Block(o, o + size));
  }

  /** The block first fit places at gap `i` is found again at position `i`,
      and unlinking it gives back the list before. */
  lemma FitThenRemove(bs: seq<Block>, capacity: nat, size: nat, i: nat)
    requires Ordered(bs, capacity) && size > 0
    requires FirstFit(bs, capacity, size, 0) == Some(i)
    ensures var o := GapStart(bs, i);
      var ns := Insert(bs, i, Block(o, o + size));
      FindStart(ns, o, 0) == Some(i) && RemoveAt(ns, i) == bs
  {
    assert i <= |bs| && GapFits(bs, capacity, i, size) by {
      FirstFitFinds(bs, capacity, size, 0);
    }
    InsertThenRemove(bs, capacity, i, size);
  }

  /** Once block `i` is unlinked, the bytes it occupied are free. */
  lemma RemovedRangeIsFree(bs: seq<Block>, capacity: nat, i: nat)
    requires Ordered(bs, capacity)
    requires i < |bs|
    ensures IsFree(RemoveAt(bs, i), capacity, bs[i].start, bs[i].Size())
  {
    var ns := RemoveAt(bs, i);
    var o, size := bs[i].start, bs[i].Size();
    forall k | 0 <= k < |ns|
      ensures Apart(ns[k], o, size)
    {
      RemoveAtAt(bs, i, k);
    }
  }

  /** The occupied bytes of an ordered list whose blocks start at or after `lo`
      fit between `lo` and the arena end. */
  lemma {:induction false} TotalSizeBound(bs: seq<Block>, capacity: nat, lo: nat)
    requires Ordered(bs, capacity)
    requires lo <= capacity
    requires forall j :: 0 <= j < |bs| ==> lo <= bs[j].start
    ensures lo + TotalSize(bs) <= capacity
  {
    if bs != [] {
      var rest := bs[1..];
      assert Ordered(rest, capacity) by {
        assert forall j :: 0 <= j < |rest| ==> rest[j] == bs[j + 1];
      }
      assert forall j :: 0 <= j < |rest| ==> bs[0].end <= rest[j].start by {
        assert forall j :: 0 <= j < |rest| ==> rest[j] == bs[j + 1];
      }
      TotalSizeBound(rest, capacity, bs[0].end);
    }
  }
}
