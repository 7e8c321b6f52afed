/**
 * What the operations of memory_manager.c promise, stated over the state
 * machine of module Arena: the block list stays ordered and inside the arena,
 * allocation is leftmost first fit and fails only when no range is free,
 * free removes exactly the named block, and resize behaves as free followed
 * by allocation, with the old size allocated again when that fails.
 */
module ArenaProperties {
  import opened Wrappers
  import opened BlockList
  import opened Arena

  // ---------------------------------------------------------------------------
  // mem_init, mem_deinit

  /** A fresh arena has an empty list, and the globals before any `mem_init`
      are consistent too. */
  lemma InitIsValid(size: nat)
    ensures Valid(Init(size)) && Init(size).blocks == [] && Init(size).capacity == size
    ensures Valid(Uninitialized()) && Alloc(Uninitialized(), size) == (Uninitialized(), None)
  {
  }

  /** After `mem_deinit` the list is empty and the capacity is 0, so every
      later allocation of a positive size fails without a change, and a second
      `mem_deinit` changes nothing. */
  lemma DeinitDisablesAlloc(s: State, size: nat)
    requires size > 0
    ensures Valid(Deinit(s)) && Deinit(s).blocks == [] && Deinit(s).capacity == 0
    ensures Alloc(Deinit(s), size) == (Deinit(s), None)
    ensures Deinit(Deinit(s)) == Deinit(s)
  {
  }

  // ---------------------------------------------------------------------------
  // mem_alloc

  /** Allocation keeps the list ordered and inside the arena. */
  lemma AllocKeepsValid(s: State, size: nat)
    requires Valid(s)
    ensures Valid(Alloc(s, size).0)
  {
    if s.hasArena && 0 < size <= s.capacity {
      var r := FirstFit(s.blocks, s.capacity, size, 0);
      if r.Some? {
        FirstFitFinds(s.blocks, s.capacity, size, 0);
        InsertKeepsOrder(s.blocks, s.capacity, r.value, GapStart(s.blocks, r.value), size);
      }
    }
  }

  /** Allocation returns NULL exactly when there is no arena, the size exceeds
      the capacity, or the size is positive and no range of that size is free;
      a NULL result leaves the state unchanged, and size 0 yields the arena
      base without a block. */
  lemma AllocFailsOnlyWithoutRoom(s: State, size: nat)
    requires Valid(s)
    ensures Alloc(s, size).1.None? <==>
      (!s.hasArena || size > s.capacity ||
       (size > 0 && forall o: nat :: !IsFree(s.blocks, s.capacity, o, size)))
    ensures Alloc(s, size).1.None? ==> Alloc(s, size).0 == s
    ensures s.hasArena && size == 0 ==> Alloc(s, size) == (s, Some(0))
  {
    if s.hasArena && 0 < size <= s.capacity {
      var r := FirstFit(s.blocks, s.capacity, size, 0);
      if r.None? {
        NoFitIsNoFreeRange(s.blocks, s.capacity, size);
      } else {
        FirstFitIsLeast(s.blocks, s.capacity, size, r.value);
      }
    }
  }

  /** A successful allocation of `size > 0` bytes returns the least offset whose
      range of `size` bytes is free, and adds that range as one block. */
  lemma AllocIsLeftmostFirstFit(s: State, size: nat)
    requires Valid(s) && size > 0
    requires Alloc(s, size).1.Some?
    ensures var (t, p) := Alloc(s, size);
      IsFree(s.blocks, s.capacity, p.value, size) &&
      (forall o: nat :: o < p.value ==> !IsFree(s.blocks, s.capacity, o, size)) &&
      Block(p.value, p.value + size) in t.blocks &&
      |t.blocks| == |s.blocks| + 1 &&
      t.hasArena == s.hasArena && t.capacity == s.capacity
  {
    var i := FirstFit(s.blocks, s.capacity, size, 0).value;
    FirstFitIsLeast(s.blocks, s.capacity, size, i);
    InsertKeepsOrder(s.blocks, s.capacity, i, GapStart(s.blocks, i), size);
  }

  /** A successful allocation of `size > 0` bytes splices its block in at the
      start of the first gap that holds it: the new list is the old one with
      that single block inserted at position `i`, every other block unchanged
      and in the same order. */
  lemma AllocSplices(s: State, size: nat) returns (i: nat)
    requires size > 0 && Alloc(s, size).1.Some?
    ensures FirstFit(s.blocks, s.capacity, size, 0) == Some(i)
    ensures var o := GapStart(s.blocks, i);
      Alloc(s, size) == (s.(blocks := Insert(s.blocks, i, Block(o, o + size))), Some(o))
  {
    i := FirstFit(s.blocks, s.capacity, size, 0).value;
  }

  /** A successful allocation of `size > 0` bytes changes no other block: the
      blocks before position `i` and those from `i` on keep their values and
      their order, the new block sits between them, and the arena and the
      capacity are unchanged. */
  lemma AllocKeepsOtherBlocks(s: State, size: nat) returns (i: nat)
    requires size > 0 && Alloc(s, size).1.Some?
    ensures var (t, p) := Alloc(s, size);
      i <= |s.blocks| && |t.blocks| == |s.blocks| + 1 &&
      t.blocks[..i] == s.blocks[..i] &&
      t.blocks[i] == Block(p.value, p.value + size) &&
      t.blocks[i + 1..] == s.blocks[i..] &&
      t.hasArena == s.hasArena && t.capacity == s.capacity
  {
    i := AllocSplices(s, size);
    var o := GapStart(s.blocks, i);
    var ns := Insert(s.blocks, i, Block(o, o + size));
    assert Alloc(s, size) == (s.(blocks := ns), Some(o));
    assert ns[..i] == s.blocks[..i];
    assert ns[i + 1..] == s.blocks[i..];
  }

  /** Freeing `o` in a list where `o` starts node `i` unlinks exactly that node. */
  lemma FreeUnlinks(s: State, ns: seq<Block>, o: nat, i: nat)
    requires FindStart(ns, o, 0) == Some(i) && RemoveAt(ns, i) == s.blocks
    ensures Free(s.(blocks := ns), Some(o)) == s
  {
  }

  /** Freeing what an allocation of `size > 0` bytes returned gives back the
      state before it: allocation added one block and moved no other. */
  lemma AllocThenFree(s: State, size: nat)
    requires Valid(s) && size > 0
    requires Alloc(s, size).1.Some?
    ensures Free(Alloc(s, size).0, Alloc(s, size).1) == s
  {
    var i := AllocSplices(s, size);
    var o := GapStart(s.blocks, i);
    var ns := Insert(s.blocks, i, Block(o, o + size));
    assert Alloc(s, size) == (s.(blocks := ns), Some(o));
    FitThenRemove(s.blocks, s.capacity, size, i);
    FreeUnlinks(s, ns, o, i);
  }

  /** Two successive allocations of positive sizes return ranges that do not
      overlap; in particular they never return the same offset. */
  lemma AllocsDisjoint(s: State, n1: nat, n2: nat)
    requires Valid(s) && n1 > 0 && n2 > 0
    requires Alloc(s, n1).1.Some?
    requires Alloc(Alloc(s, n1).0, n2).1.Some?
    ensures var o1 := Alloc(s, n1).1.value;
      var o2 := Alloc(Alloc(s, n1).0, n2).1.value;
      o1 + n1 <= o2 || o2 + n2 <= o1
  {
    var t := Alloc(s, n1).0;
    var o1 := Alloc(s, n1).1.value;
    AllocIsLeftmostFirstFit(s, n1);
    AllocKeepsValid(s, n1);
    AllocIsLeftmostFirstFit(t, n2);
    var j :| 0 <= j < |t.blocks| && t.blocks[j] == Block(o1, o1 + n1);
    assert Apart(t.blocks[j], Alloc(t, n2).1.value, n2);
  }

  // ---------------------------------------------------------------------------
  // mem_free

  /** Freeing keeps the list ordered; NULL, or a pointer at which no block
      starts (an interior offset included), changes nothing. */
  lemma FreeKeepsValid(s: State, h: Option<nat>)
    requires Valid(s)
    ensures Valid(Free(s, h))
    ensures h.None? || (forall j :: 0 <= j < |s.blocks| ==> s.blocks[j].start != h.value) ==>
      Free(s, h) == s
  {
    if h.Some? {
      var r := FindStart(s.blocks, h.value, 0);
      if r.Some? {
        RemoveKeepsOrder(s.blocks, s.capacity, r.value);
      }
    }
  }

  /** Freeing the start of block `i` removes exactly that block, keeps the
      others in order, and leaves its bytes free. */
  lemma FreeRemovesBlock(s: State, i: nat)
    requires Valid(s) && i < |s.blocks|
    ensures var t := Free(s, Some(s.blocks[i].start));
      t == s.(blocks := s.blocks[..i] + s.blocks[i + 1..]) &&
      IsFree(t.blocks, t.capacity, s.blocks[i].start, s.blocks[i].Size())
  {
    FindStartUnique(s.blocks, s.capacity, i);
    RemovedRangeIsFree(s.blocks, s.capacity, i);
  }

  /** Allocating the size of a block just freed succeeds, at its old offset or
      lower, and exactly at it when no lower range of that size is free. */
  lemma FreeThenAlloc(s: State, i: nat)
    requires Valid(s) && i < |s.blocks|
    ensures var p := s.blocks[i].start;
      var n := s.blocks[i].Size();
      var freed := Free(s, Some(p));
      var q := Alloc(freed, n).1;
      q.Some? && q.value <= p &&
      ((forall o: nat :: o < p ==> !IsFree(freed.blocks, s.capacity, o, n)) ==> q == Some(p))
  {
    var p := s.blocks[i].start;
    var n := s.blocks[i].Size();
    var freed := Free(s, Some(p));
    assert Valid(freed) && n > 0 && IsFree(freed.blocks, s.capacity, p, n) &&
      freed.hasArena && freed.capacity == s.capacity by {
      FreeRemovesBlock(s, i);
      FreeKeepsValid(s, Some(p));
    }
    assert Alloc(freed, n).1.Some? by {
      AllocFailsOnlyWithoutRoom(freed, n);
    }
    AllocIsLeftmostFirstFit(freed, n);
  }

  // ---------------------------------------------------------------------------
  // Capacity

  /** The occupied bytes never exceed the capacity. */
  lemma OccupiedWithinCapacity(s: State)
    requires Valid(s)
    ensures TotalSize(s.blocks) <= s.capacity
  {
    TotalSizeBound(s.blocks, s.capacity, 0);
  }

  // ---------------------------------------------------------------------------
  // mem_resize

  /** The cases of `mem_resize` that do not move a block: size 0 frees and
      returns NULL, a NULL pointer allocates, and a pointer at which no block
      starts returns NULL with no change. */
  lemma ResizeTrivialCases(s: State, h: Option<nat>, size: nat)
    ensures size == 0 ==> Resize(s, h, size) == (Free(s, h), None)
    ensures size > 0 && h.None? ==> Resize(s, h, size) == Alloc(s, size)
    ensures size > 0 && h.Some? && (forall j :: 0 <= j < |s.blocks| ==> s.blocks[j].start != h.value) ==>
      Resize(s, h, size) == (s, None)
  {
  }

  /** Resizing block `i` to `size > 0` bytes frees it and allocates `size`
      bytes, falling back to its old size when that fails. */
  lemma ResizeOfBlock(s: State, i: nat, size: nat)
    requires Valid(s) && i < |s.blocks| && size > 0
    ensures var h := Some(s.blocks[i].start);
      var freed := Free(s, h);
      Resize(s, h, size) ==
        if Alloc(freed, size).1.None? then (Alloc(freed, s.blocks[i].Size()).0, None)
        else Alloc(freed, size)
  {
    FindStartUnique(s.blocks, s.capacity, i);
  }

  /** How many bytes resizing the block at position `i` copies: the smaller
      of the old and new sizes when the block moved, nothing otherwise. */
  lemma CopyLengthOfBlock(s: State, i: nat, size: nat)
    requires Valid(s) && i < |s.blocks| && size > 0
    ensures var h := Some(s.blocks[i].start);
      var p := Resize(s, h, size).1;
      ResizeCopyLength(s, h, size) ==
        if p.None? || p == h then 0
        else if size <= s.blocks[i].Size() then size
        else s.blocks[i].Size()
  {
    FindStartUnique(s.blocks, s.capacity, i);
  }

  /** Resizing keeps the list ordered and inside the arena. */
  lemma ResizeKeepsValid(s: State, h: Option<nat>, size: nat)
    requires Valid(s)
    ensures Valid(Resize(s, h, size).0)
  {
    if size == 0 {
      FreeKeepsValid(s, h);
    } else if h.None? {
      AllocKeepsValid(s, size);
    } else {
      var r := FindStart(s.blocks, h.value, 0);
      if r.Some? {
        var i := r.value;
        ResizeOfBlock(s, i, size);
        FreeKeepsValid(s, h);
        var freed := Free(s, h);
        AllocKeepsValid(freed, size);
        AllocKeepsValid(freed, s.blocks[i].Size());
      }
    }
  }

  /** A successful resize of block `i` to `size > 0` bytes removes the old block
      and adds exactly one block of `size` bytes, at the least offset that is
      free once the old block is freed. */
  lemma ResizeMovesToFirstFit(s: State, i: nat, size: nat)
    requires Valid(s) && i < |s.blocks| && size > 0
    requires Resize(s, Some(s.blocks[i].start), size).1.Some?
    ensures var h := Some(s.blocks[i].start);
      var freed := Free(s, h);
      var (t, p) := Resize(s, h, size);
      IsFree(freed.blocks, s.capacity, p.value, size) &&
      (forall o: nat :: o < p.value ==> !IsFree(freed.blocks, s.capacity, o, size)) &&
      Block(p.value, p.value + size) in t.blocks &&
      Free(t, p) == freed && |t.blocks| == |s.blocks|
  {
    var h := Some(s.blocks[i].start);
    var freed := Free(s, h);
    assert Valid(freed) && |freed.blocks| == |s.blocks| - 1 && freed.capacity == s.capacity by {
      FreeRemovesBlock(s, i);
      FreeKeepsValid(s, h);
    }
    assert Resize(s, h, size) == Alloc(freed, size) by {
      ResizeOfBlock(s, i, size);
    }
    AllocIsLeftmostFirstFit(freed, size);
    AllocThenFree(freed, size);
  }

  /** When a resize of block `i` returns NULL, no range of `size` bytes was free
      once the old block was freed, and the old size was allocated again by
      first fit: that allocation always succeeds, at the old offset or lower,
      so the block count is restored but the block may have moved. */
  lemma ResizeFailureReallocates(s: State, i: nat, size: nat)
    requires Valid(s) && i < |s.blocks| && size > 0
    requires Resize(s, Some(s.blocks[i].start), size).1.None?
    ensures var h := Some(s.blocks[i].start);
      var n := s.blocks[i].Size();
      var freed := Free(s, h);
      var (t, q) := Alloc(freed, n);
      (size > s.capacity || forall o: nat :: !IsFree(freed.blocks, s.capacity, o, size)) &&
      q.Some? && q.value <= s.blocks[i].start &&
      Resize(s, h, size).0 == t &&
      Block(q.value, q.value + n) in t.blocks &&
      |t.blocks| == |s.blocks|
  {
    var h := Some(s.blocks[i].start);
    var n := s.blocks[i].Size();
    var freed := Free(s, h);
    assert Valid(freed) && |freed.blocks| == |s.blocks| - 1 && n > 0 &&
      freed.capacity == s.capacity by {
      FreeRemovesBlock(s, i);
      FreeKeepsValid(s, h);
    }
    assert Alloc(freed, size).1.None? && Resize(s, h, size).0 == Alloc(freed, n).0 by {
      ResizeOfBlock(s, i, size);
    }
    assert size > s.capacity || forall o: nat :: !IsFree(freed.blocks, s.capacity, o, size) by {
      AllocFailsOnlyWithoutRoom(freed, size);
    }
    FreeThenAlloc(s, i);
    AllocIsLeftmostFirstFit(freed, n);
  }

  /** A failed resize can leave the re-reserved block at another offset: in a
      10-byte arena holding [2, 5) and [5, 10), growing the block at 2 to 6
      bytes fails, and the old 3 bytes are reserved again at offset 0. */
  lemma ResizeFailureCanMove()
    ensures var s := State(true, 10, [Block(2, 5), Block(5, 10)]);
      Valid(s) && Resize(s, Some(2), 6) == (State(true, 10, [Block(0, 3), Block(5, 10)]), None)
  {
    var s := State(true, 10, [Block(2, 5), Block(5, 10)]);
    assert FindStart(s.blocks, 2, 0) == Some(0);
    var freed := State(true, 10, [Block(5, 10)]);
    assert RemoveAt(s.blocks, 0) == freed.blocks;
    assert Free(s, Some(2)) == freed;
    assert !GapFits(freed.blocks, 10, 0, 6) && !GapFits(freed.blocks, 10, 1, 6);
    assert FirstFit(freed.blocks, 10, 6, 2).None?;
    assert FirstFit(freed.blocks, 10, 6, 0).None?;
    assert Alloc(freed, 6) == (freed, None);
    assert FirstFit(freed.blocks, 10, 3, 0) == Some(0);
    assert Insert(freed.blocks, 0, Block(0, 3)) == [Block(0, 3), Block(5, 10)];
    assert Alloc(freed, 3).0 == State(true, 10, [Block(0, 3), Block(5, 10)]);
  }

  /** The bytes `mem_resize` copies lie inside the arena, at both the old and
      the new offset, are at most the new size, and are copied only when the
      block moved. */
  lemma ResizeCopyInBounds(s: State, h: Option<nat>, size: nat)
    requires Valid(s)
    ensures var n := ResizeCopyLength(s, h, size);
      var p := Resize(s, h, size).1;
      n <= size &&
      (n > 0 ==> h.Some? && p.Some? && p != h &&
                 h.value + n <= s.capacity && p.value + n <= s.capacity)
  {
    if size > 0 && h.Some? {
      var r := FindStart(s.blocks, h.value, 0);
      if r.Some? && Resize(s, h, size).1.Some? {
        ResizeMovesToFirstFit(s, r.value, size);
      }
    }
  }
}
