/**
 * The allocator of memory_manager.c as it runs: the globals `memory`,
 * `memory_size` and `memory_head` become the fields of one object, and
 * `mem_init`, `mem_alloc`, `mem_free`, `mem_resize` and `mem_deinit` become
 * its methods, each walking and relinking the block list as the C code does.
 * Every method is proved to move the object from one state to the next as the
 * matching function of module Arena says, so everything proved in
 * ArenaProperties holds of the object too.
 */
module MemoryManager {
  import opened Wrappers
  import opened BlockList
  import Arena
  import opened ArenaProperties

  class Allocator {
    /** `memory != NULL`: an arena was obtained by `mem_init`. */
    var hasArena: bool
    /** The bytes `memory` points to. */
    var arena: array<bv8>
    /** `memory_size`. */
    var capacity: nat
    /** The nodes reachable from `memory_head`, in list order. */
    var blocks: seq<Block>

    /** The globals as a value of the state machine of module Arena. */
    function Abstract(): Arena.State
      reads this
    {
      Arena.State(hasArena, capacity, blocks)
    }

    /** The block list is ordered and inside the arena, whose bytes number `memory_size`. */
    ghost predicate Valid()
      reads this
    {
      Arena.Valid(Abstract()) && arena.Length == capacity
    }

    /** The globals before any call: `memory` and `memory_head` are NULL and
        `memory_size` is 0. */
    constructor ()
      ensures Valid() && Abstract() == Arena.Uninitialized()
    {
      hasArena := false;
      arena := new bv8[0];
      capacity := 0;
      blocks := [];
    }

    /** `mem_init(size)`: obtains a fresh arena of `size` bytes and empties the
        list, whatever the state before. */
    method Init(size: nat)
      modifies this
      ensures Valid() && Abstract() == Arena.Init(size)
      ensures fresh(arena)
    {
      arena := new bv8[size];
      hasArena := true;
      blocks := [];
      capacity := size;
    }

    /** `mem_alloc(size)`: leftmost first fit. Tries the gap before the head,
        then walks the list and tries the gap after each block, up to the next
        block or the arena end, and splices a new node in where one fits. */
    method Alloc(size: nat) returns (p: Option<nat>)
      requires Valid()
      modifies this
      ensures Valid() && arena == old(arena)
      ensures (Abstract(), p) == Arena.Alloc(old(Abstract()), size)
    {
      if !hasArena || size > capacity {
        return None;
      }
      if size == 0 {
        return Some(0);
      }
      ghost var s0 := Abstract();
      if blocks == [] || blocks[0].start >= size {
        assert FirstFit(blocks, capacity, size, 0) == Some(0);
        assert Ordered(Insert(blocks, 0, Block(0, size)), capacity) by {
          InsertKeepsOrder(blocks, capacity, 0, 0, size);
        }
        blocks := Insert(blocks, 0, Block(0, size));
        return Some(0);
      }
      var i := 0;
      while i < |blocks|
        invariant 0 <= i <= |blocks|
        invariant blocks == old(blocks) && hasArena == old(hasArena) && capacity == old(capacity)
        invariant arena == old(arena) && Valid()
        invariant FirstFit(blocks, capacity, size, 0) == FirstFit(blocks, capacity, size, i + 1)
      {
        var next := if i + 1 < |blocks| then blocks[i + 1].start else capacity;
        var freeSize := next - blocks[i].end;
        if freeSize >= size {
          var o := blocks[i].end;
          assert FirstFit(blocks, capacity, size, 0) == Some(i + 1);
          assert Ordered(Insert(blocks, i + 1, Block(o, o + size)), capacity) by {
            InsertKeepsOrder(blocks, capacity, i + 1, o, size);
          }
          blocks := Insert(blocks, i + 1, Block(o, o + size));
          return Some(o);
        }
        i := i + 1;
      }
      return None;
    }

    /** The position of the first node whose block starts at `h`, or the
        length of the list when there is none. */
    method Find(h: nat) returns (i: nat)
      ensures i <= |blocks|
      ensures i < |blocks| <==> FindStart(blocks, h, 0).Some?
      ensures i < |blocks| ==> FindStart(blocks, h, 0) == Some(i)
    {
      i := 0;
      while i < |blocks| && blocks[i].start != h
        invariant 0 <= i <= |blocks|
        invariant forall j :: 0 <= j < i ==> blocks[j].start != h
      {
        i := i + 1;
      }
    }

    /** `mem_free(h)`: walks the list to the node that starts at `h` and
        unlinks it; NULL, or a pointer no node starts at, changes nothing. */
    method Free(h: Option<nat>)
      requires Valid()
      modifies this
      ensures Valid() && arena == old(arena)
      ensures Abstract() == Arena.Free(old(Abstract()), h)
    {
      FreeKeepsValid(Abstract(), h);
      if h.None? {
        return;
      }
      var i := Find(h.value);
      if i == |blocks| {
        return;
      }
      blocks := blocks[..i] + blocks[i + 1..];
    }

    /** `mem_resize(h, size)`: frees the block at `h` and allocates `size`
        bytes; on success copies the smaller of the two sizes from the old
        offset when the block moved, and on failure allocates the old size
        again and returns NULL. */
    method Resize(h: Option<nat>, size: nat) returns (p: Option<nat>)
      requires Valid()
      modifies this, arena
      ensures Valid() && arena == old(arena)
      ensures (Abstract(), p) == Arena.Resize(old(Abstract()), h, size)
      ensures Arena.ResizeCopyLength(old(Abstract()), h, size) == 0 ==> arena[..] == old(arena[..])
      ensures var n := Arena.ResizeCopyLength(old(Abstract()), h, size);
        n > 0 ==>
          h.Some? && p.Some? && h.value + n <= arena.Length && p.value + n <= arena.Length &&
          arena[..] == Arena.MoveBytes(old(arena[..]), h.value, p.value, n)
    {
      if size == 0 {
        if h.Some? {
          Free(h);
        }
        return None;
      }
      if h.None? {
        p := Alloc(size);
        return;
      }
      var i := Find(h.value);
      if i == |blocks| {
        return None;
      }
      ghost var s0 := Abstract();
      var currentSize: nat := blocks[i].end - blocks[i].start;
      p := Relocate(i, size);
      if p.Some? && p != h {
        var n := if size <= currentSize then size else currentSize;
        assert n == Arena.ResizeCopyLength(s0, h, size) by {
          CopyLengthOfBlock(s0, i, size);
        }
        assert h.value + n <= arena.Length && p.value + n <= arena.Length by {
          ResizeCopyInBounds(s0, h, size);
        }
        Move(h.value, p.value, n);
      } else {
        assert Arena.ResizeCopyLength(s0, h, size) == 0 by {
          CopyLengthOfBlock(s0, i, size);
        }
      }
    }

    /** The list operations of `mem_resize` once the node of `h` was found at
        position `i`: free it, allocate `size` bytes, and when that fails
        allocate the old size again and return NULL. The bytes are not
        touched. */
    method Relocate(i: nat, size: nat) returns (p: Option<nat>)
      requires Valid() && i < |blocks| && size > 0
      modifies this
      ensures Valid() && arena == old(arena)
      ensures (Abstract(), p) == Arena.Resize(old(Abstract()), Some(old(blocks)[i].start), size)
    {
      ghost var s0 := Abstract();
      var h := Some(blocks[i].start);
      var currentSize: nat := blocks[i].end - blocks[i].start;
      assert currentSize == s0.blocks[i].Size();
      Free(h);
      ghost var freed := Abstract();
      assert freed == Arena.Free(s0, h);
      p := Alloc(size);
      assert (Abstract(), p) == Arena.Alloc(freed, size);
      if p.None? {
        var _ := Alloc(currentSize);
        assert Abstract() == Arena.Alloc(freed, currentSize).0;
        assert Arena.Resize(s0, h, size) == (Arena.Alloc(freed, currentSize).0, None) by {
          ResizeOfBlock(s0, i, size);
        }
        return None;
      }
      assert Arena.Resize(s0, h, size) == Arena.Alloc(freed, size) by {
        ResizeOfBlock(s0, i, size);
      }
    }

    /** The copy of `n` bytes from offset `src` to offset `dst` at the end of
        `mem_resize`, done from a snapshot so that overlapping ranges are
        copied as if through a temporary buffer. */
    method Move(src: nat, dst: nat, n: nat)
      requires src + n <= arena.Length && dst + n <= arena.Length
      modifies arena
      ensures arena[..] == Arena.MoveBytes(old(arena[..]), src, dst, n)
    {
      var snapshot := arena[..];
      forall k | 0 <= k < n {
        arena[dst + k] := snapshot[src + k];
      }
      assert arena[..] == Arena.MoveBytes(snapshot, src, dst, n);
    }

    /** `mem_deinit()`: releases the arena, unlinks every node and sets
        `memory_size` to 0; `memory` itself keeps its old, now dangling, value. */
    method Deinit()
      modifies this
      ensures Valid() && Abstract() == Arena.Deinit(old(Abstract()))
      ensures fresh(arena)
    {
      arena := new bv8[0];
      while blocks != []
        invariant hasArena == old(hasArena) && capacity == old(capacity)
        invariant fresh(arena) && arena.Length == 0
        decreases |blocks|
      {
        blocks := blocks[1..];
      }
      capacity := 0;
    }
  }
}
