/**
 * The allocator of memory_manager.c as a state machine over values: the
 * globals `memory` (whether it is non-NULL), `memory_size` and the list under
 * `memory_head`, and one function per public operation giving the next state
 * and the returned pointer. The class in memory_manager.dfy is proved to
 * follow these functions step by step.
 */
module Arena {
  import opened Wrappers
  import opened BlockList

  /** The allocator's globals. `hasArena` is `memory != NULL`, `capacity` is
      `memory_size`, `blocks` is the list under `memory_head` in list order. */
  datatype State = State(hasArena: bool, capacity: nat, blocks: seq<Block>)

  /** What holds between any two operations: the list is ordered and inside
      the arena, and blocks exist only once an arena was obtained. */
  predicate Valid(s: State) {
    Ordered(s.blocks, s.capacity) && (s.blocks != [] ==> s.hasArena)
  }

  /** The zero-initialised globals before the first `mem_init`. */
  function Uninitialized(): (s: State) {
    State(false, 0, [])
  }

  /** `mem_init(size)`: a fresh arena of `size` bytes and an empty list. The
      nodes of a previous list are dropped, not freed. */
  function Init(size: nat): (s: State) {
    State(true, size, [])
  }

  /** `mem_alloc(size)`: the next state and the returned pointer. NULL when
      there is no arena or `size` exceeds the capacity; the base offset, with
      no block, for `size == 0`; otherwise a new block at the start of the
      first gap that holds `size` bytes, or NULL when there is none. */
  function Alloc(s: State, size: nat): (r: (State, Option<nat>)) {
    if !s.hasArena || size > s.capacity then (s, None)
    else if size == 0 then (s, Some(0))
    else match FirstFit(s.blocks, s.capacity, size, 0)
      case None => (s, None)
      case Some(i) =>
        var o := GapStart(s.blocks, i);
        (s.(blocks := Insert(s.blocks, i, Block(o, o + size))), Some(o))
  }

  /** `mem_free(h)`: unlinks the first block that starts at `h`; NULL and a
      pointer that starts no block leave the state as it is. */
  function Free(s: State, h: Option<nat>): (t: State) {
    if h.None? then s
    else match FindStart(s.blocks, h.value, 0)
      case None => s
      case Some(i) => s.(blocks := RemoveAt(s.blocks, i))
  }

  /** `mem_resize(h, size)`: the next state and the returned pointer. Size 0
      frees `h` and returns NULL; a NULL `h` is a plain allocation; a pointer
      that starts no block returns NULL. Otherwise the block is freed and
      `size` bytes are allocated by first fit; when that fails, the old size is
      allocated again by first fit and NULL is returned. */
  function Resize(s: State, h: Option<nat>, size: nat): (r: (State, Option<nat>)) {
    if size == 0 then (Free(s, h), None)
    else if h.None? then Alloc(s, size)
    else match FindStart(s.blocks, h.value, 0)
      case None => (s, None)
      case Some(i) =>
        var freed := Free(s, h);
        var (t, p) := Alloc(freed, size);
        if p.None? then (Alloc(freed, s.blocks[i].Size()).0, None)
        else (t, p)
  }

  /** How many bytes `mem_resize(h, size)` copies from `h` to the returned
      pointer: the smaller of the old and new sizes when the block moved,
      nothing otherwise. */
  function ResizeCopyLength(s: State, h: Option<nat>, size: nat): (n: nat) {
    if size == 0 || h.None? then 0
    else match FindStart(s.blocks, h.value, 0)
      case None => 0
      case Some(i) =>
        var old_size := s.blocks[i].Size();
        var p := Resize(s, h, size).1;
        if p.None? || p == h then 0
        else if size <= old_size then size
        else old_size
  }

  /** The arena bytes after copying `n` bytes from offset `src` to offset
      `dst`, reading every byte before writing any (a move). */
  function MoveBytes(bytes: seq<bv8>, src: nat, dst: nat, n: nat): (r: seq<bv8>)
    requires src + n <= |bytes| && dst + n <= |bytes|
    ensures |r| == |bytes|
    ensures forall j :: dst <= j < dst + n ==> r[j] == bytes[src + (j - dst)]
    ensures forall j :: 0 <= j < |bytes| && !(dst <= j < dst + n) ==> r[j] == bytes[j]
  {
    seq(|bytes|, j requires 0 <= j < |bytes| =>
      if dst <= j < dst + n then bytes[src + (j - dst)] else bytes[j])
  }

  /** `mem_deinit()`: the list is emptied and `memory_size` becomes 0. The arena
      is released but `memory` is not reset to NULL. */
  function Deinit(s: State): (t: State) {
    s.(capacity := 0, blocks := [])
  }
}
