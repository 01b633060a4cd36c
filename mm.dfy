/** The allocator's public entry points on its whole state: `mm_init`,
    `malloc` and `free` (mm.c:166-331). The state is the heap words with the
    `root` and `leaf` arrays, the break of the arena, `heap_start`, and the
    two views the words encode: the block layout and the free lists. */
module Mm {
  import opened Options
  import opened Codec
  import opened Sizes
  import opened FreeLists
  import opened HeapModel
  import opened LinkModel
  import opened Layout
  import opened FreeOp
  import opened AllocateOp
  import opened CoalesceOp
  import opened SplitOp
  import opened FitModel
  import opened ExtendOp

  /** The allocator's globals. `start` is `heap_start`: NULL before
      `mm_init` has written the prologue, word 1 afterwards. */
  datatype State = State(heap: Heap, brk: nat, start: nat, blocks: seq<nat>, lists: seq<seq<nat>>)

  /** `root` and `leaf` as the program starts: static arrays of NULL. */
  function Nulls(): (r: seq<nat>)
    ensures |r| == NUM && forall c :: 0 <= c < NUM ==> r[c] == NULL
  {
    seq(NUM, _ => NULL)
  }

  /** Twelve empty free lists. */
  function NoLists(): (r: seq<seq<nat>>)
    ensures |r| == NUM && forall c :: 0 <= c < NUM ==> r[c] == []
  {
    seq(NUM, _ => [])
  }

  /** The heap has been set up and keeps the whole invariant. */
  ghost predicate Live(st: State) {
    st.start == 1 && Inv(st.heap.mem, st.brk, st.heap.root, st.heap.leaf, st.blocks, st.lists, -1)
  }

  /** A state the program can be in: before `mm_init` the arena is empty and
      the list arrays hold NULL; afterwards the heap is live. */
  ghost predicate Good(st: State) {
    if st.start == NULL then
      st.brk == 0 && |st.heap.mem| <= MAX_WORDS && st.heap.root == Nulls() && st.heap.leaf == Nulls() &&
      st.blocks == [] && st.lists == NoLists()
    else Live(st)
  }

  // ---------------------------------------------------------------------
  // mm_init

  /** The prologue and the epilogue `mm_init` writes into its first two
      words; `heap_start` becomes word 1. */
  function Bare(st: State): (r: State)
    requires 2 <= |st.heap.mem|
  {
    var w := Pack(0, false, true, true);
    State(Heap(st.heap.mem[0 := w][1 := w], st.heap.root, st.heap.leaf), 2, 1, [], NoLists())
  }

  /** `initialize_list(root, leaf, block)` and the two NULL links written
      after it. */
  function InitializeList(s: Heap, block: nat): (r: Heap)
    requires block + 2 < |s.mem|
  {
    Heap(s.mem[block + 2 := NULL][block + 1 := NULL], Nulls()[0 := block], Nulls()[0 := block])
  }

  /** The result of `mm_init` and the state it leaves. */
  datatype Started = Started(ok: bool, st: State)

  /** `mm_init`, called while `heap_start` is NULL: fails with nothing
      written when two words cannot be had, fails with an empty heap when
      the first chunk cannot be had, and otherwise leaves one free chunk. */
  ghost function Init(st: State): (r: Started)
    requires Good(st) && st.start == NULL
  {
    if |st.heap.mem| < 2 then Started(false, st)
    else
      var b := Bare(st);
      BareLive(st);
      match Extend(b.heap, 2, [], NoLists(), CHUNKSIZE)
      case None => Started(false, b)
      case Some(m) =>
        InitChunk(st);
        Started(true, State(InitializeList(m.s, m.block), GrowBrk(2, CHUNKSIZE), 1, m.blocks, m.lists))
  }

  /** The empty heap: the prologue, then the epilogue at word 1. */
  lemma BareLive(st: State)
    requires Good(st) && st.start == NULL && 2 <= |st.heap.mem|
    ensures Live(Bare(st))
  {
    var b := Bare(st);
    SentinelWord();
    PackRoundTrip(0, false, true, true);
    assert b.heap.mem[0] == 3 && b.heap.mem[1] == 3;
    forall c | 0 <= c < NUM
      ensures EndsOK(b.heap.root, b.heap.leaf, b.lists, c)
    {
    }
  }

  /** The first chunk: `extend_heap` on the empty heap gives one free block
      at word 1 holding the whole chunk, alone in list 0, with NULL links;
      so `initialize_list` and the NULL writes change nothing. */
  lemma InitChunk(st: State)
    requires Good(st) && st.start == NULL && 2 <= |st.heap.mem|
    ensures Live(Bare(st))
    ensures var b := Bare(st);
      var e := Extend(b.heap, 2, [], NoLists(), CHUNKSIZE);
      e.Some? ==>
        e.value.block == 1 && e.value.blocks == [1] && e.value.lists == PushLists(NoLists(), 0, 1) &&
        3 < |e.value.s.mem| && !AllocAt(e.value.s.mem, 1) && SizeAt(e.value.s.mem, 1) == CHUNKSIZE &&
        InitializeList(e.value.s, 1) == e.value.s &&
        Inv(e.value.s.mem, GrowBrk(2, CHUNKSIZE), e.value.s.root, e.value.s.leaf, e.value.blocks, e.value.lists, -1)
  {
    BareLive(st);
    var b := Bare(st);
    var e := Extend(b.heap, 2, [], NoLists(), CHUNKSIZE);
    if e.Some? {
      ExtendInv(b.heap, 2, [], NoLists(), CHUNKSIZE);
      FirstChunk(b.heap);
      OneBlockLinks(e.value.s, GrowBrk(2, CHUNKSIZE));
    }
  }

  /** Coalescing the first chunk finds both neighbours allocated: the
      prologue before it and the epilogue after it. */
  lemma FirstChunk(s: Heap)
    requires Inv(s.mem, 2, s.root, s.leaf, [], NoLists(), -1) && CanGrow(s.mem, 2, CHUNKSIZE)
    ensures var g := Grow(s, 2, [], NoLists(), CHUNKSIZE);
      Extend(s, 2, [], NoLists(), CHUNKSIZE) == Some(Merged(g, [1], PushLists(NoLists(), 0, 1), 1)) &&
      1 < |g.mem| && SizeAt(g.mem, 1) == CHUNKSIZE
  {
    GrowReady(s, 2, [], NoLists(), CHUNKSIZE);
    GrowFirst();
    LoneBlock(Grow(s, 2, [], NoLists(), CHUNKSIZE), GrowBrk(2, CHUNKSIZE), [1], PushLists(NoLists(), 0, 1));
  }

  /** The first chunk is one block at word 1, in list 0, of exactly
      `chunksize` bytes. */
  lemma GrowFirst()
    ensures GrowBlocks([], 2) == [1] && GrowLists(NoLists(), 2, CHUNKSIZE) == PushLists(NoLists(), 0, 1)
    ensures GrowSize(CHUNKSIZE) == CHUNKSIZE
  {
    assert GrowBlocks([], 2) == [1];
  }

  /** A lone block lies between the prologue and the epilogue, so
      `coalesce_block` leaves it alone (case 1). */
  lemma LoneBlock(s: Heap, brk: nat, blocks: seq<nat>, lists: seq<seq<nat>>)
    requires Ready(s, brk, blocks, lists, 0) && |blocks| == 1
    ensures Coalesce(s, brk, blocks, lists, 0) == Merged(s, blocks, lists, blocks[0])
  {
    NeighbourHeaders(s, brk, blocks, lists, 0);
    assert FirstBits(s.mem, brk, blocks);
  }

  /** A heap whose only free block is word 1, listed alone in list 0, has
      `root` and `leaf` as `initialize_list` writes them and NULL links. */
  lemma OneBlockLinks(s: Heap, brk: nat)
    requires LinksOK(s.mem, s.root, s.leaf, PushLists(NoLists(), 0, 1))
    ensures 3 < |s.mem| && InitializeList(s, 1) == s
  {
    var L := PushLists(NoLists(), 0, 1);
    assert EntryLinked(s.mem, L[0], 0, 0);
    forall c | 0 <= c < NUM
      ensures s.root[c] == Nulls()[0 := 1][c] && s.leaf[c] == Nulls()[0 := 1][c]
    {
      assert EndsOK(s.root, s.leaf, L, c);
    }
    assert s.mem[3 := NULL][2 := NULL] == s.mem;
  }

  /** `mm_init` fails exactly when the arena cannot hold the two sentinel
      words and the first chunk; either way the state is well formed, and
      on success the heap is one free chunk listed alone in list 0. */
  lemma InitInv(st: State)
    requires Good(st) && st.start == NULL
    ensures Good(Init(st).st)
    ensures Init(st).ok <==> 2 + CHUNKSIZE / WSIZE <= |st.heap.mem|
    ensures Init(st).ok ==>
      var s := Init(st).st;
      s.start == 1 && s.brk == 2 + CHUNKSIZE / WSIZE && s.blocks == [1] && s.lists == PushLists(NoLists(), 0, 1) &&
      !AllocAt(s.heap.mem, 1) && SizeAt(s.heap.mem, 1) == CHUNKSIZE
    ensures !Init(st).ok ==> Init(st).st.blocks == []
  {
    if 2 <= |st.heap.mem| {
      BareLive(st);
      InitChunk(st);
      ExtendInv(Bare(st).heap, 2, [], NoLists(), CHUNKSIZE);
      assert GrowSize(CHUNKSIZE) == CHUNKSIZE;
    }
  }

  // ---------------------------------------------------------------------
  // malloc

  /** The result of `malloc`: the state it leaves and the payload's word
      index, or NULL. */
  datatype Reply = Reply(st: State, p: nat)

  /** Block i of a live heap is free and holds a block of `asize` bytes. */
  ghost predicate Fitting(st: State, i: nat, asize: nat) {
    Live(st) && i < |st.blocks| && !AllocAt(st.heap.mem, st.blocks[i]) &&
    asize % 16 == 0 && MIN_BLOCK_SIZE <= asize <= SizeAt(st.heap.mem, st.blocks[i])
  }

  /** The block after a free block is allocated (it is the epilogue or, by
      the invariant, not free), and the placement keeps that bit; so
      `split_block` finds what it needs. */
  lemma PlaceReady(st: State, i: nat, asize: nat)
    requires Fitting(st, i, asize)
    ensures Placeable(st.heap, st.brk, st.blocks, st.lists, i)
    ensures var a := Allocate(st.heap, st.brk, st.blocks, st.lists, i);
      SplitReady(a, st.brk, st.blocks, Taken(st.heap, st.brk, st.blocks, st.lists, i), i, asize)
  {
    var s := st.heap;
    var n := Succ(st.blocks, st.brk, i);
    PlaceBounds(s, st.brk, st.blocks, st.lists, i);
    AllocateInv(s, st.brk, st.blocks, st.lists, i);
    AllocateStage(s, st.brk, st.blocks, st.lists, i);
    SetPrevAllocFacts(s.mem[n]);
    if i + 1 < |st.blocks| {
      assert PairOK(s.mem, st.brk, st.blocks, i);
    } else {
      assert Sentinels(s.mem, st.brk);
    }
  }

  /** The placement (mm.c:242-266) and `split_block`: block i becomes an
      allocated block of `asize` bytes; the payload starts one word after
      its header. */
  ghost function Place(st: State, i: nat, asize: nat): (r: Reply)
    requires Fitting(st, i, asize)
  {
    PlaceReady(st, i, asize);
    var a := Allocate(st.heap, st.brk, st.blocks, st.lists, i);
    var L := Taken(st.heap, st.brk, st.blocks, st.lists, i);
    Reply(State(Split(a, st.brk, st.blocks, L, i, asize), st.brk, 1,
                SplitLayout(a.mem, st.blocks, i, asize), SplitLists(a, st.brk, st.blocks, L, i, asize)),
          st.blocks[i] + 1)
  }

  /** `malloc` on a live heap, from the adjusted size on: the first fit,
      or else a grown heap, and then the placement. */
  ghost function MallocLive(st: State, size: Word): (r: Reply)
    requires Live(st) && size != 0
  {
    match AdjustedSize(size)
    case None => Reply(st, NULL)
    case Some(asize) =>
      AdjustedSizeSpec(size);
      var b := FindFitSpec(st.heap.mem, st.lists, asize);
      if b != NULL then
        FindFitSound(st.heap.mem, st.blocks, st.lists, asize);
        Place(st, IndexOf(st.blocks, b), asize)
      else
        var grow := Max(asize, CHUNKSIZE);
        ExtendInv(st.heap, st.brk, st.blocks, st.lists, grow);
        match Extend(st.heap, st.brk, st.blocks, st.lists, grow)
        case None => Reply(st, NULL)
        case Some(m) =>
          var st2 := State(m.s, GrowBrk(st.brk, grow), 1, m.blocks, m.lists);
          Place(st2, IndexOf(m.blocks, m.block), asize)
  }

  /** `malloc(size)`: sets the heap up first if `heap_start` is NULL, and
      ignores whether that worked; a zero request gives NULL. When even
      the two sentinel words could not be had there is no heap, and the
      request gives NULL. */
  ghost function Malloc(st: State, size: Word): (r: Reply)
    requires Good(st)
  {
    var st1 := SetUp(st);
    if size == 0 || st1.start == NULL then Reply(st1, NULL)
    else MallocLive(st1, size)
  }

  /** The state after `malloc`'s first step: `mm_init` when `heap_start`
      is NULL, whatever its result. */
  ghost function SetUp(st: State): (r: State)
    requires Good(st)
    ensures Good(r)
  {
    if st.start == NULL then
      InitInv(st);
      Init(st).st
    else st
  }

  /** What the placement gives: a well-formed heap in which block i is an
      allocated block of exactly `asize` bytes at an odd word. */
  lemma PlaceInv(st: State, i: nat, asize: nat)
    requires Fitting(st, i, asize)
    ensures var r := Place(st, i, asize);
      Live(r.st) && r.p == st.blocks[i] + 1 && r.p % 2 == 0 &&
      st.blocks[i] in r.st.blocks && st.blocks[i] < |r.st.heap.mem| &&
      AllocAt(r.st.heap.mem, st.blocks[i]) && SizeAt(r.st.heap.mem, st.blocks[i]) == asize
  {
    FreeBounds(st.heap.mem, st.brk, st.heap.root, st.heap.leaf, st.blocks, st.lists, i);
    var h := st.blocks[i];
    assert (h + 1) % 2 == 0 by {
      assert h == 2 * (h / 2) + 1;
    }
    PlaceReady(st, i, asize);
    var a := Allocate(st.heap, st.brk, st.blocks, st.lists, i);
    var L := Taken(st.heap, st.brk, st.blocks, st.lists, i);
    SplitInv(a, st.brk, st.blocks, L, i, asize);
    if Cuts(a.mem, st.blocks[i], asize) {
      SpliceFacts(st.blocks, i, [st.blocks[i], Tail(st.blocks[i], asize)], i + 1);
      assert SplitLayout(a.mem, st.blocks, i, asize)[i] == st.blocks[i];
    }
  }

  /** What `malloc` leaves alone: every block allocated before is still
      there, allocated and of the same size, and a block it returns was
      not allocated before. */
  ghost predicate Spares(st: State, r: Reply) {
    KeepsAllocated(st.heap.mem, st.blocks, r.st.heap.mem, r.st.blocks, -1) &&
    (r.p != NULL && r.p - 1 in st.blocks && r.p - 1 < |st.heap.mem| ==> !AllocAt(st.heap.mem, r.p - 1))
  }

  /** The placement spares the blocks allocated before: `place` rewrites
      only block i, which was free, and the free tail it may cut off. */
  lemma PlaceSpares(st: State, i: nat, asize: nat)
    requires Fitting(st, i, asize)
    ensures Spares(st, Place(st, i, asize))
  {
    PlaceReady(st, i, asize);
    var a := Allocate(st.heap, st.brk, st.blocks, st.lists, i);
    var L := Taken(st.heap, st.brk, st.blocks, st.lists, i);
    AllocateKeeps(st.heap, st.brk, st.blocks, st.lists, i);
    SplitKeeps(a, st.brk, st.blocks, L, i, asize);
    var r := Place(st, i, asize);
    KeepsAllocatedTrans(st.heap.mem, st.blocks, a.mem, st.blocks, r.st.heap.mem, r.st.blocks, -1, st.blocks[i]);
  }

  /** What `malloc` promises for a request of `size` bytes: the state
      stays well formed, and a payload it returns is 16-byte aligned (an
      even word) and lies in an allocated block of the least multiple of
      16 that holds the request and its header. */
  ghost predicate Served(r: Reply, size: nat) {
    Good(r.st) &&
    (r.p != NULL ==>
       r.p % 2 == 0 && r.p - 1 in r.st.blocks && r.p - 1 < |r.st.heap.mem| &&
       AllocAt(r.st.heap.mem, r.p - 1) &&
       size + WSIZE <= SizeAt(r.st.heap.mem, r.p - 1) < size + WSIZE + DSIZE)
  }

  /** The placement of an adjusted request serves it. */
  lemma PlaceServes(st: State, i: nat, size: Word)
    requires Adjustable(size) && Fitting(st, i, AdjustedSize(size).value)
    ensures Served(Place(st, i, AdjustedSize(size).value), size)
  {
    AdjustedSizeSpec(size);
    PlaceInv(st, i, AdjustedSize(size).value);
  }

  /** `malloc` on a live heap serves the request and spares the blocks
      allocated before, and a request it cannot serve leaves the heap as
      it was. */
  lemma MallocLiveInv(st: State, size: Word)
    requires Live(st) && size != 0
    ensures Served(MallocLive(st, size), size)
    ensures Spares(st, MallocLive(st, size))
    ensures MallocLive(st, size).p == NULL ==> MallocLive(st, size).st == st
  {
    MallocLiveServes(st, size);
    MallocLiveSpares(st, size);
  }

  /** `malloc` on a live heap serves the request, and a request it cannot
      serve leaves the heap as it was. */
  lemma MallocLiveServes(st: State, size: Word)
    requires Live(st) && size != 0
    ensures Served(MallocLive(st, size), size)
    ensures MallocLive(st, size).p == NULL ==> MallocLive(st, size).st == st
  {
    if Adjustable(size) {
      var asize := AdjustedSize(size).value;
      AdjustedSizeSpec(size);
      var b := FindFitSpec(st.heap.mem, st.lists, asize);
      if b != NULL {
        FindFitSound(st.heap.mem, st.blocks, st.lists, asize);
        PlaceServes(st, IndexOf(st.blocks, b), size);
      } else {
        var grow := Max(asize, CHUNKSIZE);
        ExtendInv(st.heap, st.brk, st.blocks, st.lists, grow);
        var e := Extend(st.heap, st.brk, st.blocks, st.lists, grow);
        if e.Some? {
          var m := e.value;
          PlaceServes(State(m.s, GrowBrk(st.brk, grow), 1, m.blocks, m.lists), IndexOf(m.blocks, m.block), size);
        }
      }
    }
  }

  /** `malloc` on a live heap spares the blocks allocated before: the
      first fit was free, and a grown heap keeps every allocated block and
      offers a free one. */
  lemma MallocLiveSpares(st: State, size: Word)
    requires Live(st) && size != 0
    ensures Spares(st, MallocLive(st, size))
  {
    if Adjustable(size) {
      var asize := AdjustedSize(size).value;
      AdjustedSizeSpec(size);
      var b := FindFitSpec(st.heap.mem, st.lists, asize);
      if b != NULL {
        FindFitSound(st.heap.mem, st.blocks, st.lists, asize);
        PlaceSpares(st, IndexOf(st.blocks, b), asize);
      } else {
        GrowSpares(st, size);
      }
    }
  }

  /** When no free block fits, the grown heap keeps every allocated block
      and the block placed in it was not allocated before. */
  lemma GrowSpares(st: State, size: Word)
    requires Live(st) && size != 0 && Adjustable(size)
    requires FindFitSpec(st.heap.mem, st.lists, AdjustedSize(size).value) == NULL
    ensures Spares(st, MallocLive(st, size))
  {
    var asize := AdjustedSize(size).value;
    AdjustedSizeSpec(size);
    var grow := Max(asize, CHUNKSIZE);
    ExtendInv(st.heap, st.brk, st.blocks, st.lists, grow);
    ExtendKeeps(st.heap, st.brk, st.blocks, st.lists, grow);
    var e := Extend(st.heap, st.brk, st.blocks, st.lists, grow);
    if e.Some? {
      var m := e.value;
      var st2 := State(m.s, GrowBrk(st.brk, grow), 1, m.blocks, m.lists);
      PlaceSpares(st2, IndexOf(m.blocks, m.block), asize);
      var r := MallocLive(st, size);
      KeepsAllocatedTrans(st.heap.mem, st.blocks, m.s.mem, m.blocks, r.st.heap.mem, r.st.blocks, -1, -1);
    }
  }

  /** `malloc` serves every request on a well-formed state and spares the
      blocks allocated before. A zero request gives NULL, and a failed
      request leaves a live heap as it was. */
  lemma MallocInv(st: State, size: Word)
    requires Good(st)
    ensures Served(Malloc(st, size), size)
    ensures Spares(st, Malloc(st, size))
    ensures size == 0 ==> Malloc(st, size).p == NULL
    ensures st.start != NULL && Malloc(st, size).p == NULL ==> Malloc(st, size).st == st
  {
    var st1 := SetUp(st);
    if size != 0 && st1.start != NULL {
      MallocLiveInv(st1, size);
    }
  }

  /** Payloads never overlap: a block `malloc` returns is not a block that
      was allocated before, and in the new heap it ends at or before the
      header of every such block above it and starts at or after the end
      of every such block below it. */
  lemma MallocDisjoint(st: State, size: Word, b: nat)
    requires Good(st) && b in st.blocks && b < |st.heap.mem| && AllocAt(st.heap.mem, b)
    requires Malloc(st, size).p != NULL
    ensures var r := Malloc(st, size); var h := r.p - 1;
      b != h && b in r.st.blocks && h < |r.st.heap.mem| &&
      (b < h ==> b + WidthAt(r.st.heap.mem, b) <= h) &&
      (h < b ==> h + WidthAt(r.st.heap.mem, h) <= b)
  {
    MallocInv(st, size);
    ServedApart(st, Malloc(st, size), size, b);
  }

  /** A served reply that spares an allocated block b lies apart from it. */
  lemma ServedApart(st: State, r: Reply, size: nat, b: nat)
    requires Served(r, size) && Spares(st, r) && r.p != NULL
    requires b in st.blocks && b < |st.heap.mem| && AllocAt(st.heap.mem, b)
    ensures var h := r.p - 1;
      b != h && b in r.st.blocks && h < |r.st.heap.mem| &&
      (b < h ==> b + WidthAt(r.st.heap.mem, b) <= h) &&
      (h < b ==> h + WidthAt(r.st.heap.mem, h) <= b)
  {
    var h := r.p - 1;
    assert Live(r.st);
    if b < h {
      SpansDisjoint(r.st.heap.mem, r.st.brk, r.st.blocks, b, h);
    } else if h < b {
      SpansDisjoint(r.st.heap.mem, r.st.brk, r.st.blocks, h, b);
    }
  }

  // ---------------------------------------------------------------------
  // free

  /** A pointer `free` accepts: NULL, or the payload of an allocated block
      of a live heap. */
  ghost predicate Freeable(st: State, p: nat) {
    p == NULL || (Live(st) && p - 1 in st.blocks && AllocAt(st.heap.mem, p - 1))
  }

  /** The class of the block at p - 1. */
  ghost function FreedClass(st: State, p: nat): (c: nat)
    requires Freeable(st, p) && p != NULL
    ensures c < NUM
  {
    var i := IndexOf(st.blocks, p - 1);
    FreeBounds(st.heap.mem, st.brk, st.heap.root, st.heap.leaf, st.blocks, st.lists, i);
    FindFreeList(SizeAt(st.heap.mem, p - 1)) as nat
  }

  /** The writes `free` makes at block h before `coalesce_block`: the
      header and footer say free, the block is pushed on its list, and the
      prev_alloc bit of the header n after it is cleared. */
  function Releasing(s: Heap, h: nat, n: nat): (r: Heap)
    requires HasRoom(s.mem, h)
    requires var m := MarkFree(s.mem, h);
      h + 2 < |m| <= MAX_WORDS && |s.root| == NUM && |s.leaf| == NUM &&
      0 <= ClassOf(m, h) && s.root[ClassOf(m, h)] + 2 < |m|
    requires var l := Link(Heap(MarkFree(s.mem, h), s.root, s.leaf), h);
      n < |l.mem| && (!ExtractAlloc(l.mem[n]) ==> HasRoom(l.mem, n))
  {
    var l := Link(Heap(MarkFree(s.mem, h), s.root, s.leaf), h);
    Heap(ClearNextPrevAlloc(l.mem, n), l.root, l.leaf)
  }

  /** `free` up to `coalesce_block` (mm.c:294-325) on the block at p - 1. */
  ghost function Released(st: State, p: nat): (r: Heap)
    requires Freeable(st, p) && p != NULL
  {
    FreeLinkable(st, p);
    Releasing(st.heap, p - 1, Succ(st.blocks, st.brk, IndexOf(st.blocks, p - 1)))
  }

  /** What `add_new_free_block` needs after the header rewrite, and what
      it amounts to: an insertion at the head of the block's class. */
  lemma FreeLinkable(st: State, p: nat)
    requires Freeable(st, p) && p != NULL
    ensures var s := st.heap; var h := p - 1; var i := IndexOf(st.blocks, h);
      HasRoom(s.mem, h) && h + 2 < |s.mem| <= MAX_WORDS &&
      |s.root| == NUM && |s.leaf| == NUM &&
      ClassOf(MarkFree(s.mem, h), h) == FreedClass(st, p) as int &&
      s.root[FreedClass(st, p)] + 2 < |s.mem| &&
      Link(Heap(MarkFree(s.mem, h), s.root, s.leaf), h) ==
        Heap(InsertLinks(MarkFree(s.mem, h), h, FreedClass(st, p), s.root[FreedClass(st, p)]),
             s.root[FreedClass(st, p) := h], PushLeaf(s.leaf, st.lists, FreedClass(st, p), h)) &&
      i < |st.blocks| && Succ(st.blocks, st.brk, i) < |s.mem| &&
      var m3 := Link(Heap(MarkFree(s.mem, h), s.root, s.leaf), h).mem;
      m3[Succ(st.blocks, st.brk, i)] == s.mem[Succ(st.blocks, st.brk, i)] &&
      (!ExtractAlloc(m3[Succ(st.blocks, st.brk, i)]) ==> HasRoom(m3, Succ(st.blocks, st.brk, i)))
  {
    var s := st.heap;
    var h := p - 1;
    var i := IndexOf(st.blocks, h);
    var c := FreedClass(st, p);
    FreeBounds(s.mem, st.brk, s.root, s.leaf, st.blocks, st.lists, i);
    RootFacts(s.mem, s.root, s.leaf, st.lists, c);
    PackRoundTrip(SizeAt(s.mem, h), PrevDsizeAt(s.mem, h), PrevAllocAt(s.mem, h), false);
    var m2 := MarkFree(s.mem, h);
    assert m2[h] == FreeWord(s.mem[h]);
    var m3 := InsertLinks(m2, h, c, s.root[c]);
    FreeStage(s.mem, st.brk, s.root, s.leaf, st.blocks, st.lists, i, c, m2, m3);
    SuccRoom(s.mem, st.brk, st.blocks, i);
  }

  /** After the steps before `coalesce_block` the heap is ready for it. */
  lemma FreeReady(st: State, p: nat)
    requires Freeable(st, p) && p != NULL
    ensures var i := IndexOf(st.blocks, p - 1);
      Ready(Released(st, p), st.brk, st.blocks, PushLists(st.lists, FreedClass(st, p), p - 1), i) &&
      SizeAt(Released(st, p).mem, p - 1) == SizeAt(st.heap.mem, p - 1)
  {
    var s := st.heap;
    var h := p - 1;
    var i := IndexOf(st.blocks, h);
    var c := FreedClass(st, p);
    FreeLinkable(st, p);
    FreeBounds(s.mem, st.brk, s.root, s.leaf, st.blocks, st.lists, i);
    var m2 := MarkFree(s.mem, h);
    var m3 := InsertLinks(m2, h, c, s.root[c]);
    FreeStage(s.mem, st.brk, s.root, s.leaf, st.blocks, st.lists, i, c, m2, m3);
    FreeKeepsInv(s.mem, st.brk, s.root, s.leaf, st.blocks, st.lists, i, c, m3, Released(st, p).mem);
  }

  /** The writes before `coalesce_block` touch block p - 1 and the header
      after it, whose size and alloc bit stay; so no other allocated block
      changes. */
  lemma ReleasedKeeps(st: State, p: nat)
    requires Freeable(st, p) && p != NULL
    ensures KeepsAllocated(st.heap.mem, st.blocks, Released(st, p).mem, st.blocks, p - 1)
  {
    var i := IndexOf(st.blocks, p - 1);
    ReleasedOutside(st, p);
    SpliceOne(st.blocks, i);
    WindowKeepsAllocated(st.heap.mem, st.brk, st.blocks, i, [p - 1], i + 1, Released(st, p).mem, st.brk, p - 1);
  }

  /** The writes before `coalesce_block` keep every tag outside block
      p - 1, and the kind of the block after it. */
  lemma ReleasedOutside(st: State, p: nat)
    requires Freeable(st, p) && p != NULL
    ensures var i := IndexOf(st.blocks, p - 1);
      i < |st.blocks| && st.blocks[i] == p - 1 &&
      KeepsOutside(st.heap.mem, st.brk, st.blocks, i, i + 1, Released(st, p).mem, st.brk)
  {
    var s := st.heap;
    var h := p - 1;
    var i := IndexOf(st.blocks, h);
    var c := FreedClass(st, p);
    FreeLinkable(st, p);
    FreeBounds(s.mem, st.brk, s.root, s.leaf, st.blocks, st.lists, i);
    var m2 := MarkFree(s.mem, h);
    var m3 := InsertLinks(m2, h, c, s.root[c]);
    FreeStage(s.mem, st.brk, s.root, s.leaf, st.blocks, st.lists, i, c, m2, m3);
    ClearNextStage(s.mem, st.brk, s.root[c := h], PushLeaf(s.leaf, st.lists, c, h), st.blocks,
                   PushLists(st.lists, c, h), i, m3, Released(st, p).mem);
  }

  /** `free(p)`: NULL is ignored; otherwise the block is released and
      coalesced with its free neighbours. */
  ghost function Free(st: State, p: nat): (r: State)
    requires Freeable(st, p)
  {
    if p == NULL then st
    else
      FreeReady(st, p);
      var m := Coalesce(Released(st, p), st.brk, st.blocks, PushLists(st.lists, FreedClass(st, p), p - 1),
                        IndexOf(st.blocks, p - 1));
      State(m.s, st.brk, 1, m.blocks, m.lists)
  }

  /** `free` keeps the state well formed and leaves the break alone;
      `free(NULL)` changes nothing; otherwise the freed block lies inside
      a free block at least as large, and every other allocated block
      stays, allocated and of the same size. */
  lemma FreeInv(st: State, p: nat)
    requires Good(st) && Freeable(st, p)
    ensures Good(Free(st, p)) && Free(st, p).brk == st.brk
    ensures p == NULL ==> Free(st, p) == st
    ensures p != NULL ==>
      var r := Free(st, p);
      p - 1 < |st.heap.mem| &&
      exists b :: b in r.blocks && b < |r.heap.mem| && !AllocAt(r.heap.mem, b) &&
        b <= p - 1 < b + WidthAt(r.heap.mem, b) && SizeAt(st.heap.mem, p - 1) <= SizeAt(r.heap.mem, b)
    ensures KeepsAllocated(st.heap.mem, st.blocks, Free(st, p).heap.mem, Free(st, p).blocks, p - 1)
  {
    if p != NULL {
      FreeReady(st, p);
      var i := IndexOf(st.blocks, p - 1);
      var L := PushLists(st.lists, FreedClass(st, p), p - 1);
      CoalesceInv(Released(st, p), st.brk, st.blocks, L, i);
      var m := Coalesce(Released(st, p), st.brk, st.blocks, L, i);
      assert m.block in m.blocks;
      ReleasedKeeps(st, p);
      KeepsAllocatedTrans(st.heap.mem, st.blocks, Released(st, p).mem, st.blocks, m.s.mem, m.blocks, p - 1, -1);
    }
  }
}
