/** The allocator as the program runs it: the arena is an array of words
    that the routines of mm.c update in place, `root` and `leaf` are the two
    arrays of list ends, and `brk` and `heap_start` are the globals. Each
    method is proved to leave exactly the state that the corresponding
    function of the value model describes, so every property proved about
    those functions holds of the running allocator. */
module Allocator {
  import opened Options
  import opened Codec
  import opened Sizes
  import opened FreeLists
  import opened HeapModel
  import opened LinkModel
  import opened FitModel
  import opened Layout
  import opened CoalesceOp
  import opened FreeOp
  import opened AllocateOp
  import opened SplitOp
  import opened ExtendOp
  import Mm

  /** The preconditions of `Link`: h is a block with room for both link
      words, its size has a class, and that class's root is in the heap. */
  ghost predicate Linkable(s: Heap, h: nat) {
    h + 2 < |s.mem| <= MAX_WORDS && |s.root| == NUM && |s.leaf| == NUM &&
    0 <= ClassOf(s.mem, h) && s.root[ClassOf(s.mem, h)] + 2 < |s.mem|
  }

  /** What `free` needs to release the block at `block` whose successor's
      header is at n: room for its tags, a class to push it on, and the
      header n still in place after the push. */
  ghost predicate Releasable(s: Heap, block: nat, n: nat) {
    block != NULL && HasRoom(s.mem, block) && Linkable(Heap(MarkFree(s.mem, block), s.root, s.leaf), block) &&
    var l := Link(Heap(MarkFree(s.mem, block), s.root, s.leaf), block);
    n < |l.mem| && (!ExtractAlloc(l.mem[n]) ==> HasRoom(l.mem, n))
  }

  /** h is listed in the list of its own class, whose link words are sound. */
  ghost predicate Unlinkable(s: Heap, lists: seq<seq<nat>>, h: nat) {
    LinksOK(s.mem, s.root, s.leaf, lists) && |s.mem| <= MAX_WORDS && h < |s.mem| &&
    0 <= ClassOf(s.mem, h) && h in lists[ClassOf(s.mem, h)]
  }

  /** Outside list 11, the neighbours `Unlink` reads off the abstract list
      are the block's own `next` and `prev` words. */
  lemma UnlinkByWords(s: Heap, lists: seq<seq<nat>>, h: nat)
    requires Unlinkable(s, lists, h) && ClassOf(s.mem, h) != DSIZE_CLASS as int
    ensures h + 2 < |s.mem| && s.mem[h + 1] + 2 < |s.mem| && s.mem[h + 2] + 2 < |s.mem|
    ensures var c := ClassOf(s.mem, h) as nat;
      var nx := s.mem[h + 1];
      var pv := s.mem[h + 2];
      Unlink(s, lists, h) ==
        Heap(DeleteLinks(s.mem, c, pv, nx),
             s.root[c := if pv == NULL then nx else s.root[c]],
             s.leaf[c := if nx == NULL then pv else s.leaf[c]])
  {
    var c := ClassOf(s.mem, h) as nat;
    var l := lists[c];
    var k := IndexOf(l, h);
    assert EntryLinked(s.mem, l, c, k);
    if k > 0 {
      assert EntryLinked(s.mem, l, c, k - 1);
    }
    if k + 1 < |l| {
      assert EntryLinked(s.mem, l, c, k + 1);
    }
  }

  /** List 11 as `delete_dsize_free_block` relies on it: its ends are
      `root[11]` and `leaf[11]`, no block is in it twice, and each entry's
      `next` word names the entry after it. */
  ghost predicate DsizeChain(mem: Mem, root: seq<nat>, leaf: seq<nat>, l: seq<nat>) {
    |root| == NUM && |leaf| == NUM && |mem| <= MAX_WORDS &&
    root[DSIZE_CLASS] == Head(l) && leaf[DSIZE_CLASS] == Last(l) && Distinct(l) &&
    forall j :: 0 <= j < |l| ==> EntryLinked(mem, l, DSIZE_CLASS, j)
  }

  /** Unlinking h from list 11: its successor is its `next` word; its
      predecessor, which has no word of its own, is the entry before it. */
  ghost function DsizeUnlinked(s: Heap, l: seq<nat>, h: nat): Heap
    requires DsizeChain(s.mem, s.root, s.leaf, l) && h in l
  {
    var k := IndexOf(l, h);
    assert EntryLinked(s.mem, l, DSIZE_CLASS, k);
    var nx := s.mem[h + 1];
    if k == 0 then
      Heap(s.mem, s.root[DSIZE_CLASS := nx], s.leaf[DSIZE_CLASS := if nx == NULL then NULL else s.leaf[DSIZE_CLASS]])
    else
      assert EntryLinked(s.mem, l, DSIZE_CLASS, k - 1);
      Heap(s.mem[l[k - 1] + 1 := nx], s.root, s.leaf[DSIZE_CLASS := if nx == NULL then l[k - 1] else s.leaf[DSIZE_CLASS]])
  }

  /** For a block of list 11, `Unlink` is `DsizeUnlinked`. */
  lemma UnlinkDsize(s: Heap, lists: seq<seq<nat>>, h: nat)
    requires Unlinkable(s, lists, h) && ClassOf(s.mem, h) == DSIZE_CLASS as int
    ensures DsizeChain(s.mem, s.root, s.leaf, lists[DSIZE_CLASS]) && h in lists[DSIZE_CLASS]
    ensures Unlink(s, lists, h) == DsizeUnlinked(s, lists[DSIZE_CLASS], h)
  {
    var l := lists[DSIZE_CLASS];
    var k := IndexOf(l, h);
    assert EndsOK(s.root, s.leaf, lists, DSIZE_CLASS);
    assert EntryLinked(s.mem, l, DSIZE_CLASS, k);
    if k > 0 {
      assert EntryLinked(s.mem, l, DSIZE_CLASS, k - 1);
    }
    if k + 1 < |l| {
      assert EntryLinked(s.mem, l, DSIZE_CLASS, k + 1);
    }
  }

  // ---------------------------------------------------------------------
  // What `coalesce_block` reads, in terms of the merge model.

  /** The first deletion of a run, and the run that is left: the block can
      be unlinked, the rest stays deletable, and the last clause is one
      unfolding of `UnlinkAll`, which `UnlinkPair` and `UnlinkTriple` follow
      step by step. */
  lemma UnlinkFirst(s: Heap, brk: nat, blocks: seq<nat>, lists: seq<seq<nat>>, dels: seq<nat>)
    requires Deletable(s, brk, blocks, lists, dels) && |dels| > 0
    ensures Unlinkable(s, lists, dels[0])
    ensures Deletable(Unlink(s, lists, dels[0]), brk, blocks, Without(s.mem, lists, dels[0]), dels[1..])
    ensures UnlinkAll(s, brk, blocks, lists, dels) ==
              UnlinkAll(Unlink(s, lists, dels[0]), brk, blocks, Without(s.mem, lists, dels[0]), dels[1..])
  {
    UnlinkRest(s, brk, blocks, lists, dels);
  }

  /** The two deletions of a two-block window, one after the other: each
      block is listed when its turn comes, and the result is step 2 of the
      merge. */
  lemma UnlinkPair(s: Heap, brk: nat, blocks: seq<nat>, lists: seq<seq<nat>>, lo: nat, hi: nat, dels: seq<nat>)
    requires Mergeable(s, brk, blocks, lists, lo, hi, dels) && |dels| == 2
    ensures Unlinkable(Cleared(s, brk, blocks, hi), lists, dels[0])
    ensures var c0 := Cleared(s, brk, blocks, hi);
      Unlinkable(Unlink(c0, lists, dels[0]), Without(c0.mem, lists, dels[0]), dels[1])
    ensures var c0 := Cleared(s, brk, blocks, hi);
      Unlinked(s, brk, blocks, lists, lo, hi, dels).s ==
        Unlink(Unlink(c0, lists, dels[0]), Without(c0.mem, lists, dels[0]), dels[1])
  {
    var c0 := Cleared(s, brk, blocks, hi);
    ClearedDeletable(s, brk, blocks, lists, lo, hi, dels);
    UnlinkFirst(c0, brk, blocks, lists, dels);
    var c1 := Unlink(c0, lists, dels[0]);
    var L1 := Without(c0.mem, lists, dels[0]);
    UnlinkFirst(c1, brk, blocks, L1, dels[1..]);
    assert dels[1..][1..] == [];
  }

  /** The three deletions of a three-block window, in order. */
  lemma UnlinkTriple(s: Heap, brk: nat, blocks: seq<nat>, lists: seq<seq<nat>>, lo: nat, hi: nat, dels: seq<nat>)
    requires Mergeable(s, brk, blocks, lists, lo, hi, dels) && |dels| == 3
    ensures Unlinkable(Cleared(s, brk, blocks, hi), lists, dels[0])
    ensures var c0 := Cleared(s, brk, blocks, hi);
      Unlinkable(Unlink(c0, lists, dels[0]), Without(c0.mem, lists, dels[0]), dels[1])
    ensures var c0 := Cleared(s, brk, blocks, hi);
      var c1 := Unlink(c0, lists, dels[0]);
      var L1 := Without(c0.mem, lists, dels[0]);
      Unlinkable(Unlink(c1, L1, dels[1]), Without(c1.mem, L1, dels[1]), dels[2])
    ensures var c0 := Cleared(s, brk, blocks, hi);
      var c1 := Unlink(c0, lists, dels[0]);
      var L1 := Without(c0.mem, lists, dels[0]);
      Unlinked(s, brk, blocks, lists, lo, hi, dels).s == Unlink(Unlink(c1, L1, dels[1]), Without(c1.mem, L1, dels[1]), dels[2])
  {
    var c0 := Cleared(s, brk, blocks, hi);
    ClearedDeletable(s, brk, blocks, lists, lo, hi, dels);
    UnlinkFirst(c0, brk, blocks, lists, dels);
    var c1 := Unlink(c0, lists, dels[0]);
    var L1 := Without(c0.mem, lists, dels[0]);
    UnlinkFirst(c1, brk, blocks, L1, dels[1..]);
    var c2 := Unlink(c1, L1, dels[1]);
    var L2 := Without(c1.mem, L1, dels[1]);
    UnlinkFirst(c2, brk, blocks, L2, dels[1..][1..]);
    assert dels[1..][1..][1..] == [];
  }

  /** Clearing the dsize bit after the window and unlinking its blocks
      leave the headers of the window's blocks as they were. */
  lemma WindowKept(s: Heap, brk: nat, blocks: seq<nat>, lists: seq<seq<nat>>, lo: nat, hi: nat, dels: seq<nat>, t: nat)
    requires Mergeable(s, brk, blocks, lists, lo, hi, dels) && lo <= t < hi
    ensures var u := Unlinked(s, brk, blocks, lists, lo, hi, dels).s;
      blocks[t] < |s.mem| && u.mem[blocks[t]] == s.mem[blocks[t]]
  {
    var c := Cleared(s, brk, blocks, hi);
    ClearedDeletable(s, brk, blocks, lists, lo, hi, dels);
    UnlinkAllKeeps(c, brk, blocks, lists, dels);
    BeforeAt(s.mem, brk, blocks, t, hi);
    assert SameTags(c.mem, UnlinkAll(c, brk, blocks, lists, dels).s.mem, brk, blocks);
  }

  /** The merged block's header and footer are the two words `Written`
      changes, and linking it is `MergeWindow`'s last step. */
  lemma WindowLink(s: Heap, brk: nat, blocks: seq<nat>, lists: seq<seq<nat>>, lo: nat, hi: nat, dels: seq<nat>)
    requires Mergeable(s, brk, blocks, lists, lo, hi, dels)
    ensures var size := MergedSize(blocks, brk, lo, hi);
      WSIZE <= size < WORD_LIMIT && size % 16 == 0 && blocks[lo] + size / WSIZE <= |s.mem|
    ensures var u := Unlinked(s, brk, blocks, lists, lo, hi, dels).s;
      var p := blocks[lo];
      var w := Written(s, brk, blocks, lists, lo, hi, dels);
      w == Heap(WriteFree(u.mem, p, MergedSize(blocks, brk, lo, hi), PrevDsizeAt(s.mem, p), PrevAllocAt(s.mem, p)),
                u.root, u.leaf) &&
      Linkable(w, p) &&
      MergeWindow(s, brk, blocks, lists, lo, hi, dels).s == Link(w, p) &&
      MergeWindow(s, brk, blocks, lists, lo, hi, dels).block == p
  {
    MergeSizeFacts(s.mem, brk, blocks, lo, hi);
    var w := Written(s, brk, blocks, lists, lo, hi, dels);
    var u := Unlinked(s, brk, blocks, lists, lo, hi, dels);
    WrittenFacts(s, brk, blocks, lists, lo, hi, dels);
    var b2 := Splice(blocks, lo, [blocks[lo]], hi);
    LinkKeeps(w, brk, b2, u.lists, lo);
  }

  /** What the tail of every merging case needs: with the size, dsize bit
      and prev_alloc bit of the window's first block, header and footer fit
      the heap, the rewritten block can be linked, and linking it is the
      whole merge. */
  lemma JoinPlan(s: Heap, brk: nat, blocks: seq<nat>, lists: seq<seq<nat>>, lo: nat, hi: nat, dels: seq<nat>,
                 p: nat, size: nat, prevDsize: bool, prevAlloc: bool)
    requires Mergeable(s, brk, blocks, lists, lo, hi, dels) && p == blocks[lo]
    requires size == MergedSize(blocks, brk, lo, hi) && prevDsize == PrevDsizeAt(s.mem, p) && prevAlloc == PrevAllocAt(s.mem, p)
    ensures var u := Unlinked(s, brk, blocks, lists, lo, hi, dels).s;
      p != NULL && WSIZE <= size < WORD_LIMIT && size % 16 == 0 && p + size / WSIZE <= |u.mem| &&
      var w := Heap(WriteFree(u.mem, p, size, prevDsize, prevAlloc), u.root, u.leaf);
      Linkable(w, p) && MergeWindow(s, brk, blocks, lists, lo, hi, dels).s == Link(w, p)
    ensures MergeWindow(s, brk, blocks, lists, lo, hi, dels).block == p
  {
    WindowLink(s, brk, blocks, lists, lo, hi, dels);
    TiledFacts(s.mem, brk, blocks, lo);
  }


  /** `JoinPlan` for case 2: h and the block after it, the merged size
      added up as the source does. */
  lemma JoinPlanNext(s: Heap, brk: nat, blocks: seq<nat>, lists: seq<seq<nat>>, i: nat, dels: seq<nat>,
                     size: nat, prevDsize: bool, prevAlloc: bool)
    requires i + 2 <= |blocks|
    requires dels == [blocks[i], blocks[i + 1]] && Mergeable(s, brk, blocks, lists, i, i + 2, dels)
    requires size == SizeAt(s.mem, blocks[i]) + SizeAt(s.mem, blocks[i + 1])
    requires prevDsize == PrevDsizeAt(s.mem, blocks[i]) && prevAlloc == PrevAllocAt(s.mem, blocks[i])
    ensures NextHeader(s.mem, blocks[i + 1]) == At(blocks, brk, i + 2)
    ensures var u := Unlinked(s, brk, blocks, lists, i, i + 2, dels).s;
      var p := blocks[i];
      p != NULL && WSIZE <= size < WORD_LIMIT && size % 16 == 0 && p + size / WSIZE <= |u.mem| &&
      var w := Heap(WriteFree(u.mem, p, size, prevDsize, prevAlloc), u.root, u.leaf);
      Linkable(w, p) && MergeWindow(s, brk, blocks, lists, i, i + 2, dels).s == Link(w, p)
  {
    NextSizes(s.mem, brk, blocks, i);
    JoinPlan(s, brk, blocks, lists, i, i + 2, dels, blocks[i], size, prevDsize, prevAlloc);
  }

  /** `JoinPlan` for case 3: the block before h and h. */
  lemma JoinPlanPrev(s: Heap, brk: nat, blocks: seq<nat>, lists: seq<seq<nat>>, i: nat, dels: seq<nat>,
                     size: nat, prevDsize: bool, prevAlloc: bool)
    requires 1 <= i < |blocks|
    requires dels == [blocks[i], blocks[i - 1]] && Mergeable(s, brk, blocks, lists, i - 1, i + 1, dels)
    requires size == SizeAt(s.mem, blocks[i]) + SizeAt(s.mem, blocks[i - 1])
    requires prevDsize == PrevDsizeAt(s.mem, blocks[i - 1]) && prevAlloc == PrevAllocAt(s.mem, blocks[i - 1])
    ensures var u := Unlinked(s, brk, blocks, lists, i - 1, i + 1, dels).s;
      var p := blocks[i - 1];
      p != NULL && WSIZE <= size < WORD_LIMIT && size % 16 == 0 && p + size / WSIZE <= |u.mem| &&
      var w := Heap(WriteFree(u.mem, p, size, prevDsize, prevAlloc), u.root, u.leaf);
      Linkable(w, p) && MergeWindow(s, brk, blocks, lists, i - 1, i + 1, dels).s == Link(w, p)
  {
    PrevSizes(s.mem, brk, blocks, i);
    JoinPlan(s, brk, blocks, lists, i - 1, i + 1, dels, blocks[i - 1], size, prevDsize, prevAlloc);
  }

  /** `JoinPlan` for case 4: the blocks on both sides of h. */
  lemma JoinPlanBoth(s: Heap, brk: nat, blocks: seq<nat>, lists: seq<seq<nat>>, i: nat, dels: seq<nat>,
                     size: nat, prevDsize: bool, prevAlloc: bool)
    requires 1 <= i && i + 2 <= |blocks|
    requires dels == [blocks[i - 1], blocks[i], blocks[i + 1]] && Mergeable(s, brk, blocks, lists, i - 1, i + 2, dels)
    requires size == SizeAt(s.mem, blocks[i]) + SizeAt(s.mem, blocks[i + 1]) + SizeAt(s.mem, blocks[i - 1])
    requires prevDsize == PrevDsizeAt(s.mem, blocks[i - 1]) && prevAlloc == PrevAllocAt(s.mem, blocks[i - 1])
    ensures NextHeader(s.mem, blocks[i + 1]) == At(blocks, brk, i + 2)
    ensures var u := Unlinked(s, brk, blocks, lists, i - 1, i + 2, dels).s;
      var p := blocks[i - 1];
      p != NULL && WSIZE <= size < WORD_LIMIT && size % 16 == 0 && p + size / WSIZE <= |u.mem| &&
      var w := Heap(WriteFree(u.mem, p, size, prevDsize, prevAlloc), u.root, u.leaf);
      Linkable(w, p) && MergeWindow(s, brk, blocks, lists, i - 1, i + 2, dels).s == Link(w, p)
  {
    BothSizes(s.mem, brk, blocks, i);
    JoinPlan(s, brk, blocks, lists, i - 1, i + 2, dels, blocks[i - 1], size, prevDsize, prevAlloc);
  }

  /** Where `split_block` writes when it cuts block i: its four words lie
      inside block i, the tail ends at the header after block i, and the
      tail's header holds the rest of the size. */
  lemma SplitBounds(mem: Mem, brk: nat, blocks: seq<nat>, i: nat, asize: nat)
    requires Carvable(mem, brk, blocks, i, asize) && blocks[i] + WidthAt(mem, blocks[i]) <= |mem|
    ensures var h := blocks[i]; var q := Tail(h, asize); var rest := SizeAt(mem, h) - asize;
      h + 1 < q == h + asize / WSIZE && asize < WORD_LIMIT &&
      WSIZE <= rest < WORD_LIMIT && rest % 16 == 0 && q + rest / WSIZE == Succ(blocks, brk, i) < |mem| &&
      ExtractSize(Carve(mem, h, asize)[q]) == rest
  {
    CarveBounds(mem, brk, blocks, i, asize);
    PackRoundTrip(SizeAt(mem, blocks[i]) - asize, asize == DSIZE, true, false);
  }

  /** An unfolding of `Carve` with the tail's size named, so that `CarveAt`
      can follow its four writes one at a time. */
  lemma CarveWrites(mem: Mem, h: nat, asize: nat, rest: nat)
    requires h < |mem| && asize % 16 == 0 && MIN_BLOCK_SIZE <= asize && Cuts(mem, h, asize)
    requires h + WidthAt(mem, h) <= |mem| && SizeAt(mem, h) == asize + rest
    ensures var q := Tail(h, asize);
      var wa := Pack(asize, PrevDsizeAt(mem, h), PrevAllocAt(mem, h), true);
      var v := Pack(rest, asize == DSIZE, true, false);
      Carve(mem, h, asize) == mem[h := wa][q - 1 := wa][q := v][q + rest / WSIZE - 1 := v]
  {
  }

  /** What `split_block` relies on after its writes: the carved tail can
      be linked, linking it keeps the tail's header, and the header after
      the tail is that of an allocated block. */
  lemma SplitPlan(s: Heap, brk: nat, blocks: seq<nat>, lists: seq<seq<nat>>, i: nat, asize: nat)
    requires SplitReady(s, brk, blocks, lists, i, asize) && Cuts(s.mem, blocks[i], asize)
    ensures Carvable(s.mem, brk, blocks, i, asize) && blocks[i] + WidthAt(s.mem, blocks[i]) <= |s.mem|
    ensures var h := blocks[i]; var q := Tail(h, asize); var m := Carve(s.mem, h, asize);
      Linkable(Heap(m, s.root, s.leaf), q) &&
      var l := Link(Heap(m, s.root, s.leaf), q);
      l.mem[q] == m[q] && Succ(blocks, brk, i) < |l.mem| && ExtractAlloc(l.mem[Succ(blocks, brk, i)])
  {
    SplitOp.LinkStage(s, brk, blocks, lists, i, asize);
    var b2 := SplitBlocks(blocks, i, asize);
    assert b2[i + 1] == Tail(blocks[i], asize);
  }

  /** What `extend_heap`'s writes rely on when `mem_sbrk` succeeds: the
      new block over the old epilogue can be linked, linking it keeps its
      header, the new epilogue lies inside the arena, and the writes are
      the heap `Grow` describes. */
  lemma GrowPlan(s: Heap, brk: nat, blocks: seq<nat>, lists: seq<seq<nat>>, size: nat,
                  h: nat, asz: nat, prevDsize: bool, prevAlloc: bool)
    requires Growable(s, brk, blocks, lists, size)
    requires h == brk - 1 && asz == GrowSize(size) && h < |s.mem|
    requires prevDsize == PrevDsizeAt(s.mem, h) && prevAlloc == PrevAllocAt(s.mem, h)
    ensures 1 <= h && asz % 16 == 0 && WSIZE <= asz < WORD_LIMIT && h + asz / WSIZE < |s.mem|
    ensures GrownOK(s, h, asz, prevDsize, prevAlloc)
  {
    GrowBounds(s, brk, blocks, lists, size);
    PackRoundTrip(asz, prevDsize, prevAlloc, false);
    var m := WriteFree(s.mem, h, asz, prevDsize, prevAlloc);
    assert m[h] == Pack(asz, prevDsize, prevAlloc, false);
  }

  /** Pushing the new block on its list leaves its header as written. */
  lemma GrowLinkSize(s: Heap, brk: nat, blocks: seq<nat>, lists: seq<seq<nat>>, size: nat,
                     h: nat, asz: nat, prevDsize: bool, prevAlloc: bool)
    requires Growable(s, brk, blocks, lists, size)
    requires h == brk - 1 && asz == GrowSize(size) && h < |s.mem|
    requires prevDsize == PrevDsizeAt(s.mem, h) && prevAlloc == PrevAllocAt(s.mem, h)
    requires GrownOK(s, h, asz, prevDsize, prevAlloc)
    ensures var m := WriteFree(s.mem, h, asz, prevDsize, prevAlloc);
      Linkable(Heap(m, s.root, s.leaf), h) && ExtractSize(Link(Heap(m, s.root, s.leaf), h).mem[h]) == asz
  {
    GrowBounds(s, brk, blocks, lists, size);
    var m := WriteFree(s.mem, h, asz, prevDsize, prevAlloc);
    WriteStage(s.mem, brk, s.root, s.leaf, blocks, lists, asz, m);
    ExtendOp.LinkStage(s.mem, brk, blocks, lists, asz, Heap(m, s.root, s.leaf));
    PackRoundTrip(asz, prevDsize, prevAlloc, false);
  }

  /** What `free` needs of the block it hands back: room for its tags and
      a class to push it on. */
  lemma ReleasePlan(st: Mm.State, block: nat)
    requires Mm.Freeable(st, block + 1) && block in st.blocks
    ensures var s := st.heap;
      block != NULL && HasRoom(s.mem, block) && Linkable(Heap(MarkFree(s.mem, block), s.root, s.leaf), block)
  {
    Mm.FreeLinkable(st, block + 1);
    FreeBounds(st.heap.mem, st.brk, st.heap.root, st.heap.leaf, st.blocks, st.lists, IndexOf(st.blocks, block));
  }

  /** The header after the block `free` hands back is the one its size
      leads to. */
  lemma ReleaseWidth(st: Mm.State, block: nat)
    requires Mm.Freeable(st, block + 1) && block in st.blocks
    ensures block < |st.heap.mem|
    ensures Succ(st.blocks, st.brk, IndexOf(st.blocks, block)) == block + ExtractSize(st.heap.mem[block]) / WSIZE
  {
    FreeBounds(st.heap.mem, st.brk, st.heap.root, st.heap.leaf, st.blocks, st.lists, IndexOf(st.blocks, block));
  }

  /** Linking the released block leaves the header n after it in place,
      and releasing the block there is `Mm.Released`. */
  lemma ReleaseNext(st: Mm.State, block: nat, n: nat)
    requires Mm.Freeable(st, block + 1) && block in st.blocks
    requires n == Succ(st.blocks, st.brk, IndexOf(st.blocks, block))
    requires var s := st.heap;
      block != NULL && HasRoom(s.mem, block) && Linkable(Heap(MarkFree(s.mem, block), s.root, s.leaf), block)
    ensures var l := Link(Heap(MarkFree(st.heap.mem, block), st.heap.root, st.heap.leaf), block);
      n < |l.mem| && (!ExtractAlloc(l.mem[n]) ==> HasRoom(l.mem, n))
  {
    Mm.FreeLinkable(st, block + 1);
  }

  /** The block `free` hands back can be released at the header after it,
      which its size leads to, and releasing it there is `Mm.Released`. */
  lemma ReleaseReady(st: Mm.State, block: nat, n: nat)
    requires Mm.Freeable(st, block + 1) && block in st.blocks
    requires n == Succ(st.blocks, st.brk, IndexOf(st.blocks, block))
    ensures Releasable(st.heap, block, n) && n == block + ExtractSize(st.heap.mem[block]) / WSIZE
    ensures Mm.Released(st, block + 1) == Mm.Releasing(st.heap, block, n)
  {
    ReleasePlan(st, block);
    ReleaseWidth(st, block);
    ReleaseNext(st, block, n);
  }

  /** An unfolding of `Extend` after a successful `mem_sbrk`, with the
      readiness `GrowReady` proves, so that `ExtendHeap` need not unfold it
      itself. */
  lemma ExtendPlan(s: Heap, brk: nat, blocks: seq<nat>, lists: seq<seq<nat>>, size: nat)
    requires Growable(s, brk, blocks, lists, size)
    ensures Ready(Grow(s, brk, blocks, lists, size), GrowBrk(brk, size), GrowBlocks(blocks, brk),
                  GrowLists(lists, brk, size), |blocks|)
    ensures GrowBlocks(blocks, brk)[|blocks|] == brk - 1
    ensures Extend(s, brk, blocks, lists, size) ==
      Some(Coalesce(Grow(s, brk, blocks, lists, size), GrowBrk(brk, size), GrowBlocks(blocks, brk),
                    GrowLists(lists, brk, size), |blocks|))
  {
    GrowReady(s, brk, blocks, lists, size);
  }

  class Allocator {
    /** The arena: every word `mem_sbrk` can hand out; words at or past
        `brk` are not yet part of the heap. */
    const heap: array<Word>
    /** `root[c]` and `leaf[c]`: the first and last block of list c. */
    const root: array<nat>
    const leaf: array<nat>
    /** The arena's break, in words. */
    var brk: nat
    /** `heap_start`: NULL until `mm_init` succeeds at its first `mem_sbrk`. */
    var heapStart: nat
    /** The block layout and the free lists that the words encode. */
    ghost var blocks: seq<nat>
    ghost var lists: seq<seq<nat>>

    /** The heap words and list ends as a value. */
    ghost function H(): Heap
      reads heap, root, leaf
    {
      Heap(heap[..], root[..], leaf[..])
    }

    /** The array shapes: twelve list ends, an arena no larger than the
        largest the model allows. */
    ghost predicate Shape()
      reads this
    {
      root.Length == NUM && leaf.Length == NUM && root != leaf && heap.Length <= MAX_WORDS
    }

    // -------------------------------------------------------------------
    // The free lists

    /** `add_new_free_block`: NULL is refused; otherwise h becomes the root
        of the list of its size. */
    method AddNewFreeBlock(h: nat) returns (ok: bool)
      requires Shape() && (h != NULL ==> Linkable(H(), h))
      modifies heap, root, leaf
      ensures ok == (h != NULL)
      ensures ok ==> H() == Link(old(H()), h)
      ensures !ok ==> H() == old(H())
    {
      if h == NULL {
        return false;
      }
      var c := FindFreeList(ExtractSize(heap[h]));
      if c == DSIZE_CLASS as int {
        AddDsizeFreeBlock(h);
        return true;
      }
      if root[c] == NULL {
        root[c] := h;
        leaf[c] := h;
        heap[h + 1] := NULL;
        heap[h + 2] := NULL;
      } else {
        var temp := root[c];
        root[c] := h;
        heap[h + 1] := temp;
        heap[h + 2] := NULL;
        heap[temp + 2] := h;
      }
      return true;
    }

    /** `add_dsize_free_block`: a 16-byte block becomes the root of the
        singly linked list 11. */
    method AddDsizeFreeBlock(h: nat)
      requires Shape() && Linkable(H(), h) && ClassOf(heap[..], h) == DSIZE_CLASS as int
      modifies heap, root, leaf
      ensures H() == Link(old(H()), h)
    {
      var index := DSIZE_CLASS;
      if root[index] == NULL {
        root[index] := h;
        leaf[index] := h;
        heap[h + 1] := NULL;
      } else {
        heap[h + 1] := root[index];
        root[index] := h;
      }
    }

    /** `delete_block_from_list`: h leaves the list of its size; its
        neighbours in the list are joined. */
    method DeleteBlockFromList(h: nat, ghost L: seq<seq<nat>>)
      requires Shape() && Unlinkable(H(), L, h)
      modifies heap, root, leaf
      ensures H() == Unlink(old(H()), L, h)
    {
      var c := FindFreeList(ExtractSize(heap[h]));
      if c == DSIZE_CLASS as int {
        UnlinkDsize(H(), L, h);
        DeleteDsizeFreeBlock(h, L[c]);
        return;
      }
      UnlinkByWords(H(), L, h);
      var next := heap[h + 1];
      var prev := heap[h + 2];
      if next == NULL && prev == NULL {
        root[c] := NULL;
        leaf[c] := NULL;
      } else if next != NULL && prev == NULL {
        root[c] := next;
        heap[next + 2] := NULL;
      } else if next == NULL && prev != NULL {
        heap[prev + 1] := next;
        leaf[c] := prev;
      } else {
        heap[prev + 1] := next;
        heap[next + 2] := prev;
      }
    }

    /** `delete_dsize_free_block`: list 11 has no `prev` links, so h's
        predecessor is found by walking from the root. */
    method DeleteDsizeFreeBlock(h: nat, ghost l: seq<nat>)
      requires Shape() && DsizeChain(heap[..], root[..], leaf[..], l) && h in l
      modifies heap, root, leaf
      ensures H() == DsizeUnlinked(old(H()), l, h)
    {
      var c := DSIZE_CLASS;
      assert EntryLinked(heap[..], l, c, 0);
      if h == root[c] {
        if root[c] == leaf[c] {
          assert |l| == 1 by {
            assert Distinct(l);
          }
          root[c] := NULL;
          leaf[c] := NULL;
        } else {
          assert EntryLinked(heap[..], l, c, 1);
          root[c] := heap[root[c] + 1];
        }
      } else {
        DeleteDsizeAfterRoot(h, l);
      }
    }

    /** The walk of `delete_dsize_free_block` for a block past the root:
        follow `next` from the root until h's predecessor, and point that
        predecessor past h. */
    method DeleteDsizeAfterRoot(h: nat, ghost l: seq<nat>)
      requires Shape() && DsizeChain(heap[..], root[..], leaf[..], l) && h in l && h != root[DSIZE_CLASS]
      modifies heap, root, leaf
      ensures H() == DsizeUnlinked(old(H()), l, h)
    {
      var c := DSIZE_CLASS;
      ghost var k := IndexOf(l, h);
      assert EntryLinked(heap[..], l, c, 0);
      var temp := root[c];
      var tmp := heap[temp + 1];
      ghost var j := 0;
      assert EntryLinked(heap[..], l, c, 1);
      while tmp != NULL
        invariant j < k && temp == l[j] && tmp == l[j + 1]
        invariant EntryLinked(heap[..], l, c, j) && EntryLinked(heap[..], l, c, j + 1)
        invariant unchanged(heap) && unchanged(root) && unchanged(leaf)
        decreases |l| - j
      {
        if tmp == h {
          var blk := heap[tmp + 1];
          heap[temp + 1] := blk;
          if blk == NULL {
            leaf[c] := temp;
          }
          return;
        }
        temp := tmp;
        tmp := heap[tmp + 1];
        j := j + 1;
        assert EntryLinked(heap[..], l, c, j + 1);
      }
      assert false;
    }

    // -------------------------------------------------------------------
    // Searching and resetting the lists

    /** `find_dsize_fit`: the root of list 11, or NULL when it is empty;
        every 16-byte block fits any request that reaches that list. */
    method FindDsizeFit(asize: nat, ghost L: seq<seq<nat>>) returns (b: nat)
      requires Shape() && LinksOK(heap[..], root[..], leaf[..], L)
      ensures b == Head(L[DSIZE_CLASS])
    {
      assert EndsOK(root[..], leaf[..], L, DSIZE_CLASS);
      if root[DSIZE_CLASS] == NULL {
        return NULL;
      } else {
        return root[DSIZE_CLASS];
      }
    }

    /** `find_fit`: from the request's class down to class 0, list 11 by its
        root and every other list from its leaf along the `prev` links; the
        first free block of at least `asize` bytes is returned. */
    method FindFit(asize: nat, ghost L: seq<seq<nat>>) returns (b: nat)
      requires Shape() && LinksOK(heap[..], root[..], leaf[..], L)
      ensures b == FindFitSpec(heap[..], L, asize)
    {
      var index := FindFreeList(asize);
      while index >= 0
        invariant index < NUM as int
        invariant FitFrom(heap[..], L, asize, index) == FindFitSpec(heap[..], L, asize)
        decreases index + 1
      {
        if index == DSIZE_CLASS as int {
          var temp := FindDsizeFit(asize, L);
          if temp == NULL {
            index := index - 1;
            continue;
          } else {
            return temp;
          }
        }
        var block := FitInList(index as nat, asize, L);
        if block != NULL {
          return block;
        }
        index := index - 1;
      }
      return NULL;
    }

    /** The inner loop of `find_fit`: list `index` (not list 11) walked from
        its leaf along the `prev` links; the first block met that is free
        and at least `asize` bytes is the last such entry of the list. */
    method FitInList(index: nat, asize: nat, ghost L: seq<seq<nat>>) returns (block: nat)
      requires Shape() && LinksOK(heap[..], root[..], leaf[..], L)
      requires index < NUM && index != DSIZE_CLASS
      ensures var k := LastFit(heap[..], L[index], asize);
        block == if k >= 0 then L[index][k] else NULL
    {
      ghost var l := L[index];
      assert EndsOK(root[..], leaf[..], L, index);
      block := leaf[index];
      ghost var k: int := |l| - 1;
      assert l[..k + 1] == l;
      if k >= 0 {
        assert EntryLinked(heap[..], l, index, k);
      }
      while block != NULL
        invariant -1 <= k < |l|
        invariant block == (if k >= 0 then l[k] else NULL)
        invariant LastFit(heap[..], l[..k + 1], asize) == LastFit(heap[..], l, asize)
        invariant k >= 0 ==> EntryLinked(heap[..], l, index, k)
        decreases k + 1
      {
        assert l[..k + 1][..k] == l[..k];
        if !ExtractAlloc(heap[block]) && ExtractSize(heap[block]) >= asize {
          return block;
        }
        assert heap[block + 2] == PrevOf(l, k);
        block := heap[block + 2];
        k := k - 1;
        if k >= 0 {
          assert EntryLinked(heap[..], l, index, k);
        }
      }
    }

    /** `initialize_list`: list 0 holds `block` alone at both ends and every
        other list is empty. */
    method InitializeList(block: nat)
      requires Shape()
      modifies root, leaf
      ensures root[..] == Mm.Nulls()[0 := block] && leaf[..] == Mm.Nulls()[0 := block]
    {
      root[0] := block;
      leaf[0] := block;
      for index := 1 to NUM
        invariant root[0] == block && leaf[0] == block
        invariant forall j :: 1 <= j < index ==> root[j] == NULL && leaf[j] == NULL
      {
        root[index] := NULL;
        leaf[index] := NULL;
      }
    }

    /** `my_write_header`: the header word of h becomes the packed tag. */
    method WriteHeader(h: nat, size: Word, prevDsize: bool, prevAlloc: bool, alloc: bool)
      requires h < heap.Length
      modifies heap
      ensures heap[..] == old(heap[..])[h := Pack(size, prevDsize, prevAlloc, alloc)]
    {
      heap[h] := Pack(size, prevDsize, prevAlloc, alloc);
    }

    /** `my_write_footer`: the last word of the block, found from the size
        its header already holds, becomes the packed tag. */
    method WriteFooter(h: nat, size: Word, prevDsize: bool, prevAlloc: bool, alloc: bool)
      requires h < heap.Length && ExtractSize(heap[h]) == size && WSIZE <= size && h + size / WSIZE <= heap.Length
      modifies heap
      ensures heap[..] == old(heap[..])[h + size / WSIZE - 1 := Pack(size, prevDsize, prevAlloc, alloc)]
    {
      var footer := h + ExtractSize(heap[h]) / WSIZE - 1;
      heap[footer] := Pack(size, prevDsize, prevAlloc, alloc);
    }

    /** `mem_sbrk`: the break moves by n words when the arena has them. */
    method Sbrk(n: nat) returns (ok: bool)
      modifies this
      ensures ok == (old(brk) + n <= heap.Length)
      ensures brk == if ok then old(brk) + n else old(brk)
      ensures heapStart == old(heapStart) && blocks == old(blocks) && lists == old(lists)
    {
      if brk + n > heap.Length {
        return false;
      }
      brk := brk + n;
      return true;
    }

    // -------------------------------------------------------------------
    // Merging

    /** The last three lines of every merging case of `coalesce_block`:
        header and footer of the merged block p, then `add_new_free_block`. */
    method JoinWindow(p: nat, size: Word, prevDsize: bool, prevAlloc: bool)
      requires Shape() && p != NULL && WSIZE <= size && size % 16 == 0 && p + size / WSIZE <= heap.Length
      requires Linkable(Heap(WriteFree(heap[..], p, size, prevDsize, prevAlloc), root[..], leaf[..]), p)
      modifies heap, root, leaf
      ensures H() == Link(Heap(WriteFree(old(heap[..]), p, size, prevDsize, prevAlloc), old(root[..]), old(leaf[..])), p)
    {
      PackRoundTrip(size, prevDsize, prevAlloc, false);
      ghost var m := heap[..];
      WriteHeader(p, size, prevDsize, prevAlloc, false);
      WriteFooter(p, size, prevDsize, prevAlloc, false);
      assert heap[..] == WriteFree(m, p, size, prevDsize, prevAlloc);
      var _ := AddNewFreeBlock(p);
    }

    /** The first half of a two-block merge: the dsize bit of the header q
        after the window is cleared, then x and y leave their lists, in that
        order. */
    method DetachPair(q: nat, x: nat, y: nat, ghost b: seq<nat>, ghost L: seq<seq<nat>>, ghost lo: nat, ghost hi: nat)
      requires Shape() && Mergeable(H(), brk, b, L, lo, hi, [x, y]) && q == At(b, brk, hi)
      modifies heap, root, leaf
      ensures H() == Unlinked(old(H()), brk, b, L, lo, hi, [x, y]).s
    {
      ghost var s := H();
      UnlinkPair(s, brk, b, L, lo, hi, [x, y]);
      heap[q] := ClearBits(heap[q], DSIZE_MASK);
      ghost var c0 := H();
      assert c0 == Cleared(s, brk, b, hi);
      DeleteBlockFromList(x, L);
      DeleteBlockFromList(y, Without(c0.mem, L, x));
    }

    /** The first half of a three-block merge, likewise. */
    method DetachTriple(q: nat, x: nat, y: nat, z: nat, ghost b: seq<nat>, ghost L: seq<seq<nat>>, ghost lo: nat, ghost hi: nat)
      requires Shape() && Mergeable(H(), brk, b, L, lo, hi, [x, y, z]) && q == At(b, brk, hi)
      modifies heap, root, leaf
      ensures H() == Unlinked(old(H()), brk, b, L, lo, hi, [x, y, z]).s
    {
      ghost var s := H();
      UnlinkTriple(s, brk, b, L, lo, hi, [x, y, z]);
      heap[q] := ClearBits(heap[q], DSIZE_MASK);
      ghost var c0 := H();
      assert c0 == Cleared(s, brk, b, hi);
      DeleteBlockFromList(x, L);
      ghost var c1 := H();
      ghost var L1 := Without(c0.mem, L, x);
      DeleteBlockFromList(y, L1);
      DeleteBlockFromList(z, Without(c1.mem, L1, y));
    }

    /** Case 2 of `coalesce_block`: h and the free block after it. The dsize
        bit of the header after the pair is cleared, both blocks leave their
        lists, and h becomes one block spanning both. */
    method MergeNext(h: nat, next: nat, size: Word, prevDsize: bool, ghost b: seq<nat>, ghost L: seq<seq<nat>>, ghost i: nat)
      requires Shape() && Mergeable(H(), brk, b, L, i, i + 2, [h, next])
      requires h == b[i] && next == b[i + 1] && size == SizeAt(heap[..], h) && prevDsize == PrevDsizeAt(heap[..], h)
      modifies heap, root, leaf
      ensures H() == MergeWindow(old(H()), brk, b, L, i, i + 2, [h, next]).s
    {
      ghost var s := H();
      var nextNext := next + ExtractSize(heap[next]) / WSIZE;
      var merged := size + ExtractSize(heap[next]);
      var temp := ExtractPrevAlloc(heap[h]);
      JoinPlanNext(s, brk, b, L, i, [h, next], merged, prevDsize, temp);
      DetachPair(nextNext, h, next, b, L, i, i + 2);
      JoinWindow(h, merged, prevDsize, temp);
    }

    /** `block_prev` as `coalesce_block` finds it: 16 bytes back when the
        dsize bit of h says so, otherwise `find_prev` through the footer. */
    method FindPrev(h: nat, prevDsize: bool) returns (prev: nat)
      requires 1 <= h < heap.Length && prevDsize == PrevDsizeAt(heap[..], h) && PrevHeader(heap[..], h) >= 0
      ensures prev == PrevHeader(heap[..], h)
    {
      if prevDsize {
        prev := h - 2;
      } else {
        prev := h - ExtractSize(heap[h - 1]) / WSIZE;
      }
    }

    /** Case 3 of `coalesce_block`: the free block before h and h. The dsize
        bit of the next header is cleared, both blocks leave their lists,
        and the previous block becomes one block spanning both. */
    method MergePrev(h: nat, next: nat, size: Word, prevDsize: bool, ghost b: seq<nat>, ghost L: seq<seq<nat>>, ghost i: nat)
      returns (prev: nat)
      requires Shape() && 1 <= i < |b| && Mergeable(H(), brk, b, L, i - 1, i + 1, [h, b[i - 1]])
      requires h == b[i] && next == At(b, brk, i + 1) && size == SizeAt(heap[..], h) && prevDsize == PrevDsizeAt(heap[..], h)
      requires 1 <= h && PrevHeader(heap[..], h) == b[i - 1]
      modifies heap, root, leaf
      ensures prev == b[i - 1]
      ensures H() == MergeWindow(old(H()), brk, b, L, i - 1, i + 1, [h, b[i - 1]]).s
    {
      ghost var s := H();
      prev := FindPrev(h, prevDsize);
      var merged := size + ExtractSize(heap[prev]);
      var temp := ExtractPrevAlloc(heap[prev]);
      var tmp := ExtractPrevDsize(heap[prev]);
      JoinPlanPrev(s, brk, b, L, i, [h, b[i - 1]], merged, tmp, temp);
      DetachPair(next, h, prev, b, L, i - 1, i + 1);
      JoinWindow(prev, merged, tmp, temp);
    }

    /** Case 4 of `coalesce_block`: the free blocks on both sides of h. The
        dsize bit of the header after the next block is cleared, the three
        blocks leave their lists, and the previous block spans all three. */
    method MergeBoth(h: nat, next: nat, size: Word, prevDsize: bool, ghost b: seq<nat>, ghost L: seq<seq<nat>>, ghost i: nat)
      returns (prev: nat)
      requires Shape() && 1 <= i < |b| && Mergeable(H(), brk, b, L, i - 1, i + 2, [b[i - 1], h, next])
      requires h == b[i] && next == b[i + 1] && size == SizeAt(heap[..], h) && prevDsize == PrevDsizeAt(heap[..], h)
      requires 1 <= h && PrevHeader(heap[..], h) == b[i - 1]
      modifies heap, root, leaf
      ensures prev == b[i - 1]
      ensures H() == MergeWindow(old(H()), brk, b, L, i - 1, i + 2, [b[i - 1], h, next]).s
    {
      ghost var s := H();
      var nextNext := next + ExtractSize(heap[next]) / WSIZE;
      prev := FindPrev(h, prevDsize);
      var merged := size + ExtractSize(heap[next]) + ExtractSize(heap[prev]);
      var temp := ExtractPrevAlloc(heap[prev]);
      var tmp := ExtractPrevDsize(heap[prev]);
      JoinPlanBoth(s, brk, b, L, i, [b[i - 1], h, next], merged, tmp, temp);
      DetachTriple(nextNext, prev, h, next, b, L, i - 1, i + 2);
      JoinWindow(prev, merged, tmp, temp);
    }

    /** `coalesce_block`: the free block h (block i of the layout) is merged
        with whichever of its neighbours are free; the prev_alloc bit of h
        and the alloc bit of the next header choose the case. */
    method CoalesceBlock(h: nat, ghost b: seq<nat>, ghost L: seq<seq<nat>>, ghost i: nat) returns (r: nat)
      requires Shape() && Ready(H(), brk, b, L, i) && h == b[i]
      modifies heap, root, leaf
      ensures H() == Coalesce(old(H()), brk, b, L, i).s
      ensures r == Coalesce(old(H()), brk, b, L, i).block
    {
      ghost var s := H();
      NeighbourHeaders(s, brk, b, L, i);
      SucceedsAt(b, brk, i);
      var size := ExtractSize(heap[h]);
      var next := h + size / WSIZE;
      var prevAlloc := ExtractPrevAlloc(heap[h]);
      var nextAlloc := ExtractAlloc(heap[next]);
      var prevDsize := ExtractPrevDsize(heap[h]);
      if prevAlloc && nextAlloc {
        r := h;
      } else if prevAlloc && !nextAlloc {
        MergeableNext(s, brk, b, L, i);
        MergeNext(h, next, size, prevDsize, b, L, i);
        r := h;
      } else if !prevAlloc && nextAlloc {
        MergeablePrev(s, brk, b, L, i);
        r := MergePrev(h, next, size, prevDsize, b, L, i);
      } else {
        MergeableBoth(s, brk, b, L, i);
        r := MergeBoth(h, next, size, prevDsize, b, L, i);
      }
    }

    // -------------------------------------------------------------------
    // The header after a block

    /** `malloc`'s fix-up of the header n after the block it placed: the
        prev_alloc bit is set, and a free block with a footer gets the new
        header copied over its footer. */
    method SetNextPrevAllocAt(n: nat)
      requires n < heap.Length && (!ExtractAlloc(heap[n]) ==> HasRoom(heap[..], n))
      modifies heap
      ensures heap[..] == SetNextPrevAlloc(old(heap[..]), n)
    {
      SetPrevAllocFacts(heap[n]);
      var nextAlloc := ExtractAlloc(heap[n]);
      if nextAlloc {
        heap[n] := SetBits(heap[n], PREV_ALLOC_MASK);
      } else {
        heap[n] := SetBits(heap[n], PREV_ALLOC_MASK);
        var nextSize := ExtractSize(heap[n]);
        if nextSize != DSIZE {
          var footer := n + ExtractSize(heap[n]) / WSIZE - 1;
          heap[footer] := heap[n];
        }
      }
    }

    /** `free`'s fix-up of the header n after the block it released: the
        prev_alloc bit is cleared, and a free block with a footer has that
        bit cleared in its footer, which then gets the new header. */
    method ClearNextPrevAllocAt(n: nat)
      requires n < heap.Length && (!ExtractAlloc(heap[n]) ==> HasRoom(heap[..], n))
      modifies heap
      ensures heap[..] == ClearNextPrevAlloc(old(heap[..]), n)
    {
      ClearPrevAllocFacts(heap[n]);
      var nextAlloc := ExtractAlloc(heap[n]);
      if nextAlloc {
        heap[n] := ClearBits(heap[n], PREV_ALLOC_MASK);
      } else {
        heap[n] := ClearBits(heap[n], PREV_ALLOC_MASK);
        var nextSize := ExtractSize(heap[n]);
        if nextSize != DSIZE {
          var footer := n + ExtractSize(heap[n]) / WSIZE - 1;
          heap[footer] := ClearBits(heap[footer], PREV_ALLOC_MASK);
          heap[footer] := heap[n];
        }
      }
    }

    /** `split_block`'s fix-up of the header n after the free tail of
        `rest` bytes: the prev_alloc bit is cleared, the dsize bit is set
        when the tail is 16 bytes, and a free block with a footer gets the
        new header copied over its footer. */
    method FixAfterTailAt(n: nat, rest: nat)
      requires n < heap.Length && (!ExtractAlloc(heap[n]) ==> HasRoom(heap[..], n))
      modifies heap
      ensures heap[..] == FixAfterTail(old(heap[..]), n, rest)
    {
      FixWordFacts(heap[n], rest);
      var nextNextAlloc := ExtractAlloc(heap[n]);
      if nextNextAlloc {
        heap[n] := ClearBits(heap[n], PREV_ALLOC_MASK);
        if rest == DSIZE {
          heap[n] := SetBits(heap[n], DSIZE_MASK);
        }
      } else {
        heap[n] := ClearBits(heap[n], PREV_ALLOC_MASK);
        if rest == DSIZE {
          heap[n] := SetBits(heap[n], DSIZE_MASK);
        }
        if ExtractSize(heap[n]) != DSIZE {
          var footer := n + ExtractSize(heap[n]) / WSIZE - 1;
          heap[footer] := heap[n];
        }
      }
    }

    // -------------------------------------------------------------------
    // Splitting

    /** The writes of `split_block` that cut block h: h becomes an
        allocated block of `asize` bytes with its cached bits, and the words
        after it a free block of the rest, whose dsize bit says whether h is
        now 16 bytes. */
    method CarveAt(h: nat, asize: nat, rest: nat, prevDsize: bool, prevAlloc: bool)
      requires h + 1 < h + asize / WSIZE && asize % 16 == 0 && asize < WORD_LIMIT
      requires WSIZE <= rest < WORD_LIMIT && rest % 16 == 0 && h + asize / WSIZE + rest / WSIZE <= heap.Length
      requires ExtractSize(heap[h]) == asize + rest && MIN_BLOCK_SIZE <= asize && MIN_BLOCK_SIZE <= rest
      requires prevDsize == ExtractPrevDsize(heap[h]) && prevAlloc == ExtractPrevAlloc(heap[h])
      requires Cuts(heap[..], h, asize) && h + WidthAt(heap[..], h) <= heap.Length
      modifies heap
      ensures heap[..] == Carve(old(heap[..]), h, asize)
    {
      ghost var m := heap[..];
      ghost var q := Tail(h, asize);
      ghost var wa := Pack(asize, prevDsize, prevAlloc, true);
      CarveWrites(m, h, asize, rest);
      PackRoundTrip(asize, prevDsize, prevAlloc, true);
      PackRoundTrip(rest, asize == DSIZE, true, false);
      WriteHeader(h, asize, prevDsize, prevAlloc, true);
      WriteFooter(h, asize, prevDsize, prevAlloc, true);
      assert heap[..] == m[h := wa][q - 1 := wa];
      var blockNext := h + ExtractSize(heap[h]) / WSIZE;
      var blockDsize := false;
      if ExtractSize(heap[h]) == DSIZE {
        blockDsize := true;
      }
      WriteHeader(blockNext, rest, blockDsize, true, false);
      WriteFooter(blockNext, rest, blockDsize, true, false);
    }

    /** The rest of `split_block` once it has decided to cut h: the
        carving writes, the tail pushed on its list, and the fix-up of the
        header n after the tail. */
    method CutBlock(h: nat, asize: nat, rest: nat, prevDsize: bool, prevAlloc: bool, ghost n: nat)
      requires Shape() && h + 1 < h + asize / WSIZE && asize % 16 == 0 && asize < WORD_LIMIT
      requires WSIZE <= rest < WORD_LIMIT && rest % 16 == 0 && h + asize / WSIZE + rest / WSIZE <= heap.Length
      requires ExtractSize(heap[h]) == asize + rest && MIN_BLOCK_SIZE <= asize && MIN_BLOCK_SIZE <= rest
      requires prevDsize == ExtractPrevDsize(heap[h]) && prevAlloc == ExtractPrevAlloc(heap[h])
      requires Cuts(heap[..], h, asize) && h + WidthAt(heap[..], h) <= heap.Length
      requires var m := Carve(heap[..], h, asize); var q := Tail(h, asize);
        Linkable(Heap(m, root[..], leaf[..]), q) && q + rest / WSIZE == n && ExtractSize(m[q]) == rest &&
        var l := Link(Heap(m, root[..], leaf[..]), q);
        l.mem[q] == m[q] && n < |l.mem| && (!ExtractAlloc(l.mem[n]) ==> HasRoom(l.mem, n))
      modifies heap, root, leaf
      ensures var l := Link(Heap(Carve(old(heap[..]), h, asize), old(root[..]), old(leaf[..])), Tail(h, asize));
        H() == Heap(FixAfterTail(l.mem, n, rest), l.root, l.leaf)
    {
      CarveAt(h, asize, rest, prevDsize, prevAlloc);
      var blockNext := h + asize / WSIZE;
      var _ := AddNewFreeBlock(blockNext);
      var nextNext := blockNext + ExtractSize(heap[blockNext]) / WSIZE;
      FixAfterTailAt(nextNext, rest);
    }

    /** `split_block`, as `malloc` calls it on the allocated block h (block
        i): when at least a minimum block is left over, h shrinks to
        `asize` bytes and the rest becomes a free block on its list. */
    method SplitBlock(h: nat, asize: nat, ghost b: seq<nat>, ghost L: seq<seq<nat>>, ghost i: nat)
      requires Shape() && SplitReady(H(), brk, b, L, i, asize) && h == b[i]
      modifies heap, root, leaf
      ensures H() == Split(old(H()), brk, b, L, i, asize)
    {
      ghost var s := H();
      var blockSize := ExtractSize(heap[h]);
      var prevAlloc := ExtractPrevAlloc(heap[h]);
      var prevDsize := ExtractPrevDsize(heap[h]);
      if blockSize - asize >= MIN_BLOCK_SIZE {
        SplitPlan(s, brk, b, L, i, asize);
        SplitBounds(s.mem, brk, b, i, asize);
        CutBlock(h, asize, blockSize - asize, prevDsize, prevAlloc, Succ(b, brk, i));
      }
    }

    // -------------------------------------------------------------------
    // Growing the heap

    /** `extend_heap`'s writes once `mem_sbrk` has succeeded: header and
        footer of the new free block h, `add_new_free_block`, and the new
        epilogue after the block. */
    method GrowWrites(h: nat, asize: nat, prevDsize: bool, prevAlloc: bool, ghost s: Heap)
      requires Shape() && H() == s && 1 <= h && asize % 16 == 0 && WSIZE <= asize < WORD_LIMIT && h + asize / WSIZE < |s.mem|
      requires GrownOK(s, h, asize, prevDsize, prevAlloc)
      requires var m := WriteFree(s.mem, h, asize, prevDsize, prevAlloc);
        Linkable(Heap(m, s.root, s.leaf), h) && ExtractSize(Link(Heap(m, s.root, s.leaf), h).mem[h]) == asize
      modifies heap, root, leaf
      ensures H() == Grown(s, h, asize, prevDsize, prevAlloc)
    {
      JoinWindow(h, asize, prevDsize, prevAlloc);
      var blockNext := h + ExtractSize(heap[h]) / WSIZE;
      WriteHeader(blockNext, 0, false, false, true);
    }

    /** The rest of `extend_heap` once `mem_sbrk` has given the words:
        the writes, then `coalesce_block` on the new block, block i of the
        grown layout. */
    method GrowAndCoalesce(epi: nat, asize: nat, prevDsize: bool, prevAlloc: bool,
                           ghost s: Heap, ghost brk0: nat, ghost b0: seq<nat>, ghost L0: seq<seq<nat>>, ghost size: nat)
      returns (block: nat)
      requires Shape() && H() == s && Growable(s, brk0, b0, L0, size) && brk == GrowBrk(brk0, size)
      requires epi == brk0 - 1 && asize == GrowSize(size) && epi < |s.mem|
      requires prevDsize == PrevDsizeAt(s.mem, epi) && prevAlloc == PrevAllocAt(s.mem, epi)
      requires Ready(Grow(s, brk0, b0, L0, size), GrowBrk(brk0, size), GrowBlocks(b0, brk0), GrowLists(L0, brk0, size), |b0|)
      modifies heap, root, leaf
      ensures var r := Coalesce(Grow(s, brk0, b0, L0, size), GrowBrk(brk0, size), GrowBlocks(b0, brk0),
                                GrowLists(L0, brk0, size), |b0|);
        H() == r.s && block == r.block
    {
      GrowPlan(s, brk0, b0, L0, size, epi, asize, prevDsize, prevAlloc);
      GrowLinkSize(s, brk0, b0, L0, size, epi, asize, prevDsize, prevAlloc);
      assert Grow(s, brk0, b0, L0, size) == Grown(s, epi, asize, prevDsize, prevAlloc) by {
        GrowBounds(s, brk0, b0, L0, size);
      }
      GrowWrites(epi, asize, prevDsize, prevAlloc, s);
      block := CoalesceBlock(epi, GrowBlocks(b0, brk0), GrowLists(L0, brk0, size), |b0|);
    }

    /** `extend_heap`: `mem_sbrk` for the request rounded up to 16 bytes;
        on success the old epilogue becomes the header of a free block
        over the new words, which is listed, a new epilogue closes the
        heap, and the block is coalesced with a free block before it. */
    method ExtendHeap(size: nat) returns (block: nat)
      requires Shape() && Inv(heap[..], brk, root[..], leaf[..], blocks, lists, -1) && DSIZE < size
      modifies this, heap, root, leaf
      ensures heapStart == old(heapStart)
      ensures Extend(old(H()), old(brk), old(blocks), old(lists), size).None? ==>
        block == NULL && H() == old(H()) && brk == old(brk) && blocks == old(blocks) && lists == old(lists)
      ensures Extend(old(H()), old(brk), old(blocks), old(lists), size).Some? ==>
        var r := Extend(old(H()), old(brk), old(blocks), old(lists), size).value;
        block == r.block && H() == r.s && brk == GrowBrk(old(brk), size) && blocks == r.blocks && lists == r.lists
    {
      ghost var s := H();
      ghost var brk0 := brk;
      var epi := brk - 1;
      var prevAlloc := ExtractPrevAlloc(heap[epi]);
      var prevDsize := ExtractPrevDsize(heap[epi]);
      var asize := RoundUp(size, DSIZE);
      var ok := Sbrk(asize / WSIZE);
      if !ok {
        return NULL;
      }
      ExtendPlan(s, brk0, blocks, lists, size);
      ghost var b0, L0 := blocks, lists;
      ghost var r := Coalesce(Grow(s, brk0, b0, L0, size), GrowBrk(brk0, size), GrowBlocks(b0, brk0),
                              GrowLists(L0, brk0, size), |b0|);
      blocks, lists := r.blocks, r.lists;
      block := GrowAndCoalesce(epi, asize, prevDsize, prevAlloc, s, brk0, b0, L0, size);
    }

    // -------------------------------------------------------------------
    // The entry points

    /** The allocator's globals as a state of the model. */
    ghost function Cur(): Mm.State
      reads this, heap, root, leaf
    {
      Mm.State(H(), brk, heapStart, blocks, lists)
    }

    /** A state the program can be in, on arrays of the right shape. */
    ghost predicate Valid()
      reads this, heap, root, leaf
    {
      Shape() && Mm.Good(Cur())
    }

    /** The program as it starts: an arena of `capacity` words of which
        none is handed out, `heap_start` NULL and the static list arrays
        all NULL. */
    constructor (capacity: nat)
      requires capacity <= MAX_WORDS
      ensures Valid() && heapStart == NULL && heap.Length == capacity
      ensures fresh(heap) && fresh(root) && fresh(leaf)
    {
      heap := new Word[capacity](_ => 0);
      root := new nat[NUM](_ => NULL);
      leaf := new nat[NUM](_ => NULL);
      brk := 0;
      heapStart := NULL;
      blocks := [];
      lists := Mm.NoLists();
      new;
      assert root[..] == Mm.Nulls() && leaf[..] == Mm.Nulls();
    }

    /** `mm_init`: two words for the prologue and the epilogue, then a
        first chunk from `extend_heap`, which `initialize_list` makes the
        only entry of list 0. */
    method MmInit() returns (ok: bool)
      requires Valid() && heapStart == NULL
      modifies this, heap, root, leaf
      ensures Valid() && Mm.Init(old(Cur())) == Mm.Started(ok, Cur())
    {
      Mm.InitInv(Cur());
      ok := StartHeap(Cur());
    }

    /** The body of `mm_init` on the state st the program starts from. */
    method StartHeap(ghost st: Mm.State) returns (ok: bool)
      requires Shape() && Cur() == st && Mm.Good(st) && st.start == NULL
      modifies this, heap, root, leaf
      ensures Mm.Init(st) == Mm.Started(ok, Cur())
    {
      var start := Sbrk(2);
      if !start {
        return false;
      }
      heap[0] := Pack(0, false, true, true);
      heap[1] := Pack(0, false, true, true);
      heapStart := 1;
      Mm.InitChunk(st);
      ok := FirstChunk(Mm.Bare(st));
    }

    /** The rest of `mm_init` once the prologue and the epilogue are
        written: the state is b, the empty heap. */
    method FirstChunk(ghost b: Mm.State) returns (ok: bool)
      requires Shape() && Cur() == b && Mm.Live(b) && b.brk == 2 && b.blocks == [] && b.lists == Mm.NoLists()
      requires var e := Extend(b.heap, 2, [], Mm.NoLists(), CHUNKSIZE);
        e.Some? ==> e.value.block == 1 && 3 < |e.value.s.mem|
      modifies this, heap, root, leaf
      ensures var e := Extend(b.heap, 2, [], Mm.NoLists(), CHUNKSIZE);
        if e.None? then !ok && Cur() == b
        else ok && Cur() == Mm.State(Mm.InitializeList(e.value.s, e.value.block), GrowBrk(2, CHUNKSIZE), 1,
                                     e.value.blocks, e.value.lists)
    {
      var block := ExtendHeap(CHUNKSIZE);
      if block == NULL {
        return false;
      }
      InitializeList(block);
      heap[block + 2] := NULL;
      heap[block + 1] := NULL;
      return true;
    }

    /** The first half of `malloc`'s placement (mm.c:242-266): block i
        leaves its list, its header says allocated, and the next header
        records that. */
    method TakeBlock(block: nat, ghost i: nat)
      requires Shape() && Placeable(H(), brk, blocks, lists, i) && block == blocks[i]
      modifies heap, root, leaf
      ensures H() == Allocate(old(H()), brk, blocks, lists, i)
    {
      ghost var s := H();
      PlaceBounds(s, brk, blocks, lists, i);
      MarkStage(s, brk, blocks, lists, i);
      var prevAlloc := ExtractPrevAlloc(heap[block]);
      var prevDsize := ExtractPrevDsize(heap[block]);
      DeleteBlockFromList(block, lists);
      var blockSize := ExtractSize(heap[block]);
      WriteHeader(block, blockSize, prevDsize, prevAlloc, true);
      assert H() == Marked(s, brk, blocks, lists, i);
      var next := block + blockSize / WSIZE;
      SetNextPrevAllocAt(next);
    }

    /** The placement and `split_block`: block i becomes an allocated
        block of `asize` bytes, and what is left over a free block. */
    method PlaceBlock(block: nat, asize: nat, ghost i: nat)
      requires Shape() && Mm.Fitting(Cur(), i, asize) && block == blocks[i]
      modifies this, heap, root, leaf
      ensures Cur() == Mm.Place(old(Cur()), i, asize).st
    {
      ghost var st := Cur();
      Mm.PlaceReady(st, i, asize);
      TakeBlock(block, i);
      ghost var a := H();
      ghost var L := Taken(st.heap, brk, blocks, lists, i);
      SplitBlock(block, asize, blocks, L, i);
      blocks, lists := SplitLayout(a.mem, blocks, i, asize), SplitLists(a, brk, blocks, L, i, asize);
    }

    /** `malloc` once the heap is set up, for a request that is not zero:
        the first fit, or else a block from `extend_heap`, then the
        placement. */
    method MallocLive(size: Word, ghost st: Mm.State) returns (bp: nat)
      requires Shape() && Cur() == st && Mm.Live(st) && size != 0
      modifies this, heap, root, leaf
      ensures Mm.MallocLive(st, size) == Mm.Reply(Cur(), bp)
    {
      if !Adjustable(size) {
        return NULL;
      }
      AdjustedSizeSpec(size);
      var asize := RoundUp(size + WSIZE, DSIZE);
      var block := FindFit(asize, lists);
      if block == NULL {
        var extendsize := Max(asize, CHUNKSIZE);
        ExtendInv(H(), brk, blocks, lists, extendsize);
        block := ExtendHeap(extendsize);
        if block == NULL {
          return NULL;
        }
        TiledFacts(heap[..], brk, blocks, IndexOf(blocks, block));
      } else {
        FindFitSound(heap[..], blocks, lists, asize);
      }
      PlaceBlock(block, asize, IndexOf(blocks, block));
      bp := block + 1;
    }

    /** `malloc(size)`: `mm_init` first while `heap_start` is NULL, then
        NULL for a zero request, and otherwise the placement of a block of
        the adjusted size. */
    method Malloc(size: Word) returns (bp: nat)
      requires Valid()
      modifies this, heap, root, leaf
      ensures Valid() && Mm.Malloc(old(Cur()), size) == Mm.Reply(Cur(), bp)
    {
      ghost var st := Cur();
      Mm.MallocInv(st, size);
      if heapStart == NULL {
        var _ := MmInit();
      }
      if size == 0 {
        return NULL;
      }
      if heapStart == NULL {
        return NULL;
      }
      bp := MallocLive(size, Cur());
    }

    /** `free`'s first writes: header, and footer unless the block is 16
        bytes, rewritten as free with the same size and cached bits. */
    method MarkBlockFree(block: nat)
      requires HasRoom(heap[..], block)
      modifies heap
      ensures heap[..] == MarkFree(old(heap[..]), block)
    {
      PackRoundTrip(ExtractSize(heap[block]), ExtractPrevDsize(heap[block]), ExtractPrevAlloc(heap[block]), false);
      var size := ExtractSize(heap[block]);
      var prevAlloc := ExtractPrevAlloc(heap[block]);
      var prevDsize := ExtractPrevDsize(heap[block]);
      WriteHeader(block, size, prevDsize, prevAlloc, false);
      if size != DSIZE {
        WriteFooter(block, size, prevDsize, prevAlloc, false);
      }
    }

    /** The block marked free and pushed on the list of its size. */
    method PushFreed(block: nat, ghost s: Heap)
      requires Shape() && H() == s && block != NULL && HasRoom(s.mem, block)
      requires Linkable(Heap(MarkFree(s.mem, block), s.root, s.leaf), block)
      modifies heap, root, leaf
      ensures H() == Link(Heap(MarkFree(s.mem, block), s.root, s.leaf), block)
    {
      MarkBlockFree(block);
      var _ := AddNewFreeBlock(block);
    }

    /** `free` up to `coalesce_block` (mm.c:294-325): the block marked
        free, pushed on its list, and the header n after it told that its
        predecessor is free. */
    method ReleaseBlock(block: nat, ghost n: nat, ghost s: Heap)
      requires Shape() && H() == s && Releasable(s, block, n)
      requires n == block + ExtractSize(s.mem[block]) / WSIZE
      modifies heap, root, leaf
      ensures H() == Mm.Releasing(s, block, n)
    {
      var size := ExtractSize(heap[block]);
      PushFreed(block, s);
      var next := block + size / WSIZE;
      ClearNextPrevAllocAt(next);
    }

    /** `ReleaseBlock` on the block a caller of `free` hands back. */
    method ReleaseAt(block: nat, ghost st: Mm.State)
      requires Shape() && H() == st.heap && Mm.Freeable(st, block + 1)
      modifies heap, root, leaf
      ensures H() == Mm.Released(st, block + 1)
    {
      ghost var n := Succ(st.blocks, st.brk, IndexOf(st.blocks, block));
      ReleaseReady(st, block, n);
      ReleaseBlock(block, n, st.heap);
    }

    /** `coalesce_block` on the freed block i, whose free lists are L,
        with the layout and the lists the merge leaves. */
    method CoalesceFreed(block: nat, ghost L: seq<seq<nat>>, ghost i: nat)
      requires Shape() && Ready(H(), brk, blocks, L, i) && block == blocks[i]
      modifies this, heap, root, leaf
      ensures var m := Coalesce(old(H()), old(brk), old(blocks), L, i);
        H() == m.s && blocks == m.blocks && lists == m.lists
      ensures brk == old(brk) && heapStart == old(heapStart)
    {
      var _ := CoalesceBlock(block, blocks, L, i);
      ghost var m := Coalesce(old(H()), brk, blocks, L, i);
      blocks, lists := m.blocks, m.lists;
    }

    /** `free` on the allocated block at `block`: released, then
        coalesced with its free neighbours. */
    method FreeBlock(block: nat, ghost st: Mm.State)
      requires Shape() && Cur() == st && Mm.Freeable(st, block + 1)
      modifies this, heap, root, leaf
      ensures Cur() == Mm.Free(st, block + 1)
    {
      ghost var i := IndexOf(blocks, block);
      Mm.FreeReady(st, block + 1);
      ReleaseAt(block, st);
      CoalesceFreed(block, PushLists(lists, Mm.FreedClass(st, block + 1), block), i);
    }

    /** `free(bp)`: NULL is ignored; otherwise the block whose payload is
        bp is released and coalesced. */
    method Free(bp: nat)
      requires Valid() && Mm.Freeable(Cur(), bp)
      modifies this, heap, root, leaf
      ensures Valid() && Cur() == Mm.Free(old(Cur()), bp)
    {
      if bp == NULL {
        return;
      }
      Mm.FreeInv(Cur(), bp);
      FreeBlock(bp - 1, Cur());
    }
  }
}
