/** `extend_heap`: the heap grows by a free block written over the old
    epilogue header, carrying the epilogue's cached bits, with a new
    epilogue after it. The block joins the free list of its size and is
    coalesced with a free block before it. */
module ExtendOp {
  import opened Options
  import opened Codec
  import opened Sizes
  import opened FreeLists
  import opened HeapModel
  import opened LinkModel
  import opened Layout
  import opened Window
  import opened CoalesceOp

  /** The epilogue header `my_pack(0, false, false, true)` that closes the
      grown heap. */
  function EpilogueWord(): Word {
    Pack(0, false, false, true)
  }

  /** The size of the new block: the request rounded up to 16 bytes. */
  function GrowSize(size: nat): nat {
    RoundUp(size, DSIZE)
  }

  /** `mem_sbrk` succeeds: the arena has room for the new block. */
  predicate CanGrow(mem: Mem, brk: nat, size: nat) {
    brk + GrowSize(size) / WSIZE <= |mem|
  }

  /** The break after growing. */
  function GrowBrk(brk: nat, size: nat): nat {
    brk + GrowSize(size) / WSIZE
  }

  /** The layout after growing: the old epilogue is the new last block. */
  function GrowBlocks(blocks: seq<nat>, brk: nat): seq<nat>
    requires brk >= 1
  {
    Splice(blocks, |blocks|, [brk - 1], |blocks|)
  }

  /** The lists after the new block joins the list of its size. */
  function GrowLists(lists: seq<seq<nat>>, brk: nat, size: nat): seq<seq<nat>>
    requires |lists| == NUM && brk >= 1 && DSIZE < size
  {
    RoundUpSpec(size);
    ClassTotal(GrowSize(size));
    PushLists(lists, FindFreeList(GrowSize(size)) as nat, brk - 1)
  }

  /** What `extend_heap` starts from: the invariant holds, the request is
      more than 16 bytes (every caller asks for at least `chunksize`), and
      the arena has room. */
  ghost predicate Growable(s: Heap, brk: nat, blocks: seq<nat>, lists: seq<seq<nat>>, size: nat) {
    Inv(s.mem, brk, s.root, s.leaf, blocks, lists, -1) && DSIZE < size && CanGrow(s.mem, brk, size)
  }

  /** No listed block reaches the epilogue or the words after it: no such
      word is a link word. */
  lemma NotLinkBeyond(mem: Mem, brk: nat, blocks: seq<nat>, lists: seq<seq<nat>>, p: nat)
    requires Tiled(mem, brk, blocks) && Members(mem, blocks, lists) && p >= brk - 1
    ensures NotLink(lists, p)
  {
    forall c, k | 0 <= c < |lists| && 0 <= k < |lists[c]|
      ensures p != lists[c][k] + 1 && (c != DSIZE_CLASS ==> p != lists[c][k] + 2)
    {
      LinkWordsInside(mem, brk, blocks, lists, c, k);
      TiledFacts(mem, brk, blocks, IndexOf(blocks, lists[c][k]));
    }
  }

  /** Every listed block lies before the epilogue. */
  lemma ListedBefore(mem: Mem, brk: nat, blocks: seq<nat>, lists: seq<seq<nat>>, p: nat)
    requires Tiled(mem, brk, blocks) && Members(mem, blocks, lists) && p >= brk - 1
    ensures Unlisted(lists, p)
  {
    forall c, k | 0 <= c < |lists| && 0 <= k < |lists[c]|
      ensures lists[c][k] != p
    {
      assert MemberOK(mem, blocks, lists, c, k);
      assert blocks[IndexOf(blocks, lists[c][k])] < brk - 1;
    }
  }

  /** The bounds of growing by `size` bytes. */
  lemma GrowBounds(s: Heap, brk: nat, blocks: seq<nat>, lists: seq<seq<nat>>, size: nat)
    requires Growable(s, brk, blocks, lists, size)
    ensures brk >= 2 && (brk - 1) % 2 == 1
    ensures GrowSize(size) % 16 == 0 && 2 * DSIZE <= GrowSize(size) < WORD_LIMIT
    ensures GrowSize(size) / WSIZE >= 4 && brk - 1 + GrowSize(size) / WSIZE < |s.mem| <= MAX_WORDS
    ensures 0 <= FindFreeList(GrowSize(size)) < NUM as int
    ensures s.root[FindFreeList(GrowSize(size))] + 2 < |s.mem|
    ensures Unlisted(lists, brk - 1)
  {
    RoundUpSpec(size);
    TiledBrk(s.mem, brk, blocks);
    ClassTotal(GrowSize(size));
    RootFacts(s.mem, s.root, s.leaf, lists, FindFreeList(GrowSize(size)) as nat);
    ListedBefore(s.mem, brk, blocks, lists, brk - 1);
  }

  /** What `Grown` needs: the new block and the word after it lie in the
      arena, and the block can be pushed on the list of its size. */
  predicate GrownOK(s: Heap, h: nat, asz: nat, prevDsize: bool, prevAlloc: bool) {
    WSIZE <= asz < WORD_LIMIT && h + asz / WSIZE < |s.mem| &&
    var m := WriteFree(s.mem, h, asz, prevDsize, prevAlloc);
    h + 2 < |m| <= MAX_WORDS && |s.root| == NUM && |s.leaf| == NUM &&
    0 <= ClassOf(m, h) && s.root[ClassOf(m, h)] + 2 < |m|
  }

  /** The words `extend_heap` writes at block h of asz bytes: header and
      footer of a free block carrying the cached bits prevDsize and
      prevAlloc, the block pushed on the list of its size, and an epilogue
      header right after it. */
  function Grown(s: Heap, h: nat, asz: nat, prevDsize: bool, prevAlloc: bool): (r: Heap)
    requires GrownOK(s, h, asz, prevDsize, prevAlloc)
    ensures |r.mem| == |s.mem|
  {
    var l := Link(Heap(WriteFree(s.mem, h, asz, prevDsize, prevAlloc), s.root, s.leaf), h);
    Heap(l.mem[h + asz / WSIZE := EpilogueWord()], l.root, l.leaf)
  }

  /** `extend_heap`'s writes before it coalesces (mm.c:407-432): `Grown`
      over the old epilogue, with the epilogue's cached bits. */
  function Grow(s: Heap, brk: nat, blocks: seq<nat>, lists: seq<seq<nat>>, size: nat): (r: Heap)
    requires Growable(s, brk, blocks, lists, size)
    ensures |r.mem| == |s.mem|
  {
    GrowBounds(s, brk, blocks, lists, size);
    var h := brk - 1;
    var asz := GrowSize(size);
    PackRoundTrip(asz, PrevDsizeAt(s.mem, h), PrevAllocAt(s.mem, h), false);
    var m2 := WriteFree(s.mem, h, asz, PrevDsizeAt(s.mem, h), PrevAllocAt(s.mem, h));
    assert m2[h] == Pack(asz, PrevDsizeAt(s.mem, h), PrevAllocAt(s.mem, h), false);
    Grown(s, h, asz, PrevDsizeAt(s.mem, h), PrevAllocAt(s.mem, h))
  }

  // ---------------------------------------------------------------------
  // Why the grown heap is ready for `coalesce_block`.

  /** Writing the new block's header and footer over the old epilogue and
      the words after it. */
  lemma WriteStage(mem: Mem, brk: nat, root: seq<nat>, leaf: seq<nat>, blocks: seq<nat>, lists: seq<seq<nat>>,
                   asz: nat, m2: Mem)
    requires Tiled(mem, brk, blocks) && Members(mem, blocks, lists) && LinksOK(mem, root, leaf, lists)
    requires asz % 16 == 0 && 2 * DSIZE <= asz < WORD_LIMIT && brk + asz / WSIZE <= |mem|
    requires m2 == WriteFree(mem, brk - 1, asz, PrevDsizeAt(mem, brk - 1), PrevAllocAt(mem, brk - 1))
    ensures Tiled(m2, brk + asz / WSIZE, GrowBlocks(blocks, brk))
    ensures Members(m2, GrowBlocks(blocks, brk), lists) && LinksOK(m2, root, leaf, lists)
    ensures KeepsOutside(mem, brk, blocks, |blocks|, |blocks|, m2, brk + asz / WSIZE)
    ensures m2[brk - 1] == Pack(asz, PrevDsizeAt(mem, brk - 1), PrevAllocAt(mem, brk - 1), false)
    ensures m2[brk - 1 + asz / WSIZE - 1] == m2[brk - 1]
  {
    var h := brk - 1;
    var lo := |blocks|;
    var brk2 := brk + asz / WSIZE;
    var b1 := GrowBlocks(blocks, brk);
    var w := Pack(asz, PrevDsizeAt(mem, h), PrevAllocAt(mem, h), false);
    PackRoundTrip(asz, PrevDsizeAt(mem, h), PrevAllocAt(mem, h), false);
    SpliceFacts(blocks, lo, [h], lo);
    assert m2[h] == w;
    assert SizeAt(m2, h) == asz && WidthAt(m2, h) == asz / WSIZE;
    assert forall j :: 0 <= j < |blocks| ==> m2[blocks[j]] == mem[blocks[j]];
    assert MidTiles(m2, brk2, [h], At(blocks, brk, lo), End(blocks, lo, brk2));
    SpliceTiled(mem, brk, blocks, lo, [h], lo, m2, brk2);
    forall c, k | 0 <= c < |lists| && 0 <= k < |lists[c]|
      ensures lists[c][k] in b1 && (lists[c][k] < |mem| ==> SameKind(m2[lists[c][k]], mem[lists[c][k]]))
    {
      assert MemberOK(mem, blocks, lists, c, k);
      var j := IndexOf(blocks, lists[c][k]);
      assert b1[j] == blocks[j];
    }
    MembersKind(mem, blocks, lists, m2, b1);
    NotLinkBeyond(mem, brk, blocks, lists, h);
    NotLinkBeyond(mem, brk, blocks, lists, h + asz / WSIZE - 1);
    UpdateKeepsLinks(mem, root, leaf, lists, h, w);
    UpdateKeepsLinks(mem[h := w], root, leaf, lists, h + asz / WSIZE - 1, w);
    SameOutsideRefl(mem, brk, blocks, lo, lo);
    RegionWrite(mem, brk, blocks, lo, lo, mem, h, w);
    RegionWrite(mem, brk, blocks, lo, lo, mem[h := w], h + asz / WSIZE - 1, w);
  }

  /** Pushing the new block on its list keeps its header and footer and
      the tags outside the window. */
  lemma LinkStage(mem: Mem, brk: nat, blocks: seq<nat>, lists: seq<seq<nat>>, asz: nat, m2: Heap)
    requires Tiled(mem, brk, blocks) && Members(mem, blocks, lists) && brk >= 2
    requires asz % 16 == 0 && 2 * DSIZE <= asz < WORD_LIMIT && brk + asz / WSIZE <= |mem| <= MAX_WORDS
    requires Tiled(m2.mem, brk + asz / WSIZE, GrowBlocks(blocks, brk))
    requires Members(m2.mem, GrowBlocks(blocks, brk), lists) && LinksOK(m2.mem, m2.root, m2.leaf, lists)
    requires KeepsOutside(mem, brk, blocks, |blocks|, |blocks|, m2.mem, brk + asz / WSIZE)
    requires m2.mem[brk - 1] == Pack(asz, PrevDsizeAt(mem, brk - 1), PrevAllocAt(mem, brk - 1), false)
    requires m2.mem[brk - 1 + asz / WSIZE - 1] == m2.mem[brk - 1]
    requires Unlisted(lists, brk - 1)
    ensures brk + 1 < |m2.mem| && 0 <= ClassOf(m2.mem, brk - 1) && m2.root[ClassOf(m2.mem, brk - 1)] + 2 < |m2.mem|
    ensures ClassOf(m2.mem, brk - 1) == FindFreeList(asz)
    ensures var l := Link(m2, brk - 1);
      var b1 := GrowBlocks(blocks, brk);
      var L1 := With(m2.mem, lists, brk - 1);
      Tiled(l.mem, brk + asz / WSIZE, b1) && Members(l.mem, b1, L1) && LinksOK(l.mem, l.root, l.leaf, L1) &&
      KeepsOutside(mem, brk, blocks, |blocks|, |blocks|, l.mem, brk + asz / WSIZE) &&
      l.mem[brk - 1] == m2.mem[brk - 1] && l.mem[brk - 1 + asz / WSIZE - 1] == m2.mem[brk - 1]
  {
    var h := brk - 1;
    var lo := |blocks|;
    var brk2 := brk + asz / WSIZE;
    var b1 := GrowBlocks(blocks, brk);
    PackRoundTrip(asz, PrevDsizeAt(mem, h), PrevAllocAt(mem, h), false);
    SpliceFacts(blocks, lo, [h], lo);
    assert b1[lo] == h;
    LinkKeeps(m2, brk2, b1, lists, lo);
    TagsKeepOutside(mem, brk, blocks, lo, [h], lo, m2.mem, brk2, Link(m2, h).mem);
    assert ShowsFooter(m2.mem, b1, lo);
    assert FooterOf(m2.mem, brk2, b1, lo) == h + asz / WSIZE - 1;
  }

  /** Writing the new epilogue after the new block. */
  lemma EpilogueStage(mem: Mem, brk: nat, blocks: seq<nat>, brk2: nat, b1: seq<nat>, L1: seq<seq<nat>>, l: Heap)
    requires Tiled(mem, brk, blocks) && brk < brk2
    requires Tiled(l.mem, brk2, b1) && Members(l.mem, b1, L1) && LinksOK(l.mem, l.root, l.leaf, L1)
    requires KeepsOutside(mem, brk, blocks, |blocks|, |blocks|, l.mem, brk2)
    ensures var m4 := l.mem[brk2 - 1 := EpilogueWord()];
      Tiled(m4, brk2, b1) && Members(m4, b1, L1) && LinksOK(m4, l.root, l.leaf, L1) &&
      KeepsOutside(mem, brk, blocks, |blocks|, |blocks|, m4, brk2)
  {
    var p := brk2 - 1;
    assert p !in b1 by {
      forall j | 0 <= j < |b1|
        ensures b1[j] != p
      {
      }
    }
    WriteTiled(l.mem, brk2, b1, p, EpilogueWord());
    NotLinkEpilogue(l.mem, brk2, b1, L1);
    WriteLists(l.mem, b1, l.root, l.leaf, L1, p, EpilogueWord());
    assert InRegion(mem, brk, blocks, |blocks|, |blocks|, p);
    RegionWrite(mem, brk, blocks, |blocks|, |blocks|, l.mem, p, EpilogueWord());
  }

  /** The new epilogue word: size 0, allocated, after a free block that is
      not a 16-byte block. */
  lemma EpilogueFields()
    ensures ExtractSize(EpilogueWord()) == 0 && ExtractAlloc(EpilogueWord())
    ensures !ExtractPrevAlloc(EpilogueWord()) && !ExtractPrevDsize(EpilogueWord())
  {
    PackRoundTrip(0, false, false, true);
  }

  /** The header at brk - 1 is that of a free block of `asz` bytes with the
      cached bits the old epilogue had in `mem`. */
  ghost predicate NewBlockAt(m: Mem, mem: Mem, brk: nat, asz: nat)
    requires 1 <= brk <= |m| && brk <= |mem|
  {
    SizeAt(m, brk - 1) == asz && !AllocAt(m, brk - 1) &&
    PrevAllocAt(m, brk - 1) == PrevAllocAt(mem, brk - 1) && PrevDsizeAt(m, brk - 1) == PrevDsizeAt(mem, brk - 1)
  }

  /** The word at p is an epilogue that follows a free block other than a
      16-byte one. */
  ghost predicate EpilogueAt(m: Mem, p: nat)
    requires p < |m|
  {
    SizeAt(m, p) == 0 && AllocAt(m, p) && !PrevAllocAt(m, p) && !PrevDsizeAt(m, p)
  }

  /** The last old block's bits, now cached in the new block's header,
      which copied them from the old epilogue. */
  lemma GrowBitsBefore(mem: Mem, brk: nat, blocks: seq<nat>, asz: nat, m4: Mem)
    requires Tiled(mem, brk, blocks) && |blocks| > 0 && BitsOK(mem, brk, blocks, |blocks| - 1)
    requires Tiled(m4, brk + asz / WSIZE, GrowBlocks(blocks, brk))
    requires m4[blocks[|blocks| - 1]] == mem[blocks[|blocks| - 1]]
    requires NewBlockAt(m4, mem, brk, asz)
    ensures BitsOK(m4, brk + asz / WSIZE, GrowBlocks(blocks, brk), |blocks| - 1)
  {
    var lo := |blocks|;
    var b1 := GrowBlocks(blocks, brk);
    assert b1 == blocks + [brk - 1];
    assert b1[lo - 1] == blocks[lo - 1] && Succ(b1, brk + asz / WSIZE, lo - 1) == brk - 1;
    assert Succ(blocks, brk, lo - 1) == brk - 1;
  }

  /** The new block's own bits, cached in the new epilogue, and its footer. */
  lemma GrowBitsAt(mem: Mem, brk: nat, blocks: seq<nat>, asz: nat, m4: Mem)
    requires 2 * DSIZE <= asz && brk >= 1
    requires Tiled(m4, brk + asz / WSIZE, GrowBlocks(blocks, brk)) && brk <= |mem|
    requires NewBlockAt(m4, mem, brk, asz) && EpilogueAt(m4, brk - 1 + asz / WSIZE)
    requires m4[brk - 1 + asz / WSIZE - 1] == m4[brk - 1]
    ensures BitsOK(m4, brk + asz / WSIZE, GrowBlocks(blocks, brk), |blocks|)
    ensures FooterOK(m4, brk + asz / WSIZE, GrowBlocks(blocks, brk), |blocks|)
  {
    var lo := |blocks|;
    var b1 := GrowBlocks(blocks, brk);
    var brk2 := brk + asz / WSIZE;
    assert b1 == blocks + [brk - 1];
    assert Succ(b1, brk2, lo) == brk2 - 1;
    assert FooterOf(m4, brk2, b1, lo) == brk - 1 + asz / WSIZE - 1;
  }

  /** The new block's bits, footer and neighbours: the conditions at the
      junction of the grown heap. */
  lemma GrowJunction(mem: Mem, brk: nat, blocks: seq<nat>, asz: nat, m4: Mem)
    requires Tiled(mem, brk, blocks) && Tags(mem, brk, blocks, -1) && 2 * DSIZE <= asz
    requires Tiled(m4, brk + asz / WSIZE, GrowBlocks(blocks, brk))
    requires KeepsOutside(mem, brk, blocks, |blocks|, |blocks|, m4, brk + asz / WSIZE)
    requires NewBlockAt(m4, mem, brk, asz) && EpilogueAt(m4, brk - 1 + asz / WSIZE)
    requires m4[brk - 1 + asz / WSIZE - 1] == m4[brk - 1]
    ensures Sentinels(m4, brk + asz / WSIZE)
    ensures |blocks| == 0 ==> FirstBits(m4, brk + asz / WSIZE, GrowBlocks(blocks, brk))
    ensures Junction(m4, brk + asz / WSIZE, GrowBlocks(blocks, brk), |blocks|, 1, |blocks|)
  {
    var lo := |blocks|;
    assert Sentinels(mem, brk);
    if lo == 0 {
      assert FirstBits(mem, brk, blocks);
      assert GrowBlocks(blocks, brk) == [brk - 1];
    } else {
      assert BitsOK(mem, brk, blocks, lo - 1);
      GrowBitsBefore(mem, brk, blocks, asz, m4);
    }
    GrowBitsAt(mem, brk, blocks, asz, m4);
  }

  /** The grown heap keeps the whole invariant, exempting only the new
      block and the block before it from adjacency, and the new block is
      free: `coalesce_block` may run on it. */
  lemma GrowReady(s: Heap, brk: nat, blocks: seq<nat>, lists: seq<seq<nat>>, size: nat)
    requires Growable(s, brk, blocks, lists, size)
    ensures Ready(Grow(s, brk, blocks, lists, size), GrowBrk(brk, size), GrowBlocks(blocks, brk),
                  GrowLists(lists, brk, size), |blocks|)
    ensures brk - 1 < |s.mem| && GrowBlocks(blocks, brk)[|blocks|] == brk - 1
    ensures SizeAt(Grow(s, brk, blocks, lists, size).mem, brk - 1) == GrowSize(size)
  {
    GrowBounds(s, brk, blocks, lists, size);
    var h := brk - 1;
    var asz := GrowSize(size);
    var lo := |blocks|;
    var brk2 := GrowBrk(brk, size);
    var b1 := GrowBlocks(blocks, brk);
    var m2 := WriteFree(s.mem, h, asz, PrevDsizeAt(s.mem, h), PrevAllocAt(s.mem, h));
    WriteStage(s.mem, brk, s.root, s.leaf, blocks, lists, asz, m2);
    LinkStage(s.mem, brk, blocks, lists, asz, Heap(m2, s.root, s.leaf));
    var l := Link(Heap(m2, s.root, s.leaf), h);
    var L1 := GrowLists(lists, brk, size);
    assert L1 == With(m2, lists, h);
    EpilogueStage(s.mem, brk, blocks, brk2, b1, L1, l);
    var r := Grow(s, brk, blocks, lists, size);
    assert r.mem == l.mem[brk2 - 1 := EpilogueWord()];
    PackRoundTrip(asz, PrevDsizeAt(s.mem, h), PrevAllocAt(s.mem, h), false);
    EpilogueFields();
    assert NewBlockAt(r.mem, s.mem, brk, asz) && EpilogueAt(r.mem, brk2 - 1);
    assert InClass(L1, FindFreeList(asz), h);
    GrowWindow(s.mem, brk, blocks, lists, asz, r.mem, r.root, r.leaf, L1);
  }

  /** The grown heap keeps the whole invariant from the conditions each
      step establishes. */
  lemma GrowWindow(mem: Mem, brk: nat, blocks: seq<nat>, lists: seq<seq<nat>>, asz: nat,
                   m4: Mem, root2: seq<nat>, leaf2: seq<nat>, L1: seq<seq<nat>>)
    requires Tiled(mem, brk, blocks) && Tags(mem, brk, blocks, -1) && Complete(mem, brk, blocks, lists)
    requires 2 * DSIZE <= asz && |m4| == |mem| && |L1| == |lists|
    requires Tiled(m4, brk + asz / WSIZE, GrowBlocks(blocks, brk))
    requires Members(m4, GrowBlocks(blocks, brk), L1) && LinksOK(m4, root2, leaf2, L1)
    requires KeepsOutside(mem, brk, blocks, |blocks|, |blocks|, m4, brk + asz / WSIZE)
    requires NewBlockAt(m4, mem, brk, asz) && EpilogueAt(m4, brk - 1 + asz / WSIZE)
    requires m4[brk - 1 + asz / WSIZE - 1] == m4[brk - 1]
    requires forall d, x :: 0 <= d < |lists| && x in lists[d] ==> x in L1[d]
    requires InClass(L1, FindFreeList(asz), brk - 1)
    ensures Inv(m4, brk + asz / WSIZE, root2, leaf2, GrowBlocks(blocks, brk), L1, |blocks|)
  {
    var lo := |blocks|;
    var b1 := GrowBlocks(blocks, brk);
    GrowJunction(mem, brk, blocks, asz, m4);
    assert b1 == blocks + [brk - 1];
    assert Listed(m4, brk + asz / WSIZE, b1, L1, lo);
    WindowInv(mem, brk, blocks, lists, -1, lo, [brk - 1], lo, m4, brk + asz / WSIZE, root2, leaf2, L1, lo);
  }

  /** `extend_heap(size)` (mm.c:405-439): None when `mem_sbrk` fails, and
      otherwise the heap after the new block is coalesced; the break is
      then `GrowBrk(brk, size)`. */
  ghost function Extend(s: Heap, brk: nat, blocks: seq<nat>, lists: seq<seq<nat>>, size: nat): (r: Option<Merged>)
    requires Inv(s.mem, brk, s.root, s.leaf, blocks, lists, -1) && DSIZE < size
  {
    if !CanGrow(s.mem, brk, size) then None
    else
      GrowReady(s, brk, blocks, lists, size);
      Some(Coalesce(Grow(s, brk, blocks, lists, size), GrowBrk(brk, size), GrowBlocks(blocks, brk),
                    GrowLists(lists, brk, size), |blocks|))
  }

  /** `extend_heap` fails exactly when the arena has no room; otherwise the
      heap keeps the whole invariant at the new break, and the block it
      returns is free, covers the old epilogue and holds at least the
      rounded request. */
  lemma ExtendInv(s: Heap, brk: nat, blocks: seq<nat>, lists: seq<seq<nat>>, size: nat)
    requires Inv(s.mem, brk, s.root, s.leaf, blocks, lists, -1) && DSIZE < size
    ensures Extend(s, brk, blocks, lists, size).None? <==> !CanGrow(s.mem, brk, size)
    ensures CanGrow(s.mem, brk, size) ==>
      var r := Extend(s, brk, blocks, lists, size).value;
      Inv(r.s.mem, GrowBrk(brk, size), r.s.root, r.s.leaf, r.blocks, r.lists, -1) &&
      r.block in r.blocks && r.block < |r.s.mem| && !AllocAt(r.s.mem, r.block) &&
      r.block <= brk - 1 < r.block + WidthAt(r.s.mem, r.block) &&
      size <= GrowSize(size) <= SizeAt(r.s.mem, r.block)
  {
    RoundUpSpec(size);
    if CanGrow(s.mem, brk, size) {
      GrowReady(s, brk, blocks, lists, size);
      var g := Grow(s, brk, blocks, lists, size);
      CoalescedGrow(g, GrowBrk(brk, size), GrowBlocks(blocks, brk), GrowLists(lists, brk, size), |blocks|,
                    brk - 1, GrowSize(size), Extend(s, brk, blocks, lists, size).value);
    }
  }

  /** What `coalesce_block` gives on the grown heap, about the block i that
      sits at the old epilogue and holds asz bytes. */
  lemma CoalescedGrow(g: Heap, brk2: nat, b1: seq<nat>, L1: seq<seq<nat>>, i: nat, epi: nat, asz: nat, r: Merged)
    requires Ready(g, brk2, b1, L1, i) && b1[i] == epi && epi < |g.mem| && SizeAt(g.mem, epi) == asz
    requires r == Coalesce(g, brk2, b1, L1, i)
    ensures Inv(r.s.mem, brk2, r.s.root, r.s.leaf, r.blocks, r.lists, -1)
    ensures r.block in r.blocks && r.block < |r.s.mem| && !AllocAt(r.s.mem, r.block)
    ensures r.block <= epi < r.block + WidthAt(r.s.mem, r.block) && asz <= SizeAt(r.s.mem, r.block)
  {
    CoalesceInv(g, brk2, b1, L1, i);
  }

  /** Growing changes no allocated block: the new block lies past the old
      epilogue. */
  lemma GrowKeeps(s: Heap, brk: nat, blocks: seq<nat>, lists: seq<seq<nat>>, size: nat)
    requires Growable(s, brk, blocks, lists, size)
    ensures KeepsAllocated(s.mem, blocks, Grow(s, brk, blocks, lists, size).mem, GrowBlocks(blocks, brk), -1)
  {
    GrowBounds(s, brk, blocks, lists, size);
    var h := brk - 1;
    var asz := GrowSize(size);
    var brk2 := GrowBrk(brk, size);
    var b1 := GrowBlocks(blocks, brk);
    var m2 := WriteFree(s.mem, h, asz, PrevDsizeAt(s.mem, h), PrevAllocAt(s.mem, h));
    WriteStage(s.mem, brk, s.root, s.leaf, blocks, lists, asz, m2);
    LinkStage(s.mem, brk, blocks, lists, asz, Heap(m2, s.root, s.leaf));
    var l := Link(Heap(m2, s.root, s.leaf), h);
    EpilogueStage(s.mem, brk, blocks, brk2, b1, With(m2, lists, h), l);
    var r := Grow(s, brk, blocks, lists, size);
    assert r.mem == l.mem[brk2 - 1 := EpilogueWord()];
    WindowKeepsAllocated(s.mem, brk, blocks, |blocks|, [h], |blocks|, r.mem, brk2, -1);
  }

  /** `extend_heap` changes no allocated block. */
  lemma ExtendKeeps(s: Heap, brk: nat, blocks: seq<nat>, lists: seq<seq<nat>>, size: nat)
    requires Inv(s.mem, brk, s.root, s.leaf, blocks, lists, -1) && DSIZE < size
    ensures CanGrow(s.mem, brk, size) ==>
      var r := Extend(s, brk, blocks, lists, size).value;
      KeepsAllocated(s.mem, blocks, r.s.mem, r.blocks, -1)
  {
    if CanGrow(s.mem, brk, size) {
      GrowReady(s, brk, blocks, lists, size);
      GrowKeeps(s, brk, blocks, lists, size);
      var g := Grow(s, brk, blocks, lists, size);
      var b1 := GrowBlocks(blocks, brk);
      CoalesceKeeps(g, GrowBrk(brk, size), b1, GrowLists(lists, brk, size), |blocks|);
      var r := Extend(s, brk, blocks, lists, size).value;
      KeepsAllocatedTrans(s.mem, blocks, g.mem, b1, r.s.mem, r.blocks, -1, -1);
    }
  }
}
