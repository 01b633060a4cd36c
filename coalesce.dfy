/** `coalesce_block`: merge a free block with its free neighbours. The
    block's own header says whether the block before it is allocated and
    whether it is a 16-byte block; the header after it says whether the
    next block is allocated. Four cases:
      1. both neighbours allocated: nothing changes;
      2. only the next block free: block and next merge at the block;
      3. only the previous block free: previous and block merge at the
         previous block;
      4. both free: all three merge at the previous block.
    In each merging case the header after the merged block forgets that its
    predecessor was a 16-byte block, the old blocks leave their lists, the
    merged block gets header and footer and joins the list of its size. */
module CoalesceOp {
  import opened Codec
  import opened Sizes
  import opened FreeLists
  import opened HeapModel
  import opened LinkModel
  import opened Layout
  import opened Window

  /** `find_next`: the header that follows block h. */
  function NextHeader(mem: Mem, h: nat): nat
    requires h < |mem|
  {
    h + WidthAt(mem, h)
  }

  /** `header & ~dsize_mask` written back at p: the block at p no longer
      follows a 16-byte block. */
  function ClearDsize(mem: Mem, p: nat): (r: Mem)
    requires p < |mem|
    ensures |r| == |mem|
  {
    mem[p := ClearBits(mem[p], DSIZE_MASK)]
  }

  /** `my_write_header` then `my_write_footer` for a free block of the given
      size at h; the footer is the last word of the new span. */
  function WriteFree(mem: Mem, h: nat, size: Word, prevDsize: bool, prevAlloc: bool): (r: Mem)
    requires WSIZE <= size && h + size / WSIZE <= |mem|
    ensures |r| == |mem|
  {
    var w := Pack(size, prevDsize, prevAlloc, false);
    mem[h := w][h + size / WSIZE - 1 := w]
  }

  /** The previous block's header as `coalesce_block` finds it: 16 bytes
      back when h's header says the previous block is a 16-byte block,
      otherwise `find_prev`, which reads its size from its footer. */
  function PrevHeader(mem: Mem, h: nat): int
    requires 1 <= h < |mem|
  {
    if ExtractPrevDsize(mem[h]) then h - 2 else h - ExtractSize(mem[h - 1]) / WSIZE
  }

  // ---------------------------------------------------------------------
  // Stages shared by the merging cases.

  /** Clearing the dsize bit of the header that ends the window lo..hi keeps
      the tiling, the lists, and everything outside the window. */
  lemma ClearStage(mem: Mem, brk: nat, root: seq<nat>, leaf: seq<nat>, blocks: seq<nat>, lists: seq<seq<nat>>,
                   lo: nat, hi: nat)
    requires Tiled(mem, brk, blocks) && Members(mem, blocks, lists) && LinksOK(mem, root, leaf, lists)
    requires lo < hi <= |blocks|
    ensures At(blocks, brk, hi) < |mem|
    ensures Tiled(ClearDsize(mem, At(blocks, brk, hi)), brk, blocks)
    ensures Members(ClearDsize(mem, At(blocks, brk, hi)), blocks, lists)
    ensures LinksOK(ClearDsize(mem, At(blocks, brk, hi)), root, leaf, lists)
    ensures KeepsOutside(mem, brk, blocks, lo, hi, ClearDsize(mem, At(blocks, brk, hi)), brk)
  {
    var q := At(blocks, brk, hi);
    var v := ClearBits(mem[q], DSIZE_MASK);
    ClearPrevDsizeFacts(mem[q]);
    assert SameKind(v, mem[q]);
    if hi < |blocks| {
      TiledFacts(mem, brk, blocks, hi);
      NotLinkOwned(mem, brk, blocks, lists, hi, q);
      TiledOrder(mem, brk, blocks, lo, hi);
    } else {
      NotLinkEpilogue(mem, brk, blocks, lists);
    }
    WriteTiled(mem, brk, blocks, q, v);
    WriteLists(mem, blocks, root, leaf, lists, q, v);
    SameOutsideRefl(mem, brk, blocks, lo, hi);
    RegionWrite(mem, brk, blocks, lo, hi, mem, q, v);
  }

  /** The merged block spans the window lo..hi: its header is the header
      of block lo and its footer lies strictly inside block hi - 1. */
  lemma MergeSpan(mem: Mem, brk: nat, blocks: seq<nat>, lo: nat, hi: nat, size: Word)
    requires Tiled(mem, brk, blocks) && lo < hi <= |blocks|
    requires size % 16 == 0 && size >= 2 * DSIZE && blocks[lo] + size / WSIZE == At(blocks, brk, hi)
    ensures blocks[hi - 1] < blocks[lo] + size / WSIZE - 1 < At(blocks, brk, hi) <= brk - 1 < |mem|
    ensures blocks[hi - 1] + WidthAt(mem, blocks[hi - 1]) == At(blocks, brk, hi)
    ensures forall j :: 0 <= j < |blocks| && j != lo ==> blocks[j] != blocks[lo]
    ensures forall j :: 0 <= j < |blocks| ==> blocks[j] != blocks[lo] + size / WSIZE - 1
  {
    TiledFacts(mem, brk, blocks, lo);
    TiledFacts(mem, brk, blocks, hi - 1);
    assert BlockOK(mem, brk, blocks, hi - 1);
    SucceedsAt(blocks, brk, hi - 1);
    OwnerUnique(mem, brk, blocks, lo, blocks[lo]);
    OwnerUnique(mem, brk, blocks, hi - 1, blocks[lo] + size / WSIZE - 1);
  }

  /** The merged block tiles the window. */
  lemma MergeTiled(mem: Mem, brk: nat, blocks: seq<nat>, lo: nat, hi: nat,
                   size: Word, prevDsize: bool, prevAlloc: bool)
    requires Tiled(mem, brk, blocks) && lo < hi <= |blocks|
    requires size % 16 == 0 && size >= 2 * DSIZE && blocks[lo] + size / WSIZE == At(blocks, brk, hi)
    ensures blocks[lo] + size / WSIZE <= |mem|
    ensures Tiled(WriteFree(mem, blocks[lo], size, prevDsize, prevAlloc), brk, Splice(blocks, lo, [blocks[lo]], hi))
  {
    MergeSpan(mem, brk, blocks, lo, hi, size);
    var p := blocks[lo];
    var m := WriteFree(mem, p, size, prevDsize, prevAlloc);
    PackRoundTrip(size, prevDsize, prevAlloc, false);
    assert m[p] == Pack(size, prevDsize, prevAlloc, false);
    assert SizeAt(m, p) == size && ValidBlockSize(size);
    assert p < brk - 1 && |m| == |mem| && p + WidthAt(m, p) == End(blocks, hi, brk);
    assert MidTiles(m, brk, [p], At(blocks, brk, lo), End(blocks, hi, brk));
    SpliceTiled(mem, brk, blocks, lo, [p], hi, m, brk);
  }

  /** Every listed block outside the window keeps its kind and its place in
      the layout. */
  lemma MergeMembers(mem: Mem, brk: nat, blocks: seq<nat>, lo: nat, hi: nat, lists: seq<seq<nat>>,
                     size: Word, prevDsize: bool, prevAlloc: bool)
    requires Tiled(mem, brk, blocks) && lo < hi <= |blocks| && Members(mem, blocks, lists)
    requires forall t :: lo <= t < hi ==> Unlisted(lists, blocks[t])
    requires size % 16 == 0 && size >= 2 * DSIZE && blocks[lo] + size / WSIZE == At(blocks, brk, hi)
    ensures blocks[lo] + size / WSIZE <= |mem|
    ensures Members(WriteFree(mem, blocks[lo], size, prevDsize, prevAlloc), Splice(blocks, lo, [blocks[lo]], hi), lists)
  {
    MergeSpan(mem, brk, blocks, lo, hi, size);
    var p := blocks[lo];
    var m := WriteFree(mem, p, size, prevDsize, prevAlloc);
    var b2 := Splice(blocks, lo, [p], hi);
    SpliceFacts(blocks, lo, [p], hi);
    forall c, k | 0 <= c < |lists| && 0 <= k < |lists[c]|
      ensures lists[c][k] in b2 && (lists[c][k] < |mem| ==> SameKind(m[lists[c][k]], mem[lists[c][k]]))
    {
      assert MemberOK(mem, blocks, lists, c, k);
      var t := IndexOf(blocks, lists[c][k]);
      assert !Unlisted(lists, blocks[t]);
      if t < lo {
        assert b2[t] == blocks[t];
      } else {
        assert b2[t - hi + lo + 1] == blocks[t];
      }
    }
    MembersKind(mem, blocks, lists, m, b2);
  }

  /** The merged block's header and footer are no link word of a listed
      block. */
  lemma MergeLinks(mem: Mem, brk: nat, blocks: seq<nat>, lo: nat, hi: nat,
                   root: seq<nat>, leaf: seq<nat>, lists: seq<seq<nat>>,
                   size: Word, prevDsize: bool, prevAlloc: bool)
    requires Tiled(mem, brk, blocks) && lo < hi <= |blocks|
    requires Members(mem, blocks, lists) && LinksOK(mem, root, leaf, lists)
    requires Unlisted(lists, blocks[lo]) && Unlisted(lists, blocks[hi - 1])
    requires size % 16 == 0 && size >= 2 * DSIZE && blocks[lo] + size / WSIZE == At(blocks, brk, hi)
    ensures blocks[lo] + size / WSIZE <= |mem|
    ensures LinksOK(WriteFree(mem, blocks[lo], size, prevDsize, prevAlloc), root, leaf, lists)
  {
    MergeSpan(mem, brk, blocks, lo, hi, size);
    var p := blocks[lo];
    var f := p + size / WSIZE - 1;
    var w := Pack(size, prevDsize, prevAlloc, false);
    TiledFacts(mem, brk, blocks, lo);
    NotLinkOwned(mem, brk, blocks, lists, lo, p);
    NotLinkOwned(mem, brk, blocks, lists, hi - 1, f);
    UpdateKeepsLinks(mem, root, leaf, lists, p, w);
    UpdateKeepsLinks(mem[p := w], root, leaf, lists, f, w);
  }

  /** Nothing outside the window changes when the merged block is written. */
  lemma MergeOutside(mem0: Mem, brk: nat, blocks: seq<nat>, lo: nat, hi: nat, mem: Mem,
                     size: Word, prevDsize: bool, prevAlloc: bool)
    requires Tiled(mem0, brk, blocks) && lo < hi <= |blocks|
    requires Tiled(mem, brk, blocks) && KeepsOutside(mem0, brk, blocks, lo, hi, mem, brk)
    requires size % 16 == 0 && size >= 2 * DSIZE && blocks[lo] + size / WSIZE == At(blocks, brk, hi)
    ensures blocks[lo] + size / WSIZE <= |mem|
    ensures KeepsOutside(mem0, brk, blocks, lo, hi, WriteFree(mem, blocks[lo], size, prevDsize, prevAlloc), brk)
  {
    MergeSpan(mem, brk, blocks, lo, hi, size);
    var p := blocks[lo];
    var f := p + size / WSIZE - 1;
    var w := Pack(size, prevDsize, prevAlloc, false);
    TiledFacts(mem, brk, blocks, lo);
    if hi < |blocks| {
      assert SameKind(mem[blocks[hi]], mem0[blocks[hi]]);
      assert WidthAt(mem0, blocks[hi]) == WidthAt(mem, blocks[hi]);
    }
    assert InRegion(mem0, brk, blocks, lo, hi, p);
    assert InRegion(mem0, brk, blocks, lo, hi, f);
    RegionWrite(mem0, brk, blocks, lo, hi, mem, p, w);
    RegionWrite(mem0, brk, blocks, lo, hi, mem[p := w], f, w);
  }

  /** Writing the merged free block over the window lo..hi, whose blocks are
      in no list: the layout becomes `blocks` with the window replaced by
      its first header, and nothing outside the window changes. */
  lemma MergeStage(mem0: Mem, brk: nat, blocks: seq<nat>, lo: nat, hi: nat,
                   mem: Mem, root: seq<nat>, leaf: seq<nat>, lists: seq<seq<nat>>,
                   size: Word, prevDsize: bool, prevAlloc: bool)
    requires Tiled(mem0, brk, blocks) && lo < hi <= |blocks|
    requires Tiled(mem, brk, blocks) && KeepsOutside(mem0, brk, blocks, lo, hi, mem, brk)
    requires Members(mem, blocks, lists) && LinksOK(mem, root, leaf, lists)
    requires forall t :: lo <= t < hi ==> Unlisted(lists, blocks[t])
    requires size % 16 == 0 && size >= 2 * DSIZE && blocks[lo] + size / WSIZE == At(blocks, brk, hi)
    ensures WSIZE <= size && blocks[lo] + size / WSIZE <= |mem|
    ensures Tiled(WriteFree(mem, blocks[lo], size, prevDsize, prevAlloc), brk, Splice(blocks, lo, [blocks[lo]], hi))
    ensures KeepsOutside(mem0, brk, blocks, lo, hi, WriteFree(mem, blocks[lo], size, prevDsize, prevAlloc), brk)
    ensures Members(WriteFree(mem, blocks[lo], size, prevDsize, prevAlloc), Splice(blocks, lo, [blocks[lo]], hi), lists)
    ensures LinksOK(WriteFree(mem, blocks[lo], size, prevDsize, prevAlloc), root, leaf, lists)
  {
    MergeTiled(mem, brk, blocks, lo, hi, size, prevDsize, prevAlloc);
    MergeMembers(mem, brk, blocks, lo, hi, lists, size, prevDsize, prevAlloc);
    MergeLinks(mem, brk, blocks, lo, hi, root, leaf, lists, size, prevDsize, prevAlloc);
    MergeOutside(mem0, brk, blocks, lo, hi, mem, size, prevDsize, prevAlloc);
  }

  // ---------------------------------------------------------------------
  // Unlinking the merged blocks, in the order the source deletes them.

  /** The heap and the lists after a run of deletions. */
  datatype Stage = Stage(s: Heap, lists: seq<seq<nat>>)

  /** Each block of `dels` is a distinct listed block of the layout. */
  ghost predicate Deletable(s: Heap, brk: nat, blocks: seq<nat>, lists: seq<seq<nat>>, dels: seq<nat>) {
    Tiled(s.mem, brk, blocks) && Members(s.mem, blocks, lists) && LinksOK(s.mem, s.root, s.leaf, lists) &&
    Distinct(dels) &&
    forall k :: 0 <= k < |dels| ==>
      dels[k] in blocks && dels[k] < |s.mem| && 0 <= ClassOf(s.mem, dels[k]) && dels[k] in lists[ClassOf(s.mem, dels[k])]
  }

  /** `delete_block_from_list` applied to each block of `dels` in turn. */
  ghost function UnlinkAll(s: Heap, brk: nat, blocks: seq<nat>, lists: seq<seq<nat>>, dels: seq<nat>): (r: Stage)
    requires Deletable(s, brk, blocks, lists, dels)
    ensures |r.s.mem| == |s.mem| && |r.s.root| == NUM && |r.s.leaf| == NUM && |r.lists| == NUM
    decreases |dels|
  {
    if dels == [] then
      Stage(s, lists)
    else
      UnlinkRest(s, brk, blocks, lists, dels);
      UnlinkAll(Unlink(s, lists, dels[0]), brk, blocks, Without(s.mem, lists, dels[0]), dels[1..])
  }

  /** After the first deletion the remaining blocks are still deletable. */
  lemma UnlinkRest(s: Heap, brk: nat, blocks: seq<nat>, lists: seq<seq<nat>>, dels: seq<nat>)
    requires Deletable(s, brk, blocks, lists, dels) && |dels| > 0
    ensures LinksOK(s.mem, s.root, s.leaf, lists) && |s.mem| <= MAX_WORDS && dels[0] < |s.mem|
    ensures 0 <= ClassOf(s.mem, dels[0]) && dels[0] in lists[ClassOf(s.mem, dels[0])]
    ensures Deletable(Unlink(s, lists, dels[0]), brk, blocks, Without(s.mem, lists, dels[0]), dels[1..])
  {
    var h := dels[0];
    var r := Unlink(s, lists, h);
    UnlinkKeeps(s, brk, blocks, lists, h);
    forall k | 0 <= k < |dels| - 1
      ensures ClassOf(r.mem, dels[1..][k]) == ClassOf(s.mem, dels[1..][k])
      ensures dels[1..][k] in Without(s.mem, lists, h)[ClassOf(s.mem, dels[1..][k])]
    {
      var x := dels[k + 1];
      var j := IndexOf(blocks, x);
      assert r.mem[blocks[j]] == s.mem[blocks[j]];
      assert x != h;
    }
  }

  /** A run of deletions keeps every tag, and leaves the deleted blocks in
      no list. */
  lemma {:induction false} UnlinkAllKeeps(s: Heap, brk: nat, blocks: seq<nat>, lists: seq<seq<nat>>, dels: seq<nat>)
    requires Deletable(s, brk, blocks, lists, dels)
    ensures SameTags(s.mem, UnlinkAll(s, brk, blocks, lists, dels).s.mem, brk, blocks)
    ensures Tiled(UnlinkAll(s, brk, blocks, lists, dels).s.mem, brk, blocks)
    ensures Members(UnlinkAll(s, brk, blocks, lists, dels).s.mem, blocks, UnlinkAll(s, brk, blocks, lists, dels).lists)
    ensures var r := UnlinkAll(s, brk, blocks, lists, dels); LinksOK(r.s.mem, r.s.root, r.s.leaf, r.lists)
    decreases |dels|
  {
    if dels != [] {
      var h := dels[0];
      UnlinkRest(s, brk, blocks, lists, dels);
      UnlinkKeeps(s, brk, blocks, lists, h);
      var s1 := Unlink(s, lists, h);
      var l1 := Without(s.mem, lists, h);
      UnlinkAllKeeps(s1, brk, blocks, l1, dels[1..]);
      var r := UnlinkAll(s1, brk, blocks, l1, dels[1..]);
      assert UnlinkAll(s, brk, blocks, lists, dels) == r;
      SameTagsTrans(s.mem, s1.mem, r.s.mem, brk, blocks);
    }
  }

  /** A run of deletions removes exactly the deleted blocks from the lists:
      x stays in list d exactly when it was there and was not deleted. */
  lemma {:induction false} UnlinkAllLists(s: Heap, brk: nat, blocks: seq<nat>, lists: seq<seq<nat>>, dels: seq<nat>,
                                          d: nat, x: nat)
    requires Deletable(s, brk, blocks, lists, dels) && d < NUM
    ensures x in UnlinkAll(s, brk, blocks, lists, dels).lists[d] <==> x in lists[d] && x !in dels
    decreases |dels|
  {
    if dels != [] {
      var h := dels[0];
      UnlinkRest(s, brk, blocks, lists, dels);
      UnlinkKeeps(s, brk, blocks, lists, h);
      var s1 := Unlink(s, lists, h);
      var l1 := Without(s.mem, lists, h);
      UnlinkAllLists(s1, brk, blocks, l1, dels[1..], d, x);
      var c := ClassOf(s.mem, h) as nat;
      RemoveMembers(lists[c], h);
      assert x in dels <==> x == h || x in dels[1..];
      if d != c {
        assert Separate(lists);
        assert l1[d] == lists[d];
      }
    }
  }

  // ---------------------------------------------------------------------
  // One merge: the window blocks[lo..hi), all free, becomes one free block.

  /** What a merge leaves: the heap, the block layout, the lists, and the
      merged block `coalesce_block` returns. */
  datatype Merged = Merged(s: Heap, blocks: seq<nat>, lists: seq<seq<nat>>, block: nat)

  /** The window lo..hi holds at least two blocks, all free and listed, and
      `dels` names each of them once. */
  ghost predicate Mergeable(s: Heap, brk: nat, blocks: seq<nat>, lists: seq<seq<nat>>, lo: nat, hi: nat, dels: seq<nat>) {
    Tiled(s.mem, brk, blocks) && Members(s.mem, blocks, lists) && LinksOK(s.mem, s.root, s.leaf, lists) &&
    lo + 2 <= hi <= |blocks| && Distinct(dels) &&
    (forall t :: lo <= t < hi ==> blocks[t] in dels) &&
    (forall k :: 0 <= k < |dels| ==> dels[k] in blocks[lo..hi]) &&
    (forall t :: lo <= t < hi ==> !AllocAt(s.mem, blocks[t]) && Listed(s.mem, brk, blocks, lists, t))
  }

  /** Step 1: the header after the window forgets its 16-byte predecessor. */
  function Cleared(s: Heap, brk: nat, blocks: seq<nat>, hi: nat): (r: Heap)
    requires Tiled(s.mem, brk, blocks) && 0 < hi <= |blocks|
    ensures |r.mem| == |s.mem|
  {
    Heap(ClearDsize(s.mem, At(blocks, brk, hi)), s.root, s.leaf)
  }

  /** Step 2: every block of the window leaves its list, in the order `dels`. */
  ghost function Unlinked(s: Heap, brk: nat, blocks: seq<nat>, lists: seq<seq<nat>>, lo: nat, hi: nat, dels: seq<nat>): (r: Stage)
    requires Mergeable(s, brk, blocks, lists, lo, hi, dels)
    ensures |r.s.mem| == |s.mem| && |r.lists| == NUM
  {
    ClearedDeletable(s, brk, blocks, lists, lo, hi, dels);
    UnlinkAll(Cleared(s, brk, blocks, hi), brk, blocks, lists, dels)
  }

  /** The merged block's size in bytes: the window's whole span. */
  function MergedSize(blocks: seq<nat>, brk: nat, lo: nat, hi: nat): nat
    requires lo < hi <= |blocks| && brk >= 1
  {
    if blocks[lo] <= At(blocks, brk, hi) then (At(blocks, brk, hi) - blocks[lo]) * WSIZE else 0
  }

  /** Step 3: header and footer of the merged block, keeping the bits the
      first block of the window had. */
  ghost function Written(s: Heap, brk: nat, blocks: seq<nat>, lists: seq<seq<nat>>, lo: nat, hi: nat, dels: seq<nat>): (r: Heap)
    requires Mergeable(s, brk, blocks, lists, lo, hi, dels)
    ensures |r.mem| == |s.mem|
  {
    var u := Unlinked(s, brk, blocks, lists, lo, hi, dels);
    var p := blocks[lo];
    MergeSizeFacts(s.mem, brk, blocks, lo, hi);
    Heap(WriteFree(u.s.mem, p, MergedSize(blocks, brk, lo, hi), PrevDsizeAt(s.mem, p), PrevAllocAt(s.mem, p)),
         u.s.root, u.s.leaf)
  }

  /** Step 4: the merged block joins the list of its size. */
  ghost function MergeWindow(s: Heap, brk: nat, blocks: seq<nat>, lists: seq<seq<nat>>, lo: nat, hi: nat, dels: seq<nat>): (r: Merged)
    requires Mergeable(s, brk, blocks, lists, lo, hi, dels)
  {
    var w := Written(s, brk, blocks, lists, lo, hi, dels);
    var u := Unlinked(s, brk, blocks, lists, lo, hi, dels);
    WrittenFacts(s, brk, blocks, lists, lo, hi, dels);
    var b2 := Splice(blocks, lo, [blocks[lo]], hi);
    LinkKeeps(w, brk, b2, u.lists, lo);
    Merged(Link(w, blocks[lo]), b2, With(w.mem, u.lists, blocks[lo]), blocks[lo])
  }

  /** The window's span is an even number of at least four words. */
  lemma MergeSizeFacts(mem: Mem, brk: nat, blocks: seq<nat>, lo: nat, hi: nat)
    requires Tiled(mem, brk, blocks) && lo + 2 <= hi <= |blocks|
    ensures MergedSize(blocks, brk, lo, hi) % 16 == 0 && MergedSize(blocks, brk, lo, hi) >= 2 * DSIZE
    ensures blocks[lo] + MergedSize(blocks, brk, lo, hi) / WSIZE == At(blocks, brk, hi) < |mem|
    ensures MergedSize(blocks, brk, lo, hi) < 0x1_0000_0000_0000_0000
  {
    TiledFacts(mem, brk, blocks, lo);
    TiledFacts(mem, brk, blocks, hi - 1);
    TiledOrder(mem, brk, blocks, lo, hi - 1);
    assert BlockOK(mem, brk, blocks, hi - 1);
    SucceedsAt(blocks, brk, hi - 1);
    if hi < |blocks| {
      TiledFacts(mem, brk, blocks, hi);
    } else {
      TiledBrk(mem, brk, blocks);
    }
  }

  /** After step 1 the window's blocks can be unlinked. */
  lemma ClearedDeletable(s: Heap, brk: nat, blocks: seq<nat>, lists: seq<seq<nat>>, lo: nat, hi: nat, dels: seq<nat>)
    requires Mergeable(s, brk, blocks, lists, lo, hi, dels)
    ensures Deletable(Cleared(s, brk, blocks, hi), brk, blocks, lists, dels)
    ensures KeepsOutside(s.mem, brk, blocks, lo, hi, Cleared(s, brk, blocks, hi).mem, brk)
  {
    var q := At(blocks, brk, hi);
    var c := Cleared(s, brk, blocks, hi);
    ClearStage(s.mem, brk, s.root, s.leaf, blocks, lists, lo, hi);
    forall k | 0 <= k < |dels|
      ensures dels[k] in blocks && dels[k] < |c.mem| && 0 <= ClassOf(c.mem, dels[k]) && dels[k] in lists[ClassOf(c.mem, dels[k])]
    {
      var t :| lo <= t < hi && blocks[t] == dels[k];
      assert Listed(s.mem, brk, blocks, lists, t);
      BeforeAt(s.mem, brk, blocks, t, hi);
      assert c.mem[dels[k]] == s.mem[dels[k]];
    }
  }

  /** Block t ends at or before the header at index hi > t. */
  lemma BeforeAt(mem: Mem, brk: nat, blocks: seq<nat>, t: nat, hi: nat)
    requires Tiled(mem, brk, blocks) && t < hi <= |blocks|
    ensures blocks[t] < blocks[t] + WidthAt(mem, blocks[t]) <= At(blocks, brk, hi) < |mem|
  {
    TiledFacts(mem, brk, blocks, t);
    if hi < |blocks| {
      TiledOrder(mem, brk, blocks, t, hi);
    }
  }

  /** After step 3 the merged block tiles the window, is free and in no
      list, the lists are well linked, and nothing outside the window has
      changed except the dsize bit of the header after it. */
  lemma WrittenFacts(s: Heap, brk: nat, blocks: seq<nat>, lists: seq<seq<nat>>, lo: nat, hi: nat, dels: seq<nat>)
    requires Mergeable(s, brk, blocks, lists, lo, hi, dels)
    ensures blocks[lo] + MergedSize(blocks, brk, lo, hi) / WSIZE == At(blocks, brk, hi) < |s.mem|
    ensures lo < |Splice(blocks, lo, [blocks[lo]], hi)| && Splice(blocks, lo, [blocks[lo]], hi)[lo] == blocks[lo]
    ensures var w := Written(s, brk, blocks, lists, lo, hi, dels);
      var u := Unlinked(s, brk, blocks, lists, lo, hi, dels);
      var b2 := Splice(blocks, lo, [blocks[lo]], hi);
      Tiled(w.mem, brk, b2) && Members(w.mem, b2, u.lists) && LinksOK(w.mem, w.root, w.leaf, u.lists) &&
      !AllocAt(w.mem, blocks[lo]) && Unlisted(u.lists, blocks[lo]) &&
      KeepsOutside(s.mem, brk, blocks, lo, hi, w.mem, brk)
  {
    var p := blocks[lo];
    var size := MergedSize(blocks, brk, lo, hi);
    var u := Unlinked(s, brk, blocks, lists, lo, hi, dels);
    UnlinkedFacts(s, brk, blocks, lists, lo, hi, dels, u);
    MergeSizeFacts(s.mem, brk, blocks, lo, hi);
    MergeStage(s.mem, brk, blocks, lo, hi, u.s.mem, u.s.root, u.s.leaf, u.lists,
               size, PrevDsizeAt(s.mem, p), PrevAllocAt(s.mem, p));
    MergeSpan(s.mem, brk, blocks, lo, hi, size);
    PackRoundTrip(size, PrevDsizeAt(s.mem, p), PrevAllocAt(s.mem, p), false);
    SpliceFacts(blocks, lo, [p], hi);
  }

  /** After steps 1 and 2 the layout still tiles, the lists are well
      linked and list no block of the window, and nothing outside the
      window has changed except the dsize bit of the header after it. */
  lemma UnlinkedFacts(s: Heap, brk: nat, blocks: seq<nat>, lists: seq<seq<nat>>, lo: nat, hi: nat, dels: seq<nat>,
                      u: Stage)
    requires Mergeable(s, brk, blocks, lists, lo, hi, dels) && u == Unlinked(s, brk, blocks, lists, lo, hi, dels)
    ensures Tiled(u.s.mem, brk, blocks) && KeepsOutside(s.mem, brk, blocks, lo, hi, u.s.mem, brk)
    ensures Members(u.s.mem, blocks, u.lists) && LinksOK(u.s.mem, u.s.root, u.s.leaf, u.lists)
    ensures forall t :: lo <= t < hi ==> Unlisted(u.lists, blocks[t])
  {
    var c := Cleared(s, brk, blocks, hi);
    ClearedDeletable(s, brk, blocks, lists, lo, hi, dels);
    UnlinkAllKeeps(c, brk, blocks, lists, dels);
    assert u == UnlinkAll(c, brk, blocks, lists, dels);
    forall t | lo <= t < hi
      ensures Unlisted(u.lists, blocks[t])
    {
      forall d | 0 <= d < |u.lists|
        ensures blocks[t] !in u.lists[d]
      {
        UnlinkAllLists(c, brk, blocks, lists, dels, d, blocks[t]);
      }
    }
    TagsKeepOutsideSelf(s.mem, brk, blocks, lo, hi, c.mem, u.s.mem);
  }

  /** The words step 3 leaves at the merged block's header and footer and
      at the header after the window. */
  lemma WrittenWords(s: Heap, brk: nat, blocks: seq<nat>, lists: seq<seq<nat>>, lo: nat, hi: nat, dels: seq<nat>)
    requires Mergeable(s, brk, blocks, lists, lo, hi, dels)
    ensures blocks[lo] + MergedSize(blocks, brk, lo, hi) / WSIZE == At(blocks, brk, hi) < |s.mem|
    ensures blocks[lo] + 2 < At(blocks, brk, hi)
    ensures var w := Written(s, brk, blocks, lists, lo, hi, dels);
      var v := Pack(MergedSize(blocks, brk, lo, hi), PrevDsizeAt(s.mem, blocks[lo]), PrevAllocAt(s.mem, blocks[lo]), false);
      w.mem[blocks[lo]] == v && w.mem[At(blocks, brk, hi) - 1] == v &&
      w.mem[At(blocks, brk, hi)] == ClearBits(s.mem[At(blocks, brk, hi)], DSIZE_MASK)
  {
    var q := At(blocks, brk, hi);
    var c := Cleared(s, brk, blocks, hi);
    var u := Unlinked(s, brk, blocks, lists, lo, hi, dels);
    MergeSizeFacts(s.mem, brk, blocks, lo, hi);
    ClearedDeletable(s, brk, blocks, lists, lo, hi, dels);
    UnlinkAllKeeps(c, brk, blocks, lists, dels);
    assert u == UnlinkAll(c, brk, blocks, lists, dels);
    if hi < |blocks| {
      assert u.s.mem[blocks[hi]] == c.mem[blocks[hi]];
    }
    assert u.s.mem[q] == c.mem[q];
  }

  /** The boundary-tag conditions around a merged block: the window of free
      blocks lo..hi, between allocated neighbours, became one free block
      whose header keeps the bits of the window's first header, whose footer
      copies its header, and after which the next header forgot its
      16-byte predecessor. */
  lemma MergeJunction(memA: Mem, brk: nat, blocks: seq<nat>, e: int, lo: nat, hi: nat, memG: Mem)
    requires Tiled(memA, brk, blocks) && Tags(memA, brk, blocks, e)
    requires lo + 2 <= hi <= |blocks| && !AllocAt(memA, blocks[hi - 1])
    requires lo > 0 ==> AllocAt(memA, blocks[lo - 1])
    requires hi < |blocks| ==> AllocAt(memA, blocks[hi])
    requires Tiled(memG, brk, Splice(blocks, lo, [blocks[lo]], hi))
    requires KeepsOutside(memA, brk, blocks, lo, hi, memG, brk)
    requires blocks[lo] + MergedSize(blocks, brk, lo, hi) / WSIZE == At(blocks, brk, hi) < |memG|
    requires blocks[lo] + 2 < At(blocks, brk, hi)
    requires memG[blocks[lo]] == Pack(MergedSize(blocks, brk, lo, hi), PrevDsizeAt(memA, blocks[lo]), PrevAllocAt(memA, blocks[lo]), false)
    requires memG[At(blocks, brk, hi) - 1] == memG[blocks[lo]]
    requires memG[At(blocks, brk, hi)] == ClearBits(memA[At(blocks, brk, hi)], DSIZE_MASK)
    ensures Junction(memG, brk, Splice(blocks, lo, [blocks[lo]], hi), lo, 1, -1)
    ensures lo == 0 ==> FirstBits(memG, brk, Splice(blocks, lo, [blocks[lo]], hi))
  {
    var b2 := Splice(blocks, lo, [blocks[lo]], hi);
    MergeSizeFacts(memA, brk, blocks, lo, hi);
    MergeBefore(memA, brk, blocks, e, lo, hi, memG);
    MergeAt(memA, brk, blocks, e, lo, hi, memG);
    MergeAfter(memA, brk, blocks, lo, hi, memG);
    forall j: nat | lo <= j + 1 && j < lo + 1 && j < |b2|
      ensures BitsOK(memG, brk, b2, j)
    {
    }
    forall j: nat | lo <= j <= lo + 1 && j < |b2|
      ensures FooterOK(memG, brk, b2, j)
    {
    }
    forall j: nat | lo <= j + 1 && j < lo + 1 && j + 1 < |b2|
      ensures PairOK(memG, brk, b2, j)
    {
    }
  }

  /** The merged block's header keeps what the block before the window says. */
  lemma MergeBefore(memA: Mem, brk: nat, blocks: seq<nat>, e: int, lo: nat, hi: nat, memG: Mem)
    requires Tiled(memA, brk, blocks) && Tags(memA, brk, blocks, e)
    requires lo < hi <= |blocks|
    requires lo > 0 ==> AllocAt(memA, blocks[lo - 1])
    requires Tiled(memG, brk, Splice(blocks, lo, [blocks[lo]], hi))
    requires KeepsOutside(memA, brk, blocks, lo, hi, memG, brk)
    requires blocks[lo] < |memG| && MergedSize(blocks, brk, lo, hi) % 16 == 0
    requires memG[blocks[lo]] == Pack(MergedSize(blocks, brk, lo, hi), PrevDsizeAt(memA, blocks[lo]), PrevAllocAt(memA, blocks[lo]), false)
    ensures lo > 0 ==> BitsOK(memG, brk, Splice(blocks, lo, [blocks[lo]], hi), lo - 1)
    ensures lo > 0 ==> PairOK(memG, brk, Splice(blocks, lo, [blocks[lo]], hi), lo - 1)
    ensures lo == 0 ==> FirstBits(memG, brk, Splice(blocks, lo, [blocks[lo]], hi))
  {
    var p := blocks[lo];
    var b2 := Splice(blocks, lo, [p], hi);
    PackRoundTrip(MergedSize(blocks, brk, lo, hi), PrevDsizeAt(memA, p), PrevAllocAt(memA, p), false);
    SpliceFacts(blocks, lo, [p], hi);
    assert b2[lo] == p;
    if lo > 0 {
      assert BitsOK(memA, brk, blocks, lo - 1);
      assert b2[lo - 1] == blocks[lo - 1];
      assert memG[blocks[lo - 1]] == memA[blocks[lo - 1]];
    } else {
      assert FirstBits(memA, brk, blocks);
    }
  }

  /** The merged block's own bits, as the header after it caches them, and
      its footer. */
  lemma MergeAt(memA: Mem, brk: nat, blocks: seq<nat>, e: int, lo: nat, hi: nat, memG: Mem)
    requires Tiled(memA, brk, blocks) && Tags(memA, brk, blocks, e)
    requires lo + 2 <= hi <= |blocks| && !AllocAt(memA, blocks[hi - 1])
    requires Tiled(memG, brk, Splice(blocks, lo, [blocks[lo]], hi))
    requires blocks[lo] + MergedSize(blocks, brk, lo, hi) / WSIZE == At(blocks, brk, hi) < |memG|
    requires blocks[lo] + 2 < At(blocks, brk, hi) && |memG| == |memA|
    requires memG[blocks[lo]] == Pack(MergedSize(blocks, brk, lo, hi), PrevDsizeAt(memA, blocks[lo]), PrevAllocAt(memA, blocks[lo]), false)
    requires memG[At(blocks, brk, hi) - 1] == memG[blocks[lo]]
    requires memG[At(blocks, brk, hi)] == ClearBits(memA[At(blocks, brk, hi)], DSIZE_MASK)
    ensures BitsOK(memG, brk, Splice(blocks, lo, [blocks[lo]], hi), lo)
    ensures FooterOK(memG, brk, Splice(blocks, lo, [blocks[lo]], hi), lo)
  {
    var p := blocks[lo];
    var q := At(blocks, brk, hi);
    var size := MergedSize(blocks, brk, lo, hi);
    var b2 := Splice(blocks, lo, [p], hi);
    MergeSizeFacts(memA, brk, blocks, lo, hi);
    PackRoundTrip(size, PrevDsizeAt(memA, p), PrevAllocAt(memA, p), false);
    ClearPrevDsizeFacts(memA[q]);
    SpliceFacts(blocks, lo, [p], hi);
    assert b2[lo] == p;
    assert Succ(b2, brk, lo) == q by {
      if hi < |blocks| {
        assert b2[lo + 1] == blocks[hi];
      }
    }
    assert BitsOK(memA, brk, blocks, hi - 1);
    SucceedsAt(blocks, brk, hi - 1);
    assert FooterOf(memG, brk, b2, lo) == q - 1;
  }

  /** The block after the window is allocated, so it needs no footer and
      may follow a free block. */
  lemma MergeAfter(memA: Mem, brk: nat, blocks: seq<nat>, lo: nat, hi: nat, memG: Mem)
    requires Tiled(memA, brk, blocks) && lo < hi <= |blocks|
    requires hi < |blocks| ==> AllocAt(memA, blocks[hi])
    requires Tiled(memG, brk, Splice(blocks, lo, [blocks[lo]], hi))
    requires KeepsOutside(memA, brk, blocks, lo, hi, memG, brk)
    ensures lo + 1 < |Splice(blocks, lo, [blocks[lo]], hi)| ==>
              FooterOK(memG, brk, Splice(blocks, lo, [blocks[lo]], hi), lo + 1) &&
              PairOK(memG, brk, Splice(blocks, lo, [blocks[lo]], hi), lo)
  {
    var b2 := Splice(blocks, lo, [blocks[lo]], hi);
    SpliceFacts(blocks, lo, [blocks[lo]], hi);
    if lo + 1 < |b2| {
      assert b2[lo + 1] == blocks[hi];
      assert SameKind(memG[blocks[hi]], memA[blocks[hi]]);
    }
  }

  /** A merge restores the whole invariant: the window lo..hi of free
      blocks, which held the only adjacent free pair (around e), becomes one
      free block spanning it, listed in the class of its size; every other
      list entry stays. */
  lemma MergeWindowInv(s: Heap, brk: nat, blocks: seq<nat>, lists: seq<seq<nat>>, e: int, lo: nat, hi: nat, dels: seq<nat>)
    requires Mergeable(s, brk, blocks, lists, lo, hi, dels)
    requires Inv(s.mem, brk, s.root, s.leaf, blocks, lists, e) && lo <= e < hi
    requires lo > 0 ==> AllocAt(s.mem, blocks[lo - 1])
    requires hi < |blocks| ==> AllocAt(s.mem, blocks[hi])
    ensures var r := MergeWindow(s, brk, blocks, lists, lo, hi, dels);
      Inv(r.s.mem, brk, r.s.root, r.s.leaf, r.blocks, r.lists, -1)
  {
    var p := blocks[lo];
    var u := Unlinked(s, brk, blocks, lists, lo, hi, dels);
    var w := Written(s, brk, blocks, lists, lo, hi, dels);
    var b2 := Splice(blocks, lo, [p], hi);
    var r := MergeWindow(s, brk, blocks, lists, lo, hi, dels);
    WrittenFacts(s, brk, blocks, lists, lo, hi, dels);
    WrittenWords(s, brk, blocks, lists, lo, hi, dels);
    LinkKeeps(w, brk, b2, u.lists, lo);
    assert r == Merged(Link(w, p), b2, With(w.mem, u.lists, p), p);
    TagsKeepOutside(s.mem, brk, blocks, lo, [p], hi, w.mem, brk, r.s.mem);
    MergeFinalWords(s, brk, blocks, lists, lo, hi, dels);
    MergeJunction(s.mem, brk, blocks, e, lo, hi, r.s.mem);
    MergeListed(s, brk, blocks, lists, lo, hi, dels);
    WindowInv(s.mem, brk, blocks, lists, e, lo, [p], hi, r.s.mem, brk, r.s.root, r.s.leaf, r.lists, -1);
  }

  /** The merge's last step keeps the words step 3 wrote. */
  lemma MergeFinalWords(s: Heap, brk: nat, blocks: seq<nat>, lists: seq<seq<nat>>, lo: nat, hi: nat, dels: seq<nat>)
    requires Mergeable(s, brk, blocks, lists, lo, hi, dels)
    ensures blocks[lo] + MergedSize(blocks, brk, lo, hi) / WSIZE == At(blocks, brk, hi) < |s.mem|
    ensures blocks[lo] + 2 < At(blocks, brk, hi)
    ensures var r := MergeWindow(s, brk, blocks, lists, lo, hi, dels);
      var v := Pack(MergedSize(blocks, brk, lo, hi), PrevDsizeAt(s.mem, blocks[lo]), PrevAllocAt(s.mem, blocks[lo]), false);
      r.s.mem[blocks[lo]] == v && r.s.mem[At(blocks, brk, hi) - 1] == v &&
      r.s.mem[At(blocks, brk, hi)] == ClearBits(s.mem[At(blocks, brk, hi)], DSIZE_MASK)
  {
    WrittenWords(s, brk, blocks, lists, lo, hi, dels);
    LinkedWords(s, brk, blocks, lists, lo, hi, dels);
  }

  /** Linking the merged block writes only link words. */
  lemma LinkedWords(s: Heap, brk: nat, blocks: seq<nat>, lists: seq<seq<nat>>, lo: nat, hi: nat, dels: seq<nat>)
    requires Mergeable(s, brk, blocks, lists, lo, hi, dels)
    ensures At(blocks, brk, hi) < |s.mem| && blocks[lo] + 2 < At(blocks, brk, hi)
    ensures var r := MergeWindow(s, brk, blocks, lists, lo, hi, dels);
      var w := Written(s, brk, blocks, lists, lo, hi, dels);
      r.s.mem[blocks[lo]] == w.mem[blocks[lo]] && r.s.mem[At(blocks, brk, hi) - 1] == w.mem[At(blocks, brk, hi) - 1] &&
      r.s.mem[At(blocks, brk, hi)] == w.mem[At(blocks, brk, hi)]
  {
    var u := Unlinked(s, brk, blocks, lists, lo, hi, dels);
    var w := Written(s, brk, blocks, lists, lo, hi, dels);
    var b2 := Splice(blocks, lo, [blocks[lo]], hi);
    WrittenLinkable(s, brk, blocks, lists, lo, hi, dels, u, w, b2);
    LinkTagWords(w, brk, b2, u.lists, lo);
  }

  /** The written merged block is free, unlisted, not 16 bytes, and its
      footer and successor close the window. */
  lemma WrittenLinkable(s: Heap, brk: nat, blocks: seq<nat>, lists: seq<seq<nat>>, lo: nat, hi: nat, dels: seq<nat>,
                        u: Stage, w: Heap, b2: seq<nat>)
    requires Mergeable(s, brk, blocks, lists, lo, hi, dels)
    requires u == Unlinked(s, brk, blocks, lists, lo, hi, dels) && w == Written(s, brk, blocks, lists, lo, hi, dels)
    requires b2 == Splice(blocks, lo, [blocks[lo]], hi)
    ensures Tiled(w.mem, brk, b2) && Members(w.mem, b2, u.lists) && LinksOK(w.mem, w.root, w.leaf, u.lists)
    ensures lo < |b2| && b2[lo] == blocks[lo] && !AllocAt(w.mem, blocks[lo]) && Unlisted(u.lists, blocks[lo])
    ensures SizeAt(w.mem, blocks[lo]) != DSIZE
    ensures At(blocks, brk, hi) < |s.mem| && blocks[lo] + 2 < At(blocks, brk, hi)
    ensures FooterOf(w.mem, brk, b2, lo) == At(blocks, brk, hi) - 1 && Succ(b2, brk, lo) == At(blocks, brk, hi)
  {
    var p := blocks[lo];
    WrittenFacts(s, brk, blocks, lists, lo, hi, dels);
    WrittenWords(s, brk, blocks, lists, lo, hi, dels);
    MergeSizeFacts(s.mem, brk, blocks, lo, hi);
    PackRoundTrip(MergedSize(blocks, brk, lo, hi), PrevDsizeAt(s.mem, p), PrevAllocAt(s.mem, p), false);
    SpliceFacts(blocks, lo, [p], hi);
    if hi < |blocks| {
      assert b2[lo + 1] == blocks[hi];
    }
  }

  /** Linking free block i keeps its header, its footer and the header
      after it. */
  lemma LinkTagWords(w: Heap, brk: nat, b2: seq<nat>, lists: seq<seq<nat>>, i: nat)
    requires Tiled(w.mem, brk, b2) && Members(w.mem, b2, lists)
    requires LinksOK(w.mem, w.root, w.leaf, lists)
    requires i < |b2| && !AllocAt(w.mem, b2[i]) && Unlisted(lists, b2[i]) && SizeAt(w.mem, b2[i]) != DSIZE
    ensures b2[i] + 2 < |w.mem| && 0 <= ClassOf(w.mem, b2[i]) && w.root[ClassOf(w.mem, b2[i])] + 2 < |w.mem|
    ensures Link(w, b2[i]).mem[b2[i]] == w.mem[b2[i]]
    ensures Link(w, b2[i]).mem[FooterOf(w.mem, brk, b2, i)] == w.mem[FooterOf(w.mem, brk, b2, i)]
    ensures Link(w, b2[i]).mem[Succ(b2, brk, i)] == w.mem[Succ(b2, brk, i)]
  {
    LinkKeeps(w, brk, b2, lists, i);
    assert ShowsFooter(w.mem, b2, i);
  }

  /** After a merge the lists hold what they held outside the window, and
      the merged block in the list of its size. */
  lemma MergeListed(s: Heap, brk: nat, blocks: seq<nat>, lists: seq<seq<nat>>, lo: nat, hi: nat, dels: seq<nat>)
    requires Mergeable(s, brk, blocks, lists, lo, hi, dels)
    ensures var r := MergeWindow(s, brk, blocks, lists, lo, hi, dels);
      Tiled(r.s.mem, brk, r.blocks) && |r.lists| == NUM && |lists| == NUM &&
      (forall d, x :: 0 <= d < |lists| && x in lists[d] && x !in blocks[lo..hi] ==> x in r.lists[d]) &&
      (forall j :: lo <= j < lo + 1 ==> Listed(r.s.mem, brk, r.blocks, r.lists, j))
  {
    var p := blocks[lo];
    var c := Cleared(s, brk, blocks, hi);
    var u := Unlinked(s, brk, blocks, lists, lo, hi, dels);
    var w := Written(s, brk, blocks, lists, lo, hi, dels);
    var b2 := Splice(blocks, lo, [p], hi);
    var r := MergeWindow(s, brk, blocks, lists, lo, hi, dels);
    WrittenFacts(s, brk, blocks, lists, lo, hi, dels);
    LinkKeeps(w, brk, b2, u.lists, lo);
    assert r == Merged(Link(w, p), b2, With(w.mem, u.lists, p), p);
    ClearedDeletable(s, brk, blocks, lists, lo, hi, dels);
    assert u == UnlinkAll(c, brk, blocks, lists, dels);
    forall d, x | 0 <= d < |lists| && x in lists[d] && x !in blocks[lo..hi]
      ensures x in r.lists[d]
    {
      UnlinkAllLists(c, brk, blocks, lists, dels, d, x);
      assert x !in dels;
    }
    assert r.s.mem[p] == w.mem[p];
  }

  // ---------------------------------------------------------------------
  // The four cases of `coalesce_block`.

  /** What `coalesce_block` starts from: the whole invariant except that the
      free block i may sit next to free neighbours. */
  ghost predicate Ready(s: Heap, brk: nat, blocks: seq<nat>, lists: seq<seq<nat>>, i: nat) {
    Inv(s.mem, brk, s.root, s.leaf, blocks, lists, i) && i < |blocks| && !AllocAt(s.mem, blocks[i])
  }

  /** `coalesce_block`: the header's prev_alloc bit and the next header's
      alloc bit choose the case; the previous block is found through the
      dsize bit or the footer before the header. */
  ghost function Coalesce(s: Heap, brk: nat, blocks: seq<nat>, lists: seq<seq<nat>>, i: nat): (r: Merged)
    requires Ready(s, brk, blocks, lists, i)
  {
    var h := blocks[i];
    NeighbourHeaders(s, brk, blocks, lists, i);
    var n := NextHeader(s.mem, h);
    var prevAlloc := PrevAllocAt(s.mem, h);
    var nextAlloc := AllocAt(s.mem, n);
    if prevAlloc && nextAlloc then
      Merged(s, blocks, lists, h)
    else if prevAlloc then
      MergeableNext(s, brk, blocks, lists, i);
      MergeWindow(s, brk, blocks, lists, i, i + 2, [h, n])
    else if nextAlloc then
      MergeablePrev(s, brk, blocks, lists, i);
      MergeWindow(s, brk, blocks, lists, i - 1, i + 1, [h, PrevHeader(s.mem, h) as nat])
    else
      MergeableBoth(s, brk, blocks, lists, i);
      MergeWindow(s, brk, blocks, lists, i - 1, i + 2, [PrevHeader(s.mem, h) as nat, h, n])
  }

  /** The next header is the successor in the layout, free only if it is a
      block; a clear prev_alloc bit means the previous block exists, is free
      and is where `coalesce_block` looks for it. */
  lemma NeighbourHeaders(s: Heap, brk: nat, blocks: seq<nat>, lists: seq<seq<nat>>, i: nat)
    requires Ready(s, brk, blocks, lists, i)
    ensures NextHeader(s.mem, blocks[i]) == Succ(blocks, brk, i) < |s.mem|
    ensures !AllocAt(s.mem, Succ(blocks, brk, i)) ==> i + 1 < |blocks|
    ensures i > 0 ==> (PrevAllocAt(s.mem, blocks[i]) <==> AllocAt(s.mem, blocks[i - 1]))
    ensures !PrevAllocAt(s.mem, blocks[i]) ==> 0 < i && 1 <= blocks[i] && PrevHeader(s.mem, blocks[i]) == blocks[i - 1]
  {
    var h := blocks[i];
    assert BlockOK(s.mem, brk, blocks, i);
    TiledFacts(s.mem, brk, blocks, i);
    if i + 1 == |blocks| {
      assert Sentinels(s.mem, brk);
    }
    if i == 0 {
      assert FirstBits(s.mem, brk, blocks);
    } else {
      var g := blocks[i - 1];
      assert BitsOK(s.mem, brk, blocks, i - 1);
      assert BlockOK(s.mem, brk, blocks, i - 1);
      if !PrevAllocAt(s.mem, h) && !PrevDsizeAt(s.mem, h) {
        assert FooterOK(s.mem, brk, blocks, i - 1);
        assert FooterOf(s.mem, brk, blocks, i - 1) == h - 1;
      }
    }
  }

  /** A window of free blocks of a heap that keeps the invariant is
      mergeable when `dels` names each of its blocks once. */
  lemma WindowMergeable(s: Heap, brk: nat, blocks: seq<nat>, lists: seq<seq<nat>>, e: int, lo: nat, hi: nat, dels: seq<nat>)
    requires Inv(s.mem, brk, s.root, s.leaf, blocks, lists, e) && lo + 2 <= hi <= |blocks|
    requires forall t :: lo <= t < hi ==> !AllocAt(s.mem, blocks[t])
    requires forall t :: lo <= t < hi ==> blocks[t] in dels
    requires forall k :: 0 <= k < |dels| ==> dels[k] in blocks[lo..hi]
    requires forall k, l :: 0 <= k < l < |dels| ==> dels[k] < dels[l] || dels[l] < dels[k]
    ensures Mergeable(s, brk, blocks, lists, lo, hi, dels)
  {
    assert Complete(s.mem, brk, blocks, lists);
  }

  /** Block i and its successor, in address order. */
  lemma NextPair(mem: Mem, brk: nat, blocks: seq<nat>, i: nat)
    requires Tiled(mem, brk, blocks) && i + 1 < |blocks|
    ensures blocks[i] < blocks[i + 1]
  {
    TiledFacts(mem, brk, blocks, i);
    TiledOrder(mem, brk, blocks, i, i + 1);
  }

  /** Case 2: block i and the free block after it. */
  lemma MergeableNext(s: Heap, brk: nat, blocks: seq<nat>, lists: seq<seq<nat>>, i: nat)
    requires Ready(s, brk, blocks, lists, i) && i + 2 <= |blocks| && !AllocAt(s.mem, blocks[i + 1])
    ensures Mergeable(s, brk, blocks, lists, i, i + 2, [blocks[i], blocks[i + 1]])
  {
    NextPair(s.mem, brk, blocks, i);
    assert blocks[i..i + 2] == [blocks[i], blocks[i + 1]];
    WindowMergeable(s, brk, blocks, lists, i, i, i + 2, [blocks[i], blocks[i + 1]]);
  }

  /** Case 3: the free block before block i and block i. */
  lemma MergeablePrev(s: Heap, brk: nat, blocks: seq<nat>, lists: seq<seq<nat>>, i: nat)
    requires Ready(s, brk, blocks, lists, i) && 1 <= i && !AllocAt(s.mem, blocks[i - 1])
    ensures Mergeable(s, brk, blocks, lists, i - 1, i + 1, [blocks[i], blocks[i - 1]])
  {
    NextPair(s.mem, brk, blocks, i - 1);
    assert blocks[i - 1..i + 1] == [blocks[i - 1], blocks[i]];
    WindowMergeable(s, brk, blocks, lists, i, i - 1, i + 1, [blocks[i], blocks[i - 1]]);
  }

  /** Case 4: the free blocks before and after block i and block i. */
  lemma MergeableBoth(s: Heap, brk: nat, blocks: seq<nat>, lists: seq<seq<nat>>, i: nat)
    requires Ready(s, brk, blocks, lists, i) && 1 <= i && i + 2 <= |blocks|
    requires !AllocAt(s.mem, blocks[i - 1]) && !AllocAt(s.mem, blocks[i + 1])
    ensures Mergeable(s, brk, blocks, lists, i - 1, i + 2, [blocks[i - 1], blocks[i], blocks[i + 1]])
  {
    NextPair(s.mem, brk, blocks, i - 1);
    NextPair(s.mem, brk, blocks, i);
    assert blocks[i - 1..i + 2] == [blocks[i - 1], blocks[i], blocks[i + 1]];
    WindowMergeable(s, brk, blocks, lists, i, i - 1, i + 2, [blocks[i - 1], blocks[i], blocks[i + 1]]);
  }

  /** The blocks just outside a merge window are allocated: the invariant
      allows no other free pair than those around block i. */
  lemma Bounded(s: Heap, brk: nat, blocks: seq<nat>, lists: seq<seq<nat>>, i: nat, lo: nat, hi: nat)
    requires Ready(s, brk, blocks, lists, i)
    requires lo <= i < hi <= |blocks| && hi <= i + 2 && i <= lo + 1
    requires forall t :: lo <= t < hi ==> !AllocAt(s.mem, blocks[t])
    requires lo == i && i > 0 ==> AllocAt(s.mem, blocks[i - 1])
    requires hi == i + 1 && hi < |blocks| ==> AllocAt(s.mem, blocks[i + 1])
    ensures lo > 0 ==> AllocAt(s.mem, blocks[lo - 1])
    ensures hi < |blocks| ==> AllocAt(s.mem, blocks[hi])
  {
    if lo < i && lo > 0 {
      assert PairOK(s.mem, brk, blocks, lo - 1);
    }
    if hi > i + 1 && hi < |blocks| {
      assert PairOK(s.mem, brk, blocks, hi - 1);
    }
  }

  /** Case 1: with both neighbours allocated there is nothing to merge and
      the invariant holds without exemption. */
  lemma NoMergeInv(s: Heap, brk: nat, blocks: seq<nat>, lists: seq<seq<nat>>, i: nat)
    requires Ready(s, brk, blocks, lists, i) && Succ(blocks, brk, i) < |s.mem|
    requires PrevAllocAt(s.mem, blocks[i]) && AllocAt(s.mem, Succ(blocks, brk, i))
    ensures Inv(s.mem, brk, s.root, s.leaf, blocks, lists, -1)
  {
    NeighbourHeaders(s, brk, blocks, lists, i);
    forall j | 0 <= j < |blocks| - 1
      ensures PairOK(s.mem, brk, blocks, j)
    {
      if j != i && j + 1 != i {
        assert Tags(s.mem, brk, blocks, i);
      }
    }
  }

  /** `coalesce_block` restores the whole invariant and returns a free block
      whose span holds the block it was given: the previous block when that
      one is free, holding the sizes of block i and of the free neighbours
      it absorbs; every allocated block stays as it was. */
  lemma CoalesceInv(s: Heap, brk: nat, blocks: seq<nat>, lists: seq<seq<nat>>, i: nat)
    requires Ready(s, brk, blocks, lists, i)
    ensures var r := Coalesce(s, brk, blocks, lists, i);
      Inv(r.s.mem, brk, r.s.root, r.s.leaf, r.blocks, r.lists, -1) &&
      r.block in r.blocks && r.block < |r.s.mem| && !AllocAt(r.s.mem, r.block) &&
      r.block <= blocks[i] < r.block + WidthAt(r.s.mem, r.block) &&
      blocks[i] < |s.mem| && SizeAt(s.mem, blocks[i]) <= SizeAt(r.s.mem, r.block)
    ensures var r := Coalesce(s, brk, blocks, lists, i);
      var h := blocks[i];
      h < |s.mem| && NextHeader(s.mem, h) < |s.mem| && r.block < |r.s.mem| &&
      (r.block == h <==> PrevAllocAt(s.mem, h)) &&
      (!PrevAllocAt(s.mem, h) ==> 0 < i && r.block == blocks[i - 1]) &&
      SizeAt(r.s.mem, r.block) ==
        (if PrevAllocAt(s.mem, h) then 0 else SizeAt(s.mem, blocks[i - 1])) + SizeAt(s.mem, h) +
        (if AllocAt(s.mem, NextHeader(s.mem, h)) then 0 else SizeAt(s.mem, NextHeader(s.mem, h)))
    ensures var r := Coalesce(s, brk, blocks, lists, i);
      KeepsAllocated(s.mem, blocks, r.s.mem, r.blocks, -1)
  {
    CoalesceRestores(s, brk, blocks, lists, i);
    CoalesceSums(s, brk, blocks, lists, i);
    CoalesceKeeps(s, brk, blocks, lists, i);
  }

  /** `coalesce_block` restores the whole invariant and returns a free block
      whose span holds the block it was given. */
  lemma CoalesceRestores(s: Heap, brk: nat, blocks: seq<nat>, lists: seq<seq<nat>>, i: nat)
    requires Ready(s, brk, blocks, lists, i)
    ensures var r := Coalesce(s, brk, blocks, lists, i);
      Inv(r.s.mem, brk, r.s.root, r.s.leaf, r.blocks, r.lists, -1) &&
      r.block in r.blocks && r.block < |r.s.mem| && !AllocAt(r.s.mem, r.block) &&
      r.block <= blocks[i] < r.block + WidthAt(r.s.mem, r.block) &&
      blocks[i] < |s.mem| && SizeAt(s.mem, blocks[i]) <= SizeAt(r.s.mem, r.block)
  {
    var h := blocks[i];
    NeighbourHeaders(s, brk, blocks, lists, i);
    var n := NextHeader(s.mem, h);
    var pa := PrevAllocAt(s.mem, h);
    var na := AllocAt(s.mem, n);
    if pa && na {
      NoMergeInv(s, brk, blocks, lists, i);
      TiledFacts(s.mem, brk, blocks, i);
    } else if pa {
      MergeableNext(s, brk, blocks, lists, i);
      MergeCaseInv(s, brk, blocks, lists, i, i, i + 2, [h, n]);
    } else if na {
      MergeablePrev(s, brk, blocks, lists, i);
      MergeCaseInv(s, brk, blocks, lists, i, i - 1, i + 1, [h, blocks[i - 1]]);
    } else {
      MergeableBoth(s, brk, blocks, lists, i);
      MergeCaseInv(s, brk, blocks, lists, i, i - 1, i + 2, [blocks[i - 1], h, n]);
    }
  }

  /** A merging case of `coalesce_block`: the window lo..hi around block i,
      between allocated blocks, becomes one free block that restores the
      whole invariant, spans block i and is at least as large. */
  lemma MergeCaseInv(s: Heap, brk: nat, blocks: seq<nat>, lists: seq<seq<nat>>, i: nat, lo: nat, hi: nat, dels: seq<nat>)
    requires Ready(s, brk, blocks, lists, i) && Mergeable(s, brk, blocks, lists, lo, hi, dels)
    requires lo <= i < hi && hi <= i + 2 && i <= lo + 1
    requires lo == i && i > 0 ==> AllocAt(s.mem, blocks[i - 1])
    requires hi == i + 1 && hi < |blocks| ==> AllocAt(s.mem, blocks[i + 1])
    ensures var r := MergeWindow(s, brk, blocks, lists, lo, hi, dels);
      Inv(r.s.mem, brk, r.s.root, r.s.leaf, r.blocks, r.lists, -1) &&
      r.block in r.blocks && r.block < |r.s.mem| && !AllocAt(r.s.mem, r.block) &&
      r.block <= blocks[i] < r.block + WidthAt(r.s.mem, r.block) &&
      blocks[i] < |s.mem| && SizeAt(s.mem, blocks[i]) <= SizeAt(r.s.mem, r.block)
  {
    Bounded(s, brk, blocks, lists, i, lo, hi);
    MergeWindowInv(s, brk, blocks, lists, i, lo, hi, dels);
    MergeCovers(s, brk, blocks, lists, i, lo, hi, dels);
    MergeGrows(s, brk, blocks, lists, i, lo, hi, dels);
  }

  /** A merge never gives a block smaller than any block of its window. */
  lemma MergeGrows(s: Heap, brk: nat, blocks: seq<nat>, lists: seq<seq<nat>>, i: nat, lo: nat, hi: nat, dels: seq<nat>)
    requires Mergeable(s, brk, blocks, lists, lo, hi, dels) && lo <= i < hi
    ensures var r := MergeWindow(s, brk, blocks, lists, lo, hi, dels);
      blocks[i] < |s.mem| && r.block < |r.s.mem| && SizeAt(s.mem, blocks[i]) <= SizeAt(r.s.mem, r.block)
  {
    var r := MergeWindow(s, brk, blocks, lists, lo, hi, dels);
    var size := MergedSize(blocks, brk, lo, hi);
    MergeFinalWords(s, brk, blocks, lists, lo, hi, dels);
    MergeSizeFacts(s.mem, brk, blocks, lo, hi);
    PackRoundTrip(size, PrevDsizeAt(s.mem, blocks[lo]), PrevAllocAt(s.mem, blocks[lo]), false);
    assert r.block == blocks[lo];
    BeforeAt(s.mem, brk, blocks, i, hi);
    if lo < i {
      TiledOrder(s.mem, brk, blocks, lo, i);
    }
    assert BlockOK(s.mem, brk, blocks, i);
    SpanBound(SizeAt(s.mem, blocks[i]), blocks[lo], blocks[i], At(blocks, brk, hi));
  }

  /** A block of `size` bytes at h, inside the words lo..end, is at most
      the bytes of those words. */
  lemma SpanBound(size: nat, lo: nat, h: nat, end: nat)
    requires size % 16 == 0 && lo <= h && h + size / WSIZE <= end
    ensures size <= (end - lo) * WSIZE
  {
    var q := size / 16;
    assert size == 16 * q;
    assert size / 8 == 2 * q;
  }

  /** The merged block is listed in the new layout, free, and spans block i. */
  lemma MergeCovers(s: Heap, brk: nat, blocks: seq<nat>, lists: seq<seq<nat>>, i: nat, lo: nat, hi: nat, dels: seq<nat>)
    requires Mergeable(s, brk, blocks, lists, lo, hi, dels) && lo <= i < hi
    ensures var r := MergeWindow(s, brk, blocks, lists, lo, hi, dels);
      r.block in r.blocks && r.block < |r.s.mem| && !AllocAt(r.s.mem, r.block) &&
      r.block <= blocks[i] < r.block + WidthAt(r.s.mem, r.block)
  {
    MergeFinalWords(s, brk, blocks, lists, lo, hi, dels);
    MergeSizeFacts(s.mem, brk, blocks, lo, hi);
    BeforeAt(s.mem, brk, blocks, i, hi);
    if lo < i {
      TiledOrder(s.mem, brk, blocks, lo, i);
    }
    var r := MergeWindow(s, brk, blocks, lists, lo, hi, dels);
    CoversSpan(r, blocks, lo, hi, blocks[i], MergedSize(blocks, brk, lo, hi), At(blocks, brk, hi),
               PrevDsizeAt(s.mem, blocks[lo]), PrevAllocAt(s.mem, blocks[lo]));
  }

  /** The merged block, written with `size` bytes at the head of the
      window up to q, is listed, free and spans every x inside it. */
  lemma CoversSpan(r: Merged, blocks: seq<nat>, lo: nat, hi: nat, x: nat, size: nat, q: nat, prevDsize: bool, prevAlloc: bool)
    requires lo < hi <= |blocks| && r.block == blocks[lo] && r.blocks == Splice(blocks, lo, [blocks[lo]], hi)
    requires size % 16 == 0 && size >= 2 * DSIZE && size < 0x1_0000_0000_0000_0000
    requires r.block + size / WSIZE == q < |r.s.mem| && r.s.mem[r.block] == Pack(size, prevDsize, prevAlloc, false)
    requires r.block <= x < q
    ensures r.block in r.blocks && r.block < |r.s.mem| && !AllocAt(r.s.mem, r.block) &&
      r.block <= x < r.block + WidthAt(r.s.mem, r.block)
  {
    PackRoundTrip(size, prevDsize, prevAlloc, false);
    SpliceFacts(blocks, lo, [blocks[lo]], hi);
    assert r.blocks[lo] == r.block;
  }

  // ---------------------------------------------------------------------
  // The merged block's size, and the blocks a merge leaves alone.

  /** `find_next` of block t is the header after it in the layout. */
  lemma NextIsAt(mem: Mem, brk: nat, blocks: seq<nat>, t: nat)
    requires Tiled(mem, brk, blocks) && t < |blocks|
    ensures blocks[t] < NextHeader(mem, blocks[t]) == At(blocks, brk, t + 1) < |mem|
  {
    assert BlockOK(mem, brk, blocks, t);
    SucceedsAt(blocks, brk, t);
    BeforeAt(mem, brk, blocks, t, t + 1);
  }

  /** Two adjacent blocks span the sum of their sizes. */
  lemma PairSize(mem: Mem, brk: nat, blocks: seq<nat>, lo: nat)
    requires Tiled(mem, brk, blocks) && lo + 2 <= |blocks|
    ensures MergedSize(blocks, brk, lo, lo + 2) == SizeAt(mem, blocks[lo]) + SizeAt(mem, blocks[lo + 1])
  {
    NextIsAt(mem, brk, blocks, lo);
    NextIsAt(mem, brk, blocks, lo + 1);
    assert SizeAt(mem, blocks[lo]) == WidthAt(mem, blocks[lo]) * WSIZE;
    assert SizeAt(mem, blocks[lo + 1]) == WidthAt(mem, blocks[lo + 1]) * WSIZE;
  }

  /** Three adjacent blocks span the sum of their sizes. */
  lemma TripleSize(mem: Mem, brk: nat, blocks: seq<nat>, lo: nat)
    requires Tiled(mem, brk, blocks) && lo + 3 <= |blocks|
    ensures MergedSize(blocks, brk, lo, lo + 3) ==
              SizeAt(mem, blocks[lo]) + SizeAt(mem, blocks[lo + 1]) + SizeAt(mem, blocks[lo + 2])
  {
    NextIsAt(mem, brk, blocks, lo);
    NextIsAt(mem, brk, blocks, lo + 1);
    NextIsAt(mem, brk, blocks, lo + 2);
    assert SizeAt(mem, blocks[lo]) == WidthAt(mem, blocks[lo]) * WSIZE;
    assert SizeAt(mem, blocks[lo + 1]) == WidthAt(mem, blocks[lo + 1]) * WSIZE;
    assert SizeAt(mem, blocks[lo + 2]) == WidthAt(mem, blocks[lo + 2]) * WSIZE;
  }

  /** Case 2's sizes: the header after the pair closes the window, and the
      merged size is the two sizes added as the source adds them. */
  lemma NextSizes(mem: Mem, brk: nat, blocks: seq<nat>, i: nat)
    requires Tiled(mem, brk, blocks) && i + 2 <= |blocks|
    ensures NextHeader(mem, blocks[i + 1]) == At(blocks, brk, i + 2)
    ensures MergedSize(blocks, brk, i, i + 2) == SizeAt(mem, blocks[i]) + SizeAt(mem, blocks[i + 1])
  {
    NextIsAt(mem, brk, blocks, i + 1);
    PairSize(mem, brk, blocks, i);
  }

  /** Case 3's sizes. */
  lemma PrevSizes(mem: Mem, brk: nat, blocks: seq<nat>, i: nat)
    requires Tiled(mem, brk, blocks) && 1 <= i < |blocks|
    ensures MergedSize(blocks, brk, i - 1, i + 1) == SizeAt(mem, blocks[i]) + SizeAt(mem, blocks[i - 1])
  {
    PairSize(mem, brk, blocks, i - 1);
  }

  /** Case 4's sizes: the middle block, the next block, then the previous one. */
  lemma BothSizes(mem: Mem, brk: nat, blocks: seq<nat>, i: nat)
    requires Tiled(mem, brk, blocks) && 1 <= i && i + 2 <= |blocks|
    ensures NextHeader(mem, blocks[i + 1]) == At(blocks, brk, i + 2)
    ensures MergedSize(blocks, brk, i - 1, i + 2) ==
              SizeAt(mem, blocks[i]) + SizeAt(mem, blocks[i + 1]) + SizeAt(mem, blocks[i - 1])
  {
    NextIsAt(mem, brk, blocks, i + 1);
    TripleSize(mem, brk, blocks, i - 1);
  }

  /** A merge returns the window's first block, and its size is the
      window's span. */
  lemma MergeSize(s: Heap, brk: nat, blocks: seq<nat>, lists: seq<seq<nat>>, lo: nat, hi: nat, dels: seq<nat>)
    requires Mergeable(s, brk, blocks, lists, lo, hi, dels)
    ensures var r := MergeWindow(s, brk, blocks, lists, lo, hi, dels);
      r.block == blocks[lo] && r.block < |r.s.mem| && SizeAt(r.s.mem, r.block) == MergedSize(blocks, brk, lo, hi)
  {
    MergeFinalWords(s, brk, blocks, lists, lo, hi, dels);
    MergeSizeFacts(s.mem, brk, blocks, lo, hi);
    PackRoundTrip(MergedSize(blocks, brk, lo, hi), PrevDsizeAt(s.mem, blocks[lo]), PrevAllocAt(s.mem, blocks[lo]), false);
  }

  /** The block `coalesce_block` returns starts at the previous block
      exactly when that block is free, and its size is the size of block i
      plus the size of each free neighbour it absorbs. */
  lemma CoalesceSums(s: Heap, brk: nat, blocks: seq<nat>, lists: seq<seq<nat>>, i: nat)
    requires Ready(s, brk, blocks, lists, i)
    ensures var r := Coalesce(s, brk, blocks, lists, i);
      var h := blocks[i];
      h < |s.mem| && NextHeader(s.mem, h) < |s.mem| && r.block < |r.s.mem| &&
      (r.block == h <==> PrevAllocAt(s.mem, h)) &&
      (!PrevAllocAt(s.mem, h) ==> 0 < i && r.block == blocks[i - 1]) &&
      SizeAt(r.s.mem, r.block) ==
        (if PrevAllocAt(s.mem, h) then 0 else SizeAt(s.mem, blocks[i - 1])) + SizeAt(s.mem, h) +
        (if AllocAt(s.mem, NextHeader(s.mem, h)) then 0 else SizeAt(s.mem, NextHeader(s.mem, h)))
  {
    if PrevAllocAt(s.mem, blocks[i]) {
      SumsAfter(s, brk, blocks, lists, i);
    } else {
      SumsBefore(s, brk, blocks, lists, i);
    }
  }

  /** With the previous block allocated, the result is block i, grown by
      the next block when that one is free. */
  lemma SumsAfter(s: Heap, brk: nat, blocks: seq<nat>, lists: seq<seq<nat>>, i: nat)
    requires Ready(s, brk, blocks, lists, i) && PrevAllocAt(s.mem, blocks[i])
    ensures var r := Coalesce(s, brk, blocks, lists, i);
      var h := blocks[i];
      h < |s.mem| && NextHeader(s.mem, h) < |s.mem| && r.block == h && r.block < |r.s.mem| &&
      SizeAt(r.s.mem, r.block) ==
        SizeAt(s.mem, h) + (if AllocAt(s.mem, NextHeader(s.mem, h)) then 0 else SizeAt(s.mem, NextHeader(s.mem, h)))
  {
    var h := blocks[i];
    NeighbourHeaders(s, brk, blocks, lists, i);
    var n := NextHeader(s.mem, h);
    if !AllocAt(s.mem, n) {
      MergeableNext(s, brk, blocks, lists, i);
      MergeSize(s, brk, blocks, lists, i, i + 2, [h, n]);
      NextSizes(s.mem, brk, blocks, i);
    }
  }

  /** With the previous block free, the result is that block, holding
      block i and the next block too when that one is free. */
  lemma SumsBefore(s: Heap, brk: nat, blocks: seq<nat>, lists: seq<seq<nat>>, i: nat)
    requires Ready(s, brk, blocks, lists, i) && !PrevAllocAt(s.mem, blocks[i])
    ensures var r := Coalesce(s, brk, blocks, lists, i);
      var h := blocks[i];
      h < |s.mem| && NextHeader(s.mem, h) < |s.mem| && 0 < i && r.block == blocks[i - 1] &&
      r.block != h && r.block < |r.s.mem| &&
      SizeAt(r.s.mem, r.block) ==
        SizeAt(s.mem, blocks[i - 1]) + SizeAt(s.mem, h) +
        (if AllocAt(s.mem, NextHeader(s.mem, h)) then 0 else SizeAt(s.mem, NextHeader(s.mem, h)))
  {
    var h := blocks[i];
    NeighbourHeaders(s, brk, blocks, lists, i);
    var n := NextHeader(s.mem, h);
    if AllocAt(s.mem, n) {
      MergeablePrev(s, brk, blocks, lists, i);
      MergeSize(s, brk, blocks, lists, i - 1, i + 1, [h, blocks[i - 1]]);
      PrevSizes(s.mem, brk, blocks, i);
      NextPair(s.mem, brk, blocks, i - 1);
    } else {
      MergeableBoth(s, brk, blocks, lists, i);
      MergeSize(s, brk, blocks, lists, i - 1, i + 2, [blocks[i - 1], h, n]);
      BothSizes(s.mem, brk, blocks, i);
      NextPair(s.mem, brk, blocks, i - 1);
    }
  }

  /** A merge changes no allocated block: its window holds free blocks
      only. */
  lemma MergeKeeps(s: Heap, brk: nat, blocks: seq<nat>, lists: seq<seq<nat>>, lo: nat, hi: nat, dels: seq<nat>)
    requires Mergeable(s, brk, blocks, lists, lo, hi, dels)
    ensures var r := MergeWindow(s, brk, blocks, lists, lo, hi, dels);
      KeepsAllocated(s.mem, blocks, r.s.mem, r.blocks, -1)
  {
    var p := blocks[lo];
    var u := Unlinked(s, brk, blocks, lists, lo, hi, dels);
    var w := Written(s, brk, blocks, lists, lo, hi, dels);
    var b2 := Splice(blocks, lo, [p], hi);
    var r := MergeWindow(s, brk, blocks, lists, lo, hi, dels);
    WrittenFacts(s, brk, blocks, lists, lo, hi, dels);
    LinkKeeps(w, brk, b2, u.lists, lo);
    assert r == Merged(Link(w, p), b2, With(w.mem, u.lists, p), p);
    TagsKeepOutside(s.mem, brk, blocks, lo, [p], hi, w.mem, brk, r.s.mem);
    WindowKeepsAllocated(s.mem, brk, blocks, lo, [p], hi, r.s.mem, brk, -1);
  }

  /** `coalesce_block` changes no allocated block. */
  lemma CoalesceKeeps(s: Heap, brk: nat, blocks: seq<nat>, lists: seq<seq<nat>>, i: nat)
    requires Ready(s, brk, blocks, lists, i)
    ensures var r := Coalesce(s, brk, blocks, lists, i);
      KeepsAllocated(s.mem, blocks, r.s.mem, r.blocks, -1)
  {
    var h := blocks[i];
    NeighbourHeaders(s, brk, blocks, lists, i);
    var n := NextHeader(s.mem, h);
    var pa := PrevAllocAt(s.mem, h);
    var na := AllocAt(s.mem, n);
    if pa && na {
    } else if pa {
      MergeableNext(s, brk, blocks, lists, i);
      MergeKeeps(s, brk, blocks, lists, i, i + 2, [h, n]);
    } else if na {
      MergeablePrev(s, brk, blocks, lists, i);
      MergeKeeps(s, brk, blocks, lists, i - 1, i + 1, [h, blocks[i - 1]]);
    } else {
      MergeableBoth(s, brk, blocks, lists, i);
      MergeKeeps(s, brk, blocks, lists, i - 1, i + 2, [blocks[i - 1], h, n]);
    }
  }
}
