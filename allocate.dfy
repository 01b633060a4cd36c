/** `malloc`'s placement of the block `find_fit` (or `extend_heap`) found:
    the block leaves its free list, its header is rewritten as allocated
    with the same size and cached bits, and the following header records
    that its predecessor is now allocated. Afterwards the whole invariant
    holds again, with no adjacency exemption. */
module AllocateOp {
  import opened Codec
  import opened Sizes
  import opened FreeLists
  import opened HeapModel
  import opened Layout
  import opened LinkModel
  import opened Window
  import opened FreeOp

  /** The header word of an allocated block of the same size and cached
      bits as the header word w. */
  function AllocWord(w: Word): Word {
    Pack(ExtractSize(w), ExtractPrevDsize(w), ExtractPrevAlloc(w), true)
  }

  /** `malloc`'s fix-up of the following header word n: set its
      prev-allocated bit and, when it is a free block with a footer, copy
      the new header over the footer. */
  function SetNextPrevAlloc(mem: Mem, n: nat): (r: Mem)
    requires n < |mem| && (!ExtractAlloc(mem[n]) ==> HasRoom(mem, n))
    ensures |r| == |mem|
  {
    var w := SetBits(mem[n], PREV_ALLOC_MASK);
    if ExtractAlloc(mem[n]) then mem[n := w]
    else if ExtractSize(mem[n]) != DSIZE then
      mem[n := w][n + ExtractSize(mem[n]) / WSIZE - 1 := w]
    else mem[n := w]
  }

  /** Block i is a free block of a heap that keeps the invariant. */
  ghost predicate Placeable(s: Heap, brk: nat, blocks: seq<nat>, lists: seq<seq<nat>>, i: nat) {
    Inv(s.mem, brk, s.root, s.leaf, blocks, lists, -1) && i < |blocks| && !AllocAt(s.mem, blocks[i])
  }

  /** The facts the placement of block i needs: it is listed in the list
      of its size, and unlinking it keeps its header and the next one. */
  lemma PlaceBounds(s: Heap, brk: nat, blocks: seq<nat>, lists: seq<seq<nat>>, i: nat)
    requires Placeable(s, brk, blocks, lists, i)
    ensures blocks[i] < |s.mem| <= MAX_WORDS && 0 <= ClassOf(s.mem, blocks[i])
    ensures blocks[i] in lists[ClassOf(s.mem, blocks[i])]
    ensures blocks[i] + WidthAt(s.mem, blocks[i]) == Succ(blocks, brk, i) < |s.mem|
    ensures !ExtractAlloc(s.mem[Succ(blocks, brk, i)]) ==> HasRoom(s.mem, Succ(blocks, brk, i))
    ensures Unlink(s, lists, blocks[i]).mem[blocks[i]] == s.mem[blocks[i]]
    ensures Unlink(s, lists, blocks[i]).mem[Succ(blocks, brk, i)] == s.mem[Succ(blocks, brk, i)]
  {
    TiledFacts(s.mem, brk, blocks, i);
    assert BlockOK(s.mem, brk, blocks, i);
    assert Listed(s.mem, brk, blocks, lists, i);
    SuccRoom(s.mem, brk, blocks, i);
    UnlinkKeeps(s, brk, blocks, lists, blocks[i]);
    SuccTag(s.mem, Unlink(s, lists, blocks[i]).mem, brk, blocks, i);
  }

  /** The free lists after block i has left its list. */
  ghost function Taken(s: Heap, brk: nat, blocks: seq<nat>, lists: seq<seq<nat>>, i: nat): seq<seq<nat>>
    requires Placeable(s, brk, blocks, lists, i)
  {
    PlaceBounds(s, brk, blocks, lists, i);
    Without(s.mem, lists, blocks[i])
  }

  /** The first half of the placement: unlink block i and mark it
      allocated. Its cached bits are read before the unlinking, which
      leaves the header alone. */
  ghost function Marked(s: Heap, brk: nat, blocks: seq<nat>, lists: seq<seq<nat>>, i: nat): (r: Heap)
    requires Placeable(s, brk, blocks, lists, i)
    ensures |r.mem| == |s.mem|
  {
    var h := blocks[i];
    PlaceBounds(s, brk, blocks, lists, i);
    var u := Unlink(s, lists, h);
    Heap(u.mem[h := AllocWord(s.mem[h])], u.root, u.leaf)
  }

  /** The placement (mm.c:242-266). */
  ghost function Allocate(s: Heap, brk: nat, blocks: seq<nat>, lists: seq<seq<nat>>, i: nat): (r: Heap)
    requires Placeable(s, brk, blocks, lists, i)
    ensures |r.mem| == |s.mem|
  {
    var m := Marked(s, brk, blocks, lists, i);
    PlaceBounds(s, brk, blocks, lists, i);
    MarkStage(s, brk, blocks, lists, i);
    Heap(SetNextPrevAlloc(m.mem, Succ(blocks, brk, i)), m.root, m.leaf)
  }

  /** After the unlinking and the header rewrite. */
  lemma MarkStage(s: Heap, brk: nat, blocks: seq<nat>, lists: seq<seq<nat>>, i: nat)
    requires Placeable(s, brk, blocks, lists, i)
    ensures var m := Marked(s, brk, blocks, lists, i);
      var L2 := Taken(s, brk, blocks, lists, i);
      Tiled(m.mem, brk, blocks) && SameOutside(s.mem, brk, blocks, i, i + 1, m.mem) &&
      Members(m.mem, blocks, L2) && LinksOK(m.mem, m.root, m.leaf, L2) &&
      Succ(blocks, brk, i) < |m.mem| && m.mem[Succ(blocks, brk, i)] == s.mem[Succ(blocks, brk, i)] &&
      m.mem[blocks[i]] == AllocWord(s.mem[blocks[i]]) &&
      (!ExtractAlloc(m.mem[Succ(blocks, brk, i)]) ==> HasRoom(m.mem, Succ(blocks, brk, i)))
  {
    PlaceBounds(s, brk, blocks, lists, i);
    var h := blocks[i];
    var u := Unlink(s, lists, h);
    var L2 := Without(s.mem, lists, h);
    var w := AllocWord(s.mem[h]);
    UnlinkKeeps(s, brk, blocks, lists, h);
    SameOutsideRefl(s.mem, brk, blocks, i, i + 1);
    TagsKeepOutsideSelf(s.mem, brk, blocks, i, i + 1, s.mem, u.mem);
    TiledFacts(s.mem, brk, blocks, i);
    PackRoundTrip(SizeAt(s.mem, h), PrevDsizeAt(s.mem, h), PrevAllocAt(s.mem, h), true);
    NotLinkOwned(u.mem, brk, blocks, L2, i, h);
    WriteTiled(u.mem, brk, blocks, h, w);
    WriteLists(u.mem, blocks, u.root, u.leaf, L2, h, w);
    RegionWrite(s.mem, brk, blocks, i, i + 1, u.mem, h, w);
    assert BlockOK(s.mem, brk, blocks, i);
  }

  /** The fix-up of the header after block i, and of its footer. */
  lemma SetNextStage(mem: Mem, brk: nat, root: seq<nat>, leaf: seq<nat>, blocks: seq<nat>, lists: seq<seq<nat>>,
                     i: nat, m3: Mem, m5: Mem)
    requires Tiled(mem, brk, blocks) && Sentinels(mem, brk) && i < |blocks|
    requires |m3| == |mem| && Tiled(m3, brk, blocks) && SameOutside(mem, brk, blocks, i, i + 1, m3)
    requires m3[Succ(blocks, brk, i)] == mem[Succ(blocks, brk, i)]
    requires !ExtractAlloc(m3[Succ(blocks, brk, i)]) ==> HasRoom(m3, Succ(blocks, brk, i))
    requires Members(m3, blocks, lists) && LinksOK(m3, root, leaf, lists)
    requires m5 == SetNextPrevAlloc(m3, Succ(blocks, brk, i))
    ensures Tiled(m5, brk, blocks) && KeepsOutside(mem, brk, blocks, i, i + 1, m5, brk)
    ensures Members(m5, blocks, lists) && LinksOK(m5, root, leaf, lists)
    ensures m5[Succ(blocks, brk, i)] == SetBits(mem[Succ(blocks, brk, i)], PREV_ALLOC_MASK)
    ensures forall p :: 0 <= p < Succ(blocks, brk, i) ==> m5[p] == m3[p]
    ensures i + 1 < |blocks| ==> FooterOK(m5, brk, blocks, i + 1)
  {
    var n := Succ(blocks, brk, i);
    SetPrevAllocFacts(m3[n]);
    var wn := SetBits(m3[n], PREV_ALLOC_MASK);
    assert SameKind(wn, m3[n]);
    TiledFacts(mem, brk, blocks, i);
    assert BlockOK(mem, brk, blocks, i);
    if i + 1 < |blocks| {
      TiledFacts(mem, brk, blocks, i + 1);
      assert BlockOK(mem, brk, blocks, i + 1);
      NotLinkOwned(m3, brk, blocks, lists, i + 1, n);
    } else {
      NotLinkEpilogue(m3, brk, blocks, lists);
    }
    WriteTiled(m3, brk, blocks, n, wn);
    WriteLists(m3, blocks, root, leaf, lists, n, wn);
    RegionWrite(mem, brk, blocks, i, i + 1, m3, n, wn);
    var m4 := m3[n := wn];
    if !ExtractAlloc(m3[n]) && ExtractSize(m3[n]) != DSIZE {
      assert i + 1 < |blocks|;
      var f := n + ExtractSize(m3[n]) / WSIZE - 1;
      TiledFacts(m4, brk, blocks, i + 1);
      OwnerUnique(m4, brk, blocks, i + 1, f);
      assert f !in blocks;
      assert ShowsFooter(m4, blocks, i + 1);
      NotLinkOwned(m4, brk, blocks, lists, i + 1, f);
      WriteTiled(m4, brk, blocks, f, wn);
      WriteLists(m4, blocks, root, leaf, lists, f, wn);
      RegionWrite(mem, brk, blocks, i, i + 1, m4, f, wn);
      assert m5 == m4[f := wn];
      assert f == FooterOf(m5, brk, blocks, i + 1);
    } else {
      assert m5 == m4;
    }
  }

  /** What the placement writes, and the invariant's parts that only need
      the writes to stay in their places. */
  lemma AllocateStage(s: Heap, brk: nat, blocks: seq<nat>, lists: seq<seq<nat>>, i: nat)
    requires Placeable(s, brk, blocks, lists, i)
    ensures var r := Allocate(s, brk, blocks, lists, i);
      var L2 := Taken(s, brk, blocks, lists, i);
      Tiled(r.mem, brk, blocks) && KeepsOutside(s.mem, brk, blocks, i, i + 1, r.mem, brk) &&
      Members(r.mem, blocks, L2) && LinksOK(r.mem, r.root, r.leaf, L2) &&
      r.mem[blocks[i]] == AllocWord(s.mem[blocks[i]]) &&
      r.mem[Succ(blocks, brk, i)] == SetBits(s.mem[Succ(blocks, brk, i)], PREV_ALLOC_MASK) &&
      (i + 1 < |blocks| ==> FooterOK(r.mem, brk, blocks, i + 1))
  {
    MarkStage(s, brk, blocks, lists, i);
    var m := Marked(s, brk, blocks, lists, i);
    var r := Allocate(s, brk, blocks, lists, i);
    var L2 := Taken(s, brk, blocks, lists, i);
    assert r == Heap(SetNextPrevAlloc(m.mem, Succ(blocks, brk, i)), m.root, m.leaf);
    assert Sentinels(s.mem, brk);
    SetNextStage(s.mem, brk, m.root, m.leaf, blocks, L2, i, m.mem, r.mem);
    TiledFacts(s.mem, brk, blocks, i);
    assert BlockOK(s.mem, brk, blocks, i);
  }

  /** The placement changes no allocated block: its window is the free
      block i. */
  lemma AllocateKeeps(s: Heap, brk: nat, blocks: seq<nat>, lists: seq<seq<nat>>, i: nat)
    requires Placeable(s, brk, blocks, lists, i)
    ensures KeepsAllocated(s.mem, blocks, Allocate(s, brk, blocks, lists, i).mem, blocks, -1)
  {
    AllocateStage(s, brk, blocks, lists, i);
    SpliceOne(blocks, i);
    WindowKeepsAllocated(s.mem, brk, blocks, i, [blocks[i]], i + 1, Allocate(s, brk, blocks, lists, i).mem, brk, -1);
  }

  /** The junction conditions after the placement: block i is allocated,
      so neither pair around it is free, and the next header records it. */
  lemma AllocateJunction(mem: Mem, brk: nat, blocks: seq<nat>, i: nat, m5: Mem)
    requires Tiled(mem, brk, blocks) && Tags(mem, brk, blocks, -1) && i < |blocks|
    requires Tiled(m5, brk, blocks) && KeepsOutside(mem, brk, blocks, i, i + 1, m5, brk)
    requires m5[blocks[i]] == AllocWord(mem[blocks[i]])
    requires m5[Succ(blocks, brk, i)] == SetBits(mem[Succ(blocks, brk, i)], PREV_ALLOC_MASK)
    requires i + 1 < |blocks| ==> FooterOK(m5, brk, blocks, i + 1)
    ensures i == 0 ==> FirstBits(m5, brk, blocks)
    ensures Junction(m5, brk, blocks, i, 1, -1)
  {
    var h := blocks[i];
    var n := Succ(blocks, brk, i);
    PackRoundTrip(SizeAt(mem, h), PrevDsizeAt(mem, h), PrevAllocAt(mem, h), true);
    SetPrevAllocFacts(mem[n]);
    if i == 0 {
      assert FirstBits(mem, brk, blocks);
    }
    if i > 0 {
      assert BitsOK(mem, brk, blocks, i - 1);
      assert Succ(blocks, brk, i - 1) == h;
      assert m5[blocks[i - 1]] == mem[blocks[i - 1]];
    }
    assert BitsOK(mem, brk, blocks, i);
    assert BitsOK(m5, brk, blocks, i);
    assert !ShowsFooter(m5, blocks, i);
  }

  /** Placement keeps the whole invariant: block i is allocated with its
      size, it has left its list, and every other list entry stays. */
  lemma AllocateInv(s: Heap, brk: nat, blocks: seq<nat>, lists: seq<seq<nat>>, i: nat)
    requires Placeable(s, brk, blocks, lists, i)
    ensures var r := Allocate(s, brk, blocks, lists, i);
      Inv(r.mem, brk, r.root, r.leaf, blocks, Taken(s, brk, blocks, lists, i), -1) &&
      AllocAt(r.mem, blocks[i]) && SizeAt(r.mem, blocks[i]) == SizeAt(s.mem, blocks[i]) &&
      Unlisted(Taken(s, brk, blocks, lists, i), blocks[i])
    ensures forall d, x :: 0 <= d < NUM && x in lists[d] && x != blocks[i] ==> x in Taken(s, brk, blocks, lists, i)[d]
  {
    var h := blocks[i];
    var r := Allocate(s, brk, blocks, lists, i);
    var L2 := Taken(s, brk, blocks, lists, i);
    PlaceBounds(s, brk, blocks, lists, i);
    UnlinkKeeps(s, brk, blocks, lists, h);
    AllocateStage(s, brk, blocks, lists, i);
    PackRoundTrip(SizeAt(s.mem, h), PrevDsizeAt(s.mem, h), PrevAllocAt(s.mem, h), true);
    PlaceWindow(s.mem, brk, blocks, lists, i, r.mem, r.root, r.leaf, L2);
  }

  /** The invariant after the placement, from what the placement writes:
      the window is block i alone, now allocated and unlisted. */
  lemma PlaceWindow(mem: Mem, brk: nat, blocks: seq<nat>, lists: seq<seq<nat>>, i: nat,
                    m5: Mem, root2: seq<nat>, leaf2: seq<nat>, L2: seq<seq<nat>>)
    requires Tiled(mem, brk, blocks) && Tags(mem, brk, blocks, -1) && Complete(mem, brk, blocks, lists)
    requires i < |blocks| && |m5| == |mem| && |L2| == |lists| == NUM
    requires Tiled(m5, brk, blocks) && KeepsOutside(mem, brk, blocks, i, i + 1, m5, brk)
    requires Members(m5, blocks, L2) && LinksOK(m5, root2, leaf2, L2)
    requires m5[blocks[i]] == AllocWord(mem[blocks[i]]) && ExtractAlloc(m5[blocks[i]])
    requires m5[Succ(blocks, brk, i)] == SetBits(mem[Succ(blocks, brk, i)], PREV_ALLOC_MASK)
    requires i + 1 < |blocks| ==> FooterOK(m5, brk, blocks, i + 1)
    requires forall d, x :: 0 <= d < NUM && x in lists[d] && x != blocks[i] ==> x in L2[d]
    ensures Inv(m5, brk, root2, leaf2, blocks, L2, -1)
  {
    var h := blocks[i];
    AllocateJunction(mem, brk, blocks, i, m5);
    SpliceOne(blocks, i);
    assert blocks[i..i + 1] == [h];
    assert Listed(m5, brk, Splice(blocks, i, [h], i + 1), L2, i);
    WindowInv(mem, brk, blocks, lists, -1, i, [h], i + 1, m5, brk, root2, leaf2, L2, -1);
  }
}
