/** What `free` does to the heap before it coalesces: the block's header and
    footer say free, the block joins the free list of its size, and the
    header that follows forgets that its predecessor was allocated. The
    result satisfies the whole invariant except that the freed block may
    still have a free neighbour, which `coalesce_block` removes. */
module FreeOp {
  import opened Codec
  import opened Sizes
  import opened FreeLists
  import opened HeapModel
  import opened LinkModel
  import opened Layout

  /** The block whose header is word h has its footer inside the memory
      (16-byte blocks have none). */
  predicate HasRoom(mem: Mem, h: nat) {
    h < |mem| &&
    (ExtractSize(mem[h]) != DSIZE ==> WSIZE <= ExtractSize(mem[h]) && h + ExtractSize(mem[h]) / WSIZE <= |mem|)
  }

  /** The header word of a free block of the same size and cached bits as
      the header word w. */
  function FreeWord(w: Word): Word {
    Pack(ExtractSize(w), ExtractPrevDsize(w), ExtractPrevAlloc(w), false)
  }

  /** `free`: rewrite the header, and the footer unless it is a 16-byte
      block, as free, keeping the size and the cached bits. */
  function MarkFree(mem: Mem, h: nat): (r: Mem)
    requires HasRoom(mem, h)
    ensures |r| == |mem|
  {
    var size := ExtractSize(mem[h]);
    var w := FreeWord(mem[h]);
    if size != DSIZE then mem[h := w][h + size / WSIZE - 1 := w] else mem[h := w]
  }

  /** `free`'s fix-up of the following header word n: clear its
      prev-allocated bit and, when it is a free block with a footer, clear
      that bit in the footer and then copy the header over it. */
  function ClearNextPrevAlloc(mem: Mem, n: nat): (r: Mem)
    requires n < |mem| && (!ExtractAlloc(mem[n]) ==> HasRoom(mem, n))
    ensures |r| == |mem|
  {
    var w := ClearBits(mem[n], PREV_ALLOC_MASK);
    if ExtractAlloc(mem[n]) then mem[n := w]
    else if ExtractSize(mem[n]) != DSIZE then
      var f := n + ExtractSize(mem[n]) / WSIZE - 1;
      var m1 := mem[n := w];
      m1[f := ClearBits(m1[f], PREV_ALLOC_MASK)][f := w]
    else mem[n := w]
  }

  /** The bounds a free of block i needs. */
  lemma FreeBounds(mem: Mem, brk: nat, root: seq<nat>, leaf: seq<nat>, blocks: seq<nat>, lists: seq<seq<nat>>, i: nat)
    requires Inv(mem, brk, root, leaf, blocks, lists, -1) && i < |blocks|
    ensures HasRoom(mem, blocks[i]) && ValidBlockSize(SizeAt(mem, blocks[i]))
    ensures 0 <= FindFreeList(SizeAt(mem, blocks[i])) < NUM as int
    ensures blocks[i] % 2 == 1 && blocks[i] + 2 < |mem|
    ensures blocks[i] + WidthAt(mem, blocks[i]) == Succ(blocks, brk, i) < brk <= |mem|
    ensures root[FindFreeList(SizeAt(mem, blocks[i]))] + 2 < |mem|
  {
    TiledFacts(mem, brk, blocks, i);
    assert BlockOK(mem, brk, blocks, i);
    ClassTotal(SizeAt(mem, blocks[i]));
    RootFacts(mem, root, leaf, lists, FindFreeList(SizeAt(mem, blocks[i])) as nat);
  }

  /** A block that is allocated is in no free list. */
  lemma AllocatedUnlisted(mem: Mem, blocks: seq<nat>, lists: seq<seq<nat>>, h: nat)
    requires Members(mem, blocks, lists) && h < |mem| && AllocAt(mem, h)
    ensures Unlisted(lists, h)
  {
    forall c, k | 0 <= c < |lists| && 0 <= k < |lists[c]|
      ensures lists[c][k] != h
    {
      assert MemberOK(mem, blocks, lists, c, k);
    }
  }

  /** After the header rewrite, and the footer rewrite unless block i is a
      16-byte block. */
  lemma MarkFreeStage(mem: Mem, brk: nat, root: seq<nat>, leaf: seq<nat>, blocks: seq<nat>, lists: seq<seq<nat>>,
                      i: nat, m2: Mem)
    requires Inv(mem, brk, root, leaf, blocks, lists, -1) && i < |blocks| && AllocAt(mem, blocks[i])
    requires HasRoom(mem, blocks[i]) && m2 == MarkFree(mem, blocks[i])
    ensures Tiled(m2, brk, blocks) && SameOutside(mem, brk, blocks, i, i + 1, m2)
    ensures Members(m2, blocks, lists) && LinksOK(m2, root, leaf, lists) && Unlisted(lists, blocks[i])
    ensures m2[blocks[i]] == FreeWord(mem[blocks[i]])
    ensures SizeAt(mem, blocks[i]) != DSIZE ==> m2[FooterOf(mem, brk, blocks, i)] == FreeWord(mem[blocks[i]])
    ensures m2[Succ(blocks, brk, i)] == mem[Succ(blocks, brk, i)]
  {
    var h := blocks[i];
    var S := SizeAt(mem, h);
    var W := WidthAt(mem, h);
    TiledFacts(mem, brk, blocks, i);
    assert BlockOK(mem, brk, blocks, i);
    var w := FreeWord(mem[h]);
    PackRoundTrip(S, PrevDsizeAt(mem, h), PrevAllocAt(mem, h), false);
    AllocatedUnlisted(mem, blocks, lists, h);
    NotLinkOwned(mem, brk, blocks, lists, i, h);
    WriteTiled(mem, brk, blocks, h, w);
    WriteLists(mem, blocks, root, leaf, lists, h, w);
    SameOutsideRefl(mem, brk, blocks, i, i + 1);
    RegionWrite(mem, brk, blocks, i, i + 1, mem, h, w);
    var m1 := mem[h := w];
    if S != DSIZE {
      var f := h + W - 1;
      OwnerUnique(mem, brk, blocks, i, f);
      assert f !in blocks;
      NotLinkOwned(m1, brk, blocks, lists, i, f);
      WriteTiled(m1, brk, blocks, f, w);
      WriteLists(m1, blocks, root, leaf, lists, f, w);
      RegionWrite(mem, brk, blocks, i, i + 1, m1, f, w);
      assert m2 == m1[f := w];
    }
  }

  /** After the insertion of block i at the head of list c. */
  lemma InsertStage(mem: Mem, brk: nat, root: seq<nat>, leaf: seq<nat>, blocks: seq<nat>, lists: seq<seq<nat>>,
                    i: nat, c: nat, m2: Mem, m3: Mem)
    requires Tiled(mem, brk, blocks) && i < |blocks|
    requires Tiled(m2, brk, blocks) && SameOutside(mem, brk, blocks, i, i + 1, m2)
    requires Members(m2, blocks, lists) && LinksOK(m2, root, leaf, lists) && Unlisted(lists, blocks[i])
    requires !AllocAt(m2, blocks[i]) && c as int == FindFreeList(SizeAt(m2, blocks[i])) && c < NUM
    requires blocks[i] % 2 == 1 && blocks[i] + 2 < |m2| && root[c] + 2 < |m2|
    requires m3 == InsertLinks(m2, blocks[i], c, root[c])
    ensures SameTags(m2, m3, brk, blocks) && Tiled(m3, brk, blocks)
    ensures SameOutside(mem, brk, blocks, i, i + 1, m3)
    ensures Members(m3, blocks, PushLists(lists, c, blocks[i]))
    ensures LinksOK(m3, root[c := blocks[i]], PushLeaf(leaf, lists, c, blocks[i]), PushLists(lists, c, blocks[i]))
  {
    var h := blocks[i];
    InsertKeepsLinks(m2, root, leaf, lists, h, c);
    InsertKeepsTags(m2, brk, root, leaf, blocks, lists, i, c);
    PushMembers(m2, blocks, lists, c, h);
    SameTagsKeep(m2, m3, brk, blocks, PushLists(lists, c, h), -1);
    SpliceOne(blocks, i);
    SameTagsOutside(mem, brk, blocks, i, [h], i + 1, m2, brk, m3);
  }

  /** After the header rewrite and the list insertion. */
  lemma FreeStage(mem: Mem, brk: nat, root: seq<nat>, leaf: seq<nat>, blocks: seq<nat>, lists: seq<seq<nat>>,
                  i: nat, c: nat, m2: Mem, m3: Mem)
    requires Inv(mem, brk, root, leaf, blocks, lists, -1) && i < |blocks| && AllocAt(mem, blocks[i])
    requires HasRoom(mem, blocks[i]) && c as int == FindFreeList(SizeAt(mem, blocks[i])) && c < NUM
    requires blocks[i] + 2 < |mem| && root[c] + 2 < |mem|
    requires m2 == MarkFree(mem, blocks[i])
    requires m3 == InsertLinks(m2, blocks[i], c, root[c])
    ensures |m3| == |mem| && Tiled(m3, brk, blocks)
    ensures SameOutside(mem, brk, blocks, i, i + 1, m3)
    ensures m3[blocks[i]] == FreeWord(mem[blocks[i]])
    ensures SizeAt(mem, blocks[i]) != DSIZE ==>
              m3[FooterOf(mem, brk, blocks, i)] == FreeWord(mem[blocks[i]])
    ensures m3[Succ(blocks, brk, i)] == mem[Succ(blocks, brk, i)]
    ensures Members(m3, blocks, PushLists(lists, c, blocks[i]))
    ensures LinksOK(m3, root[c := blocks[i]], PushLeaf(leaf, lists, c, blocks[i]), PushLists(lists, c, blocks[i]))
  {
    var h := blocks[i];
    TiledFacts(mem, brk, blocks, i);
    PackRoundTrip(SizeAt(mem, h), PrevDsizeAt(mem, h), PrevAllocAt(mem, h), false);
    MarkFreeStage(mem, brk, root, leaf, blocks, lists, i, m2);
    InsertStage(mem, brk, root, leaf, blocks, lists, i, c, m2, m3);
    SuccTag(m2, m3, brk, blocks, i);
    if SizeAt(mem, h) != DSIZE {
      assert ShowsFooter(m2, blocks, i);
    }
  }

  /** A step that keeps the tags keeps the header after block i. */
  lemma SuccTag(m2: Mem, m3: Mem, brk: nat, blocks: seq<nat>, i: nat)
    requires Tiled(m2, brk, blocks) && SameTags(m2, m3, brk, blocks) && i < |blocks|
    ensures m3[Succ(blocks, brk, i)] == m2[Succ(blocks, brk, i)]
  {
    if i + 1 < |blocks| {
      assert m3[blocks[i + 1]] == m2[blocks[i + 1]];
    }
  }

  /** In a tiled heap the header after block i, if free, has room for its footer. */
  lemma SuccRoom(mem: Mem, brk: nat, blocks: seq<nat>, i: nat)
    requires Tiled(mem, brk, blocks) && Sentinels(mem, brk) && i < |blocks|
    ensures !ExtractAlloc(mem[Succ(blocks, brk, i)]) ==> HasRoom(mem, Succ(blocks, brk, i))
  {
    if i + 1 < |blocks| {
      TiledFacts(mem, brk, blocks, i + 1);
      assert BlockOK(mem, brk, blocks, i + 1);
    }
  }

  /** The fix-up of the header after block i, and of its footer. */
  lemma ClearNextStage(mem: Mem, brk: nat, root: seq<nat>, leaf: seq<nat>, blocks: seq<nat>, lists: seq<seq<nat>>,
                       i: nat, m3: Mem, m5: Mem)
    requires Tiled(mem, brk, blocks) && Sentinels(mem, brk) && i < |blocks|
    requires |m3| == |mem| && Tiled(m3, brk, blocks) && SameOutside(mem, brk, blocks, i, i + 1, m3)
    requires m3[Succ(blocks, brk, i)] == mem[Succ(blocks, brk, i)]
    requires !ExtractAlloc(m3[Succ(blocks, brk, i)]) ==> HasRoom(m3, Succ(blocks, brk, i))
    requires Members(m3, blocks, lists) && LinksOK(m3, root, leaf, lists)
    requires m5 == ClearNextPrevAlloc(m3, Succ(blocks, brk, i))
    ensures Tiled(m5, brk, blocks) && KeepsOutside(mem, brk, blocks, i, i + 1, m5, brk)
    ensures Members(m5, blocks, lists) && LinksOK(m5, root, leaf, lists)
    ensures m5[Succ(blocks, brk, i)] == ClearBits(mem[Succ(blocks, brk, i)], PREV_ALLOC_MASK)
    ensures forall p :: 0 <= p < Succ(blocks, brk, i) ==> m5[p] == m3[p]
    ensures i + 1 < |blocks| ==> FooterOK(m5, brk, blocks, i + 1)
  {
    var n := Succ(blocks, brk, i);
    ClearPrevAllocFacts(m3[n]);
    var wn := ClearBits(m3[n], PREV_ALLOC_MASK);
    assert SameKind(wn, m3[n]);
    TiledFacts(mem, brk, blocks, i);
    assert BlockOK(mem, brk, blocks, i);
    if i + 1 < |blocks| {
      TiledFacts(mem, brk, blocks, i + 1);
      assert BlockOK(mem, brk, blocks, i + 1);
      NotLinkOwned(m3, brk, blocks, lists, i + 1, n);
    } else {
      NotLinkEpilogue(m3, brk, blocks, lists);
    }
    WriteTiled(m3, brk, blocks, n, wn);
    WriteLists(m3, blocks, root, leaf, lists, n, wn);
    RegionWrite(mem, brk, blocks, i, i + 1, m3, n, wn);
    var m4 := m3[n := wn];
    if !ExtractAlloc(m3[n]) && ExtractSize(m3[n]) != DSIZE {
      assert i + 1 < |blocks|;
      var f := n + ExtractSize(m3[n]) / WSIZE - 1;
      var v1 := ClearBits(m4[f], PREV_ALLOC_MASK);
      TiledFacts(m4, brk, blocks, i + 1);
      OwnerUnique(m4, brk, blocks, i + 1, f);
      assert f !in blocks;
      assert ShowsFooter(m4, blocks, i + 1);
      NotLinkOwned(m4, brk, blocks, lists, i + 1, f);
      WriteTiled(m4, brk, blocks, f, v1);
      WriteLists(m4, blocks, root, leaf, lists, f, v1);
      RegionWrite(mem, brk, blocks, i, i + 1, m4, f, v1);
      WriteTiled(m4[f := v1], brk, blocks, f, wn);
      WriteLists(m4[f := v1], blocks, root, leaf, lists, f, wn);
      RegionWrite(mem, brk, blocks, i, i + 1, m4[f := v1], f, wn);
      assert m5 == m4[f := v1][f := wn];
      assert f == FooterOf(m5, brk, blocks, i + 1);
    } else {
      assert m5 == m4;
    }
  }

  /** After the fix-up of the following header: the whole invariant holds,
      exempting only the pairs around block i, which is now free and listed
      in the list of its size. */
  lemma FreeKeepsInv(mem: Mem, brk: nat, root: seq<nat>, leaf: seq<nat>, blocks: seq<nat>, lists: seq<seq<nat>>,
                     i: nat, c: nat, m3: Mem, m5: Mem)
    requires Inv(mem, brk, root, leaf, blocks, lists, -1) && i < |blocks| && AllocAt(mem, blocks[i])
    requires c as int == FindFreeList(SizeAt(mem, blocks[i])) && c < NUM && |root| == NUM
    requires |m3| == |mem| && Tiled(m3, brk, blocks)
    requires SameOutside(mem, brk, blocks, i, i + 1, m3)
    requires m3[blocks[i]] == FreeWord(mem[blocks[i]])
    requires SizeAt(mem, blocks[i]) != DSIZE ==> m3[FooterOf(mem, brk, blocks, i)] == FreeWord(mem[blocks[i]])
    requires m3[Succ(blocks, brk, i)] == mem[Succ(blocks, brk, i)]
    requires !ExtractAlloc(m3[Succ(blocks, brk, i)]) ==> HasRoom(m3, Succ(blocks, brk, i))
    requires Members(m3, blocks, PushLists(lists, c, blocks[i]))
    requires LinksOK(m3, root[c := blocks[i]], PushLeaf(leaf, lists, c, blocks[i]), PushLists(lists, c, blocks[i]))
    requires m5 == ClearNextPrevAlloc(m3, Succ(blocks, brk, i))
    ensures Inv(m5, brk, root[c := blocks[i]], PushLeaf(leaf, lists, c, blocks[i]), blocks, PushLists(lists, c, blocks[i]), i)
    ensures !AllocAt(m5, blocks[i]) && SizeAt(m5, blocks[i]) == SizeAt(mem, blocks[i])
    ensures blocks[i] in PushLists(lists, c, blocks[i])[c]
  {
    var h := blocks[i];
    var lists2 := PushLists(lists, c, h);
    TiledFacts(mem, brk, blocks, i);
    ClearNextStage(mem, brk, root[c := h], PushLeaf(leaf, lists, c, h), blocks, lists2, i, m3, m5);
    FreeWordsKept(mem, brk, blocks, i, m3, m5);
    PackRoundTrip(SizeAt(mem, h), PrevDsizeAt(mem, h), PrevAllocAt(mem, h), false);
    assert SizeAt(m5, h) == SizeAt(mem, h);
    FreeTags(mem, brk, blocks, i, m5);
    FreeComplete(mem, brk, blocks, lists, i, c, m5);
  }

  /** The fix-up of the following header leaves the freed block's own
      header and footer alone. */
  lemma FreeWordsKept(mem: Mem, brk: nat, blocks: seq<nat>, i: nat, m3: Mem, m5: Mem)
    requires Tiled(mem, brk, blocks) && i < |blocks| && |m5| == |m3| == |mem|
    requires forall p :: 0 <= p < Succ(blocks, brk, i) ==> m5[p] == m3[p]
    ensures m5[blocks[i]] == m3[blocks[i]]
    ensures m5[FooterOf(mem, brk, blocks, i)] == m3[FooterOf(mem, brk, blocks, i)]
  {
    assert BlockOK(mem, brk, blocks, i);
  }

  /** The tag conditions after `free`'s writes, with the freed block exempt
      from the adjacency condition. */
  lemma FreeTags(mem: Mem, brk: nat, blocks: seq<nat>, i: nat, m5: Mem)
    requires Tiled(mem, brk, blocks) && Tags(mem, brk, blocks, -1) && i < |blocks| && AllocAt(mem, blocks[i])
    requires Tiled(m5, brk, blocks) && KeepsOutside(mem, brk, blocks, i, i + 1, m5, brk)
    requires m5[blocks[i]] == FreeWord(mem[blocks[i]])
    requires SizeAt(mem, blocks[i]) != DSIZE ==> m5[FooterOf(mem, brk, blocks, i)] == FreeWord(mem[blocks[i]])
    requires m5[Succ(blocks, brk, i)] == ClearBits(mem[Succ(blocks, brk, i)], PREV_ALLOC_MASK)
    requires i + 1 < |blocks| ==> FooterOK(m5, brk, blocks, i + 1)
    ensures Tags(m5, brk, blocks, i)
  {
    var h := blocks[i];
    FreeJunction(mem, brk, blocks, i, m5);
    SpliceOne(blocks, i);
    WindowTags(mem, brk, blocks, -1, i, [h], i + 1, m5, brk, i);
  }

  lemma FreeJunction(mem: Mem, brk: nat, blocks: seq<nat>, i: nat, m5: Mem)
    requires Tiled(mem, brk, blocks) && Tags(mem, brk, blocks, -1) && i < |blocks| && AllocAt(mem, blocks[i])
    requires Tiled(m5, brk, blocks) && KeepsOutside(mem, brk, blocks, i, i + 1, m5, brk)
    requires m5[blocks[i]] == FreeWord(mem[blocks[i]])
    requires SizeAt(mem, blocks[i]) != DSIZE ==> m5[FooterOf(mem, brk, blocks, i)] == FreeWord(mem[blocks[i]])
    requires m5[Succ(blocks, brk, i)] == ClearBits(mem[Succ(blocks, brk, i)], PREV_ALLOC_MASK)
    requires i + 1 < |blocks| ==> FooterOK(m5, brk, blocks, i + 1)
    ensures i == 0 ==> FirstBits(m5, brk, blocks)
    ensures Junction(m5, brk, blocks, i, 1, i)
  {
    var h := blocks[i];
    PackRoundTrip(SizeAt(mem, h), PrevDsizeAt(mem, h), PrevAllocAt(mem, h), false);
    if i == 0 {
      assert FirstBits(mem, brk, blocks);
    }
    forall j: nat | i <= j + 1 && j < i + 1 && j < |blocks|
      ensures BitsOK(m5, brk, blocks, j)
    {
      if j < i {
        assert BitsOK(mem, brk, blocks, i - 1);
        FreeBitsBefore(mem, brk, blocks, i, m5);
      } else {
        assert BitsOK(mem, brk, blocks, i);
        FreeBitsAt(mem, brk, blocks, i, m5);
      }
    }
    FreeFooterAt(mem, brk, blocks, i, m5);
  }

  /** The freed block keeps its cached bits, so its predecessor's bits
      still match. */
  lemma FreeBitsBefore(mem: Mem, brk: nat, blocks: seq<nat>, i: nat, m5: Mem)
    requires Tiled(mem, brk, blocks) && Tiled(m5, brk, blocks) && 0 < i < |blocks|
    requires BitsOK(mem, brk, blocks, i - 1) && m5[blocks[i - 1]] == mem[blocks[i - 1]]
    requires m5[blocks[i]] == FreeWord(mem[blocks[i]])
    ensures BitsOK(m5, brk, blocks, i - 1)
  {
    var h := blocks[i];
    PackRoundTrip(SizeAt(mem, h), PrevDsizeAt(mem, h), PrevAllocAt(mem, h), false);
    assert Succ(blocks, brk, i - 1) == h;
  }

  /** The header after the freed block records a free predecessor. */
  lemma FreeBitsAt(mem: Mem, brk: nat, blocks: seq<nat>, i: nat, m5: Mem)
    requires Tiled(mem, brk, blocks) && Tiled(m5, brk, blocks) && i < |blocks|
    requires BitsOK(mem, brk, blocks, i)
    requires m5[blocks[i]] == FreeWord(mem[blocks[i]])
    requires m5[Succ(blocks, brk, i)] == ClearBits(mem[Succ(blocks, brk, i)], PREV_ALLOC_MASK)
    ensures BitsOK(m5, brk, blocks, i)
  {
    var h := blocks[i];
    var n := Succ(blocks, brk, i);
    PackRoundTrip(SizeAt(mem, h), PrevDsizeAt(mem, h), PrevAllocAt(mem, h), false);
    ClearPrevAllocFacts(mem[n]);
    assert !PrevAllocAt(m5, n) && PrevDsizeAt(m5, n) == PrevDsizeAt(mem, n);
  }

  /** The freed block's footer copies its new header. */
  lemma FreeFooterAt(mem: Mem, brk: nat, blocks: seq<nat>, i: nat, m5: Mem)
    requires Tiled(mem, brk, blocks) && Tiled(m5, brk, blocks) && i < |blocks|
    requires m5[blocks[i]] == FreeWord(mem[blocks[i]])
    requires SizeAt(mem, blocks[i]) != DSIZE ==> m5[FooterOf(mem, brk, blocks, i)] == FreeWord(mem[blocks[i]])
    ensures FooterOK(m5, brk, blocks, i)
  {
    var h := blocks[i];
    PackRoundTrip(SizeAt(mem, h), PrevDsizeAt(mem, h), PrevAllocAt(mem, h), false);
    assert FooterOf(m5, brk, blocks, i) == FooterOf(mem, brk, blocks, i);
  }

  /** After `free`'s writes every free block is listed: block i in list c,
      the others where they were. */
  lemma FreeComplete(mem: Mem, brk: nat, blocks: seq<nat>, lists: seq<seq<nat>>, i: nat, c: nat, m5: Mem)
    requires Tiled(mem, brk, blocks) && Complete(mem, brk, blocks, lists) && i < |blocks| && c < |lists|
    requires Tiled(m5, brk, blocks) && KeepsOutside(mem, brk, blocks, i, i + 1, m5, brk)
    requires c as int == FindFreeList(SizeAt(m5, blocks[i]))
    ensures Complete(m5, brk, blocks, PushLists(lists, c, blocks[i]))
  {
    var lists2 := PushLists(lists, c, blocks[i]);
    forall j | 0 <= j < |blocks|
      ensures Listed(m5, brk, blocks, lists2, j)
    {
      if j != i {
        assert Listed(mem, brk, blocks, lists, j);
        if j != i + 1 {
          assert m5[blocks[j]] == mem[blocks[j]];
        }
      }
    }
  }
}
