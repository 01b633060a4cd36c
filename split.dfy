/** `split_block`: when the allocated block i is at least 16 bytes larger
    than the adjusted request, its tail becomes a free block of its own,
    which joins the list of its size; the header after the tail learns that
    its predecessor is free, and whether it is a 16-byte block. */
module SplitOp {
  import opened Codec
  import opened Sizes
  import opened FreeLists
  import opened HeapModel
  import opened Layout
  import opened LinkModel
  import opened Window
  import opened FreeOp
  import opened CoalesceOp

  /** The header word after a free tail of `rest` bytes: its
      prev-allocated bit cleared and, when the tail is 16 bytes, its
      16-byte bit set. */
  function FixWord(w: Word, rest: nat): Word {
    var w0 := ClearBits(w, PREV_ALLOC_MASK);
    if rest == DSIZE then SetBits(w0, DSIZE_MASK) else w0
  }

  /** `split_block`'s fix-up of the header n after a free tail of `rest`
      bytes and, when n is a free block with a footer, of that footer. */
  function FixAfterTail(mem: Mem, n: nat, rest: nat): (r: Mem)
    requires n < |mem| && (!ExtractAlloc(mem[n]) ==> HasRoom(mem, n))
    ensures |r| == |mem|
  {
    var w := FixWord(mem[n], rest);
    if ExtractAlloc(mem[n]) then mem[n := w]
    else if ExtractSize(mem[n]) != DSIZE then mem[n := w][n + ExtractSize(mem[n]) / WSIZE - 1 := w]
    else mem[n := w]
  }

  /** How `malloc` calls `split_block`: block i is allocated, the block
      after it is allocated (block i was free, so its successor was not),
      and the adjusted size is a block size no larger than block i. */
  ghost predicate SplitReady(s: Heap, brk: nat, blocks: seq<nat>, lists: seq<seq<nat>>, i: nat, asize: nat) {
    Inv(s.mem, brk, s.root, s.leaf, blocks, lists, -1) && i < |blocks| && AllocAt(s.mem, blocks[i]) &&
    Succ(blocks, brk, i) < |s.mem| && ExtractAlloc(s.mem[Succ(blocks, brk, i)]) &&
    asize % 16 == 0 && MIN_BLOCK_SIZE <= asize <= SizeAt(s.mem, blocks[i])
  }

  /** Block i of a tiled heap is large enough for a tail after `asize`
      bytes, a block size. */
  ghost predicate Carvable(mem: Mem, brk: nat, blocks: seq<nat>, i: nat, asize: nat) {
    Tiled(mem, brk, blocks) && i < |blocks| &&
    asize % 16 == 0 && MIN_BLOCK_SIZE <= asize && Cuts(mem, blocks[i], asize)
  }

  /** The split happens: the tail would be at least a minimum block. */
  predicate Cuts(mem: Mem, h: nat, asize: nat)
    requires h < |mem|
  {
    SizeAt(mem, h) >= asize + MIN_BLOCK_SIZE
  }

  /** The header of the tail. */
  function Tail(h: nat, asize: nat): nat {
    h + asize / WSIZE
  }

  /** `my_write_header` and `my_write_footer` twice: block i shrunk to
      `asize` bytes, allocated with its cached bits, and the free tail
      written after it with its header and footer; the tail follows an
      allocated block that is 16 bytes exactly when asize is. */
  function Carve(mem: Mem, h: nat, asize: nat): (r: Mem)
    requires h < |mem| && asize % 16 == 0 && MIN_BLOCK_SIZE <= asize && Cuts(mem, h, asize)
    requires h + WidthAt(mem, h) <= |mem|
    ensures |r| == |mem|
  {
    var rest := SizeAt(mem, h) - asize;
    var q := Tail(h, asize);
    var wa := Pack(asize, PrevDsizeAt(mem, h), PrevAllocAt(mem, h), true);
    var v := Pack(rest, asize == DSIZE, true, false);
    mem[h := wa][q - 1 := wa][q := v][q + rest / WSIZE - 1 := v]
  }

  /** The layout after the split. */
  function SplitBlocks(blocks: seq<nat>, i: nat, asize: nat): seq<nat>
    requires i < |blocks|
  {
    Splice(blocks, i, [blocks[i], Tail(blocks[i], asize)], i + 1)
  }

  /** The bounds of a split of block i. */
  lemma CarveBounds(mem: Mem, brk: nat, blocks: seq<nat>, i: nat, asize: nat)
    requires Carvable(mem, brk, blocks, i, asize)
    ensures blocks[i] % 2 == 1 && blocks[i] + WidthAt(mem, blocks[i]) == Succ(blocks, brk, i) < brk <= |mem|
    ensures SizeAt(mem, blocks[i]) % 16 == 0
    ensures var q := Tail(blocks[i], asize);
      var rest := SizeAt(mem, blocks[i]) - asize;
      blocks[i] + 1 < q && q % 2 == 1 && q + rest / WSIZE == Succ(blocks, brk, i) &&
      rest % 16 == 0 && rest >= MIN_BLOCK_SIZE && q + 1 < Succ(blocks, brk, i)
  {
    TiledFacts(mem, brk, blocks, i);
    assert BlockOK(mem, brk, blocks, i);
    var size := SizeAt(mem, blocks[i]);
    var a := asize / 16;
    var z := size / 16;
    assert asize == 16 * a && size == 16 * z;
    assert asize / WSIZE == 2 * a && size / WSIZE == 2 * z;
    assert (size - asize) / WSIZE == 2 * (z - a);
  }

  /** Four writes inside the span of block i keep the tags outside it and
      the header after it. */
  lemma WritesInside(mem: Mem, brk: nat, blocks: seq<nat>, i: nat,
                     p1: nat, v1: Word, p2: nat, v2: Word, p3: nat, v3: Word, p4: nat, v4: Word, m: Mem)
    requires Tiled(mem, brk, blocks) && i < |blocks| && Succ(blocks, brk, i) < |mem|
    requires blocks[i] <= p1 < Succ(blocks, brk, i) && blocks[i] <= p2 < Succ(blocks, brk, i)
    requires blocks[i] <= p3 < Succ(blocks, brk, i) && blocks[i] <= p4 < Succ(blocks, brk, i)
    requires m == mem[p1 := v1][p2 := v2][p3 := v3][p4 := v4]
    ensures m[Succ(blocks, brk, i)] == mem[Succ(blocks, brk, i)] && KeepsOutside(mem, brk, blocks, i, i + 1, m, brk)
  {
    TiledFacts(mem, brk, blocks, i);
    assert BlockOK(mem, brk, blocks, i);
    var m1 := mem[p1 := v1];
    var m2 := m1[p2 := v2];
    var m3 := m2[p3 := v3];
    SameOutsideRefl(mem, brk, blocks, i, i + 1);
    RegionWrite(mem, brk, blocks, i, i + 1, mem, p1, v1);
    RegionWrite(mem, brk, blocks, i, i + 1, m1, p2, v2);
    RegionWrite(mem, brk, blocks, i, i + 1, m2, p3, v3);
    RegionWrite(mem, brk, blocks, i, i + 1, m3, p4, v4);
    if i + 1 < |blocks| {
      assert Succ(blocks, brk, i) == blocks[i + 1];
    }
  }

  /** The carving writes four words of block i, so the tags outside it
      and the header after it stay. */
  lemma CarveOutside(mem: Mem, brk: nat, blocks: seq<nat>, i: nat, asize: nat)
    requires Carvable(mem, brk, blocks, i, asize)
    ensures blocks[i] + WidthAt(mem, blocks[i]) <= |mem|
    ensures Carve(mem, blocks[i], asize)[Succ(blocks, brk, i)] == mem[Succ(blocks, brk, i)]
    ensures KeepsOutside(mem, brk, blocks, i, i + 1, Carve(mem, blocks[i], asize), brk)
  {
    CarveBounds(mem, brk, blocks, i, asize);
    var h := blocks[i];
    var m := Carve(mem, h, asize);
    assert m[Succ(blocks, brk, i)] == mem[Succ(blocks, brk, i)] && KeepsOutside(mem, brk, blocks, i, i + 1, m, brk) by {
      var q := Tail(h, asize);
      var rest := SizeAt(mem, h) - asize;
      var wa := Pack(asize, PrevDsizeAt(mem, h), PrevAllocAt(mem, h), true);
      var v := Pack(rest, asize == DSIZE, true, false);
      WritesInside(mem, brk, blocks, i, h, wa, q - 1, wa, q, v, q + rest / WSIZE - 1, v, m);
    }
  }

  /** The words the carving writes, and what they say. */
  lemma CarveWords(mem: Mem, brk: nat, blocks: seq<nat>, i: nat, asize: nat)
    requires Carvable(mem, brk, blocks, i, asize)
    ensures blocks[i] + WidthAt(mem, blocks[i]) <= |mem|
    ensures var h := blocks[i];
      var m := Carve(mem, h, asize);
      var q := Tail(h, asize);
      var rest := SizeAt(mem, h) - asize;
      q + rest / WSIZE - 1 < |m| &&
      m[h] == Pack(asize, PrevDsizeAt(mem, h), PrevAllocAt(mem, h), true) &&
      m[q] == Pack(rest, asize == DSIZE, true, false) &&
      m[q + rest / WSIZE - 1] == m[q] &&
      SizeAt(m, h) == asize && AllocAt(m, h) && PrevDsizeAt(m, h) == PrevDsizeAt(mem, h) &&
      PrevAllocAt(m, h) == PrevAllocAt(mem, h) &&
      SizeAt(m, q) == rest && !AllocAt(m, q) && PrevAllocAt(m, q) && PrevDsizeAt(m, q) == (asize == DSIZE)
  {
    CarveBounds(mem, brk, blocks, i, asize);
    var h := blocks[i];
    var rest := SizeAt(mem, h) - asize;
    PackRoundTrip(asize, PrevDsizeAt(mem, h), PrevAllocAt(mem, h), true);
    PackRoundTrip(rest, asize == DSIZE, true, false);
  }

  /** The carved memory tiles the heap with block i and its tail. */
  lemma CarveTiled(mem: Mem, brk: nat, blocks: seq<nat>, i: nat, asize: nat)
    requires Carvable(mem, brk, blocks, i, asize)
    ensures blocks[i] + WidthAt(mem, blocks[i]) <= |mem|
    ensures Tiled(Carve(mem, blocks[i], asize), brk, SplitBlocks(blocks, i, asize))
  {
    CarveBounds(mem, brk, blocks, i, asize);
    CarveOutside(mem, brk, blocks, i, asize);
    CarveWords(mem, brk, blocks, i, asize);
    var h := blocks[i];
    var q := Tail(h, asize);
    var m := Carve(mem, h, asize);
    forall j | 0 <= j < i || i + 1 <= j < |blocks|
      ensures SizeAt(m, blocks[j]) == SizeAt(mem, blocks[j])
    {
      if j == i + 1 {
        assert blocks[j] == Succ(blocks, brk, i);
      }
    }
    assert End(blocks, i + 1, brk) == Succ(blocks, brk, i);
    assert At(blocks, brk, i) == h;
    assert MidTiles(m, brk, [h, q], At(blocks, brk, i), End(blocks, i + 1, brk));
    SpliceTiled(mem, brk, blocks, i, [h, q], i + 1, m, brk);
  }

  /** Four writes inside the span of the unlisted block i, none of them on
      another block's header, keep the list conditions. */
  lemma WritesUnlisted(mem: Mem, brk: nat, root: seq<nat>, leaf: seq<nat>, blocks: seq<nat>, lists: seq<seq<nat>>, i: nat,
                       p1: nat, v1: Word, p2: nat, v2: Word, p3: nat, v3: Word, p4: nat, v4: Word, m: Mem)
    requires Tiled(mem, brk, blocks) && i < |blocks| && Unlisted(lists, blocks[i])
    requires Members(mem, blocks, lists) && LinksOK(mem, root, leaf, lists)
    requires blocks[i] <= p1 < blocks[i] + WidthAt(mem, blocks[i]) && blocks[i] <= p2 < blocks[i] + WidthAt(mem, blocks[i])
    requires blocks[i] <= p3 < blocks[i] + WidthAt(mem, blocks[i]) && blocks[i] <= p4 < blocks[i] + WidthAt(mem, blocks[i])
    requires blocks[i] + WidthAt(mem, blocks[i]) <= |mem|
    requires m == mem[p1 := v1][p2 := v2][p3 := v3][p4 := v4]
    ensures Members(m, blocks, lists) && LinksOK(m, root, leaf, lists)
  {
    OwnerUnique(mem, brk, blocks, i, p1);
    OwnerUnique(mem, brk, blocks, i, p2);
    OwnerUnique(mem, brk, blocks, i, p3);
    OwnerUnique(mem, brk, blocks, i, p4);
    NotLinkOwned(mem, brk, blocks, lists, i, p1);
    NotLinkOwned(mem, brk, blocks, lists, i, p2);
    NotLinkOwned(mem, brk, blocks, lists, i, p3);
    NotLinkOwned(mem, brk, blocks, lists, i, p4);
    var m1 := mem[p1 := v1];
    var m2 := m1[p2 := v2];
    var m3 := m2[p3 := v3];
    WriteLists(mem, blocks, root, leaf, lists, p1, v1);
    WriteLists(m1, blocks, root, leaf, lists, p2, v2);
    WriteLists(m2, blocks, root, leaf, lists, p3, v3);
    WriteLists(m3, blocks, root, leaf, lists, p4, v4);
  }

  /** The carving writes no link word and no listed header; the tail is in
      no list. */
  lemma CarveLists(mem: Mem, brk: nat, root: seq<nat>, leaf: seq<nat>, blocks: seq<nat>, lists: seq<seq<nat>>,
                   i: nat, asize: nat)
    requires Carvable(mem, brk, blocks, i, asize) && AllocAt(mem, blocks[i])
    requires Members(mem, blocks, lists) && LinksOK(mem, root, leaf, lists)
    ensures blocks[i] + WidthAt(mem, blocks[i]) <= |mem|
    ensures Members(Carve(mem, blocks[i], asize), SplitBlocks(blocks, i, asize), lists)
    ensures LinksOK(Carve(mem, blocks[i], asize), root, leaf, lists)
    ensures Unlisted(lists, Tail(blocks[i], asize))
  {
    CarveBounds(mem, brk, blocks, i, asize);
    var h := blocks[i];
    var q := Tail(h, asize);
    var m := Carve(mem, h, asize);
    AllocatedUnlisted(mem, blocks, lists, h);
    assert Members(m, blocks, lists) && LinksOK(m, root, leaf, lists) by {
      var rest := SizeAt(mem, h) - asize;
      var wa := Pack(asize, PrevDsizeAt(mem, h), PrevAllocAt(mem, h), true);
      var v := Pack(rest, asize == DSIZE, true, false);
      WritesUnlisted(mem, brk, root, leaf, blocks, lists, i, h, wa, q - 1, wa, q, v, q + rest / WSIZE - 1, v, m);
    }
    MembersSplit(m, blocks, lists, i, q);
    TailUnlisted(mem, brk, blocks, lists, i, q);
  }

  /** Block i's tail is no block, so no list holds it. */
  lemma TailUnlisted(mem: Mem, brk: nat, blocks: seq<nat>, lists: seq<seq<nat>>, i: nat, q: nat)
    requires Tiled(mem, brk, blocks) && Members(mem, blocks, lists) && i < |blocks|
    requires blocks[i] < q < blocks[i] + WidthAt(mem, blocks[i])
    ensures Unlisted(lists, q)
  {
    OwnerUnique(mem, brk, blocks, i, q);
    forall c | 0 <= c < |lists|
      ensures q !in lists[c]
    {
      forall k | 0 <= k < |lists[c]|
        ensures lists[c][k] != q
      {
        assert MemberOK(mem, blocks, lists, c, k);
      }
    }
  }

  /** Inserting a header after block i keeps every list entry a block. */
  lemma MembersSplit(m: Mem, blocks: seq<nat>, lists: seq<seq<nat>>, i: nat, q: nat)
    requires Members(m, blocks, lists) && i < |blocks|
    ensures Members(m, Splice(blocks, i, [blocks[i], q], i + 1), lists)
  {
    var b2 := Splice(blocks, i, [blocks[i], q], i + 1);
    SpliceFacts(blocks, i, [blocks[i], q], i + 1);
    forall c, k | 0 <= c < |lists| && 0 <= k < |lists[c]|
      ensures lists[c][k] in b2 && (lists[c][k] < |m| ==> SameKind(m[lists[c][k]], m[lists[c][k]]))
    {
      assert MemberOK(m, blocks, lists, c, k);
      var j :| 0 <= j < |blocks| && blocks[j] == lists[c][k];
      if j < i {
        assert b2[j] == blocks[j];
      } else if j == i {
        assert b2[i] == blocks[i];
      } else {
        assert b2[j - (i + 1) + i + 2] == blocks[j];
      }
    }
    MembersKind(m, blocks, lists, m, b2);
  }

  /** The fixed header keeps its size and allocated bit, says that its
      predecessor is free, and carries the 16-byte bit when the tail is 16
      bytes or when it already did. */
  lemma FixWordFacts(w: Word, rest: nat)
    ensures SameKind(FixWord(w, rest), w)
    ensures !ExtractPrevAlloc(FixWord(w, rest))
    ensures ExtractPrevDsize(FixWord(w, rest)) == (rest == DSIZE || ExtractPrevDsize(w))
  {
    ClearPrevAllocFacts(w);
    SetPrevDsizeFacts(ClearBits(w, PREV_ALLOC_MASK));
  }

  /** The carving keeps everything outside block i and makes it two blocks. */
  lemma CarveStage(s: Heap, brk: nat, blocks: seq<nat>, lists: seq<seq<nat>>, i: nat, asize: nat)
    requires SplitReady(s, brk, blocks, lists, i, asize) && Cuts(s.mem, blocks[i], asize)
    ensures Carvable(s.mem, brk, blocks, i, asize) && blocks[i] + WidthAt(s.mem, blocks[i]) <= |s.mem|
    ensures var m := Carve(s.mem, blocks[i], asize);
      var b2 := SplitBlocks(blocks, i, asize);
      Tiled(m, brk, b2) && KeepsOutside(s.mem, brk, blocks, i, i + 1, m, brk) &&
      Members(m, b2, lists) && LinksOK(m, s.root, s.leaf, lists) &&
      Unlisted(lists, Tail(blocks[i], asize)) && |b2| == |blocks| + 1 &&
      b2[i] == blocks[i] && b2[i + 1] == Tail(blocks[i], asize) &&
      Succ(b2, brk, i + 1) == Succ(blocks, brk, i) &&
      m[Succ(blocks, brk, i)] == s.mem[Succ(blocks, brk, i)]
  {
    assert Carvable(s.mem, brk, blocks, i, asize);
    CarveOutside(s.mem, brk, blocks, i, asize);
    CarveTiled(s.mem, brk, blocks, i, asize);
    CarveLists(s.mem, brk, s.root, s.leaf, blocks, lists, i, asize);
    var b2 := SplitBlocks(blocks, i, asize);
    SpliceFacts(blocks, i, [blocks[i], Tail(blocks[i], asize)], i + 1);
    if i + 1 < |blocks| {
      assert b2[i + 2] == blocks[i + 1];
    }
  }

  /** The tail joins the list of its size. */
  lemma LinkStage(s: Heap, brk: nat, blocks: seq<nat>, lists: seq<seq<nat>>, i: nat, asize: nat)
    requires SplitReady(s, brk, blocks, lists, i, asize) && Cuts(s.mem, blocks[i], asize)
    ensures Carvable(s.mem, brk, blocks, i, asize) && blocks[i] + WidthAt(s.mem, blocks[i]) <= |s.mem|
    ensures var m := Carve(s.mem, blocks[i], asize);
      var q := Tail(blocks[i], asize);
      q + 2 < |m| <= MAX_WORDS && |s.root| == NUM && |s.leaf| == NUM &&
      0 <= ClassOf(m, q) && s.root[ClassOf(m, q)] + 2 < |m|
    ensures var m := Carve(s.mem, blocks[i], asize);
      var q := Tail(blocks[i], asize);
      var b2 := SplitBlocks(blocks, i, asize);
      var l := Link(Heap(m, s.root, s.leaf), q);
      var L2 := With(m, lists, q);
      Succ(blocks, brk, i) < |l.mem| && l.mem[Succ(blocks, brk, i)] == s.mem[Succ(blocks, brk, i)] &&
      Tiled(l.mem, brk, b2) && KeepsOutside(s.mem, brk, blocks, i, i + 1, l.mem, brk) &&
      Members(l.mem, b2, L2) && LinksOK(l.mem, l.root, l.leaf, L2) &&
      Tiled(m, brk, b2) && SameTags(m, l.mem, brk, b2) &&
      |b2| == |blocks| + 1 && b2[i] == blocks[i] && b2[i + 1] == q &&
      Succ(b2, brk, i + 1) == Succ(blocks, brk, i) && ExtractAlloc(l.mem[Succ(blocks, brk, i)])
  {
    CarveStage(s, brk, blocks, lists, i, asize);
    CarveWords(s.mem, brk, blocks, i, asize);
    var h := blocks[i];
    var m := Carve(s.mem, h, asize);
    var q := Tail(h, asize);
    var b2 := SplitBlocks(blocks, i, asize);
    LinkKeeps(Heap(m, s.root, s.leaf), brk, b2, lists, i + 1);
    var l := Link(Heap(m, s.root, s.leaf), q);
    TagsKeepOutside(s.mem, brk, blocks, i, [h, q], i + 1, m, brk, l.mem);
    SuccTag(m, l.mem, brk, b2, i + 1);
  }

  /** The free lists after the split: the tail, when there is one, joins
      the list of its size. */
  ghost function SplitLists(s: Heap, brk: nat, blocks: seq<nat>, lists: seq<seq<nat>>, i: nat, asize: nat): seq<seq<nat>>
    requires SplitReady(s, brk, blocks, lists, i, asize)
  {
    if Cuts(s.mem, blocks[i], asize) then
      LinkStage(s, brk, blocks, lists, i, asize);
      With(Carve(s.mem, blocks[i], asize), lists, Tail(blocks[i], asize))
    else lists
  }

  /** The block layout after the split. */
  function SplitLayout(mem: Mem, blocks: seq<nat>, i: nat, asize: nat): seq<nat>
    requires i < |blocks| && blocks[i] < |mem|
  {
    if Cuts(mem, blocks[i], asize) then SplitBlocks(blocks, i, asize) else blocks
  }

  /** `split_block` (mm.c:539-583), as `malloc` calls it. */
  ghost function Split(s: Heap, brk: nat, blocks: seq<nat>, lists: seq<seq<nat>>, i: nat, asize: nat): (r: Heap)
    requires SplitReady(s, brk, blocks, lists, i, asize)
    ensures |r.mem| == |s.mem|
  {
    var h := blocks[i];
    if Cuts(s.mem, h, asize) then
      LinkStage(s, brk, blocks, lists, i, asize);
      var l := Link(Heap(Carve(s.mem, h, asize), s.root, s.leaf), Tail(h, asize));
      Heap(FixAfterTail(l.mem, Succ(blocks, brk, i), SizeAt(s.mem, h) - asize), l.root, l.leaf)
    else s
  }

  /** The fix-up of the header after the tail, an allocated block or the
      epilogue, keeps everything but that header's cached bits. */
  lemma FixStage(mem: Mem, brk: nat, blocks: seq<nat>, i: nat, b2: seq<nat>, L2: seq<seq<nat>>,
                 root: seq<nat>, leaf: seq<nat>, ml: Mem, rest: nat, mr: Mem)
    requires Tiled(mem, brk, blocks) && i < |blocks| && Succ(blocks, brk, i) < |mem| == |ml|
    requires Tiled(ml, brk, b2) && Members(ml, b2, L2) && LinksOK(ml, root, leaf, L2)
    requires KeepsOutside(mem, brk, blocks, i, i + 1, ml, brk)
    requires |b2| == |blocks| + 1 && Succ(b2, brk, i + 1) == Succ(blocks, brk, i)
    requires ml[Succ(blocks, brk, i)] == mem[Succ(blocks, brk, i)]
    requires mr == ml[Succ(blocks, brk, i) := FixWord(ml[Succ(blocks, brk, i)], rest)]
    ensures Tiled(mr, brk, b2) && Members(mr, b2, L2) && LinksOK(mr, root, leaf, L2)
    ensures KeepsOutside(mem, brk, blocks, i, i + 1, mr, brk)
  {
    var n := Succ(blocks, brk, i);
    var w := FixWord(ml[n], rest);
    FixWordFacts(ml[n], rest);
    if i + 2 < |b2| {
      assert n == b2[i + 2];
      TiledFacts(ml, brk, b2, i + 2);
      NotLinkOwned(ml, brk, b2, L2, i + 2, n);
      TiledFacts(mem, brk, blocks, i + 1);
    } else {
      NotLinkEpilogue(ml, brk, b2, L2);
    }
    TiledFacts(mem, brk, blocks, i);
    assert BlockOK(mem, brk, blocks, i);
    WriteTiled(ml, brk, b2, n, w);
    WriteLists(ml, b2, root, leaf, L2, n, w);
    RegionWrite(mem, brk, blocks, i, i + 1, ml, n, w);
  }

  /** What the split leaves in the words of block i, its tail and the
      header after them. */
  ghost predicate SplitWords(mem: Mem, brk: nat, blocks: seq<nat>, i: nat, asize: nat, mr: Mem)
    requires Carvable(mem, brk, blocks, i, asize) && |mr| == |mem|
  {
    var h := blocks[i];
    var q := Tail(h, asize);
    var rest := SizeAt(mem, h) - asize;
    var n := Succ(blocks, brk, i);
    h < q < n < |mem| &&
    SizeAt(mr, h) == asize && AllocAt(mr, h) &&
    PrevDsizeAt(mr, h) == PrevDsizeAt(mem, h) && PrevAllocAt(mr, h) == PrevAllocAt(mem, h) &&
    SizeAt(mr, q) == rest && !AllocAt(mr, q) && PrevAllocAt(mr, q) && PrevDsizeAt(mr, q) == (asize == DSIZE) &&
    (rest != DSIZE ==> q + rest / WSIZE - 1 < n && mr[q + rest / WSIZE - 1] == mr[q]) &&
    mr[n] == FixWord(mem[n], rest)
  }

  /** The split as the carving, the linking and the fix-up. */
  lemma SplitIs(s: Heap, brk: nat, blocks: seq<nat>, lists: seq<seq<nat>>, i: nat, asize: nat)
    requires SplitReady(s, brk, blocks, lists, i, asize) && Cuts(s.mem, blocks[i], asize)
    ensures Carvable(s.mem, brk, blocks, i, asize) && blocks[i] + WidthAt(s.mem, blocks[i]) <= |s.mem|
    ensures var m := Carve(s.mem, blocks[i], asize);
      var q := Tail(blocks[i], asize);
      q + 2 < |m| <= MAX_WORDS && |s.root| == NUM && |s.leaf| == NUM &&
      0 <= ClassOf(m, q) && s.root[ClassOf(m, q)] + 2 < |m|
    ensures var m := Carve(s.mem, blocks[i], asize);
      var q := Tail(blocks[i], asize);
      var l := Link(Heap(m, s.root, s.leaf), q);
      var n := Succ(blocks, brk, i);
      n < |l.mem| &&
      Split(s, brk, blocks, lists, i, asize) ==
        Heap(l.mem[n := FixWord(l.mem[n], SizeAt(s.mem, blocks[i]) - asize)], l.root, l.leaf) &&
      SplitLists(s, brk, blocks, lists, i, asize) == With(m, lists, q)
  {
    LinkStage(s, brk, blocks, lists, i, asize);
  }

  /** The carving, the linking and the fix-up keep the invariant's parts
      outside block i and the list conditions. */
  lemma SplitStage(s: Heap, brk: nat, blocks: seq<nat>, lists: seq<seq<nat>>, i: nat, asize: nat,
                    r: Heap, L2: seq<seq<nat>>)
    requires SplitReady(s, brk, blocks, lists, i, asize) && Cuts(s.mem, blocks[i], asize)
    requires r == Split(s, brk, blocks, lists, i, asize) && L2 == SplitLists(s, brk, blocks, lists, i, asize)
    ensures var b2 := SplitBlocks(blocks, i, asize);
      Tiled(r.mem, brk, b2) && KeepsOutside(s.mem, brk, blocks, i, i + 1, r.mem, brk) &&
      Members(r.mem, b2, L2) && LinksOK(r.mem, r.root, r.leaf, L2) &&
      Succ(b2, brk, i + 1) == Succ(blocks, brk, i)
  {
    LinkStage(s, brk, blocks, lists, i, asize);
    SplitIs(s, brk, blocks, lists, i, asize);
    var h := blocks[i];
    var q := Tail(h, asize);
    var m := Carve(s.mem, h, asize);
    var l := Link(Heap(m, s.root, s.leaf), q);
    FixStage(s.mem, brk, blocks, i, SplitBlocks(blocks, i, asize), With(m, lists, q), l.root, l.leaf,
             l.mem, SizeAt(s.mem, h) - asize, r.mem);
  }

  /** The split's words, from the words it writes. */
  lemma SplitWordsFrom(mem: Mem, brk: nat, blocks: seq<nat>, i: nat, asize: nat, mr: Mem)
    requires Carvable(mem, brk, blocks, i, asize) && |mr| == |mem|
    requires var h := blocks[i];
      var q := Tail(h, asize);
      var rest := SizeAt(mem, h) - asize;
      var n := Succ(blocks, brk, i);
      h < q < n < |mem| && rest % 16 == 0 && asize % 16 == 0 &&
      mr[h] == Pack(asize, PrevDsizeAt(mem, h), PrevAllocAt(mem, h), true) &&
      mr[q] == Pack(rest, asize == DSIZE, true, false) &&
      (rest != DSIZE ==> q + rest / WSIZE - 1 < n && mr[q + rest / WSIZE - 1] == mr[q]) &&
      mr[n] == FixWord(mem[n], rest)
    ensures SplitWords(mem, brk, blocks, i, asize, mr)
  {
    var h := blocks[i];
    var rest := SizeAt(mem, h) - asize;
    PackRoundTrip(asize, PrevDsizeAt(mem, h), PrevAllocAt(mem, h), true);
    PackRoundTrip(rest, asize == DSIZE, true, false);
  }

  /** The linked and fixed-up memory keeps the carved tags of block i and
      its tail. */
  lemma WordsCarry(mem: Mem, brk: nat, blocks: seq<nat>, i: nat, asize: nat,
                   b2: seq<nat>, m: Mem, lm: Mem, mr: Mem)
    requires Carvable(mem, brk, blocks, i, asize)
    requires Tiled(m, brk, b2) && SameTags(m, lm, brk, b2) && |m| == |mem|
    requires var h := blocks[i];
      var q := Tail(h, asize);
      var rest := SizeAt(mem, h) - asize;
      var n := Succ(blocks, brk, i);
      i + 1 < |b2| && b2[i] == h && b2[i + 1] == q && Succ(b2, brk, i + 1) == n &&
      h < q < n < |mem| && q + rest / WSIZE == n && rest % 16 == 0 && asize % 16 == 0 &&
      m[h] == Pack(asize, PrevDsizeAt(mem, h), PrevAllocAt(mem, h), true) &&
      m[q] == Pack(rest, asize == DSIZE, true, false) &&
      SizeAt(m, q) == rest && !AllocAt(m, q) &&
      (rest != DSIZE ==> m[q + rest / WSIZE - 1] == m[q]) &&
      lm[n] == mem[n] && mr == lm[n := FixWord(lm[n], rest)]
    ensures SplitWords(mem, brk, blocks, i, asize, mr)
  {
    var h := blocks[i];
    var q := Tail(h, asize);
    var rest := SizeAt(mem, h) - asize;
    var n := Succ(blocks, brk, i);
    var p4 := q + rest / WSIZE - 1;
    assert mr[h] == m[h] && mr[q] == m[q];
    if rest != DSIZE {
      assert ShowsFooter(m, b2, i + 1);
      assert FooterOf(m, brk, b2, i + 1) == p4;
      assert mr[p4] == m[p4];
    }
    SplitWordsFrom(mem, brk, blocks, i, asize, mr);
  }

  /** The words the split leaves. */
  lemma SplitWordsHold(s: Heap, brk: nat, blocks: seq<nat>, lists: seq<seq<nat>>, i: nat, asize: nat, r: Heap)
    requires SplitReady(s, brk, blocks, lists, i, asize) && Cuts(s.mem, blocks[i], asize)
    requires r == Split(s, brk, blocks, lists, i, asize)
    ensures Carvable(s.mem, brk, blocks, i, asize)
    ensures |r.mem| == |s.mem| && SplitWords(s.mem, brk, blocks, i, asize, r.mem)
  {
    LinkStage(s, brk, blocks, lists, i, asize);
    SplitIs(s, brk, blocks, lists, i, asize);
    CarveBounds(s.mem, brk, blocks, i, asize);
    CarveWords(s.mem, brk, blocks, i, asize);
    var h := blocks[i];
    var q := Tail(h, asize);
    var m := Carve(s.mem, h, asize);
    var l := Link(Heap(m, s.root, s.leaf), q);
    WordsCarry(s.mem, brk, blocks, i, asize, SplitBlocks(blocks, i, asize), m, l.mem, r.mem);
  }

  /** The junction conditions of a window of two blocks, the first
      allocated and the one after the window allocated, from the
      conditions at each block. */
  lemma TwoJunction(mr: Mem, brk: nat, b2: seq<nat>, i: nat)
    requires Tiled(mr, brk, b2) && i + 1 < |b2|
    requires i > 0 ==> BitsOK(mr, brk, b2, i - 1)
    requires BitsOK(mr, brk, b2, i) && BitsOK(mr, brk, b2, i + 1)
    requires FooterOK(mr, brk, b2, i) && FooterOK(mr, brk, b2, i + 1)
    requires i + 2 < |b2| ==> FooterOK(mr, brk, b2, i + 2) && AllocAt(mr, b2[i + 2])
    requires AllocAt(mr, b2[i])
    ensures Junction(mr, brk, b2, i, 2, -1)
  {
  }

  /** The junction conditions after the split: block i is allocated, its
      tail is free between two allocated neighbours, and each header
      records its predecessor. */
  lemma SplitJunction(mem: Mem, brk: nat, blocks: seq<nat>, i: nat, asize: nat, b2: seq<nat>, mr: Mem)
    requires Carvable(mem, brk, blocks, i, asize) && Tags(mem, brk, blocks, -1) && |mr| == |mem|
    requires AllocAt(mem, blocks[i]) && Succ(blocks, brk, i) < |mem| && ExtractAlloc(mem[Succ(blocks, brk, i)])
    requires Tiled(mr, brk, b2) && KeepsOutside(mem, brk, blocks, i, i + 1, mr, brk)
    requires |b2| == |blocks| + 1 && b2[i] == blocks[i] && b2[i + 1] == Tail(blocks[i], asize)
    requires Succ(b2, brk, i + 1) == Succ(blocks, brk, i)
    requires forall j :: 0 <= j < i ==> b2[j] == blocks[j]
    requires SplitWords(mem, brk, blocks, i, asize, mr)
    ensures i == 0 ==> FirstBits(mr, brk, b2)
    ensures Junction(mr, brk, b2, i, 2, -1)
  {
    var h := blocks[i];
    var q := Tail(h, asize);
    var rest := SizeAt(mem, h) - asize;
    var n := Succ(blocks, brk, i);
    assert i == 0 ==> FirstBits(mr, brk, b2) by {
      if i == 0 {
        assert FirstBits(mem, brk, blocks);
      }
    }
    assert i > 0 ==> BitsOK(mr, brk, b2, i - 1) by {
      if i > 0 {
        assert BitsOK(mem, brk, blocks, i - 1);
        assert Succ(blocks, brk, i - 1) == h;
        assert mr[blocks[i - 1]] == mem[blocks[i - 1]];
      }
    }
    assert BitsOK(mr, brk, b2, i + 1) by {
      FixWordFacts(mem[n], rest);
      assert BitsOK(mem, brk, blocks, i);
    }
    assert FooterOK(mr, brk, b2, i + 1) by {
      if rest != DSIZE {
        assert FooterOf(mr, brk, b2, i + 1) == q + rest / WSIZE - 1;
      }
    }
    assert i + 2 < |b2| ==> FooterOK(mr, brk, b2, i + 2) && AllocAt(mr, b2[i + 2]) by {
      if i + 2 < |b2| {
        FixWordFacts(mem[n], rest);
        assert b2[i + 2] == n;
      }
    }
    assert BitsOK(mr, brk, b2, i);
    assert FooterOK(mr, brk, b2, i);
    TwoJunction(mr, brk, b2, i);
  }

  /** Both halves of the split are listed when free: the first is
      allocated and the tail is in the list of its class. */
  lemma SplitListed(memA: Mem, brk: nat, blocks: seq<nat>, i: nat, asize: nat, memG: Mem, L2: seq<seq<nat>>)
    requires Carvable(memA, brk, blocks, i, asize) && |memG| == |memA|
    requires Tiled(memG, brk, SplitBlocks(blocks, i, asize))
    requires SplitWords(memA, brk, blocks, i, asize, memG)
    requires InClass(L2, FindFreeList(SizeAt(memA, blocks[i]) - asize), Tail(blocks[i], asize))
    ensures forall j :: i <= j < i + 2 ==> Listed(memG, brk, SplitBlocks(blocks, i, asize), L2, j)
  {
    SpliceFacts(blocks, i, [blocks[i], Tail(blocks[i], asize)], i + 1);
  }

  /** The whole invariant after the split, from the split's words, the
      parts it keeps and lists that list the tail and keep every entry. */
  lemma SplitWindow(memA: Mem, brk: nat, blocks: seq<nat>, lists: seq<seq<nat>>, i: nat, asize: nat,
                    memG: Mem, root2: seq<nat>, leaf2: seq<nat>, L2: seq<seq<nat>>)
    requires Carvable(memA, brk, blocks, i, asize) && Tags(memA, brk, blocks, -1) && Complete(memA, brk, blocks, lists)
    requires AllocAt(memA, blocks[i]) && Succ(blocks, brk, i) < |memA| && ExtractAlloc(memA[Succ(blocks, brk, i)])
    requires |memG| == |memA| && |L2| == |lists|
    requires Tiled(memG, brk, SplitBlocks(blocks, i, asize))
    requires KeepsOutside(memA, brk, blocks, i, i + 1, memG, brk)
    requires Members(memG, SplitBlocks(blocks, i, asize), L2) && LinksOK(memG, root2, leaf2, L2)
    requires SplitWords(memA, brk, blocks, i, asize, memG)
    requires Succ(SplitBlocks(blocks, i, asize), brk, i + 1) == Succ(blocks, brk, i)
    requires forall d, x :: 0 <= d < |lists| && x in lists[d] ==> x in L2[d]
    requires InClass(L2, FindFreeList(SizeAt(memA, blocks[i]) - asize), Tail(blocks[i], asize))
    ensures Inv(memG, brk, root2, leaf2, SplitBlocks(blocks, i, asize), L2, -1)
  {
    var h := blocks[i];
    var q := Tail(h, asize);
    var b2 := SplitBlocks(blocks, i, asize);
    SplitJunction(memA, brk, blocks, i, asize, b2, memG);
    SplitListed(memA, brk, blocks, i, asize, memG, L2);
    assert blocks[i..i + 1] == [h];
    WindowInv(memA, brk, blocks, lists, -1, i, [h, q], i + 1, memG, brk, root2, leaf2, L2, -1);
  }

  /** The lists after the split list the tail in the class of the rest
      and keep every entry they had. */
  lemma SplitListsFacts(s: Heap, brk: nat, blocks: seq<nat>, lists: seq<seq<nat>>, i: nat, asize: nat,
                         L2: seq<seq<nat>>)
    requires SplitReady(s, brk, blocks, lists, i, asize) && Cuts(s.mem, blocks[i], asize)
    requires L2 == SplitLists(s, brk, blocks, lists, i, asize)
    ensures |L2| == |lists| &&
      InClass(L2, FindFreeList(SizeAt(s.mem, blocks[i]) - asize), Tail(blocks[i], asize)) &&
      forall d, x :: 0 <= d < |lists| && x in lists[d] ==> x in L2[d]
  {
    SplitIs(s, brk, blocks, lists, i, asize);
    CarveWords(s.mem, brk, blocks, i, asize);
  }

  /** The parts of the invariant before the split that its window needs. */
  lemma SplitReadyTags(s: Heap, brk: nat, blocks: seq<nat>, lists: seq<seq<nat>>, i: nat, asize: nat)
    requires SplitReady(s, brk, blocks, lists, i, asize)
    ensures Tiled(s.mem, brk, blocks) && Tags(s.mem, brk, blocks, -1) && Complete(s.mem, brk, blocks, lists)
  {
  }

  /** The split that cuts a tail keeps the whole invariant. */
  lemma SplitCutInv(s: Heap, brk: nat, blocks: seq<nat>, lists: seq<seq<nat>>, i: nat, asize: nat)
    requires SplitReady(s, brk, blocks, lists, i, asize) && Cuts(s.mem, blocks[i], asize)
    ensures Carvable(s.mem, brk, blocks, i, asize)
    ensures var r := Split(s, brk, blocks, lists, i, asize);
      Inv(r.mem, brk, r.root, r.leaf, SplitBlocks(blocks, i, asize), SplitLists(s, brk, blocks, lists, i, asize), -1)
  {
    SplitCutWindow(s, brk, blocks, lists, i, asize, Split(s, brk, blocks, lists, i, asize),
                   SplitLists(s, brk, blocks, lists, i, asize));
  }

  /** `SplitCutInv` for the heap r and the lists L2 the split leaves. */
  lemma SplitCutWindow(s: Heap, brk: nat, blocks: seq<nat>, lists: seq<seq<nat>>, i: nat, asize: nat,
                       r: Heap, L2: seq<seq<nat>>)
    requires SplitReady(s, brk, blocks, lists, i, asize) && Cuts(s.mem, blocks[i], asize)
    requires r == Split(s, brk, blocks, lists, i, asize) && L2 == SplitLists(s, brk, blocks, lists, i, asize)
    ensures Carvable(s.mem, brk, blocks, i, asize)
    ensures Inv(r.mem, brk, r.root, r.leaf, SplitBlocks(blocks, i, asize), L2, -1)
  {
    SplitStage(s, brk, blocks, lists, i, asize, r, L2);
    SplitWordsHold(s, brk, blocks, lists, i, asize, r);
    SplitListsFacts(s, brk, blocks, lists, i, asize, L2);
    SplitReadyTags(s, brk, blocks, lists, i, asize);
    SplitWindow(s.mem, brk, blocks, lists, i, asize, r.mem, r.root, r.leaf, L2);
  }

  /** `split_block` changes no allocated block but block i, the one it
      cuts. */
  lemma SplitKeeps(s: Heap, brk: nat, blocks: seq<nat>, lists: seq<seq<nat>>, i: nat, asize: nat)
    requires SplitReady(s, brk, blocks, lists, i, asize)
    ensures KeepsAllocated(s.mem, blocks, Split(s, brk, blocks, lists, i, asize).mem,
                           SplitLayout(s.mem, blocks, i, asize), blocks[i])
  {
    if Cuts(s.mem, blocks[i], asize) {
      SplitOutside(s, brk, blocks, lists, i, asize);
      var r := Split(s, brk, blocks, lists, i, asize);
      WindowKeepsAllocated(s.mem, brk, blocks, i, [blocks[i], Tail(blocks[i], asize)], i + 1, r.mem, brk, blocks[i]);
    }
  }

  /** A cut rewrites only the words of block i. */
  lemma SplitOutside(s: Heap, brk: nat, blocks: seq<nat>, lists: seq<seq<nat>>, i: nat, asize: nat)
    requires SplitReady(s, brk, blocks, lists, i, asize) && Cuts(s.mem, blocks[i], asize)
    ensures Tiled(s.mem, brk, blocks) && i < |blocks|
    ensures KeepsOutside(s.mem, brk, blocks, i, i + 1, Split(s, brk, blocks, lists, i, asize).mem, brk)
    ensures SplitLayout(s.mem, blocks, i, asize) == Splice(blocks, i, [blocks[i], Tail(blocks[i], asize)], i + 1)
  {
    var r := Split(s, brk, blocks, lists, i, asize);
    SplitStage(s, brk, blocks, lists, i, asize, r, SplitLists(s, brk, blocks, lists, i, asize));
  }

  /** `split_block` keeps the whole invariant: block i is allocated with
      exactly `asize` bytes and, when a tail is cut, the tail is a free
      block of the rest, listed in its class, and every other list entry
      stays. */
  lemma SplitInv(s: Heap, brk: nat, blocks: seq<nat>, lists: seq<seq<nat>>, i: nat, asize: nat)
    requires SplitReady(s, brk, blocks, lists, i, asize)
    ensures var r := Split(s, brk, blocks, lists, i, asize);
      var b2 := SplitLayout(s.mem, blocks, i, asize);
      Inv(r.mem, brk, r.root, r.leaf, b2, SplitLists(s, brk, blocks, lists, i, asize), -1) &&
      AllocAt(r.mem, blocks[i]) && SizeAt(r.mem, blocks[i]) == asize
    ensures var r := Split(s, brk, blocks, lists, i, asize);
      var q := Tail(blocks[i], asize);
      var rest := SizeAt(s.mem, blocks[i]) - asize;
      Cuts(s.mem, blocks[i], asize) ==>
        q < |r.mem| && !AllocAt(r.mem, q) && SizeAt(r.mem, q) == rest &&
        InClass(SplitLists(s, brk, blocks, lists, i, asize), FindFreeList(rest), q)
    ensures forall d, x :: 0 <= d < |lists| && x in lists[d] ==> x in SplitLists(s, brk, blocks, lists, i, asize)[d]
    ensures !Cuts(s.mem, blocks[i], asize) ==> Split(s, brk, blocks, lists, i, asize) == s
  {
    if Cuts(s.mem, blocks[i], asize) {
      SplitCutInv(s, brk, blocks, lists, i, asize);
      SplitWordsHold(s, brk, blocks, lists, i, asize, Split(s, brk, blocks, lists, i, asize));
      SplitListsFacts(s, brk, blocks, lists, i, asize, SplitLists(s, brk, blocks, lists, i, asize));
    }
  }
}
