/** Changes of the block layout. Splitting a block, merging neighbours,
    growing the heap and rewriting one header all replace a run of blocks
    `blocks[lo..hi)` by a short run `mid` and may touch the header that
    follows. Everything outside that window keeps its tiling and its tags;
    the lemmas here prove so once, and each operation proves the few
    conditions at the junctions. */
module Layout {
  import opened Codec
  import opened Sizes
  import opened FreeLists
  import opened HeapModel

  /** The header at index j of the block sequence, the epilogue at index |blocks|. */
  function At(blocks: seq<nat>, brk: nat, j: nat): nat
    requires j <= |blocks| && brk >= 1
  {
    if j < |blocks| then blocks[j] else brk - 1
  }

  /** The block sequence with the run `blocks[lo..hi)` replaced by `mid`. */
  function Splice(blocks: seq<nat>, lo: nat, mid: seq<nat>, hi: nat): (r: seq<nat>)
    requires lo <= hi <= |blocks|
    ensures |r| == |blocks| - (hi - lo) + |mid|
  {
    blocks[..lo] + mid + blocks[hi..]
  }

  /** Where the entries of a spliced sequence come from. Kept apart from
      `Splice` so that an equation between a splice and its base does not
      set off instantiations with ever longer index terms. */
  lemma SpliceFacts(blocks: seq<nat>, lo: nat, mid: seq<nat>, hi: nat)
    requires lo <= hi <= |blocks|
    ensures forall j :: 0 <= j < lo ==> Splice(blocks, lo, mid, hi)[j] == blocks[j]
    ensures forall m :: 0 <= m < |mid| ==> Splice(blocks, lo, mid, hi)[lo + m] == mid[m]
    ensures forall j :: hi <= j < |blocks| ==> Splice(blocks, lo, mid, hi)[j - hi + lo + |mid|] == blocks[j]
  {
  }

  /** Two header words with the same size and the same allocated bit. */
  predicate SameKind(w1: Word, w2: Word) {
    ExtractSize(w1) == ExtractSize(w2) && ExtractAlloc(w1) == ExtractAlloc(w2)
  }

  /** The run `mid` tiles the words from `start` up to the header `end`. */
  ghost predicate MidTiles(mem: Mem, brk: nat, mid: seq<nat>, start: nat, end: nat) {
    |mid| >= 1 && mid[0] == start && brk <= |mem| &&
    forall m :: 0 <= m < |mid| ==>
      mid[m] < brk - 1 && ValidBlockSize(SizeAt(mem, mid[m])) &&
      mid[m] + WidthAt(mem, mid[m]) == (if m + 1 < |mid| then mid[m + 1] else end)
  }

  /** Where the window ends: the first header after it. */
  function End(blocks: seq<nat>, hi: nat, brk2: nat): nat
    requires hi <= |blocks| && brk2 >= 1
  {
    if hi < |blocks| then blocks[hi] else brk2 - 1
  }

  /** Index j' of the new sequence, past the window, comes from index
      Orig(j') of the old one. */
  function Orig(j: nat, lo: nat, m: nat, hi: nat): nat
    requires j >= lo + m && hi >= lo
  {
    j - m + (hi - lo)
  }

  lemma SucceedsAt(blocks: seq<nat>, brk: nat, i: nat)
    requires i < |blocks| && brk >= 1
    ensures Succ(blocks, brk, i) == At(blocks, brk, i + 1)
  {
  }

  /** One block of the spliced sequence is well formed. */
  lemma SpliceBlockOK(memA: Mem, brk: nat, blocks: seq<nat>, lo: nat, mid: seq<nat>, hi: nat, memG: Mem, brk2: nat, j: nat)
    requires Tiled(memA, brk, blocks) && lo <= hi <= |blocks| && |memG| == |memA|
    requires brk <= brk2 <= |memG| && (hi < |blocks| ==> brk2 == brk)
    requires forall j :: 0 <= j < lo || hi <= j < |blocks| ==> SizeAt(memG, blocks[j]) == SizeAt(memA, blocks[j])
    requires MidTiles(memG, brk2, mid, At(blocks, brk, lo), End(blocks, hi, brk2))
    requires j < |Splice(blocks, lo, mid, hi)|
    ensures Splice(blocks, lo, mid, hi)[j] < brk2 - 1
    ensures BlockOK(memG, brk2, Splice(blocks, lo, mid, hi), j)
  {
    SpliceFacts(blocks, lo, mid, hi);
    var b2 := Splice(blocks, lo, mid, hi);
    var m := |mid|;
    if j < lo {
      assert BlockOK(memA, brk, blocks, j);
      if j + 1 < lo {
        assert b2[j + 1] == blocks[j + 1];
      } else {
        assert b2[j + 1] == mid[0];
      }
    } else if j < lo + m {
      assert b2[j] == mid[j - lo];
      if j + 1 < lo + m {
        assert b2[j + 1] == mid[j - lo + 1];
      } else if hi < |blocks| {
        assert b2[j + 1] == blocks[hi];
      }
    } else {
      var o := Orig(j, lo, m, hi);
      assert b2[j] == blocks[o];
      assert BlockOK(memA, brk, blocks, o);
      if o + 1 < |blocks| {
        assert b2[j + 1] == blocks[o + 1];
      }
    }
  }

  /** The spliced sequence tiles the heap when the blocks outside the window
      keep their sizes and `mid` tiles the window. */
  lemma SpliceTiled(memA: Mem, brk: nat, blocks: seq<nat>, lo: nat, mid: seq<nat>, hi: nat, memG: Mem, brk2: nat)
    requires Tiled(memA, brk, blocks) && lo <= hi <= |blocks| && |memG| == |memA|
    requires brk <= brk2 <= |memG| && (hi < |blocks| ==> brk2 == brk)
    requires forall j :: 0 <= j < lo || hi <= j < |blocks| ==> SizeAt(memG, blocks[j]) == SizeAt(memA, blocks[j])
    requires MidTiles(memG, brk2, mid, At(blocks, brk, lo), End(blocks, hi, brk2))
    ensures Tiled(memG, brk2, Splice(blocks, lo, mid, hi))
  {
    SpliceFacts(blocks, lo, mid, hi);
    var b2 := Splice(blocks, lo, mid, hi);
    forall j | 0 <= j < |b2|
      ensures b2[j] < brk2 - 1 && BlockOK(memG, brk2, b2, j)
    {
      SpliceBlockOK(memA, brk, blocks, lo, mid, hi, memG, brk2, j);
    }
    if lo == 0 {
      assert b2[0] == mid[0];
    }
  }

  /** Past the window, the successor of a block is the image of the old
      successor, and so is the epilogue. */
  lemma SuccPast(blocks: seq<nat>, brk: nat, lo: nat, mid: seq<nat>, hi: nat, brk2: nat, j: nat)
    requires lo <= hi <= |blocks| && brk >= 1 && |mid| >= 1 && (hi < |blocks| ==> brk2 == brk)
    requires lo + |mid| <= j < |Splice(blocks, lo, mid, hi)|
    ensures Orig(j, lo, |mid|, hi) < |blocks|
    ensures Splice(blocks, lo, mid, hi)[j] == blocks[Orig(j, lo, |mid|, hi)]
    ensures Succ(Splice(blocks, lo, mid, hi), brk2, j) == Succ(blocks, brk, Orig(j, lo, |mid|, hi))
  {
    SpliceFacts(blocks, lo, mid, hi);
    var b2 := Splice(blocks, lo, mid, hi);
    var o := Orig(j, lo, |mid|, hi);
    assert b2[j] == blocks[o];
    if o + 1 < |blocks| {
      assert b2[j + 1] == blocks[o + 1];
    }
  }

  /** mG keeps every tag word of memA outside the window of indices
      lo..hi (index |blocks| is the epilogue): the prologue, the headers,
      and the footers of free blocks. */
  ghost predicate SameOutside(memA: Mem, brk: nat, blocks: seq<nat>, lo: nat, hi: nat, memG: Mem)
    requires Tiled(memA, brk, blocks) && lo <= hi <= |blocks|
  {
    |memG| == |memA| && memG[0] == memA[0] &&
    (forall j :: 0 <= j < lo ==> memG[blocks[j]] == memA[blocks[j]]) &&
    (forall j :: hi < j < |blocks| ==> memG[blocks[j]] == memA[blocks[j]]) &&
    (hi < |blocks| ==> memG[brk - 1] == memA[brk - 1]) &&
    (forall j :: (0 <= j < lo || hi < j < |blocks|) && ShowsFooter(memA, blocks, j) ==>
       memG[FooterOf(memA, brk, blocks, j)] == memA[FooterOf(memA, brk, blocks, j)])
  }

  /** What a change of the window lo..hi must keep: the tags outside it,
      the kind of the header right after the replaced run, and the epilogue
      when the heap does not grow. */
  ghost predicate KeepsOutside(memA: Mem, brk: nat, blocks: seq<nat>, lo: nat, hi: nat, memG: Mem, brk2: nat)
    requires Tiled(memA, brk, blocks) && lo <= hi <= |blocks|
  {
    SameOutside(memA, brk, blocks, lo, hi, memG) &&
    (hi < |blocks| ==> brk2 == brk && SameKind(memG[blocks[hi]], memA[blocks[hi]])) &&
    (hi == |blocks| && brk2 == brk ==> SameKind(memG[brk - 1], memA[brk - 1]))
  }

  /** The words of the window lo..hi: from its first header to the end of
      the block at hi, or to the end of the memory when hi is the epilogue. */
  ghost predicate InRegion(memA: Mem, brk: nat, blocks: seq<nat>, lo: nat, hi: nat, p: nat)
    requires Tiled(memA, brk, blocks) && lo <= hi <= |blocks|
  {
    At(blocks, brk, lo) <= p < |memA| &&
    (hi < |blocks| ==> p < blocks[hi] + WidthAt(memA, blocks[hi]))
  }

  /** A block before the window ends at or before the window's first word. */
  lemma BeforeRegion(memA: Mem, brk: nat, blocks: seq<nat>, lo: nat, j: nat)
    requires Tiled(memA, brk, blocks) && j < lo <= |blocks|
    ensures blocks[j] + WidthAt(memA, blocks[j]) <= At(blocks, brk, lo)
  {
    if lo < |blocks| {
      TiledOrder(memA, brk, blocks, j, lo);
    } else {
      SpanFacts(memA, brk, blocks, j);
    }
  }

  /** Writing a word of the window keeps the tags outside it. */
  lemma RegionWrite(memA: Mem, brk: nat, blocks: seq<nat>, lo: nat, hi: nat, memB: Mem, p: nat, v: Word)
    requires Tiled(memA, brk, blocks) && lo <= hi <= |blocks|
    requires SameOutside(memA, brk, blocks, lo, hi, memB) && InRegion(memA, brk, blocks, lo, hi, p)
    ensures SameOutside(memA, brk, blocks, lo, hi, memB[p := v])
  {
    if lo < |blocks| {
      TiledFacts(memA, brk, blocks, lo);
    }
    forall j | 0 <= j < lo
      ensures blocks[j] != p && (ShowsFooter(memA, blocks, j) ==> FooterOf(memA, brk, blocks, j) != p)
    {
      BeforeRegion(memA, brk, blocks, lo, j);
    }
    forall j | hi < j < |blocks|
      ensures blocks[j] != p && (ShowsFooter(memA, blocks, j) ==> FooterOf(memA, brk, blocks, j) != p)
    {
      TiledOrder(memA, brk, blocks, hi, j);
    }
    if hi < |blocks| {
      SpanFacts(memA, brk, blocks, hi);
    }
  }

  /** A run of a sequence spliced back into its place gives the sequence. */
  lemma SpliceSelf(blocks: seq<nat>, lo: nat, hi: nat)
    requires lo <= hi <= |blocks|
    ensures Splice(blocks, lo, blocks[lo..hi], hi) == blocks
  {
    assert blocks[..lo] + blocks[lo..hi] + blocks[hi..] == blocks;
  }

  /** A step that keeps every tag of the current layout, a splice of the
      base layout, keeps the tags outside the window. */
  lemma SameTagsOutside(memA: Mem, brk: nat, blocks: seq<nat>, lo: nat, mid: seq<nat>, hi: nat,
                        memC: Mem, brk2: nat, memD: Mem)
    requires Tiled(memA, brk, blocks) && lo <= hi <= |blocks| && |mid| >= 1
    requires hi < |blocks| ==> brk2 == brk
    requires Tiled(memC, brk2, Splice(blocks, lo, mid, hi))
    requires SameOutside(memA, brk, blocks, lo, hi, memC)
    requires SameTags(memC, memD, brk2, Splice(blocks, lo, mid, hi))
    ensures SameOutside(memA, brk, blocks, lo, hi, memD)
  {
    SpliceFacts(blocks, lo, mid, hi);
    var b2 := Splice(blocks, lo, mid, hi);
    forall j | 0 <= j < lo
      ensures memD[blocks[j]] == memA[blocks[j]]
      ensures ShowsFooter(memA, blocks, j) ==>
        memD[FooterOf(memA, brk, blocks, j)] == memA[FooterOf(memA, brk, blocks, j)]
    {
      assert b2[j] == blocks[j];
      assert FooterOf(memC, brk2, b2, j) == FooterOf(memA, brk, blocks, j);
    }
    forall j | hi < j < |blocks|
      ensures memD[blocks[j]] == memA[blocks[j]]
      ensures ShowsFooter(memA, blocks, j) ==>
        memD[FooterOf(memA, brk, blocks, j)] == memA[FooterOf(memA, brk, blocks, j)]
    {
      var j2 := j - hi + lo + |mid|;
      assert b2[j2] == blocks[j];
      assert FooterOf(memC, brk2, b2, j2) == FooterOf(memA, brk, blocks, j);
    }
  }

  /** Outside the window the successor bits carry over. */
  lemma SpliceBits(memA: Mem, brk: nat, blocks: seq<nat>, e: int, lo: nat, mid: seq<nat>, hi: nat, memG: Mem, brk2: nat, j: nat)
    requires Tiled(memA, brk, blocks) && Tags(memA, brk, blocks, e)
    requires lo <= hi <= |blocks| && |mid| >= 1 && |memG| == |memA|
    requires Tiled(memG, brk2, Splice(blocks, lo, mid, hi))
    requires KeepsOutside(memA, brk, blocks, lo, hi, memG, brk2)
    requires j < |Splice(blocks, lo, mid, hi)| && (j + 1 < lo || j >= lo + |mid|)
    ensures BitsOK(memG, brk2, Splice(blocks, lo, mid, hi), j)
  {
    SpliceFacts(blocks, lo, mid, hi);
    var b2 := Splice(blocks, lo, mid, hi);
    if j + 1 < lo {
      assert b2[j + 1] == blocks[j + 1];
      assert BitsOK(memA, brk, blocks, j);
    } else {
      SuccPast(blocks, brk, lo, mid, hi, brk2, j);
      var o := Orig(j, lo, |mid|, hi);
      assert BitsOK(memA, brk, blocks, o);
      if o + 1 < |blocks| {
        assert memG[blocks[o + 1]] == memA[blocks[o + 1]];
      }
    }
  }

  /** Outside the window the footers carry over. */
  lemma SpliceFooter(memA: Mem, brk: nat, blocks: seq<nat>, e: int, lo: nat, mid: seq<nat>, hi: nat, memG: Mem, brk2: nat, j: nat)
    requires Tiled(memA, brk, blocks) && Tags(memA, brk, blocks, e)
    requires lo <= hi <= |blocks| && |mid| >= 1 && |memG| == |memA|
    requires Tiled(memG, brk2, Splice(blocks, lo, mid, hi))
    requires KeepsOutside(memA, brk, blocks, lo, hi, memG, brk2)
    requires j < |Splice(blocks, lo, mid, hi)| && (j < lo || j > lo + |mid|)
    ensures FooterOK(memG, brk2, Splice(blocks, lo, mid, hi), j)
  {
    SpliceFacts(blocks, lo, mid, hi);
    var b2 := Splice(blocks, lo, mid, hi);
    var o := if j < lo then j else Orig(j, lo, |mid|, hi);
    if j >= lo {
      SuccPast(blocks, brk, lo, mid, hi, brk2, j);
    }
    assert b2[j] == blocks[o];
    assert FooterOK(memA, brk, blocks, o);
    assert memG[blocks[o]] == memA[blocks[o]];
  }

  /** Outside the window no two free blocks become neighbours. */
  lemma SplicePair(memA: Mem, brk: nat, blocks: seq<nat>, e: int, lo: nat, mid: seq<nat>, hi: nat, memG: Mem, brk2: nat, j: nat)
    requires Tiled(memA, brk, blocks) && Tags(memA, brk, blocks, e)
    requires lo <= hi <= |blocks| && |mid| >= 1 && |memG| == |memA| && (e == -1 || lo <= e < hi)
    requires Tiled(memG, brk2, Splice(blocks, lo, mid, hi))
    requires KeepsOutside(memA, brk, blocks, lo, hi, memG, brk2)
    requires j + 1 < |Splice(blocks, lo, mid, hi)| && (j + 1 < lo || j >= lo + |mid|)
    ensures PairOK(memG, brk2, Splice(blocks, lo, mid, hi), j)
  {
    SpliceFacts(blocks, lo, mid, hi);
    var b2 := Splice(blocks, lo, mid, hi);
    if j + 1 < lo {
      assert b2[j + 1] == blocks[j + 1];
      assert PairOK(memA, brk, blocks, j);
    } else {
      SuccPast(blocks, brk, lo, mid, hi, brk2, j);
      SuccPast(blocks, brk, lo, mid, hi, brk2, j + 1);
      var o := Orig(j, lo, |mid|, hi);
      assert Orig(j + 1, lo, |mid|, hi) == o + 1;
      assert PairOK(memA, brk, blocks, o);
    }
  }

  /** Outside the window, every tag condition carries over. */
  lemma SpliceTags(memA: Mem, brk: nat, blocks: seq<nat>, e: int, lo: nat, mid: seq<nat>, hi: nat, memG: Mem, brk2: nat)
    requires Tiled(memA, brk, blocks) && Tags(memA, brk, blocks, e)
    requires lo <= hi <= |blocks| && |mid| >= 1 && |memG| == |memA| && (e == -1 || lo <= e < hi)
    requires Tiled(memG, brk2, Splice(blocks, lo, mid, hi))
    requires KeepsOutside(memA, brk, blocks, lo, hi, memG, brk2)
    ensures brk2 == brk ==> Sentinels(memG, brk2)
    ensures lo > 0 ==> FirstBits(memG, brk2, Splice(blocks, lo, mid, hi))
    ensures forall j :: 0 <= j < |Splice(blocks, lo, mid, hi)| && (j + 1 < lo || j >= lo + |mid|) ==>
              BitsOK(memG, brk2, Splice(blocks, lo, mid, hi), j)
    ensures forall j :: 0 <= j < |Splice(blocks, lo, mid, hi)| && (j < lo || j > lo + |mid|) ==>
              FooterOK(memG, brk2, Splice(blocks, lo, mid, hi), j)
    ensures forall j :: 0 <= j < |Splice(blocks, lo, mid, hi)| - 1 && (j + 1 < lo || j >= lo + |mid|) ==>
              PairOK(memG, brk2, Splice(blocks, lo, mid, hi), j)
  {
    SpliceFacts(blocks, lo, mid, hi);
    var b2 := Splice(blocks, lo, mid, hi);
    if lo > 0 {
      assert b2[0] == blocks[0];
    }
    forall j | 0 <= j < |b2| && (j + 1 < lo || j >= lo + |mid|)
      ensures BitsOK(memG, brk2, b2, j)
    {
      SpliceBits(memA, brk, blocks, e, lo, mid, hi, memG, brk2, j);
    }
    forall j | 0 <= j < |b2| && (j < lo || j > lo + |mid|)
      ensures FooterOK(memG, brk2, b2, j)
    {
      SpliceFooter(memA, brk, blocks, e, lo, mid, hi, memG, brk2, j);
    }
    forall j | 0 <= j < |b2| - 1 && (j + 1 < lo || j >= lo + |mid|)
      ensures PairOK(memG, brk2, b2, j)
    {
      SplicePair(memA, brk, blocks, e, lo, mid, hi, memG, brk2, j);
    }
  }

  /** Splicing a single block back in its own place changes nothing. */
  lemma SpliceOne(blocks: seq<nat>, i: nat)
    requires i < |blocks|
    ensures Splice(blocks, i, [blocks[i]], i + 1) == blocks
  {
    assert blocks[i..i + 1] == [blocks[i]];
    SpliceSelf(blocks, i, i + 1);
  }

  /** Nothing changed yet. */
  lemma SameOutsideRefl(memA: Mem, brk: nat, blocks: seq<nat>, lo: nat, hi: nat)
    requires Tiled(memA, brk, blocks) && lo <= hi <= |blocks|
    ensures SameOutside(memA, brk, blocks, lo, hi, memA)
  {
  }

  /** Rewriting headers without changing their sizes keeps the tiling. */
  lemma SameSizesTiled(memA: Mem, brk: nat, blocks: seq<nat>, memB: Mem)
    requires Tiled(memA, brk, blocks) && |memB| == |memA|
    requires forall j :: 0 <= j < |blocks| ==> SizeAt(memB, blocks[j]) == SizeAt(memA, blocks[j])
    ensures Tiled(memB, brk, blocks)
  {
    forall j | 0 <= j < |blocks|
      ensures BlockOK(memB, brk, blocks, j)
    {
      assert BlockOK(memA, brk, blocks, j);
    }
  }

  /** The list conditions survive header rewrites that keep the size and
      the allocated bit of every listed block. */
  lemma MembersKind(memA: Mem, blocks: seq<nat>, lists: seq<seq<nat>>, memB: Mem, blocksB: seq<nat>)
    requires Members(memA, blocks, lists) && |memB| == |memA|
    requires forall c, k :: 0 <= c < |lists| && 0 <= k < |lists[c]| ==>
               lists[c][k] in blocksB && (lists[c][k] < |memA| ==> SameKind(memB[lists[c][k]], memA[lists[c][k]]))
    ensures Members(memB, blocksB, lists)
  {
    forall c, k | 0 <= c < |lists| && 0 <= k < |lists[c]|
      ensures MemberOK(memB, blocksB, lists, c, k)
    {
      assert MemberOK(memA, blocks, lists, c, k);
    }
  }

  /** Writing one word keeps the tiling if it is no header or keeps that
      header's size. */
  lemma WriteTiled(memA: Mem, brk: nat, blocks: seq<nat>, p: nat, v: Word)
    requires Tiled(memA, brk, blocks) && p < |memA|
    requires p in blocks ==> ExtractSize(v) == ExtractSize(memA[p])
    ensures Tiled(memA[p := v], brk, blocks)
  {
    SameSizesTiled(memA, brk, blocks, memA[p := v]);
  }

  /** Writing one word that is no link word keeps the links, and keeps the
      list conditions if the word is no listed header or keeps that
      header's kind. */
  lemma WriteLists(memA: Mem, blocks: seq<nat>, root: seq<nat>, leaf: seq<nat>, lists: seq<seq<nat>>, p: nat, v: Word)
    requires Members(memA, blocks, lists) && LinksOK(memA, root, leaf, lists) && p < |memA|
    requires NotLink(lists, p)
    requires p !in blocks || Unlisted(lists, p) || SameKind(v, memA[p])
    ensures Members(memA[p := v], blocks, lists) && LinksOK(memA[p := v], root, leaf, lists)
  {
    UpdateKeepsLinks(memA, root, leaf, lists, p, v);
    var memB := memA[p := v];
    forall c, k | 0 <= c < |lists| && 0 <= k < |lists[c]|
      ensures MemberOK(memB, blocks, lists, c, k)
    {
      assert MemberOK(memA, blocks, lists, c, k);
    }
  }

  /** The junction conditions a change of the window lo..hi into `mid`
      must establish itself: the bits cached after each block from lo - 1
      to the end of `mid`, the footers of `mid` and of the block after it,
      and the adjacency of the pairs that touch `mid`, except around the
      new exemption e2. */
  ghost predicate Junction(memG: Mem, brk2: nat, b2: seq<nat>, lo: nat, m: nat, e2: int)
    requires Tiled(memG, brk2, b2)
  {
    (forall j: nat :: lo <= j + 1 && j < lo + m && j < |b2| ==> BitsOK(memG, brk2, b2, j)) &&
    (forall j: nat :: lo <= j <= lo + m && j < |b2| ==> FooterOK(memG, brk2, b2, j)) &&
    (forall j: nat :: lo <= j + 1 && j < lo + m && j + 1 < |b2| && j != e2 && j + 1 != e2 ==> PairOK(memG, brk2, b2, j))
  }

  /** A change of the window lo..hi into `mid` that keeps everything outside
      and establishes the junction conditions keeps the tag conditions. */
  lemma WindowTags(memA: Mem, brk: nat, blocks: seq<nat>, e: int, lo: nat, mid: seq<nat>, hi: nat,
                   memG: Mem, brk2: nat, e2: int)
    requires Tiled(memA, brk, blocks) && Tags(memA, brk, blocks, e)
    requires lo <= hi <= |blocks| && |mid| >= 1 && |memG| == |memA| && (e == -1 || lo <= e < hi)
    requires e2 == -1 || lo <= e2 < lo + |mid|
    requires Tiled(memG, brk2, Splice(blocks, lo, mid, hi))
    requires KeepsOutside(memA, brk, blocks, lo, hi, memG, brk2)
    requires brk2 != brk ==> Sentinels(memG, brk2)
    requires lo == 0 ==> FirstBits(memG, brk2, Splice(blocks, lo, mid, hi))
    requires Junction(memG, brk2, Splice(blocks, lo, mid, hi), lo, |mid|, e2)
    ensures Tags(memG, brk2, Splice(blocks, lo, mid, hi), e2)
  {
    SpliceTags(memA, brk, blocks, e, lo, mid, hi, memG, brk2);
  }

  // ---------------------------------------------------------------------
  // Allocated blocks a change leaves alone.

  /** Every allocated block of the layout `blocks` over memA, other than
      x, is still a block of `blocks2` over memB, allocated and of the same
      size: its payload is neither handed out again nor resized. */
  ghost predicate KeepsAllocated(memA: Mem, blocks: seq<nat>, memB: Mem, blocks2: seq<nat>, x: int) {
    forall b :: b in blocks && b < |memA| && AllocAt(memA, b) && b != x ==>
      b in blocks2 && b < |memB| && AllocAt(memB, b) && SizeAt(memB, b) == SizeAt(memA, b)
  }

  /** A change of the window lo..hi keeps every allocated block when the
      window holds only free blocks, apart perhaps from x. */
  lemma WindowKeepsAllocated(memA: Mem, brk: nat, blocks: seq<nat>, lo: nat, mid: seq<nat>, hi: nat,
                             memG: Mem, brk2: nat, x: int)
    requires Tiled(memA, brk, blocks) && lo <= hi <= |blocks|
    requires KeepsOutside(memA, brk, blocks, lo, hi, memG, brk2)
    requires forall t :: lo <= t < hi && blocks[t] != x ==> !AllocAt(memA, blocks[t])
    ensures KeepsAllocated(memA, blocks, memG, Splice(blocks, lo, mid, hi), x)
  {
    var b2 := Splice(blocks, lo, mid, hi);
    SpliceFacts(blocks, lo, mid, hi);
    forall b | b in blocks && b < |memA| && AllocAt(memA, b) && b != x
      ensures b in b2 && b < |memG| && AllocAt(memG, b) && SizeAt(memG, b) == SizeAt(memA, b)
    {
      var j :| 0 <= j < |blocks| && blocks[j] == b;
      if j < lo {
        assert b2[j] == b;
      } else {
        assert b2[j - hi + lo + |mid|] == b;
        if j == hi {
          assert SameKind(memG[blocks[hi]], memA[blocks[hi]]);
        }
      }
    }
  }

  /** Two changes in a row keep what each keeps, as long as the block the
      second may change, y, was no allocated block before the first. */
  lemma KeepsAllocatedTrans(m1: Mem, b1: seq<nat>, m2: Mem, b2: seq<nat>, m3: Mem, b3: seq<nat>, x: int, y: int)
    requires KeepsAllocated(m1, b1, m2, b2, x) && KeepsAllocated(m2, b2, m3, b3, y)
    requires y == x || y < 0 || y !in b1 || y >= |m1| || !AllocAt(m1, y)
    ensures KeepsAllocated(m1, b1, m3, b3, x)
  {
  }
}
