/** The whole invariant across a change of the block layout. An operation
    that replaces the run `blocks[lo..hi)` by `mid` proves the conditions at
    the junctions of the window, and that the free lists hold what they
    held outside the window plus the free blocks of `mid`; everything else
    carries over here. */
module Window {
  import opened Codec
  import opened Sizes
  import opened FreeLists
  import opened HeapModel
  import opened Layout
  import opened LinkModel

  /** A step that keeps every tag of the current layout keeps what the
      window's outside held. */
  lemma TagsKeepOutside(memA: Mem, brk: nat, blocks: seq<nat>, lo: nat, mid: seq<nat>, hi: nat,
                        memC: Mem, brk2: nat, memD: Mem)
    requires Tiled(memA, brk, blocks) && lo <= hi <= |blocks| && |mid| >= 1
    requires Tiled(memC, brk2, Splice(blocks, lo, mid, hi))
    requires KeepsOutside(memA, brk, blocks, lo, hi, memC, brk2)
    requires SameTags(memC, memD, brk2, Splice(blocks, lo, mid, hi))
    ensures KeepsOutside(memA, brk, blocks, lo, hi, memD, brk2)
  {
    SameTagsOutside(memA, brk, blocks, lo, mid, hi, memC, brk2, memD);
    SpliceFacts(blocks, lo, mid, hi);
    if hi < |blocks| {
      var j := hi - hi + lo + |mid|;
      assert Splice(blocks, lo, mid, hi)[j] == blocks[hi];
    }
  }

  /** The same before the layout changes: the window is still `blocks[lo..hi)`. */
  lemma TagsKeepOutsideSelf(memA: Mem, brk: nat, blocks: seq<nat>, lo: nat, hi: nat, memC: Mem, memD: Mem)
    requires Tiled(memA, brk, blocks) && lo < hi <= |blocks|
    requires Tiled(memC, brk, blocks) && KeepsOutside(memA, brk, blocks, lo, hi, memC, brk)
    requires SameTags(memC, memD, brk, blocks)
    ensures KeepsOutside(memA, brk, blocks, lo, hi, memD, brk)
  {
    SpliceSelf(blocks, lo, hi);
    TagsKeepOutside(memA, brk, blocks, lo, blocks[lo..hi], hi, memC, brk, memD);
  }

  /** Every free block outside the window stays listed, in the same class,
      when the lists keep their entries outside the window. */
  lemma WindowComplete(memA: Mem, brk: nat, blocks: seq<nat>, lists: seq<seq<nat>>,
                       lo: nat, mid: seq<nat>, hi: nat, memG: Mem, brk2: nat, lists2: seq<seq<nat>>)
    requires Tiled(memA, brk, blocks) && Complete(memA, brk, blocks, lists)
    requires lo <= hi <= |blocks| && |mid| >= 1 && |lists2| == |lists|
    requires Tiled(memG, brk2, Splice(blocks, lo, mid, hi))
    requires KeepsOutside(memA, brk, blocks, lo, hi, memG, brk2)
    requires forall d, x :: 0 <= d < |lists| && x in lists[d] && x !in blocks[lo..hi] ==> x in lists2[d]
    requires forall j :: lo <= j < lo + |mid| ==> Listed(memG, brk2, Splice(blocks, lo, mid, hi), lists2, j)
    ensures Complete(memG, brk2, Splice(blocks, lo, mid, hi), lists2)
  {
    var b2 := Splice(blocks, lo, mid, hi);
    SpliceFacts(blocks, lo, mid, hi);
    forall j | 0 <= j < |b2|
      ensures Listed(memG, brk2, b2, lists2, j)
    {
      if j < lo {
        WindowKeepsListed(memA, brk, blocks, lists, lo, hi, j, memG, lists2);
      } else if j >= lo + |mid| {
        SuccPast(blocks, brk, lo, mid, hi, brk2, j);
        var t := Orig(j, lo, |mid|, hi);
        WindowKeepsListed(memA, brk, blocks, lists, lo, hi, t, memG, lists2);
      } else {
        assert Listed(memG, brk2, b2, lists2, j);
      }
    }
  }

  /** Block t outside the window keeps its kind and its place in the lists. */
  lemma WindowKeepsListed(memA: Mem, brk: nat, blocks: seq<nat>, lists: seq<seq<nat>>,
                          lo: nat, hi: nat, t: nat, memG: Mem, lists2: seq<seq<nat>>)
    requires Tiled(memA, brk, blocks) && Complete(memA, brk, blocks, lists)
    requires lo <= hi <= |blocks| && t < |blocks| && (t < lo || t >= hi) && |lists2| == |lists|
    requires |memG| == |memA| && SameOutside(memA, brk, blocks, lo, hi, memG)
    requires t == hi ==> SameKind(memG[blocks[hi]], memA[blocks[hi]])
    requires forall d, x :: 0 <= d < |lists| && x in lists[d] && x !in blocks[lo..hi] ==> x in lists2[d]
    ensures blocks[t] < |memG|
    ensures !AllocAt(memG, blocks[t]) ==> InClass(lists2, FindFreeList(SizeAt(memG, blocks[t])), blocks[t])
  {
    TiledFacts(memA, brk, blocks, t);
    assert Listed(memA, brk, blocks, lists, t);
    assert SameKind(memG[blocks[t]], memA[blocks[t]]);
    if blocks[t] in blocks[lo..hi] {
      var u :| lo <= u < hi && blocks[u] == blocks[t];
      HeaderIndexUnique(memA, brk, blocks, u, t);
    }
  }

  /** The whole invariant after a change of the window lo..hi into `mid`,
      from the invariant before it, the junction conditions, and lists that
      keep their entries outside the window and list the free blocks of
      `mid`. */
  lemma WindowInv(memA: Mem, brk: nat, blocks: seq<nat>, lists: seq<seq<nat>>, e: int,
                  lo: nat, mid: seq<nat>, hi: nat,
                  memG: Mem, brk2: nat, root2: seq<nat>, leaf2: seq<nat>, lists2: seq<seq<nat>>, e2: int)
    requires Tiled(memA, brk, blocks) && Tags(memA, brk, blocks, e) && Complete(memA, brk, blocks, lists)
    requires lo <= hi <= |blocks| && |mid| >= 1 && |memG| == |memA| && |lists2| == |lists|
    requires e == -1 || lo <= e < hi
    requires e2 == -1 || lo <= e2 < lo + |mid|
    requires Tiled(memG, brk2, Splice(blocks, lo, mid, hi))
    requires KeepsOutside(memA, brk, blocks, lo, hi, memG, brk2)
    requires brk2 != brk ==> Sentinels(memG, brk2)
    requires lo == 0 ==> FirstBits(memG, brk2, Splice(blocks, lo, mid, hi))
    requires Junction(memG, brk2, Splice(blocks, lo, mid, hi), lo, |mid|, e2)
    requires Members(memG, Splice(blocks, lo, mid, hi), lists2) && LinksOK(memG, root2, leaf2, lists2)
    requires forall d, x :: 0 <= d < |lists| && x in lists[d] && x !in blocks[lo..hi] ==> x in lists2[d]
    requires forall j :: lo <= j < lo + |mid| ==> Listed(memG, brk2, Splice(blocks, lo, mid, hi), lists2, j)
    ensures Inv(memG, brk2, root2, leaf2, Splice(blocks, lo, mid, hi), lists2, e2)
  {
    WindowTags(memA, brk, blocks, e, lo, mid, hi, memG, brk2, e2);
    WindowComplete(memA, brk, blocks, lists, lo, mid, hi, memG, brk2, lists2);
  }
}
