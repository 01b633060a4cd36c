/** The heap as a sequence of words and the conditions a well-formed heap
    satisfies. A block is named by the word index of its header; word 0 is the
    prologue, blocks start at word 1 and tile the heap up to the epilogue
    header at word `brk - 1`. A free block keeps its `next` link at word
    `h + 1` and, unless it is a 16-byte block, its `prev` link at `h + 2`;
    links hold word indices and 0 is NULL. */
module HeapModel {
  import opened Codec
  import opened Sizes
  import opened FreeLists

  /** The largest arena in words, so that every byte size fits a word. */
  const MAX_WORDS: nat := 0x1000_0000_0000_0000

  type Mem = seq<Word>

  function SizeAt(mem: Mem, h: nat): nat
    requires h < |mem|
  {
    ExtractSize(mem[h])
  }

  /** The block's span in words: `find_next` adds this to the header index. */
  function WidthAt(mem: Mem, h: nat): nat
    requires h < |mem|
  {
    SizeAt(mem, h) / WSIZE
  }

  predicate AllocAt(mem: Mem, h: nat)
    requires h < |mem|
  {
    ExtractAlloc(mem[h])
  }

  predicate PrevAllocAt(mem: Mem, h: nat)
    requires h < |mem|
  {
    ExtractPrevAlloc(mem[h])
  }

  predicate PrevDsizeAt(mem: Mem, h: nat)
    requires h < |mem|
  {
    ExtractPrevDsize(mem[h])
  }

  /** The header that follows block i: the next block or the epilogue. */
  function Succ(blocks: seq<nat>, brk: nat, i: nat): nat
    requires i < |blocks| && brk >= 1
  {
    if i + 1 < |blocks| then blocks[i + 1] else brk - 1
  }

  /** The first header after the prologue: the first block or the epilogue. */
  function First(blocks: seq<nat>, brk: nat): nat
    requires brk >= 1
  {
    if |blocks| > 0 then blocks[0] else brk - 1
  }

  // ---------------------------------------------------------------------
  // Tiling: the blocks cover the heap from word 1 to the epilogue.

  ghost predicate BlockOK(mem: Mem, brk: nat, blocks: seq<nat>, i: nat)
    requires i < |blocks| && blocks[i] < brk <= |mem|
  {
    ValidBlockSize(SizeAt(mem, blocks[i])) &&
    blocks[i] + WidthAt(mem, blocks[i]) == Succ(blocks, brk, i)
  }

  ghost predicate Tiled(mem: Mem, brk: nat, blocks: seq<nat>) {
    2 <= brk <= |mem| <= MAX_WORDS &&
    First(blocks, brk) == 1 &&
    (forall i :: 0 <= i < |blocks| ==> blocks[i] < brk - 1) &&
    (forall i :: 0 <= i < |blocks| ==> BlockOK(mem, brk, blocks, i))
  }

  /** The last word of block i, where a free block keeps its footer. */
  function FooterOf(mem: Mem, brk: nat, blocks: seq<nat>, i: nat): (f: nat)
    requires Tiled(mem, brk, blocks) && i < |blocks|
    ensures blocks[i] < f < brk - 1
  {
    assert BlockOK(mem, brk, blocks, i);
    blocks[i] + WidthAt(mem, blocks[i]) - 1
  }

  /** Word p lies in the span of block k. */
  ghost predicate Owns(mem: Mem, blocks: seq<nat>, k: nat, p: nat)
    requires k < |blocks| && blocks[k] < |mem|
  {
    blocks[k] <= p < blocks[k] + WidthAt(mem, blocks[k])
  }

  // ---------------------------------------------------------------------
  // Boundary tags: the mm_checkheap conditions.

  /** `check_pro_and_epi`: the prologue word is 0x3 and the epilogue has size
      0 and is allocated. */
  ghost predicate Sentinels(mem: Mem, brk: nat)
    requires 2 <= brk <= |mem|
  {
    mem[0] == 3 && SizeAt(mem, brk - 1) == 0 && AllocAt(mem, brk - 1)
  }

  /** The first block (or the epilogue of an empty heap) follows the
      allocated, zero-size prologue. */
  ghost predicate FirstBits(mem: Mem, brk: nat, blocks: seq<nat>)
    requires Tiled(mem, brk, blocks)
  {
    PrevAllocAt(mem, First(blocks, brk)) && !PrevDsizeAt(mem, First(blocks, brk))
  }

  /** `check_consistency`, `check_size`: the successor's cached bits match
      block i. */
  ghost predicate BitsOK(mem: Mem, brk: nat, blocks: seq<nat>, i: nat)
    requires Tiled(mem, brk, blocks) && i < |blocks|
  {
    PrevAllocAt(mem, Succ(blocks, brk, i)) == AllocAt(mem, blocks[i]) &&
    PrevDsizeAt(mem, Succ(blocks, brk, i)) == (SizeAt(mem, blocks[i]) == DSIZE)
  }

  /** A free block larger than 16 bytes keeps a footer that copies its header. */
  ghost predicate ShowsFooter(mem: Mem, blocks: seq<nat>, i: nat)
    requires i < |blocks| && blocks[i] < |mem|
  {
    !AllocAt(mem, blocks[i]) && SizeAt(mem, blocks[i]) != DSIZE
  }

  ghost predicate FooterOK(mem: Mem, brk: nat, blocks: seq<nat>, i: nat)
    requires Tiled(mem, brk, blocks) && i < |blocks|
  {
    ShowsFooter(mem, blocks, i) ==> mem[FooterOf(mem, brk, blocks, i)] == mem[blocks[i]]
  }

  /** `check_consistency`: blocks i and i + 1 are not both free. */
  ghost predicate PairOK(mem: Mem, brk: nat, blocks: seq<nat>, i: nat)
    requires Tiled(mem, brk, blocks) && i + 1 < |blocks|
  {
    AllocAt(mem, blocks[i]) || AllocAt(mem, blocks[i + 1])
  }

  /** All boundary-tag conditions, except that the pairs (e - 1, e) and
      (e, e + 1) may both be free (e == -1 exempts nothing). */
  ghost predicate Tags(mem: Mem, brk: nat, blocks: seq<nat>, e: int)
    requires Tiled(mem, brk, blocks)
  {
    Sentinels(mem, brk) && FirstBits(mem, brk, blocks) &&
    (forall i :: 0 <= i < |blocks| ==> BitsOK(mem, brk, blocks, i)) &&
    (forall i :: 0 <= i < |blocks| ==> FooterOK(mem, brk, blocks, i)) &&
    (forall i :: 0 <= i < |blocks| - 1 && i != e && i + 1 != e ==> PairOK(mem, brk, blocks, i))
  }

  // ---------------------------------------------------------------------
  // Free lists against the blocks.

  ghost predicate InClass(lists: seq<seq<nat>>, c: int, x: nat) {
    0 <= c < |lists| && x in lists[c]
  }

  ghost predicate Unlisted(lists: seq<seq<nat>>, x: nat) {
    forall c :: 0 <= c < |lists| ==> x !in lists[c]
  }

  /** `check_free_lists`, `check_dsize_free_lists`: every entry of list c is
      a free block whose size belongs to class c. */
  ghost predicate MemberOK(mem: Mem, blocks: seq<nat>, lists: seq<seq<nat>>, c: nat, k: nat)
    requires c < |lists| && k < |lists[c]|
  {
    lists[c][k] in blocks && lists[c][k] < |mem| &&
    !AllocAt(mem, lists[c][k]) && FindFreeList(SizeAt(mem, lists[c][k])) == c as int
  }

  ghost predicate Members(mem: Mem, blocks: seq<nat>, lists: seq<seq<nat>>) {
    |lists| == NUM &&
    forall c, k :: 0 <= c < |lists| && 0 <= k < |lists[c]| ==> MemberOK(mem, blocks, lists, c, k)
  }

  /** Every free block is listed in the list of its class. */
  ghost predicate Listed(mem: Mem, brk: nat, blocks: seq<nat>, lists: seq<seq<nat>>, i: nat)
    requires Tiled(mem, brk, blocks) && i < |blocks|
  {
    !AllocAt(mem, blocks[i]) ==> InClass(lists, FindFreeList(SizeAt(mem, blocks[i])), blocks[i])
  }

  ghost predicate Complete(mem: Mem, brk: nat, blocks: seq<nat>, lists: seq<seq<nat>>)
    requires Tiled(mem, brk, blocks)
  {
    forall i :: 0 <= i < |blocks| ==> Listed(mem, brk, blocks, lists, i)
  }

  // ---------------------------------------------------------------------
  // Link words and list ends.

  /** The link words of the k-th entry of list s, of class c, match its
      neighbours in s. */
  ghost predicate EntryLinked(mem: Mem, s: seq<nat>, c: nat, k: nat)
    requires k < |s|
  {
    var h := s[k];
    h % 2 == 1 && h + 2 < |mem| &&
    mem[h + 1] == NextOf(s, k) &&
    (c != DSIZE_CLASS ==> mem[h + 2] == PrevOf(s, k))
  }

  ghost predicate EndsOK(root: seq<nat>, leaf: seq<nat>, lists: seq<seq<nat>>, c: nat)
    requires c < |root| && c < |leaf| && c < |lists|
  {
    root[c] == Head(lists[c]) && leaf[c] == Last(lists[c])
  }

  /** No block is in two lists or twice in one. */
  ghost predicate Separate(lists: seq<seq<nat>>) {
    (forall c :: 0 <= c < |lists| ==> Distinct(lists[c])) &&
    (forall c1, c2, x ::
       (0 <= c1 < |lists| && 0 <= c2 < |lists| && x in lists[c1] && x in lists[c2]) ==> c1 == c2)
  }

  ghost predicate LinksOK(mem: Mem, root: seq<nat>, leaf: seq<nat>, lists: seq<seq<nat>>) {
    |root| == NUM && |leaf| == NUM && |lists| == NUM &&
    (forall c :: 0 <= c < NUM ==> EndsOK(root, leaf, lists, c)) &&
    (forall c, k :: 0 <= c < NUM && 0 <= k < |lists[c]| ==> EntryLinked(mem, lists[c], c, k)) &&
    Separate(lists)
  }

  /** The whole invariant, with the adjacency exemption e. */
  ghost predicate Inv(mem: Mem, brk: nat, root: seq<nat>, leaf: seq<nat>,
                      blocks: seq<nat>, lists: seq<seq<nat>>, e: int) {
    Tiled(mem, brk, blocks) && Tags(mem, brk, blocks, e) &&
    Members(mem, blocks, lists) && Complete(mem, brk, blocks, lists) &&
    LinksOK(mem, root, leaf, lists)
  }

  // ---------------------------------------------------------------------
  // Geometry of a tiled heap.

  /** Every block spans an even number of at least two words and ends at or
      before the epilogue. */
  lemma SpanFacts(mem: Mem, brk: nat, blocks: seq<nat>, i: nat)
    requires Tiled(mem, brk, blocks) && i < |blocks|
    ensures WidthAt(mem, blocks[i]) >= 2 && WidthAt(mem, blocks[i]) % 2 == 0
    ensures blocks[i] + WidthAt(mem, blocks[i]) <= brk - 1
  {
    assert BlockOK(mem, brk, blocks, i);
    var s := SizeAt(mem, blocks[i]);
    assert s % 16 == 0 && s >= 16;
    assert WidthAt(mem, blocks[i]) == s / 8;
  }

  /** Every block starts at an odd word, so its payload word is even. */
  lemma {:induction false} TiledFacts(mem: Mem, brk: nat, blocks: seq<nat>, i: nat)
    requires Tiled(mem, brk, blocks) && i < |blocks|
    ensures blocks[i] % 2 == 1 && blocks[i] >= 1
    ensures WidthAt(mem, blocks[i]) >= 2 && WidthAt(mem, blocks[i]) % 2 == 0
    ensures blocks[i] + WidthAt(mem, blocks[i]) <= brk - 1
  {
    SpanFacts(mem, brk, blocks, i);
    if i > 0 {
      TiledFacts(mem, brk, blocks, i - 1);
      assert BlockOK(mem, brk, blocks, i - 1);
    }
  }

  /** The epilogue of a tiled heap sits at an odd word. */
  lemma TiledBrk(mem: Mem, brk: nat, blocks: seq<nat>)
    requires Tiled(mem, brk, blocks)
    ensures brk % 2 == 0
  {
    if |blocks| > 0 {
      var last := |blocks| - 1;
      TiledFacts(mem, brk, blocks, last);
      assert BlockOK(mem, brk, blocks, last);
    }
  }

  /** Blocks are in address order and their spans do not overlap. */
  lemma {:induction false} TiledOrder(mem: Mem, brk: nat, blocks: seq<nat>, i: nat, j: nat)
    requires Tiled(mem, brk, blocks) && i < j < |blocks|
    ensures blocks[i] + WidthAt(mem, blocks[i]) <= blocks[j]
    decreases j - i
  {
    assert BlockOK(mem, brk, blocks, i);
    if j > i + 1 {
      TiledOrder(mem, brk, blocks, i + 1, j);
      SpanFacts(mem, brk, blocks, i + 1);
    }
  }

  /** Two blocks of a tiled heap never overlap: the lower one ends at or
      before the higher one's header, so no two payloads share a word. */
  lemma SpansDisjoint(mem: Mem, brk: nat, blocks: seq<nat>, b: nat, c: nat)
    requires Tiled(mem, brk, blocks) && b in blocks && c in blocks && b < c
    ensures b < |mem| && b + WidthAt(mem, b) <= c
  {
    var i :| 0 <= i < |blocks| && blocks[i] == b;
    var j :| 0 <= j < |blocks| && blocks[j] == c;
    if j < i {
      TiledOrder(mem, brk, blocks, j, i);
    } else {
      TiledOrder(mem, brk, blocks, i, j);
    }
  }

  /** A word inside the span of block k lies in no other block's span, is
      neither a sentinel nor, unless it is block k's own header, a header. */
  lemma OwnerUnique(mem: Mem, brk: nat, blocks: seq<nat>, k: nat, p: nat)
    requires Tiled(mem, brk, blocks) && k < |blocks|
    requires blocks[k] <= p < blocks[k] + WidthAt(mem, blocks[k])
    ensures 1 <= p < brk - 1
    ensures forall j :: 0 <= j < |blocks| && j != k ==>
              blocks[j] < |mem| && !(blocks[j] <= p < blocks[j] + WidthAt(mem, blocks[j]))
    ensures forall j :: 0 <= j < |blocks| && j != k ==> blocks[j] != p
  {
    TiledFacts(mem, brk, blocks, k);
    forall j | 0 <= j < |blocks| && j != k
      ensures blocks[j] < |mem| && !(blocks[j] <= p < blocks[j] + WidthAt(mem, blocks[j]))
      ensures blocks[j] != p
    {
      TiledFacts(mem, brk, blocks, j);
      if j < k {
        TiledOrder(mem, brk, blocks, j, k);
      } else {
        TiledOrder(mem, brk, blocks, k, j);
      }
    }
  }

  /** A header word is not a sentinel and belongs to exactly one block. */
  lemma HeaderIndexUnique(mem: Mem, brk: nat, blocks: seq<nat>, i: nat, j: nat)
    requires Tiled(mem, brk, blocks) && i < |blocks| && j < |blocks|
    requires blocks[i] == blocks[j]
    ensures i == j
  {
    TiledFacts(mem, brk, blocks, i);
    if i != j {
      OwnerUnique(mem, brk, blocks, i, blocks[i]);
    }
  }

  /** A word that is no sentinel, no header and no kept footer. */
  ghost predicate NotTag(mem: Mem, brk: nat, blocks: seq<nat>, p: nat)
    requires Tiled(mem, brk, blocks)
  {
    p != 0 && p != brk - 1 &&
    forall j :: 0 <= j < |blocks| ==>
      p != blocks[j] && (ShowsFooter(mem, blocks, j) ==> p != FooterOf(mem, brk, blocks, j))
  }

  /** A word strictly inside block k's span, and not its kept footer, is no tag. */
  lemma InteriorNotTag(mem: Mem, brk: nat, blocks: seq<nat>, k: nat, p: nat)
    requires Tiled(mem, brk, blocks) && k < |blocks|
    requires blocks[k] < p < blocks[k] + WidthAt(mem, blocks[k])
    requires ShowsFooter(mem, blocks, k) ==> p != FooterOf(mem, brk, blocks, k)
    ensures NotTag(mem, brk, blocks, p)
  {
    OwnerUnique(mem, brk, blocks, k, p);
    forall j | 0 <= j < |blocks|
      ensures p != blocks[j] && (ShowsFooter(mem, blocks, j) ==> p != FooterOf(mem, brk, blocks, j))
    {
      TiledFacts(mem, brk, blocks, j);
    }
  }

  // ---------------------------------------------------------------------
  // Frames: which words each part of the invariant depends on.

  /** mem2 keeps every tag word of mem: sentinels, headers and kept footers. */
  ghost predicate SameTags(mem: Mem, mem2: Mem, brk: nat, blocks: seq<nat>)
    requires Tiled(mem, brk, blocks)
  {
    |mem2| == |mem| && mem2[0] == mem[0] && mem2[brk - 1] == mem[brk - 1] &&
    (forall j :: 0 <= j < |blocks| ==> mem2[blocks[j]] == mem[blocks[j]]) &&
    (forall j :: 0 <= j < |blocks| && ShowsFooter(mem, blocks, j) ==>
       mem2[FooterOf(mem, brk, blocks, j)] == mem[FooterOf(mem, brk, blocks, j)])
  }

  /** Writing a word that is no tag keeps the tags. */
  lemma UpdateSameTags(mem: Mem, brk: nat, blocks: seq<nat>, p: nat, v: Word)
    requires Tiled(mem, brk, blocks) && p < |mem| && NotTag(mem, brk, blocks, p)
    ensures SameTags(mem, mem[p := v], brk, blocks)
  {
  }

  /** Keeping the tags keeps the tiling, the tag conditions and the list
      membership conditions. */
  lemma SameTagsKeep(mem: Mem, mem2: Mem, brk: nat, blocks: seq<nat>, lists: seq<seq<nat>>, e: int)
    requires Tiled(mem, brk, blocks) && SameTags(mem, mem2, brk, blocks)
    ensures Tiled(mem2, brk, blocks)
    ensures Tags(mem, brk, blocks, e) ==> Tags(mem2, brk, blocks, e)
    ensures Members(mem, blocks, lists) ==> Members(mem2, blocks, lists)
    ensures Complete(mem, brk, blocks, lists) ==> Tiled(mem2, brk, blocks) && Complete(mem2, brk, blocks, lists)
  {
    forall j | 0 <= j < |blocks|
      ensures BlockOK(mem2, brk, blocks, j)
    {
      assert BlockOK(mem, brk, blocks, j);
      assert mem2[blocks[j]] == mem[blocks[j]];
    }
    assert Tiled(mem2, brk, blocks);
    forall j | 0 <= j < |blocks|
      ensures mem2[blocks[j]] == mem[blocks[j]]
      ensures FooterOf(mem2, brk, blocks, j) == FooterOf(mem, brk, blocks, j)
      ensures mem2[Succ(blocks, brk, j)] == mem[Succ(blocks, brk, j)]
    {
      if j + 1 < |blocks| {
        assert mem2[blocks[j + 1]] == mem[blocks[j + 1]];
      }
    }
    if Tags(mem, brk, blocks, e) {
      forall j | 0 <= j < |blocks|
        ensures BitsOK(mem2, brk, blocks, j) && FooterOK(mem2, brk, blocks, j)
      {
        assert BitsOK(mem, brk, blocks, j) && FooterOK(mem, brk, blocks, j);
      }
      forall j | 0 <= j < |blocks| - 1 && j != e && j + 1 != e
        ensures PairOK(mem2, brk, blocks, j)
      {
        assert PairOK(mem, brk, blocks, j);
        assert mem2[blocks[j + 1]] == mem[blocks[j + 1]];
      }
      assert mem2[First(blocks, brk)] == mem[First(blocks, brk)] by {
        if |blocks| > 0 {
          assert mem2[blocks[0]] == mem[blocks[0]];
        }
      }
    }
    if Members(mem, blocks, lists) {
      forall c, k | 0 <= c < |lists| && 0 <= k < |lists[c]|
        ensures MemberOK(mem2, blocks, lists, c, k)
      {
        assert MemberOK(mem, blocks, lists, c, k);
        var j := IndexOf(blocks, lists[c][k]);
        assert mem2[blocks[j]] == mem[blocks[j]];
      }
    }
    if Complete(mem, brk, blocks, lists) {
      forall j | 0 <= j < |blocks|
        ensures Listed(mem2, brk, blocks, lists, j)
      {
        assert Listed(mem, brk, blocks, lists, j);
      }
    }
  }

  /** Keeping the tags twice keeps them. */
  lemma SameTagsTrans(mem: Mem, mem2: Mem, mem3: Mem, brk: nat, blocks: seq<nat>)
    requires Tiled(mem, brk, blocks) && SameTags(mem, mem2, brk, blocks)
    requires Tiled(mem2, brk, blocks) && SameTags(mem2, mem3, brk, blocks)
    ensures SameTags(mem, mem3, brk, blocks)
  {
    forall j | 0 <= j < |blocks| && ShowsFooter(mem, blocks, j)
      ensures mem3[FooterOf(mem, brk, blocks, j)] == mem[FooterOf(mem, brk, blocks, j)]
    {
      assert mem2[blocks[j]] == mem[blocks[j]];
      assert FooterOf(mem2, brk, blocks, j) == FooterOf(mem, brk, blocks, j);
    }
  }

  /** A word that is no link word of any listed block. */
  ghost predicate NotLink(lists: seq<seq<nat>>, p: nat) {
    forall c, k :: 0 <= c < |lists| && 0 <= k < |lists[c]| ==>
      p != lists[c][k] + 1 && (c != DSIZE_CLASS ==> p != lists[c][k] + 2)
  }

  /** Writing a word that is no link word keeps the links. */
  lemma UpdateKeepsLinks(mem: Mem, root: seq<nat>, leaf: seq<nat>, lists: seq<seq<nat>>, p: nat, v: Word)
    requires LinksOK(mem, root, leaf, lists) && p < |mem| && NotLink(lists, p)
    ensures LinksOK(mem[p := v], root, leaf, lists)
  {
    var mem2 := mem[p := v];
    forall c, k | 0 <= c < NUM && 0 <= k < |lists[c]|
      ensures EntryLinked(mem2, lists[c], c, k)
    {
      assert EntryLinked(mem, lists[c], c, k);
    }
  }

  /** The link words of a listed block lie inside its span: `next` always,
      `prev` (outside the 16-byte class) strictly before its last word. */
  lemma LinkWordsInside(mem: Mem, brk: nat, blocks: seq<nat>, lists: seq<seq<nat>>, c: nat, k: nat)
    requires Tiled(mem, brk, blocks) && Members(mem, blocks, lists)
    requires c < |lists| && k < |lists[c]|
    ensures lists[c][k] in blocks
    ensures var j := IndexOf(blocks, lists[c][k]);
      lists[c][k] + 1 < lists[c][k] + WidthAt(mem, lists[c][k]) &&
      (c != DSIZE_CLASS ==> lists[c][k] + 2 < lists[c][k] + WidthAt(mem, lists[c][k]) - 1)
  {
    assert MemberOK(mem, blocks, lists, c, k);
    var j := IndexOf(blocks, lists[c][k]);
    TiledFacts(mem, brk, blocks, j);
    assert BlockOK(mem, brk, blocks, j);
    if c != DSIZE_CLASS {
      NonMinimumClassSize(SizeAt(mem, lists[c][k]));
    }
  }

  /** A word in the span of a block that is in no list is no link word, and
      neither is a header, the epilogue, or a kept footer. */
  lemma NotLinkOwned(mem: Mem, brk: nat, blocks: seq<nat>, lists: seq<seq<nat>>, i: nat, p: nat)
    requires Tiled(mem, brk, blocks) && Members(mem, blocks, lists) && i < |blocks|
    requires blocks[i] <= p < blocks[i] + WidthAt(mem, blocks[i])
    requires Unlisted(lists, blocks[i]) || p == blocks[i] ||
             (ShowsFooter(mem, blocks, i) && p == blocks[i] + WidthAt(mem, blocks[i]) - 1)
    ensures NotLink(lists, p)
  {
    forall c, k | 0 <= c < |lists| && 0 <= k < |lists[c]|
      ensures p != lists[c][k] + 1 && (c != DSIZE_CLASS ==> p != lists[c][k] + 2)
    {
      LinkWordsInside(mem, brk, blocks, lists, c, k);
      var j := IndexOf(blocks, lists[c][k]);
      if j != i {
        OwnerUnique(mem, brk, blocks, j, lists[c][k] + 1);
        if c != DSIZE_CLASS {
          OwnerUnique(mem, brk, blocks, j, lists[c][k] + 2);
        }
      } else {
        assert MemberOK(mem, blocks, lists, c, k);
        assert !Unlisted(lists, blocks[i]);
        if c == DSIZE_CLASS {
          assert SizeAt(mem, blocks[i]) == DSIZE;
        }
      }
    }
  }

  /** The epilogue is no link word. */
  lemma NotLinkEpilogue(mem: Mem, brk: nat, blocks: seq<nat>, lists: seq<seq<nat>>)
    requires Tiled(mem, brk, blocks) && Members(mem, blocks, lists)
    ensures NotLink(lists, brk - 1)
  {
    forall c, k | 0 <= c < |lists| && 0 <= k < |lists[c]|
      ensures brk - 1 != lists[c][k] + 1 && (c != DSIZE_CLASS ==> brk - 1 != lists[c][k] + 2)
    {
      LinkWordsInside(mem, brk, blocks, lists, c, k);
      var j := IndexOf(blocks, lists[c][k]);
      TiledFacts(mem, brk, blocks, j);
    }
  }

  /** The link words of a listed block are no tags. */
  lemma LinkNotTag(mem: Mem, brk: nat, blocks: seq<nat>, lists: seq<seq<nat>>, c: nat, k: nat)
    requires Tiled(mem, brk, blocks) && Members(mem, blocks, lists)
    requires c < |lists| && k < |lists[c]|
    ensures NotTag(mem, brk, blocks, lists[c][k] + 1)
    ensures c != DSIZE_CLASS ==> NotTag(mem, brk, blocks, lists[c][k] + 2)
  {
    LinkWordsInside(mem, brk, blocks, lists, c, k);
    var j := IndexOf(blocks, lists[c][k]);
    assert MemberOK(mem, blocks, lists, c, k);
    if c == DSIZE_CLASS {
      assert !ShowsFooter(mem, blocks, j);
    }
    InteriorNotTag(mem, brk, blocks, j, lists[c][k] + 1);
    if c != DSIZE_CLASS {
      InteriorNotTag(mem, brk, blocks, j, lists[c][k] + 2);
    }
  }
}
