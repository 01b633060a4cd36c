/** What inserting a block at the head of its free list and unlinking a block
    from its free list do to the heap's link words, and why the free lists
    stay well linked. Headers are odd word indices, so a `next` word (at an
    even index h + 1) and a `prev` word (at an odd index h' + 2) never
    coincide. */
module LinkModel {
  import opened Codec
  import opened Sizes
  import opened FreeLists
  import opened HeapModel

  /** `add_new_free_block` / `add_dsize_free_block`: h's `next` becomes the old
      root r; outside the 16-byte class h's `prev` becomes NULL and the old
      root's `prev` becomes h. */
  function InsertLinks(mem: Mem, h: nat, c: nat, r: nat): Mem
    requires h + 2 < |mem| <= MAX_WORDS && r + 2 < |mem|
  {
    var m1 := mem[h + 1 := r];
    var m2 := if c == DSIZE_CLASS then m1 else m1[h + 2 := NULL];
    if c == DSIZE_CLASS || r == NULL then m2 else m2[r + 2 := h]
  }

  /** `delete_block_from_list` / `delete_dsize_free_block`: the predecessor
      pv (towards the root) gets `next` = nx and, outside the 16-byte class,
      the successor nx gets `prev` = pv. */
  function DeleteLinks(mem: Mem, c: nat, pv: nat, nx: nat): Mem
    requires pv + 1 < |mem| <= MAX_WORDS && nx + 2 < |mem|
  {
    var m1 := if pv == NULL then mem else mem[pv + 1 := nx];
    if nx == NULL || c == DSIZE_CLASS then m1 else m1[nx + 2 := pv]
  }

  /** List c after pushing h at its head. */
  function PushLists(lists: seq<seq<nat>>, c: nat, h: nat): (r: seq<seq<nat>>)
    requires c < |lists|
    ensures |r| == |lists| && r[c] == [h] + lists[c]
    ensures forall d :: 0 <= d < |lists| && d != c ==> r[d] == lists[d]
  {
    lists[c := [h] + lists[c]]
  }

  /** List c after removing h. */
  function PopLists(lists: seq<seq<nat>>, c: nat, h: nat): (r: seq<seq<nat>>)
    requires c < |lists|
    ensures |r| == |lists| && r[c] == Remove(lists[c], h)
    ensures forall d :: 0 <= d < |lists| && d != c ==> r[d] == lists[d]
  {
    lists[c := Remove(lists[c], h)]
  }

  /** The new `leaf` array after a push onto list c: set only if the list was empty. */
  function PushLeaf(leaf: seq<nat>, lists: seq<seq<nat>>, c: nat, h: nat): seq<nat>
    requires c < |lists| && c < |leaf|
  {
    if lists[c] == [] then leaf[c := h] else leaf
  }

  /** A `next` word and a `prev` word of two odd headers never coincide. */
  lemma Parity(x: nat, y: nat)
    requires x % 2 == 1 && y % 2 == 1
    ensures x + 1 != y + 2 && x + 2 != y + 1
  {
  }

  lemma MembersOdd(mem: Mem, root: seq<nat>, leaf: seq<nat>, lists: seq<seq<nat>>, c: nat, k: nat)
    requires LinksOK(mem, root, leaf, lists) && c < NUM && k < |lists[c]|
    ensures lists[c][k] % 2 == 1 && lists[c][k] + 2 < |mem|
  {
    assert EntryLinked(mem, lists[c], c, k);
  }

  /** The root of a list is NULL or a member with room for its links. */
  lemma RootFacts(mem: Mem, root: seq<nat>, leaf: seq<nat>, lists: seq<seq<nat>>, c: nat)
    requires LinksOK(mem, root, leaf, lists) && c < NUM
    ensures root[c] == NULL <==> lists[c] == []
    ensures root[c] != NULL ==> root[c] == lists[c][0] && root[c] % 2 == 1 && root[c] + 2 < |mem|
    ensures leaf[c] == NULL <==> lists[c] == []
    ensures leaf[c] != NULL ==> leaf[c] == lists[c][|lists[c]| - 1] && leaf[c] + 2 < |mem|
  {
    assert EndsOK(root, leaf, lists, c);
    if lists[c] != [] {
      MembersOdd(mem, root, leaf, lists, c, 0);
      MembersOdd(mem, root, leaf, lists, c, |lists[c]| - 1);
    }
  }

  /** A block other than h and the old root keeps its link words through
      the insertion. */
  lemma InsertLinkOther(mem: Mem, h: nat, c: nat, r: nat, t: seq<nat>, d: nat, k: nat)
    requires h % 2 == 1 && h + 2 < |mem| <= MAX_WORDS && r + 2 < |mem| && (r != NULL ==> r % 2 == 1)
    requires k < |t| && t[k] != h && t[k] != r && EntryLinked(mem, t, d, k)
    ensures EntryLinked(InsertLinks(mem, h, c, r), t, d, k)
  {
    Parity(t[k], h);
    if r != NULL {
      Parity(t[k], r);
    }
  }

  /** After the insertion, every entry of the list has the link words of
      its new position. */
  lemma InsertLinkSame(mem: Mem, s: seq<nat>, h: nat, c: nat, k: nat)
    requires forall i :: 0 <= i < |s| ==> EntryLinked(mem, s, c, i)
    requires Distinct(s) && h !in s && h % 2 == 1 && h + 2 < |mem| <= MAX_WORDS && Head(s) + 2 < |mem|
    requires k < |s| + 1
    ensures EntryLinked(InsertLinks(mem, h, c, Head(s)), [h] + s, c, k)
  {
    var r := Head(s);
    var s2 := [h] + s;
    if r != NULL {
      assert EntryLinked(mem, s, c, 0);
      Parity(h, r);
    }
    if k == 0 {
      assert NextOf(s2, 0) == r;
    } else {
      var x := s[k - 1];
      assert s2[k] == x;
      assert EntryLinked(mem, s, c, k - 1);
      Parity(x, h);
      if r != NULL {
        Parity(x, r);
      }
      assert NextOf(s2, k) == NextOf(s, k - 1);
      if k == 1 {
        assert PrevOf(s2, k) == h;
      } else {
        assert x != r by {
          assert s[0] == r;
        }
        assert PrevOf(s2, k) == PrevOf(s, k - 1);
      }
    }
  }

  /** After the insertion, the k-th entry of list d has correct link words. */
  lemma InsertLinkOK(mem: Mem, root: seq<nat>, leaf: seq<nat>, lists: seq<seq<nat>>, h: nat, c: nat, d: nat, k: nat)
    requires LinksOK(mem, root, leaf, lists)
    requires h % 2 == 1 && h + 2 < |mem| <= MAX_WORDS && c < NUM && Unlisted(lists, h)
    requires d < NUM && k < |PushLists(lists, c, h)[d]|
    ensures root[c] + 2 < |mem|
    ensures EntryLinked(InsertLinks(mem, h, c, root[c]), PushLists(lists, c, h)[d], d, k)
  {
    RootFacts(mem, root, leaf, lists, c);
    assert root[c] == Head(lists[c]);
    assert Separate(lists);
    if d != c {
      assert EntryLinked(mem, lists[d], d, k);
      assert lists[d][k] != root[c] by {
        if root[c] != NULL {
          assert root[c] in lists[c];
        }
      }
      InsertLinkOther(mem, h, c, root[c], lists[d], d, k);
    } else {
      assert forall i :: 0 <= i < |lists[c]| ==> EntryLinked(mem, lists[c], c, i);
      InsertLinkSame(mem, lists[c], h, c, k);
    }
  }

  /** Insert: h becomes the head of list c; the other lists, and the order of
      the entries already in list c, are unchanged; `leaf` moves only when
      the list was empty. */
  lemma InsertKeepsLinks(mem: Mem, root: seq<nat>, leaf: seq<nat>, lists: seq<seq<nat>>, h: nat, c: nat)
    requires LinksOK(mem, root, leaf, lists)
    requires h % 2 == 1 && h + 2 < |mem| <= MAX_WORDS && c < NUM && Unlisted(lists, h)
    ensures root[c] + 2 < |mem|
    ensures LinksOK(InsertLinks(mem, h, c, root[c]), root[c := h], PushLeaf(leaf, lists, c, h),
                    PushLists(lists, c, h))
  {
    RootFacts(mem, root, leaf, lists, c);
    var mem2 := InsertLinks(mem, h, c, root[c]);
    var root2 := root[c := h];
    var leaf2 := PushLeaf(leaf, lists, c, h);
    var lists2 := PushLists(lists, c, h);
    forall d | 0 <= d < NUM
      ensures EndsOK(root2, leaf2, lists2, d)
    {
      assert EndsOK(root, leaf, lists, d);
    }
    forall d, k | 0 <= d < NUM && 0 <= k < |lists2[d]|
      ensures EntryLinked(mem2, lists2[d], d, k)
    {
      InsertLinkOK(mem, root, leaf, lists, h, c, d, k);
    }
    PushSeparate(lists, c, h);
  }

  lemma PushSeparate(lists: seq<seq<nat>>, c: nat, h: nat)
    requires Separate(lists) && c < |lists| && Unlisted(lists, h)
    ensures Separate(PushLists(lists, c, h))
  {
    var lists2 := PushLists(lists, c, h);
    assert Distinct(lists[c]);
    PushDistinct(lists[c], h);
    forall c1, c2, x | 0 <= c1 < |lists2| && 0 <= c2 < |lists2| && x in lists2[c1] && x in lists2[c2]
      ensures c1 == c2
    {
      if x == h {
        assert c1 == c && c2 == c;
      } else {
        assert x in lists[c1] && x in lists[c2];
      }
    }
  }

  /** The neighbours of the k-th entry of a list, as its link words give them. */
  lemma NeighbourFacts(mem: Mem, root: seq<nat>, leaf: seq<nat>, lists: seq<seq<nat>>, c: nat, k: nat)
    requires LinksOK(mem, root, leaf, lists) && c < NUM && k < |lists[c]|
    ensures PrevOf(lists[c], k) + 1 < |mem| && NextOf(lists[c], k) + 2 < |mem|
    ensures PrevOf(lists[c], k) == NULL <==> k == 0
    ensures NextOf(lists[c], k) == NULL <==> k == |lists[c]| - 1
  {
    MembersOdd(mem, root, leaf, lists, c, k);
    if k > 0 {
      MembersOdd(mem, root, leaf, lists, c, k - 1);
    }
    if k + 1 < |lists[c]| {
      MembersOdd(mem, root, leaf, lists, c, k + 1);
    }
  }

  /** Cutting out the k-th entry: the entries before keep their positions,
      the ones after move down by one. */
  lemma CutFacts(s: seq<nat>, k: nat)
    requires Distinct(s) && k < |s|
    ensures Remove(s, s[k]) == s[..k] + s[k + 1..]
    ensures |Remove(s, s[k])| == |s| - 1
    ensures forall j :: 0 <= j < k ==> Remove(s, s[k])[j] == s[j]
    ensures forall j :: k <= j < |s| - 1 ==> Remove(s, s[k])[j] == s[j + 1]
  {
    RemoveAt(s, k);
  }

  /** After the deletion, the entries of the other lists keep their link words. */
  lemma DeleteLinkOther(mem: Mem, s: seq<nat>, c: nat, k: nat, t: seq<nat>, d: nat, j: nat)
    requires k < |s| && j < |t| && t[j] !in s && EntryLinked(mem, t, d, j)
    requires PrevOf(s, k) != NULL ==> PrevOf(s, k) % 2 == 1
    requires NextOf(s, k) != NULL ==> NextOf(s, k) % 2 == 1
    requires PrevOf(s, k) + 1 < |mem| <= MAX_WORDS && NextOf(s, k) + 2 < |mem|
    ensures EntryLinked(DeleteLinks(mem, c, PrevOf(s, k), NextOf(s, k)), t, d, j)
  {
    var pv := PrevOf(s, k);
    var nx := NextOf(s, k);
    var x := t[j];
    if pv != NULL {
      Parity(x, pv);
      assert pv in s;
    }
    if nx != NULL {
      Parity(x, nx);
      assert nx in s;
    }
  }

  /** After the deletion, the remaining entries of the list have the link
      words of their new positions. */
  lemma DeleteLinkSame(mem: Mem, s: seq<nat>, c: nat, k: nat, j: nat)
    requires Distinct(s) && k < |s| && j < |s| - 1
    requires forall i :: 0 <= i < |s| ==> EntryLinked(mem, s, c, i)
    requires PrevOf(s, k) + 1 < |mem| <= MAX_WORDS && NextOf(s, k) + 2 < |mem|
    ensures EntryLinked(DeleteLinks(mem, c, PrevOf(s, k), NextOf(s, k)), s[..k] + s[k + 1..], c, j)
  {
    forall i | 0 <= i < |s|
      ensures s[i] % 2 == 1
    {
      assert EntryLinked(mem, s, c, i);
    }
    var j0 := if j < k then j else j + 1;
    assert EntryLinked(mem, s, c, j0);
    DeleteSameWords(mem, s, c, k, j0);
    var s2 := s[..k] + s[k + 1..];
    assert s2[j] == s[j0];
  }

  /** After the deletion, the j-th entry of list d has correct link words. */
  lemma DeleteLinkOK(mem: Mem, root: seq<nat>, leaf: seq<nat>, lists: seq<seq<nat>>, h: nat, c: nat, d: nat, j: nat)
    requires LinksOK(mem, root, leaf, lists) && c < NUM && h in lists[c] && |mem| <= MAX_WORDS
    requires PrevOf(lists[c], IndexOf(lists[c], h)) + 1 < |mem|
    requires NextOf(lists[c], IndexOf(lists[c], h)) + 2 < |mem|
    requires d < NUM && j < |PopLists(lists, c, h)[d]|
    ensures EntryLinked(DeleteLinks(mem, c, PrevOf(lists[c], IndexOf(lists[c], h)), NextOf(lists[c], IndexOf(lists[c], h))),
                        PopLists(lists, c, h)[d], d, j)
  {
    var s := lists[c];
    var k := IndexOf(s, h);
    if k > 0 {
      MembersOdd(mem, root, leaf, lists, c, k - 1);
    }
    if k + 1 < |s| {
      MembersOdd(mem, root, leaf, lists, c, k + 1);
    }
    assert Separate(lists);
    if d != c {
      assert EntryLinked(mem, lists[d], d, j);
      assert lists[d][j] !in s;
      DeleteLinkOther(mem, s, c, k, lists[d], d, j);
    } else {
      CutFacts(s, k);
      assert forall i :: 0 <= i < |s| ==> EntryLinked(mem, s, c, i);
      DeleteLinkSame(mem, s, c, k, j);
    }
  }

  /** An entry of list c other than the k-th gets the link words of its
      position in the list with the k-th entry cut out. */
  lemma DeleteSameWords(mem: Mem, s: seq<nat>, c: nat, k: nat, j0: nat)
    requires Distinct(s) && k < |s| && j0 < |s| && j0 != k
    requires forall i :: 0 <= i < |s| ==> s[i] % 2 == 1
    requires s[j0] + 2 < |mem| && PrevOf(s, k) + 1 < |mem| <= MAX_WORDS && NextOf(s, k) + 2 < |mem|
    requires mem[s[j0] + 1] == NextOf(s, j0)
    requires c != DSIZE_CLASS ==> mem[s[j0] + 2] == PrevOf(s, j0)
    ensures var m := DeleteLinks(mem, c, PrevOf(s, k), NextOf(s, k));
      var s2 := s[..k] + s[k + 1..];
      var j := if j0 < k then j0 else j0 - 1;
      j < |s2| && s2[j] == s[j0] &&
      m[s[j0] + 1] == NextOf(s2, j) &&
      (c != DSIZE_CLASS ==> m[s[j0] + 2] == PrevOf(s2, j))
  {
    var pv := PrevOf(s, k);
    var nx := NextOf(s, k);
    var x := s[j0];
    var s2 := s[..k] + s[k + 1..];
    var j := if j0 < k then j0 else j0 - 1;
    assert |s2| == |s| - 1;
    assert forall i :: 0 <= i < k ==> s2[i] == s[i];
    assert forall i :: k <= i < |s2| ==> s2[i] == s[i + 1];
    if pv != NULL {
      Parity(x, pv);
    }
    if nx != NULL {
      Parity(x, nx);
    }
    if j0 == k - 1 {
      assert x == pv;
      assert NextOf(s2, j) == nx;
    } else {
      assert x != pv;
      assert NextOf(s2, j) == NextOf(s, j0);
    }
    if j0 == k + 1 {
      assert x == nx;
      assert PrevOf(s2, j) == pv;
    } else {
      assert x != nx;
      assert PrevOf(s2, j) == PrevOf(s, j0);
    }
  }

  /** After the deletion, the ends of list d are its new `root` and `leaf`. */
  lemma DeleteEndsOK(mem: Mem, root: seq<nat>, leaf: seq<nat>, lists: seq<seq<nat>>, h: nat, c: nat, d: nat)
    requires LinksOK(mem, root, leaf, lists) && c < NUM && h in lists[c] && d < NUM
    ensures var k := IndexOf(lists[c], h);
      var pv := PrevOf(lists[c], k);
      var nx := NextOf(lists[c], k);
      EndsOK(root[c := if pv == NULL then nx else root[c]],
             leaf[c := if nx == NULL then pv else leaf[c]],
             PopLists(lists, c, h), d)
  {
    var s := lists[c];
    var k := IndexOf(s, h);
    NeighbourFacts(mem, root, leaf, lists, c, k);
    assert EndsOK(root, leaf, lists, d);
    if d == c {
      assert Separate(lists);
      CutFacts(s, k);
      var s2 := PopLists(lists, c, h)[c];
      if k == 0 {
        if |s| > 1 {
          assert s2[0] == s[1];
        }
      } else {
        assert s2[0] == s[0];
      }
      if k == |s| - 1 {
        if k > 0 {
          assert s2[|s2| - 1] == s[k - 1];
        }
      } else {
        assert s2[|s2| - 1] == s[|s| - 1];
      }
    }
  }

  /** Delete: exactly h leaves list c, the other entries keep their order,
      the other lists are unchanged, and `root`/`leaf` move only when h was
      an end of the list. */
  lemma DeleteKeepsLinks(mem: Mem, root: seq<nat>, leaf: seq<nat>, lists: seq<seq<nat>>, h: nat, c: nat)
    requires LinksOK(mem, root, leaf, lists) && c < NUM && h in lists[c] && |mem| <= MAX_WORDS
    ensures var k := IndexOf(lists[c], h);
      PrevOf(lists[c], k) + 1 < |mem| && NextOf(lists[c], k) + 2 < |mem|
    ensures var k := IndexOf(lists[c], h);
      var pv := PrevOf(lists[c], k);
      var nx := NextOf(lists[c], k);
      LinksOK(DeleteLinks(mem, c, pv, nx),
              root[c := if pv == NULL then nx else root[c]],
              leaf[c := if nx == NULL then pv else leaf[c]],
              PopLists(lists, c, h))
  {
    var s := lists[c];
    var k := IndexOf(s, h);
    NeighbourFacts(mem, root, leaf, lists, c, k);
    var pv := PrevOf(s, k);
    var nx := NextOf(s, k);
    var mem2 := DeleteLinks(mem, c, pv, nx);
    var root2 := root[c := if pv == NULL then nx else root[c]];
    var leaf2 := leaf[c := if nx == NULL then pv else leaf[c]];
    var lists2 := PopLists(lists, c, h);
    forall d | 0 <= d < NUM
      ensures EndsOK(root2, leaf2, lists2, d)
    {
      DeleteEndsOK(mem, root, leaf, lists, h, c, d);
    }
    forall d, j | 0 <= d < NUM && 0 <= j < |lists2[d]|
      ensures EntryLinked(mem2, lists2[d], d, j)
    {
      DeleteLinkOK(mem, root, leaf, lists, h, c, d, j);
    }
    PopSeparate(lists, c, h);
  }

  lemma PopSeparate(lists: seq<seq<nat>>, c: nat, h: nat)
    requires Separate(lists) && c < |lists|
    ensures Separate(PopLists(lists, c, h))
  {
    var lists2 := PopLists(lists, c, h);
    assert Distinct(lists[c]);
    RemoveDistinct(lists[c], h);
    RemoveMembers(lists[c], h);
    forall c1, c2, x | 0 <= c1 < |lists2| && 0 <= c2 < |lists2| && x in lists2[c1] && x in lists2[c2]
      ensures c1 == c2
    {
      assert x in lists[c1] && x in lists[c2];
    }
  }

  // ---------------------------------------------------------------------
  // The link writes touch no tag word, and membership bookkeeping.

  /** The words an insertion writes are no tags: h's own link words lie
      inside h, before its footer, and the old root's `prev` word lies inside
      the old root. */
  lemma InsertKeepsTags(mem: Mem, brk: nat, root: seq<nat>, leaf: seq<nat>, blocks: seq<nat>,
                        lists: seq<seq<nat>>, i: nat, c: nat)
    requires Tiled(mem, brk, blocks) && Members(mem, blocks, lists) && LinksOK(mem, root, leaf, lists)
    requires i < |blocks| && FindFreeList(SizeAt(mem, blocks[i])) == c as int
    requires blocks[i] + 2 < |mem|
    ensures root[c] + 2 < |mem|
    ensures SameTags(mem, InsertLinks(mem, blocks[i], c, root[c]), brk, blocks)
  {
    var h := blocks[i];
    RootFacts(mem, root, leaf, lists, c);
    TiledFacts(mem, brk, blocks, i);
    assert BlockOK(mem, brk, blocks, i);
    ClassTotal(SizeAt(mem, h));
    if c != DSIZE_CLASS {
      NonMinimumClassSize(SizeAt(mem, h));
    }
    InteriorNotTag(mem, brk, blocks, i, h + 1);
    if c != DSIZE_CLASS {
      InteriorNotTag(mem, brk, blocks, i, h + 2);
      if root[c] != NULL {
        LinkNotTag(mem, brk, blocks, lists, c, 0);
      }
    }
  }

  /** The words a deletion writes are link words of listed blocks, so no tags. */
  lemma DeleteKeepsTags(mem: Mem, brk: nat, root: seq<nat>, leaf: seq<nat>, blocks: seq<nat>,
                        lists: seq<seq<nat>>, h: nat, c: nat)
    requires Tiled(mem, brk, blocks) && Members(mem, blocks, lists) && LinksOK(mem, root, leaf, lists)
    requires c < NUM && h in lists[c]
    ensures var k := IndexOf(lists[c], h);
      PrevOf(lists[c], k) + 1 < |mem| && NextOf(lists[c], k) + 2 < |mem|
    ensures var k := IndexOf(lists[c], h);
      SameTags(mem, DeleteLinks(mem, c, PrevOf(lists[c], k), NextOf(lists[c], k)), brk, blocks)
  {
    var k := IndexOf(lists[c], h);
    NeighbourFacts(mem, root, leaf, lists, c, k);
    if k > 0 {
      LinkNotTag(mem, brk, blocks, lists, c, k - 1);
    }
    if k + 1 < |lists[c]| {
      LinkNotTag(mem, brk, blocks, lists, c, k + 1);
    }
  }

  /** A free block of class c may join list c. */
  lemma PushMembers(mem: Mem, blocks: seq<nat>, lists: seq<seq<nat>>, c: nat, h: nat)
    requires Members(mem, blocks, lists) && c < NUM
    requires h in blocks && h < |mem| && !AllocAt(mem, h) && FindFreeList(SizeAt(mem, h)) == c as int
    ensures Members(mem, blocks, PushLists(lists, c, h))
  {
    var lists2 := PushLists(lists, c, h);
    forall d, k | 0 <= d < |lists2| && 0 <= k < |lists2[d]|
      ensures MemberOK(mem, blocks, lists2, d, k)
    {
      if d != c {
        assert MemberOK(mem, blocks, lists, d, k);
      } else if k > 0 {
        assert lists2[d][k] == lists[c][k - 1];
        assert MemberOK(mem, blocks, lists, c, k - 1);
      }
    }
  }

  /** Leaving a list keeps the membership conditions. */
  lemma PopMembers(mem: Mem, blocks: seq<nat>, lists: seq<seq<nat>>, c: nat, h: nat)
    requires Members(mem, blocks, lists) && c < NUM
    ensures Members(mem, blocks, PopLists(lists, c, h))
  {
    var lists2 := PopLists(lists, c, h);
    RemoveMembers(lists[c], h);
    forall d, k | 0 <= d < |lists2| && 0 <= k < |lists2[d]|
      ensures MemberOK(mem, blocks, lists2, d, k)
    {
      if d != c {
        assert MemberOK(mem, blocks, lists, d, k);
      } else {
        var x := lists2[d][k];
        assert x in lists[c];
        var k0 := IndexOf(lists[c], x);
        assert MemberOK(mem, blocks, lists, c, k0);
      }
    }
  }

  // ---------------------------------------------------------------------
  // The list routines on the whole allocator state.

  /** The allocator's state apart from the arena's break: the heap words and
      the `root` and `leaf` arrays of the twelve lists. */
  datatype Heap = Heap(mem: Mem, root: seq<nat>, leaf: seq<nat>)

  /** The class of the block whose header is word h. */
  function ClassOf(mem: Mem, h: nat): int
    requires h < |mem|
  {
    FindFreeList(SizeAt(mem, h))
  }

  /** `add_new_free_block`, and `add_dsize_free_block` for class 11: push h
      at the head of the list of its size; `leaf` is set only when the list
      was empty. */
  function Link(s: Heap, h: nat): (r: Heap)
    requires h + 2 < |s.mem| <= MAX_WORDS && |s.root| == NUM && |s.leaf| == NUM
    requires 0 <= ClassOf(s.mem, h) && s.root[ClassOf(s.mem, h)] + 2 < |s.mem|
    ensures |r.mem| == |s.mem| && |r.root| == NUM && |r.leaf| == NUM
  {
    var c := ClassOf(s.mem, h) as nat;
    var r := s.root[c];
    Heap(InsertLinks(s.mem, h, c, r), s.root[c := h], if r == NULL then s.leaf[c := h] else s.leaf)
  }

  /** `delete_block_from_list`, and `delete_dsize_free_block` for class 11:
      unlink h from the list of its size. Its neighbours in the list are
      read off the abstract list (the link words hold the same values). */
  ghost function Unlink(s: Heap, lists: seq<seq<nat>>, h: nat): (r: Heap)
    requires LinksOK(s.mem, s.root, s.leaf, lists) && |s.mem| <= MAX_WORDS && h < |s.mem|
    requires 0 <= ClassOf(s.mem, h) && h in lists[ClassOf(s.mem, h)]
    ensures |r.mem| == |s.mem| && |r.root| == NUM && |r.leaf| == NUM
  {
    var c := ClassOf(s.mem, h) as nat;
    var k := IndexOf(lists[c], h);
    var pv := PrevOf(lists[c], k);
    var nx := NextOf(lists[c], k);
    DeleteKeepsLinks(s.mem, s.root, s.leaf, lists, h, c);
    Heap(DeleteLinks(s.mem, c, pv, nx),
         s.root[c := if pv == NULL then nx else s.root[c]],
         s.leaf[c := if nx == NULL then pv else s.leaf[c]])
  }

  /** The lists after h leaves its class. */
  ghost function Without(mem: Mem, lists: seq<seq<nat>>, h: nat): seq<seq<nat>>
    requires h < |mem| && 0 <= ClassOf(mem, h) && |lists| == NUM
  {
    PopLists(lists, ClassOf(mem, h) as nat, h)
  }

  /** The lists after h joins its class. */
  ghost function With(mem: Mem, lists: seq<seq<nat>>, h: nat): seq<seq<nat>>
    requires h < |mem| && 0 <= ClassOf(mem, h) && |lists| == NUM
  {
    PushLists(lists, ClassOf(mem, h) as nat, h)
  }

  /** Unlinking h keeps every tag, keeps the lists well linked and their
      entries free blocks of their class, and leaves h in no list while
      every other entry stays where it was. */
  lemma UnlinkKeeps(s: Heap, brk: nat, blocks: seq<nat>, lists: seq<seq<nat>>, h: nat)
    requires Tiled(s.mem, brk, blocks) && Members(s.mem, blocks, lists)
    requires LinksOK(s.mem, s.root, s.leaf, lists) && |s.mem| <= MAX_WORDS && h < |s.mem|
    requires 0 <= ClassOf(s.mem, h) && h in lists[ClassOf(s.mem, h)]
    ensures SameTags(s.mem, Unlink(s, lists, h).mem, brk, blocks)
    ensures Tiled(Unlink(s, lists, h).mem, brk, blocks)
    ensures Members(Unlink(s, lists, h).mem, blocks, Without(s.mem, lists, h))
    ensures LinksOK(Unlink(s, lists, h).mem, Unlink(s, lists, h).root, Unlink(s, lists, h).leaf, Without(s.mem, lists, h))
    ensures Unlisted(Without(s.mem, lists, h), h)
    ensures forall d, x :: 0 <= d < NUM && x in lists[d] && x != h ==> x in Without(s.mem, lists, h)[d]
  {
    var c := ClassOf(s.mem, h) as nat;
    var lists2 := Without(s.mem, lists, h);
    var r := Unlink(s, lists, h);
    DeleteKeepsTags(s.mem, brk, s.root, s.leaf, blocks, lists, h, c);
    DeleteKeepsLinks(s.mem, s.root, s.leaf, lists, h, c);
    PopMembers(s.mem, blocks, lists, c, h);
    SameTagsKeep(s.mem, r.mem, brk, blocks, lists2, -1);
    RemoveMembers(lists[c], h);
    forall d | 0 <= d < NUM
      ensures h !in lists2[d]
    {
      if d != c {
        assert Separate(lists);
      }
    }
  }

  /** Linking the free, unlisted block i keeps every tag, and the lists stay
      well linked with block i at the head of the list of its class. */
  lemma LinkKeeps(s: Heap, brk: nat, blocks: seq<nat>, lists: seq<seq<nat>>, i: nat)
    requires Tiled(s.mem, brk, blocks) && Members(s.mem, blocks, lists)
    requires LinksOK(s.mem, s.root, s.leaf, lists) && |s.mem| <= MAX_WORDS
    requires i < |blocks| && !AllocAt(s.mem, blocks[i]) && Unlisted(lists, blocks[i])
    ensures blocks[i] + 2 < |s.mem| && 0 <= ClassOf(s.mem, blocks[i])
    ensures s.root[ClassOf(s.mem, blocks[i])] + 2 < |s.mem|
    ensures SameTags(s.mem, Link(s, blocks[i]).mem, brk, blocks)
    ensures Tiled(Link(s, blocks[i]).mem, brk, blocks)
    ensures Members(Link(s, blocks[i]).mem, blocks, With(s.mem, lists, blocks[i]))
    ensures LinksOK(Link(s, blocks[i]).mem, Link(s, blocks[i]).root, Link(s, blocks[i]).leaf, With(s.mem, lists, blocks[i]))
  {
    var h := blocks[i];
    TiledFacts(s.mem, brk, blocks, i);
    assert BlockOK(s.mem, brk, blocks, i);
    ClassTotal(SizeAt(s.mem, h));
    var c := ClassOf(s.mem, h) as nat;
    RootFacts(s.mem, s.root, s.leaf, lists, c);
    var lists2 := With(s.mem, lists, h);
    InsertKeepsLinks(s.mem, s.root, s.leaf, lists, h, c);
    InsertKeepsTags(s.mem, brk, s.root, s.leaf, blocks, lists, i, c);
    PushMembers(s.mem, blocks, lists, c, h);
    SameTagsKeep(s.mem, Link(s, h).mem, brk, blocks, lists2, -1);
  }
}
