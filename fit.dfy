/** The block `find_fit` chooses, as a function of the free lists: classes
    are tried from the request's own class towards class 0 (larger blocks);
    the 16-byte class yields its head; any other class is walked from its
    leaf along the `prev` links, i.e. oldest entry first. */
module FitModel {
  import opened Codec
  import opened Sizes
  import opened FreeLists
  import opened HeapModel

  /** The condition `find_fit` tests on each block it visits (a visited
      block is never NULL). */
  predicate Fits(mem: Mem, h: nat, asize: nat) {
    h != NULL && h < |mem| && !AllocAt(mem, h) && SizeAt(mem, h) >= asize
  }

  /** The position of the last entry of s that fits, or -1. */
  function LastFit(mem: Mem, s: seq<nat>, asize: nat): (k: int)
    ensures -1 <= k < |s|
    ensures k >= 0 ==> Fits(mem, s[k], asize)
    ensures forall j :: k < j < |s| ==> !Fits(mem, s[j], asize)
  {
    if |s| == 0 then -1
    else if Fits(mem, s[|s| - 1], asize) then |s| - 1
    else LastFit(mem, s[..|s| - 1], asize)
  }

  /** The block `find_fit` returns when it starts at class idx, or NULL. */
  function FitFrom(mem: Mem, lists: seq<seq<nat>>, asize: nat, idx: int): (b: nat)
    requires |lists| == NUM && idx < NUM as int
    ensures b == NULL && idx >= DSIZE_CLASS as int ==> Head(lists[DSIZE_CLASS]) == NULL
    ensures b == NULL ==> forall c, j :: 0 <= c <= idx && c != DSIZE_CLASS as int && 0 <= j < |lists[c]| ==>
                            !Fits(mem, lists[c][j], asize)
    ensures b != NULL ==> exists c :: 0 <= c <= idx && b in lists[c] &&
                            (c != DSIZE_CLASS as int ==> Fits(mem, b, asize))
    decreases idx + 1
  {
    if idx < 0 then NULL
    else if idx == DSIZE_CLASS as int then
      var t := Head(lists[idx]);
      if t != NULL then t else FitFrom(mem, lists, asize, idx - 1)
    else
      var k := LastFit(mem, lists[idx], asize);
      if k >= 0 then lists[idx][k] else FitFrom(mem, lists, asize, idx - 1)
  }

  /** `find_fit(asize)`. */
  function FindFitSpec(mem: Mem, lists: seq<seq<nat>>, asize: nat): nat
    requires |lists| == NUM
  {
    FitFrom(mem, lists, asize, FindFreeList(asize))
  }

  /** Soundness: a block found is a listed free block of at least the
      requested size, from the request's class or a class of larger blocks. */
  lemma FindFitSound(mem: Mem, blocks: seq<nat>, lists: seq<seq<nat>>, asize: nat)
    requires Members(mem, blocks, lists)
    requires FindFitSpec(mem, lists, asize) != NULL
    ensures var b := FindFitSpec(mem, lists, asize);
      b in blocks && Fits(mem, b, asize) &&
      0 <= FindFreeList(SizeAt(mem, b)) <= FindFreeList(asize) &&
      b in lists[FindFreeList(SizeAt(mem, b))]
  {
    var b := FindFitSpec(mem, lists, asize);
    var c :| 0 <= c <= FindFreeList(asize) && b in lists[c] && (c != DSIZE_CLASS as int ==> Fits(mem, b, asize));
    var k := IndexOf(lists[c], b);
    assert MemberOK(mem, blocks, lists, c, k);
    if c == DSIZE_CLASS as int {
      assert SizeAt(mem, b) == DSIZE;
      assert FindFreeList(asize) == DSIZE_CLASS as int;
    }
  }

  /** Completeness over the visited classes: when nothing is found, no entry
      of a visited class fits, and the 16-byte class, if visited, is empty. */
  lemma FindFitNullVisited(mem: Mem, brk: nat, blocks: seq<nat>, lists: seq<seq<nat>>, asize: nat, c: nat, x: nat)
    requires Tiled(mem, brk, blocks) && Members(mem, blocks, lists) && FindFitSpec(mem, lists, asize) == NULL
    requires c as int <= FindFreeList(asize) && x in lists[c]
    ensures !Fits(mem, x, asize)
  {
    var j := IndexOf(lists[c], x);
    if c == DSIZE_CLASS {
      assert MemberOK(mem, blocks, lists, c, 0);
      var i := IndexOf(blocks, lists[c][0]);
      TiledFacts(mem, brk, blocks, i);
    }
  }

  /** When `find_fit` finds nothing, no free block of the heap fits, for
      every block size except 128 bytes. */
  lemma FindFitNullComplete(mem: Mem, brk: nat, blocks: seq<nat>, lists: seq<seq<nat>>, asize: nat, i: nat)
    requires Tiled(mem, brk, blocks) && Members(mem, blocks, lists) && Complete(mem, brk, blocks, lists)
    requires ValidBlockSize(asize) && asize != 128
    requires FindFitSpec(mem, lists, asize) == NULL
    requires i < |blocks|
    ensures !Fits(mem, blocks[i], asize)
  {
    var x := blocks[i];
    assert BlockOK(mem, brk, blocks, i);
    if !AllocAt(mem, x) {
      assert Listed(mem, brk, blocks, lists, i);
      var cx := FindFreeList(SizeAt(mem, x));
      ClassTotal(asize);
      if cx <= FindFreeList(asize) {
        FindFitNullVisited(mem, brk, blocks, lists, asize, cx as nat, x);
      } else {
        SkippedClassesTooSmall(asize, SizeAt(mem, x));
      }
    }
  }

  /** The search for 128 bytes starts at class 7 and never visits class 8:
      with a single free 144-byte block, listed in class 8, it finds nothing
      although that block fits. */
  lemma FindFitMisses144()
    ensures var mem: Mem := [3, 144 + 2, 0, 0];
      var lists := [[], [], [], [], [], [], [], [], [1], [], [], []];
      Fits(mem, 1, 128) && FindFitSpec(mem, lists, 128) == NULL
  {
    var mem: Mem := [3, 144 + 2, 0, 0];
    var lists: seq<seq<nat>> := [[], [], [], [], [], [], [], [], [1], [], [], []];
    assert ExtractSize(146) == 144;
    assert Flags(146) == 2;
    assert FindFreeList(128) == 7;
    assert forall c :: 0 <= c <= 7 ==> lists[c] == [];
  }
}
