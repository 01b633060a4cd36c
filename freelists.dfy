/** The abstract view of one segregated free list: the sequence of its block
    headers from `root` (index 0) to `leaf` (last index). NULL is 0, which is
    never a block (word 0 of the heap is the prologue). */
module FreeLists {

  const NULL: nat := 0

  /** No block appears twice in a list. */
  ghost predicate Distinct(s: seq<nat>) {
    forall i, j :: 0 <= i < j < |s| ==> s[i] != s[j]
  }

  /** `root[c]`: the first block, or NULL. */
  function Head(s: seq<nat>): nat {
    if |s| == 0 then NULL else s[0]
  }

  /** `leaf[c]`: the last block, or NULL. */
  function Last(s: seq<nat>): nat {
    if |s| == 0 then NULL else s[|s| - 1]
  }

  /** The `next` link of the k-th block: its follower towards the leaf. */
  function NextOf(s: seq<nat>, k: nat): nat
    requires k < |s|
  {
    if k + 1 < |s| then s[k + 1] else NULL
  }

  /** The `prev` link of the k-th block: its follower towards the root. */
  function PrevOf(s: seq<nat>, k: nat): nat
    requires k < |s|
  {
    if k > 0 then s[k - 1] else NULL
  }

  /** Reference definition of removal: keep every entry except `x`. */
  function Remove(s: seq<nat>, x: nat): (r: seq<nat>)
    ensures |r| <= |s|
  {
    if |s| == 0 then []
    else if s[0] == x then Remove(s[1..], x)
    else [s[0]] + Remove(s[1..], x)
  }

  /** The position of `x` in a list that holds it. */
  function IndexOf(s: seq<nat>, x: nat): (k: nat)
    requires x in s
    ensures k < |s| && s[k] == x
    ensures forall j :: 0 <= j < k ==> s[j] != x
  {
    if s[0] == x then 0 else 1 + IndexOf(s[1..], x)
  }

  /** Removing an entry that is not there changes nothing. */
  lemma {:induction false} RemoveAbsent(s: seq<nat>, x: nat)
    requires x !in s
    ensures Remove(s, x) == s
  {
    if |s| > 0 {
      assert s == [s[0]] + s[1..];
      RemoveAbsent(s[1..], x);
    }
  }

  /** In a list without duplicates, removing the k-th entry is cutting it
      out: everything before it and everything after it stay, in order. */
  lemma {:induction false} RemoveAt(s: seq<nat>, k: nat)
    requires Distinct(s) && k < |s|
    ensures Remove(s, s[k]) == s[..k] + s[k + 1..]
  {
    if k == 0 {
      assert s[1..] == s[k + 1..];
      assert s[k] !in s[1..];
      RemoveAbsent(s[1..], s[k]);
    } else {
      assert s[1..][k - 1] == s[k];
      RemoveAt(s[1..], k - 1);
      assert s[..k] == [s[0]] + s[1..][..k - 1];
      assert s[1..][k..] == s[k + 1..];
    }
  }

  /** Removal keeps exactly the other entries. */
  lemma {:induction false} RemoveMembers(s: seq<nat>, x: nat)
    ensures forall y :: y in Remove(s, x) <==> y in s && y != x
  {
    if |s| > 0 {
      RemoveMembers(s[1..], x);
      assert forall y :: y in s <==> y == s[0] || y in s[1..];
    }
  }

  /** Removal keeps a list free of duplicates. */
  lemma {:induction false} RemoveDistinct(s: seq<nat>, x: nat)
    requires Distinct(s)
    ensures Distinct(Remove(s, x))
  {
    if |s| > 0 {
      RemoveDistinct(s[1..], x);
      RemoveMembers(s[1..], x);
      if s[0] != x {
        var r := Remove(s[1..], x);
        assert s[0] !in r;
        assert forall j :: 0 <= j < |r| ==> ([s[0]] + r)[j + 1] == r[j];
      }
    }
  }

  /** Insertion at the head keeps a list free of duplicates when the new block
      was not in it. */
  lemma PushDistinct(s: seq<nat>, x: nat)
    requires Distinct(s) && x !in s
    ensures Distinct([x] + s)
  {
    forall i, j | 0 <= i < j < |[x] + s|
      ensures ([x] + s)[i] != ([x] + s)[j]
    {
      if i > 0 {
        assert ([x] + s)[i] == s[i - 1];
      }
      assert ([x] + s)[j] == s[j - 1];
    }
  }
}
