/** Small shared wrapper: an optional value. */
module Options {
  datatype Option<+T> = None | Some(value: T)
}

/** Size arithmetic: rounding a request to a block size and mapping a block
    size to one of the twelve segregated free lists. */
module Sizes {
  import opened Codec
  import opened Options

  /** Number of segregated free lists. */
  const NUM: nat := 12
  /** The free list reserved for 16-byte blocks. */
  const DSIZE_CLASS: nat := NUM - 1

  /** `max`. */
  function Max(x: nat, y: nat): (m: nat)
    ensures m >= x && m >= y
    ensures m == x || m == y
  {
    if x > y then x else y
  }

  /** `my_round_up` on unbounded integers: 16 for sizes up to 16, else the
      next multiple of `n`. */
  function RoundUp(size: nat, n: nat): nat
    requires n > 0
  {
    if size <= DSIZE then DSIZE else n * ((size + (n - 1)) / n)
  }

  /** Rounding to 16 gives the least multiple of 16 that is at least the
      size and at least 16. */
  lemma RoundUpSpec(size: nat)
    ensures RoundUp(size, DSIZE) % 16 == 0
    ensures RoundUp(size, DSIZE) >= size && RoundUp(size, DSIZE) >= DSIZE
    ensures size <= DSIZE ==> RoundUp(size, DSIZE) == DSIZE
    ensures forall m: nat :: m % 16 == 0 && m >= size && m >= DSIZE ==> RoundUp(size, DSIZE) <= m
  {
    if size > DSIZE {
      var q := (size + 15) / 16;
      assert RoundUp(size, DSIZE) == 16 * q;
      assert 16 * q <= size + 15 < 16 * q + 16;
      forall m: nat | m % 16 == 0 && m >= size && m >= DSIZE
        ensures 16 * q <= m
      {
        var k := m / 16;
        assert m == 16 * k;
        assert 16 * q < 16 * k + 16;
      }
    }
  }

  /** A request is adjustable when its rounded block size still fits a
      64-bit word: `size + wsize` rounded up to 16 is at most 2^64 - 16. */
  predicate Adjustable(size: Word) {
    size + WSIZE + (DSIZE - 1) < WORD_LIMIT
  }

  /** The adjusted block size `my_round_up(size + wsize, dsize)` of a
      `malloc` request, or None when it does not fit a 64-bit word. */
  function AdjustedSize(size: Word): (r: Option<nat>)
    ensures r.Some? <==> Adjustable(size)
  {
    if Adjustable(size) then Some(RoundUp(size + WSIZE, DSIZE)) else None
  }

  /** The adjusted size is a multiple of 16, at least 16, leaves room for the
      header and is the least such size. */
  lemma AdjustedSizeSpec(size: Word)
    requires Adjustable(size)
    ensures AdjustedSize(size).value % 16 == 0
    ensures AdjustedSize(size).value >= MIN_BLOCK_SIZE
    ensures AdjustedSize(size).value >= size + WSIZE
    ensures AdjustedSize(size).value < size + WSIZE + DSIZE
    ensures AdjustedSize(size).value < WORD_LIMIT
  {
    RoundUpSpec(size + WSIZE);
    if size + WSIZE > DSIZE {
      var q := (size + WSIZE + 15) / 16;
      assert 16 * q <= size + WSIZE + 15;
    }
  }

  /** `my_round_up` as the source computes it, in 64-bit `size_t`
      arithmetic where sums and products wrap around. */
  function RoundUpWord(size: Word, n: Word): Word
    requires n > 0
  {
    if size <= DSIZE then DSIZE
    else (n * (((size + (n - 1)) % WORD_LIMIT) / n)) % WORD_LIMIT
  }

  /** `asize = my_round_up(size + wsize, dsize)` as written in `malloc`. */
  function AdjustedSizeAsWritten(size: Word): Word {
    RoundUpWord((size + WSIZE) % WORD_LIMIT, DSIZE)
  }

  /** For every request whose rounded size fits, the source's 64-bit
      computation agrees with the exact one. */
  lemma AdjustedSizeAsWrittenAgrees(size: Word)
    requires Adjustable(size)
    ensures AdjustedSizeAsWritten(size) == AdjustedSize(size).value
  {
    AdjustedSizeSpec(size);
    var s := size + WSIZE;
    assert (size + WSIZE) % WORD_LIMIT == s;
    if s > DSIZE {
      assert (s + 15) % WORD_LIMIT == s + 15;
      var q := (s + 15) / 16;
      assert 16 * q <= s + 15;
      assert (16 * q) % WORD_LIMIT == 16 * q;
    }
  }

  /** The source's 64-bit computation wraps for the largest requests: a
      request of 2^64 - 1 bytes gets a 16-byte block and a request of
      2^64 - 9 bytes gets a block size of 0. */
  lemma AdjustedSizeAsWrittenWraps()
    ensures AdjustedSizeAsWritten(WORD_LIMIT - 1) == 16
    ensures AdjustedSizeAsWritten(WORD_LIMIT - 9) == 0
    ensures !Adjustable(WORD_LIMIT - 1) && !Adjustable(WORD_LIMIT - 9)
  {
    assert (WORD_LIMIT - 1 + WSIZE) % WORD_LIMIT == 7;
    assert (WORD_LIMIT - 9 + WSIZE) % WORD_LIMIT == WORD_LIMIT - 1;
    assert (WORD_LIMIT - 1 + 15) % WORD_LIMIT == 14;
  }

  /** `find_free_list`: the free list for a block of `size` bytes, with
      `chunksize >> k` written as `CHUNKSIZE / 2^k`. Classes 0..6 are the
      ranges above 256, 7 is exactly 128, 8 is 64..255 except 128, 9, 10 and
      11 are exactly 48, 32 and 16 bytes; anything else gives -1. */
  function FindFreeList(size: nat): (c: int)
    ensures -1 <= c < NUM as int
    ensures c == DSIZE_CLASS as int <==> size == DSIZE
    ensures c == 0 <==> size >= CHUNKSIZE
    ensures c == -1 <==> size < 64 && size != 16 && size != 32 && size != 48
  {
    if size >= CHUNKSIZE then 0
    else if size >= CHUNKSIZE / 2 then 1
    else if size >= CHUNKSIZE / 4 then 2
    else if size >= CHUNKSIZE / 8 then 3
    else if size >= CHUNKSIZE / 16 then 4
    else if size >= CHUNKSIZE / 32 then 5
    else if size >= CHUNKSIZE / 64 then 6
    else if size == CHUNKSIZE / 128 then 7
    else if size >= CHUNKSIZE / 256 then 8
    else if size == CHUNKSIZE / 256 - DSIZE then 9
    else if size == CHUNKSIZE / 256 - 2 * DSIZE then 10
    else if size == CHUNKSIZE / 256 - 3 * DSIZE then 11
    else -1
  }

  /** A block size the heap can hold: a positive multiple of 16. */
  predicate ValidBlockSize(size: nat) {
    size >= MIN_BLOCK_SIZE && size % 16 == 0
  }

  /** Classification is total over block sizes: every positive multiple of
      16 has a class in 0..11. */
  lemma ClassTotal(size: nat)
    requires ValidBlockSize(size)
    ensures 0 <= FindFreeList(size) < NUM as int
  {
    if size < 64 {
      assert size == 16 || size == 32 || size == 48;
    }
  }

  /** Every block outside the 16-byte class is at least 32 bytes. */
  lemma NonMinimumClassSize(size: nat)
    requires ValidBlockSize(size) && FindFreeList(size) != DSIZE_CLASS as int
    ensures size >= 2 * DSIZE
  {
  }

  /** The smallest size a class holds. */
  function ClassFloor(c: nat): nat
    requires c < NUM
  {
    if c <= 6 then CHUNKSIZE / Pow2(c)
    else if c == 7 then 128
    else if c == 8 then 64
    else 16 * (12 - c)
  }

  function Pow2(k: nat): (r: nat)
    ensures r >= 1
  {
    if k == 0 then 1 else 2 * Pow2(k - 1)
  }

  /** Every size in class c is at least that class's floor, and a class
      below 7 holds only sizes below the floor of the class above it. */
  lemma ClassBounds(size: nat)
    requires ValidBlockSize(size)
    ensures 0 <= FindFreeList(size) < NUM as int
    ensures size >= ClassFloor(FindFreeList(size) as nat)
    ensures 1 <= FindFreeList(size) <= 6 ==> size < ClassFloor(FindFreeList(size) as nat - 1)
  {
    ClassTotal(size);
    assert Pow2(0) == 1 && Pow2(1) == 2 && Pow2(2) == 4 && Pow2(3) == 8;
    assert Pow2(4) == 16 && Pow2(5) == 32 && Pow2(6) == 64;
  }

  /** The classes with a larger index than the class of `asize` hold only
      blocks smaller than `asize`, except when `asize` is 128: then class 8
      holds blocks of 144..255 bytes that `find_fit` never visits. */
  lemma SkippedClassesTooSmall(asize: nat, size: nat)
    requires ValidBlockSize(asize) && ValidBlockSize(size)
    requires FindFreeList(size) > FindFreeList(asize)
    requires asize != 128
    ensures size < asize
  {
    ClassTotal(asize);
    ClassTotal(size);
    if size >= 64 {
      assert asize > 64;
      if FindFreeList(asize) <= 6 {
        assert asize >= 256;
      }
    }
  }

  /** The one gap: a 144-byte block fits a 128-byte request but lies in
      class 8, above the class 7 where the search for 128 bytes starts. */
  lemma ClassGapAt128()
    ensures FindFreeList(128) == 7 && FindFreeList(144) == 8
    ensures ValidBlockSize(144) && 144 > 128
  {
  }

  /** The classification with class 7 read as `size >= chunksize >> 7`, as
      the neighbouring tests are: class 7 is then 128..255 bytes and class 8
      is 64..127. It differs from `FindFreeList` only on 144..255. */
  function IntendedFreeList(size: nat): (c: int)
    ensures -1 <= c < NUM as int
    ensures c == FindFreeList(size) <==> !(128 < size < 256)
  {
    if 128 <= size < 256 then 7 else FindFreeList(size)
  }

  /** With the intended classes the search has no gap: every class with a
      larger index than the class of `asize` holds only smaller blocks. */
  lemma IntendedSkippedTooSmall(asize: nat, size: nat)
    requires ValidBlockSize(asize) && ValidBlockSize(size)
    requires IntendedFreeList(size) > IntendedFreeList(asize)
    ensures size < asize
  {
    ClassTotal(asize);
    ClassTotal(size);
    if size >= 64 {
      assert asize > 64;
      if IntendedFreeList(asize) <= 6 {
        assert asize >= 256;
      } else {
        assert IntendedFreeList(asize) == 7 && asize >= 128 && size < 128;
      }
    }
  }
}
