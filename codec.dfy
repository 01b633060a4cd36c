/** The boundary-tag codec of the allocator.
    A header (or footer) is one 64-bit word: bits 4..63 hold the block size in
    bytes (always a multiple of 16), bit 2 says that the previous block is a
    16-byte block, bit 1 that the previous block is allocated and bit 0 that
    this block is allocated.

    A word is an integer in [0, 2^64). The source's masks all lie in the low
    four bits, so `w & ~0xF` is `w - w % 16`, and an OR or AND-NOT with a
    mask below 16 changes only the low four bits, which are handled here as
    a `bv4` with the source's own mask constants. */
module Codec {

  const WORD_LIMIT: int := 0x1_0000_0000_0000_0000

  /** A 64-bit machine word (`word_t`, `size_t`). */
  type Word = x: int | 0 <= x < WORD_LIMIT

  /** Word and header size in bytes. */
  const WSIZE: nat := 8
  /** Double word size in bytes: the alignment and the minimum block size. */
  const DSIZE: nat := 16
  const MIN_BLOCK_SIZE: nat := 16
  /** Bytes added to the heap by a default extension. */
  const CHUNKSIZE: nat := 16384

  const ALLOC_MASK: bv4 := 0x1
  const PREV_ALLOC_MASK: bv4 := 0x2
  const DSIZE_MASK: bv4 := 0x4

  /** The low four bits of a word. */
  function Flags(w: Word): bv4 {
    (w % 16) as bv4
  }

  /** `w & size_mask`, where `size_mask == ~0xF`. */
  function ExtractSize(w: Word): (s: Word)
    ensures s % 16 == 0 && s <= w < s + 16
  {
    w - w % 16
  }

  /** The word with its size field kept and its low four bits replaced by `f`. */
  function WithFlags(w: Word, f: bv4): Word {
    ExtractSize(w) + f as int
  }

  /** `w | m` for a mask `m` inside the low four bits. */
  function SetBits(w: Word, m: bv4): Word {
    WithFlags(w, Flags(w) | m)
  }

  /** `w & ~m` for a mask `m` inside the low four bits. */
  function ClearBits(w: Word, m: bv4): Word {
    WithFlags(w, Flags(w) & !m)
  }

  /** `w & alloc_mask`: is the block allocated? */
  function ExtractAlloc(w: Word): bool {
    Flags(w) & ALLOC_MASK != 0
  }

  /** `w & prev_alloc_mask`: is the previous block allocated? */
  function ExtractPrevAlloc(w: Word): bool {
    Flags(w) & PREV_ALLOC_MASK != 0
  }

  /** `w & dsize_mask`: is the previous block a 16-byte block? */
  function ExtractPrevDsize(w: Word): bool {
    Flags(w) & DSIZE_MASK != 0
  }

  /** `my_pack`: OR the three status bits into the size. */
  function Pack(size: Word, prevDsize: bool, prevAlloc: bool, alloc: bool): Word {
    var t3: bv4 := if prevDsize then DSIZE_MASK else 0;
    var t2: bv4 := if prevAlloc then PREV_ALLOC_MASK else 0;
    var t1: bv4 := if alloc then ALLOC_MASK else 0;
    SetBits(SetBits(SetBits(size, t3), t2), t1)
  }

  /** The four fields a header word stands for. */
  datatype Tag = Tag(size: nat, prevDsize: bool, prevAlloc: bool, alloc: bool)

  function Decode(w: Word): (t: Tag)
    ensures t.size % 16 == 0 && t.size <= w < t.size + 16
  {
    Tag(ExtractSize(w), ExtractPrevDsize(w), ExtractPrevAlloc(w), ExtractAlloc(w))
  }

  /** A tag the codec can represent: a size that is a multiple of 16 and fits a word. */
  predicate Encodable(t: Tag) {
    t.size % 16 == 0 && t.size < WORD_LIMIT
  }

  function Encode(t: Tag): Word
    requires Encodable(t)
  {
    Pack(t.size, t.prevDsize, t.prevAlloc, t.alloc)
  }

  /** Replacing the low four bits keeps the size and yields exactly those bits. */
  lemma WithFlagsFields(w: Word, f: bv4)
    ensures ExtractSize(WithFlags(w, f)) == ExtractSize(w)
    ensures Flags(WithFlags(w, f)) == f
  {
    var n := f as int;
    assert 0 <= n < 16;
    assert WithFlags(w, f) % 16 == n;
    assert (n as bv4) == f;
  }

  /** Codec round trip: packing a multiple of 16 and three bits and decoding
      gives back the size and each bit. */
  lemma PackRoundTrip(size: Word, prevDsize: bool, prevAlloc: bool, alloc: bool)
    requires size % 16 == 0
    ensures ExtractSize(Pack(size, prevDsize, prevAlloc, alloc)) == size
    ensures ExtractAlloc(Pack(size, prevDsize, prevAlloc, alloc)) == alloc
    ensures ExtractPrevAlloc(Pack(size, prevDsize, prevAlloc, alloc)) == prevAlloc
    ensures ExtractPrevDsize(Pack(size, prevDsize, prevAlloc, alloc)) == prevDsize
  {
    var t3: bv4 := if prevDsize then DSIZE_MASK else 0;
    var t2: bv4 := if prevAlloc then PREV_ALLOC_MASK else 0;
    var t1: bv4 := if alloc then ALLOC_MASK else 0;
    var w1 := SetBits(size, t3);
    var w2 := SetBits(w1, t2);
    WithFlagsFields(size, Flags(size) | t3);
    WithFlagsFields(w1, Flags(w1) | t2);
    WithFlagsFields(w2, Flags(w2) | t1);
    assert Flags(size) == 0;
  }

  /** Decoding an encoded tag gives the tag back. */
  lemma DecodeEncode(t: Tag)
    requires Encodable(t)
    ensures Decode(Encode(t)) == t
  {
    PackRoundTrip(t.size, t.prevDsize, t.prevAlloc, t.alloc);
  }

  /** A word is the encoding of its decoding exactly when bit 3, which the
      codec never uses, is clear. */
  lemma EncodeDecode(w: Word)
    ensures Encodable(Decode(w))
    ensures Encode(Decode(w)) == w <==> Flags(w) & 0x8 == 0
  {
    var t := Decode(w);
    var size := ExtractSize(w);
    var t3: bv4 := if t.prevDsize then DSIZE_MASK else 0;
    var t2: bv4 := if t.prevAlloc then PREV_ALLOC_MASK else 0;
    var t1: bv4 := if t.alloc then ALLOC_MASK else 0;
    var w1 := SetBits(size, t3);
    var w2 := SetBits(w1, t2);
    WithFlagsFields(size, Flags(size) | t3);
    WithFlagsFields(w1, Flags(w1) | t2);
    WithFlagsFields(w2, Flags(w2) | t1);
    assert Flags(size) == 0 by {
      assert size % 16 == 0;
    }
    var p := Encode(t);
    assert ExtractSize(p) == ExtractSize(w);
    assert Flags(p) == t3 | t2 | t1;
    assert Flags(p) == Flags(w) & 0x7;
    assert p == ExtractSize(p) + Flags(p) as int;
    assert w == ExtractSize(w) + Flags(w) as int;
    if Flags(w) & 0x8 == 0 {
      assert Flags(w) & 0x7 == Flags(w);
    } else {
      assert Flags(p) != Flags(w);
    }
  }

  /** Setting one status bit keeps the size and every other bit. */
  lemma SetBitsFields(w: Word, m: bv4)
    ensures ExtractSize(SetBits(w, m)) == ExtractSize(w)
    ensures Flags(SetBits(w, m)) == Flags(w) | m
  {
    WithFlagsFields(w, Flags(w) | m);
  }

  /** Clearing one status bit keeps the size and every other bit. */
  lemma ClearBitsFields(w: Word, m: bv4)
    ensures ExtractSize(ClearBits(w, m)) == ExtractSize(w)
    ensures Flags(ClearBits(w, m)) == Flags(w) & !m
  {
    WithFlagsFields(w, Flags(w) & !m);
  }

  /** `header | prev_alloc_mask`: marks the previous block allocated and
      changes nothing else in the header. */
  lemma SetPrevAllocFacts(w: Word)
    ensures Decode(SetBits(w, PREV_ALLOC_MASK)) == Decode(w).(prevAlloc := true)
  {
    SetBitsFields(w, PREV_ALLOC_MASK);
  }

  /** `header & ~prev_alloc_mask`: marks the previous block free and changes
      nothing else in the header. */
  lemma ClearPrevAllocFacts(w: Word)
    ensures Decode(ClearBits(w, PREV_ALLOC_MASK)) == Decode(w).(prevAlloc := false)
  {
    ClearBitsFields(w, PREV_ALLOC_MASK);
  }

  /** `header | dsize_mask`: records that the previous block is 16 bytes. */
  lemma SetPrevDsizeFacts(w: Word)
    ensures Decode(SetBits(w, DSIZE_MASK)) == Decode(w).(prevDsize := true)
  {
    SetBitsFields(w, DSIZE_MASK);
  }

  /** `header & ~dsize_mask`: records that the previous block is not 16 bytes. */
  lemma ClearPrevDsizeFacts(w: Word)
    ensures Decode(ClearBits(w, DSIZE_MASK)) == Decode(w).(prevDsize := false)
  {
    ClearBitsFields(w, DSIZE_MASK);
  }

  /** The sentinel word `my_pack(0, false, true, true)` is 0x3. */
  lemma SentinelWord()
    ensures Pack(0, false, true, true) == 3
  {
    WithFlagsFields(0, PREV_ALLOC_MASK);
    WithFlagsFields(2, Flags(2) | ALLOC_MASK);
  }
}
