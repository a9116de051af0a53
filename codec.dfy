/**
 * The two-word block header and the size helpers of the segregated-fits
 * allocator (src/my_alloc.c).
 *
 * A machine word is a natural number below 2^64. Because every size and
 * every block address is a multiple of 16, the low four bits of both header
 * words are free for flags: the mask `& 0xf` is `% 16`, the mask `& ~0xf`
 * clears those bits (`w - w % 16`), and bit 0 is `w % 2`.
 */
module HeaderCodec {

  /** An optional block address: None plays the part of NULL. */
  datatype Option<T> = None | Some(value: T)

  const WORD_LIMIT: nat := 0x1_0000_0000_0000_0000

  /** An unsigned 64-bit machine word (size_t, uintptr_t). */
  type Word = x: nat | x < WORD_LIMIT

  /** sizeof(header): two words. */
  const HEADER_SIZE: nat := 16

  /** The header of a block: the size word and the link word. */
  datatype Header = Header(size: Word, nextAdr: Word)

  /** The word with its four flag bits cleared (`w & ~0xf`). */
  function ClearFlags(w: Word): (r: Word)
    ensures r % 16 == 0 && r <= w && w - r < 16
  {
    w - w % 16
  }

  /** Bit 0 of a word. */
  predicate LowBit(w: Word)
  {
    w % 2 == 1
  }

  /** get_block_size: the size bits of the size word. */
  function GetBlockSize(h: Header): (r: Word)
    ensures r % 16 == 0 && r <= h.size && h.size - r < 16
  {
    ClearFlags(h.size)
  }

  /** is_allocated: bit 0 of the size word. */
  predicate IsAllocated(h: Header)
  {
    LowBit(h.size)
  }

  /** get_next_block_ptr: the address bits of the link word. */
  function GetNextBlockPtr(h: Header): (r: Word)
    ensures r % 16 == 0 && r <= h.nextAdr && h.nextAdr - r < 16
  {
    ClearFlags(h.nextAdr)
  }

  /** is_list_end: bit 0 of the link word. */
  predicate IsListEnd(h: Header)
  {
    LowBit(h.nextAdr)
  }

  /** Bit 0 is also bit 0 of the four flag bits. */
  lemma {:induction false} LowBitOfFlags(w: Word)
    ensures w % 2 == (w % 16) % 2
  {
    var q, r := w / 16, w % 16;
    assert w == 2 * (8 * q + r / 2) + r % 2;
  }

  /** A multiple of 16 plus a flag value keeps both apart. */
  lemma {:induction false} SplitWord(hi: Word, lo: nat)
    requires hi % 16 == 0 && lo < 16
    ensures hi + lo < WORD_LIMIT
    ensures (hi + lo) % 16 == lo && ClearFlags(hi + lo) == hi
    ensures (hi + lo) % 2 == lo % 2
  {
    var q := hi / 16;
    assert hi + lo == 16 * q + lo;
    LowBitOfFlags(hi + lo);
  }

  /** Flipping bit 0 moves only the flag bits. */
  lemma {:induction false} FlipLowBitKeepsSizeBits(w: Word, r: Word)
    requires r == w - w % 2 || (w % 2 == 0 && r == w + 1)
    ensures ClearFlags(r) == ClearFlags(w)
    ensures r % 16 == w % 16 - w % 2 + r % 2
  {
    LowBitOfFlags(w);
    var hi, f := ClearFlags(w), w % 16;
    var g: nat := if r == w - w % 2 then f - f % 2 else f + 1;
    assert g < 16 && r == hi + g;
    SplitWord(hi, f);
    SplitWord(hi, g);
  }

  /** `w | 0x1` */
  function SetLowBit(w: Word): (r: Word)
    ensures LowBit(r) && r / 2 == w / 2
    ensures ClearFlags(r) == ClearFlags(w)
  {
    if w % 2 == 1 then w else FlipLowBitKeepsSizeBits(w, w + 1); w + 1
  }

  /** `w & ~0x1` */
  function ClearLowBit(w: Word): (r: Word)
    ensures !LowBit(r) && r / 2 == w / 2
    ensures ClearFlags(r) == ClearFlags(w)
  {
    FlipLowBitKeepsSizeBits(w, w - w % 2);
    w - w % 2
  }

  /** set_block_allocated: sets bit 0 of the size word and nothing else. */
  function SetBlockAllocated(h: Header): (r: Header)
    ensures IsAllocated(r) && r.size / 2 == h.size / 2 && r.nextAdr == h.nextAdr
    ensures GetBlockSize(r) == GetBlockSize(h)
  {
    h.(size := SetLowBit(h.size))
  }

  /** set_block_free: clears bit 0 of the size word and nothing else. */
  function SetBlockFree(h: Header): (r: Header)
    ensures !IsAllocated(r) && r.size / 2 == h.size / 2 && r.nextAdr == h.nextAdr
    ensures GetBlockSize(r) == GetBlockSize(h)
  {
    h.(size := ClearLowBit(h.size))
  }

  /** set_block_list_end: sets bit 0 of the link word and nothing else. */
  function SetBlockListEnd(h: Header): (r: Header)
    ensures IsListEnd(r) && r.nextAdr / 2 == h.nextAdr / 2 && r.size == h.size
    ensures GetNextBlockPtr(r) == GetNextBlockPtr(h)
  {
    h.(nextAdr := SetLowBit(h.nextAdr))
  }

  /** unset_block_list_end: clears bit 0 of the link word and nothing else. */
  function UnsetBlockListEnd(h: Header): (r: Header)
    ensures !IsListEnd(r) && r.nextAdr / 2 == h.nextAdr / 2 && r.size == h.size
    ensures GetNextBlockPtr(r) == GetNextBlockPtr(h)
  {
    h.(nextAdr := ClearLowBit(h.nextAdr))
  }

  /**
   * set_block_size: the size bits become those of `size`, the four flag
   * bits of the size word are kept, the link word is untouched.
   */
  function SetBlockSize(h: Header, size: Word): (r: Header)
    ensures r.size % 16 == h.size % 16 && r.nextAdr == h.nextAdr
    ensures GetBlockSize(r) == ClearFlags(size)
    ensures IsAllocated(r) == IsAllocated(h)
  {
    SplitWord(ClearFlags(size), h.size % 16);
    LowBitOfFlags(h.size);
    h.(size := ClearFlags(size) + h.size % 16)
  }

  /**
   * set_next_block_ptr: the address bits become those of `next`, the four
   * flag bits of the link word (the list-end flag among them) are kept.
   */
  function SetNextBlockPtr(h: Header, next: Word): (r: Header)
    ensures r.nextAdr % 16 == h.nextAdr % 16 && r.size == h.size
    ensures GetNextBlockPtr(r) == ClearFlags(next)
    ensures IsListEnd(r) == IsListEnd(h)
  {
    SplitWord(ClearFlags(next), h.nextAdr % 16);
    LowBitOfFlags(h.nextAdr);
    h.(nextAdr := ClearFlags(next) + h.nextAdr % 16)
  }

  /**
   * get_aligned_size: adds the header and rounds up to a multiple of 16,
   * in size_t arithmetic (both additions wrap modulo 2^64).
   */
  function GetAlignedSize(req: Word): (r: Word)
    ensures req <= WORD_LIMIT - 32 ==>
              r % 16 == 0 && req + HEADER_SIZE <= r < req + HEADER_SIZE + 16
    ensures req <= WORD_LIMIT - 32 ==> (r == req + HEADER_SIZE <==> (req + HEADER_SIZE) % 16 == 0)
  {
    var withHeader := (req + HEADER_SIZE) % WORD_LIMIT;
    if withHeader % 16 > 0 then ClearFlags((withHeader + 0x10) % WORD_LIMIT) else withHeader
  }

  /** The largest request that get_aligned_size maps to 16 because of the wrap-around. */
  lemma AlignedSizeWraps()
    ensures GetAlignedSize(WORD_LIMIT - 1) == HEADER_SIZE
    ensures GetAlignedSize(WORD_LIMIT - 17) == 0
  {
  }

  /** get_return_ptr: the payload starts right after the header. */
  function GetReturnPtr(block: nat): nat
  {
    block + HEADER_SIZE
  }

  /** get_block_ptr: the header sits right before the payload. */
  function GetBlockPtr(p: nat): nat
    requires p >= HEADER_SIZE
  {
    p - HEADER_SIZE
  }

  /** my_free recovers, from the pointer my_alloc returned, the block it came from, and back. */
  lemma {:induction false} PayloadRoundTrip(block: nat, p: nat)
    requires p >= HEADER_SIZE
    ensures GetReturnPtr(block) >= HEADER_SIZE && GetBlockPtr(GetReturnPtr(block)) == block
    ensures GetReturnPtr(GetBlockPtr(p)) == p
  {
  }

  /** Storing an aligned address in a link word and reading it back gives the address. */
  lemma {:induction false} NextBlockPtrRoundTrip(h: Header, next: Word)
    requires next % 16 == 0
    ensures GetNextBlockPtr(SetNextBlockPtr(h, next)) == next
  {
  }

  /** Storing an aligned size and reading it back gives the size. */
  lemma {:induction false} BlockSizeRoundTrip(h: Header, size: Word)
    requires size % 16 == 0
    ensures GetBlockSize(SetBlockSize(h, size)) == size
  {
  }

  /** The difference of two multiples of 16 is one. */
  lemma {:induction false} AlignedDifference(a: nat, b: nat)
    requires a % 16 == 0 && b % 16 == 0 && b <= a
    ensures (a - b) % 16 == 0
  {
    assert a - b == 16 * (a / 16 - b / 16);
  }

  /** The sum of two multiples of 16 is one. */
  lemma {:induction false} AlignedSum(a: nat, b: nat)
    requires a % 16 == 0 && b % 16 == 0
    ensures (a + b) % 16 == 0
  {
    assert a + b == 16 * (a / 16 + b / 16);
  }

  /** Re-setting the size of a header to its own size changes nothing. */
  lemma {:induction false} SetOwnSizeIsIdentity(h: Header)
    ensures SetBlockSize(h, GetBlockSize(h)) == h
  {
  }

  /** The address a possibly-NULL block pointer stores in a link word. */
  function AddressOrNull(p: Option<Word>): (w: Word)
    ensures p.Some? ==> w == p.value
    ensures p.None? ==> w == 0
  {
    match p
    case None => 0
    case Some(a) => a
  }

  /** The block that follows in the list: NULL at a list end, the link address otherwise. */
  function ListSuccessor(h: Header): (next: Option<Word>)
    ensures next.None? <==> IsListEnd(h)
    ensures next.Some? ==> next.value == GetNextBlockPtr(h)
  {
    if IsListEnd(h) then None else Some(GetNextBlockPtr(h))
  }

  /**
   * The link word insert_block gives the block it pushes, exactly as written:
   * the old head's address goes into the link word (keeping its flag bits)
   * and the list-end flag is set only when the bucket was empty. A flag left
   * over from an earlier list is never cleared.
   */
  function PushLinkAsWritten(h: Header, head: Option<Word>): (r: Header)
    ensures r.size == h.size
    ensures GetNextBlockPtr(r) == ClearFlags(AddressOrNull(head))
    ensures head.Some? ==> r.nextAdr % 16 == h.nextAdr % 16
    ensures head.None? ==> IsListEnd(r)
  {
    var linked := SetNextBlockPtr(h, AddressOrNull(head));
    if head.None? then SetBlockListEnd(linked) else linked
  }

  /**
   * As written, the pushed block ends its list whenever the bucket was empty
   * OR its link word still carried a list-end flag: in the second case the
   * old contents of the bucket become unreachable from its head.
   */
  lemma {:induction false} PushLinkAsWrittenKeepsStaleEnd(h: Header, head: Option<Word>)
    ensures IsListEnd(PushLinkAsWritten(h, head)) <==> (head.None? || IsListEnd(h))
  {
  }

  /** A concrete instance: a former list tail pushed onto the non-empty bucket headed at 32. */
  lemma StaleEndTruncatesBucket()
    ensures IsListEnd(Header(0x30, 1)) && IsListEnd(PushLinkAsWritten(Header(0x30, 1), Some(32)))
  {
    PushLinkAsWrittenKeepsStaleEnd(Header(0x30, 1), Some(32));
  }

  /**
   * The link word insert_block is meant to give the pushed block: the old
   * head's address, with the list-end flag set exactly when there is no old
   * head.
   */
  function PushLink(h: Header, head: Option<Word>): (r: Header)
    ensures r.size == h.size
    ensures IsListEnd(r) <==> head.None?
    ensures head.Some? && head.value % 16 == 0 ==> GetNextBlockPtr(r) == head.value
  {
    var linked := SetNextBlockPtr(h, AddressOrNull(head));
    if head.None? then SetBlockListEnd(linked) else UnsetBlockListEnd(linked)
  }
}
