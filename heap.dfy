/**
 * The heap memory of the allocator and the invariants that tie its header
 * words to two abstract views: the sequence of blocks that tiles the heap
 * in address order, and the contents of the 60 free lists.
 *
 * Addresses are byte addresses below HEAP_LIMIT, all multiples of 16; the
 * heap runs from the break heap_init found to heap_end. The memory holds
 * one header per 16-byte granule that has ever been written; a granule
 * never written reads as a zero header.
 */
module HeapModel {
  import opened HeaderCodec
  import opened SizeClass
  import opened BlockLayout

  /**
   * The model's address space: the extension primitive never lets the heap
   * pass 2^63 bytes, so every block size and address has bit 63 clear.
   */
  const HEAP_LIMIT: nat := 0x8000_0000_0000_0000

  /** sizeof(header) + sizeof(void *): the smallest remainder split_block carves off. */
  const MIN_SPLIT_REMAINDER: nat := 24

  type Memory = map<nat, Header>

  function Load(mem: Memory, a: nat): Header
  {
    if a in mem then mem[a] else Header(0, 0)
  }

  function SizeAt(mem: Memory, a: nat): Word
  {
    GetBlockSize(Load(mem, a))
  }

  predicate AllocatedAt(mem: Memory, a: nat)
  {
    IsAllocated(Load(mem, a))
  }

  // ---------------------------------------------------------------------
  // The tiling: blocks follow each other without gap from base to end.

  /**
   * The blocks from address `a` on: each starts where the previous one ends,
   * holds at least a header, and the last one ends at `end`. This is the walk
   * coalesce_heap makes with get_next_block_ptr_seq.
   */
  ghost predicate Chain(mem: Memory, blocks: seq<nat>, a: nat, end: nat)
    decreases |blocks|
  {
    if blocks == [] then a == end
    else blocks[0] == a && SizeAt(mem, a) >= HEADER_SIZE && Chain(mem, blocks[1..], a + SizeAt(mem, a), end)
  }

  /** The heap from `base` to `end` is exactly the blocks of `blocks`, in address order. */
  ghost predicate Tiling(mem: Memory, blocks: seq<nat>, base: nat, end: nat)
  {
    base % 16 == 0 && end % 16 == 0 && base <= end < HEAP_LIMIT && Chain(mem, blocks, base, end)
  }

  /** The same chain, stated block by block. */
  ghost predicate Linked(mem: Memory, blocks: seq<nat>, a: nat, end: nat)
  {
    (forall i :: 0 <= i < |blocks| ==> SizeAt(mem, blocks[i]) >= HEADER_SIZE) &&
    (blocks == [] ==> a == end) &&
    (blocks != [] ==> blocks[0] == a && Last(blocks) + SizeAt(mem, Last(blocks)) == end) &&
    (forall i, j :: 0 <= i && j == i + 1 && j < |blocks| ==> blocks[j] == blocks[i] + SizeAt(mem, blocks[i]))
  }

  ghost predicate Tiled(mem: Memory, blocks: seq<nat>, base: nat, end: nat)
  {
    base % 16 == 0 && end % 16 == 0 && base <= end < HEAP_LIMIT && Linked(mem, blocks, base, end)
  }

  lemma {:induction false} ChainIsLinked(mem: Memory, blocks: seq<nat>, a: nat, end: nat)
    ensures Chain(mem, blocks, a, end) <==> Linked(mem, blocks, a, end)
  {
    if Chain(mem, blocks, a, end) {
      ChainToLinked(mem, blocks, a, end);
    }
    if Linked(mem, blocks, a, end) {
      LinkedToChain(mem, blocks, a, end);
    }
  }

  lemma {:induction false} ChainToLinked(mem: Memory, blocks: seq<nat>, a: nat, end: nat)
    requires Chain(mem, blocks, a, end)
    ensures Linked(mem, blocks, a, end)
    decreases |blocks|
  {
    if blocks != [] {
      var rest := blocks[1..];
      ChainToLinked(mem, rest, a + SizeAt(mem, a), end);
      if rest != [] {
        assert Last(rest) == Last(blocks);
      }
      forall i, j | 0 <= i && j == i + 1 && j < |blocks|
        ensures blocks[j] == blocks[i] + SizeAt(mem, blocks[i])
      {
        if i > 0 {
          assert blocks[j] == rest[j - 1] && blocks[i] == rest[i - 1];
        }
      }
      forall i | 0 <= i < |blocks|
        ensures SizeAt(mem, blocks[i]) >= HEADER_SIZE
      {
        if i > 0 {
          assert blocks[i] == rest[i - 1];
        }
      }
    }
  }

  lemma {:induction false} LinkedToChain(mem: Memory, blocks: seq<nat>, a: nat, end: nat)
    requires Linked(mem, blocks, a, end)
    ensures Chain(mem, blocks, a, end)
    decreases |blocks|
  {
    if blocks != [] {
      var rest := blocks[1..];
      var a' := a + SizeAt(mem, a);
      if rest != [] {
        assert Last(rest) == Last(blocks);
      }
      forall i, j | 0 <= i && j == i + 1 && j < |rest|
        ensures rest[j] == rest[i] + SizeAt(mem, rest[i])
      {
        assert rest[j] == blocks[j + 1] && rest[i] == blocks[i + 1];
      }
      forall i | 0 <= i < |rest|
        ensures SizeAt(mem, rest[i]) >= HEADER_SIZE
      {
        assert rest[i] == blocks[i + 1];
      }
      if rest != [] {
        assert blocks[1] == blocks[0] + SizeAt(mem, blocks[0]);
      }
      LinkedToChain(mem, rest, a', end);
    }
  }

  lemma TilingIsTiled(mem: Memory, blocks: seq<nat>, base: nat, end: nat)
    ensures Tiling(mem, blocks, base, end) <==> Tiled(mem, blocks, base, end)
  {
    ChainIsLinked(mem, blocks, base, end);
  }

  lemma {:induction false} TilingOrdered(mem: Memory, blocks: seq<nat>, base: nat, end: nat, i: nat, j: nat)
    requires Tiled(mem, blocks, base, end) && i < j < |blocks|
    ensures blocks[i] + SizeAt(mem, blocks[i]) <= blocks[j]
    decreases j - i
  {
    if i + 1 < j {
      TilingOrdered(mem, blocks, base, end, i, j - 1);
    }
  }

  lemma {:induction false} TilingWithin(mem: Memory, blocks: seq<nat>, base: nat, end: nat, i: nat)
    requires Tiled(mem, blocks, base, end) && i < |blocks|
    ensures base <= blocks[i] && blocks[i] + SizeAt(mem, blocks[i]) <= end
  {
    if 0 < i {
      TilingOrdered(mem, blocks, base, end, 0, i);
    }
    if i < |blocks| - 1 {
      TilingOrdered(mem, blocks, base, end, i, |blocks| - 1);
    }
  }

  /** Blocks start on 16-byte boundaries: the base does and every size is a multiple of 16. */
  lemma {:induction false} TilingAligned(mem: Memory, blocks: seq<nat>, base: nat, end: nat, i: nat)
    requires Tiled(mem, blocks, base, end) && i < |blocks|
    ensures blocks[i] % 16 == 0
  {
    if i > 0 {
      TilingAligned(mem, blocks, base, end, i - 1);
      assert blocks[i] == blocks[i - 1] + SizeAt(mem, blocks[i - 1]);
      AlignedSum(blocks[i - 1], SizeAt(mem, blocks[i - 1]));
    }
  }

  /** Every block of the heap is an aligned machine address whose size has a bucket. */
  lemma {:induction false} BlockHasClass(mem: Memory, blocks: seq<nat>, base: nat, end: nat, b: nat)
    requires Tiling(mem, blocks, base, end) && b in blocks
    ensures b % 16 == 0 && HEADER_SIZE <= SizeAt(mem, b) && b + SizeAt(mem, b) <= end < HEAP_LIMIT
    ensures SizeClassIndex(SizeAt(mem, b)) < SIZE_CLASS_COUNT
    ensures b in mem
  {
    TilingIsTiled(mem, blocks, base, end);
    var i :| 0 <= i < |blocks| && blocks[i] == b;
    TilingWithin(mem, blocks, base, end, i);
    TilingAligned(mem, blocks, base, end, i);
    SizeClassInRange(SizeAt(mem, b));
  }

  /** Blocks are disjoint, in address order, and lie between base and end. */
  lemma {:induction false} TilingFacts(mem: Memory, blocks: seq<nat>, base: nat, end: nat)
    requires Tiled(mem, blocks, base, end)
    ensures forall i, j :: 0 <= i < j < |blocks| ==> blocks[i] + SizeAt(mem, blocks[i]) <= blocks[j]
    ensures forall i :: 0 <= i < |blocks| ==> base <= blocks[i] && blocks[i] + SizeAt(mem, blocks[i]) <= end
  {
    forall i, j | 0 <= i < j < |blocks|
      ensures blocks[i] + SizeAt(mem, blocks[i]) <= blocks[j]
    {
      TilingOrdered(mem, blocks, base, end, i, j);
    }
    forall i | 0 <= i < |blocks|
      ensures base <= blocks[i] && blocks[i] + SizeAt(mem, blocks[i]) <= end
    {
      TilingWithin(mem, blocks, base, end, i);
    }
  }

  /** The tiling only depends on the sizes of its blocks. */
  lemma {:induction false} TilingFrame(mem: Memory, mem': Memory, blocks: seq<nat>, base: nat, end: nat)
    requires Tiling(mem, blocks, base, end)
    requires forall i :: 0 <= i < |blocks| ==> SizeAt(mem', blocks[i]) == SizeAt(mem, blocks[i])
    ensures Tiling(mem', blocks, base, end)
  {
    TilingIsTiled(mem, blocks, base, end);
    if blocks != [] {
      assert SizeAt(mem', Last(blocks)) == SizeAt(mem, Last(blocks));
    }
    TilingIsTiled(mem', blocks, base, end);
  }

  /** No other block starts inside block j, so a split of block j leaves them alone. */
  lemma {:induction false} SplitLeavesOtherBlocks(mem: Memory, mem': Memory, blocks: seq<nat>, base: nat, end: nat, j: nat, req: nat)
    requires Tiling(mem, blocks, base, end) && j < |blocks|
    requires 0 < req < SizeAt(mem, blocks[j])
    requires forall x :: x != blocks[j] && x != blocks[j] + req ==> Load(mem', x) == Load(mem, x)
    ensures forall i :: 0 <= i < |blocks| && i != j ==> SizeAt(mem', blocks[i]) == SizeAt(mem, blocks[i])
  {
    TilingIsTiled(mem, blocks, base, end);
    forall i | 0 <= i < |blocks| && i != j
      ensures SizeAt(mem', blocks[i]) == SizeAt(mem, blocks[i])
    {
      if i < j {
        TilingOrdered(mem, blocks, base, end, i, j);
      } else {
        TilingOrdered(mem, blocks, base, end, j, i);
      }
    }
  }

  /** The blocks after block j is carved at offset `req`. */
  function SplitAt(blocks: seq<nat>, j: nat, req: nat): (r: seq<nat>)
    requires j < |blocks|
    ensures |r| == |blocks| + 1 && r[j] == blocks[j] && r[j + 1] == blocks[j] + req
  {
    blocks[..j + 1] + [blocks[j] + req] + blocks[j + 1..]
  }

  /** Entry i after the split: the old entry before the new block, the one before it after. */
  lemma {:induction false} SplitAtIndex(blocks: seq<nat>, j: nat, req: nat, i: nat)
    requires j < |blocks| && i <= |blocks|
    ensures SplitAt(blocks, j, req)[i] ==
              if i <= j then blocks[i] else if i == j + 1 then blocks[j] + req else blocks[i - 1]
  {
  }

  /** Carving block j into `req` bytes and a new block right after it keeps the tiling. */
  lemma {:induction false} SplitKeepsTiling(mem: Memory, mem': Memory, blocks: seq<nat>, base: nat, end: nat, j: nat, req: nat)
    requires Tiling(mem, blocks, base, end) && j < |blocks|
    requires req % 16 == 0 && HEADER_SIZE <= req && req + HEADER_SIZE <= SizeAt(mem, blocks[j])
    requires SizeAt(mem', blocks[j]) == req
    requires SizeAt(mem', blocks[j] + req) == SizeAt(mem, blocks[j]) - req
    requires forall i :: 0 <= i < |blocks| && i != j ==> SizeAt(mem', blocks[i]) == SizeAt(mem, blocks[i])
    ensures Tiling(mem', SplitAt(blocks, j, req), base, end)
  {
    TilingIsTiled(mem, blocks, base, end);
    var blocks' := SplitAt(blocks, j, req);
    forall i | 0 <= i < |blocks'|
      ensures SizeAt(mem', blocks'[i]) >= HEADER_SIZE
    {
      SplitAtIndex(blocks, j, req, i);
    }
    forall i, k | 0 <= i && k == i + 1 && k < |blocks'|
      ensures blocks'[k] == blocks'[i] + SizeAt(mem', blocks'[i])
    {
      SplitAtIndex(blocks, j, req, i);
      SplitAtIndex(blocks, j, req, k);
    }
    SplitAtIndex(blocks, j, req, |blocks|);
    TilingIsTiled(mem', SplitAt(blocks, j, req), base, end);
  }

  /** No block of the heap starts strictly inside another one. */
  lemma {:induction false} NoBlockInside(mem: Memory, blocks: seq<nat>, base: nat, end: nat, j: nat, x: nat)
    requires Tiling(mem, blocks, base, end) && j < |blocks|
    requires blocks[j] < x < blocks[j] + SizeAt(mem, blocks[j])
    ensures x !in blocks
  {
    TilingIsTiled(mem, blocks, base, end);
    if x in blocks {
      var i :| 0 <= i < |blocks| && blocks[i] == x;
      if i < j {
        TilingOrdered(mem, blocks, base, end, i, j);
      } else if i > j {
        TilingOrdered(mem, blocks, base, end, j, i);
      }
    }
  }

  /**
   * The two header writes of split_block: block b is cut down to `req`
   * bytes and the header right after it gets the remaining size; nothing
   * else changes.
   */
  lemma {:induction false} CarveWrites(mem: Memory, mem1: Memory, mem': Memory, b: nat, req: Word)
    requires b in mem && req % 16 == 0 && HEADER_SIZE <= req && req + HEADER_SIZE <= SizeAt(mem, b)
    requires mem1 == mem[b := SetBlockSize(Load(mem, b), req)]
    requires mem' == mem1[b + req := SetBlockSize(Load(mem1, b + req), SizeAt(mem, b) - req)]
    ensures forall x :: x != b && x != b + req ==> Load(mem', x) == Load(mem, x)
    ensures SizeAt(mem', b) == req && AllocatedAt(mem', b) == AllocatedAt(mem, b)
    ensures SizeAt(mem', b + req) == SizeAt(mem, b) - req
    ensures b + req in mem'
  {
    AlignedDifference(SizeAt(mem, b), req);
    BlockSizeRoundTrip(Load(mem, b), req);
    BlockSizeRoundTrip(Load(mem1, b + req), SizeAt(mem, b) - req);
  }

  /**
   * split_block up to the insertion of the new block: block j, free and in
   * no list, is cut down to `req` bytes and a header for the remaining bytes
   * is written right after it. The heap is still tiled, now by one more
   * block, the buckets are untouched, and the allocated map is the same.
   */
  lemma {:induction false} SplitKeepsHeap(mem: Memory, mem': Memory, heads: seq<Option<Word>>, lists: seq<seq<Word>>,
                                          blocks: seq<nat>, base: nat, end: nat, j: nat, req: Word)
    requires Tiling(mem, blocks, base, end) && BucketArray(mem, heads, lists, blocks)
    requires j < |blocks| && Unlisted(lists, blocks[j]) && !AllocatedAt(mem, blocks[j])
    requires req % 16 == 0 && HEADER_SIZE <= req && req + HEADER_SIZE <= SizeAt(mem, blocks[j])
    requires forall x :: x != blocks[j] && x != blocks[j] + req ==> Load(mem', x) == Load(mem, x)
    requires SizeAt(mem', blocks[j]) == req && !AllocatedAt(mem', blocks[j])
    requires SizeAt(mem', blocks[j] + req) == SizeAt(mem, blocks[j]) - req
    ensures Tiling(mem', SplitAt(blocks, j, req), base, end)
    ensures BucketArray(mem', heads, lists, SplitAt(blocks, j, req))
    ensures Unlisted(lists, blocks[j] + req) && blocks[j] + req < end
    ensures LiveOf(mem', SplitAt(blocks, j, req)) - {blocks[j] + req} == LiveOf(mem, blocks)
  {
    var b := blocks[j];
    var blocks' := SplitAt(blocks, j, req);
    BlockHasClass(mem, blocks, base, end, b);
    NoBlockInside(mem, blocks, base, end, j, b + req);
    SplitLeavesOtherBlocks(mem, mem', blocks, base, end, j, req);
    SplitKeepsTiling(mem, mem', blocks, base, end, j, req);
    forall x | x in blocks && x != b
      ensures x in blocks'
    {
      var i :| 0 <= i < |blocks| && blocks[i] == x;
      SplitAtIndex(blocks, j, req, if i <= j then i else i + 1);
    }
    assert blocks'[j] == b;
    forall a | a in blocks' && a != b + req
      ensures a in blocks
    {
      var i :| 0 <= i < |blocks'| && blocks'[i] == a;
      SplitAtIndex(blocks, j, req, i);
    }
    BucketArrayIsBuckets(mem, heads, lists, blocks);
    forall c, x | 0 <= c < SIZE_CLASS_COUNT && x in lists[c]
      ensures Load(mem', x) == Load(mem, x) && x in blocks' && x != b + req
    {
    }
    BucketsFrame(mem, mem', heads, lists, blocks, blocks');
    BucketArrayIsBuckets(mem', heads, lists, blocks');
    LiveWithNewBlock(mem, mem', blocks, blocks', b, b + req);
  }

  /** split_block's two header writes, as the allocator performs them, keep the heap invariants. */
  lemma {:induction false} CarveKeepsHeap(mem: Memory, mem1: Memory, mem': Memory, heads: seq<Option<Word>>,
                                          lists: seq<seq<Word>>, blocks: seq<nat>, base: nat, end: nat, j: nat, req: Word)
    requires Tiling(mem, blocks, base, end) && BucketArray(mem, heads, lists, blocks)
    requires j < |blocks| && blocks[j] in mem && Unlisted(lists, blocks[j]) && !AllocatedAt(mem, blocks[j])
    requires req % 16 == 0 && HEADER_SIZE <= req && req + HEADER_SIZE <= SizeAt(mem, blocks[j])
    requires mem1 == mem[blocks[j] := SetBlockSize(Load(mem, blocks[j]), req)]
    requires mem' == mem1[blocks[j] + req := SetBlockSize(Load(mem1, blocks[j] + req), SizeAt(mem, blocks[j]) - req)]
    ensures Tiling(mem', SplitAt(blocks, j, req), base, end)
    ensures BucketArray(mem', heads, lists, SplitAt(blocks, j, req))
    ensures Unlisted(lists, blocks[j] + req) && blocks[j] + req < end
    ensures SizeAt(mem', blocks[j]) == req && !AllocatedAt(mem', blocks[j])
    ensures SizeAt(mem', blocks[j] + req) == SizeAt(mem, blocks[j]) - req
    ensures LiveOf(mem', SplitAt(blocks, j, req)) - {blocks[j] + req} == LiveOf(mem, blocks)
    ensures mem' == mem[blocks[j] := Load(mem', blocks[j])][blocks[j] + req := Load(mem', blocks[j] + req)]
  {
    CarveWrites(mem, mem1, mem', blocks[j], req);
    SplitKeepsHeap(mem, mem', heads, lists, blocks, base, end, j, req);
  }

  /** Absorbing block j + 1 into block j keeps the tiling. */
  lemma MergeKeepsTiling(mem: Memory, mem': Memory, blocks: seq<nat>, base: nat, end: nat, j: nat)
    requires Tiling(mem, blocks, base, end) && j + 1 < |blocks|
    requires SizeAt(mem', blocks[j]) == SizeAt(mem, blocks[j]) + SizeAt(mem, blocks[j + 1])
    requires forall x :: x != blocks[j] ==> Load(mem', x) == Load(mem, x)
    ensures Tiling(mem', blocks[..j + 1] + blocks[j + 2..], base, end)
  {
    ChainMerge(mem, mem', blocks, base, end, j);
  }


  /** A chain never runs backwards: it starts at or below its end, strictly below when it has a block. */
  lemma {:induction false} ChainBelow(mem: Memory, blocks: seq<nat>, a: nat, end: nat)
    requires Chain(mem, blocks, a, end)
    ensures a <= end && (blocks != [] ==> a < end)
    decreases |blocks|
  {
    if blocks != [] {
      ChainBelow(mem, blocks[1..], a + SizeAt(mem, a), end);
    }
  }

  /** Every block of a chain starts at or above the chain's start. */
  lemma {:induction false} ChainAbove(mem: Memory, blocks: seq<nat>, a: nat, end: nat, i: nat)
    requires Chain(mem, blocks, a, end) && i < |blocks|
    ensures a <= blocks[i]
    decreases i
  {
    if i > 0 {
      ChainAbove(mem, blocks[1..], a + SizeAt(mem, a), end, i - 1);
    }
  }

  /** A write below the start of a chain leaves the chain alone. */
  lemma {:induction false} ChainFrameAbove(mem: Memory, mem': Memory, blocks: seq<nat>, a: nat, end: nat, b: nat)
    requires Chain(mem, blocks, a, end) && b < a
    requires forall x :: x != b ==> Load(mem', x) == Load(mem, x)
    ensures Chain(mem', blocks, a, end)
    decreases |blocks|
  {
    if blocks != [] {
      assert Load(mem', a) == Load(mem, a);
      ChainFrameAbove(mem, mem', blocks[1..], a + SizeAt(mem, a), end, b);
    }
  }

  /** Giving block j the size of blocks j and j + 1 together fuses them in the chain. */
  lemma {:induction false} ChainMerge(mem: Memory, mem': Memory, blocks: seq<nat>, a: nat, end: nat, j: nat)
    requires Chain(mem, blocks, a, end) && j + 1 < |blocks|
    requires SizeAt(mem', blocks[j]) == SizeAt(mem, blocks[j]) + SizeAt(mem, blocks[j + 1])
    requires forall x :: x != blocks[j] ==> Load(mem', x) == Load(mem, x)
    ensures Chain(mem', blocks[..j + 1] + blocks[j + 2..], a, end)
    decreases j
  {
    var rest := blocks[1..];
    var a' := a + SizeAt(mem, a);
    if j == 0 {
      var a'' := a' + SizeAt(mem, rest[0]);
      ChainFrameAbove(mem, mem', rest[1..], a'', end, a);
      assert rest[1..] == blocks[2..];
      assert (blocks[..1] + blocks[2..])[1..] == blocks[2..];
    } else {
      ChainAbove(mem, rest, a', end, j - 1);
      ChainMerge(mem, mem', rest, a', end, j - 1);
      assert Load(mem', a) == Load(mem, a);
      assert (blocks[..j + 1] + blocks[j + 2..])[1..] == rest[..j] + rest[j + 1..];
    }
  }

  /** A block written at the end of a chain extends it, when no header of the chain changed. */
  lemma {:induction false} ChainAppend(mem: Memory, mem': Memory, blocks: seq<nat>, a: nat, end: nat, size: nat)
    requires Chain(mem, blocks, a, end)
    requires HEADER_SIZE <= size && SizeAt(mem', end) == size
    requires forall x :: x != end ==> Load(mem', x) == Load(mem, x)
    ensures Chain(mem', blocks + [end], a, end + size)
    decreases |blocks|
  {
    if blocks == [] {
      assert Chain(mem', [], end + size, end + size);
      assert blocks + [end] == [end] && [end][1..] == [];
    } else {
      var a' := a + SizeAt(mem, a);
      ChainBelow(mem, blocks, a, end);
      ChainAppend(mem, mem', blocks[1..], a', end, size);
      assert (blocks + [end])[1..] == blocks[1..] + [end];
      assert Load(mem', a) == Load(mem, a);
    }
  }

  /** A new block at the end of the heap extends the tiling. */
  lemma {:induction false} AppendKeepsTiling(mem: Memory, mem': Memory, blocks: seq<nat>, base: nat, end: nat, size: nat)
    requires Tiling(mem, blocks, base, end)
    requires size % 16 == 0 && HEADER_SIZE <= size && end + size < HEAP_LIMIT
    requires SizeAt(mem', end) == size
    requires forall x :: x != end ==> Load(mem', x) == Load(mem, x)
    ensures Tiling(mem', blocks + [end], base, end + size)
  {
    ChainAppend(mem, mem', blocks, base, end, size);
    AlignedSum(end, size);
  }

  // ---------------------------------------------------------------------
  // What coalesce_heap sees of the heap, and which blocks are allocated.

  /** The blocks of the heap, in address order, with their sizes and flags. */
  ghost function LayoutOf(mem: Memory, blocks: seq<nat>): (l: seq<Blk>)
  {
    seq(|blocks|, i requires 0 <= i < |blocks| => Blk(SizeAt(mem, blocks[i]), AllocatedAt(mem, blocks[i])))
  }

  /** The allocated blocks of the heap: address to size. */
  ghost function LiveOf(mem: Memory, blocks: seq<nat>): (live: map<nat, nat>)
  {
    map a | a in blocks && AllocatedAt(mem, a) :: SizeAt(mem, a) as nat
  }

  /** Writing one header changes the allocated map at most at that address. */
  lemma {:induction false} LiveAfterWrite(mem: Memory, mem': Memory, blocks: seq<nat>, b: nat)
    requires forall x :: x != b ==> Load(mem', x) == Load(mem, x)
    ensures !AllocatedAt(mem', b) ==> LiveOf(mem', blocks) == LiveOf(mem, blocks) - {b}
    ensures AllocatedAt(mem', b) && b in blocks ==> LiveOf(mem', blocks) == LiveOf(mem, blocks)[b := SizeAt(mem', b)]
    ensures AllocatedAt(mem', b) == AllocatedAt(mem, b) && SizeAt(mem', b) == SizeAt(mem, b) ==>
              LiveOf(mem', blocks) == LiveOf(mem, blocks)
  {
  }

  /** The same allocated blocks with the same sizes make the same allocated map. */
  lemma {:induction false} LiveSame(mem: Memory, blocks: seq<nat>, mem': Memory, blocks': seq<nat>)
    requires forall a :: a in blocks' && AllocatedAt(mem', a) ==> a in blocks && AllocatedAt(mem, a)
    requires forall a :: a in blocks && AllocatedAt(mem, a) ==>
               a in blocks' && AllocatedAt(mem', a) && SizeAt(mem', a) == SizeAt(mem, a)
    ensures LiveOf(mem', blocks') == LiveOf(mem, blocks)
  {
  }

  /**
   * A header rewritten at a free block that stays free, plus a new block:
   * apart from the new block, the allocated map is the same.
   */
  lemma {:induction false} LiveWithNewBlock(mem: Memory, mem': Memory, blocks: seq<nat>, blocks': seq<nat>, b: nat, nb: nat)
    requires forall a :: a in blocks' && a != nb ==> a in blocks
    requires forall a :: a in blocks ==> a in blocks'
    requires nb !in blocks
    requires forall a :: a != b && a != nb ==> Load(mem', a) == Load(mem, a)
    requires !AllocatedAt(mem, b) && !AllocatedAt(mem', b)
    ensures LiveOf(mem', blocks') - {nb} == LiveOf(mem, blocks)
  {
    assert forall a :: a in LiveOf(mem', blocks') - {nb} <==> a in LiveOf(mem, blocks);
  }

  /** Writing a header that keeps its size and flag leaves the layout as it was. */
  lemma {:induction false} LayoutAfterWrite(mem: Memory, mem': Memory, blocks: seq<nat>, b: nat)
    requires forall x :: x != b ==> Load(mem', x) == Load(mem, x)
    requires SizeAt(mem', b) == SizeAt(mem, b) && AllocatedAt(mem', b) == AllocatedAt(mem, b)
    ensures LayoutOf(mem', blocks) == LayoutOf(mem, blocks)
  {
    assert forall i :: 0 <= i < |blocks| ==> LayoutOf(mem', blocks)[i] == LayoutOf(mem, blocks)[i];
  }

  /** Absorbing block j + 1 into block j, as the layout sees it. */
  lemma {:induction false} MergeLayout(mem: Memory, mem': Memory, blocks: seq<nat>, base: nat, end: nat, j: nat)
    requires Tiling(mem, blocks, base, end) && j + 1 < |blocks|
    requires SizeAt(mem', blocks[j]) == SizeAt(mem, blocks[j]) + SizeAt(mem, blocks[j + 1])
    requires AllocatedAt(mem', blocks[j]) == AllocatedAt(mem, blocks[j])
    requires forall x :: x != blocks[j] ==> Load(mem', x) == Load(mem, x)
    ensures LayoutOf(mem', blocks[..j + 1] + blocks[j + 2..]) ==
              LayoutOf(mem, blocks)[..j] +
              [Blk(SizeAt(mem, blocks[j]) + SizeAt(mem, blocks[j + 1]), AllocatedAt(mem, blocks[j]))] +
              LayoutOf(mem, blocks)[j + 2..]
  {
    TilingIsTiled(mem, blocks, base, end);
    var blocks' := blocks[..j + 1] + blocks[j + 2..];
    var l := LayoutOf(mem, blocks);
    var r := l[..j] + [Blk(SizeAt(mem, blocks[j]) + SizeAt(mem, blocks[j + 1]), AllocatedAt(mem, blocks[j]))] + l[j + 2..];
    forall i | 0 <= i < |blocks'|
      ensures LayoutOf(mem', blocks')[i] == r[i]
    {
      if i < j {
        TilingOrdered(mem, blocks, base, end, i, j);
        assert blocks'[i] == blocks[i];
      } else if i > j {
        TilingOrdered(mem, blocks, base, end, j, i + 1);
        assert blocks'[i] == blocks[i + 1];
      }
    }
  }

  /** The free blocks among the first n blocks. */
  ghost function FreeBefore(mem: Memory, blocks: seq<nat>, n: nat): set<nat>
    requires n <= |blocks|
  {
    set i | 0 <= i < n && !AllocatedAt(mem, blocks[i]) :: blocks[i]
  }

  lemma {:induction false} FreeBeforeStep(mem: Memory, blocks: seq<nat>, n: nat)
    requires n < |blocks|
    ensures FreeBefore(mem, blocks, n + 1) ==
              FreeBefore(mem, blocks, n) + if AllocatedAt(mem, blocks[n]) then {} else {blocks[n]}
  {
  }

  /** FreeBefore only looks at the first n blocks and at their flags. */
  lemma {:induction false} FreeBeforeFrame(mem: Memory, blocks: seq<nat>, mem': Memory, blocks': seq<nat>, n: nat)
    requires n <= |blocks| && n <= |blocks'| && blocks[..n] == blocks'[..n]
    requires forall i :: 0 <= i < n ==> AllocatedAt(mem', blocks[i]) == AllocatedAt(mem, blocks[i])
    ensures FreeBefore(mem', blocks', n) == FreeBefore(mem, blocks, n)
  {
    forall i | 0 <= i < n
      ensures blocks'[i] == blocks[i]
    {
      assert blocks[..n][i] == blocks[i];
    }
  }

  // ---------------------------------------------------------------------
  // The free lists.

  /**
   * `xs` is the list that starts at `head` and follows the link words:
   * every node but the last links to the next one and does not carry the
   * list-end flag; the last one carries it.
   */
  ghost predicate IsList(mem: Memory, head: Option<Word>, xs: seq<Word>)
  {
    (head.None? <==> xs == []) &&
    (head.Some? ==> head.value == xs[0]) &&
    (forall i :: 0 <= i < |xs| - 1 ==>
       !IsListEnd(Load(mem, xs[i])) && GetNextBlockPtr(Load(mem, xs[i])) == xs[i + 1]) &&
    (xs != [] ==> IsListEnd(Load(mem, Last(xs))))
  }

  ghost predicate Distinct(xs: seq<Word>)
  {
    forall i, j :: 0 <= i < j < |xs| ==> xs[i] != xs[j]
  }

  ghost predicate Unlisted(lists: seq<seq<Word>>, b: nat)
  {
    forall c :: 0 <= c < |lists| ==> b !in lists[c]
  }

  /** The blocks in some free list. */
  ghost function Listed(lists: seq<seq<Word>>): set<nat>
  {
    set c, x | 0 <= c < |lists| && x in lists[c] :: x as nat
  }

  /** The number of list nodes over all buckets. */
  function ListedCount(lists: seq<seq<Word>>): nat
  {
    if lists == [] then 0 else ListedCount(DropLast(lists)) + |Last(lists)|
  }

  /** Every bucket holds a list without repeated nodes. */
  ghost predicate AllLists(mem: Memory, heads: seq<Option<Word>>, lists: seq<seq<Word>>)
  {
    |heads| == SIZE_CLASS_COUNT && |lists| == SIZE_CLASS_COUNT &&
    forall c :: 0 <= c < SIZE_CLASS_COUNT ==> IsList(mem, heads[c], lists[c]) && Distinct(lists[c])
  }

  /**
   * The 60 buckets: bucket c holds the list lists[c]; its nodes are
   * distinct free blocks of the heap whose size class is c.
   */
  ghost predicate Buckets(mem: Memory, heads: seq<Option<Word>>, lists: seq<seq<Word>>, blocks: seq<nat>)
  {
    AllLists(mem, heads, lists) &&
    (forall c, x :: 0 <= c < SIZE_CLASS_COUNT && x in lists[c] ==>
       x in blocks && !AllocatedAt(mem, x) && SizeClassIndex(SizeAt(mem, x)) == c)
  }

  /** Bucket c on its own: a list of distinct free blocks of the heap whose size class is c. */
  ghost predicate BucketOk(mem: Memory, head: Option<Word>, xs: seq<Word>, blocks: seq<nat>, c: nat)
  {
    IsList(mem, head, xs) && Distinct(xs) &&
    forall x :: x in xs ==> x in blocks && !AllocatedAt(mem, x) && SizeClassIndex(SizeAt(mem, x)) == c
  }

  /** Every bucket of `lists`, the last one after all the others. */
  ghost predicate BucketsUpTo(mem: Memory, heads: seq<Option<Word>>, lists: seq<seq<Word>>, blocks: seq<nat>)
    requires |heads| == |lists|
    decreases |lists|
  {
    lists == [] ||
    (BucketsUpTo(mem, DropLast(heads), DropLast(lists), blocks) &&
     BucketOk(mem, Last(heads), Last(lists), blocks, |lists| - 1))
  }

  /**
   * The bucket invariant as the allocator state carries it: the same
   * statement as Buckets, bucket by bucket (BucketArrayIsBuckets).
   */
  ghost predicate BucketArray(mem: Memory, heads: seq<Option<Word>>, lists: seq<seq<Word>>, blocks: seq<nat>)
  {
    |heads| == SIZE_CLASS_COUNT && |lists| == SIZE_CLASS_COUNT && BucketsUpTo(mem, heads, lists, blocks)
  }

  lemma {:induction false} BucketsUpToAll(mem: Memory, heads: seq<Option<Word>>, lists: seq<seq<Word>>, blocks: seq<nat>)
    requires |heads| == |lists|
    ensures BucketsUpTo(mem, heads, lists, blocks) <==>
              forall d :: 0 <= d < |lists| ==> BucketOk(mem, heads[d], lists[d], blocks, d)
    decreases |lists|
  {
    if lists != [] {
      BucketsUpToAll(mem, DropLast(heads), DropLast(lists), blocks);
      assert forall d :: 0 <= d < |lists| - 1 ==> DropLast(heads)[d] == heads[d] && DropLast(lists)[d] == lists[d];
    }
  }

  lemma BucketArrayIsBuckets(mem: Memory, heads: seq<Option<Word>>, lists: seq<seq<Word>>, blocks: seq<nat>)
    ensures BucketArray(mem, heads, lists, blocks) <==> Buckets(mem, heads, lists, blocks)
  {
    if |heads| == SIZE_CLASS_COUNT && |lists| == SIZE_CLASS_COUNT {
      BucketsUpToAll(mem, heads, lists, blocks);
      if Buckets(mem, heads, lists, blocks) {
        forall d | 0 <= d < SIZE_CLASS_COUNT
          ensures BucketOk(mem, heads[d], lists[d], blocks, d)
        {
        }
      }
    }
  }

  lemma {:induction false} ListedCountUpdate(lists: seq<seq<Word>>, c: nat, xs: seq<Word>)
    requires c < |lists|
    ensures ListedCount(lists[c := xs]) + |lists[c]| == ListedCount(lists) + |xs|
    decreases |lists|
  {
    if c == |lists| - 1 {
      assert DropLast(lists[c := xs]) == DropLast(lists);
    } else {
      assert DropLast(lists[c := xs]) == DropLast(lists)[c := xs];
      ListedCountUpdate(DropLast(lists), c, xs);
    }
  }

  /** n empty buckets. */
  function EmptyLists(n: nat): (r: seq<seq<Word>>)
    ensures |r| == n && forall c :: 0 <= c < n ==> r[c] == []
  {
    seq(n, _ => [])
  }

  lemma {:induction false} ListedCountEmpty(n: nat)
    ensures ListedCount(EmptyLists(n)) == 0
    ensures Listed(EmptyLists(n)) == {}
  {
    if n > 0 {
      assert DropLast(EmptyLists(n)) == EmptyLists(n - 1);
      ListedCountEmpty(n - 1);
    }
  }

  /** Buckets whose heads are all NULL hold empty lists, and that is a valid bucket array. */
  lemma {:induction false} EmptyBuckets(mem: Memory, heads: seq<Option<Word>>, blocks: seq<nat>)
    requires |heads| == SIZE_CLASS_COUNT && forall c :: 0 <= c < SIZE_CLASS_COUNT ==> heads[c].None?
    ensures BucketArray(mem, heads, EmptyLists(SIZE_CLASS_COUNT), blocks)
  {
    var lists := EmptyLists(SIZE_CLASS_COUNT);
    forall c | 0 <= c < SIZE_CLASS_COUNT
      ensures IsList(mem, heads[c], lists[c]) && Distinct(lists[c])
    {
    }
    BucketArrayIsBuckets(mem, heads, lists, blocks);
  }

  /** A list stays a list when the link words of its nodes are unchanged. */
  lemma {:induction false} IsListFrame(mem: Memory, mem': Memory, head: Option<Word>, xs: seq<Word>)
    requires IsList(mem, head, xs)
    requires forall i :: 0 <= i < |xs| ==> Load(mem', xs[i]).nextAdr == Load(mem, xs[i]).nextAdr
    ensures IsList(mem', head, xs)
  {
    if xs != [] {
      assert Load(mem', Last(xs)).nextAdr == Load(mem, Last(xs)).nextAdr;
    }
  }

  /** A node of bucket c is in no other bucket: its size names one class. */
  lemma {:induction false} OnlyInItsBucket(mem: Memory, heads: seq<Option<Word>>, lists: seq<seq<Word>>, blocks: seq<nat>,
                                           c: nat, x: nat)
    requires Buckets(mem, heads, lists, blocks) && c < SIZE_CLASS_COUNT && x in lists[c]
    ensures forall d :: 0 <= d < SIZE_CLASS_COUNT && d != c ==> x !in lists[d]
  {
    forall d | 0 <= d < SIZE_CLASS_COUNT && d != c
      ensures x !in lists[d]
    {
      assert x in lists[d] ==> SizeClassIndex(SizeAt(mem, x)) == d;
    }
  }

  /** The bucket invariant only looks at the headers of the listed nodes and at their being blocks. */
  lemma {:induction false} BucketsFrame(mem: Memory, mem': Memory, heads: seq<Option<Word>>, lists: seq<seq<Word>>,
                                        blocks: seq<nat>, blocks': seq<nat>)
    requires Buckets(mem, heads, lists, blocks)
    requires forall c, x :: 0 <= c < SIZE_CLASS_COUNT && x in lists[c] ==> Load(mem', x) == Load(mem, x) && x in blocks'
    ensures Buckets(mem', heads, lists, blocks')
  {
    forall c | 0 <= c < SIZE_CLASS_COUNT
      ensures IsList(mem', heads[c], lists[c])
    {
      forall i | 0 <= i < |lists[c]|
        ensures Load(mem', lists[c][i]) == Load(mem, lists[c][i])
      {
        assert lists[c][i] in lists[c];
      }
      IsListFrame(mem, mem', heads[c], lists[c]);
    }
    forall c, x | 0 <= c < SIZE_CLASS_COUNT && x in lists[c]
      ensures x in blocks' && !AllocatedAt(mem', x) && SizeClassIndex(SizeAt(mem', x)) == c
    {
      assert !AllocatedAt(mem, x) && SizeClassIndex(SizeAt(mem, x)) == c;
      assert Load(mem', x) == Load(mem, x) && x in blocks';
    }
  }

  /** Pushing a new node in front of a list. */
  lemma {:induction false} IsListPush(mem: Memory, mem': Memory, head: Option<Word>, xs: seq<Word>, b: Word)
    requires IsList(mem, head, xs)
    requires forall i :: 0 <= i < |xs| ==> Load(mem', xs[i]).nextAdr == Load(mem, xs[i]).nextAdr
    requires IsListEnd(Load(mem', b)) <==> head.None?
    requires head.Some? ==> GetNextBlockPtr(Load(mem', b)) == head.value
    ensures IsList(mem', Some(b), [b] + xs)
  {
    IsListFrame(mem, mem', head, xs);
    var ys := [b] + xs;
    forall i | 0 <= i < |ys| - 1
      ensures !IsListEnd(Load(mem', ys[i])) && GetNextBlockPtr(Load(mem', ys[i])) == ys[i + 1]
    {
      if i > 0 {
        assert ys[i] == xs[i - 1] && ys[i + 1] == xs[i];
      }
    }
    if xs != [] {
      assert Last(ys) == Last(xs);
    }
  }

  /** The nodes left in the buckets keep their sizes, their flags and their classes. */
  lemma {:induction false} RemoveKeepsMembers(mem: Memory, mem': Memory, heads: seq<Option<Word>>,
                                              lists: seq<seq<Word>>, lists': seq<seq<Word>>, blocks: seq<nat>, c: nat, i: nat)
    requires Buckets(mem, heads, lists, blocks)
    requires c < SIZE_CLASS_COUNT && i < |lists[c]|
    requires lists' == lists[c := lists[c][..i] + lists[c][i + 1..]]
    requires forall x :: x != lists[c][i] && (i == 0 || x != lists[c][i - 1]) ==> Load(mem', x) == Load(mem, x)
    requires i > 0 ==> Load(mem', lists[c][i - 1]).size == Load(mem, lists[c][i - 1]).size
    ensures forall d, x :: 0 <= d < SIZE_CLASS_COUNT && x in lists'[d] ==>
              x in blocks && !AllocatedAt(mem', x) && SizeClassIndex(SizeAt(mem', x)) == d
  {
    var xs := lists[c];
    var ys := xs[..i] + xs[i + 1..];
    OnlyInItsBucket(mem, heads, lists, blocks, c, xs[i]);
    forall d, x | 0 <= d < SIZE_CLASS_COUNT && x in lists'[d]
      ensures x in blocks && !AllocatedAt(mem', x) && SizeClassIndex(SizeAt(mem', x)) == d
    {
      if d == c {
        var j :| 0 <= j < |ys| && ys[j] == x;
        var k := if j < i then j else j + 1;
        assert x == xs[k] && k != i;
        assert x in lists[c];
      } else {
        assert lists'[d] == lists[d];
      }
      assert SizeAt(mem', x) == SizeAt(mem, x);
    }
  }

  /**
   * Unlinking node i of a list: its predecessor (or the head) takes over
   * its link, and the predecessor becomes the end when node i was.
   */
  lemma {:induction false} IsListRemove(mem: Memory, mem': Memory, head: Option<Word>, head': Option<Word>,
                                        xs: seq<Word>, i: nat)
    requires IsList(mem, head, xs) && Distinct(xs) && i < |xs|
    requires forall j :: 0 <= j < |xs| && j != i && j + 1 != i ==> Load(mem', xs[j]).nextAdr == Load(mem, xs[j]).nextAdr
    requires i == 0 ==> head' == if i + 1 < |xs| then Some(xs[i + 1]) else None
    requires i > 0 ==> head' == head
    requires i > 0 ==> (IsListEnd(Load(mem', xs[i - 1])) <==> i == |xs| - 1)
    requires i > 0 && i + 1 < |xs| ==> GetNextBlockPtr(Load(mem', xs[i - 1])) == xs[i + 1]
    ensures IsList(mem', head', xs[..i] + xs[i + 1..]) && Distinct(xs[..i] + xs[i + 1..])
  {
    var ys := xs[..i] + xs[i + 1..];
    assert |ys| == |xs| - 1;
    forall j | 0 <= j < |ys|
      ensures ys[j] == if j < i then xs[j] else xs[j + 1]
    {
    }
    forall j | 0 <= j < |ys| - 1
      ensures !IsListEnd(Load(mem', ys[j])) && GetNextBlockPtr(Load(mem', ys[j])) == ys[j + 1]
    {
      if j < i - 1 {
        assert ys[j] == xs[j] && ys[j + 1] == xs[j + 1];
      } else if j == i - 1 {
        assert ys[j] == xs[i - 1] && ys[j + 1] == xs[i + 1];
      } else {
        assert ys[j] == xs[j + 1] && ys[j + 1] == xs[j + 2];
      }
    }
    if ys != [] {
      if i == |xs| - 1 {
        assert Last(ys) == xs[i - 1];
      } else {
        assert Last(ys) == Last(xs) == xs[|xs| - 1];
      }
    }
    if i > 0 {
      assert ys[0] == xs[0];
    }
    forall j, k | 0 <= j < k < |ys|
      ensures ys[j] != ys[k]
    {
      var j' := if j < i then j else j + 1;
      var k' := if k < i then k else k + 1;
      assert ys[j] == xs[j'] && ys[k] == xs[k'];
    }
  }

  lemma {:induction false} ListedPush(lists: seq<seq<Word>>, c: nat, b: Word)
    requires c < |lists|
    ensures Listed(lists[c := [b] + lists[c]]) == Listed(lists) + {b as nat}
  {
    var lists' := lists[c := [b] + lists[c]];
    forall x | x in Listed(lists')
      ensures x in Listed(lists) + {b as nat}
    {
      var d, y :| 0 <= d < |lists'| && y in lists'[d] && x == y as nat;
      if d != c || y != b {
        assert y in lists[d];
      }
    }
    forall x | x in Listed(lists) + {b as nat}
      ensures x in Listed(lists')
    {
      if x == b as nat {
        assert b in lists'[c];
      } else {
        var d, y :| 0 <= d < |lists| && y in lists[d] && x == y as nat;
        assert y in lists'[d];
      }
    }
  }

  lemma {:induction false} ListedRemove(lists: seq<seq<Word>>, c: nat, i: nat)
    requires c < |lists| && i < |lists[c]| && Distinct(lists[c])
    requires forall d :: 0 <= d < |lists| && d != c ==> lists[c][i] !in lists[d]
    ensures Listed(lists[c := lists[c][..i] + lists[c][i + 1..]]) == Listed(lists) - {lists[c][i] as nat}
  {
    var xs := lists[c];
    var ys := xs[..i] + xs[i + 1..];
    var lists' := lists[c := ys];
    forall x | x in Listed(lists')
      ensures x in Listed(lists) && x != xs[i] as nat
    {
      var d, y :| 0 <= d < |lists'| && y in lists'[d] && x == y as nat;
      assert y in lists[d];
      if d == c {
        var j :| 0 <= j < |ys| && ys[j] == y;
        assert y == if j < i then xs[j] else xs[j + 1];
      }
    }
    forall x | x in Listed(lists) && x != xs[i] as nat
      ensures x in Listed(lists')
    {
      var d, y :| 0 <= d < |lists| && y in lists[d] && x == y as nat;
      if d == c {
        var j :| 0 <= j < |xs| && xs[j] == y;
        if j < i {
          assert ys[j] == y;
        } else {
          assert ys[j - 1] == y;
        }
      }
      assert y in lists'[d];
    }
  }

  lemma {:induction false} PushKeepsLists(mem: Memory, mem': Memory, heads: seq<Option<Word>>, lists: seq<seq<Word>>,
                                          blocks: seq<nat>, b: Word, c: nat)
    requires Buckets(mem, heads, lists, blocks)
    requires c < SIZE_CLASS_COUNT && Unlisted(lists, b)
    requires forall x :: x != b ==> Load(mem', x) == Load(mem, x)
    requires IsListEnd(Load(mem', b)) <==> heads[c].None?
    requires heads[c].Some? ==> GetNextBlockPtr(Load(mem', b)) == heads[c].value
    ensures AllLists(mem', heads[c := Some(b)], lists[c := [b] + lists[c]])
  {
    var heads', lists' := heads[c := Some(b)], lists[c := [b] + lists[c]];
    forall d | 0 <= d < SIZE_CLASS_COUNT
      ensures IsList(mem', heads'[d], lists'[d]) && Distinct(lists'[d])
    {
      forall i | 0 <= i < |lists[d]|
        ensures Load(mem', lists[d][i]) == Load(mem, lists[d][i])
      {
        assert lists[d][i] in lists[d];
      }
      if d == c {
        IsListPush(mem, mem', heads[c], lists[c], b);
        assert lists'[d] == [b] + lists[c];
      } else {
        IsListFrame(mem, mem', heads[d], lists[d]);
      }
    }
  }

  /** Pushing an unlisted free block of class c onto bucket c (insert_block). */
  lemma {:induction false} PushKeepsBuckets(mem: Memory, mem': Memory, heads: seq<Option<Word>>, lists: seq<seq<Word>>,
                                            blocks: seq<nat>, b: Word, c: nat)
    requires Buckets(mem, heads, lists, blocks)
    requires c < SIZE_CLASS_COUNT && b in blocks && Unlisted(lists, b)
    requires forall x :: x != b ==> Load(mem', x) == Load(mem, x)
    requires !AllocatedAt(mem', b) && SizeClassIndex(SizeAt(mem', b)) == c
    requires IsListEnd(Load(mem', b)) <==> heads[c].None?
    requires heads[c].Some? ==> GetNextBlockPtr(Load(mem', b)) == heads[c].value
    ensures Buckets(mem', heads[c := Some(b)], lists[c := [b] + lists[c]], blocks)
    ensures Listed(lists[c := [b] + lists[c]]) == Listed(lists) + {b as nat}
    ensures ListedCount(lists[c := [b] + lists[c]]) == ListedCount(lists) + 1
  {
    PushKeepsLists(mem, mem', heads, lists, blocks, b, c);
    var lists' := lists[c := [b] + lists[c]];
    forall d, x | 0 <= d < SIZE_CLASS_COUNT && x in lists'[d]
      ensures x in blocks && !AllocatedAt(mem', x) && SizeClassIndex(SizeAt(mem', x)) == d
    {
      if x != b {
        assert x in lists[d];
        assert Load(mem', x) == Load(mem, x);
      }
    }
    ListedPush(lists, c, b);
    ListedCountUpdate(lists, c, [b] + lists[c]);
  }

  /**
   * insert_block as a whole: the header of b gets the corrected push link,
   * the tiling survives, the bucket invariant holds with b on top of bucket
   * c, and b leaves the allocated map.
   */
  lemma {:induction false} InsertKeepsHeap(mem: Memory, mem': Memory, heads: seq<Option<Word>>, lists: seq<seq<Word>>,
                                           blocks: seq<nat>, base: nat, end: nat, b: Word, c: nat)
    requires Tiling(mem, blocks, base, end) && BucketArray(mem, heads, lists, blocks)
    requires b in blocks && Unlisted(lists, b) && c == SizeClassIndex(SizeAt(mem, b)) && c < SIZE_CLASS_COUNT
    requires mem' == mem[b := PushLink(SetBlockFree(Load(mem, b)), heads[c])]
    ensures Tiling(mem', blocks, base, end)
    ensures BucketArray(mem', heads[c := Some(b)], lists[c := [b] + lists[c]], blocks)
    ensures Listed(lists[c := [b] + lists[c]]) == Listed(lists) + {b as nat}
    ensures ListedCount(lists[c := [b] + lists[c]]) == ListedCount(lists) + 1
    ensures b < end
    ensures SizeAt(mem', b) == SizeAt(mem, b) && !AllocatedAt(mem', b)
    ensures LiveOf(mem', blocks) == LiveOf(mem, blocks) - {b as nat}
  {
    BucketArrayIsBuckets(mem, heads, lists, blocks);
    BlockHasClass(mem, blocks, base, end, b);
    var h := Load(mem', b);
    assert GetBlockSize(h) == GetBlockSize(Load(mem, b)) && !IsAllocated(h);
    if heads[c].Some? {
      assert heads[c].value in lists[c];
      BlockHasClass(mem, blocks, base, end, heads[c].value);
    }
    PushKeepsBuckets(mem, mem', heads, lists, blocks, b, c);
    BucketArrayIsBuckets(mem', heads[c := Some(b)], lists[c := [b] + lists[c]], blocks);
    TilingFrame(mem, mem', blocks, base, end);
    LiveAfterWrite(mem, mem', blocks, b);
  }

  lemma {:induction false} RemoveKeepsLists(mem: Memory, mem': Memory, heads: seq<Option<Word>>, heads': seq<Option<Word>>,
                                            lists: seq<seq<Word>>, blocks: seq<nat>, c: nat, i: nat)
    requires Buckets(mem, heads, lists, blocks)
    requires c < SIZE_CLASS_COUNT && i < |lists[c]|
    requires forall x :: x != lists[c][i] && (i == 0 || x != lists[c][i - 1]) ==> Load(mem', x) == Load(mem, x)
    requires i == 0 ==> heads' == heads[c := if i + 1 < |lists[c]| then Some(lists[c][i + 1]) else None]
    requires i > 0 ==> heads' == heads
    requires i > 0 ==> (IsListEnd(Load(mem', lists[c][i - 1])) <==> i == |lists[c]| - 1)
    requires i > 0 && i + 1 < |lists[c]| ==> GetNextBlockPtr(Load(mem', lists[c][i - 1])) == lists[c][i + 1]
    ensures AllLists(mem', heads', lists[c := lists[c][..i] + lists[c][i + 1..]])
  {
    var xs := lists[c];
    var cur := xs[i];
    var ys := xs[..i] + xs[i + 1..];
    var lists' := lists[c := ys];
    OnlyInItsBucket(mem, heads, lists, blocks, c, cur);
    if i > 0 {
      OnlyInItsBucket(mem, heads, lists, blocks, c, xs[i - 1]);
    }
    forall d | 0 <= d < SIZE_CLASS_COUNT
      ensures IsList(mem', heads'[d], lists'[d]) && Distinct(lists'[d])
    {
      if d == c {
        forall j | 0 <= j < |xs| && j != i && j + 1 != i
          ensures Load(mem', xs[j]) == Load(mem, xs[j])
        {
        }
        IsListRemove(mem, mem', heads[c], heads'[c], xs, i);
      } else {
        forall j | 0 <= j < |lists[d]|
          ensures Load(mem', lists[d][j]) == Load(mem, lists[d][j])
        {
          assert lists[d][j] in lists[d];
        }
        IsListFrame(mem, mem', heads[d], lists[d]);
      }
    }
  }

  /**
   * Unlinking node i of bucket c (remove_block): `mem'` differs from `mem`
   * only in the link words of the node and of its predecessor.
   */
  lemma {:induction false} RemoveKeepsBuckets(mem: Memory, mem': Memory, heads: seq<Option<Word>>, heads': seq<Option<Word>>,
                                              lists: seq<seq<Word>>, blocks: seq<nat>, c: nat, i: nat)
    requires Buckets(mem, heads, lists, blocks)
    requires c < SIZE_CLASS_COUNT && i < |lists[c]|
    requires forall x :: x != lists[c][i] && (i == 0 || x != lists[c][i - 1]) ==> Load(mem', x) == Load(mem, x)
    requires Load(mem', lists[c][i]).size == Load(mem, lists[c][i]).size
    requires i == 0 ==> heads' == heads[c := if i + 1 < |lists[c]| then Some(lists[c][i + 1]) else None]
    requires i > 0 ==> heads' == heads
    requires i > 0 ==> Load(mem', lists[c][i - 1]).size == Load(mem, lists[c][i - 1]).size
    requires i > 0 ==> (IsListEnd(Load(mem', lists[c][i - 1])) <==> i == |lists[c]| - 1)
    requires i > 0 && i + 1 < |lists[c]| ==> GetNextBlockPtr(Load(mem', lists[c][i - 1])) == lists[c][i + 1]
    ensures Buckets(mem', heads', lists[c := lists[c][..i] + lists[c][i + 1..]], blocks)
  {
    var xs := lists[c];
    var cur := xs[i];
    var ys := xs[..i] + xs[i + 1..];
    var lists' := lists[c := ys];
    OnlyInItsBucket(mem, heads, lists, blocks, c, cur);
    if i > 0 {
      OnlyInItsBucket(mem, heads, lists, blocks, c, xs[i - 1]);
    }
    RemoveKeepsLists(mem, mem', heads, heads', lists, blocks, c, i);
    RemoveKeepsMembers(mem, mem', heads, lists, lists', blocks, c, i);
  }
  /** Taking entry i out of bucket c takes exactly that block out of the listed ones. */
  lemma {:induction false} RemoveListed(mem: Memory, heads: seq<Option<Word>>, lists: seq<seq<Word>>, blocks: seq<nat>, c: nat, i: nat)
    requires Buckets(mem, heads, lists, blocks)
    requires c < SIZE_CLASS_COUNT && i < |lists[c]|
    ensures Listed(lists[c := lists[c][..i] + lists[c][i + 1..]]) == Listed(lists) - {lists[c][i] as nat}
    ensures ListedCount(lists[c := lists[c][..i] + lists[c][i + 1..]]) + 1 == ListedCount(lists)
  {
    OnlyInItsBucket(mem, heads, lists, blocks, c, lists[c][i]);
    ListedRemove(lists, c, i);
    ListedCountUpdate(lists, c, lists[c][..i] + lists[c][i + 1..]);
  }


  /**
   * The headers after remove_block unlinks `cur` whose predecessor is `prev`:
   * the predecessor takes over the successor of `cur` and, when `cur` ended
   * the list, the list-end flag; `cur` loses its list-end flag.
   */
  function UnlinkedMemory(mem: Memory, cur: Word, prev: Option<Word>): Memory
    requires cur in mem && (prev.Some? ==> prev.value in mem)
  {
    var h := Load(mem, cur);
    var mem1 :=
      if prev.None? then mem
      else
        var p := SetNextBlockPtr(Load(mem, prev.value), AddressOrNull(ListSuccessor(h)));
        mem[prev.value := if IsListEnd(h) then SetBlockListEnd(p) else p];
    mem1[cur := UnsetBlockListEnd(Load(mem1, cur))]
  }

  /** What UnlinkedMemory changes: the link words of `cur` and of `prev`, nothing else. */
  lemma {:induction false} UnlinkedMemoryFacts(mem: Memory, cur: Word, prev: Option<Word>)
    requires cur in mem && (prev.Some? ==> prev.value in mem)
    requires prev.None? || prev.value != cur
    ensures forall x :: x != cur && (prev.None? || x != prev.value) ==> Load(UnlinkedMemory(mem, cur, prev), x) == Load(mem, x)
    ensures forall x :: Load(UnlinkedMemory(mem, cur, prev), x).size == Load(mem, x).size
    ensures Load(UnlinkedMemory(mem, cur, prev), cur) == UnsetBlockListEnd(Load(mem, cur))
    ensures prev.Some? ==> (IsListEnd(Load(UnlinkedMemory(mem, cur, prev), prev.value)) <==>
                              IsListEnd(Load(mem, prev.value)) || IsListEnd(Load(mem, cur)))
    ensures prev.Some? ==> GetNextBlockPtr(Load(UnlinkedMemory(mem, cur, prev), prev.value)) ==
                             ClearFlags(AddressOrNull(ListSuccessor(Load(mem, cur))))
  {
  }

  /** A list node is a free block of the heap, of its bucket's class, with a header in memory. */
  lemma {:induction false} ListNodeInHeap(mem: Memory, heads: seq<Option<Word>>, lists: seq<seq<Word>>, blocks: seq<nat>,
                                          base: nat, end: nat, c: nat, i: nat)
    requires Tiling(mem, blocks, base, end) && BucketArray(mem, heads, lists, blocks)
    requires c < SIZE_CLASS_COUNT && i < |lists[c]|
    ensures lists[c][i] in blocks && lists[c][i] in mem && !AllocatedAt(mem, lists[c][i])
    ensures SizeClassIndex(SizeAt(mem, lists[c][i])) == c
  {
    BucketsUpToAll(mem, heads, lists, blocks);
    assert BucketOk(mem, heads[c], lists[c], blocks, c);
    assert lists[c][i] in lists[c];
    BlockHasClass(mem, blocks, base, end, lists[c][i]);
  }

  /** Headers whose sizes and allocated flags are unchanged keep the tiling, the layout and the allocated map. */
  lemma {:induction false} SameSizesKeepHeap(mem: Memory, mem': Memory, blocks: seq<nat>, base: nat, end: nat)
    requires Tiling(mem, blocks, base, end)
    requires forall x :: Load(mem', x).size == Load(mem, x).size
    ensures Tiling(mem', blocks, base, end)
    ensures LiveOf(mem', blocks) == LiveOf(mem, blocks) && LayoutOf(mem', blocks) == LayoutOf(mem, blocks)
  {
    assert forall x :: SizeAt(mem', x) == SizeAt(mem, x) && AllocatedAt(mem', x) == AllocatedAt(mem, x);
    TilingFrame(mem, mem', blocks, base, end);
    LiveSame(mem, blocks, mem', blocks);
    assert forall k :: 0 <= k < |blocks| ==> LayoutOf(mem', blocks)[k] == LayoutOf(mem, blocks)[k];
  }

  /**
   * remove_block as a whole: unlinking node i of bucket c keeps the tiling
   * and the bucket invariant with the node gone, and changes no size and no
   * allocated flag.
   */
  lemma {:induction false} RemoveKeepsHeap(mem: Memory, mem': Memory, heads: seq<Option<Word>>, heads': seq<Option<Word>>,
                                           lists: seq<seq<Word>>, blocks: seq<nat>, base: nat, end: nat, c: nat, i: nat)
    requires Tiling(mem, blocks, base, end) && BucketArray(mem, heads, lists, blocks)
    requires c < SIZE_CLASS_COUNT && i < |lists[c]|
    requires lists[c][i] in mem && (i > 0 ==> lists[c][i - 1] in mem)
    requires mem' == UnlinkedMemory(mem, lists[c][i], if i == 0 then None else Some(lists[c][i - 1]))
    requires heads' == if i == 0 then heads[c := ListSuccessor(Load(mem, lists[c][i]))] else heads
    ensures ListSuccessor(Load(mem, lists[c][i])) == if i + 1 < |lists[c]| then Some(lists[c][i + 1]) else None
    ensures Tiling(mem', blocks, base, end)
    ensures BucketArray(mem', heads', lists[c := lists[c][..i] + lists[c][i + 1..]], blocks)
    ensures Listed(lists[c := lists[c][..i] + lists[c][i + 1..]]) == Listed(lists) - {lists[c][i] as nat}
    ensures ListedCount(lists[c := lists[c][..i] + lists[c][i + 1..]]) + 1 == ListedCount(lists)
    ensures LiveOf(mem', blocks) == LiveOf(mem, blocks) && LayoutOf(mem', blocks) == LayoutOf(mem, blocks)
  {
    var xs := lists[c];
    var cur := xs[i];
    var prev := if i == 0 then None else Some(xs[i - 1]);
    var h := Load(mem, cur);
    BucketArrayIsBuckets(mem, heads, lists, blocks);
    assert IsList(mem, heads[c], xs) && Distinct(xs);
    if i > 0 {
      assert xs[i - 1] != cur;
      assert !IsListEnd(Load(mem, xs[i - 1]));
    }
    UnlinkedMemoryFacts(mem, cur, prev);
    if i + 1 < |xs| {
      assert !IsListEnd(h) && GetNextBlockPtr(h) == xs[i + 1];
      assert xs[i + 1] in xs;
      BlockHasClass(mem, blocks, base, end, xs[i + 1]);
    } else {
      assert cur == Last(xs);
    }
    RemoveKeepsBuckets(mem, mem', heads, heads', lists, blocks, c, i);
    RemoveListed(mem, heads, lists, blocks, c, i);
    BucketArrayIsBuckets(mem', heads', lists[c := xs[..i] + xs[i + 1..]], blocks);
    SameSizesKeepHeap(mem, mem', blocks, base, end);
  }

  // ---------------------------------------------------------------------
  // Walking a bucket (get_block) and fusing neighbours (merge_blocks).

  /** The head of bucket c is NULL exactly when its list is empty, and its first node otherwise. */
  lemma {:induction false} BucketHead(mem: Memory, heads: seq<Option<Word>>, lists: seq<seq<Word>>, blocks: seq<nat>, c: nat)
    requires BucketArray(mem, heads, lists, blocks) && c < SIZE_CLASS_COUNT
    ensures heads[c].None? <==> lists[c] == []
    ensures heads[c].Some? ==> heads[c].value == lists[c][0]
  {
    BucketsUpToAll(mem, heads, lists, blocks);
    assert BucketOk(mem, heads[c], lists[c], blocks, c);
  }

  /** Node k of bucket c ends its list exactly when it is the last node, and links to node k + 1 otherwise. */
  lemma {:induction false} ListStep(mem: Memory, heads: seq<Option<Word>>, lists: seq<seq<Word>>, blocks: seq<nat>, c: nat, k: nat)
    requires BucketArray(mem, heads, lists, blocks) && c < SIZE_CLASS_COUNT && k < |lists[c]|
    ensures IsListEnd(Load(mem, lists[c][k])) <==> k + 1 == |lists[c]|
    ensures k + 1 < |lists[c]| ==> GetNextBlockPtr(Load(mem, lists[c][k])) == lists[c][k + 1]
  {
    BucketsUpToAll(mem, heads, lists, blocks);
    assert BucketOk(mem, heads[c], lists[c], blocks, c);
    if k + 1 == |lists[c]| {
      assert lists[c][k] == Last(lists[c]);
    }
  }

  /** A block that is no node of any list is in none of the lists. */
  lemma {:induction false} NotListedIsUnlisted(lists: seq<seq<Word>>, b: nat)
    requires b !in Listed(lists)
    ensures Unlisted(lists, b)
  {
    forall c, x | 0 <= c < |lists| && x in lists[c]
      ensures x as nat in Listed(lists)
    {
    }
  }

  /** Block j + 1 starts where block j ends and ends inside the heap. */
  lemma {:induction false} AdjacentBlocks(mem: Memory, blocks: seq<nat>, base: nat, end: nat, j: nat)
    requires Tiling(mem, blocks, base, end) && j + 1 < |blocks|
    ensures blocks[j + 1] == blocks[j] + SizeAt(mem, blocks[j])
    ensures blocks[j + 1] + SizeAt(mem, blocks[j + 1]) <= end < HEAP_LIMIT
    ensures HEADER_SIZE <= SizeAt(mem, blocks[j]) && HEADER_SIZE <= SizeAt(mem, blocks[j + 1])
  {
    TilingIsTiled(mem, blocks, base, end);
    TilingWithin(mem, blocks, base, end, j + 1);
  }

  /** Entry i after block j + 1 is dropped: the old entry i before the gap, entry i + 1 after it. */
  lemma {:induction false} DropNextIndex(blocks: seq<nat>, j: nat, i: nat)
    requires j + 1 < |blocks| && i < |blocks| - 1
    ensures (blocks[..j + 1] + blocks[j + 2..])[i] == if i <= j then blocks[i] else blocks[i + 1]
  {
  }

  /** Dropping block j + 1 from the tiling drops that address and no other. */
  lemma {:induction false} DropNextMembers(mem: Memory, blocks: seq<nat>, base: nat, end: nat, j: nat)
    requires Tiling(mem, blocks, base, end) && j + 1 < |blocks|
    ensures forall x :: x in blocks[..j + 1] + blocks[j + 2..] <==> x in blocks && x != blocks[j + 1]
  {
    var u := blocks[j + 1];
    var blocks' := blocks[..j + 1] + blocks[j + 2..];
    TilingIsTiled(mem, blocks, base, end);
    forall x | x in blocks && x != u
      ensures x in blocks'
    {
      var i :| 0 <= i < |blocks| && blocks[i] == x;
      DropNextIndex(blocks, j, if i <= j then i else i - 1);
    }
    forall x | x in blocks'
      ensures x in blocks && x != u
    {
      var i :| 0 <= i < |blocks'| && blocks'[i] == x;
      DropNextIndex(blocks, j, i);
      if i < j {
        TilingOrdered(mem, blocks, base, end, i, j);
      } else if i > j {
        TilingOrdered(mem, blocks, base, end, j + 1, i + 1);
      }
    }
  }

  /** The header write of merge_blocks: block b gets size `sum`; nothing else changes. */
  lemma {:induction false} MergeWrite(mem: Memory, mem': Memory, b: nat, sum: Word)
    requires sum % 16 == 0
    requires mem' == mem[b := SetBlockSize(Load(mem, b), sum)]
    ensures forall x :: x != b ==> Load(mem', x) == Load(mem, x)
    ensures SizeAt(mem', b) == sum && AllocatedAt(mem', b) == AllocatedAt(mem, b)
  {
    BlockSizeRoundTrip(Load(mem, b), sum);
  }

  /**
   * merge_blocks: block j, free and in no list, absorbs block j + 1, free
   * and in no list as well. The tiling loses block j + 1, the buckets are
   * untouched, the allocated map is the same and the layout shows the two
   * entries fused into one.
   */
  lemma {:induction false} MergeKeepsHeap(mem: Memory, mem': Memory, heads: seq<Option<Word>>, lists: seq<seq<Word>>,
                                          blocks: seq<nat>, base: nat, end: nat, j: nat)
    requires Tiling(mem, blocks, base, end) && BucketArray(mem, heads, lists, blocks)
    requires j + 1 < |blocks| && Unlisted(lists, blocks[j]) && Unlisted(lists, blocks[j + 1])
    requires !AllocatedAt(mem, blocks[j]) && !AllocatedAt(mem, blocks[j + 1])
    requires forall x :: x != blocks[j] ==> Load(mem', x) == Load(mem, x)
    requires SizeAt(mem', blocks[j]) == SizeAt(mem, blocks[j]) + SizeAt(mem, blocks[j + 1]) && !AllocatedAt(mem', blocks[j])
    ensures Tiling(mem', blocks[..j + 1] + blocks[j + 2..], base, end)
    ensures BucketArray(mem', heads, lists, blocks[..j + 1] + blocks[j + 2..])
    ensures LiveOf(mem', blocks[..j + 1] + blocks[j + 2..]) == LiveOf(mem, blocks)
    ensures LayoutOf(mem', blocks[..j + 1] + blocks[j + 2..]) ==
              LayoutOf(mem, blocks)[..j] + [Blk(SizeAt(mem, blocks[j]) + SizeAt(mem, blocks[j + 1]), false)] +
              LayoutOf(mem, blocks)[j + 2..]
  {
    var b, u := blocks[j], blocks[j + 1];
    var blocks' := blocks[..j + 1] + blocks[j + 2..];
    MergeKeepsTiling(mem, mem', blocks, base, end, j);
    MergeLayout(mem, mem', blocks, base, end, j);
    DropNextMembers(mem, blocks, base, end, j);
    BucketArrayIsBuckets(mem, heads, lists, blocks);
    forall c, x | 0 <= c < SIZE_CLASS_COUNT && x in lists[c]
      ensures Load(mem', x) == Load(mem, x) && x in blocks'
    {
      assert x in blocks && x != u && x != b;
    }
    BucketsFrame(mem, mem', heads, lists, blocks, blocks');
    BucketArrayIsBuckets(mem', heads, lists, blocks');
    LiveSame(mem, blocks, mem', blocks');
  }

  // ---------------------------------------------------------------------
  // The walk of coalesce_heap, the allocation mark of my_alloc and the
  // block alloc_new_block adds at the end of the heap.

  /** get_next_block_ptr_seq: the block after block k starts where block k ends; after the last one, the heap ends. */
  lemma {:induction false} NextBlockAt(mem: Memory, blocks: seq<nat>, base: nat, end: nat, k: nat)
    requires Tiling(mem, blocks, base, end) && k < |blocks|
    ensures blocks[k] + SizeAt(mem, blocks[k]) == if k + 1 < |blocks| then blocks[k + 1] else end
    ensures blocks[k] < blocks[k] + SizeAt(mem, blocks[k]) <= end < HEAP_LIMIT
  {
    TilingIsTiled(mem, blocks, base, end);
    TilingWithin(mem, blocks, base, end, k);
    if k + 1 < |blocks| {
      AdjacentBlocks(mem, blocks, base, end, k);
    }
  }

  /** Block k is not among the free blocks before it. */
  lemma {:induction false} FreeBeforeExcludes(mem: Memory, blocks: seq<nat>, base: nat, end: nat, k: nat)
    requires Tiling(mem, blocks, base, end) && k < |blocks|
    ensures blocks[k] !in FreeBefore(mem, blocks, k)
    ensures k > 0 && !AllocatedAt(mem, blocks[k - 1]) ==> blocks[k - 1] in FreeBefore(mem, blocks, k)
  {
    TilingIsTiled(mem, blocks, base, end);
    forall i | 0 <= i < k
      ensures blocks[i] < blocks[k]
    {
      TilingOrdered(mem, blocks, base, end, i, k);
    }
  }

  /** An allocated block is in no free list. */
  lemma {:induction false} AllocatedIsUnlisted(mem: Memory, heads: seq<Option<Word>>, lists: seq<seq<Word>>, blocks: seq<nat>, b: nat)
    requires BucketArray(mem, heads, lists, blocks) && AllocatedAt(mem, b)
    ensures Unlisted(lists, b)
  {
    BucketArrayIsBuckets(mem, heads, lists, blocks);
    forall c | 0 <= c < |lists|
      ensures b !in lists[c]
    {
    }
  }

  /** Two allocated blocks never overlap: the lower one ends at or before the start of the higher one. */
  lemma {:induction false} LiveDisjoint(mem: Memory, blocks: seq<nat>, base: nat, end: nat, a1: nat, a2: nat)
    requires Tiling(mem, blocks, base, end)
    requires a1 in LiveOf(mem, blocks) && a2 in LiveOf(mem, blocks) && a1 < a2
    ensures a1 + LiveOf(mem, blocks)[a1] <= a2
  {
    TilingIsTiled(mem, blocks, base, end);
    var i :| 0 <= i < |blocks| && blocks[i] == a1;
    var j :| 0 <= j < |blocks| && blocks[j] == a2;
    if j <= i {
      if j < i {
        TilingOrdered(mem, blocks, base, end, j, i);
      }
      assert false;
    }
    TilingOrdered(mem, blocks, base, end, i, j);
  }

  /** set_block_allocated on a heap block in no list keeps both invariants and adds it to the allocated map. */
  lemma {:induction false} AllocateKeepsHeap(mem: Memory, mem': Memory, heads: seq<Option<Word>>, lists: seq<seq<Word>>,
                                             blocks: seq<nat>, base: nat, end: nat, b: nat)
    requires Tiling(mem, blocks, base, end) && BucketArray(mem, heads, lists, blocks)
    requires b in blocks && Unlisted(lists, b)
    requires mem' == mem[b := SetBlockAllocated(Load(mem, b))]
    ensures Tiling(mem', blocks, base, end) && BucketArray(mem', heads, lists, blocks)
    ensures b in mem && SizeAt(mem', b) == SizeAt(mem, b) && AllocatedAt(mem', b)
    ensures LiveOf(mem', blocks) == LiveOf(mem, blocks)[b := SizeAt(mem, b)]
  {
    BlockHasClass(mem, blocks, base, end, b);
    BucketArrayIsBuckets(mem, heads, lists, blocks);
    forall c, x | 0 <= c < SIZE_CLASS_COUNT && x in lists[c]
      ensures Load(mem', x) == Load(mem, x) && x in blocks
    {
      assert x != b;
    }
    BucketsFrame(mem, mem', heads, lists, blocks, blocks);
    BucketArrayIsBuckets(mem', heads, lists, blocks);
    TilingFrame(mem, mem', blocks, base, end);
    LiveAfterWrite(mem, mem', blocks, b);
  }

  /**
   * The header alloc_new_block writes at the old end of the heap: a block of
   * `size` bytes, free (fresh memory has no flag set) and in no list.
   */
  lemma {:induction false} AppendKeepsHeap(mem: Memory, mem': Memory, heads: seq<Option<Word>>, lists: seq<seq<Word>>,
                                           blocks: seq<nat>, blocks': seq<nat>, base: nat, end: nat, end': nat, size: Word)
    requires Tiling(mem, blocks, base, end) && BucketArray(mem, heads, lists, blocks)
    requires forall a :: a in mem ==> a < end
    requires size % 16 == 0 && HEADER_SIZE <= size && end' == end + size && end' < HEAP_LIMIT
    requires mem' == mem[end := SetBlockSize(Load(mem, end), size)] && blocks' == blocks + [end]
    ensures Tiling(mem', blocks', base, end')
    ensures BucketArray(mem', heads, lists, blocks')
    ensures Unlisted(lists, end) && !AllocatedAt(mem', end) && SizeAt(mem', end) == size
    ensures LiveOf(mem', blocks') == LiveOf(mem, blocks)
    ensures forall a :: a in mem' ==> a < end'
  {
    BlockSizeRoundTrip(Load(mem, end), size);
    forall a | a in blocks
      ensures a < end
    {
      BlockHasClass(mem, blocks, base, end, a);
    }
    AppendKeepsBuckets(mem, mem', heads, lists, blocks, end);
    AppendKeepsTiling(mem, mem', blocks, base, end, size);
    LiveSame(mem, blocks, mem', blocks');
  }

  /** A header written past every block leaves the buckets as they were. */
  lemma {:induction false} AppendKeepsBuckets(mem: Memory, mem': Memory, heads: seq<Option<Word>>, lists: seq<seq<Word>>,
                                              blocks: seq<nat>, end: nat)
    requires BucketArray(mem, heads, lists, blocks)
    requires forall a :: a in blocks ==> a < end
    requires forall x :: x != end ==> Load(mem', x) == Load(mem, x)
    ensures BucketArray(mem', heads, lists, blocks + [end]) && Unlisted(lists, end)
  {
    BucketArrayIsBuckets(mem, heads, lists, blocks);
    forall c, x | 0 <= c < SIZE_CLASS_COUNT && x in lists[c]
      ensures Load(mem', x) == Load(mem, x) && x in blocks + [end]
    {
      assert x in blocks;
    }
    BucketsFrame(mem, mem', heads, lists, blocks, blocks + [end]);
    BucketArrayIsBuckets(mem', heads, lists, blocks + [end]);
    forall c | 0 <= c < |lists|
      ensures end !in lists[c]
    {
      assert forall x :: x in lists[c] ==> x in blocks;
    }
  }

  /** An allocated block overlaps no other allocated block. */
  lemma {:induction false} LiveAvoidsOthers(mem: Memory, blocks: seq<nat>, base: nat, end: nat, b: nat)
    requires Tiling(mem, blocks, base, end) && b in LiveOf(mem, blocks)
    ensures forall a :: a in LiveOf(mem, blocks) && a != b ==>
              a + LiveOf(mem, blocks)[a] <= b || b + LiveOf(mem, blocks)[b] <= a
  {
    forall a | a in LiveOf(mem, blocks) && a != b
      ensures a + LiveOf(mem, blocks)[a] <= b || b + LiveOf(mem, blocks)[b] <= a
    {
      if a < b {
        LiveDisjoint(mem, blocks, base, end, a, b);
      } else {
        LiveDisjoint(mem, blocks, base, end, b, a);
      }
    }
  }
}
