/**
 * The walk of coalesce_heap (src/my_alloc.c) stated on the heap's values:
 * where the walk stands after it has visited n of the blocks the heap had
 * when it started, and why each kind of iteration keeps that true.
 */
module CoalesceWalk {
  import opened HeaderCodec
  import opened BlockLayout
  import opened HeapModel

  /** The free block coalesce_heap holds in prev_block, not yet filed in a bucket. */
  ghost function Pending(prev: Option<Word>): set<nat>
  {
    if prev.Some? then {prev.value as nat} else {}
  }

  /**
   * The first n of the blocks `ll` the walk started from have been visited
   * and are now the first k blocks, coalesced; the others are as they were.
   * `cur` is the next block to visit, or heap_end once every block is.
   */
  ghost predicate Visited(mem: Memory, blocks: seq<nat>, end: nat, ll: seq<Blk>, n: nat, k: nat, cur: nat)
  {
    n <= |ll| && k == |Coalesce(ll[..n])| && |blocks| == k + (|ll| - n) &&
    LayoutOf(mem, blocks) == Coalesce(ll[..n]) + ll[n..] &&
    (k < |blocks| ==> cur == blocks[k] && cur < end) &&
    (k == |blocks| ==> cur == end)
  }

  /**
   * The state of the walk: the visited part as above; `prev` is the free
   * block that ends the visited part, if any, and every other visited free
   * block is filed in its bucket.
   */
  ghost predicate WalkAt(mem: Memory, blocks: seq<nat>, end: nat, lists: seq<seq<Word>>,
                         ll: seq<Blk>, n: nat, k: nat, cur: nat, prev: Option<Word>)
  {
    Visited(mem, blocks, end, ll, n, k, cur) &&
    (prev.Some? <==> 0 < k && !AllocatedAt(mem, blocks[k - 1])) &&
    (prev.Some? ==> prev.value == blocks[k - 1]) &&
    Listed(lists) == FreeBefore(mem, blocks, k) - Pending(prev)
  }

  /** Visiting depends on the memory only through the layout it gives the blocks. */
  lemma {:induction false} VisitedFrame(mem: Memory, mem': Memory, blocks: seq<nat>, end: nat,
                                        ll: seq<Blk>, n: nat, k: nat, cur: nat)
    requires Visited(mem, blocks, end, ll, n, k, cur)
    requires LayoutOf(mem', blocks) == LayoutOf(mem, blocks)
    ensures Visited(mem', blocks, end, ll, n, k, cur)
  {
  }

  /**
   * Before heap_end the walk stands at block k of the heap, which is block
   * n of the original heap, untouched so far; the next block starts where
   * it ends.
   */
  lemma {:induction false} VisitedCurrent(mem: Memory, blocks: seq<nat>, base: nat, end: nat,
                                          ll: seq<Blk>, n: nat, k: nat, cur: nat)
    requires Tiling(mem, blocks, base, end) && Visited(mem, blocks, end, ll, n, k, cur) && cur < end
    ensures n < |ll| && k < |blocks| && ll[n] == Blk(SizeAt(mem, cur), AllocatedAt(mem, cur))
    ensures cur + SizeAt(mem, cur) == if k + 1 < |blocks| then blocks[k + 1] else end
    ensures cur < cur + SizeAt(mem, cur) <= end < HEAP_LIMIT
    ensures 0 < k <==> 0 < n
    ensures 0 < k ==> ll[n - 1].isAllocated == AllocatedAt(mem, blocks[k - 1])
  {
    var l := LayoutOf(mem, blocks);
    WalkAdvance(ll, n, l);
    assert l[k] == Blk(SizeAt(mem, cur), AllocatedAt(mem, cur));
    if 0 < k {
      assert l[k - 1] == Blk(SizeAt(mem, blocks[k - 1]), AllocatedAt(mem, blocks[k - 1]));
    }
    NextBlockAt(mem, blocks, base, end, k);
  }

  /**
   * An iteration at a block that does not join the block before it (an
   * allocated block, or a free block after an allocated one or at the
   * base): the block is visited unchanged, and it is pending exactly when
   * it is free.
   */
  lemma {:induction false} AppendAdvance(mem: Memory, blocks: seq<nat>, base: nat, end: nat, lists: seq<seq<Word>>,
                                         ll: seq<Blk>, n: nat, k: nat, cur: Word)
    requires Tiling(mem, blocks, base, end) && Visited(mem, blocks, end, ll, n, k, cur) && cur < end
    requires k == 0 || AllocatedAt(mem, blocks[k - 1]) || AllocatedAt(mem, cur)
    requires Listed(lists) == FreeBefore(mem, blocks, k)
    ensures var prev' := if AllocatedAt(mem, cur) then None else Some(cur);
            WalkAt(mem, blocks, end, lists, ll, n + 1, k + 1, cur + SizeAt(mem, cur), prev')
    ensures FreePairs(ll[..n + 1]) == FreePairs(ll[..n])
  {
    var l := LayoutOf(mem, blocks);
    VisitedCurrent(mem, blocks, base, end, ll, n, k, cur);
    PrefixStep(ll, n);
    WalkAdvance(ll, n, l);
    assert l[k] == Blk(SizeAt(mem, cur), AllocatedAt(mem, cur));
    if 0 < k {
      assert l[k - 1] == Blk(SizeAt(mem, blocks[k - 1]), AllocatedAt(mem, blocks[k - 1]));
    }
    AbsorbAppends(l, k);
    FreeBeforeExcludes(mem, blocks, base, end, k);
    FreeBeforeStep(mem, blocks, k);
    if k + 1 < |blocks| {
      NextBlockAt(mem, blocks, base, end, k + 1);
    }
  }

  /**
   * An iteration at a free block right after the pending one: once the two
   * are merged (block k of the heap absorbed into block k - 1), the walk has
   * visited one more original block, the merged block is pending, and the
   * heap has one free pair less to merge.
   */
  lemma {:induction false} MergeAdvance(mem0: Memory, blocks0: seq<nat>, lists0: seq<seq<Word>>,
                                        mem: Memory, blocks: seq<nat>, lists: seq<seq<Word>>,
                                        base: nat, end: nat, ll: seq<Blk>, n: nat, k: nat, cur: Word, prev: Word)
    requires Tiling(mem0, blocks0, base, end) && WalkAt(mem0, blocks0, end, lists0, ll, n, k, cur, Some(prev))
    requires cur < end && !AllocatedAt(mem0, cur)
    requires |blocks| + 1 == |blocks0| && blocks[k..] == blocks0[k + 1..] && blocks[k - 1] == prev
    requires LayoutOf(mem, blocks) ==
               Absorb(LayoutOf(mem0, blocks0)[..k], LayoutOf(mem0, blocks0)[k]) + LayoutOf(mem0, blocks0)[k + 1..]
    requires !AllocatedAt(mem, prev) && Listed(lists) == FreeBefore(mem, blocks, k) - {prev}
    ensures WalkAt(mem, blocks, end, lists, ll, n + 1, k, cur + SizeAt(mem0, cur), Some(prev))
    ensures FreePairs(ll[..n + 1]) == FreePairs(ll[..n]) + 1
  {
    var l := LayoutOf(mem0, blocks0);
    VisitedCurrent(mem0, blocks0, base, end, ll, n, k, cur);
    PrefixStep(ll, n);
    WalkAdvance(ll, n, l);
    assert l[k] == Blk(SizeAt(mem0, cur), AllocatedAt(mem0, cur));
    assert l[k - 1] == Blk(SizeAt(mem0, prev), AllocatedAt(mem0, prev));
    AbsorbMerges(l, k);
    assert |LayoutOf(mem, blocks)| == |blocks|;
    if k < |blocks| {
      assert blocks[k] == blocks0[k + 1];
      NextBlockAt(mem0, blocks0, base, end, k + 1);
    }
  }
}
