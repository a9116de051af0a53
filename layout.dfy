/**
 * The heap as a sequence of blocks in address order, and what one
 * coalescing pass makes of it (coalesce_heap in src/my_alloc.c).
 *
 * Sequences are built and taken apart at their END, the way the pass walks
 * the heap: from the base upward, one block at a time.
 */
module BlockLayout {

  /** A block as the coalescing pass sees it: its size and its allocated flag. */
  datatype Blk = Blk(size: nat, isAllocated: bool)

  function Last<T>(s: seq<T>): T
    requires |s| > 0
  {
    s[|s| - 1]
  }

  function DropLast<T>(s: seq<T>): seq<T>
    requires |s| > 0
  {
    s[..|s| - 1]
  }

  /** The bytes the blocks cover. */
  function TotalSize(l: seq<Blk>): nat
  {
    if l == [] then 0 else TotalSize(DropLast(l)) + Last(l).size
  }

  /** The allocated blocks, by offset from the start of the sequence, with their sizes. */
  function LiveBlocks(l: seq<Blk>): map<nat, nat>
  {
    if l == [] then map[]
    else if Last(l).isAllocated then LiveBlocks(DropLast(l))[TotalSize(DropLast(l)) := Last(l).size]
    else LiveBlocks(DropLast(l))
  }

  /** The number of adjacent pairs of free blocks. */
  function FreePairs(l: seq<Blk>): nat
  {
    if |l| < 2 then 0
    else FreePairs(DropLast(l)) + (if !l[|l| - 2].isAllocated && !Last(l).isAllocated then 1 else 0)
  }

  /** The length of the run of free blocks at the end of the sequence. */
  function TrailingFree(l: seq<Blk>): nat
  {
    if l == [] || Last(l).isAllocated then 0 else TrailingFree(DropLast(l)) + 1
  }

  /** No two adjacent blocks are both free. */
  ghost predicate NoAdjacentFree(l: seq<Blk>)
  {
    forall i :: 0 <= i < |l| - 1 ==> l[i].isAllocated || l[i + 1].isAllocated
  }

  /**
   * One step of the pass: the next block in address order joins the
   * result, fused into the last block when both are free.
   */
  function Absorb(m: seq<Blk>, b: Blk): seq<Blk>
  {
    if |m| > 0 && !Last(m).isAllocated && !b.isAllocated
    then DropLast(m) + [Blk(Last(m).size + b.size, false)]
    else m + [b]
  }

  /** The blocks after a coalescing pass over `l`. */
  function Coalesce(l: seq<Blk>): seq<Blk>
  {
    if l == [] then [] else Absorb(Coalesce(DropLast(l)), Last(l))
  }

  lemma {:induction false} TotalSizeAppend(m: seq<Blk>, b: Blk)
    ensures TotalSize(m + [b]) == TotalSize(m) + b.size
  {
    assert DropLast(m + [b]) == m;
  }

  lemma {:induction false} AbsorbTotalSize(m: seq<Blk>, b: Blk)
    ensures TotalSize(Absorb(m, b)) == TotalSize(m) + b.size
  {
    if |m| > 0 && !Last(m).isAllocated && !b.isAllocated {
      TotalSizeAppend(DropLast(m), Blk(Last(m).size + b.size, false));
    } else {
      TotalSizeAppend(m, b);
    }
  }

  /** Coalescing neither creates nor loses a byte. */
  lemma {:induction false} CoalescePreservesTotalSize(l: seq<Blk>)
    ensures TotalSize(Coalesce(l)) == TotalSize(l)
  {
    if l != [] {
      CoalescePreservesTotalSize(DropLast(l));
      AbsorbTotalSize(Coalesce(DropLast(l)), Last(l));
    }
  }

  /** The last block of the result is free exactly when the last input block is. */
  lemma {:induction false} CoalesceLast(l: seq<Blk>)
    ensures |Coalesce(l)| <= |l|
    ensures l != [] ==> |Coalesce(l)| > 0 && Last(Coalesce(l)).isAllocated == Last(l).isAllocated
  {
    if l != [] {
      CoalesceLast(DropLast(l));
    }
  }

  /** After coalescing, every run of free blocks is a single block. */
  lemma {:induction false} CoalesceLeavesNoAdjacentFree(l: seq<Blk>)
    ensures NoAdjacentFree(Coalesce(l))
  {
    if l != [] {
      var m := Coalesce(DropLast(l));
      CoalesceLeavesNoAdjacentFree(DropLast(l));
      var r := Absorb(m, Last(l));
      forall i | 0 <= i < |r| - 1
        ensures r[i].isAllocated || r[i + 1].isAllocated
      {
        assert r[i] == m[i];
        if i + 1 < |m| {
          assert r[i + 1] == m[i + 1] || i + 1 == |m| - 1;
        }
      }
    }
  }

  /** Each merge removes exactly one block. */
  lemma {:induction false} CoalesceCountsMerges(l: seq<Blk>)
    ensures |Coalesce(l)| + FreePairs(l) == |l|
  {
    if l != [] {
      CoalesceCountsMerges(DropLast(l));
      CoalesceLast(DropLast(l));
      if |l| >= 2 {
        assert Last(DropLast(l)) == l[|l| - 2];
      }
    }
  }

  lemma {:induction false} AbsorbLiveBlocks(m: seq<Blk>, b: Blk)
    ensures LiveBlocks(Absorb(m, b)) ==
              if b.isAllocated then LiveBlocks(m)[TotalSize(m) := b.size] else LiveBlocks(m)
  {
    if |m| > 0 && !Last(m).isAllocated && !b.isAllocated {
      var f := Blk(Last(m).size + b.size, false);
      assert DropLast(DropLast(m) + [f]) == DropLast(m);
    } else {
      assert DropLast(m + [b]) == m;
    }
  }

  /** Allocated blocks keep their offsets and their sizes; no other block is allocated. */
  lemma {:induction false} CoalescePreservesLiveBlocks(l: seq<Blk>)
    ensures LiveBlocks(Coalesce(l)) == LiveBlocks(l)
  {
    if l != [] {
      CoalescePreservesLiveBlocks(DropLast(l));
      CoalescePreservesTotalSize(DropLast(l));
      AbsorbLiveBlocks(Coalesce(DropLast(l)), Last(l));
    }
  }

  /** The pass over one more block is one more step. */
  lemma PrefixStep(l: seq<Blk>, k: nat)
    requires k < |l|
    ensures Coalesce(l[..k + 1]) == Absorb(Coalesce(l[..k]), l[k])
    ensures TrailingFree(l[..k + 1]) == if l[k].isAllocated then 0 else TrailingFree(l[..k]) + 1
    ensures FreePairs(l[..k + 1]) ==
              FreePairs(l[..k]) + if 0 < k && !l[k - 1].isAllocated && !l[k].isAllocated then 1 else 0
  {
    assert DropLast(l[..k + 1]) == l[..k];
  }

  /** A step that does not merge appends block k unchanged. */
  lemma {:induction false} AbsorbAppends(l: seq<Blk>, k: nat)
    requires k < |l| && (k == 0 || l[k - 1].isAllocated || l[k].isAllocated)
    ensures Absorb(l[..k], l[k]) + l[k + 1..] == l && |Absorb(l[..k], l[k])| == k + 1
  {
    if k > 0 {
      assert Last(l[..k]) == l[k - 1];
    }
    assert l[..k] + [l[k]] + l[k + 1..] == l;
  }

  /** A step that merges fuses blocks k - 1 and k into one free block. */
  lemma {:induction false} AbsorbMerges(l: seq<Blk>, k: nat)
    requires 0 < k < |l| && !l[k - 1].isAllocated && !l[k].isAllocated
    ensures Absorb(l[..k], l[k]) + l[k + 1..] == l[..k - 1] + [Blk(l[k - 1].size + l[k].size, false)] + l[k + 1..]
    ensures |Absorb(l[..k], l[k])| == k
  {
    assert Last(l[..k]) == l[k - 1] && DropLast(l[..k]) == l[..k - 1];
  }

  /**
   * The unlisted_block flag of coalesce_heap after the walk over `l`, as
   * written: a merge sets it, an allocated block clears it, and a free block
   * that starts a new run leaves it as it was.
   */
  function UnlistedFlag(l: seq<Blk>): bool
  {
    if l == [] then false
    else if Last(l).isAllocated then false
    else if TrailingFree(DropLast(l)) > 0 then true
    else UnlistedFlag(DropLast(l))
  }

  /** The flag is set exactly when the walk ends in a run of at least two free blocks. */
  lemma {:induction false} UnlistedFlagMeansMerged(l: seq<Blk>)
    ensures UnlistedFlag(l) <==> TrailingFree(l) >= 2
  {
    if l != [] && !Last(l).isAllocated && TrailingFree(DropLast(l)) == 0 {
      var m := DropLast(l);
      if m != [] {
        assert Last(m).isAllocated;
      }
    }
  }

  /** One more block visited: how the run length and the flag move. */
  lemma {:induction false} FlagStep(l: seq<Blk>, n: nat)
    requires n < |l|
    ensures TrailingFree(l[..n + 1]) == if l[n].isAllocated then 0 else TrailingFree(l[..n]) + 1
    ensures UnlistedFlag(l[..n + 1]) ==
              if l[n].isAllocated then false else TrailingFree(l[..n]) > 0 || UnlistedFlag(l[..n])
  {
    PrefixStep(l, n);
    assert DropLast(l[..n + 1]) == l[..n] && Last(l[..n + 1]) == l[n];
  }

  /**
   * As written, coalesce_heap files its last free block only when the flag
   * is set: a heap that ends in an allocated block followed by one free block
   * comes out of the pass with that free block in no bucket.
   */
  lemma LoneTrailingFreeBlockLeftOut()
    ensures var l := [Blk(32, true), Blk(48, false)];
            !UnlistedFlag(l) && TrailingFree(l) == 1 && !Last(Coalesce(l)).isAllocated
  {
    var l := [Blk(32, true), Blk(48, false)];
    assert DropLast(l) == [Blk(32, true)];
    assert DropLast([Blk(32, true)]) == [];
  }

  /**
   * Where the pass stands after n blocks: the coalesced prefix followed by
   * the blocks not yet visited. One more step absorbs block n.
   */
  lemma {:induction false} WalkAdvance(ll: seq<Blk>, n: nat, l: seq<Blk>)
    requires n < |ll| && l == Coalesce(ll[..n]) + ll[n..]
    ensures var k := |Coalesce(ll[..n])|;
            k < |l| && l[..k] == Coalesce(ll[..n]) && l[k] == ll[n] && l[k + 1..] == ll[n + 1..] &&
            Absorb(l[..k], l[k]) == Coalesce(ll[..n + 1]) &&
            Absorb(l[..k], l[k]) + l[k + 1..] == Coalesce(ll[..n + 1]) + ll[n + 1..] &&
            (0 < k <==> 0 < n) && (0 < k ==> l[k - 1].isAllocated == ll[n - 1].isAllocated)
  {
    var k := |Coalesce(ll[..n])|;
    CoalesceLast(ll[..n]);
    if 0 < n {
      assert Last(ll[..n]) == ll[n - 1];
    }
    assert l[..k] == Coalesce(ll[..n]);
    assert l[k..] == ll[n..];
    assert l[k + 1..] == ll[n + 1..];
    PrefixStep(ll, n);
  }
}
