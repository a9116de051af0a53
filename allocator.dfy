/**
 * The allocator of src/my_alloc.c as one object: the heap memory, the
 * bucket array size_class_arr, the heap end and the two block counters
 * are its fields, and every routine that updates them is a method.
 *
 * Next to the real state the object keeps a ghost description of the heap:
 * `blocks`, the blocks from `origin` to `heapEnd` in address order, and
 * `lists`, the node sequence of every bucket. Valid() ties the header
 * words in `mem` to both.
 */
module Allocator {
  import opened HeaderCodec
  import opened SizeClass
  import opened BlockLayout
  import opened HeapModel
  import opened CoalesceWalk

  /** heap_base_ptr: NULL before the first heap_init, (void *) -1 after a failed sbrk(0). */
  datatype BasePtr = Null | SbrkError | Base(offset: Word)

  /** The number of blocks from which my_alloc considers coalescing. */
  const COALESCE_MIN_BLOCKS: nat := 50

  /** The largest request my_alloc serves: its aligned size still has a bucket. */
  const MAX_REQUEST: nat := HEAP_LIMIT - 32

  /** The index of the first node of xs whose block holds at least req bytes; |xs| when none does. */
  ghost function FirstFit(mem: Memory, xs: seq<Word>, req: nat): (k: nat)
    ensures k <= |xs|
    ensures forall i :: 0 <= i < k ==> SizeAt(mem, xs[i]) < req
    ensures k < |xs| ==> req <= SizeAt(mem, xs[k])
  {
    if xs == [] then 0
    else if req <= SizeAt(mem, xs[0]) then 0
    else 1 + FirstFit(mem, xs[1..], req)
  }

  /** The first bucket from d on that is not empty; |lists| when all are. */
  ghost function FirstNonEmpty(lists: seq<seq<Word>>, d: nat): (e: nat)
    requires d <= |lists|
    ensures d <= e <= |lists|
    ensures forall i :: d <= i < e ==> lists[i] == []
    ensures e < |lists| ==> lists[e] != []
    decreases |lists| - d
  {
    if d == |lists| then d
    else if lists[d] != [] then d
    else FirstNonEmpty(lists, d + 1)
  }

  /**
   * The state get_block leaves when it takes node k of bucket c, its first
   * fit: the node is unlinked from its predecessor (or from the array) and
   * leaves the bucket, and the free-block count goes down by one.
   */
  ghost predicate NodeTaken(mem0: Memory, lists0: seq<seq<Word>>, free0: nat,
                            mem: Memory, lists: seq<seq<Word>>, free: nat, c: nat, k: nat)
  {
    c < |lists0| && k < |lists0[c]| && lists0[c][k] in mem0 && (0 < k ==> lists0[c][k - 1] in mem0) &&
    mem == UnlinkedMemory(mem0, lists0[c][k], if k == 0 then None else Some(lists0[c][k - 1])) &&
    lists == lists0[c := lists0[c][..k] + lists0[c][k + 1..]] && free + 1 == free0
  }

  /**
   * The last block of the heap when the blocks `l` a walk started from end
   * in exactly one free block: the block coalesce_heap, as written, leaves
   * out of every bucket.
   */
  ghost function LoneTail(blocks: seq<nat>, l: seq<Blk>): set<nat>
  {
    if TrailingFree(l) == 1 && blocks != [] then {Last(blocks)} else {}
  }

  /**
   * The state split_block leaves when block b, block j of the heap, is cut
   * to req bytes: nothing changes when fewer than MIN_SPLIT_REMAINDER bytes
   * would be left over; otherwise b keeps req bytes and the rest becomes a
   * new free block right after it, filed at the head of the bucket of its
   * size, and only the headers of b and of the new block change.
   */
  ghost predicate BlockSplit(mem0: Memory, blocks0: seq<nat>, lists0: seq<seq<Word>>, total0: nat, free0: nat,
                             mem: Memory, blocks: seq<nat>, lists: seq<seq<Word>>, total: nat, free: nat,
                             b: Word, j: nat, req: nat)
  {
    j < |blocks0| &&
    if SizeAt(mem0, b) < req + MIN_SPLIT_REMAINDER then
      mem == mem0 && blocks == blocks0 && lists == lists0 && total == total0 && free == free0
    else
      var c := SizeClassIndex(SizeAt(mem0, b) - req);
      blocks == SplitAt(blocks0, j, req) && SizeAt(mem, b) == req &&
      SizeAt(mem, b + req) == SizeAt(mem0, b) - req && total == total0 + 1 && free == free0 + 1 &&
      c < |lists0| && b + req < WORD_LIMIT && lists == lists0[c := [b + req] + lists0[c]] &&
      mem == mem0[b := Load(mem, b)][b + req := Load(mem, b + req)]
  }

  /**
   * The state get_block leaves when it takes the head b of bucket e, block j
   * of the heap, and splits it to req bytes: b leaves the bucket; when at
   * least MIN_SPLIT_REMAINDER bytes are left over, b keeps req bytes and the
   * rest becomes a new free block right after it, filed in the bucket of its
   * size. Only the headers of b and of the new block change.
   */
  ghost predicate HeadTaken(mem0: Memory, blocks0: seq<nat>, lists0: seq<seq<Word>>, total0: nat, free0: nat,
                            mem: Memory, blocks: seq<nat>, lists: seq<seq<Word>>, total: nat, free: nat,
                            e: nat, j: nat, req: nat)
  {
    e < |lists0| && lists0[e] != [] && j < |blocks0| && blocks0[j] == lists0[e][0] &&
    var b := lists0[e][0];
    var lists1 := lists0[e := lists0[e][1..]];
    if SizeAt(mem0, b) < req + MIN_SPLIT_REMAINDER then
      mem == mem0[b := Load(mem, b)] && SizeAt(mem, b) == SizeAt(mem0, b) &&
      blocks == blocks0 && lists == lists1 && total == total0 && free + 1 == free0
    else
      var c := SizeClassIndex(SizeAt(mem0, b) - req);
      mem == mem0[b := Load(mem, b)][b + req := Load(mem, b + req)] &&
      SizeAt(mem, b) == req && SizeAt(mem, b + req) == SizeAt(mem0, b) - req &&
      blocks == SplitAt(blocks0, j, req) && b + req < WORD_LIMIT && c < |lists1| &&
      lists == lists1[c := [b + req] + lists1[c]] &&
      total == total0 + 1 && free == free0
  }

  /**
   * The head of bucket e taken out (the state mem1/lists1 after remove_block)
   * and then split (the state after split_block) is HeadTaken.
   */
  lemma {:induction false} HeadTakenBySteps(mem0: Memory, blocks0: seq<nat>, lists0: seq<seq<Word>>, total0: nat, free0: nat,
                                            mem1: Memory, blocks1: seq<nat>, lists1: seq<seq<Word>>, total1: nat, free1: nat,
                                            mem: Memory, blocks: seq<nat>, lists: seq<seq<Word>>, total: nat, free: nat,
                                            e: nat, b: Word, j: nat, req: Word)
    requires |lists0| == SIZE_CLASS_COUNT && e < |lists0| && lists0[e] != [] && b == lists0[e][0] && b in mem0 && j < |blocks0| && blocks0[j] == b
    requires mem1 == UnlinkedMemory(mem0, b, None) && blocks1 == blocks0 && total1 == total0
    requires lists1 == lists0[e := lists0[e][..0] + lists0[e][0 + 1..]] && free1 + 1 == free0
    requires BlockSplit(mem1, blocks1, lists1, total1, free1, mem, blocks, lists, total, free, b, j, req)
    ensures HeadTaken(mem0, blocks0, lists0, total0, free0, mem, blocks, lists, total, free, e, j, req)
  {
    assert lists0[e][..0] + lists0[e][0 + 1..] == lists0[e][1..];
    assert mem1 == mem0[b := Load(mem1, b)] && SizeAt(mem1, b) == SizeAt(mem0, b);
  }

  /** The address heap_base_ptr holds: NULL is 0 and the (void *) -1 of a failed sbrk is 2^64 - 1. */
  function BaseAddress(p: BasePtr): Word
  {
    match p
    case Null => 0
    case SbrkError => WORD_LIMIT - 1
    case Base(a) => a
  }

  class Allocator {
    var heapBase: BasePtr
    var heapEnd: nat
    var mem: Memory
    const sizeClassArr: array<Option<Word>>
    var totalBlockCount: nat
    var freeBlockCount: nat

    ghost var blocks: seq<nat>
    ghost var lists: seq<seq<Word>>
    ghost var origin: nat
    /** What the counters held when heap_init last ran (it does not reset them). */
    ghost var staleTotal: nat
    ghost var staleFree: nat

    ghost predicate Valid()
      reads this, sizeClassArr
    {
      sizeClassArr.Length == SIZE_CLASS_COUNT &&
      Tiling(mem, blocks, origin, heapEnd) &&
      (forall a :: a in mem ==> a < heapEnd) &&
      BucketArray(mem, sizeClassArr[..], lists, blocks) &&
      totalBlockCount == staleTotal + |blocks| &&
      freeBlockCount == staleFree + ListedCount(lists) &&
      (heapBase.Base? ==> heapBase.offset == origin) &&
      (heapBase.Null? ==> heapEnd == 0 && blocks == [])
    }

    /** The allocated blocks: address to size. */
    ghost function Live(): map<nat, nat>
      reads this
    {
      LiveOf(mem, blocks)
    }

    /** The static initial state: no heap yet, every bucket empty, both counters zero. */
    constructor ()
      ensures Valid()
      ensures heapBase == Null && heapEnd == 0 && mem == map[] && blocks == []
      ensures totalBlockCount == 0 && freeBlockCount == 0
      ensures forall c :: 0 <= c < SIZE_CLASS_COUNT ==> sizeClassArr[c].None?
    {
      heapBase := Null;
      heapEnd := 0;
      mem := map[];
      sizeClassArr := new Option<Word>[SIZE_CLASS_COUNT](_ => None);
      totalBlockCount := 0;
      freeBlockCount := 0;
      blocks := [];
      lists := EmptyLists(SIZE_CLASS_COUNT);
      origin := 0;
      staleTotal := 0;
      staleFree := 0;
      new;
      ListedCountEmpty(SIZE_CLASS_COUNT);
      EmptyBuckets(mem, sizeClassArr[..], blocks);
    }

    /**
     * insert_block: marks block b free and pushes it on bucket c. The
     * list-end flag is set when the bucket was empty and cleared otherwise
     * (the clearing is the correction recorded under Findings).
     */
    method InsertBlock(b: Word, c: nat)
      requires Valid()
      requires b in blocks && Unlisted(lists, b)
      requires c == SizeClassIndex(SizeAt(mem, b)) && c < SIZE_CLASS_COUNT
      modifies this, sizeClassArr
      ensures Valid()
      ensures mem == old(mem)[b := PushLink(SetBlockFree(Load(old(mem), b)), old(sizeClassArr[c]))]
      ensures sizeClassArr[..] == old(sizeClassArr[..])[c := Some(b)]
      ensures lists == old(lists)[c := [b] + old(lists[c])]
      ensures Listed(lists) == old(Listed(lists)) + {b as nat}
      ensures freeBlockCount == old(freeBlockCount) + 1 && totalBlockCount == old(totalBlockCount)
      ensures heapBase == old(heapBase) && heapEnd == old(heapEnd) && blocks == old(blocks)
      ensures origin == old(origin) && staleTotal == old(staleTotal) && staleFree == old(staleFree)
      ensures SizeAt(mem, b) == old(SizeAt(mem, b)) && !AllocatedAt(mem, b)
      ensures Live() == old(Live()) - {b as nat}
    {
      ghost var mem0, heads0, lists0 := mem, sizeClassArr[..], lists;
      BlockHasClass(mem, blocks, origin, heapEnd, b);
      var h := SetBlockFree(Load(mem, b));
      var next := sizeClassArr[c];
      sizeClassArr[c] := Some(b);
      h := SetNextBlockPtr(h, AddressOrNull(next));
      freeBlockCount := freeBlockCount + 1;
      if next.None? {
        h := SetBlockListEnd(h);
      } else {
        h := UnsetBlockListEnd(h);
      }
      mem := mem[b := h];
      lists := lists[c := [b] + lists[c]];
      assert sizeClassArr[..] == heads0[c := Some(b)];
      InsertKeepsHeap(mem0, mem, heads0, lists0, blocks, origin, heapEnd, b, c);
    }

    /**
     * remove_block: unlinks node i of bucket c, given its predecessor `prev`
     * (None for the head). The predecessor takes over the node's link and,
     * when the node was the tail, its list-end flag; the node's own flag is
     * cleared. No size or allocated flag changes.
     */
    method RemoveBlock(cur: Word, prev: Option<Word>, c: nat, ghost i: nat)
      requires Valid()
      requires c < SIZE_CLASS_COUNT && i < |lists[c]| && cur == lists[c][i]
      requires prev == if i == 0 then None else Some(lists[c][i - 1])
      modifies this, sizeClassArr
      ensures Valid()
      ensures lists == old(lists)[c := old(lists[c][..i] + lists[c][i + 1..])]
      ensures Listed(lists) == old(Listed(lists)) - {cur as nat}
      ensures i == 0 ==> sizeClassArr[..] == old(sizeClassArr[..])[c := if i + 1 < |old(lists[c])| then Some(old(lists[c][1])) else None]
      ensures i > 0 ==> sizeClassArr[..] == old(sizeClassArr[..])
      ensures freeBlockCount == old(freeBlockCount) - 1 && totalBlockCount == old(totalBlockCount)
      ensures heapBase == old(heapBase) && heapEnd == old(heapEnd) && blocks == old(blocks)
      ensures origin == old(origin) && staleTotal == old(staleTotal) && staleFree == old(staleFree)
      ensures cur in old(mem) && (prev.Some? ==> prev.value in old(mem)) && mem == UnlinkedMemory(old(mem), cur, prev)
      ensures Live() == old(Live()) && LayoutOf(mem, blocks) == old(LayoutOf(mem, blocks))
    {
      ListNodeInHeap(mem, sizeClassArr[..], lists, blocks, origin, heapEnd, c, i);
      if i > 0 {
        ListNodeInHeap(mem, sizeClassArr[..], lists, blocks, origin, heapEnd, c, i - 1);
      }
      ghost var mem1 := UnlinkedMemory(mem, cur, prev);
      ghost var heads1 := if i == 0 then sizeClassArr[..][c := ListSuccessor(Load(mem, cur))] else sizeClassArr[..];
      RemoveKeepsHeap(mem, mem1, sizeClassArr[..], heads1, lists, blocks, origin, heapEnd, c, i);
      var h := Load(mem, cur);
      var next: Option<Word>;
      if IsListEnd(h) {
        next := None;
      } else {
        next := Some(GetNextBlockPtr(h));
      }
      if prev.None? {
        sizeClassArr[c] := next;
      } else {
        var p := SetNextBlockPtr(Load(mem, prev.value), AddressOrNull(next));
        if IsListEnd(h) {
          p := SetBlockListEnd(p);
        }
        mem := mem[prev.value := p];
      }
      freeBlockCount := freeBlockCount - 1;
      mem := mem[cur := UnsetBlockListEnd(Load(mem, cur))];
      assert mem == mem1;
      assert sizeClassArr[..] == heads1;
      lists := lists[c := lists[c][..i] + lists[c][i + 1..]];
    }

    /**
     * split_block: block b (index j of the heap), free and taken off its
     * list, keeps its first `req` bytes; when at least 24 bytes would be
     * left, they become a new block right after it, pushed on the bucket of
     * their size. Otherwise nothing changes.
     */
    method SplitBlock(b: Word, req: Word, ghost j: nat)
      requires Valid()
      requires j < |blocks| && b == blocks[j] && Unlisted(lists, b) && !AllocatedAt(mem, b)
      requires req % 16 == 0 && HEADER_SIZE <= req <= SizeAt(mem, b)
      modifies this, sizeClassArr
      ensures Valid()
      ensures old(SizeAt(mem, b)) < req + MIN_SPLIT_REMAINDER ==>
                mem == old(mem) && blocks == old(blocks) && lists == old(lists) &&
                totalBlockCount == old(totalBlockCount) && freeBlockCount == old(freeBlockCount)
      ensures old(SizeAt(mem, b)) >= req + MIN_SPLIT_REMAINDER ==>
                blocks == SplitAt(old(blocks), j, req) && SizeAt(mem, b) == req &&
                SizeAt(mem, b + req) == old(SizeAt(mem, b)) - req &&
                totalBlockCount == old(totalBlockCount) + 1 && freeBlockCount == old(freeBlockCount) + 1
      ensures old(SizeAt(mem, b)) >= req + MIN_SPLIT_REMAINDER ==>
                var c := SizeClassIndex(old(SizeAt(mem, b)) - req);
                c < SIZE_CLASS_COUNT && b + req < WORD_LIMIT && lists == old(lists)[c := [b + req] + old(lists[c])] &&
                mem == old(mem)[b := Load(mem, b)][b + req := Load(mem, b + req)]
      ensures BlockSplit(old(mem), old(blocks), old(lists), old(totalBlockCount), old(freeBlockCount),
                         mem, blocks, lists, totalBlockCount, freeBlockCount, b, j, req)
      ensures b in blocks && Unlisted(lists, b) && !AllocatedAt(mem, b) && Live() == old(Live())
      ensures heapBase == old(heapBase) && heapEnd == old(heapEnd)
      ensures origin == old(origin) && staleTotal == old(staleTotal) && staleFree == old(staleFree)
    {
      var oldSize := GetBlockSize(Load(mem, b));
      if oldSize - req < MIN_SPLIT_REMAINDER {
        return;
      }
      SplitOff(b, req, j);
    }

    /** The body of split_block once the rest is known to be large enough: carve, then file the rest. */
    method SplitOff(b: Word, req: Word, ghost j: nat)
      requires Valid()
      requires j < |blocks| && b == blocks[j] && Unlisted(lists, b) && !AllocatedAt(mem, b)
      requires req % 16 == 0 && HEADER_SIZE <= req && req + MIN_SPLIT_REMAINDER <= SizeAt(mem, b)
      modifies this, sizeClassArr
      ensures Valid()
      ensures blocks == SplitAt(old(blocks), j, req) && SizeAt(mem, b) == req &&
              SizeAt(mem, b + req) == old(SizeAt(mem, b)) - req &&
              totalBlockCount == old(totalBlockCount) + 1 && freeBlockCount == old(freeBlockCount) + 1
      ensures var c := SizeClassIndex(old(SizeAt(mem, b)) - req);
              c < SIZE_CLASS_COUNT && b + req < WORD_LIMIT && lists == old(lists)[c := [b + req] + old(lists[c])]
      ensures mem == old(mem)[b := Load(mem, b)][b + req := Load(mem, b + req)]
      ensures b in blocks && Unlisted(lists, b) && !AllocatedAt(mem, b) && Live() == old(Live())
      ensures heapBase == old(heapBase) && heapEnd == old(heapEnd)
      ensures origin == old(origin) && staleTotal == old(staleTotal) && staleFree == old(staleFree)
    {
      ghost var lists0 := lists;
      var oldSize := GetBlockSize(Load(mem, b));
      var next := CarveBlock(b, req, j);
      var c := SizeClassIndex(oldSize - req);
      assert lists == lists0 && SizeAt(mem, next) == oldSize - req && next == b + req;
      InsertBlock(next, c);
    }

    /**
     * The two header writes of split_block: block b keeps `req` bytes and
     * the header right after them gets the rest. The new block is free in
     * effect (no allocated block gains or loses a byte) and in no list yet.
     */
    method CarveBlock(b: Word, req: Word, ghost j: nat) returns (next: Word)
      requires Valid()
      requires j < |blocks| && b == blocks[j] && Unlisted(lists, b) && !AllocatedAt(mem, b)
      requires req % 16 == 0 && HEADER_SIZE <= req && req + MIN_SPLIT_REMAINDER <= SizeAt(mem, b)
      modifies this
      ensures Valid()
      ensures next == b + req && blocks == SplitAt(old(blocks), j, req) && next in blocks
      ensures mem == old(mem)[b := Load(mem, b)][next := Load(mem, next)]
      ensures SizeAt(mem, b) == req && !AllocatedAt(mem, b)
      ensures SizeAt(mem, next) == old(SizeAt(mem, b)) - req && Unlisted(lists, next)
      ensures SizeClassIndex(SizeAt(mem, next)) < SIZE_CLASS_COUNT
      ensures LiveOf(mem, blocks) - {next as nat} == old(Live())
      ensures lists == old(lists) && totalBlockCount == old(totalBlockCount) + 1 && freeBlockCount == old(freeBlockCount)
      ensures heapBase == old(heapBase) && heapEnd == old(heapEnd)
      ensures origin == old(origin) && staleTotal == old(staleTotal) && staleFree == old(staleFree)
    {
      BlockHasClass(mem, blocks, origin, heapEnd, b);
      ghost var live0 := Live();
      var m := mem;
      var oldSize := GetBlockSize(Load(m, b));
      BlockSizeRoundTrip(Load(m, b), req);
      m := m[b := SetBlockSize(Load(m, b), req)];
      ghost var m1 := m;
      next := b + GetBlockSize(Load(m, b));
      assert next == b + req;
      m := m[next := SetBlockSize(Load(m, next), oldSize - req)];
      CarveKeepsHeap(mem, m1, m, sizeClassArr[..], lists, blocks, origin, heapEnd, j, req);
      ghost var blocks' := SplitAt(blocks, j, req);
      assert LiveOf(m, blocks') - {next as nat} == live0;
      mem, blocks, totalBlockCount := m, blocks', totalBlockCount + 1;
      assert blocks[j + 1] == next;
      SizeClassInRange(oldSize - req);
    }

    /**
     * merge_blocks: block `lower` (index j of the heap) absorbs the block
     * right after it. Both are free and in no list, and both stay out of
     * the lists; the block counter goes down by one.
     */
    method MergeBlocks(lower: Word, upper: Word, ghost j: nat)
      requires Valid()
      requires j + 1 < |blocks| && lower == blocks[j] && upper == blocks[j + 1]
      requires !AllocatedAt(mem, lower) && !AllocatedAt(mem, upper)
      requires Unlisted(lists, lower) && Unlisted(lists, upper)
      modifies this
      ensures Valid()
      ensures blocks == old(blocks[..j + 1] + blocks[j + 2..])
      ensures mem == old(mem)[lower := Load(mem, lower)]
      ensures SizeAt(mem, lower) == old(SizeAt(mem, lower) + SizeAt(mem, upper)) && !AllocatedAt(mem, lower)
      ensures LayoutOf(mem, blocks) ==
                old(LayoutOf(mem, blocks)[..j] + [Blk(SizeAt(mem, lower) + SizeAt(mem, upper), false)] +
                    LayoutOf(mem, blocks)[j + 2..])
      ensures Live() == old(Live())
      ensures lists == old(lists) && totalBlockCount == old(totalBlockCount) - 1 && freeBlockCount == old(freeBlockCount)
      ensures heapBase == old(heapBase) && heapEnd == old(heapEnd)
      ensures origin == old(origin) && staleTotal == old(staleTotal) && staleFree == old(staleFree)
    {
      AdjacentBlocks(mem, blocks, origin, heapEnd, j);
      var newSize := GetBlockSize(Load(mem, lower)) + GetBlockSize(Load(mem, upper));
      var m := mem[lower := SetBlockSize(Load(mem, lower), newSize)];
      AlignedSum(SizeAt(mem, lower), SizeAt(mem, upper));
      MergeWrite(mem, m, lower, newSize);
      MergeKeepsHeap(mem, m, sizeClassArr[..], lists, blocks, origin, heapEnd, j);
      mem, blocks, totalBlockCount := m, blocks[..j + 1] + blocks[j + 2..], totalBlockCount - 1;
    }

    /**
     * The first loop of get_block: walks bucket c from its head, keeping the
     * predecessor, until it meets a block of at least `req` bytes (found) or
     * the end of the list (not found). It changes nothing.
     */
    method FindFit(c: nat, req: Word) returns (found: bool, cur: Word, prev: Option<Word>, ghost k: nat)
      requires Valid() && c < SIZE_CLASS_COUNT && lists[c] != []
      ensures k < |lists[c]| && cur == lists[c][k] && prev == (if k == 0 then None else Some(lists[c][k - 1]))
      ensures found <==> FirstFit(mem, lists[c], req) < |lists[c]|
      ensures found ==> k == FirstFit(mem, lists[c], req)
    {
      BucketHead(mem, sizeClassArr[..], lists, blocks, c);
      cur := sizeClassArr[c].value;
      prev := None;
      k := 0;
      while GetBlockSize(Load(mem, cur)) < req
        invariant k < |lists[c]| && cur == lists[c][k] && prev == (if k == 0 then None else Some(lists[c][k - 1]))
        invariant forall i :: 0 <= i < k ==> SizeAt(mem, lists[c][i]) < req
        decreases |lists[c]| - k
      {
        ListStep(mem, sizeClassArr[..], lists, blocks, c, k);
        if IsListEnd(Load(mem, cur)) {
          return false, cur, prev, k;
        }
        prev := Some(cur);
        cur := GetNextBlockPtr(Load(mem, cur));
        k := k + 1;
      }
      found := true;
    }

    /**
     * The second loop of get_block: the first bucket from d on whose head
     * is not NULL, or SIZE_CLASS_COUNT when there is none. It changes nothing.
     */
    method FindNonEmpty(d: nat) returns (i: nat)
      requires Valid() && d <= SIZE_CLASS_COUNT
      ensures i == FirstNonEmpty(lists, d)
      ensures i < SIZE_CLASS_COUNT ==> sizeClassArr[i] == Some(lists[i][0])
    {
      i := d;
      while i < SIZE_CLASS_COUNT && sizeClassArr[i].None?
        invariant d <= i <= SIZE_CLASS_COUNT
        invariant forall e :: d <= e < i ==> lists[e] == []
        decreases SIZE_CLASS_COUNT - i
      {
        BucketHead(mem, sizeClassArr[..], lists, blocks, i);
        i := i + 1;
      }
      if i < SIZE_CLASS_COUNT {
        BucketHead(mem, sizeClassArr[..], lists, blocks, i);
      }
    }

    /**
     * get_block: a block of at least `req` bytes, taken off its list, from
     * the bucket of `req` (first fit) or else, split, from the head of the
     * first non-empty bucket above it. When the bucket of `req` is empty the
     * higher buckets are not searched.
     */
    method GetBlock(req: Word) returns (r: Option<Word>, ghost j: nat)
      requires Valid()
      requires req % 16 == 0 && HEADER_SIZE <= req && SizeClassIndex(req) < SIZE_CLASS_COUNT
      modifies this, sizeClassArr
      ensures Valid()
      ensures var c := SizeClassIndex(req);
              var xs := old(lists[c]);
              var k := old(FirstFit(mem, lists[c], req));
              var e := old(FirstNonEmpty(lists, c + 1));
              (r.None? <==> xs == [] || (k == |xs| && e == SIZE_CLASS_COUNT)) &&
              (k < |xs| ==> r == Some(xs[k])) &&
              (xs != [] && k == |xs| && e < SIZE_CLASS_COUNT ==> r == Some(old(lists[e][0])))
      ensures var c := SizeClassIndex(req);
              var k := old(FirstFit(mem, lists[c], req));
              var e := old(FirstNonEmpty(lists, c + 1));
              (k < old(|lists[c]|) ==>
                 NodeTaken(old(mem), old(lists), old(freeBlockCount), mem, lists, freeBlockCount, c, k) &&
                 blocks == old(blocks) && totalBlockCount == old(totalBlockCount)) &&
              (old(lists[c]) != [] && k == old(|lists[c]|) && e < SIZE_CLASS_COUNT ==>
                 HeadTaken(old(mem), old(blocks), old(lists), old(totalBlockCount), old(freeBlockCount),
                           mem, blocks, lists, totalBlockCount, freeBlockCount, e, j, req))
      ensures r.None? ==>
                mem == old(mem) && blocks == old(blocks) && lists == old(lists) &&
                totalBlockCount == old(totalBlockCount) && freeBlockCount == old(freeBlockCount)
      ensures r.Some? ==> r.value in blocks && Unlisted(lists, r.value) && !AllocatedAt(mem, r.value) && req <= SizeAt(mem, r.value)
      ensures Live() == old(Live())
      ensures heapBase == old(heapBase) && heapEnd == old(heapEnd)
      ensures origin == old(origin) && staleTotal == old(staleTotal) && staleFree == old(staleFree)
    {
      var c := SizeClassIndex(req);
      BucketHead(mem, sizeClassArr[..], lists, blocks, c);
      if sizeClassArr[c].None? {
        return None, 0;
      }
      var found, cur, prev, k := FindFit(c, req);
      if found {
        TakeNode(cur, prev, c, k, req);
        return Some(cur), 0;
      }
      r, j := TakeFromHigher(c, req);
    }

    /** The first loop of get_block once it found a fit: node k of bucket c leaves the bucket. */
    method TakeNode(cur: Word, prev: Option<Word>, c: nat, ghost k: nat, req: Word)
      requires Valid()
      requires c < SIZE_CLASS_COUNT && k < |lists[c]| && cur == lists[c][k]
      requires prev == (if k == 0 then None else Some(lists[c][k - 1]))
      requires req <= SizeAt(mem, cur)
      modifies this, sizeClassArr
      ensures Valid()
      ensures NodeTaken(old(mem), old(lists), old(freeBlockCount), mem, lists, freeBlockCount, c, k)
      ensures blocks == old(blocks) && totalBlockCount == old(totalBlockCount)
      ensures cur in blocks && Unlisted(lists, cur) && !AllocatedAt(mem, cur) && req <= SizeAt(mem, cur)
      ensures Live() == old(Live())
      ensures heapBase == old(heapBase) && heapEnd == old(heapEnd)
      ensures origin == old(origin) && staleTotal == old(staleTotal) && staleFree == old(staleFree)
    {
      ListNodeInHeap(mem, sizeClassArr[..], lists, blocks, origin, heapEnd, c, k);
      RemoveBlock(cur, prev, c, k);
      NotListedIsUnlisted(lists, cur);
    }

    /**
     * The second loop of get_block: the head of the first non-empty bucket
     * above c is taken out and split to req bytes. Every block there is
     * larger than req.
     */
    method TakeFromHigher(c: nat, req: Word) returns (r: Option<Word>, ghost j: nat)
      requires Valid()
      requires req % 16 == 0 && HEADER_SIZE <= req && c == SizeClassIndex(req) && c < SIZE_CLASS_COUNT
      modifies this, sizeClassArr
      ensures Valid()
      ensures var e := old(FirstNonEmpty(lists, c + 1));
              (r.None? <==> e == SIZE_CLASS_COUNT) && (e < SIZE_CLASS_COUNT ==> r == Some(old(lists[e][0])))
      ensures var e := old(FirstNonEmpty(lists, c + 1));
              e < SIZE_CLASS_COUNT ==>
                HeadTaken(old(mem), old(blocks), old(lists), old(totalBlockCount), old(freeBlockCount),
                          mem, blocks, lists, totalBlockCount, freeBlockCount, e, j, req)
      ensures r.None? ==>
                mem == old(mem) && blocks == old(blocks) && lists == old(lists) &&
                totalBlockCount == old(totalBlockCount) && freeBlockCount == old(freeBlockCount)
      ensures r.Some? ==> r.value in blocks && Unlisted(lists, r.value) && !AllocatedAt(mem, r.value) && req <= SizeAt(mem, r.value)
      ensures Live() == old(Live())
      ensures heapBase == old(heapBase) && heapEnd == old(heapEnd)
      ensures origin == old(origin) && staleTotal == old(staleTotal) && staleFree == old(staleFree)
    {
      var i := FindNonEmpty(c + 1);
      if i == SIZE_CLASS_COUNT {
        return None, 0;
      }
      var head;
      head, j := TakeHead(i, req);
      return Some(head), j;
    }

    /**
     * The body of the second loop of get_block at the first non-empty bucket
     * e above the request's: its head comes out of the bucket and is split
     * to req bytes.
     */
    method TakeHead(e: nat, req: Word) returns (head: Word, ghost j: nat)
      requires Valid()
      requires req % 16 == 0 && HEADER_SIZE <= req && SizeClassIndex(req) < e < SIZE_CLASS_COUNT && lists[e] != []
      requires sizeClassArr[e] == Some(lists[e][0])
      modifies this, sizeClassArr
      ensures Valid()
      ensures head == old(lists[e][0])
      ensures HeadTaken(old(mem), old(blocks), old(lists), old(totalBlockCount), old(freeBlockCount),
                        mem, blocks, lists, totalBlockCount, freeBlockCount, e, j, req)
      ensures head in blocks && Unlisted(lists, head) && !AllocatedAt(mem, head) && req <= SizeAt(mem, head)
      ensures Live() == old(Live())
      ensures heapBase == old(heapBase) && heapEnd == old(heapEnd)
      ensures origin == old(origin) && staleTotal == old(staleTotal) && staleFree == old(staleFree)
    {
      head := sizeClassArr[e].value;
      ListNodeInHeap(mem, sizeClassArr[..], lists, blocks, origin, heapEnd, e, 0);
      ghost var mem0, blocks0, lists0, total0, free0 := mem, blocks, lists, totalBlockCount, freeBlockCount;
      RemoveBlock(head, None, e, 0);
      ghost var mem1, blocks1, lists1, total1, free1 := mem, blocks, lists, totalBlockCount, freeBlockCount;
      NotListedIsUnlisted(lists, head);
      HigherClassIsLarger(req, SizeAt(mem, head));
      j :| 0 <= j < |blocks| && blocks[j] == head;
      SplitBlock(head, req, j);
      HeadTakenBySteps(mem0, blocks0, lists0, total0, free0, mem1, blocks1, lists1, total1, free1,
                       mem, blocks, lists, totalBlockCount, freeBlockCount, e, head, j, req);
    }

    /** Sets every entry of size_class_arr to NULL. */
    method ClearBuckets()
      requires sizeClassArr.Length == SIZE_CLASS_COUNT
      modifies sizeClassArr
      ensures forall c :: 0 <= c < SIZE_CLASS_COUNT ==> sizeClassArr[c].None?
    {
      for i := 0 to SIZE_CLASS_COUNT
        invariant forall c :: 0 <= c < i ==> sizeClassArr[c].None?
      {
        sizeClassArr[i] := None;
      }
    }

    /**
     * The pending free block of coalesce_heap, block k - 1, is filed in the
     * bucket of its size; every free block before it already is.
     */
    method FileRun(b: Word, ghost k: nat)
      requires Valid()
      requires 0 < k <= |blocks| && b == blocks[k - 1] && !AllocatedAt(mem, b)
      requires Listed(lists) == FreeBefore(mem, blocks, k) - {b}
      modifies this, sizeClassArr
      ensures Valid()
      ensures blocks == old(blocks) && LayoutOf(mem, blocks) == old(LayoutOf(mem, blocks))
      ensures mem == old(mem)[b := Load(mem, b)]
      ensures Listed(lists) == FreeBefore(mem, blocks, k)
      ensures totalBlockCount == old(totalBlockCount) && Live() == old(Live())
      ensures heapBase == old(heapBase) && heapEnd == old(heapEnd)
      ensures origin == old(origin) && staleTotal == old(staleTotal) && staleFree == old(staleFree)
    {
      ghost var mem0 := mem;
      FreeBeforeExcludes(mem, blocks, origin, heapEnd, k - 1);
      FreeBeforeStep(mem, blocks, k - 1);
      BlockHasClass(mem, blocks, origin, heapEnd, b);
      NotListedIsUnlisted(lists, b);
      InsertBlock(b, SizeClassIndex(GetBlockSize(Load(mem, b))));
      LayoutAfterWrite(mem0, mem, blocks, b);
      FreeBeforeFrame(mem0, blocks, mem, blocks, k);
    }

    /**
     * The walk of coalesce_heap at a free block k right after the pending
     * free block k - 1: the two are merged and the merged block stays
     * pending.
     */
    method MergeRun(cur: Word, prev: Word, ghost k: nat)
      requires Valid()
      requires 0 < k < |blocks| && cur == blocks[k] && prev == blocks[k - 1]
      requires !AllocatedAt(mem, cur) && !AllocatedAt(mem, prev)
      requires Listed(lists) == FreeBefore(mem, blocks, k) - {prev}
      modifies this, sizeClassArr
      ensures Valid()
      ensures |blocks| == old(|blocks|) - 1 && blocks[k..] == old(blocks[k + 1..]) && blocks[k - 1] == prev
      ensures LayoutOf(mem, blocks) ==
                Absorb(old(LayoutOf(mem, blocks))[..k], old(LayoutOf(mem, blocks))[k]) + old(LayoutOf(mem, blocks))[k + 1..]
      ensures !AllocatedAt(mem, prev)
      ensures Listed(lists) == FreeBefore(mem, blocks, k) - {prev}
      ensures Load(mem, cur) == old(Load(mem, cur))
      ensures totalBlockCount + 1 == old(totalBlockCount)
      ensures Live() == old(Live())
      ensures heapBase == old(heapBase) && heapEnd == old(heapEnd)
      ensures origin == old(origin) && staleTotal == old(staleTotal) && staleFree == old(staleFree)
    {
      ghost var l := LayoutOf(mem, blocks);
      assert l[k] == Blk(SizeAt(mem, cur), AllocatedAt(mem, cur));
      assert l[k - 1] == Blk(SizeAt(mem, prev), AllocatedAt(mem, prev));
      FreeBeforeExcludes(mem, blocks, origin, heapEnd, k);
      AbsorbMerges(l, k);
      NotListedIsUnlisted(lists, prev);
      NotListedIsUnlisted(lists, cur);
      ghost var mem0, blocks0 := mem, blocks;
      ghost var merged := l[..k - 1] + [Blk(l[k - 1].size + l[k].size, false)] + l[k + 1..];
      MergeBlocks(prev, cur, k - 1);
      assert LayoutOf(mem, blocks) == merged;
      FreeBeforeFrame(mem0, blocks0, mem, blocks, k);
    }

    /**
     * The state of the walk of coalesce_heap over the heap whose blocks, at
     * the start of the walk, were `ll` (see CoalesceWalk.WalkAt).
     */
    ghost predicate Walk(ll: seq<Blk>, n: nat, k: nat, cur: nat, prev: Option<Word>)
      reads this, sizeClassArr
    {
      Valid() && heapBase.Base? && WalkAt(mem, blocks, heapEnd, lists, ll, n, k, cur, prev)
    }

    /**
     * The iteration of the walk of coalesce_heap at an allocated block: the
     * pending free block, if any, is filed, and none is pending after.
     */
    method CloseStep(cur: Word, prev: Option<Word>, ghost ll: seq<Blk>, ghost n: nat, ghost k: nat)
      returns (cur': Word, ghost k': nat)
      requires Walk(ll, n, k, cur, prev) && cur < heapEnd && IsAllocated(Load(mem, cur))
      modifies this, sizeClassArr
      ensures Walk(ll, n + 1, k', cur', None)
      ensures TrailingFree(ll[..n + 1]) == 0 && !UnlistedFlag(ll[..n + 1])
      ensures totalBlockCount + FreePairs(ll[..n + 1]) == old(totalBlockCount) + FreePairs(ll[..n])
      ensures Live() == old(Live())
      ensures heapBase == old(heapBase) && heapEnd == old(heapEnd)
      ensures origin == old(origin) && staleTotal == old(staleTotal) && staleFree == old(staleFree)
    {
      VisitedCurrent(mem, blocks, origin, heapEnd, ll, n, k, cur);
      FlagStep(ll, n);
      if prev.Some? {
        ghost var mem0 := mem;
        FileRun(prev.value, k);
        VisitedFrame(mem0, mem, blocks, heapEnd, ll, n, k, cur);
        VisitedCurrent(mem, blocks, origin, heapEnd, ll, n, k, cur);
      }
      AppendAdvance(mem, blocks, origin, heapEnd, lists, ll, n, k, cur);
      k' := k + 1;
      cur' := cur + GetBlockSize(Load(mem, cur));
    }

    /** The iteration of the walk of coalesce_heap at a free block when none is pending. */
    method StartStep(cur: Word, ghost ll: seq<Blk>, ghost n: nat, ghost k: nat)
      returns (cur': Word, prev': Option<Word>, ghost k': nat)
      requires Walk(ll, n, k, cur, None) && cur < heapEnd && !IsAllocated(Load(mem, cur))
      ensures Walk(ll, n + 1, k', cur', prev') && prev' == Some(cur)
      ensures TrailingFree(ll[..n + 1]) == TrailingFree(ll[..n]) + 1
      ensures UnlistedFlag(ll[..n + 1]) == (TrailingFree(ll[..n]) > 0 || UnlistedFlag(ll[..n]))
      ensures FreePairs(ll[..n + 1]) == FreePairs(ll[..n])
    {
      AppendAdvance(mem, blocks, origin, heapEnd, lists, ll, n, k, cur);
      VisitedCurrent(mem, blocks, origin, heapEnd, ll, n, k, cur);
      FlagStep(ll, n);
      prev', k' := Some(cur), k + 1;
      cur' := cur + GetBlockSize(Load(mem, cur));
    }

    /** The iteration of the walk of coalesce_heap at a free block that follows the pending one. */
    method MergeStep(cur: Word, prev: Word, ghost ll: seq<Blk>, ghost n: nat, ghost k: nat)
      returns (cur': Word, ghost k': nat)
      requires Walk(ll, n, k, cur, Some(prev)) && cur < heapEnd && !IsAllocated(Load(mem, cur))
      modifies this, sizeClassArr
      ensures Walk(ll, n + 1, k', cur', Some(prev))
      ensures TrailingFree(ll[..n + 1]) == TrailingFree(ll[..n]) + 1
      ensures UnlistedFlag(ll[..n + 1]) == (TrailingFree(ll[..n]) > 0 || UnlistedFlag(ll[..n]))
      ensures totalBlockCount + FreePairs(ll[..n + 1]) == old(totalBlockCount) + FreePairs(ll[..n])
      ensures Live() == old(Live())
      ensures heapBase == old(heapBase) && heapEnd == old(heapEnd)
      ensures origin == old(origin) && staleTotal == old(staleTotal) && staleFree == old(staleFree)
    {
      VisitedCurrent(mem, blocks, origin, heapEnd, ll, n, k, cur);
      FlagStep(ll, n);
      ghost var mem0, blocks0, lists0 := mem, blocks, lists;
      MergeRun(cur, prev, k);
      MergeAdvance(mem0, blocks0, lists0, mem, blocks, lists, origin, heapEnd, ll, n, k, cur, prev);
      k' := k;
      cur' := cur + GetBlockSize(Load(mem, cur));
    }

    /**
     * The start of coalesce_heap: every bucket is emptied, and with them the
     * free-block count.
     */
    method EmptyAllBuckets()
      requires Valid()
      modifies this, sizeClassArr
      ensures Valid()
      ensures Listed(lists) == {} && ListedCount(lists) == 0 && freeBlockCount == 0 && staleFree == 0
      ensures mem == old(mem) && blocks == old(blocks) && totalBlockCount == old(totalBlockCount)
      ensures heapBase == old(heapBase) && heapEnd == old(heapEnd) && origin == old(origin) && staleTotal == old(staleTotal)
    {
      ClearBuckets();
      lists := EmptyLists(SIZE_CLASS_COUNT);
      freeBlockCount := 0;
      staleFree := 0;
      ListedCountEmpty(SIZE_CLASS_COUNT);
      EmptyBuckets(mem, sizeClassArr[..], blocks);
    }

    /**
     * The end of coalesce_heap as written: the pending free block is filed
     * only when unlisted_block is set, that is when it absorbed another
     * block. A heap that ends in a single free block after an allocated one
     * (or alone) keeps that block out of every bucket (see Findings).
     */
    method FileLastRun(prev: Option<Word>, unlisted: bool, ghost ll: seq<Blk>, ghost k: nat)
      requires Walk(ll, |ll|, k, heapEnd, prev)
      requires unlisted == UnlistedFlag(ll) && (prev.Some? <==> TrailingFree(ll) > 0)
      modifies this, sizeClassArr
      ensures Valid()
      ensures Listed(lists) == FreeBefore(mem, blocks, |blocks|) - LoneTail(blocks, ll)
      ensures LayoutOf(mem, blocks) == old(LayoutOf(mem, blocks)) && blocks == old(blocks)
      ensures totalBlockCount == old(totalBlockCount) && Live() == old(Live())
      ensures heapBase == old(heapBase) && heapEnd == old(heapEnd)
      ensures origin == old(origin) && staleTotal == old(staleTotal) && staleFree == old(staleFree)
    {
      UnlistedFlagMeansMerged(ll);
      if unlisted {
        FilePendingRun(prev, ll, k);
      }
    }

    /**
     * The end of coalesce_heap as intended: the free block that ends the
     * heap, when there is one, is filed in its bucket, so that every free
     * block is in a bucket after the pass.
     */
    method FilePendingRun(prev: Option<Word>, ghost ll: seq<Blk>, ghost k: nat)
      requires Walk(ll, |ll|, k, heapEnd, prev)
      modifies this, sizeClassArr
      ensures Valid()
      ensures Listed(lists) == FreeBefore(mem, blocks, |blocks|)
      ensures LayoutOf(mem, blocks) == old(LayoutOf(mem, blocks)) && blocks == old(blocks)
      ensures totalBlockCount == old(totalBlockCount) && Live() == old(Live())
      ensures heapBase == old(heapBase) && heapEnd == old(heapEnd)
      ensures origin == old(origin) && staleTotal == old(staleTotal) && staleFree == old(staleFree)
    {
      if prev.Some? {
        FileRun(prev.value, k);
      }
    }

    /**
     * The loop of coalesce_heap: from the first block to heap_end, every
     * block is visited once, in address order.
     */
    method WalkHeap(start: Word, ghost ll: seq<Blk>) returns (prev: Option<Word>, unlisted: bool, ghost k: nat)
      requires Walk(ll, 0, 0, start, None)
      modifies this, sizeClassArr
      ensures Walk(ll, |ll|, k, heapEnd, prev)
      ensures unlisted == UnlistedFlag(ll) && (prev.Some? <==> TrailingFree(ll) > 0)
      ensures LayoutOf(mem, blocks) == Coalesce(ll)
      ensures totalBlockCount + FreePairs(ll) == old(totalBlockCount)
      ensures Live() == old(Live())
      ensures heapBase == old(heapBase) && heapEnd == old(heapEnd)
      ensures origin == old(origin) && staleTotal == old(staleTotal) && staleFree == old(staleFree)
    {
      prev, unlisted, k := None, false, 0;
      var cur: Word := start;
      ghost var n := 0;
      while cur < heapEnd
        invariant Walk(ll, n, k, cur, prev)
        invariant unlisted == UnlistedFlag(ll[..n]) && (prev.Some? <==> TrailingFree(ll[..n]) > 0)
        invariant totalBlockCount + FreePairs(ll[..n]) == old(totalBlockCount)
        invariant Live() == old(Live())
        invariant heapBase == old(heapBase) && heapEnd == old(heapEnd)
        invariant origin == old(origin) && staleTotal == old(staleTotal) && staleFree == old(staleFree)
        decreases |blocks| - k
      {
        if IsAllocated(Load(mem, cur)) {
          cur, k := CloseStep(cur, prev, ll, n, k);
          unlisted := false;
          prev := None;
        } else if prev.None? {
          cur, prev, k := StartStep(cur, ll, n, k);
        } else {
          cur, k := MergeStep(cur, prev.value, ll, n, k);
          unlisted := true;
        }
        n := n + 1;
      }
      assert n == |ll| && ll[..n] == ll && ll[n..] == [];
    }

    /**
     * coalesce_heap: empties every bucket, then walks the heap from its base
     * in address order, fusing every run of adjacent free blocks into one
     * block and filing each such block in the bucket of its size. The walk
     * only starts from a heap base that sbrk returned.
     */
    method CoalesceHeap()
      requires Valid()
      modifies this, sizeClassArr
      ensures Valid()
      ensures old(heapBase).Base? ==> LayoutOf(mem, blocks) == Coalesce(old(LayoutOf(mem, blocks)))
      ensures old(heapBase).Base? ==> totalBlockCount + FreePairs(old(LayoutOf(mem, blocks))) == old(totalBlockCount)
      ensures old(heapBase).Base? ==>
                Listed(lists) == FreeBefore(mem, blocks, |blocks|) - LoneTail(blocks, old(LayoutOf(mem, blocks)))
      ensures !old(heapBase).Base? ==>
                mem == old(mem) && blocks == old(blocks) && totalBlockCount == old(totalBlockCount) && Listed(lists) == {}
      ensures freeBlockCount == ListedCount(lists) && staleFree == 0
      ensures Live() == old(Live())
      ensures heapBase == old(heapBase) && heapEnd == old(heapEnd) && origin == old(origin) && staleTotal == old(staleTotal)
    {
      EmptyAllBuckets();
      var cur: Word := BaseAddress(heapBase);
      if blocks != [] {
        NextBlockAt(mem, blocks, origin, heapEnd, 0);
      }
      if cur >= heapEnd {
        // An empty heap; NULL leaves heap_end at 0 and (void *) -1 lies above every break.
        return;
      }
      ghost var ll := LayoutOf(mem, blocks);
      assert ll[..0] == [] && ll[0..] == ll;
      ghost var k;
      var prev, unlisted;
      prev, unlisted, k := WalkHeap(cur, ll);
      FileLastRun(prev, unlisted, ll, k);
    }

    /**
     * alloc_new_block: asks sbrk for `size` more bytes and makes them one
     * free, unlisted block at the old heap end. `grant` is sbrk's answer;
     * a break that would pass HEAP_LIMIT is refused as well.
     */
    method AllocNewBlock(size: Word, grant: bool) returns (r: Option<Word>)
      requires Valid() && !heapBase.Null?
      requires size % 16 == 0 && HEADER_SIZE <= size
      modifies this
      ensures Valid()
      ensures r.Some? <==> grant && old(heapEnd) + size < HEAP_LIMIT
      ensures r.None? ==> mem == old(mem) && blocks == old(blocks) && heapEnd == old(heapEnd) &&
                          totalBlockCount == old(totalBlockCount)
      ensures r.Some? ==>
                r.value == old(heapEnd) && heapEnd == old(heapEnd) + size && blocks == old(blocks) + [r.value] &&
                mem == old(mem)[r.value := Load(mem, r.value)] &&
                SizeAt(mem, r.value) == size && !AllocatedAt(mem, r.value) && Unlisted(lists, r.value) &&
                totalBlockCount == old(totalBlockCount) + 1
      ensures Live() == old(Live()) && lists == old(lists) && freeBlockCount == old(freeBlockCount)
      ensures heapBase == old(heapBase) && origin == old(origin) && staleTotal == old(staleTotal) && staleFree == old(staleFree)
    {
      var newBlock: Word := heapEnd;
      if !grant || heapEnd + size >= HEAP_LIMIT {
        return None;
      }
      AppendBlock(size);
      return Some(newBlock);
    }

    /** The granted part of alloc_new_block: a free block of `size` bytes at the old break. */
    method AppendBlock(size: Word)
      requires Valid() && !heapBase.Null?
      requires size % 16 == 0 && HEADER_SIZE <= size && heapEnd + size < HEAP_LIMIT
      modifies this
      ensures Valid()
      ensures heapEnd == old(heapEnd) + size && blocks == old(blocks) + [old(heapEnd)]
      ensures mem == old(mem)[old(heapEnd) := Load(mem, old(heapEnd))]
      ensures SizeAt(mem, old(heapEnd)) == size && !AllocatedAt(mem, old(heapEnd)) && Unlisted(lists, old(heapEnd))
      ensures totalBlockCount == old(totalBlockCount) + 1
      ensures Live() == old(Live()) && lists == old(lists) && freeBlockCount == old(freeBlockCount)
      ensures heapBase == old(heapBase) && origin == old(origin) && staleTotal == old(staleTotal) && staleFree == old(staleFree)
    {
      var newBlock: Word := heapEnd;
      var newEnd: Word := heapEnd + size;
      var m := mem[newBlock := SetBlockSize(Load(mem, newBlock), size)];
      ghost var blocks' := blocks + [newBlock as nat];
      AppendKeepsHeap(mem, m, sizeClassArr[..], lists, blocks, blocks', origin, heapEnd, newEnd, size);
      heapEnd := newEnd;
      mem := m;
      blocks := blocks';
      totalBlockCount := totalBlockCount + 1;
    }

    /**
     * heap_init: the heap starts at the current break, given as `brk`
     * (None when sbrk(0) fails). The buckets are emptied; blocks of an
     * earlier heap are forgotten and the counters are left as they were.
     */
    method HeapInit(brk: Option<Word>) returns (ok: bool)
      requires Valid()
      requires brk.Some? ==> brk.value % 16 == 0 && heapEnd <= brk.value < HEAP_LIMIT
      modifies this, sizeClassArr
      ensures Valid()
      ensures ok <==> brk.Some?
      ensures !ok ==> heapBase == SbrkError && heapEnd == old(heapEnd) && mem == old(mem) && blocks == old(blocks) &&
                      lists == old(lists) && sizeClassArr[..] == old(sizeClassArr[..]) && origin == old(origin) &&
                      staleTotal == old(staleTotal) && staleFree == old(staleFree)
      ensures ok ==> heapBase == Base(brk.value) && heapEnd == brk.value && blocks == [] && Live() == map[] &&
                     Listed(lists) == {} && forall c :: 0 <= c < SIZE_CLASS_COUNT ==> sizeClassArr[c].None?
      ensures totalBlockCount == old(totalBlockCount) && freeBlockCount == old(freeBlockCount)
    {
      if brk.None? {
        heapBase := SbrkError;
        return false;
      }
      ResetHeap(brk.value);
      return true;
    }

    /** The successful part of heap_init: an empty heap at the break, every bucket empty. */
    method ResetHeap(brk: Word)
      requires Valid()
      requires brk % 16 == 0 && heapEnd <= brk < HEAP_LIMIT
      modifies this, sizeClassArr
      ensures Valid()
      ensures heapBase == Base(brk) && heapEnd == brk && blocks == [] && Live() == map[] &&
              Listed(lists) == {} && forall c :: 0 <= c < SIZE_CLASS_COUNT ==> sizeClassArr[c].None?
      ensures totalBlockCount == old(totalBlockCount) && freeBlockCount == old(freeBlockCount)
    {
      heapBase := Base(brk);
      heapEnd := brk;
      ClearBuckets();
      origin := brk;
      blocks := [];
      lists := EmptyLists(SIZE_CLASS_COUNT);
      staleTotal, staleFree := totalBlockCount, freeBlockCount;
      ListedCountEmpty(SIZE_CLASS_COUNT);
      EmptyBuckets(mem, sizeClassArr[..], blocks);
    }

    /** set_block_allocated on a block just taken for a request. */
    method MarkAllocated(b: Word)
      requires Valid()
      requires b in blocks && Unlisted(lists, b)
      modifies this
      ensures Valid()
      ensures mem == old(mem)[b := SetBlockAllocated(old(Load(mem, b)))]
      ensures AllocatedAt(mem, b) && SizeAt(mem, b) == old(SizeAt(mem, b))
      ensures Live() == old(Live())[b := SizeAt(mem, b)]
      ensures blocks == old(blocks) && lists == old(lists) && heapEnd == old(heapEnd) && heapBase == old(heapBase)
      ensures totalBlockCount == old(totalBlockCount) && freeBlockCount == old(freeBlockCount)
      ensures origin == old(origin) && staleTotal == old(staleTotal) && staleFree == old(staleFree)
    {
      var m := mem[b := SetBlockAllocated(Load(mem, b))];
      AllocateKeepsHeap(mem, m, sizeClassArr[..], lists, blocks, origin, heapEnd, b);
      mem := m;
    }

    /**
     * The first part of my_alloc: the first call sets the heap up (brk is
     * what sbrk(0) returns); later calls coalesce when the heap has at least
     * 50 blocks and at least one block in eight is free, the count of free
     * blocks shifted left by three in size_t arithmetic.
     */
    method PrepareHeap(brk: Option<Word>) returns (ok: bool)
      requires Valid()
      requires heapBase.Null? && brk.Some? ==> brk.value % 16 == 0 && brk.value < HEAP_LIMIT
      modifies this, sizeClassArr
      ensures Valid()
      ensures ok <==> !(old(heapBase).Null? && brk.None?)
      ensures ok ==> !heapBase.Null?
      ensures old(heapBase).Null? && ok ==>
                heapBase == Base(brk.value) && heapEnd == brk.value && blocks == [] && Live() == map[] &&
                Listed(lists) == {} && forall c :: 0 <= c < SIZE_CLASS_COUNT ==> sizeClassArr[c].None?
      ensures old(heapBase).Base? && old(totalBlockCount) >= COALESCE_MIN_BLOCKS &&
              (old(freeBlockCount) * 8) % WORD_LIMIT >= old(totalBlockCount) ==>
                LayoutOf(mem, blocks) == Coalesce(old(LayoutOf(mem, blocks))) &&
                totalBlockCount + FreePairs(old(LayoutOf(mem, blocks))) == old(totalBlockCount) &&
                Listed(lists) == FreeBefore(mem, blocks, |blocks|) - LoneTail(blocks, old(LayoutOf(mem, blocks)))
      ensures !old(heapBase).Null? &&
              !(old(totalBlockCount) >= COALESCE_MIN_BLOCKS && (old(freeBlockCount) * 8) % WORD_LIMIT >= old(totalBlockCount)) ==>
                mem == old(mem) && blocks == old(blocks) && lists == old(lists) &&
                totalBlockCount == old(totalBlockCount) && freeBlockCount == old(freeBlockCount)
      ensures Live() == old(Live())
    {
      if heapBase.Null? {
        ok := HeapInit(brk);
      } else {
        ok := true;
        if totalBlockCount >= COALESCE_MIN_BLOCKS && (freeBlockCount * 8) % WORD_LIMIT >= totalBlockCount {
          CoalesceHeap();
        }
      }
    }

    /**
     * The second part of my_alloc: a block of at least req bytes from the
     * buckets, or else from a new block at the heap end, is marked
     * allocated.
     */
    method TakeBlock(req: Word, grant: bool) returns (r: Option<Word>)
      requires Valid() && !heapBase.Null?
      requires req % 16 == 0 && HEADER_SIZE <= req && SizeClassIndex(req) < SIZE_CLASS_COUNT
      modifies this, sizeClassArr
      ensures Valid()
      ensures r.None? ==> Live() == old(Live()) && (!grant || heapEnd + req >= HEAP_LIMIT)
      ensures r.Some? ==>
                r.value % 16 == 0 && r.value !in old(Live()) && req <= SizeAt(mem, r.value) &&
                Live() == old(Live())[r.value := SizeAt(mem, r.value)]
    {
      ghost var j;
      r, j := GetBlock(req);
      if r.None? {
        r := AllocNewBlock(req, grant);
        if r.None? {
          return;
        }
      }
      BlockHasClass(mem, blocks, origin, heapEnd, r.value);
      MarkAllocated(r.value);
    }

    /**
     * my_alloc: a block of at least size + 16 bytes that no allocation
     * holds and that overlaps none of them; its payload address comes back.
     * A request with no bucket for its aligned size is refused (the
     * correction recorded under Findings).
     */
    method MyAlloc(size: Word, brk: Option<Word>, grant: bool) returns (p: Option<Word>)
      requires Valid()
      requires heapBase.Null? && brk.Some? ==> brk.value % 16 == 0 && brk.value < HEAP_LIMIT
      modifies this, sizeClassArr
      ensures Valid()
      ensures p.None? ==> Live() == old(Live())
      ensures p.None? && size <= MAX_REQUEST ==>
                (old(heapBase).Null? && brk.None?) || !grant || heapEnd + GetAlignedSize(size) >= HEAP_LIMIT
      ensures p.Some? ==>
                var b := p.value - HEADER_SIZE;
                p.value % 16 == 0 && p.value >= HEADER_SIZE && b !in old(Live()) &&
                Live() == old(Live())[b := SizeAt(mem, b)] && size + HEADER_SIZE <= Live()[b]
      ensures p.Some? ==>
                var b := p.value - HEADER_SIZE;
                b in Live() && forall a :: a in Live() && a != b ==> a + Live()[a] <= b || b + Live()[b] <= a
    {
      if size > MAX_REQUEST {
        return None;
      }
      var req := GetAlignedSize(size);
      SizeClassInRange(req);
      ghost var live0 := Live();
      var ok := PrepareHeap(brk);
      if !ok {
        return None;
      }
      p := ServeRequest(size, req, grant);
    }

    /**
     * The rest of my_alloc once the heap is set up: a block for the aligned
     * size req is taken and marked allocated, and its payload address is
     * returned.
     */
    method ServeRequest(size: Word, req: Word, grant: bool) returns (p: Option<Word>)
      requires Valid() && !heapBase.Null?
      requires size <= MAX_REQUEST && req == GetAlignedSize(size) && SizeClassIndex(req) < SIZE_CLASS_COUNT
      modifies this, sizeClassArr
      ensures Valid()
      ensures p.None? ==> Live() == old(Live()) && (!grant || heapEnd + req >= HEAP_LIMIT)
      ensures p.Some? ==>
                var b := p.value - HEADER_SIZE;
                p.value % 16 == 0 && p.value >= HEADER_SIZE && b !in old(Live()) &&
                Live() == old(Live())[b := SizeAt(mem, b)] && size + HEADER_SIZE <= Live()[b]
      ensures p.Some? ==>
                var b := p.value - HEADER_SIZE;
                b in Live() && forall a :: a in Live() && a != b ==> a + Live()[a] <= b || b + Live()[b] <= a
    {
      var cur := TakeBlock(req, grant);
      if cur.None? {
        return None;
      }
      var b := cur.value;
      LiveAvoidsOthers(mem, blocks, origin, heapEnd, b);
      AlignedSum(b, HEADER_SIZE);
      p := Some(GetReturnPtr(b));
      assert p.value - HEADER_SIZE == b;
    }

    /**
     * my_free: the block of a payload address that my_alloc returned goes
     * back, free, to the bucket of its size.
     */
    method MyFree(p: Word)
      requires Valid()
      requires p >= HEADER_SIZE && p - HEADER_SIZE in Live()
      modifies this, sizeClassArr
      ensures Valid()
      ensures Live() == old(Live()) - {p - HEADER_SIZE}
      ensures var b := p - HEADER_SIZE;
              var c := SizeClassIndex(old(Live())[b]);
              c < SIZE_CLASS_COUNT && lists == old(lists)[c := [b] + old(lists[c])] && sizeClassArr[c] == Some(b)
      ensures freeBlockCount == old(freeBlockCount) + 1 && totalBlockCount == old(totalBlockCount)
      ensures blocks == old(blocks) && heapBase == old(heapBase) && heapEnd == old(heapEnd)
    {
      var b: Word := GetBlockPtr(p);
      assert b == p - HEADER_SIZE;
      var size := GetBlockSize(Load(mem, b));
      var c := SizeClassIndex(size);
      BlockHasClass(mem, blocks, origin, heapEnd, b);
      AllocatedIsUnlisted(mem, sizeClassArr[..], lists, blocks, b);
      InsertBlock(b, c);
    }
  }
}
