/** What single calls and pairs of calls mean for the clients of the heap. */
module HeapMeaning {
  import opened HeapMemory
  import opened HeapSpec
  import opened HeapLemmas

  // ----- Which block serves a request -----

  /** Rounding up to 8 loses nothing: a block fits the rounded size iff it fits the request. */
  lemma FitsNeed(segs: seq<Seg>, i: int, n: int)
    requires Tiles(segs) && 0 <= i < |segs| && 0 < n
    ensures Fits(segs, i, n) <==> !segs[i].used && Need(n) <= segs[i].size
  {
    assert SizeOk(segs, i);
  }

  /** The heap in which the block is chosen: expanded once when nothing fits. */
  function Searched(h: Heap, n: int): Heap
    requires h.segs != []
  {
    if FirstFit(h.segs, Need(n), 0) < |h.segs| then h else Expand(h, n)
  }

  function Chosen(h: Heap, n: int): nat
    requires h.segs != []
  {
    FirstFit(Searched(h, n).segs, Need(n), 0)
  }

  /** The guard of the splitting branch, on the heap before the call. */
  predicate TakesSplit(h: Heap, n: int)
    requires h.segs != []
  {
    var s, i := Searched(h, n).segs, Chosen(h, n);
    i < |s| && Splits(s, i, Need(n))
  }

  /** kmalloc is first fit in the searched heap. */
  lemma MallocShape(h: Heap, n: int)
    requires WellFormed(h) && 0 < n
    ensures WellFormed(Searched(h, n)) && Chosen(h, n) <= |Searched(h, n).segs|
    ensures Malloc(h, n).outcome == Failed <==> Chosen(h, n) == |Searched(h, n).segs|
    ensures Malloc(h, n).outcome == Failed ==> Malloc(h, n).heap == Searched(h, n) && Malloc(h, n).ptr == 0
    ensures Malloc(h, n).outcome != Failed ==>
              Malloc(h, n) == AllocateAt(Searched(h, n), Chosen(h, n), n, Malloc(h, n).grew)
    ensures Malloc(h, n).outcome != Failed ==> Malloc(h, n).ptr > START
    ensures Malloc(h, n).outcome == Split <==> TakesSplit(h, n)
  {
    ExpandKeeps(h, n);
    var s, i := Searched(h, n).segs, Chosen(h, n);
    if i < |s| { BlocksWithin(s, i); }
  }

  /** Where the allocated block ends up in the list. */
  lemma AllocatedBlock(h: Heap, n: int)
    requires WellFormed(h) && 0 < n && Malloc(h, n).outcome != Failed
    ensures WellFormed(Malloc(h, n).heap) && Chosen(h, n) < |Searched(h, n).segs|
    ensures IndexOf(Malloc(h, n).heap.segs, Malloc(h, n).ptr - HEADER, 0) == Chosen(h, n) < |Malloc(h, n).heap.segs|
    ensures Malloc(h, n).outcome == Split ==>
              Malloc(h, n).heap.segs == SplitSegs(Searched(h, n).segs, Chosen(h, n), Need(n))
    ensures Malloc(h, n).outcome == Whole ==> Malloc(h, n).heap.segs == Searched(h, n).segs
    ensures Malloc(h, n).heap.usedBlocks == (h.usedBlocks + 1) % UINT32
  {
    MallocShape(h, n);
    MallocKeeps(h, n);
    if Malloc(h, n).outcome == Split { SplitEntries(Searched(h, n).segs, Chosen(h, n), Need(n)); }
    IndexOfBlock(Malloc(h, n).heap.segs, Chosen(h, n));
  }

  /** If any block fits, the lowest-addressed one that fits serves the request and the heap does not grow. */
  lemma LowestFit(h: Heap, n: int, k: int)
    requires WellFormed(h) && 0 < n && 0 <= k < |h.segs| && Fits(h.segs, k, n)
    ensures Malloc(h, n).outcome != Failed && !Malloc(h, n).grew
    ensures var i := IndexOf(h.segs, Malloc(h, n).ptr - HEADER, 0);
            i < |h.segs| && Fits(h.segs, i, n) && h.segs[i].addr <= h.segs[k].addr
  {
    MallocShape(h, n);
    FitsNeed(h.segs, k, n);
    var i := FirstFit(h.segs, Need(n), 0);
    FitsNeed(h.segs, i, n);
    IndexOfBlock(h.segs, i);
    if i < k { BlocksInOrder(h.segs, i, k); }
  }

  /** If nothing fits: the answer is the old end plus a header exactly when there is room to grow and
      the request is at most 4064 bytes; a larger request grows the heap and still fails. */
  lemma ExpansionExact(h: Heap, n: int)
    requires WellFormed(h) && 0 < n
    requires forall k :: 0 <= k < |h.segs| ==> !Fits(h.segs, k, n)
    ensures Malloc(h, n).ptr == End(h.segs) + 32 <==> CanGrow(h, n) && n <= 4064
    ensures !(CanGrow(h, n) && n <= 4064) ==>
              Malloc(h, n) == Allocation(Expand(h, n), 0, Failed, CanGrow(h, n))
    ensures CanGrow(h, n) ==> WellFormed(Expand(h, n)) && Malloc(h, n).grew
    ensures CanGrow(h, n) && n <= 4064 ==> Malloc(h, n).outcome != Failed
  {
    ExpandKeeps(h, n);
    var i := FirstFit(h.segs, Need(n), 0);
    if i < |h.segs| { FitsNeed(h.segs, i, n); }
    BlocksWithin(h.segs, 0);
  }

  /** The block that serves a request: aligned, large enough, at most 95 bytes larger, and marked
      used exactly when it was split. */
  lemma MallocServes(h: Heap, n: int)
    requires WellFormed(h) && 0 < n && Malloc(h, n).outcome != Failed
    ensures var r := Malloc(h, n); var i := IndexOf(r.heap.segs, r.ptr - HEADER, 0);
            && r.ptr % 8 == 0
            && i < |r.heap.segs|
            && n + 32 <= r.heap.segs[i].size <= n + 95
            && (r.heap.segs[i].used <==> r.outcome == Split)
  {
    MallocShape(h, n);
    AllocatedBlock(h, n);
    NeedBounds(n);
    var s, i := Searched(h, n).segs, Chosen(h, n);
    BlocksAligned(s, i);
    assert SizeOk(s, i);
    SplitEntries(s, i, Need(n));
  }

  // ----- Which addresses are in use -----

  lemma SplitInUse(segs: seq<Seg>, i: nat, need: int, x: int)
    requires i < |segs| && !segs[i].used
    ensures InUse(SplitSegs(segs, i, need), x) <==>
              InUse(segs, x) || segs[i].addr <= x < segs[i].addr + need
  {
    var r := SplitSegs(segs, i, need);
    SplitEntries(segs, i, need);
    if InUse(segs, x) {
      var k :| 0 <= k < |segs| && segs[k].used && Covers(segs, k, x);
      assert Covers(r, if k < i then k else k + 1, x);
    }
    if segs[i].addr <= x < segs[i].addr + need { assert Covers(r, i, x); }
    if InUse(r, x) {
      var k :| 0 <= k < |r| && r[k].used && Covers(r, k, x);
      if k != i { assert Covers(segs, if k < i then k else k - 1, x); }
    }
  }

  lemma JoinInUse(segs: seq<Seg>, i: nat, x: int)
    requires i + 1 < |segs| && !segs[i].used && !segs[i + 1].used
    ensures InUse(Join(segs, i), x) <==> InUse(segs, x)
  {
    var r := Join(segs, i);
    JoinEntries(segs, i);
    if InUse(segs, x) {
      var k :| 0 <= k < |segs| && segs[k].used && Covers(segs, k, x);
      assert Covers(r, if k < i then k else k - 1, x);
    }
    if InUse(r, x) {
      var k :| 0 <= k < |r| && r[k].used && Covers(r, k, x);
      assert Covers(segs, if k < i then k else k + 1, x);
    }
  }

  lemma UnuseInUse(segs: seq<Seg>, i: nat, x: int)
    requires Tiles(segs) && i < |segs|
    ensures InUse(Unuse(segs, i), x) <==> InUse(segs, x) && !Covers(segs, i, x)
  {
    var r := Unuse(segs, i);
    if InUse(segs, x) {
      var k :| 0 <= k < |segs| && segs[k].used && Covers(segs, k, x);
      if k != i { assert Covers(r, k, x); }
      if k < i { BlocksInOrder(segs, k, i); }
      if i < k { BlocksInOrder(segs, i, k); }
    }
    if InUse(r, x) {
      var k :| 0 <= k < |r| && r[k].used && Covers(r, k, x);
      assert Covers(segs, k, x);
      if k < i { BlocksInOrder(segs, k, i); }
      if i < k { BlocksInOrder(segs, i, k); }
    }
  }

  /** Releasing a block takes exactly its addresses out of use. */
  lemma ReleaseInUse(segs: seq<Seg>, i: nat, x: int)
    requires Tiles(segs) && i < |segs|
    ensures InUse(Release(segs, i), x) <==> InUse(segs, x) && !Covers(segs, i, x)
  {
    var s1 := Unuse(segs, i);
    var s2 := MergeNext(s1, i);
    UnuseInUse(segs, i, x);
    if i + 1 < |s1| && !s1[i + 1].used { JoinInUse(s1, i, x); }
    if i > 0 && !s2[i - 1].used { JoinInUse(s2, i - 1, x); }
  }

  /** Which block boundaries a free removes: the successor's start if the successor is free, and the
      block's own start if the predecessor is free. No boundary is added. */
  lemma ReleaseStarts(segs: seq<Seg>, i: nat)
    requires Tiles(segs) && i < |segs|
    ensures Starts(Release(segs, i)) ==
            Starts(segs) - (if i + 1 < |segs| && !segs[i + 1].used then {segs[i + 1].addr} else {})
                         - (if i > 0 && !segs[i - 1].used then {segs[i].addr} else {})
  {
    var s1 := Unuse(segs, i);
    var s2 := MergeNext(s1, i);
    UnuseKeeps(segs, i);
    MergeNextKeeps(s1, i);
    assert forall k :: 0 <= k < |segs| ==> s1[k].addr == segs[k].addr;
    assert Starts(s1) == Starts(segs);
    if i + 1 < |s1| && !s1[i + 1].used { JoinStarts(s1, i); }
    if i > 0 && !s2[i - 1].used { JoinStarts(s2, i - 1); }
  }

  lemma JoinStarts(segs: seq<Seg>, i: nat)
    requires Tiles(segs) && i + 1 < |segs|
    ensures Starts(Join(segs, i)) == Starts(segs) - {segs[i + 1].addr}
  {
    var r := Join(segs, i);
    JoinEntries(segs, i);
    forall x
      ensures x in Starts(r) <==> x in Starts(segs) && x != segs[i + 1].addr
    {
      if x in Starts(r) {
        var k :| 0 <= k < |r| && r[k].addr == x;
        var j := if k <= i then k else k + 1;
        assert segs[j].addr == x;
        if j < i + 1 { BlocksInOrder(segs, j, i + 1); } else { BlocksInOrder(segs, i + 1, j); }
      }
      if x in Starts(segs) && x != segs[i + 1].addr {
        var k :| 0 <= k < |segs| && segs[k].addr == x;
        assert r[if k <= i then k else k - 1].addr == x;
      }
    }
  }

  lemma ExpandInUse(h: Heap, n: int, x: int)
    requires h.segs != []
    ensures InUse(Expand(h, n).segs, x) <==> InUse(h.segs, x)
  {
    var g := Expand(h, n).segs;
    if InUse(h.segs, x) {
      var k :| 0 <= k < |h.segs| && h.segs[k].used && Covers(h.segs, k, x);
      assert Covers(g, k, x);
    }
    if InUse(g, x) {
      var k :| 0 <= k < |g| && g[k].used && Covers(g, k, x);
      assert Covers(h.segs, k, x);
    }
  }

  /** A splitting allocation puts exactly its block into use; any other call changes nothing in use. */
  lemma MallocInUse(h: Heap, n: int, x: int)
    requires WellFormed(h) && 0 < n
    ensures var r := Malloc(h, n);
            InUse(r.heap.segs, x) <==>
              InUse(h.segs, x) || (r.outcome == Split && r.ptr - HEADER <= x < r.ptr - HEADER + Need(n))
  {
    MallocShape(h, n);
    ExpandInUse(h, n, x);
    var s, i := Searched(h, n).segs, Chosen(h, n);
    if i < |s| { SplitInUse(s, i, Need(n), x); }
  }

  // ----- Double free -----

  /** Right after a free, freeing the same pointer again changes nothing, even when the block has
      been merged away. */
  lemma FreeTwice(h: Heap, ptr: int)
    requires WellFormed(h)
    ensures Free(Free(h, ptr), ptr) == Free(h, ptr)
  {
    var i := IndexOf(h.segs, ptr - HEADER, 0);
    if ptr != 0 && i < |h.segs| && h.segs[i].used {
      var r := Free(h, ptr).segs;
      FreeKeeps(h, ptr);
      ReleaseInUse(h.segs, i, ptr - HEADER);
      assert SizeOk(h.segs, i);
      var k := IndexOf(r, ptr - HEADER, 0);
      if k < |r| && r[k].used {
        assert SizeOk(r, k);
        assert Covers(r, k, ptr - HEADER);
      }
    }
  }

  // ----- Allocate, then free -----

  lemma SplitThenRelease(segs: seq<Seg>, i: nat, need: int)
    requires i < |segs| && !segs[i].used
    ensures i < |SplitSegs(segs, i, need)|
    ensures Release(SplitSegs(segs, i, need), i) == MergePrev(segs, i)
  {
    var r := SplitSegs(segs, i, need);
    SplitEntries(segs, i, need);
    var s1 := Unuse(r, i);
    JoinEntries(s1, i);
    assert Join(s1, i) == segs;
  }

  lemma FreeUsedBlock(h: Heap, ptr: int)
    requires ptr != 0 && IndexOf(h.segs, ptr - HEADER, 0) < |h.segs|
    requires h.segs[IndexOf(h.segs, ptr - HEADER, 0)].used
    ensures Free(h, ptr) ==
            Heap(Release(h.segs, IndexOf(h.segs, ptr - HEADER, 0)), (h.usedBlocks - 1) % UINT32)
  {}

  /** Freeing a block right after it was split off, in terms of the list before the split. */
  lemma FreeUndoesSplit(h: Heap, i: nat, n: int)
    requires WellFormed(h) && 0 < n && i < |h.segs| && !h.segs[i].used && Splits(h.segs, i, Need(n))
    ensures var a := AllocateAt(h, i, n, false);
            Free(a.heap, a.ptr) == Heap(MergePrev(h.segs, i), h.usedBlocks)
  {
    NeedBounds(n);
    SplitKeeps(h, i, Need(n));
    BlocksWithin(h.segs, i);
    SplitEntries(h.segs, i, Need(n));
    IndexOfBlock(SplitSegs(h.segs, i, Need(n)), i);
    SplitThenRelease(h.segs, i, Need(n));
    FreeUsedBlock(AllocateAt(h, i, n, false).heap, AllocateAt(h, i, n, false).ptr);
  }

  lemma MergePrevInUse(segs: seq<Seg>, i: nat, x: int)
    requires i < |segs| && !segs[i].used
    ensures InUse(MergePrev(segs, i), x) <==> InUse(segs, x)
  {
    if i > 0 && !segs[i - 1].used { JoinInUse(segs, i - 1, x); }
  }

  lemma MergePrevSame(segs: seq<Seg>, i: nat)
    requires i < |segs|
    ensures MergePrev(segs, i) == segs <==> i == 0 || segs[i - 1].used
  {
    if i > 0 && !segs[i - 1].used { JoinEntries(segs, i - 1); }
  }

  /** A splitting allocation followed at once by its free leaves the same addresses in use and the
      same counter. It restores the block list exactly when the chosen block's predecessor, if any, is used. */
  lemma MallocThenFree(h: Heap, n: int)
    requires WellFormed(h) && 0 < n && TakesSplit(h, n)
    ensures var f := Free(Malloc(h, n).heap, Malloc(h, n).ptr); var s := Searched(h, n).segs; var i := Chosen(h, n);
            && f.usedBlocks == h.usedBlocks
            && (forall x :: InUse(f.segs, x) <==> InUse(h.segs, x))
            && i < |s|
            && (f.segs == s <==> i == 0 || s[i - 1].used)
  {
    MallocShape(h, n);
    FreeUndoesSplit(Searched(h, n), Chosen(h, n), n);
    var s, i := Searched(h, n).segs, Chosen(h, n);
    MergePrevSame(s, i);
    forall x
      ensures InUse(MergePrev(s, i), x) <==> InUse(h.segs, x)
    {
      ExpandInUse(h, n, x);
      MergePrevInUse(s, i, x);
    }
  }

  /** Freeing the result of any successful allocation restores the counter exactly when the block was
      split; a block handed out whole is not marked used, so its free is rejected and changes nothing. */
  lemma FreeAfterMalloc(h: Heap, n: int)
    requires WellFormed(h) && 0 < n && Malloc(h, n).outcome != Failed
    ensures Free(Malloc(h, n).heap, Malloc(h, n).ptr).usedBlocks == h.usedBlocks <==> TakesSplit(h, n)
    ensures !TakesSplit(h, n) ==> Free(Malloc(h, n).heap, Malloc(h, n).ptr) == Malloc(h, n).heap
  {
    MallocShape(h, n);
    if TakesSplit(h, n) {
      MallocThenFree(h, n);
    } else {
      AllocatedBlock(h, n);
      MallocServes(h, n);
    }
  }

  // ----- Two allocations -----

  predicate Disjoint(p: int, n: int, q: int, m: int) {
    p + n <= q || q + m <= p
  }

  /** What an allocation hands out, split or not, was not in use before. */
  lemma TakesUnused(h: Heap, n: int, x: int)
    requires WellFormed(h) && 0 < n && Malloc(h, n).outcome != Failed
    requires Malloc(h, n).ptr - HEADER <= x < Malloc(h, n).ptr + n
    ensures !InUse(h.segs, x)
  {
    MallocShape(h, n);
    NeedBounds(n);
    ExpandInUse(h, n, x);
    var s, i := Searched(h, n).segs, Chosen(h, n);
    if InUse(s, x) {
      var k :| 0 <= k < |s| && s[k].used && Covers(s, k, x);
      if k < i { BlocksInOrder(s, k, i); } else { BlocksInOrder(s, i, k); }
    }
  }

  /** A block handed out by splitting is not handed out by the next call. */
  lemma SplitThenMalloc(h: Heap, n: int, m: int)
    requires WellFormed(h) && 0 < n && 0 < m
    requires TakesSplit(h, n) && Malloc(Malloc(h, n).heap, m).outcome != Failed
    ensures Disjoint(Malloc(h, n).ptr, n, Malloc(Malloc(h, n).heap, m).ptr, m)
  {
    var r := Malloc(h, n);
    MallocServes(h, n);
    AllocatedBlock(h, n);
    MallocShape(r.heap, m);
    NeedBounds(m);
    var i := Chosen(h, n);
    var s, j := Searched(r.heap, m).segs, Chosen(r.heap, m);
    assert s[i] == r.heap.segs[i];
    if i < j { BlocksInOrder(s, i, j); }
    if j < i { BlocksInOrder(s, j, i); }
  }

  /** Two successful allocations of the same size in a row overlap unless the first one split: a block
      that is too small to split is handed out without being marked used, so it is handed out again. */
  lemma SameSizeTwice(h: Heap, n: int)
    requires WellFormed(h) && 0 < n
    requires Malloc(h, n).outcome != Failed && Malloc(Malloc(h, n).heap, n).outcome != Failed
    ensures Disjoint(Malloc(h, n).ptr, n, Malloc(Malloc(h, n).heap, n).ptr, n) <==> TakesSplit(h, n)
    ensures !TakesSplit(h, n) ==> Malloc(Malloc(h, n).heap, n).ptr == Malloc(h, n).ptr
  {
    MallocShape(h, n);
    if TakesSplit(h, n) {
      SplitThenMalloc(h, n, n);
    }
  }

  // ----- Allocation in numbers -----

  lemma NothingFits(h: Heap, n: int)
    requires WellFormed(h) && 0 < n
    requires forall k :: 0 <= k < |h.segs| ==> h.segs[k].used || h.segs[k].size < n + 32
    ensures FirstFit(h.segs, Need(n), 0) == |h.segs|
    ensures Malloc(h, n).grew <==> CanGrow(h, n)
  {
    NeedBounds(n);
  }

  /** When no free block has room for the request and a header, the heap grows by the request rounded up to 8, but by
      no less than a page, exactly when that stays within its maximum size. What is appended is one block at the old
      end; it serves requests of at most 4064 bytes, and larger ones leave it behind whole and free. */
  lemma GrowthExact(h: Heap, n: int)
    requires WellFormed(h) && 0 < n
    requires forall k :: 0 <= k < |h.segs| ==> h.segs[k].used || h.segs[k].size < n + 32
    ensures var g := if n <= 4096 then 4096 else (n + 7) / 8 * 8;
            var r := Malloc(h, n);
            && (r.grew <==> End(h.segs) + g <= 0x11000000)
            && (!r.grew ==> r.ptr == 0 && r.heap == h)
            && (r.grew ==>
                  && |h.segs| < |r.heap.segs| && r.heap.segs[..|h.segs|] == h.segs
                  && r.heap.segs[|h.segs|].addr == End(h.segs) && End(r.heap.segs) == End(h.segs) + g)
            && (r.grew && n > 4064 ==>
                  r.ptr == 0 && r.heap == Heap(h.segs + [Seg(End(h.segs), g, false)], h.usedBlocks))
            && (r.grew && n <= 4064 ==> r.ptr == End(h.segs) + 32)
  {
    NothingFits(h, n);
    NeedBounds(n);
    ExpandKeeps(h, n);
    var e := Expand(h, n).segs;
    if CanGrow(h, n) {
      assert FirstFit(e, Need(n), 0) >= |h.segs| by { assert forall k :: 0 <= k < |h.segs| ==> e[k] == h.segs[k]; }
      MallocShape(h, n);
      if Splits(e, |h.segs|, Need(n)) { SplitEntries(e, |h.segs|, Need(n)); }
    }
  }

  /** A request succeeds exactly when some free block has room for it and a header, or it is at most 4064 bytes and
      the heap can grow by a page. */
  lemma ServedIff(h: Heap, n: int)
    requires WellFormed(h) && 0 < n
    ensures Malloc(h, n).ptr != 0 <==>
            || (exists k :: 0 <= k < |h.segs| && !h.segs[k].used && n + 32 <= h.segs[k].size)
            || (n <= 4064 && End(h.segs) + 4096 <= 0x11000000)
  {
    if k :| 0 <= k < |h.segs| && !h.segs[k].used && n + 32 <= h.segs[k].size {
      LowestFit(h, n, k);
      MallocShape(h, n);
    } else {
      GrowthExact(h, n);
      BlocksWithin(h.segs, 0);
    }
  }

  /** A request that succeeds, in numbers: the first block from below with room for the request and a header serves it,
      in the grown heap if need be. It is cut off at the request and header rounded up to 8, and marked used, exactly
      when at least 64 bytes remain; otherwise the list stays as it is. */
  lemma MallocExact(h: Heap, n: int) returns (s: seq<Seg>, i: nat)
    requires WellFormed(h) && 0 < n && Malloc(h, n).ptr != 0
    ensures s == if Malloc(h, n).grew then h.segs + [Seg(End(h.segs), 4096, false)] else h.segs
    ensures i < |s| && Malloc(h, n).ptr == s[i].addr + 32 && !s[i].used && n + 32 <= s[i].size
    ensures forall k :: 0 <= k < i ==> s[k].used || s[k].size < n + 32
    ensures var r := Malloc(h, n); var need := (n + 39) / 8 * 8;
            && r.heap.usedBlocks == (h.usedBlocks + 1) % 0x1_0000_0000
            && (r.outcome == Split <==> s[i].size >= need + 64)
            && r.heap.segs ==
               if s[i].size < need + 64 then s
               else s[..i] + [Seg(s[i].addr, need, true), Seg(s[i].addr + need, s[i].size - need, false)] + s[i + 1..]
  {
    MallocShape(h, n);
    NeedBounds(n);
    s, i := Searched(h, n).segs, Chosen(h, n);
    FitsNeed(s, i, n);
    forall k | 0 <= k < i
      ensures s[k].used || s[k].size < n + 32
    {
      FitsNeed(s, k, n);
    }
    if Malloc(h, n).grew {
      assert i == |h.segs| by { assert forall k :: 0 <= k < |h.segs| ==> s[k] == h.segs[k]; }
    }
  }

  /** A request for nothing fails and changes nothing, and freeing NULL changes nothing. */
  lemma NothingAskedOrFreed(h: Heap)
    requires h.segs != []
    ensures Malloc(h, 0).ptr == 0 && Malloc(h, 0).heap == h
    ensures Free(h, 0) == h
  {}

  // ----- Used and free bytes -----

  lemma {:induction false} BytesAppend(a: seq<Seg>, b: seq<Seg>, used: bool)
    ensures Bytes(a + b, used) == Bytes(a, used) + Bytes(b, used)
    decreases |a|
  {
    if a == [] {
      assert a + b == b;
    } else {
      assert (a + b)[1..] == a[1..] + b;
      BytesAppend(a[1..], b, used);
    }
  }

  /** Bytes before block i, of block i, and behind it. */
  lemma BytesAround(segs: seq<Seg>, i: nat, used: bool)
    requires i < |segs|
    ensures Bytes(segs, used) ==
            Bytes(segs[..i], used) + (if segs[i].used == used then segs[i].size else 0) + Bytes(segs[i + 1..], used)
  {
    assert segs == segs[..i] + segs[i..] && segs[i..][1..] == segs[i + 1..];
    BytesAppend(segs[..i], segs[i..], used);
  }

  lemma BytesPair(segs: seq<Seg>, i: nat, used: bool)
    requires i + 1 < |segs|
    ensures Bytes(segs, used) ==
            Bytes(segs[..i], used) + (if segs[i].used == used then segs[i].size else 0)
            + (if segs[i + 1].used == used then segs[i + 1].size else 0) + Bytes(segs[i + 2..], used)
  {
    BytesAround(segs, i, used);
    BytesAround(segs[i + 1..], 0, used);
    assert segs[i + 1..][1..] == segs[i + 2..] && segs[i + 1..][..0] == [];
  }

  lemma BytesJoin(segs: seq<Seg>, i: nat)
    requires i + 1 < |segs| && !segs[i].used && !segs[i + 1].used
    ensures Bytes(Join(segs, i), true) == Bytes(segs, true)
  {
    var r := Join(segs, i);
    BytesPair(segs, i, true);
    JoinEntries(segs, i);
    BytesAround(r, i, true);
    assert r[..i] == segs[..i] && r[i + 1..] == segs[i + 2..];
  }

  lemma BytesUnuse(segs: seq<Seg>, i: nat)
    requires i < |segs| && segs[i].used
    ensures Bytes(Unuse(segs, i), true) == Bytes(segs, true) - segs[i].size
  {
    var r := Unuse(segs, i);
    BytesAround(segs, i, true);
    BytesAround(r, i, true);
    assert r[..i] == segs[..i] && r[i + 1..] == segs[i + 1..];
  }

  lemma BytesRelease(segs: seq<Seg>, i: nat)
    requires i < |segs| && segs[i].used
    ensures Bytes(Release(segs, i), true) == Bytes(segs, true) - segs[i].size
  {
    var s1 := Unuse(segs, i);
    var s2 := MergeNext(s1, i);
    BytesUnuse(segs, i);
    if i + 1 < |s1| && !s1[i + 1].used { BytesJoin(s1, i); }
    if i > 0 && !s2[i - 1].used { BytesJoin(s2, i - 1); }
  }

  /** At first all of the heap's 0x100000 bytes are free. */
  lemma InitialBytes()
    ensures INITIAL_HEAP == Heap([Seg(0x1000000, 0x100000, false)], 0)
    ensures Bytes(INITIAL_HEAP.segs, true) == 0 && Bytes(INITIAL_HEAP.segs, false) == 0x100000
  {
    assert INITIAL_HEAP.segs[1..] == [];
  }

  /** The used bytes rise by the request and header rounded up to 8 when a block is split off, and at no other
      request. */
  lemma MallocBytes(h: Heap, n: int)
    requires WellFormed(h) && 0 < n
    ensures var r := Malloc(h, n);
            Bytes(r.heap.segs, true) == Bytes(h.segs, true) + if r.outcome == Split then (n + 39) / 8 * 8 else 0
  {
    MallocShape(h, n);
    var s, i := Searched(h, n).segs, Chosen(h, n);
    if s != h.segs {
      BytesAppend(h.segs, [s[|h.segs|]], true);
      assert s == h.segs + [s[|h.segs|]] && [s[|h.segs|]][1..] == [];
    }
    if TakesSplit(h, n) {
      var r := SplitSegs(s, i, Need(n));
      SplitEntries(s, i, Need(n));
      BytesAround(s, i, true);
      BytesPair(r, i, true);
      assert r[..i] == s[..i] && r[i + 2..] == s[i + 1..];
    }
  }

  /** They fall by the whole size of the used block whose pointer is freed, and at no other free. */
  lemma FreeBytes(h: Heap, ptr: int)
    requires WellFormed(h)
    ensures forall i :: 0 <= i < |h.segs| && h.segs[i].addr + 32 == ptr && h.segs[i].used ==>
              Bytes(Free(h, ptr).segs, true) == Bytes(h.segs, true) - h.segs[i].size
    ensures (forall i :: 0 <= i < |h.segs| && h.segs[i].addr + 32 == ptr ==> !h.segs[i].used) ==>
              Bytes(Free(h, ptr).segs, true) == Bytes(h.segs, true)
  {
    var i := IndexOf(h.segs, ptr - HEADER, 0);
    forall k | 0 <= k < |h.segs| && h.segs[k].addr + 32 == ptr && h.segs[k].used
      ensures Bytes(Free(h, ptr).segs, true) == Bytes(h.segs, true) - h.segs[k].size
    {
      IndexOfBlock(h.segs, k);
      BlocksWithin(h.segs, k);
      BytesRelease(h.segs, k);
    }
  }
}
