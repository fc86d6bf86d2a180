/** One call at a time: what each heap operation keeps and what it achieves. */
module HeapLemmas {
  import opened HeapMemory
  import opened HeapSpec

  lemma {:induction false} BlocksInOrder(segs: seq<Seg>, i: int, j: int)
    requires Tiles(segs) && 0 <= i < j < |segs|
    ensures segs[i].addr + segs[i].size <= segs[j].addr
    ensures MIN_BLOCK <= segs[i].size && MIN_BLOCK <= segs[j].size
    decreases j - i
  {
    assert SizeOk(segs, i) && SizeOk(segs, j);
    assert Adjoins(segs, j - 1);
    if i + 1 < j { BlocksInOrder(segs, i, j - 1); }
  }

  lemma BlocksWithin(segs: seq<Seg>, i: int)
    requires Tiles(segs) && 0 <= i < |segs|
    ensures START <= segs[i].addr && segs[i].addr + segs[i].size <= End(segs) <= MAX
    ensures MIN_BLOCK <= segs[i].size
  {
    assert SizeOk(segs, i);
    if 0 < i { BlocksInOrder(segs, 0, i); }
    if i < |segs| - 1 { BlocksInOrder(segs, i, |segs| - 1); }
  }

  lemma {:induction false} BlocksAligned(segs: seq<Seg>, i: int)
    requires Tiles(segs) && 0 <= i < |segs|
    ensures segs[i].addr % 8 == 0
    decreases i
  {
    if 0 < i {
      BlocksAligned(segs, i - 1);
      assert Adjoins(segs, i - 1) && SizeOk(segs, i - 1);
    }
  }

  lemma IndexOfBlock(segs: seq<Seg>, i: int)
    requires Tiles(segs) && 0 <= i < |segs|
    ensures IndexOf(segs, segs[i].addr, 0) == i
  {
    var r := IndexOf(segs, segs[i].addr, 0);
    if r < i { BlocksInOrder(segs, r, i); }
  }

  lemma NeedBounds(n: int)
    requires 0 < n
    ensures Need(n) % 8 == 0 && MIN_BLOCK <= Need(n) && n + HEADER <= Need(n) <= n + HEADER + 7
  {}

  // ----- Preservation of well-formedness -----

  /** The entries of a split list, by position. */
  lemma SplitEntries(segs: seq<Seg>, i: nat, need: int)
    requires i < |segs|
    ensures |SplitSegs(segs, i, need)| == |segs| + 1
    ensures forall k :: 0 <= k < i ==> SplitSegs(segs, i, need)[k] == segs[k]
    ensures SplitSegs(segs, i, need)[i] == Seg(segs[i].addr, need, true)
    ensures SplitSegs(segs, i, need)[i + 1] == Seg(segs[i].addr + need, segs[i].size - need, false)
    ensures forall k :: i + 1 < k <= |segs| ==> SplitSegs(segs, i, need)[k] == segs[k - 1]
  {}

  lemma SplitTiles(segs: seq<Seg>, i: nat, need: int)
    requires Tiles(segs) && i < |segs| && need % 8 == 0 && MIN_BLOCK <= need
    requires Splits(segs, i, need)
    ensures Tiles(SplitSegs(segs, i, need)) && End(SplitSegs(segs, i, need)) == End(segs)
  {
    var r := SplitSegs(segs, i, need);
    SplitEntries(segs, i, need);
    forall k | 0 <= k < |r|
      ensures SizeOk(r, k)
    {
      assert SizeOk(segs, if k <= i then k else k - 1);
    }
    forall k | 0 <= k < |r| - 1
      ensures Adjoins(r, k)
    {
      if k != i { assert Adjoins(segs, if k < i then k else k - 1); }
    }
  }

  lemma SplitKeeps(h: Heap, i: nat, need: int)
    requires WellFormed(h) && i < |h.segs| && need % 8 == 0 && MIN_BLOCK <= need
    requires Splits(h.segs, i, need)
    ensures WellFormed(SplitAt(h, i, need))
    ensures End(SplitAt(h, i, need).segs) == End(h.segs)
  {
    SplitTiles(h.segs, i, need);
  }

  lemma ExpandKeeps(h: Heap, n: int)
    requires WellFormed(h) && 0 < n
    ensures WellFormed(Expand(h, n))
  {
    if CanGrow(h, n) {
      var r := Expand(h, n).segs;
      forall k | 0 <= k < |r|
        ensures SizeOk(r, k)
      {
        if k < |h.segs| { assert SizeOk(h.segs, k); }
      }
      forall k | 0 <= k < |r| - 1
        ensures Adjoins(r, k)
      {
        if k < |h.segs| - 1 { assert Adjoins(h.segs, k); }
      }
    }
  }

  lemma MallocKeeps(h: Heap, n: int)
    requires WellFormed(h) && 0 <= n
    ensures WellFormed(Malloc(h, n).heap)
  {
    if n != 0 {
      var i := FirstFit(h.segs, Need(n), 0);
      if i < |h.segs| {
        if Splits(h.segs, i, Need(n)) { SplitKeeps(h, i, Need(n)); }
      } else {
        ExpandKeeps(h, n);
        var g := Expand(h, n);
        var j := FirstFit(g.segs, Need(n), 0);
        if j < |g.segs| && Splits(g.segs, j, Need(n)) { SplitKeeps(g, j, Need(n)); }
      }
    }
  }

  /** The entries of a joined list, by position. */
  lemma JoinEntries(segs: seq<Seg>, i: nat)
    requires i + 1 < |segs|
    ensures |Join(segs, i)| == |segs| - 1
    ensures forall k :: 0 <= k < i ==> Join(segs, i)[k] == segs[k]
    ensures Join(segs, i)[i] == segs[i].(size := segs[i].size + segs[i + 1].size)
    ensures forall k :: i < k < |segs| - 1 ==> Join(segs, i)[k] == segs[k + 1]
  {}

  lemma JoinKeeps(segs: seq<Seg>, i: nat)
    requires Tiles(segs) && i + 1 < |segs|
    ensures Tiles(Join(segs, i)) && End(Join(segs, i)) == End(segs)
  {
    var r := Join(segs, i);
    JoinEntries(segs, i);
    assert Adjoins(segs, i) && SizeOk(segs, i) && SizeOk(segs, i + 1);
    forall k | 0 <= k < |r|
      ensures SizeOk(r, k)
    {
      assert SizeOk(segs, if k <= i then k else k + 1);
    }
    forall k | 0 <= k < |r| - 1
      ensures Adjoins(r, k)
    {
      assert Adjoins(segs, if k < i then k else k + 1);
    }
  }

  lemma MergeNextKeeps(segs: seq<Seg>, i: nat)
    requires Tiles(segs) && i < |segs|
    ensures Tiles(MergeNext(segs, i)) && End(MergeNext(segs, i)) == End(segs)
  {
    if i + 1 < |segs| && !segs[i + 1].used { JoinKeeps(segs, i); }
  }

  lemma MergePrevKeeps(segs: seq<Seg>, i: nat)
    requires Tiles(segs) && i < |segs|
    ensures Tiles(MergePrev(segs, i)) && End(MergePrev(segs, i)) == End(segs)
  {
    if i > 0 && !segs[i - 1].used { JoinKeeps(segs, i - 1); }
  }

  lemma UnuseKeeps(segs: seq<Seg>, i: nat)
    requires Tiles(segs) && i < |segs|
    ensures Tiles(Unuse(segs, i)) && End(Unuse(segs, i)) == End(segs)
  {
    var r := Unuse(segs, i);
    forall k | 0 <= k < |r| ensures SizeOk(r, k) { assert SizeOk(segs, k); }
    forall k | 0 <= k < |r| - 1 ensures Adjoins(r, k) { assert Adjoins(segs, k); }
  }

  lemma ReleaseKeeps(segs: seq<Seg>, i: nat)
    requires Tiles(segs) && i < |segs|
    ensures Tiles(Release(segs, i)) && End(Release(segs, i)) == End(segs)
  {
    var s1 := Unuse(segs, i);
    UnuseKeeps(segs, i);
    MergeNextKeeps(s1, i);
    MergePrevKeeps(MergeNext(s1, i), i);
  }

  lemma FreeKeeps(h: Heap, ptr: int)
    requires WellFormed(h)
    ensures WellFormed(Free(h, ptr))
    ensures End(Free(h, ptr).segs) == End(h.segs)
  {
    var i := IndexOf(h.segs, ptr - HEADER, 0);
    if ptr != 0 && i < |h.segs| && h.segs[i].used {
      ReleaseKeeps(h.segs, i);
    }
  }

  // ----- Sizes and counts -----

  lemma {:induction false} BytesNonNegative(segs: seq<Seg>, used: bool)
    requires forall i :: 0 <= i < |segs| ==> MIN_BLOCK <= segs[i].size
    ensures 0 <= Bytes(segs, used)
  {
    if segs == [] {
    } else {
      BytesNonNegative(segs[1..], used);
    }
  }

  /** Used and free bytes from block i on add up to the address range they cover. */
  lemma {:induction false} BytesCover(segs: seq<Seg>, i: nat)
    requires Tiles(segs) && i < |segs|
    ensures Bytes(segs[i..], true) + Bytes(segs[i..], false) == End(segs) - segs[i].addr
    ensures 0 <= Bytes(segs[i..], true) && 0 <= Bytes(segs[i..], false)
    decreases |segs| - i
  {
    assert SizeOk(segs, i);
    assert segs[i..][1..] == segs[i + 1..];
    if i + 1 < |segs| {
      assert Adjoins(segs, i);
      BytesCover(segs, i + 1);
    }
  }

  /** The block count stays far below 2^32. */
  lemma {:induction false} BlockCountBounded(segs: seq<Seg>, i: nat)
    requires Tiles(segs) && i < |segs|
    ensures START + MIN_BLOCK * i <= segs[i].addr
    ensures i < UINT32 - 1
  {
    BlocksWithin(segs, i);
    if i > 0 {
      BlockCountBounded(segs, i - 1);
      assert Adjoins(segs, i - 1) && SizeOk(segs, i - 1);
    }
  }
}
