/** What the allocator leaves behind in memory: headers of absorbed blocks, and headers torn by newer ones written
    across them. The traces are kept by every step of a run and show what kmfree can read there. */
module HeapTraces {
  import opened HeapMemory
  import opened HeapSpec
  import opened HeapLemmas
  import opened HeapMeaning
  import opened HeapInMemory
  import opened HeapRuns

  /** A link read at w is NULL or 1, leads past the heap, or leads to an aligned address at least a block further up. */
  predicate LinkUp(w: int, v: int) {
    v <= 1 || MAX <= v || (v % 8 == 0 && w + MIN_BLOCK <= v)
  }

  /** What lies at an address w where a header was written once. If its magic number is still there, its next link
      is one that leads up; and unless w is listed, the word read as `used` is 0, or the magic number of a header
      written 8 bytes further on. */
  predicate TraceOk(m: Memory, known: set<int>, listed: set<int>, w: int) {
    && w % 8 == 0 && START <= w && w + MIN_BLOCK <= MAX
    && (Magic(m, w) == MAGIC ==>
          && LinkUp(w, Next(m, w))
          && (w in listed || Used(m, w) == 0 || (Used(m, w) == MAGIC && w + 8 in known)))
  }

  ghost predicate Traces(m: Memory, written: set<int>, known: set<int>, listed: set<int>) {
    forall w :: w in written ==> TraceOk(m, known, listed, w)
  }

  // ----- Each header field that is written keeps the traces -----

  lemma PutLongHalves(m: Memory, x: int, v: int, y: int)
    requires 0 <= v < UINT64
    ensures Get(PutLong(m, x, v), x) == v % UINT32 && Get(PutLong(m, x, v), x + 4) == v / UINT32
    ensures y + 4 <= x || x + 8 <= y ==> Get(PutLong(m, x, v), y) == Get(m, y)
  {
    hide Get, Put;
    GetPut(m, x, v, y);
    GetPut(Put(m, x, v), x + 4, v / UINT32, x);
    GetPut(Put(m, x, v), x + 4, v / UINT32, y);
  }

  lemma MagicTraces(m: Memory, written: set<int>, known: set<int>, listed: set<int>, x: int)
    requires Traces(m, written, known, listed) && x % 8 == 0 && x !in written && x in known
    ensures Traces(SetMagic(m, x), written, known, listed)
  {
    hide Get, Put;
    forall w | w in written
      ensures TraceOk(SetMagic(m, x), known, listed, w)
    {
      assert TraceOk(m, known, listed, w);
      forall y { GetPut(m, x, MAGIC, y); }
    }
  }

  lemma SizeTraces(m: Memory, written: set<int>, known: set<int>, listed: set<int>, x: int, v: int)
    requires Traces(m, written, known, listed) && x % 8 == 0 && Magic(m, x) == MAGIC
    ensures Traces(SetSize(m, x, v), written, known, listed)
  {
    hide Get, Put;
    forall w | w in written
      ensures TraceOk(SetSize(m, x, v), known, listed, w)
    {
      assert TraceOk(m, known, listed, w);
      forall y { GetPut(m, x + 4, v, y); }
    }
  }

  lemma UsedTraces(m: Memory, written: set<int>, known: set<int>, listed: set<int>, x: int, v: int)
    requires Traces(m, written, known, listed) && x % 8 == 0 && 0 <= v <= 1
    requires x in listed
    ensures Traces(SetUsed(m, x, v), written, known, listed)
  {
    hide Get, Put;
    forall w | w in written
      ensures TraceOk(SetUsed(m, x, v), known, listed, w)
    {
      assert TraceOk(m, known, listed, w);
      forall y { GetPut(m, x + 8, v, y); }
    }
  }

  lemma NextTraces(m: Memory, written: set<int>, known: set<int>, listed: set<int>, x: int, v: int)
    requires Traces(m, written, known, listed) && x % 8 == 0 && 0 <= v < MAX && LinkUp(x, v)
    requires Used(m, x) != MAGIC
    ensures Traces(SetNext(m, x, v), written, known, listed)
  {
    hide Get, PutLong;
    forall w | w in written
      ensures TraceOk(SetNext(m, x, v), known, listed, w)
    {
      assert TraceOk(m, known, listed, w);
      forall y { PutLongHalves(m, x + 16, v, y); }
    }
  }

  lemma PrevTraces(m: Memory, written: set<int>, known: set<int>, listed: set<int>, x: int, v: int)
    requires Traces(m, written, known, listed) && x % 8 == 0 && 0 <= v < MAX
    requires Used(m, x) != MAGIC && Next(m, x) < MAX
    ensures Traces(SetPrev(m, x, v), written, known, listed)
  {
    hide Get, PutLong;
    forall w | w in written
      ensures TraceOk(SetPrev(m, x, v), known, listed, w)
    {
      assert TraceOk(m, known, listed, w);
      forall y { PutLongHalves(m, x + 24, v, y); }
    }
  }

  // ----- Each routine keeps the traces -----

  lemma TracesWeaken(m: Memory, written: set<int>, known: set<int>, listed: set<int>,
                     written': set<int>, known': set<int>, listed': set<int>)
    requires Traces(m, written, known, listed) && written' <= written && known <= known' && listed <= listed'
    ensures Traces(m, written', known', listed')
  {
    forall w | w in written' ensures TraceOk(m, known', listed', w) { assert TraceOk(m, known, listed, w); }
  }

  lemma StartsOfSplit(segs: seq<Seg>, i: nat, need: int)
    requires i < |segs|
    ensures Starts(SplitSegs(segs, i, need)) == Starts(segs) + {segs[i].addr + need}
  {
    var r := SplitSegs(segs, i, need);
    SplitEntries(segs, i, need);
    forall x
      ensures x in Starts(r) <==> x in Starts(segs) + {segs[i].addr + need}
    {
      if x in Starts(segs) {
        var k :| 0 <= k < |segs| && segs[k].addr == x;
        assert r[if k <= i then k else k + 1].addr == x;
      }
      if x == segs[i].addr + need { assert r[i + 1].addr == x; }
      if x in Starts(r) {
        var k :| 0 <= k < |r| && r[k].addr == x;
        if k != i + 1 { assert segs[if k <= i then k else k - 1].addr == x; }
      }
    }
  }

  /** The five fields of a new header. */
  lemma HeaderTraces(m: Memory, written: set<int>, known: set<int>, listed: set<int>,
                     at: int, size: int, next: int, prev: int)
    requires Traces(m, written, known, listed) && at % 8 == 0 && at !in written && at in known && at in listed
    requires 0 <= next < MAX && LinkUp(at, next) && 0 <= prev < MAX
    ensures Traces(SetNext(SetUsed(SetSize(SetMagic(m, at), at, size), at, 0), at, next), written, known, listed)
    ensures Traces(NewHeader(m, at, size, next, prev), written, known, listed)
  {
    hide Get, GetLong, SetMagic, SetSize, SetUsed, SetNext, SetPrev, Traces;
    var m1 := SetMagic(m, at);
    MagicTraces(m, written, known, listed, at);
    WriteMagic(m, at, at);
    var m2 := SetSize(m1, at, size);
    SizeTraces(m1, written, known, listed, at, size);
    var m3 := SetUsed(m2, at, 0);
    UsedTraces(m2, written, known, listed, at, 0);
    WriteUsed(m2, at, 0, at);
    var m4 := SetNext(m3, at, next);
    NextTraces(m3, written, known, listed, at, next);
    WriteNext(m3, at, next, at);
    PrevTraces(m4, written, known, listed, at, prev);
  }

  /** The writes of a split to the block's own header and to its successor's. */
  lemma SplitLinkTraces(m: Memory, written: set<int>, known: set<int>, listed: set<int>, b: int, total: int)
    requires Traces(m, written, known, listed) && b % 8 == 0 && b in listed && total % 8 == 0 && MIN_BLOCK <= total
    requires START <= b && b + total < MAX && Magic(m, b) == MAGIC
    requires var next := Next(m, b);
             next != NULL ==> next % 8 == 0 && Used(m, next) != MAGIC && Next(m, next) < MAX && Clear(b, next)
    ensures Traces(LinkSplit(m, b, total), written, known, listed)
  {
    hide Get, GetLong, SetMagic, SetSize, SetUsed, SetNext, SetPrev, Traces;
    var next := Next(m, b);
    var m1 := SetSize(m, b, total);
    SizeTraces(m, written, known, listed, b, total);
    WriteSize(m, b, total, next);
    var m2 := SetUsed(m1, b, 1);
    UsedTraces(m1, written, known, listed, b, 1);
    WriteUsed(m1, b, 1, next);
    var m3 := if next != NULL then SetPrev(m2, next, b + total) else m2;
    if next != NULL {
      PrevTraces(m2, written, known, listed, next, b + total);
      WritePrev(m2, next, b + total, b);
    }
    NextTraces(m3, written, known, listed, b, b + total);
  }

  /** The traces left in a heap whose list is in memory. */
  ghost predicate Remains(m: Memory, segs: seq<Seg>, written: set<int>) {
    Starts(segs) <= written && Traces(m, written, written, Starts(segs))
  }

  lemma ListedBlock(m: Memory, segs: seq<Seg>, i: nat)
    requires Tiles(segs) && Represents(m, segs) && i < |segs|
    ensures var a := segs[i].addr;
            && a in Starts(segs) && a % 8 == 0 && START <= a && a + MIN_BLOCK <= MAX
            && Magic(m, a) == MAGIC && Used(m, a) == (if segs[i].used then 1 else 0)
            && Next(m, a) == NextAddr(segs, i) && Prev(m, a) == PrevAddr(segs, i) && Size(m, a) == segs[i].size
            && 0 <= Next(m, a) < MAX && LinkUp(a, Next(m, a)) && 0 <= Prev(m, a) < MAX
  {
    hide Get;
    assert BlockOk(m, segs, i);
    BlocksWithin(segs, i);
    BlocksAligned(segs, i);
    if i + 1 < |segs| {
      BlocksWithin(segs, i + 1);
      BlocksAligned(segs, i + 1);
      BlocksInOrder(segs, i, i + 1);
    }
    if i > 0 { BlocksWithin(segs, i - 1); }
  }

  lemma AddTrace(m: Memory, written: set<int>, known: set<int>, listed: set<int>, w: int)
    requires Traces(m, written - {w}, known, listed) && TraceOk(m, known, listed, w)
    ensures Traces(m, written + {w}, known, listed)
  {
    forall x | x in written + {w} ensures TraceOk(m, known, listed, x) {}
  }

  lemma SplitMemTraces(m: Memory, written: set<int>, listed: set<int>, b: int, need: int)
    requires Traces(m, written, written, listed)
    requires b % 8 == 0 && b in listed && START <= b && Magic(m, b) == MAGIC
    requires need % 8 == 0 && MIN_BLOCK <= need && need + MIN_BLOCK <= Size(m, b) && b + Size(m, b) <= MAX
    requires Next(m, b) < MAX && LinkUp(b + need, Next(m, b))
    requires var next := Next(m, b);
             next != NULL ==> && next % 8 == 0 && Used(m, next) != MAGIC && Next(m, next) < MAX
                              && Clear(b, next) && Clear(next, b + need)
    ensures Traces(SplitMem(m, b, need), written + {b + need}, written + {b + need}, listed + {b + need})
  {
    hide Get, GetLong, NewHeader, LinkSplit, SplitMem, Traces;
    var at, size, next := b + need, Size(m, b) - need, Next(m, b);
    TracesWeaken(m, written, written, listed, written - {at}, written + {at}, listed + {at});
    HeaderTraces(m, written - {at}, written + {at}, listed + {at}, at, size, next, b);
    SplitMemIs(m, b, need);
    NewHeaderEffect(m, at, size, next, b, b);
    NewHeaderEffect(m, at, size, next, b, next);
    SplitLinkTraces(NewHeader(m, at, size, next, b), written - {at}, written + {at}, listed + {at}, b, need);
    SplitEffect(m, b, need, NULL);
    AddTrace(SplitMem(m, b, need), written, written + {at}, listed + {at}, at);
  }

  lemma SplitTraces(m: Memory, segs: seq<Seg>, written: set<int>, i: nat, need: int)
    requires Tiles(segs) && Represents(m, segs) && Remains(m, segs, written) && i < |segs|
    requires need % 8 == 0 && MIN_BLOCK <= need && Splits(segs, i, need)
    ensures Remains(SplitMem(m, segs[i].addr, need), SplitSegs(segs, i, need), written + {segs[i].addr + need})
  {
    hide Get, SplitMem, Traces, SplitSegs;
    ListedBlock(m, segs, i);
    SplitRoom(m, segs, i, need);
    StartsOfSplit(segs, i, need);
    BlocksWithin(segs, i);
    if i + 1 < |segs| {
      assert Adjoins(segs, i);
      ListedBlock(m, segs, i + 1);
      BlocksClear(segs, i, i + 1);
    }
    SplitMemTraces(m, written, Starts(segs), segs[i].addr, need);
  }

  lemma StartsOfGrown(segs: seq<Seg>, s: Seg)
    ensures Starts(segs + [s]) == Starts(segs) + {s.addr}
  {
    forall x
      ensures x in Starts(segs + [s]) <==> x in Starts(segs) + {s.addr}
    {
      if x in Starts(segs) {
        var k :| 0 <= k < |segs| && segs[k].addr == x;
        assert (segs + [s])[k].addr == x;
      }
      assert (segs + [s])[|segs|].addr == s.addr;
    }
  }

  lemma GrowMemTraces(m: Memory, written: set<int>, listed: set<int>, at: int, size: int, last: int)
    requires Traces(m, written, written, listed)
    requires at % 8 == 0 && START <= at && at + MIN_BLOCK <= MAX && 0 <= size < UINT32
    requires last % 8 == 0 && START <= last && last + MIN_BLOCK <= at && Used(m, last) != MAGIC
    ensures Traces(GrowMem(m, at, size, last), written + {at}, written + {at}, listed + {at})
  {
    hide Get, GetLong, SetMagic, SetSize, SetUsed, SetNext, SetPrev, Traces;
    var w, known, l := written - {at}, written + {at}, listed + {at};
    TracesWeaken(m, written, written, listed, w, known, l);
    HeaderTraces(m, w, known, l, at, size, NULL, last);
    NextEffect(m, at, size, last);
    var m4 := SetNext(SetUsed(SetSize(SetMagic(m, at), at, size), at, 0), at, NULL);
    var m5 := SetNext(m4, last, at);
    NextTraces(m4, w, known, l, last, at);
    PrevTraces(m5, w, known, l, at, last);
    GrowEffect(m, at, size, last, NULL);
    AddTrace(GrowMem(m, at, size, last), written, known, l, at);
  }

  /** While the heap grows: what the last block's header and the new one say before they are linked. */
  lemma NextEffect(m: Memory, at: int, size: int, last: int)
    requires START <= last && last + HEADER <= at < UINT64 && 0 <= size < UINT32
    ensures var m4 := SetNext(SetUsed(SetSize(SetMagic(m, at), at, size), at, 0), at, NULL);
            && Used(m4, last) == Used(m, last)
            && Used(SetNext(m4, last, at), at) == 0 && Next(SetNext(m4, last, at), at) == NULL
  {
    hide Get, GetLong, SetMagic, SetSize, SetUsed, SetNext, SetPrev;
    var m2 := SetSize(SetMagic(m, at), at, size);
    var m3 := SetUsed(m2, at, 0);
    var m4 := SetNext(m3, at, NULL);
    WriteMagic(m, at, last);
    WriteSize(SetMagic(m, at), at, size, last);
    WriteUsed(m2, at, 0, last);
    WriteNext(m3, at, NULL, last);
    WriteNext(m4, last, at, at);
    assert HeaderAt(m4, last) == HeaderAt(m, last);
    assert HeaderAt(SetNext(m4, last, at), at) == HeaderAt(m4, at);
  }

  lemma GrowTraces(m: Memory, segs: seq<Seg>, written: set<int>, size: int)
    requires Tiles(segs) && Represents(m, segs) && Remains(m, segs, written)
    requires size % 8 == 0 && MIN_BLOCK <= size && End(segs) + size <= MAX
    ensures Remains(GrowMem(m, End(segs), size, segs[|segs| - 1].addr), segs + [Seg(End(segs), size, false)],
                    written + {End(segs)})
  {
    hide Get, GrowMem, Traces;
    var k := |segs| - 1;
    ListedBlock(m, segs, k);
    assert SizeOk(segs, k);
    StartsOfGrown(segs, Seg(End(segs), size, false));
    GrowMemTraces(m, written, Starts(segs), End(segs), size, segs[k].addr);
  }

  lemma UnuseTraces(m: Memory, segs: seq<Seg>, written: set<int>, i: nat)
    requires Tiles(segs) && Represents(m, segs) && Remains(m, segs, written) && i < |segs|
    ensures Remains(SetUsed(m, segs[i].addr, 0), Unuse(segs, i), written)
  {
    hide Get, SetUsed, Traces;
    ListedBlock(m, segs, i);
    UsedTraces(m, written, written, Starts(segs), segs[i].addr, 0);
    assert forall k :: 0 <= k < |segs| ==> Unuse(segs, i)[k].addr == segs[k].addr;
    assert Starts(Unuse(segs, i)) == Starts(segs);
  }

  /** A merge leaves the absorbed header unlisted, with `used` at 0. */
  lemma JoinTraces(m: Memory, segs: seq<Seg>, written: set<int>, i: nat)
    requires Tiles(segs) && Represents(m, segs) && Remains(m, segs, written)
    requires i + 1 < |segs| && !segs[i + 1].used
    ensures Remains(AbsorbNext(m, segs[i].addr), Join(segs, i), written)
  {
    hide Get, GetLong, SetMagic, SetSize, SetUsed, SetNext, SetPrev, Traces, Represents, Tiles;
    var b, n, after := segs[i].addr, segs[i + 1].addr, NextAddr(segs, i + 1);
    var listed := Starts(segs);
    ListedBlock(m, segs, i);
    ListedBlock(m, segs, i + 1);
    AbsorbRoom(m, segs, i);
    var m1 := SetSize(m, b, Size(m, b) + Size(m, n));
    SizeTraces(m, written, written, listed, b, Size(m, b) + Size(m, n));
    forall y { WriteSize(m, b, Size(m, b) + Size(m, n), y); }
    assert HeaderAt(m1, n) == HeaderAt(m, n);
    assert HeaderAt(m1, b) == HeaderAt(m, b).(size := (Size(m, b) + Size(m, n)) % UINT32);
    var m2 := SetNext(m1, b, after);
    NextTraces(m1, written, written, listed, b, after);
    forall y { WriteNext(m1, b, after, y); }
    assert HeaderAt(m2, b) == HeaderAt(m1, b).(next := after);
    if after != NULL {
      ListedBlock(m, segs, i + 2);
      assert HeaderAt(m2, after) == HeaderAt(m1, after) == HeaderAt(m, after);
      PrevTraces(m2, written, written, listed, after, b);
    }
    AbsorbEffect(m, b, n, n);
    JoinStarts(segs, i);
    UnlistTrace(AbsorbNext(m, b), written, listed, n);
  }

  lemma UnlistTrace(m: Memory, written: set<int>, listed: set<int>, n: int)
    requires Traces(m, written, written, listed) && Used(m, n) == 0
    ensures Traces(m, written, written, listed - {n})
  {
    forall w | w in written ensures TraceOk(m, written, listed - {n}, w) { assert TraceOk(m, written, listed, w); }
  }

  lemma MergeNextTraces(m: Memory, segs: seq<Seg>, written: set<int>, i: nat)
    requires Tiles(segs) && Represents(m, segs) && Remains(m, segs, written) && i < |segs|
    ensures Remains(MergeNextMem(m, segs[i].addr), MergeNext(segs, i), written)
  {
    hide Get, AbsorbNext, Remains;
    ListedBlock(m, segs, i);
    if i + 1 < |segs| {
      AbsorbRoom(m, segs, i);
      if !segs[i + 1].used { JoinTraces(m, segs, written, i); }
    }
  }

  lemma MergePrevTraces(m: Memory, segs: seq<Seg>, written: set<int>, i: nat)
    requires Tiles(segs) && Represents(m, segs) && Remains(m, segs, written) && i < |segs| && !segs[i].used
    ensures Remains(MergePrevMem(m, segs[i].addr), MergePrev(segs, i), written)
  {
    hide Get, AbsorbNext, AbsorbIntoPrev, Remains;
    ListedBlock(m, segs, i);
    if i > 0 {
      AbsorbRoom(m, segs, i - 1);
      JoinRepresents(m, segs, i - 1);
      if !segs[i - 1].used { JoinTraces(m, segs, written, i - 1); }
    }
  }

  lemma ReleaseTraces(s: Machine, segs: seq<Seg>, written: set<int>, i: nat)
    requires Tiles(segs) && Represents(s.mem, segs) && Remains(s.mem, segs, written) && i < |segs|
    ensures var b := segs[i].addr;
            Remains(MergeBlocks(s.(mem := SetUsed(s.mem, b, 0)), b).mem, Release(segs, i), written)
  {
    hide Get, SetUsed, MergeNextMem, MergePrevMem, Remains, Represents;
    var b := segs[i].addr;
    var s1 := Unuse(segs, i);
    var m1 := SetUsed(s.mem, b, 0);
    UnuseRepresents(s.mem, segs, i);
    UnuseKeeps(segs, i);
    UnuseTraces(s.mem, segs, written, i);
    MergeNextHolds(m1, s1, i);
    MergeNextKeeps(s1, i);
    MergeNextTraces(m1, s1, written, i);
    MergePrevTraces(MergeNextMem(m1, b), MergeNext(s1, i), written, i);
  }

  // ----- Every reachable state -----

  ghost predicate RunTraces(c: Client) {
    Remains(c.machine.mem, c.heap.segs, c.written)
  }

  lemma SearchedTraces(h: Heap, s: Machine, n: int, written: set<int>)
    requires WellFormed(h) && Holds(s, h) && Remains(s.mem, h.segs, written) && 0 < n
    ensures WellFormed(Searched(h, n))
    ensures Remains(SearchedMachine(h, s, n).mem, Searched(h, n).segs, written + Starts(Searched(h, n).segs))
  {
    hide Get, GrowMem, Traces;
    var segs, last := h.segs, |h.segs| - 1;
    ExpandKeeps(h, n);
    if FirstFit(segs, Need(n), 0) == |segs| && CanGrow(h, n) {
      GrowTraces(s.mem, segs, written, GrowBy(n));
      StartsOfGrown(segs, Seg(End(segs), GrowBy(n), false));
      assert written + {End(segs)} == written + Starts(Searched(h, n).segs);
    } else {
      assert written + Starts(segs) == written;
    }
  }

  lemma AllocTraces(c: Client, n: int)
    requires RunInvariant(c) && RunTraces(c) && Legal(c, Alloc(n))
    ensures RunTraces(Step(c, Alloc(n)))
  {
    hide Get, GrowMem, SplitMem, Traces, Represents, GrowthBound, Tiles, SearchedMachine, Searched, Chosen;
    if n == 0 {
      assert c.written + Starts(c.heap.segs) == c.written;
    } else {
      MallocShape(c.heap, n);
      SearchedHolds(c.heap, c.machine, n);
      SearchedTraces(c.heap, c.machine, n, c.written);
      NeedBounds(n);
      var g, i, m := Searched(c.heap, n), Chosen(c.heap, n), SearchedMachine(c.heap, c.machine, n).mem;
      var written := c.written + Starts(g.segs);
      if TakesSplit(c.heap, n) {
        SplitTraces(m, g.segs, written, i, Need(n));
        StartsOfSplit(g.segs, i, Need(n));
        assert written + {g.segs[i].addr + Need(n)} == c.written + Starts(SplitSegs(g.segs, i, Need(n)));
      }
    }
  }

  lemma DeallocTraces(c: Client, ptr: int)
    requires RunInvariant(c) && RunTraces(c) && Legal(c, Dealloc(ptr))
    ensures RunTraces(Step(c, Dealloc(ptr)))
  {
    hide Get, MergeBlocks, SetUsed, Release, Remains, GrowthBound;
    var i := IndexOf(c.heap.segs, BlockOf(ptr), 0);
    BlockOfListed(c.heap.segs, ptr);
    if i < |c.heap.segs| {
      ListedBlock(c.machine.mem, c.heap.segs, i);
      ReleaseTraces(c.machine.(usedBlocks := (c.machine.usedBlocks - 1) % UINT32), c.heap.segs, c.written, i);
    }
  }

  lemma {:induction false} LeavesFromHereOn(c: Client, events: seq<Event>, d: Client)
    requires RunInvariant(c) && RunTraces(c) && Reaches(c, events, d)
    ensures RunTraces(d)
    decreases |events|
  {
    hide Holds, RunTraces, MallocMachine, FreeMachine;
    if events == [] {
    } else {
      StepKeeps(c, events[0]);
      match events[0] {
        case Alloc(n) => AllocTraces(c, n);
        case Dealloc(ptr) => DeallocTraces(c, ptr);
      }
      LeavesFromHereOn(Step(c, events[0]), events[1..], d);
    }
  }

  lemma InitialTraces(m: Memory)
    ensures RunTraces(InitialClient(m))
  {
    hide Get, NewHeader;
    NewHeaderEffect(m, START, INITIAL_SIZE, NULL, NULL, START);
    assert HeaderAt(InitialMachine(m).mem, START) == Header(MAGIC, INITIAL_SIZE, 0, NULL, NULL);
    assert INITIAL_HEAP.segs[0].addr == START;
    assert Starts(INITIAL_HEAP.segs) == {START};
  }

  /** What every run leaves at the addresses where a block ever started. */
  lemma RunLeaves(m: Memory, events: seq<Event>, d: Client)
    requires Reaches(InitialClient(m), events, d)
    ensures RunTraces(d)
  {
    hide InitialMachine, Reaches;
    InitialHolds(m);
    InitialTraces(m);
    LeavesFromHereOn(InitialClient(m), events, d);
  }
}
