/** Whole runs of the heap: any sequence of allocations and frees from the initial heap. */
module HeapRuns {
  import opened HeapInMemory
  import opened HeapMemory
  import opened HeapSpec
  import opened HeapLemmas
  import opened HeapMeaning

  datatype Event = Alloc(n: int) | Dealloc(ptr: int)

  /** The heap on values and in the machine, together with its history: the live allocations with their requested
      sizes, the number of expansions, of allocations served without a split and of splits of a block behind a free
      one, and the addresses at which a block has ever started. */
  datatype Client = Client(heap: Heap, machine: Machine, live: map<int, int>,
                           grown: nat, whole: nat, mended: nat, written: set<int>)

  /** heap_init, on whatever the memory held before. */
  function InitialMachine(m: Memory): Machine {
    Machine(NewHeader(m, START, INITIAL_SIZE, NULL, NULL), 1, 0)
  }

  function InitialClient(m: Memory): Client {
    Client(INITIAL_HEAP, InitialMachine(m), map[], 0, 0, 0, {START})
  }

  /** No 64-bit wrap in the size arithmetic, and no free that gets past the checks of kmfree at an address where no
      listed block starts. HeapFrees shows that any such free of a pointer ever handed out breaks the heap or follows a
      link out of it. */
  predicate Legal(c: Client, e: Event)
    requires c.heap.segs != []
  {
    match e
    case Alloc(n) => 0 <= n && n + 39 < UINT64 && End(c.heap.segs) + Align8(n) < UINT64
    case Dealloc(ptr) => 0 <= ptr < UINT64 && SafeFree(c.heap, c.machine.mem, ptr)
  }

  /** The request splits a block whose predecessor is free. */
  predicate SplitsBehindFree(h: Heap, n: int)
    requires h.segs != []
  {
    var s, i := Searched(h, n).segs, Chosen(h, n);
    TakesSplit(h, n) && i > 0 && !s[i - 1].used
  }

  function Step(c: Client, e: Event): Client
    requires c.heap.segs != []
  {
    match e
    case Alloc(n) =>
      var r := Malloc(c.heap, n);
      Client(r.heap,
             MallocMachine(c.heap, c.machine, n),
             if r.ptr == 0 then c.live else c.live[r.ptr := n],
             c.grown + (if r.grew then 1 else 0),
             c.whole + (if r.outcome == Whole then 1 else 0),
             c.mended + (if 0 < n && SplitsBehindFree(c.heap, n) then 1 else 0),
             c.written + Starts(r.heap.segs))
    case Dealloc(ptr) =>
      c.(heap := Free(c.heap, ptr), machine := FreeMachine(c.machine, ptr), live := c.live - {ptr})
  }

  /** A run of legal events leads from c to d. */
  ghost predicate Reaches(c: Client, events: seq<Event>, d: Client)
    decreases |events|
  {
    if events == [] then c == d
    else c.heap.segs != [] && Legal(c, events[0]) && Reaches(Step(c, events[0]), events[1..], d)
  }

  // ----- Free pairs and used blocks through a single call -----

  function Seam(a: seq<Seg>, b: seq<Seg>): nat {
    if a != [] && b != [] && !a[|a| - 1].used && !b[0].used then 1 else 0
  }

  lemma {:induction false} Concat(a: seq<Seg>, b: seq<Seg>)
    ensures FreePairs(a + b) == FreePairs(a) + Seam(a, b) + FreePairs(b)
    ensures CountUsed(a + b) == CountUsed(a) + CountUsed(b)
  {
    if a == [] {
      assert a + b == b;
    } else {
      assert (a + b)[1..] == a[1..] + b;
      Concat(a[1..], b);
    }
  }

  /** Replacing the middle of a list: only the middle and its two seams matter. */
  lemma ReplaceMiddle(a: seq<Seg>, m: seq<Seg>, b: seq<Seg>)
    requires m != []
    ensures FreePairs(a + m + b) == FreePairs(a) + Seam(a, m) + FreePairs(m) + Seam(m, b) + FreePairs(b)
    ensures CountUsed(a + m + b) == CountUsed(a) + CountUsed(m) + CountUsed(b)
  {
    Concat(a, m);
    Concat(a + m, b);
  }

  lemma ShortLists(x: Seg, y: Seg)
    ensures FreePairs([x]) == 0 && CountUsed([x]) == (if x.used then 1 else 0)
    ensures FreePairs([x, y]) == (if !x.used && !y.used then 1 else 0)
    ensures CountUsed([x, y]) == (if x.used then 1 else 0) + (if y.used then 1 else 0)
  {
    assert [x, y][1..] == [y];
    assert [x][1..] == [] && [y][1..] == [];
  }

  lemma Around(segs: seq<Seg>, i: nat)
    requires i < |segs|
    ensures segs[..i] + [segs[i]] + segs[i + 1..] == segs
  {}

  lemma AroundPair(segs: seq<Seg>, i: nat)
    requires i + 1 < |segs|
    ensures segs[..i] + [segs[i], segs[i + 1]] + segs[i + 2..] == segs
  {}

  /** One free block of a list replaced by a used block and a free one: only a pair with the predecessor goes. */
  lemma SplitMiddle(a: seq<Seg>, x: Seg, y: Seg, z: Seg, b: seq<Seg>)
    requires !x.used && y.used && !z.used
    ensures FreePairs(a + [y, z] + b) == FreePairs(a + [x] + b) - Seam(a, [x])
    ensures CountUsed(a + [y, z] + b) == CountUsed(a + [x] + b) + 1
  {
    ReplaceMiddle(a, [x], b);
    ReplaceMiddle(a, [y, z], b);
    ShortLists(x, x);
    ShortLists(y, z);
  }

  /** Two free blocks of a list replaced by one. */
  lemma JoinMiddle(a: seq<Seg>, x: Seg, y: Seg, z: Seg, b: seq<Seg>)
    requires !x.used && !y.used && !z.used
    ensures FreePairs(a + [z] + b) == FreePairs(a + [x, y] + b) - 1
    ensures CountUsed(a + [z] + b) == CountUsed(a + [x, y] + b)
  {
    ReplaceMiddle(a, [x, y], b);
    ReplaceMiddle(a, [z], b);
    ShortLists(x, y);
    ShortLists(z, z);
  }

  lemma SplitCounts(segs: seq<Seg>, i: nat, need: int)
    requires i < |segs| && !segs[i].used
    ensures FreePairs(SplitSegs(segs, i, need)) == FreePairs(segs) - if i > 0 && !segs[i - 1].used then 1 else 0
    ensures CountUsed(SplitSegs(segs, i, need)) == CountUsed(segs) + 1
  {
    var y, z := Seg(segs[i].addr, need, true), Seg(segs[i].addr + need, segs[i].size - need, false);
    assert SplitSegs(segs, i, need) == segs[..i] + [y, z] + segs[i + 1..];
    SplitMiddle(segs[..i], segs[i], y, z, segs[i + 1..]);
    Around(segs, i);
  }

  lemma JoinCounts(segs: seq<Seg>, i: nat)
    requires i + 1 < |segs| && !segs[i].used && !segs[i + 1].used
    ensures FreePairs(Join(segs, i)) == FreePairs(segs) - 1
    ensures CountUsed(Join(segs, i)) == CountUsed(segs)
  {
    var z := segs[i].(size := segs[i].size + segs[i + 1].size);
    assert Join(segs, i) == segs[..i] + [z] + segs[i + 2..];
    JoinMiddle(segs[..i], segs[i], segs[i + 1], z, segs[i + 2..]);
    AroundPair(segs, i);
  }

  /** Freeing without merging makes a free pair with each free neighbour. */
  lemma UnuseCounts(segs: seq<Seg>, i: nat)
    requires i < |segs| && segs[i].used
    ensures FreePairs(Unuse(segs, i)) ==
            FreePairs(segs) + (if i + 1 < |segs| && !segs[i + 1].used then 1 else 0)
                            + (if i > 0 && !segs[i - 1].used then 1 else 0)
    ensures CountUsed(Unuse(segs, i)) == CountUsed(segs) - 1
  {
    var a, b := segs[..i], segs[i + 1..];
    assert segs == a + [segs[i]] + b;
    assert Unuse(segs, i) == a + [segs[i].(used := false)] + b;
    ReplaceMiddle(a, [segs[i]], b);
    ReplaceMiddle(a, [segs[i].(used := false)], b);
  }

  /** Merging consumes exactly the pairs that freeing created. */
  lemma ReleaseCounts(segs: seq<Seg>, i: nat)
    requires i < |segs| && segs[i].used
    ensures FreePairs(Release(segs, i)) == FreePairs(segs)
    ensures CountUsed(Release(segs, i)) == CountUsed(segs) - 1
  {
    var s1 := Unuse(segs, i);
    var s2 := MergeNext(s1, i);
    UnuseCounts(segs, i);
    if i + 1 < |s1| && !s1[i + 1].used {
      JoinCounts(s1, i);
      JoinEntries(s1, i);
    }
    if i > 0 && !s2[i - 1].used { JoinCounts(s2, i - 1); }
  }

  /** An expansion makes a free pair exactly when the last block is free: the new block is not merged with it. */
  lemma ExpandCounts(h: Heap, n: int)
    requires h.segs != []
    ensures FreePairs(Expand(h, n).segs) ==
            FreePairs(h.segs) + if CanGrow(h, n) && !h.segs[|h.segs| - 1].used then 1 else 0
    ensures CountUsed(Expand(h, n).segs) == CountUsed(h.segs)
  {
    if CanGrow(h, n) {
      Concat(h.segs, [Seg(End(h.segs), GrowBy(n), false)]);
    }
  }

  /** After an expansion only the new block can serve the request. */
  lemma ServedByExpansion(h: Heap, n: int)
    requires h.segs != [] && 0 < n && FirstFit(h.segs, Need(n), 0) == |h.segs|
    ensures Chosen(h, n) >= |h.segs|
  {}

  /** An allocation uses one block more exactly when it splits. The free pairs rise by one when the heap grows behind
      a free block, and fall by one when the block split has a free predecessor; so they rise if and only if the heap
      grows behind a free block and the request does not split. */
  lemma MallocCounts(h: Heap, n: int)
    requires WellFormed(h) && 0 < n
    ensures FreePairs(Malloc(h, n).heap.segs) ==
            FreePairs(h.segs) + (if Malloc(h, n).grew && !h.segs[|h.segs| - 1].used then 1 else 0)
                              - (if SplitsBehindFree(h, n) then 1 else 0)
    ensures FreePairs(Malloc(h, n).heap.segs) > FreePairs(h.segs) <==>
            Malloc(h, n).grew && !h.segs[|h.segs| - 1].used && !TakesSplit(h, n)
    ensures CountUsed(Malloc(h, n).heap.segs) == CountUsed(h.segs) + (if TakesSplit(h, n) then 1 else 0)
  {
    hide FreePairs, CountUsed, SplitSegs;
    ExpandCounts(h, n);
    MallocShape(h, n);
    var s, i := Searched(h, n).segs, Chosen(h, n);
    if i < |s| { SplitCounts(s, i, Need(n)); }
    if FirstFit(h.segs, Need(n), 0) == |h.segs| { ServedByExpansion(h, n); }
  }

  // ----- Every reachable state -----

  /** How the number of expansions determines the free pairs and limits the end of the heap. */
  ghost predicate GrowthBound(segs: seq<Seg>, grown: nat, mended: nat)
    requires segs != []
  {
    && FreePairs(segs) + mended == grown
    && START + INITIAL_SIZE + GROW_SIZE * grown <= End(segs)
    && (grown == 0 ==> End(segs) == START + INITIAL_SIZE)
  }

  /** The last block is never in use. */
  predicate LastFree(segs: seq<Seg>) {
    segs != [] && !segs[|segs| - 1].used
  }

  ghost predicate RunInvariant(c: Client) {
    && WellFormed(c.heap)
    && Holds(c.machine, c.heap)
    && LastFree(c.heap.segs)
    && GrowthBound(c.heap.segs, c.grown, c.mended)
    && c.heap.usedBlocks == (CountUsed(c.heap.segs) + c.whole) % UINT32
  }

  lemma MallocLast(h: Heap, n: int)
    requires WellFormed(h) && 0 < n && LastFree(h.segs)
    ensures LastFree(Malloc(h, n).heap.segs)
  {
    MallocShape(h, n);
    var s, i := Searched(h, n).segs, Chosen(h, n);
    if i < |s| { SplitEntries(s, i, Need(n)); }
  }

  lemma JoinLast(segs: seq<Seg>, i: nat)
    requires LastFree(segs) && i + 1 < |segs| && !segs[i].used
    ensures LastFree(Join(segs, i))
  {
    JoinEntries(segs, i);
  }

  lemma ReleaseLast(segs: seq<Seg>, i: nat)
    requires LastFree(segs) && i < |segs|
    ensures LastFree(Release(segs, i))
  {
    var s1 := Unuse(segs, i);
    var s2 := MergeNext(s1, i);
    if i + 1 < |s1| && !s1[i + 1].used { JoinLast(s1, i); }
    if i > 0 && !s2[i - 1].used { JoinLast(s2, i - 1); }
  }

  lemma MallocBound(h: Heap, n: int, grown: nat, mended: nat)
    requires WellFormed(h) && 0 < n && LastFree(h.segs) && GrowthBound(h.segs, grown, mended)
    ensures Malloc(h, n).heap.segs != []
    ensures GrowthBound(Malloc(h, n).heap.segs, grown + (if Malloc(h, n).grew then 1 else 0),
                        mended + if SplitsBehindFree(h, n) then 1 else 0)
  {
    MallocCounts(h, n);
    MallocEnd(h, n);
  }

  lemma MallocUsed(h: Heap, n: int, whole: nat)
    requires WellFormed(h) && 0 < n && h.usedBlocks == (CountUsed(h.segs) + whole) % UINT32
    ensures var r := Malloc(h, n);
            r.heap.usedBlocks == (CountUsed(r.heap.segs) + whole + if r.outcome == Whole then 1 else 0) % UINT32
  {
    hide CountUsed, FreePairs, TakesSplit, SplitsBehindFree;
    MallocCounts(h, n);
    MallocShape(h, n);
    MallocCounter(h, n);
    ModStep(h.usedBlocks, CountUsed(h.segs) + whole, 1);
  }

  lemma AllocKeeps(c: Client, n: int)
    requires RunInvariant(c) && Legal(c, Alloc(n))
    ensures RunInvariant(Step(c, Alloc(n)))
  {
    hide MallocMachine, Holds, Searched, Chosen, TakesSplit;
    MallocKeeps(c.heap, n);
    MallocHolds(c.heap, c.machine, n);
    if n != 0 {
      MallocLast(c.heap, n);
      MallocBound(c.heap, n, c.grown, c.mended);
      MallocUsed(c.heap, n, c.whole);
    }
  }

  /** The heap ends where it did, or at least 4096 bytes later after an expansion. */
  lemma MallocEnd(h: Heap, n: int)
    requires WellFormed(h) && 0 < n
    ensures Malloc(h, n).heap.segs != []
    ensures !Malloc(h, n).grew ==> End(Malloc(h, n).heap.segs) == End(h.segs)
    ensures Malloc(h, n).grew ==> End(Malloc(h, n).heap.segs) >= End(h.segs) + GROW_SIZE
  {
    MallocShape(h, n);
    NeedBounds(n);
    var g, i := Searched(h, n), Chosen(h, n);
    if i < |g.segs| && Splits(g.segs, i, Need(n)) { SplitKeeps(g, i, Need(n)); }
  }

  lemma MallocCounter(h: Heap, n: int)
    requires h.segs != []
    ensures Malloc(h, n).heap.usedBlocks ==
            if Malloc(h, n).outcome == Failed then h.usedBlocks else (h.usedBlocks + 1) % UINT32
  {}

  lemma ModStep(u: int, count: int, d: int)
    requires u == count % UINT32
    ensures (u + d) % UINT32 == (count + d) % UINT32
  {}

  lemma FreeCounts(h: Heap, ptr: int, whole: nat)
    requires WellFormed(h) && h.usedBlocks == (CountUsed(h.segs) + whole) % UINT32
    requires LastFree(h.segs)
    ensures LastFree(Free(h, ptr).segs)
    ensures FreePairs(Free(h, ptr).segs) == FreePairs(h.segs)
    ensures Free(h, ptr).usedBlocks == (CountUsed(Free(h, ptr).segs) + whole) % UINT32
  {
    var i := IndexOf(h.segs, ptr - HEADER, 0);
    if ptr != 0 && i < |h.segs| && h.segs[i].used {
      ReleaseCounts(h.segs, i);
      ReleaseLast(h.segs, i);
      ModStep(h.usedBlocks, CountUsed(h.segs) + whole, -1);
    }
  }

  lemma DeallocKeeps(c: Client, ptr: int)
    requires RunInvariant(c) && Legal(c, Dealloc(ptr))
    ensures RunInvariant(Step(c, Dealloc(ptr)))
  {
    hide FreeMachine, Holds, Free, FreePairs, CountUsed, SafeFree;
    FreeHolds(c.machine, c.heap, ptr);
    FreeKeeps(c.heap, ptr);
    FreeCounts(c.heap, ptr, c.whole);
  }

  lemma StepKeeps(c: Client, e: Event)
    requires RunInvariant(c) && Legal(c, e)
    ensures RunInvariant(Step(c, e))
  {
    match e
    case Alloc(n) => AllocKeeps(c, n);
    case Dealloc(ptr) => DeallocKeeps(c, ptr);
  }

  lemma {:induction false} FromHereOn(c: Client, events: seq<Event>, d: Client)
    requires RunInvariant(c) && Reaches(c, events, d)
    ensures RunInvariant(d)
    decreases |events|
  {
    hide Holds, MallocMachine, FreeMachine;
    if events == [] {
    } else {
      StepKeeps(c, events[0]);
      FromHereOn(Step(c, events[0]), events[1..], d);
    }
  }

  lemma InitialRepresents(m: Memory)
    ensures Represents(InitialMachine(m).mem, INITIAL_HEAP.segs)
  {
    hide Get, NewHeader;
    NewHeaderEffect(m, START, INITIAL_SIZE, NULL, NULL, START);
    assert BlockOk(InitialMachine(m).mem, INITIAL_HEAP.segs, 0);
  }

  lemma InitialHolds(m: Memory)
    ensures RunInvariant(InitialClient(m)) && OwnsUsed(InitialClient(m))
  {
    hide NewHeader;
    var segs := INITIAL_HEAP.segs;
    InitialRepresents(m);
    assert SizeOk(segs, 0);
    assert FreePairs(segs) == 0 && CountUsed(segs) == 0 by { assert segs[1..] == []; }
  }

  /** In every reachable state the blocks tile the heap, memory holds their headers and the counters their number, the
      last block is free, the free pairs are the expansions less the splits behind a free block, and the used
      counter is, modulo 2^32, the used blocks plus the allocations served without a split. */
  lemma RunKeeps(m: Memory, events: seq<Event>, d: Client)
    requires Reaches(InitialClient(m), events, d)
    ensures RunInvariant(d)
  {
    hide InitialMachine, Reaches;
    InitialHolds(m);
    FromHereOn(InitialClient(m), events, d);
  }

  /** Two free neighbours, blocks i and i + 1. */
  predicate FreeNeighbours(segs: seq<Seg>, i: int)
    requires 0 <= i && i + 1 < |segs|
  {
    !segs[i].used && !segs[i + 1].used
  }

  lemma {:induction false} NoPairsNoNeighbours(segs: seq<Seg>)
    ensures FreePairs(segs) == 0 <==> forall i :: 0 <= i < |segs| - 1 ==> !FreeNeighbours(segs, i)
  {
    if |segs| > 1 {
      NoPairsNoNeighbours(segs[1..]);
      if forall i :: 0 <= i < |segs| - 1 ==> !FreeNeighbours(segs, i) {
        assert !FreeNeighbours(segs, 0);
        forall i | 0 <= i < |segs| - 2 ensures !FreeNeighbours(segs[1..], i) { assert !FreeNeighbours(segs, i + 1); }
      }
      if FreePairs(segs) == 0 {
        forall i | 0 <= i < |segs| - 1
          ensures !FreeNeighbours(segs, i)
        {
          if i > 0 { assert !FreeNeighbours(segs[1..], i - 1); }
        }
      }
    }
  }

  /** Coalescing: in a reachable state two neighbours are both free if and only if the heap has been expanded more
      often than a block behind a free one has been split; so not before the first expansion. */
  lemma FullyCoalesced(m: Memory, events: seq<Event>, d: Client)
    requires Reaches(InitialClient(m), events, d)
    ensures d.mended <= d.grown
    ensures (exists i :: 0 <= i < |d.heap.segs| - 1 && FreeNeighbours(d.heap.segs, i)) <==> d.mended < d.grown
  {
    RunKeeps(m, events, d);
    hide Reaches;
    NoPairsNoNeighbours(d.heap.segs);
  }

  /** Free blocks are isolated but for the free pairs, so used blocks limit how many blocks there can be. */
  lemma {:induction false} BlocksBounded(segs: seq<Seg>)
    ensures |segs| <= 2 * CountUsed(segs) + FreePairs(segs) + (if segs != [] && !segs[0].used then 1 else 0)
  {
    if segs == [] {
    } else {
      BlocksBounded(segs[1..]);
    }
  }

  /** Fragmentation: in every reachable state there are at most twice as many blocks as used ones, plus one, plus
      one for each expansion. */
  lemma FragmentationBounded(m: Memory, events: seq<Event>, d: Client)
    requires Reaches(InitialClient(m), events, d)
    ensures |d.heap.segs| <= 2 * CountUsed(d.heap.segs) + 1 + d.grown
    ensures GROW_SIZE * d.grown <= MAX - START - INITIAL_SIZE
  {
    RunKeeps(m, events, d);
    hide Reaches;
    BlocksBounded(d.heap.segs);
  }

  // ----- A block that was split off stays taken until it is freed, in runs of any kind -----

  ghost predicate UsedBlock(segs: seq<Seg>, a: int, size: int) {
    exists i :: 0 <= i < |segs| && segs[i] == Seg(a, size, true)
  }

  lemma MallocKeepsUsed(h: Heap, n: int, a: int, size: int)
    requires WellFormed(h) && 0 < n && UsedBlock(h.segs, a, size)
    ensures UsedBlock(Malloc(h, n).heap.segs, a, size)
  {
    MallocShape(h, n);
    var k :| 0 <= k < |h.segs| && h.segs[k] == Seg(a, size, true);
    var s, i := Searched(h, n).segs, Chosen(h, n);
    assert s[k] == Seg(a, size, true);
    if i < |s| && Splits(s, i, Need(n)) {
      SplitEntries(s, i, Need(n));
      assert SplitSegs(s, i, Need(n))[if k < i then k else k + 1] == Seg(a, size, true);
    }
  }

  lemma JoinKeepsUsed(segs: seq<Seg>, i: nat, a: int, size: int)
    requires i + 1 < |segs| && !segs[i].used && !segs[i + 1].used && UsedBlock(segs, a, size)
    ensures UsedBlock(Join(segs, i), a, size)
  {
    JoinEntries(segs, i);
    var k :| 0 <= k < |segs| && segs[k] == Seg(a, size, true);
    assert Join(segs, i)[if k < i then k else k - 1] == Seg(a, size, true);
  }

  lemma FreeKeepsUsed(h: Heap, ptr: int, a: int, size: int)
    requires WellFormed(h) && UsedBlock(h.segs, a, size) && ptr != a + HEADER
    ensures UsedBlock(Free(h, ptr).segs, a, size)
  {
    var i := IndexOf(h.segs, ptr - HEADER, 0);
    if ptr != 0 && i < |h.segs| && h.segs[i].used {
      var s1 := Unuse(h.segs, i);
      var s2 := MergeNext(s1, i);
      var k :| 0 <= k < |h.segs| && h.segs[k] == Seg(a, size, true);
      assert s1[k] == Seg(a, size, true);
      if i + 1 < |s1| && !s1[i + 1].used { JoinKeepsUsed(s1, i, a, size); }
      if i > 0 && !s2[i - 1].used { JoinKeepsUsed(s2, i - 1, a, size); }
    }
  }

  predicate NeverFrees(events: seq<Event>, ptr: int) {
    forall k :: 0 <= k < |events| ==> events[k] != Dealloc(ptr)
  }

  lemma {:induction false} UsedUntilFreed(c: Client, events: seq<Event>, d: Client, a: int, size: int)
    requires RunInvariant(c) && Reaches(c, events, d) && NeverFrees(events, a + HEADER)
    requires UsedBlock(c.heap.segs, a, size)
    ensures RunInvariant(d) && UsedBlock(d.heap.segs, a, size)
    decreases |events|
  {
    hide Holds, MallocMachine, FreeMachine;
    if events == [] {
    } else {
      StepKeeps(c, events[0]);
      match events[0] {
        case Alloc(n) => if n != 0 { MallocKeepsUsed(c.heap, n, a, size); }
        case Dealloc(ptr) => FreeKeepsUsed(c.heap, ptr, a, size);
      }
      UsedUntilFreed(Step(c, events[0]), events[1..], d, a, size);
    }
  }

  /** Whatever else the run does, and however its other allocations are served: until a split allocation is freed,
      no allocation overlaps it. */
  lemma {:induction false} SplitStaysTaken(m: Memory, before: seq<Event>, c: Client, n: int,
                                           after: seq<Event>, d: Client, k: int)
    requires Reaches(InitialClient(m), before, c) && c.heap.segs != [] && 0 < n && 0 < k && TakesSplit(c.heap, n)
    requires Reaches(c, [Alloc(n)] + after, d) && NeverFrees(after, Malloc(c.heap, n).ptr)
    ensures d.heap.segs != []
    ensures Malloc(d.heap, k).ptr != 0 ==>
              Disjoint(Malloc(c.heap, n).ptr - HEADER, n + HEADER, Malloc(d.heap, k).ptr - HEADER, k + HEADER)
  {
    hide Holds, MallocMachine;
    RunKeeps(m, before, c);
    FirstStep(c, Alloc(n), after, d);
    hide Reaches;
    StepKeeps(c, Alloc(n));
    AllocatedBlock(c.heap, n);
    NeedBounds(n);
    SplitEntries(Searched(c.heap, n).segs, Chosen(c.heap, n), Need(n));
    UsedUntilFreed(Step(c, Alloc(n)), after, d, Malloc(c.heap, n).ptr - HEADER, Need(n));
    AvoidsUsed(d.heap, k, Malloc(c.heap, n).ptr, n);
  }

  lemma FirstStep(c: Client, e: Event, events: seq<Event>, d: Client)
    requires Reaches(c, [e] + events, d)
    ensures c.heap.segs != [] && Legal(c, e) && Reaches(Step(c, e), events, d)
  {
    hide MallocMachine, FreeMachine, Malloc, Free, Legal;
    assert ([e] + events)[1..] == events;
  }

  /** No allocation overlaps a used block. */
  lemma AvoidsUsed(h: Heap, k: int, p: int, n: int)
    requires WellFormed(h) && 0 < k && 0 < n && UsedBlock(h.segs, p - HEADER, Need(n))
    ensures Malloc(h, k).ptr != 0 ==> Disjoint(p - HEADER, n + HEADER, Malloc(h, k).ptr - HEADER, k + HEADER)
  {
    NeedBounds(n);
    MallocShape(h, k);
    var q := Malloc(h, k).ptr;
    var x := if q < p then p - HEADER else q - HEADER;
    var i :| 0 <= i < |h.segs| && h.segs[i] == Seg(p - HEADER, Need(n), true);
    if q != 0 && !Disjoint(p - HEADER, n + HEADER, q - HEADER, k + HEADER) {
      assert Covers(h.segs, i, x);
      TakesUnused(h, k, x);
    }
  }

  // ----- Runs in which every allocation splits -----

  ghost predicate OwnedBlock(c: Client, p: int) {
    var i := IndexOf(c.heap.segs, p - HEADER, 0);
    p in c.live ==>
      i < |c.heap.segs| && c.heap.segs[i].used && 0 < c.live[p] && c.live[p] + HEADER <= c.heap.segs[i].size
  }

  ghost predicate LiveBlock(c: Client, i: int)
    requires 0 <= i < |c.heap.segs|
  {
    c.heap.segs[i].used ==> c.heap.segs[i].addr + HEADER in c.live
  }

  /** Live allocations are exactly the used blocks, each large enough for its request. */
  ghost predicate OwnsUsed(c: Client) {
    && (forall p :: OwnedBlock(c, p))
    && (forall i :: 0 <= i < |c.heap.segs| ==> LiveBlock(c, i))
  }

  lemma ExpandOwns(c: Client, n: int)
    requires WellFormed(c.heap) && OwnsUsed(c) && 0 < n
    ensures WellFormed(Expand(c.heap, n)) && OwnsUsed(c.(heap := Expand(c.heap, n)))
  {
    ExpandKeeps(c.heap, n);
    var d := c.(heap := Expand(c.heap, n));
    forall p ensures OwnedBlock(d, p) {
      assert OwnedBlock(c, p);
      if p in c.live { IndexOfBlock(d.heap.segs, IndexOf(c.heap.segs, p - HEADER, 0)); }
    }
    forall i | 0 <= i < |d.heap.segs| ensures LiveBlock(d, i) {
      if i < |c.heap.segs| { assert LiveBlock(c, i); }
    }
  }

  lemma SplitOwnedBlock(c: Client, i: nat, n: int, d: Client, p: int)
    requires WellFormed(c.heap) && OwnedBlock(c, p) && 0 < n
    requires i < |c.heap.segs| && !c.heap.segs[i].used && Splits(c.heap.segs, i, Need(n))
    requires d.heap.segs == SplitSegs(c.heap.segs, i, Need(n)) && Tiles(d.heap.segs)
    requires d.live == c.live[c.heap.segs[i].addr + HEADER := n]
    ensures OwnedBlock(d, p)
  {
    var s := c.heap.segs;
    NeedBounds(n);
    SplitEntries(s, i, Need(n));
    if p == s[i].addr + HEADER {
      IndexOfBlock(d.heap.segs, i);
    } else if p in c.live {
      var k := IndexOf(s, p - HEADER, 0);
      IndexOfBlock(d.heap.segs, if k <= i then k else k + 1);
    }
  }

  lemma SplitOwns(c: Client, i: nat, n: int)
    requires WellFormed(c.heap) && OwnsUsed(c) && 0 < n
    requires i < |c.heap.segs| && !c.heap.segs[i].used && Splits(c.heap.segs, i, Need(n))
    ensures OwnsUsed(c.(heap := AllocateAt(c.heap, i, n, false).heap,
                        live := c.live[c.heap.segs[i].addr + HEADER := n]))
  {
    var s := c.heap.segs;
    var d := c.(heap := AllocateAt(c.heap, i, n, false).heap, live := c.live[s[i].addr + HEADER := n]);
    NeedBounds(n);
    SplitTiles(s, i, Need(n));
    SplitEntries(s, i, Need(n));
    forall p ensures OwnedBlock(d, p) {
      assert OwnedBlock(c, p);
      SplitOwnedBlock(c, i, n, d, p);
    }
    forall k | 0 <= k < |d.heap.segs| ensures LiveBlock(d, k) {
      assert LiveBlock(c, if k <= i then k else k - 1);
    }
  }

  /** A free block absorbing a free successor leaves every used block and its owner alone. */
  lemma JoinOwns(c: Client, i: nat)
    requires Tiles(c.heap.segs) && OwnsUsed(c)
    requires i + 1 < |c.heap.segs| && !c.heap.segs[i].used && !c.heap.segs[i + 1].used
    ensures OwnsUsed(c.(heap := c.heap.(segs := Join(c.heap.segs, i))))
  {
    var s := c.heap.segs;
    var d := c.(heap := c.heap.(segs := Join(s, i)));
    assert Tiles(Join(s, i)) by { JoinKeeps(s, i); }
    JoinEntries(s, i);
    forall p ensures OwnedBlock(d, p) {
      assert OwnedBlock(c, p);
      if p in c.live {
        var k := IndexOf(s, p - HEADER, 0);
        IndexOfBlock(d.heap.segs, if k <= i then k else k - 1);
      }
    }
    forall k | 0 <= k < |d.heap.segs| ensures LiveBlock(d, k) {
      assert LiveBlock(c, if k <= i then k else k + 1);
    }
  }

  lemma UnuseOwns(c: Client, i: nat)
    requires Tiles(c.heap.segs) && OwnsUsed(c) && i < |c.heap.segs|
    ensures OwnsUsed(c.(heap := c.heap.(segs := Unuse(c.heap.segs, i)),
                        live := c.live - {c.heap.segs[i].addr + HEADER}))
  {
    var s := c.heap.segs;
    var d := c.(heap := c.heap.(segs := Unuse(s, i)), live := c.live - {s[i].addr + HEADER});
    UnuseKeeps(s, i);
    forall p ensures OwnedBlock(d, p) {
      assert OwnedBlock(c, p);
      if p in d.live { IndexOfBlock(d.heap.segs, IndexOf(s, p - HEADER, 0)); }
    }
    forall k | 0 <= k < |s| ensures LiveBlock(d, k) {
      assert LiveBlock(c, k);
      if k < i { BlocksInOrder(s, k, i); }
      if i < k { BlocksInOrder(s, i, k); }
    }
  }

  lemma ReleaseOwns(c: Client, i: nat)
    requires Tiles(c.heap.segs) && OwnsUsed(c) && i < |c.heap.segs| && c.heap.segs[i].used
    ensures OwnsUsed(c.(heap := c.heap.(segs := Release(c.heap.segs, i)),
                        live := c.live - {c.heap.segs[i].addr + HEADER}))
  {
    var s1 := Unuse(c.heap.segs, i);
    var s2 := MergeNext(s1, i);
    var c1 := c.(heap := c.heap.(segs := s1), live := c.live - {c.heap.segs[i].addr + HEADER});
    var c2 := c1.(heap := c.heap.(segs := s2));
    UnuseOwns(c, i);
    UnuseKeeps(c.heap.segs, i);
    MergeNextKeeps(s1, i);
    if i + 1 < |s1| && !s1[i + 1].used { JoinOwns(c1, i); }
    if i > 0 && !s2[i - 1].used { JoinOwns(c2, i - 1); }
  }

  /** Same used blocks, same live map: ownership carries over. */
  lemma OwnsSame(c: Client, d: Client)
    requires OwnsUsed(c) && d.heap.segs == c.heap.segs && d.live == c.live
    ensures OwnsUsed(d)
  {
    forall p ensures OwnedBlock(d, p) { assert OwnedBlock(c, p); }
    forall i | 0 <= i < |d.heap.segs| ensures LiveBlock(d, i) { assert LiveBlock(c, i); }
  }

  lemma AllocOwns(c: Client, n: int)
    requires WellFormed(c.heap) && OwnsUsed(c) && 0 < n
    requires Malloc(c.heap, n).ptr != 0 ==> TakesSplit(c.heap, n)
    ensures OwnsUsed(Step(c, Alloc(n)))
  {
    MallocShape(c.heap, n);
    ExpandOwns(c, n);
    var g, i := Searched(c.heap, n), Chosen(c.heap, n);
    if i < |g.segs| {
      SplitOwns(c.(heap := g), i, n);
      OwnsSame(c.(heap := AllocateAt(g, i, n, false).heap, live := c.live[g.segs[i].addr + HEADER := n]),
               Step(c, Alloc(n)));
    } else {
      OwnsSame(c.(heap := g), Step(c, Alloc(n)));
    }
  }

  lemma NotLive(c: Client, ptr: int)
    requires WellFormed(c.heap) && OwnsUsed(c)
    requires var i := IndexOf(c.heap.segs, ptr - HEADER, 0); i == |c.heap.segs| || !c.heap.segs[i].used
    ensures ptr !in c.live
  {
    assert OwnedBlock(c, ptr);
  }

  lemma NullNotLive(c: Client)
    requires WellFormed(c.heap) && OwnsUsed(c)
    ensures 0 !in c.live
  {
    assert OwnedBlock(c, 0);
    var i := IndexOf(c.heap.segs, -HEADER, 0);
    if i < |c.heap.segs| { BlocksWithin(c.heap.segs, i); }
  }

  lemma DeallocOwns(c: Client, ptr: int)
    requires WellFormed(c.heap) && OwnsUsed(c)
    ensures OwnsUsed(Step(c, Dealloc(ptr)))
  {
    hide FreeMachine, Release, OwnsUsed;
    var d := Step(c, Dealloc(ptr));
    var i := IndexOf(c.heap.segs, ptr - HEADER, 0);
    if ptr == 0 {
      NullNotLive(c);
      OwnsSame(c, d);
    } else if i < |c.heap.segs| && c.heap.segs[i].used {
      ReleaseOwns(c, i);
      OwnsSame(c.(heap := c.heap.(segs := HeapSpec.Release(c.heap.segs, i)), live := c.live - {ptr}), d);
    } else {
      NotLive(c, ptr);
      OwnsSame(c, d);
    }
  }

  /** Every allocation of the run that succeeds takes the splitting branch. */
  predicate AllSplit(c: Client, events: seq<Event>)
    decreases |events|
  {
    events == [] ||
    (c.heap.segs != [] &&
     (events[0].Alloc? && Malloc(c.heap, events[0].n).ptr != 0 ==> TakesSplit(c.heap, events[0].n)) &&
     AllSplit(Step(c, events[0]), events[1..]))
  }

  lemma {:induction false} SplitRunOwns(c: Client, events: seq<Event>, d: Client)
    requires RunInvariant(c) && OwnsUsed(c) && Reaches(c, events, d) && AllSplit(c, events)
    ensures RunInvariant(d) && OwnsUsed(d) && d.whole == c.whole
    decreases |events|
  {
    if events == [] {
    } else {
      StepKeeps(c, events[0]);
      match events[0] {
        case Alloc(n) => if n == 0 { OwnsSame(c, Step(c, Alloc(n))); } else { MallocShape(c.heap, n); AllocOwns(c, n); }
        case Dealloc(ptr) => DeallocOwns(c, ptr);
      }
      SplitRunOwns(Step(c, events[0]), events[1..], d);
    }
  }

  /** Two different blocks are disjoint, headers included. */
  lemma OwnersDisjoint(d: Client, p: int, q: int)
    requires Tiles(d.heap.segs) && OwnedBlock(d, p) && OwnedBlock(d, q) && p in d.live && q in d.live && p != q
    ensures Disjoint(p - HEADER, d.live[p] + HEADER, q - HEADER, d.live[q] + HEADER)
  {
    var s := d.heap.segs;
    var k, j := IndexOf(s, p - HEADER, 0), IndexOf(s, q - HEADER, 0);
    if j < k { BlocksInOrder(s, j, k); } else { BlocksInOrder(s, k, j); }
  }

  /** In a run whose allocations all split, a live allocation is aligned, inside the heap, disjoint from
      every other live allocation and from every header in the list, and holds the bytes asked for. */
  lemma LiveAllocationsSafe(m: Memory, events: seq<Event>, d: Client, p: int)
    requires Reaches(InitialClient(m), events, d) && AllSplit(InitialClient(m), events) && p in d.live
    ensures d.heap.segs != []
    ensures p % 8 == 0 && START + HEADER <= p && p + d.live[p] <= End(d.heap.segs) <= MAX
    ensures forall q :: q in d.live && q != p ==>
              Disjoint(p - HEADER, d.live[p] + HEADER, q - HEADER, d.live[q] + HEADER)
    ensures forall i :: 0 <= i < |d.heap.segs| ==> Disjoint(p, d.live[p], d.heap.segs[i].addr, HEADER)
  {
    hide InitialMachine, Reaches, AllSplit;
    InitialHolds(m);
    SplitRunOwns(InitialClient(m), events, d);
    var s := d.heap.segs;
    assert OwnedBlock(d, p);
    var k := IndexOf(s, p - HEADER, 0);
    BlocksAligned(s, k);
    BlocksWithin(s, k);
    forall q | q in d.live && q != p
      ensures Disjoint(p - HEADER, d.live[p] + HEADER, q - HEADER, d.live[q] + HEADER)
    {
      assert OwnedBlock(d, q);
      OwnersDisjoint(d, p, q);
    }
    forall i | 0 <= i < |s|
      ensures Disjoint(p, d.live[p], s[i].addr, HEADER)
    {
      if i < k { BlocksInOrder(s, i, k); }
      if k < i { BlocksInOrder(s, k, i); }
    }
  }

  /** In such a run a pointer is live exactly when a used block starts one header before it. */
  lemma LiveIsUsed(m: Memory, events: seq<Event>, d: Client, p: int)
    requires Reaches(InitialClient(m), events, d) && AllSplit(InitialClient(m), events)
    ensures p in d.live <==>
            exists i :: 0 <= i < |d.heap.segs| && d.heap.segs[i].used && d.heap.segs[i].addr + HEADER == p
  {
    hide InitialMachine, Reaches, AllSplit;
    InitialHolds(m);
    SplitRunOwns(InitialClient(m), events, d);
    assert OwnedBlock(d, p);
    if i :| 0 <= i < |d.heap.segs| && d.heap.segs[i].used && d.heap.segs[i].addr + HEADER == p {
      assert LiveBlock(d, i);
    }
  }

  /** In such a run every live pointer can be freed: its header is that of a used block of the list. */
  lemma LiveFreesLegal(m: Memory, events: seq<Event>, d: Client, p: int)
    requires Reaches(InitialClient(m), events, d) && AllSplit(InitialClient(m), events) && p in d.live
    ensures d.heap.segs != [] && Legal(d, Dealloc(p))
    ensures var i := IndexOf(d.heap.segs, p - HEADER, 0); i < |d.heap.segs| && d.heap.segs[i].used
  {
    hide InitialMachine, Reaches, AllSplit;
    InitialHolds(m);
    SplitRunOwns(InitialClient(m), events, d);
    assert OwnedBlock(d, p);
    BlocksWithin(d.heap.segs, IndexOf(d.heap.segs, p - HEADER, 0));
    BlockOfListed(d.heap.segs, p);
  }

  lemma {:induction false} NoneUsed(segs: seq<Seg>)
    requires forall i :: 0 <= i < |segs| ==> !segs[i].used
    ensures CountUsed(segs) == 0
  {
    if segs == [] {
    } else {
      NoneUsed(segs[1..]);
    }
  }

  /** Nothing leaks: when such a run has freed all it allocated, at most one block per expansion is left besides
      the first; without an expansion the heap is the initial one again. */
  lemma NothingLeaks(m: Memory, events: seq<Event>, d: Client)
    requires Reaches(InitialClient(m), events, d) && AllSplit(InitialClient(m), events) && d.live == map[]
    ensures |d.heap.segs| <= 1 + d.grown && d.heap.usedBlocks == 0
    ensures d.grown == 0 ==> d.heap.segs == INITIAL_HEAP.segs
  {
    hide InitialMachine, Reaches, AllSplit;
    InitialHolds(m);
    SplitRunOwns(InitialClient(m), events, d);
    var s := d.heap.segs;
    forall i | 0 <= i < |s|
      ensures !s[i].used
    {
      assert LiveBlock(d, i);
    }
    NoneUsed(s);
    BlocksBounded(s);
  }
}
