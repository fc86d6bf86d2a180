/** Concrete runs: what can go wrong with blocks handed out whole, and what an expansion leaves behind. */
module HeapWitnesses {
  import opened HeapMemory
  import opened HeapSpec
  import opened HeapMeaning
  import opened HeapInMemory
  import opened HeapRuns
  import opened HeapTraces
  import opened HeapFrees

  lemma ReachesCons(c: Client, e: Event, events: seq<Event>, d: Client)
    requires c.heap.segs != [] && Legal(c, e) && Reaches(Step(c, e), events, d)
    ensures Reaches(c, [e] + events, d)
  {
    hide MallocMachine, FreeMachine, Malloc, Free, Legal;
    assert ([e] + events)[1..] == events;
  }

  /** A request for as many bytes as the whole initial heap has: nothing fits, the heap grows, the call returns NULL
      all the same, and the two blocks of the heap are both free. */
  lemma GrownInVain(m: Memory)
    ensures var c := InitialClient(m); var d := Step(c, Alloc(INITIAL_SIZE));
            && Legal(c, Alloc(INITIAL_SIZE))
            && Malloc(c.heap, INITIAL_SIZE).ptr == NULL && Malloc(c.heap, INITIAL_SIZE).grew
            && d.heap.segs == [Seg(START, INITIAL_SIZE, false), Seg(START + INITIAL_SIZE, INITIAL_SIZE, false)]
            && FreePairs(d.heap.segs) == 1 && d.grown == 1 && d.live == map[]
  {
    hide NewHeader, MallocMachine;
    var g := Expand(INITIAL_HEAP, INITIAL_SIZE).segs;
    assert g == [Seg(START, INITIAL_SIZE, false), Seg(START + INITIAL_SIZE, INITIAL_SIZE, false)];
    assert FirstFit(g, Need(INITIAL_SIZE), 2) == 2;
    assert FirstFit(g, Need(INITIAL_SIZE), 1) == 2;
    assert g[1..] == [g[1]];
  }

  const WHOLE_HEAP := INITIAL_SIZE - HEADER

  /** Two requests for the whole initial heap both succeed, with the same pointer. */
  lemma SamePointerTwice(m: Memory)
    ensures var c := Step(InitialClient(m), Alloc(WHOLE_HEAP));
            && Legal(InitialClient(m), Alloc(WHOLE_HEAP)) && c.heap.segs != [] && Legal(c, Alloc(WHOLE_HEAP))
            && Malloc(INITIAL_HEAP, WHOLE_HEAP).ptr == START + HEADER
            && Malloc(c.heap, WHOLE_HEAP).ptr == START + HEADER
  {
    hide NewHeader, MallocMachine;
    assert Need(WHOLE_HEAP) == INITIAL_SIZE;
    assert FirstFit(INITIAL_HEAP.segs, INITIAL_SIZE, 0) == 0;
  }

  // ----- A header torn while its pointer is live -----

  const SMALL := Seg(START, 40, true)
  const REST := Seg(START + 40, INITIAL_SIZE - 40, false)
  const FIRST := Seg(START, 48, true)
  const TAIL := Seg(START + 48, INITIAL_SIZE - 48, false)
  const SECOND := Seg(START + 48, 48, true)
  const LAST := Seg(START + 96, INITIAL_SIZE - 96, false)

  /** The pointer to REST, handed out whole by the second call. */
  const TORN := START + 40 + HEADER

  const FOUR_CALLS := [Alloc(8), Alloc(REST.size - HEADER), Dealloc(START + HEADER), Alloc(16)]

  lemma HeapsOfCalls()
    ensures Malloc(INITIAL_HEAP, 8).heap == Heap([SMALL, REST], 1)
    ensures Malloc(Heap([SMALL, REST], 1), REST.size - HEADER).heap == Heap([SMALL, REST], 2)
    ensures Malloc(Heap([SMALL, REST], 1), REST.size - HEADER).ptr == TORN
    ensures !TakesSplit(Heap([SMALL, REST], 1), REST.size - HEADER)
    ensures Free(Heap([SMALL, REST], 2), START + HEADER) == Heap(INITIAL_HEAP.segs, 1)
    ensures Malloc(Heap(INITIAL_HEAP.segs, 1), 16).heap == Heap([FIRST, TAIL], 2)
    ensures Malloc(Heap([FIRST, TAIL], 2), 16).heap == Heap([FIRST, SECOND, LAST], 3)
  {
    assert FirstFit(INITIAL_HEAP.segs, 40, 0) == 0 && FirstFit(INITIAL_HEAP.segs, 48, 0) == 0;
    assert FirstFit([SMALL, REST], REST.size, 1) == 1 == FirstFit([SMALL, REST], REST.size, 0);
    assert Unuse([SMALL, REST], 0) == [SMALL.(used := false), REST];
    assert FirstFit([FIRST, TAIL], 48, 1) == 1 == FirstFit([FIRST, TAIL], 48, 0);
  }

  // Words that the routines leave alone.

  lemma NewHeaderSpares(m: Memory, at: int, size: int, next: int, prev: int, y: int)
    requires 0 <= next < UINT64 && 0 <= prev < UINT64
    requires y + 4 <= at || y == at + 12 || at + HEADER <= y
    ensures Get(NewHeader(m, at, size, next, prev), y) == Get(m, y)
  {
    hide Get, Put, PutLong;
    var m1 := SetMagic(m, at);
    GetPut(m, at, MAGIC, y);
    var m2 := SetSize(m1, at, size);
    GetPut(m1, at + 4, size, y);
    var m3 := SetUsed(m2, at, 0);
    GetPut(m2, at + 8, 0, y);
    PutLongHalves(m3, at + 16, next, y);
    PutLongHalves(SetNext(m3, at, next), at + 24, prev, y);
  }

  lemma LinkSplitSpares(m: Memory, b: int, total: int, y: int)
    requires 0 < b && HEADER <= total && b + total < UINT64 && Next(m, b) < UINT64
    requires y + 4 <= b || y == b + 12 || b + HEADER <= y
    requires Next(m, b) != NULL ==> y + 4 <= Next(m, b) + 24 || Next(m, b) + HEADER <= y
    ensures Get(LinkSplit(m, b, total), y) == Get(m, y)
  {
    hide Get, Put, PutLong;
    var next := Next(m, b);
    var m1 := SetSize(m, b, total);
    GetPut(m, b + 4, total, y);
    WriteSize(m, b, total, b);
    var m2 := SetUsed(m1, b, 1);
    GetPut(m1, b + 8, 1, y);
    WriteUsed(m1, b, 1, b);
    assert HeaderAt(m2, b).next == next;
    var m3 := if next != NULL then SetPrev(m2, next, b + total) else m2;
    PutLongHalves(m2, next + 24, b + total, y);
    PutLongHalves(m3, b + 16, b + total, y);
  }

  /** A split writes its two headers, padding excepted, and the successor's prev link. */
  lemma SplitSpares(m: Memory, b: int, total: int, y: int)
    requires 0 < b && HEADER <= total <= Size(m, b) && b + total < UINT64
    requires y + 4 <= b || y == b + 12 || (b + HEADER <= y && y + 4 <= b + total) || y == b + total + 12
             || b + total + HEADER <= y
    requires Next(m, b) != NULL ==> y + 4 <= Next(m, b) + 24 || Next(m, b) + HEADER <= y
    ensures Get(SplitMem(m, b, total), y) == Get(m, y)
  {
    hide Get, Put, PutLong, NewHeader, LinkSplit;
    var at, next, size := b + total, Next(m, b), Size(m, b) - total;
    SplitMemIs(m, b, total);
    NewHeaderSpares(m, at, size, next, b, y);
    NewHeaderEffect(m, at, size, next, b, b);
    assert HeaderAt(NewHeader(m, at, size, next, b), b) == HeaderAt(m, b);
    LinkSplitSpares(NewHeader(m, at, size, next, b), b, total, y);
  }

  /** The block at b gives up its use and absorbs its successor. */
  lemma AbsorbSpares(m: Memory, b: int, y: int)
    requires var n := Next(m, b); b != NULL && n != NULL && Clear(b, n)
    requires var after := Next(m, Next(m, b));
             after != NULL ==> Clear(after, b) && (y + 4 <= after + 24 || after + HEADER <= y)
    requires 0 <= b < UINT64 && (y + 4 <= b || b + HEADER <= y)
    ensures Get(AbsorbNext(SetUsed(m, b, 0), b), y) == Get(m, y)
  {
    hide Get, Put, PutLong;
    var n, after := Next(m, b), Next(m, Next(m, b));
    var m1 := SetUsed(m, b, 0);
    GetPut(m, b + 8, 0, y);
    WriteUsed(m, b, 0, n);
    assert HeaderAt(m1, b) == HeaderAt(m, b).(used := 0);
    assert HeaderAt(m1, n) == HeaderAt(m, n);
    var v := Size(m1, b) + Size(m1, n);
    var m2 := SetSize(m1, b, v);
    GetPut(m1, b + 4, v, y);
    WriteSize(m1, b, v, n);
    assert HeaderAt(m2, b) == HeaderAt(m1, b).(size := v % UINT32);
    assert HeaderAt(m2, n) == HeaderAt(m, n);
    var m3 := SetNext(m2, b, after);
    PutLongHalves(m2, b + 16, after, y);
    WriteNext(m2, b, after, b);
    assert HeaderAt(m3, b) == HeaderAt(m2, b).(next := after);
    PutLongHalves(m3, after + 24, b, y);
  }

  const LOST := START + 40

  /** The words that survive of the header at LOST, and a word below the heap. */
  ghost predicate Survives(m: Memory, low: int) {
    Get(m, LOST) == MAGIC && Get(m, LOST + 4) == REST.size && Get(m, LOST + 20) == 0 && Get(m, 9) == low
  }

  lemma FirstCall(m: Memory)
    ensures var c := Step(InitialClient(m), Alloc(8)); Survives(c.machine.mem, Get(m, 9))
    ensures Step(InitialClient(m), Alloc(8)).heap == Heap([SMALL, REST], 1)
    ensures Legal(InitialClient(m), Alloc(8)) && RunInvariant(Step(InitialClient(m), Alloc(8)))
  {
    hide Get, NewHeader, SplitMem, SetUsed, SetSize, SetNext;
    InitialHolds(m);
    HeapsOfCalls();
    StepKeeps(InitialClient(m), Alloc(8));
    var c := Step(InitialClient(m), Alloc(8));
    var init := NewHeader(m, START, INITIAL_SIZE, NULL, NULL);
    assert FirstFit(INITIAL_HEAP.segs, 40, 0) == 0;
    assert c.machine.mem == SplitMem(init, START, 40);
    NewHeaderEffect(m, START, INITIAL_SIZE, NULL, NULL, START);
    NewHeaderSpares(m, START, INITIAL_SIZE, NULL, NULL, 9);
    SplitSpares(init, START, 40, 9);
    SplitEffect(init, START, 40, NULL);
    assert HeaderAt(c.machine.mem, LOST) == Header(MAGIC, REST.size, 0, NULL, START);
  }

  lemma SecondCall(c: Client, low: int)
    requires RunInvariant(c) && c.heap == Heap([SMALL, REST], 1) && Survives(c.machine.mem, low)
    ensures var d := Step(c, Alloc(REST.size - HEADER));
            && Legal(c, Alloc(REST.size - HEADER)) && RunInvariant(d) && d.heap == Heap([SMALL, REST], 2)
            && Survives(d.machine.mem, low) && TORN in d.live
  {
    hide Get, SplitMem, GrowMem, Holds;
    HeapsOfCalls();
    assert FirstFit([SMALL, REST], REST.size, 1) == 1 == FirstFit([SMALL, REST], REST.size, 0);
    StepKeeps(c, Alloc(REST.size - HEADER));
  }

  lemma SplitSurvives(m: Memory, b: int, low: int)
    requires Survives(m, low) && (b == START || b == START + 48) && Next(m, b) == NULL && 48 <= Size(m, b)
    ensures Survives(SplitMem(m, b, 48), low)
  {
    hide Get, GetLong, SplitMem;
    SplitSpares(m, b, 48, LOST);
    SplitSpares(m, b, 48, LOST + 4);
    SplitSpares(m, b, 48, LOST + 20);
    SplitSpares(m, b, 48, 9);
  }

  lemma AbsorbSurvives(m: Memory, low: int)
    requires Survives(m, low) && Next(m, START) == LOST && Next(m, LOST) == NULL
    ensures Survives(AbsorbNext(SetUsed(m, START, 0), START), low)
  {
    hide Get, GetLong, SetUsed, AbsorbNext;
    AbsorbSpares(m, START, LOST);
    AbsorbSpares(m, START, LOST + 4);
    AbsorbSpares(m, START, LOST + 20);
    AbsorbSpares(m, START, 9);
  }

  /** Freeing the first of the two blocks merges it with the second. */
  lemma FreeFirst(s: Machine)
    requires Represents(s.mem, [SMALL, REST])
    ensures FreeMachine(s, START + HEADER).mem == AbsorbNext(SetUsed(s.mem, START, 0), START)
    ensures Next(s.mem, START) == LOST && Next(s.mem, LOST) == NULL
  {
    hide Get, GetLong, SetUsed, SetSize, SetNext, SetPrev, AbsorbNext, AbsorbIntoPrev;
    assert BlockOk(s.mem, [SMALL, REST], 0) && BlockOk(s.mem, [SMALL, REST], 1);
    var m1 := SetUsed(s.mem, START, 0);
    WriteUsed(s.mem, START, 0, LOST);
    assert HeaderAt(m1, START) == HeaderAt(s.mem, START).(used := 0) && HeaderAt(m1, LOST) == HeaderAt(s.mem, LOST);
    AbsorbEffect(m1, START, LOST, NULL);
    assert HeaderAt(AbsorbNext(m1, START), START).prev == NULL;
  }

  lemma ThirdCall(c: Client, low: int)
    requires RunInvariant(c) && c.heap == Heap([SMALL, REST], 2) && Survives(c.machine.mem, low) && TORN in c.live
    ensures var d := Step(c, Dealloc(START + HEADER));
            && Legal(c, Dealloc(START + HEADER)) && RunInvariant(d) && d.heap == Heap(INITIAL_HEAP.segs, 1)
            && Survives(d.machine.mem, low) && TORN in d.live
  {
    hide Get, SetUsed, FreeMachine, AbsorbNext, Survives, GrowthBound;
    HeapsOfCalls();
    assert IndexOf(c.heap.segs, START, 0) == 0;
    FreeFirst(c.machine);
    AbsorbSurvives(c.machine.mem, low);
    StepKeeps(c, Dealloc(START + HEADER));
  }

  lemma FourthCall(c: Client, low: int)
    requires RunInvariant(c) && c.heap == Heap(INITIAL_HEAP.segs, 1) && Survives(c.machine.mem, low) && TORN in c.live
    ensures var d := Step(c, Alloc(16));
            && Legal(c, Alloc(16)) && RunInvariant(d) && d.heap == Heap([FIRST, TAIL], 2)
            && Survives(d.machine.mem, low) && TORN in d.live
  {
    hide Get, SplitMem, GrowMem, Survives, GrowthBound;
    HeapsOfCalls();
    assert FirstFit(INITIAL_HEAP.segs, 48, 0) == 0;
    assert BlockOk(c.machine.mem, INITIAL_HEAP.segs, 0);
    SplitSurvives(c.machine.mem, START, low);
    StepKeeps(c, Alloc(16));
  }

  lemma FifthCall(c: Client, low: int)
    requires RunInvariant(c) && c.heap == Heap([FIRST, TAIL], 2) && Survives(c.machine.mem, low) && TORN in c.live
    ensures var d := Step(c, Alloc(16));
            && Legal(c, Alloc(16)) && RunInvariant(d) && d.heap == Heap([FIRST, SECOND, LAST], 3)
            && Survives(d.machine.mem, low) && TORN in d.live
  {
    hide Get, SplitMem, GrowMem, Survives, GrowthBound;
    HeapsOfCalls();
    assert FirstFit([FIRST, TAIL], 48, 1) == 1 == FirstFit([FIRST, TAIL], 48, 0);
    assert BlockOk(c.machine.mem, [FIRST, TAIL], 1);
    SplitSurvives(c.machine.mem, START + 48, low);
    StepKeeps(c, Alloc(16));
  }

  lemma AfterFourCalls(m: Memory) returns (c: Client)
    ensures Reaches(InitialClient(m), FOUR_CALLS, c) && RunInvariant(c)
    ensures c.heap == Heap([FIRST, TAIL], 2) && TORN in c.live && Survives(c.machine.mem, Get(m, 9))
  {
    hide Get, InitialMachine, MallocMachine, FreeMachine, Malloc, Free, Survives, Legal, RunInvariant, SafeFree;
    var low, c0 := Get(m, 9), InitialClient(m);
    var c1 := Step(c0, Alloc(8));
    FirstCall(m);
    var c2 := Step(c1, Alloc(REST.size - HEADER));
    SecondCall(c1, low);
    var c3 := Step(c2, Dealloc(START + HEADER));
    ThirdCall(c2, low);
    c := Step(c3, Alloc(16));
    FourthCall(c3, low);
    ReachesCons(c3, Alloc(16), [], c);
    ReachesCons(c2, Dealloc(START + HEADER), [Alloc(16)], c);
    ReachesCons(c1, Alloc(REST.size - HEADER), [Dealloc(START + HEADER), Alloc(16)], c);
    ReachesCons(c0, Alloc(8), [Alloc(REST.size - HEADER), Dealloc(START + HEADER), Alloc(16)], c);
  }

  /** What kmfree reads of the torn header once a header lies 8 bytes further on. */
  lemma TornReads(c: Client, i: nat, low: int)
    requires RunInvariant(c) && i < |c.heap.segs| && c.heap.segs[i].addr == LOST + 8 && Survives(c.machine.mem, low)
    ensures var m := c.machine.mem;
            && Accepts(m, LOST) && Size(m, LOST) == REST.size
            && Next(m, LOST) == (if c.heap.segs[i].used then 1 else 0) && Prev(m, LOST) == NextAddr(c.heap.segs, i)
            && Magic(SetUsed(m, LOST, 0), LOST + 8) == 0
            && (forall y :: y + 4 <= LOST + 8 || LOST + 12 <= y ==> Get(SetUsed(m, LOST, 0), y) == Get(m, y))
  {
    hide Get, Put, GrowthBound;
    var m := c.machine.mem;
    ListedBlock(m, c.heap.segs, i);
    forall y { GetPut(m, LOST + 8, 0, y); }
  }

  /** Four legal calls after which a live pointer has lost its header: the block before the one handed out whole is
      freed and absorbs it, and the next allocation writes a header across its own, 8 bytes further on. The magic
      number is still there, and the word at `used` is now that of the new header, so kmfree accepts the pointer and
      clears the new header's magic number. */
  lemma HeaderCanBeLost(m: Memory) returns (c: Client)
    ensures Reaches(InitialClient(m), FOUR_CALLS, c) && RunInvariant(c)
    ensures c.heap == Heap([FIRST, TAIL], 2) && TORN in c.live && !SafeFree(c.heap, c.machine.mem, TORN)
    ensures var s := FreeMachine(c.machine, TORN);
            && HeaderAt(s.mem, START) == HeaderOf([FIRST, TAIL], 0)
            && HeaderAt(s.mem, TAIL.addr) == HeaderOf([FIRST, TAIL], 1).(magic := 0)
            && s.totalBlocks == 2 && s.usedBlocks == 1
  {
    hide Get, Reaches, InitialMachine, GrowthBound, MergeBlocks, SetUsed;
    c := AfterFourCalls(m);
    var s := c.machine.(usedBlocks := 1);
    assert c.machine.usedBlocks == 2;
    TornReads(c, 1, Get(m, 9));
    TornFreeIs(s, LOST, NULL, NULL);
    assert FreeMachine(c.machine, TORN) == MergeBlocks(s.(mem := SetUsed(s.mem, LOST, 0)), LOST);
    assert BlockOk(s.mem, [FIRST, TAIL], 0) && BlockOk(s.mem, [FIRST, TAIL], 1);
  }

  const FIVE_CALLS := FOUR_CALLS + [Alloc(16)]

  /** kmfree of the torn header once the newer one is in use: its `next` reads as 1, so kmfree looks at the word at
      address 9; when that is not 0, the free block behind absorbs the torn one. */
  lemma TornMerge(s: Machine)
    requires Next(s.mem, LOST) == 1 && Prev(s.mem, LOST) == LAST.addr && Get(s.mem, 9) != 0
    requires Used(s.mem, LAST.addr) == 0
    ensures var r := MergeBlocks(s.(mem := SetUsed(s.mem, LOST, 0)), LOST).mem;
            && Next(r, LAST.addr) == 1 && Size(r, LAST.addr) == (Size(s.mem, LAST.addr) + Size(s.mem, LOST)) % UINT32
            && Magic(r, SECOND.addr) == 0 && Next(r, START) == Next(s.mem, START)
  {
    hide Get, Put, PutLong;
    var m, p := SetUsed(s.mem, LOST, 0), LAST.addr;
    forall y { GetPut(s.mem, LOST + 8, 0, y); }
    assert Next(m, LOST) == 1 && Prev(m, LOST) == p && Used(m, 1) != 0 && Used(m, p) == 0;
    var v := Size(m, p) + Size(m, LOST);
    var m1 := SetSize(m, p, v);
    forall y { GetPut(m, p + 4, v, y); }
    assert Prev(m1, LOST) == p && Next(m1, LOST) == 1;
    var m2 := SetNext(m1, p, 1);
    forall y { PutLongHalves(m1, p + 16, 1, y); }
    assert Prev(m2, LOST) == p && Next(m2, LOST) == 1;
    forall y { PutLongHalves(m2, 1 + 24, p, y); }
  }

  /** With one allocation more before that free, the list itself breaks: the last block comes to reach past the end of
      the heap, its link leads to address 1, and there is no list that memory represents. */
  lemma ListCanBreak(m: Memory) returns (c: Client)
    requires Get(m, 9) != 0
    ensures Reaches(InitialClient(m), FIVE_CALLS, c) && TORN in c.live
    ensures c.heap == Heap([FIRST, SECOND, LAST], 3) && !SafeFree(c.heap, c.machine.mem, TORN)
    ensures var r := FreeMachine(c.machine, TORN).mem;
            && Next(r, LAST.addr) == 1 && End(c.heap.segs) < LAST.addr + Size(r, LAST.addr)
            && forall segs :: !(Tiles(segs) && Represents(r, segs))
  {
    hide Get, Reaches, InitialMachine, GrowthBound, MergeBlocks, SetUsed, MallocMachine;
    var c4 := AfterFourCalls(m);
    c := Step(c4, Alloc(16));
    FifthCall(c4, Get(m, 9));
    ReachesSnoc(InitialClient(m), FOUR_CALLS, c4, Alloc(16));
    var s := c.machine.(usedBlocks := 2);
    assert c.machine.usedBlocks == 3;
    TornReads(c, 1, Get(m, 9));
    ListedBlock(c.machine.mem, c.heap.segs, 0);
    ListedBlock(c.machine.mem, c.heap.segs, 2);
    TornMerge(s);
    var r := FreeMachine(c.machine, TORN).mem;
    assert r == MergeBlocks(s.(mem := SetUsed(s.mem, LOST, 0)), LOST).mem;
    forall segs
      ensures !(Tiles(segs) && Represents(r, segs))
    {
      if Tiles(segs) && Represents(r, segs) {
        ListedBlock(r, segs, 0);
        NullPastEnd(segs, 1);
        if |segs| > 1 { ListedBlock(r, segs, 1); }
      }
    }
  }

  lemma {:induction false} ReachesSnoc(c: Client, events: seq<Event>, d: Client, e: Event)
    requires Reaches(c, events, d) && d.heap.segs != [] && Legal(d, e)
    ensures Reaches(c, events + [e], Step(d, e))
    decreases |events|
  {
    hide MallocMachine, FreeMachine, Malloc, Free, Legal;
    if events == [] {
      ReachesCons(c, e, [], Step(d, e));
    } else {
      ReachesSnoc(Step(c, events[0]), events[1..], d, e);
      assert (events + [e])[1..] == events[1..] + [e];
    }
  }
}
