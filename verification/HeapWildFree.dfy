/** A concrete run that shows what a link out of the heap can do: the free of a torn header absorbs a block from
    outside, and with the right bytes there the heap is sound afterwards, although a block in use has vanished. */
module HeapWildFree {
  import opened HeapMemory
  import opened HeapSpec
  import opened HeapMeaning
  import opened HeapInMemory
  import opened HeapRuns
  import opened HeapTraces
  import opened HeapFrees
  import opened HeapWitnesses

  const MB := 0x100000

  // The initial block, two expansions, and the second expansion split in two.
  const R := Seg(START, MB, false)
  const Z := Seg(START + MB, MB, false)
  const Y := Seg(START + 2 * MB, 2 * MB, false)
  const BIG := 0x180000
  const USED := Seg(START + 2 * MB, BIG + HEADER, true)
  const END := Seg(START + 2 * MB + BIG + HEADER, 0x80000 - HEADER, false)

  /** The initial block cut behind k bytes. */
  function CutAt(k: int): seq<Seg> {
    [Seg(START, k, true), Seg(START + k, MB - k, false), Z, USED, END]
  }

  const WHOLE := [R, Z, USED, END]

  lemma HeapsOfGrowth()
    ensures Malloc(INITIAL_HEAP, MB).heap == Heap([R, Z], 0)
    ensures Malloc(Heap([R, Z], 0), 2 * MB).heap == Heap([R, Z, Y], 0)
    ensures Malloc(Heap([R, Z, Y], 0), BIG).heap == Heap(WHOLE, 1)
    ensures Malloc(INITIAL_HEAP, MB).ptr == 0 == Malloc(Heap([R, Z], 0), 2 * MB).ptr
  {
    assert FirstFit([R, Z], MB + HEADER, 2) == 2 == FirstFit([R, Z], MB + HEADER, 1);
    assert FirstFit([R, Z], 2 * MB + HEADER, 2) == 2 == FirstFit([R, Z], 2 * MB + HEADER, 1);
    var s := [R, Z, Y];
    assert FirstFit(s, 2 * MB + HEADER, 3) == 3 == FirstFit(s, 2 * MB + HEADER, 2);
    assert FirstFit(s, 2 * MB + HEADER, 1) == 3 == FirstFit(s, 2 * MB + HEADER, 0);
    assert FirstFit(s, BIG + HEADER, 2) == 2 == FirstFit(s, BIG + HEADER, 1);
    assert [R, Z] + [Y] == s;
    assert SplitSegs(s, 2, BIG + HEADER) == WHOLE;
  }

  lemma HeapsOfCuts(k: int, u: nat)
    requires (k == 40 || k == 48 || k == 56) && 0 < u < 10
    ensures Chosen(Heap(WHOLE, u), k - HEADER) == 0 && FirstFit(WHOLE, k, 0) == 0 && Need(k - HEADER) == k
    ensures Malloc(Heap(WHOLE, u), k - HEADER).heap == Heap(CutAt(k), u + 1)
    ensures Malloc(Heap(WHOLE, u), k - HEADER).outcome == Split
    ensures Free(Heap(CutAt(k), u + 1), START + HEADER) == Heap(WHOLE, u)
  {
    assert FirstFit(WHOLE, k, 0) == 0;
    assert SplitSegs(WHOLE, 0, k) == CutAt(k);
    assert IndexOf(CutAt(k), START, 0) == 0;
    var s1 := Unuse(CutAt(k), 0);
    assert Join(s1, 0) == WHOLE;
  }

  lemma HeapOfWhole()
    ensures var r := Malloc(Heap(CutAt(40), 2), MB - 40 - HEADER);
            r.heap == Heap(CutAt(40), 3) && r.ptr == TORN && r.outcome == Whole
    ensures Chosen(Heap(CutAt(40), 2), MB - 40 - HEADER) == 1
  {
    assert FirstFit(CutAt(40), MB - 40, 1) == 1 == FirstFit(CutAt(40), MB - 40, 0);
  }

  // ----- Words that the calls leave alone: beyond the heap, and between the headers in the initial block -----

  /** A word beyond the heap, or behind the first header and before one k bytes further on or in its padding. */
  predicate Kept(k: int, y: int) {
    MAX <= y || (START + HEADER <= y && y + 4 <= START + k) || y == START + k + 12
  }

  lemma GrowKeeps(m: Memory, at: int, size: int, last: int, y: int)
    requires START <= last && last + HEADER <= at && at + HEADER <= MAX <= y
    ensures Get(GrowMem(m, at, size, last), y) == Get(m, y)
  {
    hide Get, Put, PutLong;
    var m1 := SetMagic(m, at);
    GetPut(m, at, MAGIC, y);
    var m2 := SetSize(m1, at, size);
    GetPut(m1, at + 4, size, y);
    var m3 := SetUsed(m2, at, 0);
    GetPut(m2, at + 8, 0, y);
    var m4 := SetNext(m3, at, NULL);
    PutLongHalves(m3, at + 16, NULL, y);
    PutLongHalves(m4, last + 16, at, y);
    PutLongHalves(SetNext(m4, last, at), at + 24, last, y);
  }

  /** The words of interest after a cut are those before it. */
  ghost predicate Same(k: int, before: Memory, after: Memory) {
    forall y {:trigger Get(after, y)} :: Kept(k, y) ==> Get(after, y) == Get(before, y)
  }

  lemma CutKeeps(m: Memory, k: int)
    requires (k == 40 || k == 48 || k == 56) && HeaderAt(m, START) == HeaderOf(WHOLE, 0)
    ensures Same(k, m, SplitMem(m, START, k))
    ensures HeaderAt(SplitMem(m, START, k), START + k) == Header(MAGIC, MB - k, 0, Z.addr, START)
  {
    hide Get, GetLong, SplitMem;
    forall y | Kept(k, y) ensures Get(SplitMem(m, START, k), y) == Get(m, y) { SplitSpares(m, START, k, y); }
    SplitEffect(m, START, k, NULL);
  }

  /** Nothing was handed out whole meanwhile, and TORN is as live as before. */
  predicate SameHistory(c: Client, d: Client) {
    d.whole == c.whole && c.written <= d.written && (TORN in c.live ==> TORN in d.live)
  }

  /** Cutting the initial block. */
  lemma Cut(c: Client, k: int, u: nat)
    requires RunInvariant(c) && c.heap == Heap(WHOLE, u) && (k == 40 || k == 48 || k == 56) && 0 < u < 10
    ensures var d := Step(c, Alloc(k - HEADER));
            && Legal(c, Alloc(k - HEADER)) && RunInvariant(d) && d.heap == Heap(CutAt(k), u + 1)
            && Same(k, c.machine.mem, d.machine.mem) && SameHistory(c, d) && START + k in d.written
            && HeaderAt(d.machine.mem, START + k) == Header(MAGIC, MB - k, 0, Z.addr, START)
  {
    hide Get, SplitMem, GrowMem, GrowthBound, Same, Malloc;
    HeapsOfCuts(k, u);
    assert BlockOk(c.machine.mem, WHOLE, 0);
    CutKeeps(c.machine.mem, k);
    assert CutAt(k)[1].addr == START + k;
    StepKeeps(c, Alloc(k - HEADER));
  }

  /** The writes of the free that takes a cut back. */
  lemma MendMem(s: Machine, k: int)
    requires (k == 40 || k == 48 || k == 56) && Represents(s.mem, CutAt(k))
    ensures FreeMachine(s, START + HEADER).mem == AbsorbNext(SetUsed(s.mem, START, 0), START)
    ensures forall y :: MAX <= y || (START + HEADER <= y && y + 4 <= START + MB) ==>
              Get(AbsorbNext(SetUsed(s.mem, START, 0), START), y) == Get(s.mem, y)
  {
    hide Get, GetLong, SetUsed, SetSize, SetNext, SetPrev, AbsorbNext, AbsorbIntoPrev;
    var m, cut := s.mem, START + k;
    assert BlockOk(m, CutAt(k), 0) && BlockOk(m, CutAt(k), 1) && BlockOk(m, CutAt(k), 2);
    var m1 := SetUsed(m, START, 0);
    WriteUsed(m, START, 0, cut);
    WriteUsed(m, START, 0, Z.addr);
    assert HeaderAt(m1, START) == HeaderAt(m, START).(used := 0) && HeaderAt(m1, cut) == HeaderAt(m, cut);
    AbsorbEffect(m1, START, cut, NULL);
    assert HeaderAt(AbsorbNext(m1, START), START).prev == NULL;
    forall y | MAX <= y || (START + HEADER <= y && y + 4 <= START + MB)
      ensures Get(AbsorbNext(m1, START), y) == Get(m, y)
    {
      AbsorbSpares(m, START, y);
    }
  }

  /** Taking the cut back. */
  lemma Mend(c: Client, k: int, u: nat)
    requires RunInvariant(c) && c.heap == Heap(CutAt(k), u + 1) && (k == 40 || k == 48 || k == 56) && 0 < u < 10
    ensures var d := Step(c, Dealloc(START + HEADER));
            && Legal(c, Dealloc(START + HEADER)) && RunInvariant(d) && d.heap == Heap(WHOLE, u) && SameHistory(c, d)
            && forall y :: MAX <= y || (START + HEADER <= y && y + 4 <= START + MB) ==>
                 Get(d.machine.mem, y) == Get(c.machine.mem, y)
  {
    hide Get, SetUsed, FreeMachine, AbsorbNext, GrowthBound;
    HeapsOfCuts(k, u);
    assert IndexOf(c.heap.segs, START, 0) == 0;
    MendMem(c.machine, k);
    StepKeeps(c, Dealloc(START + HEADER));
  }

  // ----- The run -----

  /** Words beyond the heap are as they were at first. */
  ghost predicate Beyond(m: Memory, now: Memory) {
    forall y {:trigger Get(now, y)} :: MAX <= y ==> Get(now, y) == Get(m, y)
  }

  lemma GrowBeyond(m: Memory, now: Memory, at: int, size: int, last: int)
    requires START <= last && last + HEADER <= at && at + HEADER <= MAX && Beyond(m, now)
    ensures Beyond(m, GrowMem(now, at, size, last))
  {
    hide Get, GrowMem;
    forall y | MAX <= y ensures Get(GrowMem(now, at, size, last), y) == Get(m, y) { GrowKeeps(now, at, size, last, y); }
  }

  /** The two expansions. */
  lemma Grow(c: Client, m: Memory, n: int)
    requires RunInvariant(c) && Beyond(m, c.machine.mem)
    requires (n == MB && c.heap == INITIAL_HEAP) || (n == 2 * MB && c.heap == Heap([R, Z], 0))
    ensures var d := Step(c, Alloc(n));
            && Legal(c, Alloc(n)) && RunInvariant(d) && Beyond(m, d.machine.mem) && d.whole == c.whole
            && d.heap == if n == MB then Heap([R, Z], 0) else Heap([R, Z, Y], 0)
  {
    hide Get, GrowMem, GrowthBound, Beyond, Holds;
    HeapsOfGrowth();
    var last := c.heap.segs[|c.heap.segs| - 1];
    GrowBeyond(m, c.machine.mem, End(c.heap.segs), n, last.addr);
    StepKeeps(c, Alloc(n));
  }

  /** The block that stays in use. */
  lemma Take(c: Client, m: Memory)
    requires RunInvariant(c) && Beyond(m, c.machine.mem) && c.heap == Heap([R, Z, Y], 0)
    ensures var d := Step(c, Alloc(BIG));
            && Legal(c, Alloc(BIG)) && RunInvariant(d) && Beyond(m, d.machine.mem) && d.whole == c.whole
            && d.heap == Heap(WHOLE, 1)
  {
    hide Get, SplitMem, GrowthBound;
    HeapsOfGrowth();
    var s := c.heap.segs;
    assert FirstFit(s, BIG + HEADER, 2) == 2 == FirstFit(s, BIG + HEADER, 1) == FirstFit(s, BIG + HEADER, 0);
    assert BlockOk(c.machine.mem, s, 2);
    forall y | MAX <= y
      ensures Get(SplitMem(c.machine.mem, Y.addr, BIG + HEADER), y) == Get(m, y)
    {
      SplitSpares(c.machine.mem, Y.addr, BIG + HEADER, y);
    }
    StepKeeps(c, Alloc(BIG));
  }

  /** The rest of the cut block is handed out whole. */
  lemma HandOut(c: Client)
    requires RunInvariant(c) && c.heap == Heap(CutAt(40), 2)
    ensures var d := Step(c, Alloc(MB - 40 - HEADER));
            && Legal(c, Alloc(MB - 40 - HEADER)) && RunInvariant(d) && d.heap == Heap(CutAt(40), 3)
            && d.machine.mem == c.machine.mem && d.whole == c.whole + 1 && TORN in d.live && c.written <= d.written
  {
    hide Get, SplitMem, GrowMem, GrowthBound, Malloc;
    HeapOfWhole();
    assert FirstFit(CutAt(40), MB - 40, 1) == 1 == FirstFit(CutAt(40), MB - 40, 0);
    StepKeeps(c, Alloc(MB - 40 - HEADER));
  }

  const GROWTH := [Alloc(MB), Alloc(2 * MB), Alloc(BIG)]

  lemma AfterGrowth(m: Memory) returns (c: Client)
    ensures Reaches(InitialClient(m), GROWTH, c) && RunInvariant(c)
    ensures c.heap == Heap(WHOLE, 1) && c.whole == 0 && Beyond(m, c.machine.mem)
  {
    hide Get, NewHeader, MallocMachine, Malloc, Legal, RunInvariant, Beyond;
    var c0 := InitialClient(m);
    InitialHolds(m);
    InitialBeyond(m);
    var c1 := Step(c0, Alloc(MB));
    Grow(c0, m, MB);
    var c2 := Step(c1, Alloc(2 * MB));
    Grow(c1, m, 2 * MB);
    c := Step(c2, Alloc(BIG));
    Take(c2, m);
    ReachesCons(c2, Alloc(BIG), [], c);
    ReachesCons(c1, Alloc(2 * MB), [Alloc(BIG)], c);
    ReachesCons(c0, Alloc(MB), [Alloc(2 * MB), Alloc(BIG)], c);
  }

  lemma InitialBeyond(m: Memory)
    ensures Beyond(m, InitialMachine(m).mem)
  {
    hide Get, NewHeader;
    forall y | MAX <= y
      ensures Get(InitialMachine(m).mem, y) == Get(m, y)
    {
      NewHeaderSpares(m, START, INITIAL_SIZE, NULL, NULL, y);
    }
  }

  const FIRST_CUT := [Alloc(8), Alloc(MB - 40 - HEADER), Dealloc(START + HEADER)]
  const LATER_CUTS := [Alloc(24), Dealloc(START + HEADER)] + [Alloc(16), Dealloc(START + HEADER)]

  /** Where the torn `next` leads: its upper half was the size in a header 16 bytes further on. */
  const WILD := (MB - 56) * UINT32

  /** What is left of the header at LOST. */
  ghost predicate TornThere(m: Memory) {
    && Get(m, LOST) == MAGIC && Get(m, LOST + 4) == MB - 40
    && Get(m, LOST + 20) == MB - 56
    && HeaderAt(m, LOST + 8) == Header(MAGIC, MB - 48, 0, Z.addr, START)
  }

  lemma CutBeyond(m: Memory, before: Memory, after: Memory, k: int)
    requires Beyond(m, before) && Same(k, before, after)
    ensures Beyond(m, after)
  {
    hide Get;
  }

  /** The first cut, of which the rest is handed out, leaves the header at LOST. */
  lemma FirstCut(c: Client, m: Memory) returns (d: Client)
    requires RunInvariant(c) && c.heap == Heap(WHOLE, 1) && c.whole == 0 && Beyond(m, c.machine.mem)
    ensures Reaches(c, FIRST_CUT, d) && RunInvariant(d) && d.heap == Heap(WHOLE, 2) && d.whole == 1
    ensures TORN in d.live && LOST in d.written && Beyond(m, d.machine.mem)
    ensures Get(d.machine.mem, LOST) == MAGIC && Get(d.machine.mem, LOST + 4) == MB - 40
  {
    hide Get, MallocMachine, FreeMachine, Malloc, Free, Legal, RunInvariant;
    var c1 := Step(c, Alloc(8));
    Cut(c, 40, 1);
    CutBeyond(m, c.machine.mem, c1.machine.mem, 40);
    var c2 := Step(c1, Alloc(MB - 40 - HEADER));
    HandOut(c1);
    d := Step(c2, Dealloc(START + HEADER));
    Mend(c2, 40, 2);
    ReachesCons(c2, Dealloc(START + HEADER), [], d);
    ReachesCons(c1, Alloc(MB - 40 - HEADER), [Dealloc(START + HEADER)], d);
    ReachesCons(c, Alloc(8), [Alloc(MB - 40 - HEADER), Dealloc(START + HEADER)], d);
  }

  /** A later cut, taken back at once. */
  lemma CutAndMend(c: Client, m: Memory, k: int) returns (d: Client)
    requires RunInvariant(c) && c.heap == Heap(WHOLE, 2) && (k == 48 || k == 56) && Beyond(m, c.machine.mem)
    ensures Reaches(c, [Alloc(k - HEADER), Dealloc(START + HEADER)], d) && RunInvariant(d) && d.heap == Heap(WHOLE, 2)
    ensures SameHistory(c, d) && Beyond(m, d.machine.mem)
    ensures forall y {:trigger Get(d.machine.mem, y)} :: START + HEADER <= y && Kept(k, y) ==>
              Get(d.machine.mem, y) == Get(c.machine.mem, y)
    ensures HeaderAt(d.machine.mem, START + k) == Header(MAGIC, MB - k, 0, Z.addr, START)
  {
    hide Get, MallocMachine, FreeMachine, Malloc, Free, Legal, RunInvariant;
    var c1 := Step(c, Alloc(k - HEADER));
    Cut(c, k, 2);
    CutBeyond(m, c.machine.mem, c1.machine.mem, k);
    d := Step(c1, Dealloc(START + HEADER));
    Mend(c1, k, 2);
    ReachesCons(c1, Dealloc(START + HEADER), [], d);
    ReachesCons(c, Alloc(k - HEADER), [Dealloc(START + HEADER)], d);
  }

  lemma {:induction false} ReachesAppend(c: Client, first: seq<Event>, d: Client, second: seq<Event>, e: Client)
    requires Reaches(c, first, d) && Reaches(d, second, e)
    ensures Reaches(c, first + second, e)
    decreases |first|
  {
    hide MallocMachine, FreeMachine, Malloc, Free, Legal;
    if first == [] {
      assert first + second == second;
    } else {
      ReachesAppend(Step(c, first[0]), first[1..], d, second, e);
      assert (first + second)[1..] == first[1..] + second;
    }
  }

  lemma AfterCuts(m: Memory) returns (c: Client)
    ensures Reaches(InitialClient(m), GROWTH + (FIRST_CUT + LATER_CUTS), c)
    ensures RunInvariant(c) && c.heap == Heap(WHOLE, 2) && c.whole == 1
    ensures TORN in c.live && LOST in c.written && Beyond(m, c.machine.mem) && TornThere(c.machine.mem)
  {
    hide Get, InitialMachine, Reaches, RunInvariant;
    var c0 := AfterGrowth(m);
    var c1 := FirstCut(c0, m);
    var c2 := CutAndMend(c1, m, 56);
    c := CutAndMend(c2, m, 48);
    ReachesAppend(c1, [Alloc(24), Dealloc(START + HEADER)], c2, [Alloc(16), Dealloc(START + HEADER)], c);
    ReachesAppend(c0, FIRST_CUT, c1, LATER_CUTS, c);
    ReachesAppend(InitialClient(m), GROWTH, c0, FIRST_CUT + LATER_CUTS, c);
    assert HeaderAt(c2.machine.mem, START + 56).size == MB - 56;
  }

  // ----- The free -----

  const MERGED := [R, Seg(START + MB, 3 * MB, false)]

  /** What lies at WILD to make the sizes come out right: the header of a free last block. */
  predicate Planted(m: Memory) {
    Get(m, WILD + 8) == 0 && Get(m, WILD + 4) == MB + 40 && Get(m, WILD + 16) == 0 && Get(m, WILD + 20) == 0
  }

  /** The torn header absorbs the planted block, and so comes to be the last one, and as large as all that follows Z. */
  lemma AbsorbsPlanted(m: Memory)
    requires TornThere(m) && Planted(m)
    ensures var m1 := SetUsed(m, LOST, 0);
            && Accepts(m, LOST) && MergesNext(m1, LOST)
            && var r := MergeNextMem(m1, LOST);
               && Next(r, LOST) == NULL && Prev(r, LOST) == Z.addr && Size(r, LOST) == 2 * MB
               && HeaderAt(r, START) == HeaderAt(m, START) && HeaderAt(r, Z.addr) == HeaderAt(m, Z.addr)
  {
    hide Get, Put, PutLong;
    var m1 := SetUsed(m, LOST, 0);
    forall y { GetPut(m, LOST + 8, 0, y); }
    assert HeaderAt(m, LOST + 8).next == Z.addr;
    assert Next(m1, LOST) == WILD && Prev(m1, LOST) == Z.addr;
    var m2 := SetSize(m1, LOST, 2 * MB);
    forall y { GetPut(m1, LOST + 4, 2 * MB, y); }
    assert Next(m2, WILD) == 0;
    forall y { PutLongHalves(m2, LOST + 16, 0, y); }
  }

  /** Then Z absorbs the torn header. */
  lemma AbsorbedByFree(r: Memory)
    requires Next(r, LOST) == NULL && Prev(r, LOST) == Z.addr && Size(r, LOST) == 2 * MB
    requires HeaderAt(r, START) == HeaderOf(WHOLE, 0) && HeaderAt(r, Z.addr) == HeaderOf(WHOLE, 1)
    ensures MergesPrev(r, LOST) && Represents(MergePrevMem(r, LOST), MERGED)
  {
    hide Get, Put, PutLong;
    var m1 := SetSize(r, Z.addr, 3 * MB);
    forall y { GetPut(r, Z.addr + 4, 3 * MB, y); }
    assert Prev(m1, LOST) == Z.addr && Next(m1, LOST) == NULL;
    forall y { PutLongHalves(m1, Z.addr + 16, NULL, y); }
    assert BlockOk(MergePrevMem(r, LOST), MERGED, 0) && BlockOk(MergePrevMem(r, LOST), MERGED, 1);
  }

  /** Without the condition that nothing is absorbed from outside the heap, FreeKeepsIff would not hold: after ten legal
      calls, this free of a live pointer passes both checks at an address where no listed block starts, and leaves a
      sound heap from which a used block has vanished. */
  lemma WildFreeCanBeSound(m: Memory) returns (c: Client)
    requires Planted(m)
    ensures Reaches(InitialClient(m), GROWTH + (FIRST_CUT + LATER_CUTS), c)
    ensures TORN in c.live && BlockOf(TORN) in c.written && USED in c.heap.segs
    ensures !SafeFree(c.heap, c.machine.mem, TORN) && !AbsorbsInside(c.machine.mem, TORN)
    ensures Sound(FreeMachine(c.machine, TORN), MERGED, c.whole) && USED !in MERGED
  {
    hide Get, Reaches, InitialMachine, GrowthBound, SetUsed, MergeNextMem, MergePrevMem, MergesNext, MergesPrev;
    c := AfterCuts(m);
    var mem := c.machine.mem;
    assert BlockOk(mem, WHOLE, 0) && BlockOk(mem, WHOLE, 1) && WHOLE[2] == USED;
    assert Planted(mem);
    AbsorbsPlanted(mem);
    AbsorbedByFree(MergeNextMem(SetUsed(mem, LOST, 0), LOST));
    assert SizeOk(MERGED, 0) && SizeOk(MERGED, 1) && Adjoins(MERGED, 0);
    NoneUsed(MERGED);
  }
}
