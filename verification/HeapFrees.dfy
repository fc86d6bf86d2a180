/** Which frees keep the heap intact. A pointer to a block that was handed out whole, and so never marked used, can
    outlive its header; kmfree then reads what newer headers have left there. */
module HeapFrees {
  import opened HeapMemory
  import opened HeapSpec
  import opened HeapLemmas
  import opened HeapMeaning
  import opened HeapInMemory
  import opened HeapRuns
  import opened HeapTraces

  /** Memory and counters hold the list `segs` and agree with it, given the number of allocations served whole. */
  ghost predicate Sound(s: Machine, segs: seq<Seg>, whole: nat) {
    && Tiles(segs)
    && Represents(s.mem, segs)
    && s.totalBlocks == |segs|
    && s.usedBlocks == (CountUsed(segs) + whole) % UINT32
  }

  predicate InHeap(v: int) {
    START <= v < MAX
  }

  /** kmfree absorbs no successor from outside the heap: such a block's `next`, which may be any word at all, would
      become an address to write to. */
  predicate AbsorbsInside(m: Memory, ptr: int) {
    var b := BlockOf(ptr);
    ptr == NULL || !Accepts(m, b) || (MergesNext(SetUsed(m, b, 0), b) ==> InHeap(Next(m, b)))
  }

  /** The free absorbs nothing from outside the heap and leaves some list with which memory and counters agree. */
  ghost predicate FreeKeepsHeap(c: Client, ptr: int) {
    AbsorbsInside(c.machine.mem, ptr) && exists segs :: Sound(FreeMachine(c.machine, ptr), segs, c.whole)
  }

  // ----- A free that passes the checks at a torn header -----

  /** A link that leads nowhere in the heap. */
  predicate LeadsAway(n: int) {
    n <= 1 || MAX <= n
  }

  /** The links of a torn header: `next` starts with the newer header's used word and so leads nowhere in the heap;
      `prev` is the newer header's `next`. */
  lemma TornLinks(c: Client, a: int)
    requires RunInvariant(c) && RunTraces(c) && a in c.written
    requires Accepts(c.machine.mem, a) && !IsListed(c.heap.segs, a)
    ensures TraceOk(c.machine.mem, c.written, Starts(c.heap.segs), a)
    ensures var m := c.machine.mem; Used(m, a) == MAGIC && LeadsAway(Next(m, a)) && LinkUp(a + 8, Prev(m, a))
  {
    hide Get, Tiles, GrowthBound;
    var m, segs := c.machine.mem, c.heap.segs;
    assert TraceOk(m, c.written, Starts(segs), a);
    assert a !in Starts(segs);
    assert TraceOk(m, c.written, Starts(segs), a + 8);
    if a + 8 in Starts(segs) {
      var k :| 0 <= k < |segs| && segs[k].addr == a + 8;
      assert BlockOk(m, segs, k);
    }
  }

  ghost predicate Merged(m: Memory, a: int, p: int) {
    p != NULL && Used(SetUsed(m, a, 0), p) == 0
  }

  /** What kmfree writes at a header with the links n and p, unless it absorbs what n leads to: the word at `used`, and,
      if the block at p is free, that block's size and next, and the prev link of what n leads to. */
  function TornFree(m: Memory, a: int, n: int, p: int): Memory {
    var m1 := SetUsed(m, a, 0);
    if p != NULL && Used(m1, p) == 0 then
      var m2 := SetNext(SetSize(m1, p, Size(m1, p) + Size(m1, a)), p, n);
      if n != NULL then SetPrev(m2, n, p) else m2
    else m1
  }

  lemma TornFreeIs(s: Machine, a: int, n: int, p: int)
    requires n == Next(s.mem, a) && p == Prev(s.mem, a) && (p != NULL ==> Clear(p, a))
    requires !MergesNext(SetUsed(s.mem, a, 0), a)
    ensures var r := MergeBlocks(s.(mem := SetUsed(s.mem, a, 0)), a);
            && r.mem == TornFree(s.mem, a, n, p)
            && r.totalBlocks == DownIf(s.totalBlocks, Merged(s.mem, a, p))
            && r.usedBlocks == s.usedBlocks
  {
    hide Get, GetLong, SetUsed, SetSize, SetNext, SetPrev;
    var m1 := SetUsed(s.mem, a, 0);
    WriteUsed(s.mem, a, 0, p);
    assert HeaderAt(m1, a) == HeaderAt(s.mem, a).(used := 0);
    if p != NULL {
      var m2 := SetSize(m1, p, Size(m1, p) + Size(m1, a));
      WriteSize(m1, p, Size(m1, p) + Size(m1, a), a);
      assert HeaderAt(m2, a) == HeaderAt(m1, a);
      WriteNext(m2, p, n, a);
      assert HeaderAt(SetNext(m2, p, n), a) == HeaderAt(m2, a);
    }
  }

  /** Header words of the heap are clear of a prev field that lies outside. */
  lemma AwaySpares(m: Memory, n: int, p: int, y: int)
    requires LeadsAway(n) && 0 <= n && 0 <= p < UINT64 && START <= y && y + 4 <= MAX
    ensures Get(SetPrev(m, n, p), y) == Get(m, y)
  {
    hide Get, PutLong;
    PutLongHalves(m, n + 24, p, y);
  }

  /** The predecessor that absorbs: its size and next, and what that leaves of a header at x. */
  lemma AbsorberSpares(m: Memory, p: int, v: int, n: int, x: int)
    requires x % 8 == 0 && (p <= 1 || MAX <= p || p % 8 == 0) && START <= x && x + HEADER <= MAX
    requires 0 <= n < UINT64 && Next(m, x) < MAX
    ensures var r := SetNext(SetSize(m, p, v), p, n);
            && (p == x || Clear(p, x) ==> Used(r, x) == Used(m, x))
            && (Clear(p, x) ==> Next(r, x) == Next(m, x))
            && (p == x ==> Next(r, x) == n)
            && (p != x ==> Next(r, x) == Next(m, x) || MAX <= Next(r, x))
  {
    hide Get, Put, PutLong;
    var m2 := SetSize(m, p, v);
    forall y { GetPut(m, p + 4, v, y); }
    forall y { PutLongHalves(m2, p + 16, n, y); }
  }

  /** What a listed header at x still says of its use and its successor. */
  lemma TornFreeSpares(m: Memory, a: int, n: int, p: int, x: int)
    requires a % 8 == 0 && x % 8 == 0 && x != a && Magic(m, a) == MAGIC
    requires LeadsAway(n) && 0 <= n < UINT64 && 0 <= p < UINT64 && (p <= 1 || MAX <= p || p % 8 == 0)
    requires Used(m, x) <= 1 && Next(m, x) < MAX && START <= x && x + HEADER <= MAX
    ensures var r := TornFree(m, a, n, p); var merged := Merged(m, a, p);
            && (!merged || p == x || Clear(p, x) ==> Used(r, x) == Used(m, x))
            && (!merged || Clear(p, x) ==> Next(r, x) == Next(m, x))
            && (merged && p == x ==> Next(r, x) == n)
            && (merged && p != x ==> Next(r, x) == Next(m, x) || MAX <= Next(r, x))
  {
    hide Get, Put, SetSize, SetNext, SetPrev;
    var m1 := SetUsed(m, a, 0);
    forall y { GetPut(m, a + 8, 0, y); }
    assert Used(m1, x) == Used(m, x) && Next(m1, x) == Next(m, x);
    if p != NULL {
      var v := Size(m1, p) + Size(m1, a);
      AbsorberSpares(m1, p, v, n, x);
      forall y | START <= y && y + 4 <= MAX { AwaySpares(SetNext(SetSize(m1, p, v), p, n), n, p, y); }
    }
  }

  // ----- The list that is in memory afterwards -----

  /** Two lists that start alike and have the same links up to block k agree up to there. */
  lemma {:induction false} WalkAgrees(m: Memory, r: seq<Seg>, segs: seq<Seg>, k: nat)
    requires Tiles(r) && Tiles(segs) && Represents(m, r) && k < |segs|
    requires forall j :: 0 <= j < k ==> Next(m, segs[j].addr) == segs[j + 1].addr || MAX <= Next(m, segs[j].addr)
    ensures k < |r|
    ensures forall j :: 0 <= j <= k ==> r[j].addr == segs[j].addr
  {
    hide Get;
    if k > 0 {
      WalkAgrees(m, r, segs, k - 1);
      ListedBlock(m, r, k - 1);
      BlocksWithin(segs, k);
    }
  }

  lemma {:induction false} CountAgrees(r: seq<Seg>, segs: seq<Seg>)
    requires |r| <= |segs|
    requires forall j :: 0 <= j < |r| ==> r[j].used == segs[j].used
    requires forall j :: |r| <= j < |segs| ==> !segs[j].used
    ensures CountUsed(r) == CountUsed(segs)
  {
    if segs == [] {
    } else {
      if r == [] {
        NoneUsed(segs);
      } else {
        CountAgrees(r[1..], segs[1..]);
      }
    }
  }

  /** Everything the proof needs to know about such a free. */
  ghost predicate TornCase(c: Client, a: int, n: int, p: int) {
    && RunInvariant(c) && a % 8 == 0 && !IsListed(c.heap.segs, a)
    && Magic(c.machine.mem, a) == MAGIC
    && LeadsAway(n) && 0 <= n < UINT64
    && 0 <= p < UINT64 && (p <= 1 || MAX <= p || p % 8 == 0) && (p != NULL ==> Clear(p, a))
  }

  /** Block j of the list before, seen in memory afterwards. */
  lemma TornBlock(c: Client, a: int, n: int, p: int, j: nat)
    requires TornCase(c, a, n, p) && j < |c.heap.segs|
    ensures var m := c.machine.mem; var segs := c.heap.segs; var x := segs[j].addr; var r := TornFree(m, a, n, p);
            && (!Merged(m, a, p) || IsListed(segs, p) ==> Used(r, x) == if segs[j].used then 1 else 0)
            && (Merged(m, a, p) && p == x ==> Next(r, x) == n)
            && (!Merged(m, a, p) || p != x ==> Next(r, x) == NextAddr(segs, j) || MAX <= Next(r, x))
  {
    hide Get, GrowthBound, TornFree, Merged;
    var m, segs := c.machine.mem, c.heap.segs;
    ListedBlock(m, segs, j);
    if a == segs[j].addr { IndexOfBlock(segs, j); }
    TornFreeSpares(m, a, n, p, segs[j].addr);
    var k := IndexOf(segs, p, 0);
    if k < |segs| && k != j { BlocksClear(segs, j, k); }
  }

  /** A list r in memory afterwards has the blocks of the old one, up to the block that absorbed the torn header. */
  lemma TornWalk(c: Client, a: int, n: int, p: int, r: seq<Seg>, k: nat)
    requires TornCase(c, a, n, p) && k < |c.heap.segs|
    requires Tiles(r) && Represents(TornFree(c.machine.mem, a, n, p), r)
    requires if Merged(c.machine.mem, a, p) && IsListed(c.heap.segs, p) then c.heap.segs[k].addr == p
             else k == |c.heap.segs| - 1
    ensures |r| == k + 1
    ensures forall j :: 0 <= j <= k ==> r[j].addr == c.heap.segs[j].addr
  {
    hide Get, GrowthBound, TornFree, Merged, Represents;
    var m, segs := c.machine.mem, c.heap.segs;
    var t := TornFree(m, a, n, p);
    forall j | 0 <= j < k
      ensures Next(t, segs[j].addr) == segs[j + 1].addr || MAX <= Next(t, segs[j].addr)
    {
      TornBlock(c, a, n, p, j);
      if p == segs[j].addr {
        IndexOfBlock(segs, j);
        IndexOfBlock(segs, k);
      }
    }
    WalkAgrees(t, r, segs, k);
    TornBlock(c, a, n, p, k);
    if p == segs[k].addr { IndexOfBlock(segs, k); }
    ListedBlock(t, r, k);
    NullPastEnd(r, k + 1);
    if k + 1 < |r| { BlocksWithin(r, k + 1); }
  }

  lemma ModApart(x: int)
    ensures (x % UINT32 - 1) % UINT32 != x % UINT32
  {}

  /** No list agrees with memory and counters afterwards: either a block is missing that the counter still counts, or
      the used counter has lost one and no block has. */
  lemma TornFreeBreaks(c: Client, a: int, n: int, p: int, r: seq<Seg>)
    requires TornCase(c, a, n, p) && n == Next(c.machine.mem, a) && p == Prev(c.machine.mem, a)
    requires !MergesNext(SetUsed(c.machine.mem, a, 0), a)
    ensures !Sound(MergeBlocks(Machine(SetUsed(c.machine.mem, a, 0), c.machine.totalBlocks,
                                       (c.machine.usedBlocks - 1) % UINT32), a), r, c.whole)
  {
    hide Get, GrowthBound, TornFree, SetUsed, MergeBlocks, MergesNext;
    var m, segs := c.machine.mem, c.heap.segs;
    var s := c.machine.(usedBlocks := (c.machine.usedBlocks - 1) % UINT32);
    TornFreeIs(s, a, n, p);
    if Sound(MergeBlocks(s.(mem := SetUsed(m, a, 0)), a), r, c.whole) {
      var k := if Merged(m, a, p) && IsListed(segs, p) then IndexOf(segs, p, 0) else |segs| - 1;
      TornWalk(c, a, n, p, r, k);
      BlockCountBounded(segs, |segs| - 1);
      if !Merged(m, a, p) || IsListed(segs, p) {
        forall j | 0 <= j < |r|
          ensures r[j].used == segs[j].used
        {
          TornBlock(c, a, n, p, j);
          ListedBlock(TornFree(m, a, n, p), r, j);
        }
        CountAgrees(r, segs);
        ModApart(CountUsed(segs) + c.whole);
      }
    }
  }

  // ----- Which frees keep the heap -----

  /** A safe free follows only links of the list. */
  lemma SafeAbsorbsInside(c: Client, ptr: int)
    requires RunInvariant(c) && SafeFree(c.heap, c.machine.mem, ptr)
    ensures AbsorbsInside(c.machine.mem, ptr)
  {
    hide Get, SetUsed, GrowthBound, Represents;
    var m, segs, b := c.machine.mem, c.heap.segs, BlockOf(ptr);
    var i := IndexOf(segs, b, 0);
    if ptr != NULL && i < |segs| {
      ListedBlock(m, segs, i);
      WriteUsed(m, b, 0, b);
      assert HeaderAt(SetUsed(m, b, 0), b).next == HeaderAt(m, b).next;
      if i + 1 < |segs| { BlocksWithin(segs, i + 1); }
    }
  }

  /** A torn header whose free absorbs nothing from outside the heap is one that TornFreeBreaks is about. */
  lemma TornIsCase(c: Client, a: int)
    requires RunInvariant(c) && RunTraces(c) && a in c.written
    requires Accepts(c.machine.mem, a) && !IsListed(c.heap.segs, a)
    requires MergesNext(SetUsed(c.machine.mem, a, 0), a) ==> InHeap(Next(c.machine.mem, a))
    ensures TornCase(c, a, Next(c.machine.mem, a), Prev(c.machine.mem, a))
    ensures !MergesNext(SetUsed(c.machine.mem, a, 0), a)
  {
    hide Get, SetUsed, GrowthBound, Holds, RunTraces;
    var m := c.machine.mem;
    TornLinks(c, a);
    WriteUsed(m, a, 0, a);
    assert HeaderAt(SetUsed(m, a, 0), a).next == HeaderAt(m, a).next;
  }

  lemma SafeKeeps(c: Client, ptr: int)
    requires RunInvariant(c) && 0 <= ptr < UINT64 && SafeFree(c.heap, c.machine.mem, ptr)
    ensures FreeKeepsHeap(c, ptr)
  {
    hide Get, GrowthBound, MergeBlocks, SetUsed, MergesNext;
    SafeAbsorbsInside(c, ptr);
    FreeHolds(c.machine, c.heap, ptr);
    FreeKeeps(c.heap, ptr);
    FreeCounts(c.heap, ptr, c.whole);
    assert Sound(FreeMachine(c.machine, ptr), Free(c.heap, ptr).segs, c.whole);
  }

  /** In every state that safe calls reach, and for NULL and every pointer to a block that ever was: the free absorbs
      nothing from outside the heap and leaves some list with which memory and counters agree if and only if the pointer
      is NULL, its block is listed, its magic number does not match, or the word read as `used` is 0. */
  lemma {:induction false} FreeKeepsIff(m: Memory, events: seq<Event>, c: Client, ptr: int)
    requires Reaches(InitialClient(m), events, c)
    requires 0 <= ptr < UINT64 && (ptr == NULL || BlockOf(ptr) in c.written)
    ensures SafeFree(c.heap, c.machine.mem, ptr) <==> FreeKeepsHeap(c, ptr)
  {
    hide Reaches, InitialMachine, Get, GrowthBound, MergeBlocks, SetUsed, MergesNext;
    RunKeeps(m, events, c);
    RunLeaves(m, events, c);
    var a := BlockOf(ptr);
    if SafeFree(c.heap, c.machine.mem, ptr) {
      SafeKeeps(c, ptr);
    } else if AbsorbsInside(c.machine.mem, ptr) {
      TornIsCase(c, a);
      forall segs
        ensures !Sound(FreeMachine(c.machine, ptr), segs, c.whole)
      {
        TornFreeBreaks(c, a, Next(c.machine.mem, a), Prev(c.machine.mem, a), segs);
      }
    }
  }

  lemma {:induction false} WrittenGrows(c: Client, events: seq<Event>, d: Client)
    requires Reaches(c, events, d)
    ensures c.written <= d.written
    decreases |events|
  {
    hide MallocMachine, FreeMachine, Malloc, Free;
    if events == [] {
    } else {
      WrittenGrows(Step(c, events[0]), events[1..], d);
    }
  }

  lemma HandedOutListed(h: Heap, n: int)
    requires WellFormed(h) && 0 < n && Malloc(h, n).ptr != 0
    ensures var r := Malloc(h, n); 0 < r.ptr < UINT64 && BlockOf(r.ptr) in Starts(r.heap.segs)
  {
    MallocShape(h, n);
    AllocatedBlock(h, n);
    hide Malloc;
    BlocksWithin(Malloc(h, n).heap.segs, Chosen(h, n));
  }

  /** So the theorem covers every pointer that kmalloc has returned, freed meanwhile or not. */
  lemma {:induction false} EverHandedOut(m: Memory, before: seq<Event>, c: Client, n: int, after: seq<Event>, d: Client)
    requires Reaches(InitialClient(m), before, c) && c.heap.segs != [] && 0 < n && Malloc(c.heap, n).ptr != 0
    requires Reaches(c, [Alloc(n)] + after, d)
    ensures 0 < Malloc(c.heap, n).ptr < UINT64 && BlockOf(Malloc(c.heap, n).ptr) in d.written
  {
    RunKeeps(m, before, c);
    FirstStep(c, Alloc(n), after, d);
    hide Holds, GrowthBound, MallocMachine, Reaches;
    HandedOutListed(c.heap, n);
    hide Malloc;
    WrittenGrows(Step(c, Alloc(n)), after, d);
  }
}
