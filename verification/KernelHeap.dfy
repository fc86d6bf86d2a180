/** The allocator of mem/heap.c over an intrusive doubly linked list of block headers.
    Pointers are addresses, and every access to a header field reads or writes the bytes of memory it stands for. */
module KernelHeapModule {
  import opened HeapMemory
  import opened HeapSpec
  import opened HeapLemmas
  import opened HeapMeaning
  import opened HeapInMemory
  import opened HeapRuns
  import opened HeapWitnesses

  datatype Report = Consistent | Corruption(index: nat) | CountMismatch(expected: int, found: int)

  class KernelHeap {
    var startAddress: int
    var endAddress: int
    var maxAddress: int
    var firstBlock: int
    var totalBlocks: int
    var usedBlocks: int
    var mem: Memory
    ghost var segs: seq<Seg>

    ghost function Abs(): Heap
      reads this
    {
      Heap(segs, usedBlocks)
    }

    function State(): Machine
      reads this
    {
      Machine(mem, totalBlocks, usedBlocks)
    }

    ghost predicate Valid()
      reads this
    {
      && WellFormed(Abs()) && Holds(State(), Abs())
      && startAddress == START && maxAddress == MAX
      && endAddress == End(segs)
      && firstBlock == START
    }

    /** heap_init, whatever the memory holds. */
    constructor Init(m: Memory)
      ensures Valid() && Abs() == INITIAL_HEAP && State() == InitialMachine(m)
    {
      startAddress := START;
      endAddress := START + INITIAL_SIZE;
      maxAddress := MAX;
      firstBlock := START;
      totalBlocks := 1;
      usedBlocks := 0;
      segs := [Seg(START, INITIAL_SIZE, false)];
      mem := NewHeader(m, START, INITIAL_SIZE, NULL, NULL);
      new;
      hide NewHeader, Represents, HeaderAt;
      InitialHolds(m);
    }

    /** Walks the list for the first free block that is large enough. */
    method FindFreeBlock(n: int) returns (current: int)
      requires Valid() && 0 <= n && n + 39 < UINT64
      ensures current == AddrAt(segs, FirstFit(segs, Need(n), 0))
    {
      hide Get;
      var total := Align8(n + HEADER);
      current := firstBlock;
      ghost var i := 0;
      while current != NULL
        invariant i <= |segs| && current == AddrAt(segs, i)
        invariant FirstFit(segs, total, i) == FirstFit(segs, total, 0)
        decreases |segs| - i
      {
        assert BlockOk(mem, segs, i);
        if Used(mem, current) == 0 && Size(mem, current) >= total {
          return;
        }
        current := Next(mem, current);
        i := i + 1;
      }
      NullPastEnd(segs, i);
    }

    /** The writes of a split, in the order of the source. */
    method WriteSplit(block: int, total: int)
      modifies this`mem
      ensures mem == SplitMem(old(mem), block, total)
    {
      hide Get, GetLong, SetMagic, SetSize, SetUsed, SetNext, SetPrev;
      var newBlock := block + total;
      mem := SetMagic(mem, newBlock);
      mem := SetSize(mem, newBlock, Size(mem, block) - total);
      mem := SetUsed(mem, newBlock, 0);
      mem := SetNext(mem, newBlock, Next(mem, block));
      mem := SetPrev(mem, newBlock, block);
      mem := SetSize(mem, block, total);
      mem := SetUsed(mem, block, 1);
      if Next(mem, block) != NULL {
        mem := SetPrev(mem, Next(mem, block), newBlock);
      }
      mem := SetNext(mem, block, newBlock);
    }

    /** Cuts the tail off block i and marks it used, when the rest is worth a block of its own. */
    method SplitBlock(block: int, n: int, ghost i: nat) returns (r: int)
      requires Valid() && 0 < n && n + 39 < UINT64
      requires i < |segs| && block == segs[i].addr && Need(n) <= segs[i].size
      modifies this`mem, this`totalBlocks, this`segs
      ensures Valid() && Abs() == SplitAt(old(Abs()), i, Need(n))
      ensures State() ==
              if Splits(old(segs), i, Need(n))
              then Machine(SplitMem(old(mem), block, Need(n)), (old(totalBlocks) + 1) % UINT32, old(usedBlocks))
              else old(State())
      ensures r == block
    {
      hide Get, SplitMem;
      var total := Align8(n + HEADER);
      r := block;
      NeedBounds(n);
      assert BlockOk(mem, segs, i);
      if Size(mem, block) < total + SPLIT_SLACK {
        return;
      }
      SplitRepresents(mem, segs, i, total);
      SplitKeeps(Abs(), i, total);
      SplitEntries(segs, i, total);
      BlocksWithin(segs, |segs| - 1);
      BlockCountBounded(segs, |segs| - 1);
      WriteSplit(block, total);
      totalBlocks := (totalBlocks + 1) % UINT32;
      segs := SplitSegs(segs, i, total);
    }

    /** Merges a block with its successor and its predecessor, on any memory whatever. */
    method MergeAdjacentBlocks(block: int)
      modifies this`mem, this`totalBlocks
      ensures State() == MergeBlocks(old(State()), block)
    {
      hide Get, GetLong, SetSize, SetUsed, SetNext, SetPrev;
      if Next(mem, block) != NULL && Used(mem, Next(mem, block)) == 0 {
        mem := SetSize(mem, block, Size(mem, block) + Size(mem, Next(mem, block)));
        mem := SetNext(mem, block, Next(mem, Next(mem, block)));
        if Next(mem, block) != NULL {
          mem := SetPrev(mem, Next(mem, block), block);
        }
        totalBlocks := (totalBlocks - 1) % UINT32;
      }
      assert mem == MergeNextMem(old(mem), block);
      ghost var between := mem;
      if Prev(mem, block) != NULL && Used(mem, Prev(mem, block)) == 0 {
        mem := SetSize(mem, Prev(mem, block), Size(mem, Prev(mem, block)) + Size(mem, block));
        mem := SetNext(mem, Prev(mem, block), Next(mem, block));
        if Next(mem, block) != NULL {
          mem := SetPrev(mem, Next(mem, block), Prev(mem, block));
        }
        totalBlocks := (totalBlocks - 1) % UINT32;
      }
      assert mem == MergePrevMem(between, block);
    }

    /** kmfree, on any memory whatever. On a valid heap a safe free is the abstract one. */
    method Kmfree(ptr: int)
      requires 0 <= ptr < UINT64
      modifies this
      ensures State() == FreeMachine(old(State()), ptr) && segs == Free(old(Abs()), ptr).segs
      ensures unchanged(`startAddress) && unchanged(`endAddress) && unchanged(`maxAddress) && unchanged(`firstBlock)
      ensures old(Valid()) && SafeFree(old(Abs()), old(mem), ptr) ==> Valid() && Abs() == Free(old(Abs()), ptr)
    {
      hide Get, MergeBlocks, SetUsed, Release, Represents;
      if Valid() && SafeFree(Abs(), mem, ptr) {
        FreeHolds(State(), Abs(), ptr);
        FreeKeeps(Abs(), ptr);
      }
      ghost var freed := Free(Abs(), ptr).segs;
      segs := freed;
      if ptr == NULL {
        return;
      }
      var block := (ptr - HEADER) % UINT64;
      if Magic(mem, block) != MAGIC {
        return;
      }
      if Used(mem, block) == 0 {
        return;
      }
      mem := SetUsed(mem, block, 0);
      usedBlocks := (usedBlocks - 1) % UINT32;
      MergeAdjacentBlocks(block);
    }

    /** Follows the list to its end. */
    method LastBlock() returns (last: int)
      requires Tiles(segs) && Represents(mem, segs) && firstBlock == START
      ensures last == segs[|segs| - 1].addr
    {
      hide Get;
      last := firstBlock;
      ghost var i := 0;
      assert BlockOk(mem, segs, 0);
      while Next(mem, last) != NULL
        invariant i < |segs| && last == segs[i].addr
        invariant BlockOk(mem, segs, i)
        decreases |segs| - i
      {
        last := Next(mem, last);
        i := i + 1;
      }
      NullPastEnd(segs, i + 1);
    }

    /** Appends a free block at the end of the heap, unless that would pass the maximum address. */
    method ExpandHeap(n: int)
      requires Valid() && 0 < n && endAddress + Align8(n) < UINT64
      modifies this
      ensures Valid() && Abs() == Expand(old(Abs()), n)
      ensures State() ==
              if CanGrow(old(Abs()), n)
              then Machine(GrowMem(old(mem), End(old(segs)), GrowBy(n), old(segs)[|old(segs)| - 1].addr),
                           (old(totalBlocks) + 1) % UINT32, old(usedBlocks))
              else old(State())
    {
      hide Get, GetLong, SetMagic, SetSize, SetUsed, SetNext, SetPrev;
      var expandSize := Align8(n);
      if expandSize < GROW_SIZE {
        expandSize := GROW_SIZE;
      }
      if endAddress + expandSize > maxAddress {
        return;
      }
      var newBlock := endAddress;
      ghost var last := segs[|segs| - 1].addr;
      mem := SetMagic(mem, newBlock);
      mem := SetSize(mem, newBlock, expandSize);
      mem := SetUsed(mem, newBlock, 0);
      mem := SetNext(mem, newBlock, NULL);
      EndSpares(old(mem), segs, expandSize);
      var lastBlock := LastBlock();
      mem := SetNext(mem, lastBlock, newBlock);
      mem := SetPrev(mem, newBlock, lastBlock);
      ExpandKeeps(Abs(), n);
      BlocksWithin(segs, |segs| - 1);
      GrowRepresents(old(mem), segs, expandSize);
      BlockCountBounded(segs, |segs| - 1);
      endAddress := endAddress + expandSize;
      totalBlocks := (totalBlocks + 1) % UINT32;
      segs := segs + [Seg(newBlock, expandSize, false)];
    }

    /** The end of kmalloc, once a block has been chosen. */
    method AllocateBlock(chosen: int, n: int, ghost i: nat) returns (ptr: int)
      requires Valid() && 0 < n && n + 39 < UINT64
      requires i < |segs| && chosen == segs[i].addr && Need(n) <= segs[i].size
      modifies this
      ensures Valid() && Abs() == AllocateAt(old(Abs()), i, n, false).heap
      ensures ptr == AllocateAt(old(Abs()), i, n, false).ptr
      ensures State() == AllocateMachine(old(State()), old(segs), i, n)
    {
      hide Get, SplitMem, Represents;
      var block := SplitBlock(chosen, n, i);
      usedBlocks := (usedBlocks + 1) % UINT32;
      ptr := block + HEADER;
    }

    /** First fit, growing the heap once when nothing fits; NULL when even that does not help. */
    method Kmalloc(n: int) returns (ptr: int)
      requires Valid() && 0 <= n && n + 39 < UINT64 && endAddress + Align8(n) < UINT64
      modifies this
      ensures Valid() && Abs() == Malloc(old(Abs()), n).heap && State() == MallocMachine(old(Abs()), old(State()), n)
      ensures ptr == Malloc(old(Abs()), n).ptr
    {
      hide Get, SplitMem, GrowMem, Represents, AllocateMachine;
      if n == 0 {
        return NULL;
      }
      NeedBounds(n);
      ghost var i := FirstFit(segs, Need(n), 0);
      var block := FindFreeBlock(n);
      NullPastEnd(segs, i);
      if block == NULL {
        ExpandHeap(n);
        i := FirstFit(segs, Need(n), 0);
        block := FindFreeBlock(n);
        NullPastEnd(segs, i);
        if block == NULL {
          return NULL;
        }
      }
      assert Abs() == Searched(old(Abs()), n) && State() == SearchedMachine(old(Abs()), old(State()), n);
      ptr := AllocateBlock(block, n, i);
    }

    /** Walks the list, whatever its headers hold, and reports the first bad magic number, or else
        a block count that differs from the recorded one. */
    method ValidateIntegrity() returns (report: Report)
      requires Walkable() && |segs| < UINT32
      ensures report.Corruption? <==> exists i :: 0 <= i < |segs| && BadMagic(i)
      ensures report.Corruption? ==> report.index < |segs| && BadMagic(report.index)
                                     && forall i :: 0 <= i < report.index ==> !BadMagic(i)
      ensures report.CountMismatch? ==> report.expected == totalBlocks && report.found == |segs|
      ensures report.CountMismatch? ==> totalBlocks != |segs|
      ensures report.Consistent? ==> totalBlocks == |segs|
      ensures Valid() ==> report.Consistent?
    {
      hide Get, Tiles;
      var current := firstBlock;
      var blockCount := 0;
      while current != NULL
        invariant 0 <= blockCount <= |segs| && current == AddrAt(segs, blockCount)
        invariant forall i :: 0 <= i < blockCount ==> !BadMagic(i)
        decreases |segs| - blockCount
      {
        assert ChainOk(blockCount);
        assert Valid() ==> BlockOk(mem, segs, blockCount);
        if Magic(mem, current) != MAGIC {
          assert BadMagic(blockCount);
          return Corruption(blockCount);
        }
        blockCount := (blockCount + 1) % UINT32;
        current := Next(mem, current);
      }
      assert blockCount < |segs| ==> ChainOk(blockCount);
      report := if blockCount != totalBlocks then CountMismatch(totalBlocks, blockCount) else Consistent;
    }

    ghost predicate BadMagic(i: int)
      requires 0 <= i < |segs|
      reads this
    {
      Magic(mem, segs[i].addr) != MAGIC
    }

    ghost predicate ChainOk(i: int)
      requires 0 <= i < |segs|
      reads this
    {
      segs[i].addr != NULL && Next(mem, segs[i].addr) == NextAddr(segs, i)
    }

    /** The next links alone form the list `segs`; nothing is said of magic numbers or counters. */
    ghost predicate Walkable()
      reads this
    {
      segs != [] && firstBlock == segs[0].addr && forall i :: 0 <= i < |segs| ==> ChainOk(i)
    }

    lemma ValidIsWalkable()
      requires Valid()
      ensures Walkable() && |segs| < UINT32
    {
      hide Get;
      forall i | 0 <= i < |segs|
        ensures ChainOk(i)
      {
        assert BlockOk(mem, segs, i);
        BlocksWithin(segs, i);
      }
      BlockCountBounded(segs, |segs| - 1);
    }

    method GetTotalSize() returns (size: int)
      requires Valid()
      ensures size == End(segs) - START
      ensures size == Bytes(segs, true) + Bytes(segs, false)
    {
      hide Holds;
      BlocksWithin(segs, 0);
      BytesCover(segs, 0);
      assert segs[0..] == segs;
      size := (endAddress - startAddress) % UINT32;
    }

    method GetUsedSize() returns (size: int)
      requires Valid()
      ensures size == Bytes(segs, true)
    {
      hide Get;
      size := 0;
      var current := firstBlock;
      ghost var i := 0;
      assert segs[0..] == segs;
      BytesCover(segs, 0);
      BlocksWithin(segs, 0);
      while current != NULL
        invariant i <= |segs| && current == AddrAt(segs, i)
        invariant 0 <= size && size + Bytes(segs[i..], true) == Bytes(segs, true)
        decreases |segs| - i
      {
        assert BlockOk(mem, segs, i);
        assert segs[i..][1..] == segs[i + 1..];
        BytesCover(segs, i);
        if i + 1 < |segs| { BytesCover(segs, i + 1); } else { assert segs[i + 1..] == []; }
        if Used(mem, current) != 0 {
          assert SizeOk(segs, i);
          size := (size + Size(mem, current)) % UINT32;
        }
        current := Next(mem, current);
        i := i + 1;
      }
      NullPastEnd(segs, i);
    }

    /** The 32-bit difference is the true sum of the free block sizes. */
    method GetFreeSize() returns (size: int)
      requires Valid()
      ensures size == Bytes(segs, false)
    {
      hide Holds;
      var total := GetTotalSize();
      var used := GetUsedSize();
      BytesCover(segs, 0);
      assert segs[0..] == segs;
      BlocksWithin(segs, 0);
      size := (total - used) % UINT32;
    }
  }

  /** Runs a sequence of allocator calls on the real structure: its list, memory and counters follow the abstract run
      step by step, and at the end the integrity check has nothing to report. */
  method RunEvents(m: Memory, events: seq<Event>, ghost last: Client) returns (h: KernelHeap, report: Report)
    requires Reaches(InitialClient(m), events, last)
    ensures fresh(h) && h.Valid() && h.Abs() == last.heap && h.State() == last.machine
    ensures RunInvariant(last)
    ensures report == Consistent
  {
    hide Get, InitialMachine, MallocMachine, FreeMachine, Malloc, Free, Holds, GrowthBound, SafeFree;
    h := new KernelHeap.Init(m);
    InitialHolds(m);
    ghost var c := InitialClient(m);
    for k := 0 to |events|
      invariant fresh(h) && h.Valid() && h.Abs() == c.heap && h.State() == c.machine
      invariant RunInvariant(c) && Reaches(c, events[k..], last)
    {
      StepKeeps(c, events[k]);
      assert events[k..][1..] == events[k + 1..];
      match events[k] {
        case Alloc(n) =>
          var _ := h.Kmalloc(n);
        case Dealloc(ptr) =>
          h.Kmfree(ptr);
      }
      c := Step(c, events[k]);
    }
    h.ValidIsWalkable();
    report := h.ValidateIntegrity();
  }

  /** Freeing a pointer twice in a row leaves list, memory and counters as after the first free. */
  method FreeTwiceInARow(h: KernelHeap, ptr: int) returns (ghost once: Machine)
    requires h.Valid() && 0 <= ptr < UINT64 && SafeFree(h.Abs(), h.mem, ptr)
    modifies h
    ensures h.Valid() && h.Abs() == Free(old(h.Abs()), ptr)
    ensures once == FreeMachine(old(h.State()), ptr) && h.State() == once
  {
    hide Get, MergeBlocks, SetUsed, Represents, Release;
    FreeTwice(h.Abs(), ptr);
    FreeMachineTwice(h.State(), h.Abs(), ptr);
    h.Kmfree(ptr);
    once := h.State();
    h.Kmfree(ptr);
  }

  /** Frees the live pointer whose header was torn: the integrity check then reports the second block of the list. */
  method FreeTornHeader(m: Memory) returns (h: KernelHeap, report: Report)
    ensures report == Corruption(1)
  {
    hide Get, Reaches, InitialMachine, FreeMachine, Represents;
    ghost var c := HeaderCanBeLost(m);
    h, report := RunEvents(m, FOUR_CALLS, c);
    h.Kmfree(TORN);
    assert h.segs == [FIRST, TAIL];
    assert h.ChainOk(0) && h.ChainOk(1);
    report := h.ValidateIntegrity();
    assert h.BadMagic(1) && !h.BadMagic(0);
  }
}
