/** The kernel heap on values: the blocks in address order and the 32-bit used-block counter.
    The functions follow the allocator branch by branch; class KernelHeap refines them. */
module HeapSpec {
  import opened HeapMemory

  const START := 0x1000000
  const INITIAL_SIZE := 0x100000
  const MAX := START + 0x10000000
  const GROW_SIZE := 0x1000
  const MIN_BLOCK := 40
  const SPLIT_SLACK := 64

  datatype Seg = Seg(addr: int, size: int, used: bool)

  datatype Heap = Heap(segs: seq<Seg>, usedBlocks: int)

  datatype Outcome = Failed | Split | Whole
  datatype Allocation = Allocation(heap: Heap, ptr: int, outcome: Outcome, grew: bool)

  function Align8(n: int): int { (n + 7) / 8 * 8 }

  /** The size of the smallest block that serves a request of n bytes. */
  function Need(n: int): int { Align8(n + HEADER) }

  function End(segs: seq<Seg>): int
    requires segs != []
  {
    segs[|segs| - 1].addr + segs[|segs| - 1].size
  }

  // ----- Well-formedness -----

  ghost predicate SizeOk(segs: seq<Seg>, i: int)
    requires 0 <= i < |segs|
  {
    segs[i].size % 8 == 0 && MIN_BLOCK <= segs[i].size
  }

  ghost predicate Adjoins(segs: seq<Seg>, i: int)
    requires 0 <= i && i + 1 < |segs|
  {
    segs[i].addr + segs[i].size == segs[i + 1].addr
  }

  /** The blocks cover [START, End) with no gap and no overlap, and End stays within MAX. */
  ghost predicate Tiles(segs: seq<Seg>) {
    && segs != []
    && segs[0].addr == START
    && (forall i :: 0 <= i < |segs| ==> SizeOk(segs, i))
    && (forall i :: 0 <= i < |segs| - 1 ==> Adjoins(segs, i))
    && End(segs) <= MAX
  }

  ghost predicate WellFormed(h: Heap) {
    && Tiles(h.segs)
    && 0 <= h.usedBlocks < UINT32
  }

  // ----- Operations -----

  const INITIAL_HEAP := Heap([Seg(START, INITIAL_SIZE, false)], 0)

  /** Index of the first free block at or after i that holds `need` bytes, or |segs|. */
  function FirstFit(segs: seq<Seg>, need: int, i: nat): (r: nat)
    requires i <= |segs|
    ensures i <= r <= |segs|
    ensures r < |segs| ==> !segs[r].used && need <= segs[r].size
    ensures forall k :: i <= k < r ==> segs[k].used || segs[k].size < need
    decreases |segs| - i
  {
    if i == |segs| || (!segs[i].used && need <= segs[i].size) then i
    else FirstFit(segs, need, i + 1)
  }

  /** Index of the block that starts at a, or |segs|. */
  function IndexOf(segs: seq<Seg>, a: int, i: nat): (r: nat)
    requires i <= |segs|
    ensures i <= r <= |segs|
    ensures r < |segs| ==> segs[r].addr == a
    ensures forall k :: i <= k < r ==> segs[k].addr != a
    decreases |segs| - i
  {
    if i == |segs| || segs[i].addr == a then i else IndexOf(segs, a, i + 1)
  }

  function SplitSegs(segs: seq<Seg>, i: nat, need: int): seq<Seg>
    requires i < |segs|
  {
    segs[..i]
    + [Seg(segs[i].addr, need, true), Seg(segs[i].addr + need, segs[i].size - need, false)]
    + segs[i + 1..]
  }

  predicate Splits(segs: seq<Seg>, i: nat, need: int)
    requires i < |segs|
  {
    need + SPLIT_SLACK <= segs[i].size
  }

  /** Splitting marks the block used; a block too small to split is left as it is: still free. */
  function SplitAt(h: Heap, i: nat, need: int): Heap
    requires i < |h.segs|
  {
    if Splits(h.segs, i, need) then h.(segs := SplitSegs(h.segs, i, need)) else h
  }

  function GrowBy(n: int): int {
    if Align8(n) < GROW_SIZE then GROW_SIZE else Align8(n)
  }

  predicate CanGrow(h: Heap, n: int)
    requires h.segs != []
  {
    End(h.segs) + GrowBy(n) <= MAX
  }

  function Expand(h: Heap, n: int): Heap
    requires h.segs != []
  {
    if CanGrow(h, n) then h.(segs := h.segs + [Seg(End(h.segs), GrowBy(n), false)]) else h
  }

  function AllocateAt(h: Heap, i: nat, n: int, grew: bool): Allocation
    requires i < |h.segs|
  {
    Allocation(SplitAt(h, i, Need(n)).(usedBlocks := (h.usedBlocks + 1) % UINT32),
               h.segs[i].addr + HEADER,
               if Splits(h.segs, i, Need(n)) then Split else Whole,
               grew)
  }

  function Malloc(h: Heap, n: int): Allocation
    requires h.segs != []
  {
    if n == 0 then Allocation(h, 0, Failed, false)
    else
      var i := FirstFit(h.segs, Need(n), 0);
      if i < |h.segs| then AllocateAt(h, i, n, false)
      else
        var g := Expand(h, n);
        var j := FirstFit(g.segs, Need(n), 0);
        if j < |g.segs| then AllocateAt(g, j, n, CanGrow(h, n))
        else Allocation(g, 0, Failed, CanGrow(h, n))
  }

  /** Block i absorbs its successor. */
  function Join(segs: seq<Seg>, i: nat): seq<Seg>
    requires i + 1 < |segs|
  {
    segs[..i] + [segs[i].(size := segs[i].size + segs[i + 1].size)] + segs[i + 2..]
  }

  function MergeNext(segs: seq<Seg>, i: nat): (r: seq<Seg>)
    requires i < |segs|
    ensures i < |r| && r[i].addr == segs[i].addr && r[i].used == segs[i].used
  {
    if i + 1 < |segs| && !segs[i + 1].used then Join(segs, i) else segs
  }

  function MergePrev(segs: seq<Seg>, i: nat): seq<Seg>
    requires i < |segs|
  {
    if i > 0 && !segs[i - 1].used then Join(segs, i - 1) else segs
  }

  function Unuse(segs: seq<Seg>, i: nat): seq<Seg>
    requires i < |segs|
  {
    segs[i := segs[i].(used := false)]
  }

  function Release(segs: seq<Seg>, i: nat): seq<Seg>
    requires i < |segs|
  {
    MergePrev(MergeNext(Unuse(segs, i), i), i)
  }

  /** Freeing changes the block list only when a used block starts one header before ptr. */
  function Free(h: Heap, ptr: int): Heap {
    if ptr == 0 then h
    else
      var i := IndexOf(h.segs, ptr - HEADER, 0);
      if i < |h.segs| && h.segs[i].used then
        h.(segs := Release(h.segs, i), usedBlocks := (h.usedBlocks - 1) % UINT32)
      else h
  }

  // ----- What the heap means to its clients -----

  /** Where the blocks start. */
  function Starts(segs: seq<Seg>): set<int> {
    set i | 0 <= i < |segs| :: segs[i].addr
  }

  predicate Covers(segs: seq<Seg>, i: int, x: int)
    requires 0 <= i < |segs|
  {
    segs[i].addr <= x < segs[i].addr + segs[i].size
  }

  /** Address x belongs to a used block. */
  ghost predicate InUse(segs: seq<Seg>, x: int) {
    exists i :: 0 <= i < |segs| && segs[i].used && Covers(segs, i, x)
  }

  /** Block i is free and large enough for a request of n bytes. */
  predicate Fits(segs: seq<Seg>, i: int, n: int)
    requires 0 <= i < |segs|
  {
    !segs[i].used && n + HEADER <= segs[i].size
  }

  function CountUsed(segs: seq<Seg>): nat {
    if segs == [] then 0 else (if segs[0].used then 1 else 0) + CountUsed(segs[1..])
  }

  function Bytes(segs: seq<Seg>, used: bool): int {
    if segs == [] then 0 else (if segs[0].used == used then segs[0].size else 0) + Bytes(segs[1..], used)
  }

  /** Number of neighbours that are both free. */
  function FreePairs(segs: seq<Seg>): nat {
    if |segs| < 2 then 0
    else (if !segs[0].used && !segs[1].used then 1 else 0) + FreePairs(segs[1..])
  }
}
