/** The block list in memory: when headers represent a list, and that every routine's writes carry a
    representation over. */
module HeapInMemory {
  import opened HeapMemory
  import opened HeapSpec
  import opened HeapLemmas
  import opened HeapMeaning

  function NextAddr(segs: seq<Seg>, i: int): int
    requires 0 <= i < |segs|
  {
    if i + 1 < |segs| then segs[i + 1].addr else NULL
  }

  function PrevAddr(segs: seq<Seg>, i: int): int
    requires 0 <= i < |segs|
  {
    if i > 0 then segs[i - 1].addr else NULL
  }

  /** The header that block i of the list must have in memory. */
  function HeaderOf(segs: seq<Seg>, i: int): Header
    requires 0 <= i < |segs|
  {
    Header(MAGIC, segs[i].size, if segs[i].used then 1 else 0, NextAddr(segs, i), PrevAddr(segs, i))
  }

  ghost predicate BlockOk(m: Memory, segs: seq<Seg>, i: int)
    requires 0 <= i < |segs|
  {
    HeaderAt(m, segs[i].addr) == HeaderOf(segs, i)
  }

  /** Every block of the list has its header in memory. */
  ghost predicate Represents(m: Memory, segs: seq<Seg>) {
    forall i :: 0 <= i < |segs| ==> BlockOk(m, segs, i)
  }

  function AddrAt(segs: seq<Seg>, i: nat): int
    requires i <= |segs|
  {
    if i < |segs| then segs[i].addr else NULL
  }

  /** No block has address NULL, so a walk meets NULL only past the last block. */
  lemma NullPastEnd(segs: seq<Seg>, i: nat)
    requires Tiles(segs) && i <= |segs|
    ensures AddrAt(segs, i) == NULL ==> i == |segs|
  {
    if i < |segs| { BlocksWithin(segs, i); }
  }

  /** The links of a represented list: every block's successor lies behind it and points back to it, so no walk
      runs in a circle. */
  lemma LinksInverse(m: Memory, segs: seq<Seg>, i: nat)
    requires Tiles(segs) && Represents(m, segs) && i < |segs|
    ensures var a := segs[i].addr; var next := Next(m, a); var prev := Prev(m, a);
            && (next != NULL <==> i + 1 < |segs|) && (prev != NULL <==> i > 0)
            && (next != NULL ==> next == a + Size(m, a) && Prev(m, next) == a)
            && (prev != NULL ==> prev + Size(m, prev) == a && Next(m, prev) == a)
  {
    hide Get;
    assert BlockOk(m, segs, i);
    NullPastEnd(segs, i);
    if i + 1 < |segs| {
      assert BlockOk(m, segs, i + 1) && Adjoins(segs, i);
      NullPastEnd(segs, i + 1);
    }
    if i > 0 {
      assert BlockOk(m, segs, i - 1) && Adjoins(segs, i - 1);
      NullPastEnd(segs, i - 1);
    }
  }

  /** Different blocks' headers do not overlap. */
  lemma BlocksClear(segs: seq<Seg>, i: nat, j: nat)
    requires Tiles(segs) && i < |segs| && j < |segs| && i != j
    ensures Clear(segs[i].addr, segs[j].addr)
  {
    if i < j { BlocksInOrder(segs, i, j); } else { BlocksInOrder(segs, j, i); }
  }

  lemma MagicBytes(m: Memory, a: int)
    requires Magic(m, a) == MAGIC
    ensures ByteAt(m, a) == 0xEF && ByteAt(m, a + 1) == 0xBE && ByteAt(m, a + 2) == 0xAD && ByteAt(m, a + 3) == 0xDE
  {
    BytesUnique(ByteAt(m, a), ByteAt(m, a + 1), ByteAt(m, a + 2), ByteAt(m, a + 3));
  }

  lemma BytesUnique(b0: Byte, b1: Byte, b2: Byte, b3: Byte)
    requires b0 + 0x100 * b1 + 0x1_0000 * b2 + 0x100_0000 * b3 == 0xDEADBEEF
    ensures b0 == 0xEF && b1 == 0xBE && b2 == 0xAD && b3 == 0xDE
  {}

  /** A block's header in memory, byte by byte: the bytes EF BE AD DE, then at offset 4 its size, at 8 whether it is
      used, and at 16 and 24, in two words each, where the blocks behind and before it start. */
  lemma HeaderBytes(m: Memory, segs: seq<Seg>, i: nat)
    requires Tiles(segs) && Represents(m, segs) && i < |segs|
    ensures var a := segs[i].addr;
            && ByteAt(m, a) == 0xEF && ByteAt(m, a + 1) == 0xBE && ByteAt(m, a + 2) == 0xAD && ByteAt(m, a + 3) == 0xDE
            && Get(m, a + 4) == segs[i].size
            && Get(m, a + 8) == (if segs[i].used then 1 else 0)
            && Get(m, a + 16) + 0x1_0000_0000 * Get(m, a + 20) == (if i + 1 < |segs| then segs[i + 1].addr else 0)
            && Get(m, a + 24) + 0x1_0000_0000 * Get(m, a + 28) == if i > 0 then segs[i - 1].addr else 0
  {
    assert BlockOk(m, segs, i);
    MagicBytes(m, segs[i].addr);
    hide ByteAt, Get;
  }

  // ----- Splitting -----

  /** The writes of a split, header by header. */
  lemma SplitEffect(m: Memory, b: int, total: int, x: int)
    requires 0 < b && HEADER <= total <= Size(m, b) && b + total < UINT64
    requires var next := Next(m, b); next != NULL ==> Clear(next, b) && Clear(next, b + total)
    ensures var at := b + total; var next := Next(m, b); var r := SplitMem(m, b, total);
            && HeaderAt(r, b) == HeaderAt(m, b).(size := total, used := 1, next := at)
            && HeaderAt(r, at) == Header(MAGIC, Size(m, b) - total, 0, next, b)
            && (next != NULL ==> HeaderAt(r, next) == HeaderAt(m, next).(prev := at))
            && (Clear(x, b) && Clear(x, at) && (next != NULL ==> Clear(x, next)) ==> HeaderAt(r, x) == HeaderAt(m, x))
  {
    hide Get, GetLong, SetSize, SetUsed, SetNext, SetPrev, NewHeader;
    var at, next := b + total, Next(m, b);
    SplitMemIs(m, b, total);
    var m1 := NewHeader(m, at, Size(m, b) - total, next, b);
    forall y { NewHeaderEffect(m, at, Size(m, b) - total, next, b, y); }
    var m2 := SetSize(m1, b, total);
    forall y { WriteSize(m1, b, total, y); }
    var m3 := SetUsed(m2, b, 1);
    forall y { WriteUsed(m2, b, 1, y); }
    var m4 := if next != NULL then SetPrev(m3, next, at) else m3;
    forall y { WritePrev(m3, next, at, y); }
    forall y { WriteNext(m4, b, at, y); }
  }

  /** The link of block i leads to its successor, whose header overlaps neither the block's own nor one written
      inside the block. */
  lemma SplitRoom(m: Memory, segs: seq<Seg>, i: nat, need: int)
    requires Tiles(segs) && Represents(m, segs) && i < |segs|
    requires MIN_BLOCK <= need && Splits(segs, i, need)
    ensures var b := segs[i].addr;
            && Next(m, b) == NextAddr(segs, i) && Size(m, b) == segs[i].size
            && 0 < b && need <= segs[i].size && b + need < UINT64
            && (i + 1 < |segs| ==> NextAddr(segs, i) != NULL)
            && (i + 1 < |segs| ==> Clear(NextAddr(segs, i), b) && Clear(NextAddr(segs, i), b + need))
  {
    hide Get;
    assert BlockOk(m, segs, i);
    BlocksWithin(segs, i);
    if i + 1 < |segs| { BlocksInOrder(segs, i, i + 1); }
  }

  lemma SplitKeepsBlock(m: Memory, segs: seq<Seg>, i: nat, need: int, k: nat)
    requires Tiles(segs) && Represents(m, segs) && i < |segs|
    requires MIN_BLOCK <= need && Splits(segs, i, need)
    requires k <= |segs|
    ensures |SplitSegs(segs, i, need)| == |segs| + 1
    ensures BlockOk(SplitMem(m, segs[i].addr, need), SplitSegs(segs, i, need), k)
  {
    hide Get, SplitMem;
    var j := if k <= i then k else k - 1;
    SplitEntries(segs, i, need);
    SplitRoom(m, segs, i, need);
    SplitEffect(m, segs[i].addr, need, segs[j].addr);
    assert BlockOk(m, segs, j) && BlockOk(m, segs, i);
    if k < i {
      BlocksInOrder(segs, k, i);
      if i + 1 < |segs| { BlocksInOrder(segs, k, i + 1); }
    } else if i + 2 < k {
      BlocksInOrder(segs, i, j);
      BlocksInOrder(segs, i + 1, j);
    }
  }

  lemma SplitRepresents(m: Memory, segs: seq<Seg>, i: nat, need: int)
    requires Tiles(segs) && Represents(m, segs) && i < |segs|
    requires MIN_BLOCK <= need && Splits(segs, i, need)
    ensures Represents(SplitMem(m, segs[i].addr, need), SplitSegs(segs, i, need))
  {
    hide SplitMem, HeaderAt;
    var r := SplitSegs(segs, i, need);
    SplitEntries(segs, i, need);
    forall k | 0 <= k < |r|
      ensures BlockOk(SplitMem(m, segs[i].addr, need), r, k)
    {
      SplitKeepsBlock(m, segs, i, need, k);
    }
  }

  // ----- Growing -----

  lemma GrowEffect(m: Memory, at: int, size: int, last: int, x: int)
    requires 0 < last && last + HEADER <= at < UINT64 && 0 <= size < UINT32
    ensures var r := GrowMem(m, at, size, last);
            && HeaderAt(r, at) == Header(MAGIC, size, 0, NULL, last)
            && HeaderAt(r, last) == HeaderAt(m, last).(next := at)
            && (Clear(x, at) && Clear(x, last) ==> HeaderAt(r, x) == HeaderAt(m, x))
  {
    hide Get, GetLong, SetMagic, SetSize, SetUsed, SetNext, SetPrev;
    var m1 := SetMagic(m, at);
    forall y { WriteMagic(m, at, y); }
    var m2 := SetSize(m1, at, size);
    forall y { WriteSize(m1, at, size, y); }
    var m3 := SetUsed(m2, at, 0);
    forall y { WriteUsed(m2, at, 0, y); }
    var m4 := SetNext(m3, at, NULL);
    forall y { WriteNext(m3, at, NULL, y); }
    var m5 := SetNext(m4, last, at);
    forall y { WriteNext(m4, last, at, y); }
    forall y { WritePrev(m5, at, last, y); }
  }

  /** A header written at the end of the heap, not linked yet, leaves the list as it is. */
  lemma EndSpares(m: Memory, segs: seq<Seg>, size: int)
    requires Tiles(segs) && Represents(m, segs)
    ensures var at := End(segs);
            Represents(SetNext(SetUsed(SetSize(SetMagic(m, at), at, size), at, 0), at, NULL), segs)
  {
    hide Get, SetMagic, SetSize, SetUsed, SetNext;
    var at := End(segs);
    var m1 := SetMagic(m, at);
    var m2 := SetSize(m1, at, size);
    var m3 := SetUsed(m2, at, 0);
    forall i | 0 <= i < |segs|
      ensures BlockOk(SetNext(m3, at, NULL), segs, i)
    {
      assert BlockOk(m, segs, i);
      BlocksWithin(segs, i);
      WriteMagic(m, at, segs[i].addr);
      WriteSize(m1, at, size, segs[i].addr);
      WriteUsed(m2, at, 0, segs[i].addr);
      WriteNext(m3, at, NULL, segs[i].addr);
    }
  }

  /** The memory after a block of the given size has been linked behind the last one. */
  lemma GrowRepresents(m: Memory, segs: seq<Seg>, size: int)
    requires Tiles(segs) && Represents(m, segs) && 0 <= size < UINT32
    ensures Represents(GrowMem(m, End(segs), size, segs[|segs| - 1].addr), segs + [Seg(End(segs), size, false)])
  {
    hide Get, GrowMem;
    var r, last := segs + [Seg(End(segs), size, false)], segs[|segs| - 1].addr;
    forall k | 0 <= k < |r|
      ensures BlockOk(GrowMem(m, End(segs), size, last), r, k)
    {
      BlocksWithin(segs, |segs| - 1);
      GrowEffect(m, End(segs), size, last, r[k].addr);
      if k < |segs| { assert BlockOk(m, segs, k); }
      if k < |segs| - 1 { BlocksInOrder(segs, k, |segs| - 1); }
    }
  }

  // ----- Freeing and merging -----

  /** Clearing the used field of a listed block. */
  lemma UnuseRepresents(m: Memory, segs: seq<Seg>, i: nat)
    requires Tiles(segs) && Represents(m, segs) && i < |segs|
    ensures Represents(SetUsed(m, segs[i].addr, 0), Unuse(segs, i))
  {
    hide Get, SetUsed;
    var r := Unuse(segs, i);
    forall k | 0 <= k < |r|
      ensures BlockOk(SetUsed(m, segs[i].addr, 0), r, k)
    {
      assert BlockOk(m, segs, k);
      WriteUsed(m, segs[i].addr, 0, segs[k].addr);
      if k != i { BlocksClear(segs, i, k); }
    }
  }

  /** The writes by which one header takes over its successor, at b + Size(m, b): whichever of the two the
      routine works on, they are the same. */
  lemma AbsorbEffect(m: Memory, b: int, n: int, x: int)
    requires n == Next(m, b) && Prev(m, n) == b && b != NULL && n != NULL && Clear(b, n)
    requires Size(m, b) + Size(m, n) < UINT32
    requires var after := Next(m, n); after != NULL ==> Clear(after, b) && Clear(after, n)
    ensures AbsorbNext(m, b) == AbsorbIntoPrev(m, n)
    ensures var after := Next(m, n); var r := AbsorbNext(m, b);
            && HeaderAt(r, b) == HeaderAt(m, b).(size := Size(m, b) + Size(m, n), next := after)
            && (after != NULL ==> HeaderAt(r, after) == HeaderAt(m, after).(prev := b))
            && (Clear(x, b) && (after != NULL ==> Clear(x, after)) ==> HeaderAt(r, x) == HeaderAt(m, x))
  {
    hide Get, GetLong, SetMagic, SetSize, SetUsed, SetNext, SetPrev;
    var after := Next(m, n);
    var m1 := SetSize(m, b, Size(m, b) + Size(m, n));
    forall y { WriteSize(m, b, Size(m, b) + Size(m, n), y); }
    var m2 := SetNext(m1, b, after);
    forall y { WriteNext(m1, b, after, y); }
    forall y { WritePrev(m2, after, b, y); }
    assert HeaderAt(m1, n) == HeaderAt(m, n) && HeaderAt(m2, n) == HeaderAt(m, n);
  }

  /** Around a merge: the two headers are linked, lie apart, and their sizes add up without wrap. */
  lemma AbsorbRoom(m: Memory, segs: seq<Seg>, i: nat)
    requires Tiles(segs) && Represents(m, segs) && i + 1 < |segs|
    ensures var b, n := segs[i].addr, segs[i + 1].addr;
            && n == Next(m, b) && Prev(m, n) == b && NULL < b && NULL < n && Clear(b, n)
            && Size(m, b) == segs[i].size && Size(m, n) == segs[i + 1].size && segs[i].size + segs[i + 1].size < UINT32
            && Used(m, b) == (if segs[i].used then 1 else 0) && Used(m, n) == (if segs[i + 1].used then 1 else 0)
            && Next(m, n) == NextAddr(segs, i + 1)
            && (i + 2 < |segs| ==> NULL < segs[i + 2].addr && Clear(segs[i + 2].addr, b) && Clear(segs[i + 2].addr, n))
  {
    hide Get;
    assert BlockOk(m, segs, i) && BlockOk(m, segs, i + 1);
    assert Adjoins(segs, i);
    BlocksWithin(segs, i);
    BlocksWithin(segs, i + 1);
    BlocksClear(segs, i, i + 1);
    if i + 2 < |segs| {
      BlocksWithin(segs, i + 2);
      BlocksClear(segs, i, i + 2);
      BlocksClear(segs, i + 1, i + 2);
    }
  }

  lemma JoinRepresents(m: Memory, segs: seq<Seg>, i: nat)
    requires Tiles(segs) && Represents(m, segs) && i + 1 < |segs|
    ensures Represents(AbsorbNext(m, segs[i].addr), Join(segs, i))
    ensures AbsorbIntoPrev(m, segs[i + 1].addr) == AbsorbNext(m, segs[i].addr)
  {
    hide Get, AbsorbNext, AbsorbIntoPrev;
    var r := Join(segs, i);
    JoinEntries(segs, i);
    AbsorbRoom(m, segs, i);
    forall k | 0 <= k < |r|
      ensures BlockOk(AbsorbNext(m, segs[i].addr), r, k)
    {
      var j := if k <= i then k else k + 1;
      AbsorbEffect(m, segs[i].addr, segs[i + 1].addr, segs[j].addr);
      assert BlockOk(m, segs, j);
      if j != i { BlocksClear(segs, i, j); }
      if i + 2 < |segs| && j != i + 2 { BlocksClear(segs, i + 2, j); }
    }
    AbsorbEffect(m, segs[i].addr, segs[i + 1].addr, NULL);
  }

  // ----- The machine follows the list -----

  /** Memory and counters agree with the abstract heap. */
  ghost predicate Holds(s: Machine, h: Heap) {
    Represents(s.mem, h.segs) && s.totalBlocks == |h.segs| && s.usedBlocks == h.usedBlocks
  }

  lemma MergeNextHolds(m: Memory, segs: seq<Seg>, i: nat)
    requires Tiles(segs) && Represents(m, segs) && i < |segs|
    ensures Represents(MergeNextMem(m, segs[i].addr), MergeNext(segs, i))
    ensures |MergeNext(segs, i)| == |segs| - if MergesNext(m, segs[i].addr) then 1 else 0
  {
    hide Get, AbsorbNext, AbsorbIntoPrev;
    assert BlockOk(m, segs, i);
    if i + 1 < |segs| {
      AbsorbRoom(m, segs, i);
      JoinRepresents(m, segs, i);
      JoinEntries(segs, i);
    }
  }

  lemma MergePrevHolds(m: Memory, segs: seq<Seg>, i: nat)
    requires Tiles(segs) && Represents(m, segs) && i < |segs|
    ensures Represents(MergePrevMem(m, segs[i].addr), MergePrev(segs, i))
    ensures |MergePrev(segs, i)| == |segs| - if MergesPrev(m, segs[i].addr) then 1 else 0
  {
    hide Get, AbsorbNext, AbsorbIntoPrev;
    assert BlockOk(m, segs, i);
    if i > 0 {
      AbsorbRoom(m, segs, i - 1);
      JoinRepresents(m, segs, i - 1);
      JoinEntries(segs, i - 1);
    }
  }

  /** What kmfree does past its checks releases block i. */
  lemma ReleaseHolds(s: Machine, segs: seq<Seg>, i: nat)
    requires Tiles(segs) && Represents(s.mem, segs) && s.totalBlocks == |segs| && i < |segs|
    ensures var r := MergeBlocks(s.(mem := SetUsed(s.mem, segs[i].addr, 0)), segs[i].addr);
            && Represents(r.mem, Release(segs, i)) && r.totalBlocks == |Release(segs, i)|
            && r.usedBlocks == s.usedBlocks
  {
    hide SetUsed, MergeNextMem, MergePrevMem, MergesNext, MergesPrev;
    var b := segs[i].addr;
    var s1 := Unuse(segs, i);
    var m1 := SetUsed(s.mem, b, 0);
    UnuseRepresents(s.mem, segs, i);
    UnuseKeeps(segs, i);
    MergeNextHolds(m1, s1, i);
    MergeNextKeeps(s1, i);
    MergePrevHolds(MergeNextMem(m1, b), MergeNext(s1, i), i);
    BlockCountBounded(segs, |segs| - 1);
  }

  /** The header of the block released still says that it is free, also when it has been absorbed. */
  lemma ReleaseLeavesFree(s: Machine, segs: seq<Seg>, i: nat)
    requires Tiles(segs) && Represents(s.mem, segs) && i < |segs|
    ensures Used(MergeBlocks(s.(mem := SetUsed(s.mem, segs[i].addr, 0)), segs[i].addr).mem, segs[i].addr) == 0
  {
    hide Get, SetUsed, AbsorbNext, AbsorbIntoPrev;
    var b := segs[i].addr;
    var s1, m1 := Unuse(segs, i), SetUsed(s.mem, b, 0);
    UnuseRepresents(s.mem, segs, i);
    UnuseKeeps(segs, i);
    WriteUsed(s.mem, b, 0, b);
    assert HeaderAt(m1, b).used == 0;
    MergeNextHolds(m1, s1, i);
    MergeNextKeeps(s1, i);
    var s2, m2 := MergeNext(s1, i), MergeNextMem(m1, b);
    if i + 1 < |s1| {
      AbsorbRoom(m1, s1, i);
      AbsorbEffect(m1, b, s1[i + 1].addr, NULL);
    }
    assert HeaderAt(m2, b).used == 0;
    assert BlockOk(m2, s2, i);
    if i > 0 {
      AbsorbRoom(m2, s2, i - 1);
      JoinRepresents(m2, s2, i - 1);
      AbsorbEffect(m2, s2[i - 1].addr, b, b);
      assert HeaderAt(MergePrevMem(m2, b), b).used == 0;
    }
  }

  /** The pointer's header is that of a listed block. */
  predicate IsListed(segs: seq<Seg>, b: int) {
    IndexOf(segs, b, 0) < |segs|
  }

  /** The frees that keep the heap intact: of NULL, of a listed block's pointer, and those the checks reject. */
  predicate SafeFree(h: Heap, m: Memory, ptr: int) {
    ptr == NULL || IsListed(h.segs, BlockOf(ptr)) || Magic(m, BlockOf(ptr)) != MAGIC || Used(m, BlockOf(ptr)) == 0
  }

  lemma BlockOfListed(segs: seq<Seg>, ptr: int)
    requires Tiles(segs) && 0 <= ptr < UINT64
    ensures IndexOf(segs, BlockOf(ptr), 0) == IndexOf(segs, ptr - HEADER, 0)
  {
    var i, j := IndexOf(segs, BlockOf(ptr), 0), IndexOf(segs, ptr - HEADER, 0);
    if i < |segs| { BlocksWithin(segs, i); }
    if j < |segs| { BlocksWithin(segs, j); }
  }

  /** Every safe free follows the abstract heap. */
  lemma FreeHolds(s: Machine, h: Heap, ptr: int)
    requires WellFormed(h) && Holds(s, h) && 0 <= ptr < UINT64 && SafeFree(h, s.mem, ptr)
    ensures Holds(FreeMachine(s, ptr), Free(h, ptr))
  {
    hide Get, MergeBlocks, SetUsed, Release;
    var b := BlockOf(ptr);
    var i := IndexOf(h.segs, b, 0);
    BlockOfListed(h.segs, ptr);
    if i < |h.segs| {
      assert BlockOk(s.mem, h.segs, i);
      ReleaseHolds(s.(usedBlocks := (s.usedBlocks - 1) % UINT32), h.segs, i);
    }
  }

  /** A second free right after a safe one changes nothing, in memory or in the counters. */
  lemma FreeMachineTwice(s: Machine, h: Heap, ptr: int)
    requires WellFormed(h) && Holds(s, h) && SafeFree(h, s.mem, ptr)
    ensures FreeMachine(FreeMachine(s, ptr), ptr) == FreeMachine(s, ptr)
  {
    hide Get, MergeBlocks, SetUsed, Represents;
    var i := IndexOf(h.segs, BlockOf(ptr), 0);
    if i < |h.segs| { ReleaseLeavesFree(s.(usedBlocks := (s.usedBlocks - 1) % UINT32), h.segs, i); }
  }

  /** The writes of the expansion that kmalloc tries when nothing fits. */
  function SearchedMachine(h: Heap, s: Machine, n: int): Machine
    requires h.segs != []
  {
    if FirstFit(h.segs, Need(n), 0) < |h.segs| || !CanGrow(h, n) then s
    else
      s.(mem := GrowMem(s.mem, End(h.segs), GrowBy(n), h.segs[|h.segs| - 1].addr),
         totalBlocks := (s.totalBlocks + 1) % UINT32)
  }

  function AllocateMachine(s: Machine, segs: seq<Seg>, i: nat, n: int): Machine
    requires i < |segs|
  {
    if Splits(segs, i, Need(n)) then
      Machine(SplitMem(s.mem, segs[i].addr, Need(n)), (s.totalBlocks + 1) % UINT32, (s.usedBlocks + 1) % UINT32)
    else s.(usedBlocks := (s.usedBlocks + 1) % UINT32)
  }

  /** The writes and counter steps of kmalloc, which works on the block that the list walk finds. */
  function MallocMachine(h: Heap, s: Machine, n: int): Machine
    requires h.segs != []
  {
    if n == 0 then s
    else
      var s1, segs, i := SearchedMachine(h, s, n), Searched(h, n).segs, Chosen(h, n);
      if i == |segs| then s1 else AllocateMachine(s1, segs, i, n)
  }

  lemma SearchedHolds(h: Heap, s: Machine, n: int)
    requires WellFormed(h) && Holds(s, h) && 0 < n
    ensures Holds(SearchedMachine(h, s, n), Searched(h, n))
  {
    hide GrowMem, Represents;
    var last := |h.segs| - 1;
    BlocksWithin(h.segs, last);
    BlockCountBounded(h.segs, last);
    if FirstFit(h.segs, Need(n), 0) == |h.segs| && CanGrow(h, n) {
      GrowRepresents(s.mem, h.segs, GrowBy(n));
    }
  }

  lemma AllocateHolds(h: Heap, s: Machine, i: nat, n: int)
    requires WellFormed(h) && Holds(s, h) && i < |h.segs| && 0 < n
    ensures Holds(AllocateMachine(s, h.segs, i, n), AllocateAt(h, i, n, false).heap)
  {
    hide SplitMem, Represents;
    if Splits(h.segs, i, Need(n)) {
      NeedBounds(n);
      SplitRepresents(s.mem, h.segs, i, Need(n));
      SplitEntries(h.segs, i, Need(n));
      BlocksWithin(h.segs, |h.segs| - 1);
      BlockCountBounded(h.segs, |h.segs| - 1);
    }
  }

  lemma MallocHolds(h: Heap, s: Machine, n: int)
    requires WellFormed(h) && Holds(s, h) && 0 <= n
    ensures Holds(MallocMachine(h, s, n), Malloc(h, n).heap)
  {
    hide Holds, AllocateMachine, SearchedMachine, Searched, Chosen;
    if n != 0 {
      MallocShape(h, n);
      SearchedHolds(h, s, n);
      var g, i := Searched(h, n), Chosen(h, n);
      if i < |g.segs| { AllocateHolds(g, SearchedMachine(h, s, n), i, n); }
    }
  }
}
