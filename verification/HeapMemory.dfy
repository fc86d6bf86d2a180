/** Memory as bytes, the block headers that mem/heap.c keeps in it, and what each routine writes there.
    Every header field is read and written at its own offset, so a header written across an older one tears
    it field by field, and a wild link is followed to whatever bytes it leads to. */
module HeapMemory {

  const UINT32 := 0x1_0000_0000
  const UINT64 := 0x1_0000_0000_0000_0000
  const MAGIC := 0xDEADBEEF
  const NULL := 0
  const HEADER := 32

  type Byte = b: int | 0 <= b < 0x100

  /** What memory held at first, which is arbitrary, and the 32-bit words written since. */
  datatype Memory = Blank(bytes: int -> Byte) | Written(before: Memory, at: int, word: int)

  /** Byte k of a word, the lowest first. */
  function ByteOf(v: int, k: int): Byte {
    if k == 0 then v % 0x100
    else if k == 1 then v / 0x100 % 0x100
    else if k == 2 then v / 0x1_0000 % 0x100
    else v / 0x100_0000 % 0x100
  }

  function ByteAt(m: Memory, y: int): Byte {
    match m
    case Blank(bytes) => bytes(y)
    case Written(before, x, v) => if x <= y < x + 4 then ByteOf(v, y - x) else ByteAt(before, y)
  }

  /** The 32-bit word at x, of whichever writes its bytes are. */
  function Get(m: Memory, x: int): (v: int)
    ensures 0 <= v < UINT32
  {
    ByteAt(m, x) + 0x100 * ByteAt(m, x + 1) + 0x1_0000 * ByteAt(m, x + 2) + 0x100_0000 * ByteAt(m, x + 3)
  }

  /** Stores the low 32 bits of v at x. */
  function Put(m: Memory, x: int, v: int): Memory {
    Written(m, x, v)
  }

  function GetLong(m: Memory, x: int): (v: int)
    ensures 0 <= v < UINT64
  {
    Get(m, x) + UINT32 * Get(m, x + 4)
  }

  function PutLong(m: Memory, x: int, v: int): Memory {
    Put(Put(m, x, v), x + 4, v / UINT32)
  }

  lemma BytesOf(v: int)
    ensures v % UINT32 == v % 0x100 + 0x100 * (v / 0x100 % 0x100) + 0x1_0000 * (v / 0x1_0000 % 0x100)
                          + 0x100_0000 * (v / 0x100_0000 % 0x100)
  {
    var q1, q2, q3 := v / 0x100, v / 0x1_0000, v / 0x100_0000;
    assert q2 == q1 / 0x100 && q3 == q2 / 0x100 && v / UINT32 == q3 / 0x100;
  }

  /** A word reads as written, and words that do not overlap it are unchanged. */
  lemma GetPut(m: Memory, x: int, v: int, y: int)
    ensures Get(Put(m, x, v), x) == v % UINT32
    ensures y + 4 <= x || x + 4 <= y ==> Get(Put(m, x, v), y) == Get(m, y)
  {
    BytesOf(v);
  }

  // ----- Header fields -----

  datatype Header = Header(magic: int, size: int, used: int, next: int, prev: int)

  function Magic(m: Memory, a: int): (v: int) ensures 0 <= v < UINT32 { Get(m, a) }
  function Size(m: Memory, a: int): (v: int) ensures 0 <= v < UINT32 { Get(m, a + 4) }
  function Used(m: Memory, a: int): (v: int) ensures 0 <= v < UINT32 { Get(m, a + 8) }
  function Next(m: Memory, a: int): (v: int) ensures 0 <= v < UINT64 { GetLong(m, a + 16) }
  function Prev(m: Memory, a: int): (v: int) ensures 0 <= v < UINT64 { GetLong(m, a + 24) }

  function SetMagic(m: Memory, a: int): Memory { Put(m, a, MAGIC) }
  function SetSize(m: Memory, a: int, v: int): Memory { Put(m, a + 4, v) }
  function SetUsed(m: Memory, a: int, v: int): Memory { Put(m, a + 8, v) }
  function SetNext(m: Memory, a: int, v: int): Memory { PutLong(m, a + 16, v) }
  function SetPrev(m: Memory, a: int, v: int): Memory { PutLong(m, a + 24, v) }

  function HeaderAt(m: Memory, a: int): Header {
    Header(Magic(m, a), Size(m, a), Used(m, a), Next(m, a), Prev(m, a))
  }

  /** Headers at a and b do not overlap. */
  predicate Clear(a: int, b: int) {
    a + HEADER <= b || b + HEADER <= a
  }

  // A field write changes that field of its own header and no header clear of it.

  lemma WriteMagic(m: Memory, a: int, b: int)
    ensures HeaderAt(SetMagic(m, a), a) == HeaderAt(m, a).(magic := MAGIC)
    ensures Clear(a, b) ==> HeaderAt(SetMagic(m, a), b) == HeaderAt(m, b)
  {
    hide Get, Put;
    forall y { GetPut(m, a, MAGIC, y); }
  }

  lemma WriteSize(m: Memory, a: int, v: int, b: int)
    ensures HeaderAt(SetSize(m, a, v), a) == HeaderAt(m, a).(size := v % UINT32)
    ensures Clear(a, b) ==> HeaderAt(SetSize(m, a, v), b) == HeaderAt(m, b)
  {
    hide Get, Put;
    forall y { GetPut(m, a + 4, v, y); }
  }

  lemma WriteUsed(m: Memory, a: int, v: int, b: int)
    ensures HeaderAt(SetUsed(m, a, v), a) == HeaderAt(m, a).(used := v % UINT32)
    ensures Clear(a, b) ==> HeaderAt(SetUsed(m, a, v), b) == HeaderAt(m, b)
  {
    hide Get, Put;
    forall y { GetPut(m, a + 8, v, y); }
  }

  lemma PutLongEffect(m: Memory, x: int, v: int, y: int)
    requires 0 <= v < UINT64
    ensures GetLong(PutLong(m, x, v), x) == v
    ensures y + 4 <= x || x + 8 <= y ==> Get(PutLong(m, x, v), y) == Get(m, y)
  {
    hide Get, Put;
    var m1 := Put(m, x, v);
    GetPut(m, x, v, y);
    GetPut(m1, x + 4, v / UINT32, x);
    GetPut(m1, x + 4, v / UINT32, y);
  }

  lemma WriteNext(m: Memory, a: int, v: int, b: int)
    requires 0 <= v < UINT64
    ensures HeaderAt(SetNext(m, a, v), a) == HeaderAt(m, a).(next := v)
    ensures Clear(a, b) ==> HeaderAt(SetNext(m, a, v), b) == HeaderAt(m, b)
  {
    hide Get, PutLong;
    forall y { PutLongEffect(m, a + 16, v, y); }
  }

  lemma WritePrev(m: Memory, a: int, v: int, b: int)
    requires 0 <= v < UINT64
    ensures HeaderAt(SetPrev(m, a, v), a) == HeaderAt(m, a).(prev := v)
    ensures Clear(a, b) ==> HeaderAt(SetPrev(m, a, v), b) == HeaderAt(m, b)
  {
    hide Get, PutLong;
    forall y { PutLongEffect(m, a + 24, v, y); }
  }

  // ----- What the routines write -----

  /** The five fields of a free block's header, in the order of heap_init. */
  function NewHeader(m: Memory, at: int, size: int, next: int, prev: int): Memory {
    SetPrev(SetNext(SetUsed(SetSize(SetMagic(m, at), at, size), at, 0), at, next), at, prev)
  }

  lemma NewHeaderEffect(m: Memory, at: int, size: int, next: int, prev: int, x: int)
    requires 0 <= size < UINT32 && 0 <= next < UINT64 && 0 <= prev < UINT64
    ensures HeaderAt(NewHeader(m, at, size, next, prev), at) == Header(MAGIC, size, 0, next, prev)
    ensures Clear(x, at) ==> HeaderAt(NewHeader(m, at, size, next, prev), x) == HeaderAt(m, x)
  {
    hide Get, GetLong, SetMagic, SetSize, SetUsed, SetNext, SetPrev;
    var m1 := SetMagic(m, at);
    WriteMagic(m, at, x);
    var m2 := SetSize(m1, at, size);
    WriteSize(m1, at, size, x);
    var m3 := SetUsed(m2, at, 0);
    WriteUsed(m2, at, 0, x);
    var m4 := SetNext(m3, at, next);
    WriteNext(m3, at, next, x);
    WritePrev(m4, at, prev, x);
  }

  /** heap_split_block: a header behind the first `total` bytes of the block at b, then the links around it. */
  function SplitMem(m: Memory, b: int, total: int): Memory {
    var at := b + total;
    var m1 := SetMagic(m, at);
    var m2 := SetSize(m1, at, Size(m1, b) - total);
    var m3 := SetUsed(m2, at, 0);
    var m4 := SetNext(m3, at, Next(m3, b));
    LinkSplit(SetPrev(m4, at, b), b, total)
  }

  function LinkSplit(m: Memory, b: int, total: int): Memory {
    var m1 := SetSize(m, b, total);
    var m2 := SetUsed(m1, b, 1);
    var m3 := if Next(m2, b) != NULL then SetPrev(m2, Next(m2, b), b + total) else m2;
    SetNext(m3, b, b + total)
  }

  /** Writing the new header does not disturb what is read from the old one meanwhile. */
  lemma SplitMemIs(m: Memory, b: int, total: int)
    requires Clear(b, b + total)
    ensures SplitMem(m, b, total) ==
            LinkSplit(NewHeader(m, b + total, Size(m, b) - total, Next(m, b), b), b, total)
  {
    hide Get, GetLong, SetMagic, SetSize, SetUsed, SetNext, SetPrev, LinkSplit;
    var at := b + total;
    var m1 := SetMagic(m, at);
    WriteMagic(m, at, b);
    assert HeaderAt(m1, b) == HeaderAt(m, b);
    var m2 := SetSize(m1, at, Size(m1, b) - total);
    WriteSize(m1, at, Size(m1, b) - total, b);
    WriteUsed(m2, at, 0, b);
    assert HeaderAt(SetUsed(m2, at, 0), b) == HeaderAt(m, b);
  }

  /** heap_expand_heap: a header at the old end, linked behind the block at `last`. */
  function GrowMem(m: Memory, at: int, size: int, last: int): Memory {
    var m1 := SetMagic(m, at);
    var m2 := SetSize(m1, at, size);
    var m3 := SetUsed(m2, at, 0);
    var m4 := SetNext(m3, at, NULL);
    var m5 := SetNext(m4, last, at);
    SetPrev(m5, at, last)
  }

  /** The first merge of heap_merge_adjacent_blocks: the block at b absorbs its successor. */
  function AbsorbNext(m: Memory, b: int): Memory {
    var m1 := SetSize(m, b, Size(m, b) + Size(m, Next(m, b)));
    var m2 := SetNext(m1, b, Next(m1, Next(m1, b)));
    if Next(m2, b) != NULL then SetPrev(m2, Next(m2, b), b) else m2
  }

  /** The second merge: the block at b is absorbed by its predecessor. */
  function AbsorbIntoPrev(m: Memory, b: int): Memory {
    var m1 := SetSize(m, Prev(m, b), Size(m, Prev(m, b)) + Size(m, b));
    var m2 := SetNext(m1, Prev(m1, b), Next(m1, b));
    if Next(m2, b) != NULL then SetPrev(m2, Next(m2, b), Prev(m2, b)) else m2
  }

  predicate MergesNext(m: Memory, b: int) {
    Next(m, b) != NULL && Used(m, Next(m, b)) == 0
  }

  predicate MergesPrev(m: Memory, b: int) {
    Prev(m, b) != NULL && Used(m, Prev(m, b)) == 0
  }

  function MergeNextMem(m: Memory, b: int): Memory {
    if MergesNext(m, b) then AbsorbNext(m, b) else m
  }

  function MergePrevMem(m: Memory, b: int): Memory {
    if MergesPrev(m, b) then AbsorbIntoPrev(m, b) else m
  }

  /** What the statics and the memory hold while kmfree runs. */
  datatype Machine = Machine(mem: Memory, totalBlocks: int, usedBlocks: int)

  /** The 32-bit decrement of a counter, under a condition. */
  function DownIf(n: int, c: bool): int {
    if c then (n - 1) % UINT32 else n
  }

  function MergeBlocks(s: Machine, b: int): Machine {
    var m1 := MergeNextMem(s.mem, b);
    var m2 := MergePrevMem(m1, b);
    s.(mem := m2, totalBlocks := DownIf(DownIf(s.totalBlocks, MergesNext(s.mem, b)), MergesPrev(m1, b)))
  }

  /** The address of the header that belongs to a pointer. */
  function BlockOf(ptr: int): int {
    (ptr - HEADER) % UINT64
  }

  /** The two checks of kmfree. */
  predicate Accepts(m: Memory, b: int) {
    Magic(m, b) == MAGIC && Used(m, b) != 0
  }

  /** kmfree, on any memory whatever. */
  function FreeMachine(s: Machine, ptr: int): Machine {
    if ptr == NULL || !Accepts(s.mem, BlockOf(ptr)) then s
    else
      MergeBlocks(Machine(SetUsed(s.mem, BlockOf(ptr), 0), s.totalBlocks, (s.usedBlocks - 1) % UINT32), BlockOf(ptr))
  }
}
