/** paging_init builds six tables; a walk over them, as the processor does it with 4-level paging, is the
    identity below 4 GiB and finds nothing present above. */
module Paging {

  const ENTRIES := 512
  const PAGE_PRESENT := 1
  const PAGE_RW := 2
  const PAGE_PS := 128
  const TABLE_SIZE := 4096
  const MB2 := 0x20_0000
  const GB1 := 0x4000_0000
  const GB4 := 0x1_0000_0000
  const GB512 := 0x80_0000_0000
  const VIRTUAL := 0x1_0000_0000_0000   // 2^48
  const PHYSICAL := 0x10_0000_0000_0000 // 2^52

  // ----- Bitwise or -----

  function BitOr(a: nat, b: nat): nat
    decreases a + b
  {
    if a == 0 && b == 0 then 0
    else (if a % 2 == 1 || b % 2 == 1 then 1 else 0) + 2 * BitOr(a / 2, b / 2)
  }

  function Power2(k: nat): nat {
    if k == 0 then 1 else 2 * Power2(k - 1)
  }

  lemma {:induction false} OrZero(a: nat)
    ensures BitOr(a, 0) == a
    decreases a
  {
    if a != 0 { OrZero(a / 2); }
  }

  /** The k lowest bits of r are 0. */
  predicate LowBitsZero(r: nat, k: nat) {
    k == 0 || (r % 2 == 0 && LowBitsZero(r / 2, k - 1))
  }

  lemma TwiceLowBits(r: nat, k: nat)
    requires LowBitsZero(r, k)
    ensures LowBitsZero(2 * r, k + 1)
  {}

  /** Bits below position k do not interact with a word whose k lowest bits are 0. */
  lemma {:induction false} OrLow(r: nat, k: nat, x: nat, y: nat)
    requires LowBitsZero(r, k) && x < Power2(k) && y < Power2(k)
    ensures BitOr(r + x, y) == r + BitOr(x, y)
    decreases k
  {
    if k == 0 {
      OrZero(r);
    } else {
      OrLow(r / 2, k - 1, x / 2, y / 2);
      HalfSum(r / 2, x, y);
    }
  }

  lemma AlignedLowBits(q: nat)
    ensures LowBitsZero(q * TABLE_SIZE, 12)
  {
    TwiceLowBits(q, 0);
    TwiceLowBits(2 * q, 1);
    TwiceLowBits(4 * q, 2);
    TwiceLowBits(8 * q, 3);
    TwiceLowBits(16 * q, 4);
    TwiceLowBits(32 * q, 5);
    TwiceLowBits(64 * q, 6);
    TwiceLowBits(128 * q, 7);
    TwiceLowBits(256 * q, 8);
    TwiceLowBits(512 * q, 9);
    TwiceLowBits(1024 * q, 10);
    TwiceLowBits(2048 * q, 11);
  }

  lemma HalfSum(m: nat, x: nat, y: nat)
    ensures (2 * m + x) % 2 == x % 2 && (2 * m + x) / 2 == m + x / 2
    ensures BitOr(2 * m + x, y) ==
            (if x % 2 == 1 || y % 2 == 1 then 1 else 0) + 2 * BitOr(m + x / 2, y / 2)
    ensures BitOr(x, y) == (if x % 2 == 1 || y % 2 == 1 then 1 else 0) + 2 * BitOr(x / 2, y / 2)
  {}

  lemma SmallOrs()
    ensures BitOr(0, 1) == 1 && BitOr(1, 2) == 3 && BitOr(3, 128) == 131
  {}

  lemma TableBits()
    ensures Power2(12) == TABLE_SIZE
  {
    assert Power2(6) == 64;
  }

  /** The flag words that paging_init forms. */
  lemma Flags(q: nat)
    ensures BitOr(BitOr(q * TABLE_SIZE, PAGE_PRESENT), PAGE_RW) == q * TABLE_SIZE + 3
    ensures BitOr(BitOr(BitOr(q * TABLE_SIZE, PAGE_PRESENT), PAGE_RW), PAGE_PS) == q * TABLE_SIZE + 131
  {
    TableBits();
    SmallOrs();
    AlignedLowBits(q);
    OrLow(q * TABLE_SIZE, 12, 0, 1);
    OrLow(q * TABLE_SIZE, 12, 1, 2);
    OrLow(q * TABLE_SIZE, 12, 3, 128);
  }

  // ----- The walk (Intel SDM Volume 3A, section 4.5) -----

  datatype Translation =
    | NotPresent
    | ReservedBit
    | OutsideTables
    | Page(physical: int, size: int, writable: bool, user: bool)

  /** Physical memory, as far as it holds tables: table address to its 512 entries. */
  type Tables = map<int, seq<nat>>

  function Bit(e: nat, weight: int): bool
    requires weight > 0
  {
    e / weight % 2 == 1
  }

  /** Bits 51 to 12 of an entry: the address of the next table. */
  function Next(e: nat): int {
    e / TABLE_SIZE * TABLE_SIZE % PHYSICAL
  }

  function Entry(tables: Tables, base: int, index: int): (e: nat)
    requires base in tables && 0 <= index < |tables[base]|
  {
    tables[base][index]
  }

  predicate Readable(tables: Tables, base: int) {
    base in tables && |tables[base]| == ENTRIES
  }

  function Walk(tables: Tables, cr3: int, va: nat): Translation
    requires va < VIRTUAL
  {
    if !Readable(tables, cr3) then OutsideTables
    else
      var e4 := Entry(tables, cr3, va / GB512);
      if !Bit(e4, PAGE_PRESENT) then NotPresent
      else if Bit(e4, PAGE_PS) then ReservedBit
      else if !Readable(tables, Next(e4)) then OutsideTables
      else
        var e3 := Entry(tables, Next(e4), va / GB1 % ENTRIES);
        var w3, u3 := Bit(e4, PAGE_RW) && Bit(e3, PAGE_RW), Bit(e4, 4) && Bit(e3, 4);
        if !Bit(e3, PAGE_PRESENT) then NotPresent
        else if Bit(e3, PAGE_PS) then
          if e3 / 0x2000 % (GB1 / 0x2000) != 0 then ReservedBit
          else Page(e3 / GB1 * GB1 % PHYSICAL + va % GB1, GB1, w3, u3)
        else if !Readable(tables, Next(e3)) then OutsideTables
        else
          var e2 := Entry(tables, Next(e3), va / MB2 % ENTRIES);
          var w2, u2 := w3 && Bit(e2, PAGE_RW), u3 && Bit(e2, 4);
          if !Bit(e2, PAGE_PRESENT) then NotPresent
          else if Bit(e2, PAGE_PS) then
            if e2 / 0x2000 % (MB2 / 0x2000) != 0 then ReservedBit
            else Page(e2 / MB2 * MB2 % PHYSICAL + va % MB2, MB2, w2, u2)
          else if !Readable(tables, Next(e2)) then OutsideTables
          else
            var e1 := Entry(tables, Next(e2), va / TABLE_SIZE % ENTRIES);
            if !Bit(e1, PAGE_PRESENT) then NotPresent
            else Page(Next(e1) + va % TABLE_SIZE, TABLE_SIZE, w2 && Bit(e1, PAGE_RW), u2 && Bit(e1, 4))
  }

  // ----- What paging_init leaves in the tables -----

  /** Where the linker placed the six tables. */
  datatype Layout = Layout(pml4: nat, pdpt: nat, pd: seq<nat>)

  function Places(l: Layout): seq<nat> {
    [l.pml4, l.pdpt] + l.pd
  }

  ghost predicate ValidLayout(l: Layout) {
    && |l.pd| == 4
    && (forall j :: 0 <= j < 6 ==> Places(l)[j] % TABLE_SIZE == 0 && Places(l)[j] < PHYSICAL)
    && (forall j, k :: 0 <= j < k < 6 ==> Places(l)[j] != Places(l)[k])
  }

  /** The first entries are as given, the others 0. */
  ghost predicate Holds(table: seq<nat>, first: seq<nat>) {
    && |table| == ENTRIES && |first| <= ENTRIES
    && (forall i :: 0 <= i < ENTRIES ==> table[i] == if i < |first| then first[i] else 0)
  }

  function LeafEntry(j: int, i: int): int {
    (j * ENTRIES + i) * MB2 + 131
  }

  ghost predicate MapsGigabyte(table: seq<nat>, j: int) {
    |table| == ENTRIES && forall i :: 0 <= i < ENTRIES ==> table[i] == LeafEntry(j, i)
  }

  ghost predicate Built(tables: Tables, l: Layout) {
    && |l.pd| == 4
    && l.pml4 in tables && Holds(tables[l.pml4], [l.pdpt + 3])
    && l.pdpt in tables && Holds(tables[l.pdpt], [l.pd[0] + 3, l.pd[1] + 3, l.pd[2] + 3, l.pd[3] + 3])
    && (forall j :: 0 <= j < 4 ==> l.pd[j] in tables && MapsGigabyte(tables[l.pd[j]], j))
  }

  lemma TablePointer(place: nat)
    requires place % TABLE_SIZE == 0 && place < PHYSICAL
    ensures Next(place + 3) == place
    ensures Bit(place + 3, PAGE_PRESENT) && Bit(place + 3, PAGE_RW) && !Bit(place + 3, PAGE_PS) && !Bit(place + 3, 4)
  {
    var q := place / TABLE_SIZE;
    assert place == q * TABLE_SIZE;
  }

  lemma LeafFlags(n: nat)
    ensures var e := n * MB2 + 131; Bit(e, PAGE_PRESENT) && Bit(e, PAGE_RW) && !Bit(e, 4)
  {
    var e := n * MB2 + 131;
    assert e / 2 == n * 0x10_0000 + 65;
    assert e / 4 == n * 0x8_0000 + 32;
  }

  lemma LeafSize(n: nat)
    ensures Bit(n * MB2 + 131, PAGE_PS)
  {
    OddQuotient(n * 0x2000);
  }

  lemma OddQuotient(m: nat)
    ensures (128 * (2 * m + 1) + 3) / 128 == 2 * m + 1 && (2 * m + 1) % 2 == 1
  {}

  lemma LeafReserved(n: nat)
    ensures (n * MB2 + 131) / 0x2000 % (MB2 / 0x2000) == 0
  {
    assert (n * MB2 + 131) / 0x2000 == n * 256;
    assert MB2 / 0x2000 == 256;
  }

  lemma LeafAddress(n: nat)
    requires n < 4 * ENTRIES
    ensures (n * MB2 + 131) / MB2 * MB2 % PHYSICAL == n * MB2
  {
    assert (n * MB2 + 131) / MB2 == n;
  }

  lemma Leaf(n: nat)
    requires n < 4 * ENTRIES
    ensures var e := n * MB2 + 131;
            && Bit(e, PAGE_PRESENT) && Bit(e, PAGE_RW) && Bit(e, PAGE_PS) && !Bit(e, 4)
            && e / 0x2000 % (MB2 / 0x2000) == 0
            && e / MB2 * MB2 % PHYSICAL == n * MB2
  {
    LeafFlags(n);
    LeafSize(n);
    LeafReserved(n);
    LeafAddress(n);
  }

  lemma Indices(va: nat)
    requires va < GB4
    ensures va / GB512 == 0
    ensures 0 <= va / GB1 % ENTRIES == va / GB1 < 4
    ensures va / GB1 * ENTRIES + va / MB2 % ENTRIES == va / MB2 < 4 * ENTRIES
    ensures va / MB2 * MB2 + va % MB2 == va
  {}

  /** The first two levels, for addresses of the first 512 GiB. */
  lemma UpperLevels(tables: Tables, l: Layout, va: nat)
    requires ValidLayout(l) && Built(tables, l) && va < GB512
    ensures Readable(tables, l.pml4) && Readable(tables, l.pdpt)
    ensures Entry(tables, l.pml4, va / GB512) == l.pdpt + 3
    ensures Entry(tables, l.pdpt, va / GB1 % ENTRIES) == if va < GB4 then l.pd[va / GB1] + 3 else 0
  {
    assert va / GB512 == 0;
    assert va / GB1 % ENTRIES == va / GB1;
    assert va < GB4 <==> va / GB1 < 4;
  }

  lemma LowerLevel(tables: Tables, l: Layout, va: nat)
    requires ValidLayout(l) && Built(tables, l) && va < GB4
    ensures 0 <= va / GB1 < 4 && Readable(tables, l.pd[va / GB1])
    ensures Entry(tables, l.pd[va / GB1], va / MB2 % ENTRIES) == va / MB2 * MB2 + 131
  {
    Indices(va);
    assert MapsGigabyte(tables[l.pd[va / GB1]], va / GB1);
  }

  /** Every address below 4 GiB is translated to itself, through a writable supervisor page of 2 MiB; every other
      48-bit address meets an entry that is not present. */
  lemma WalkIsIdentity(tables: Tables, l: Layout, va: nat)
    requires ValidLayout(l) && Built(tables, l) && va < 0x1_0000_0000_0000
    ensures Walk(tables, l.pml4, va) == if va < 0x1_0000_0000 then Page(va, 0x20_0000, true, false) else NotPresent
  {
    assert Places(l)[1] == l.pdpt;
    TablePointer(l.pdpt);
    if va < GB512 {
      UpperLevels(tables, l, va);
      if va < GB4 {
        Indices(va);
        var pd := l.pd[va / GB1];
        assert Places(l)[2 + va / GB1] == pd;
        TablePointer(pd);
        LowerLevel(tables, l, va);
        Leaf(va / MB2);
      }
    } else {
      assert Entry(tables, l.pml4, va / GB512) == 0;
    }
  }

  // ----- Building the tables -----

  /** The static tables of mem/paging.c and where they lie. */
  class PageTables {
    const layout: Layout
    const pml4: array<nat>
    const pdpt: array<nat>
    const pd0: array<nat>
    const pd1: array<nat>
    const pd2: array<nat>
    const pd3: array<nat>

    ghost predicate Valid() {
      && ValidLayout(layout)
      && pml4.Length == pdpt.Length == pd0.Length == pd1.Length == pd2.Length == pd3.Length == ENTRIES
      && pml4 != pdpt
      && pd0 !in {pml4, pdpt} && pd1 !in {pml4, pdpt, pd0} && pd2 !in {pml4, pdpt, pd0, pd1}
      && pd3 !in {pml4, pdpt, pd0, pd1, pd2}
    }

    constructor (layout: Layout)
      requires ValidLayout(layout)
      ensures Valid() && this.layout == layout
      ensures fresh(pml4) && fresh(pdpt) && fresh(pd0) && fresh(pd1) && fresh(pd2) && fresh(pd3)
    {
      this.layout := layout;
      pml4, pdpt := new nat[ENTRIES], new nat[ENTRIES];
      pd0, pd1 := new nat[ENTRIES], new nat[ENTRIES];
      pd2, pd3 := new nat[ENTRIES], new nat[ENTRIES];
    }

    /** The tables as the processor finds them in memory. */
    ghost function Memory(): Tables
      requires Valid()
      reads pml4, pdpt, pd0, pd1, pd2, pd3
    {
      map[layout.pml4 := pml4[..], layout.pdpt := pdpt[..], layout.pd[0] := pd0[..], layout.pd[1] := pd1[..],
          layout.pd[2] := pd2[..], layout.pd[3] := pd3[..]]
    }

    /** memset to zero. */
    method Clear(a: array<nat>)
      modifies a
      ensures forall i :: 0 <= i < a.Length ==> a[i] == 0
    {
      for i := 0 to a.Length
        invariant forall k :: 0 <= k < i ==> a[k] == 0
      {
        a[i] := 0;
      }
    }

    method TableEntry(place: nat) returns (e: nat)
      requires place % TABLE_SIZE == 0
      ensures e == place + 3
    {
      Flags(place / TABLE_SIZE);
      e := BitOr(BitOr(place, PAGE_PRESENT), PAGE_RW);
    }

    /** The inner loop: the j-th gigabyte in pages of 2 MiB. */
    method FillDirectory(pd: array<nat>, j: nat)
      requires pd.Length == ENTRIES && j < 4
      modifies pd
      ensures MapsGigabyte(pd[..], j)
    {
      for i := 0 to ENTRIES
        invariant forall k :: 0 <= k < i ==> pd[k] == LeafEntry(j, k)
      {
        var addr := (j * ENTRIES + i) * MB2;
        Flags((j * ENTRIES + i) * ENTRIES);
        pd[i] := BitOr(BitOr(BitOr(addr, PAGE_PRESENT), PAGE_RW), PAGE_PS);
      }
    }

    /** PML4 and PDPT: one entry, and four. */
    method LinkUpper()
      requires Valid()
      modifies pml4, pdpt
      ensures Holds(pml4[..], [layout.pdpt + 3])
      ensures Holds(pdpt[..], [layout.pd[0] + 3, layout.pd[1] + 3, layout.pd[2] + 3, layout.pd[3] + 3])
    {
      Aligned(layout);
      Clear(pml4);
      Clear(pdpt);
      pml4[0] := TableEntry(layout.pdpt);
      pdpt[0] := TableEntry(layout.pd[0]);
      pdpt[1] := TableEntry(layout.pd[1]);
      pdpt[2] := TableEntry(layout.pd[2]);
      pdpt[3] := TableEntry(layout.pd[3]);
    }

    /** The outer loop over the four page directories. */
    method FillDirectories()
      requires Valid()
      modifies pd0, pd1, pd2, pd3
      ensures MapsGigabyte(pd0[..], 0) && MapsGigabyte(pd1[..], 1)
      ensures MapsGigabyte(pd2[..], 2) && MapsGigabyte(pd3[..], 3)
    {
      Clear(pd0);
      Clear(pd1);
      Clear(pd2);
      Clear(pd3);
      for j := 0 to 4
        invariant j > 0 ==> MapsGigabyte(pd0[..], 0)
        invariant j > 1 ==> MapsGigabyte(pd1[..], 1)
        invariant j > 2 ==> MapsGigabyte(pd2[..], 2)
        invariant j > 3 ==> MapsGigabyte(pd3[..], 3)
      {
        var pd := if j == 0 then pd0 else if j == 1 then pd1 else if j == 2 then pd2 else pd3;
        FillDirectory(pd, j);
      }
    }

    /** After paging_init, every 48-bit address translates as an identity map of the first 4 GiB says. */
    method PagingInit()
      requires Valid()
      modifies pml4, pdpt, pd0, pd1, pd2, pd3
      ensures Built(Memory(), layout)
      ensures forall va: nat :: va < 0x1_0000_0000_0000 ==>
                Walk(Memory(), layout.pml4, va) ==
                if va < 0x1_0000_0000 then Page(va, 0x20_0000, true, false) else NotPresent
    {
      LinkUpper();
      FillDirectories();
      Aligned(layout);
      forall va: nat | va < VIRTUAL
        ensures Walk(Memory(), layout.pml4, va) == if va < GB4 then Page(va, MB2, true, false) else NotPresent
      {
        WalkIsIdentity(Memory(), layout, va);
      }
    }
  }

  lemma Aligned(l: Layout)
    requires ValidLayout(l)
    ensures l.pdpt % TABLE_SIZE == 0 && l.pdpt != l.pml4
    ensures forall j :: 0 <= j < 4 ==> l.pd[j] % TABLE_SIZE == 0 && l.pd[j] != l.pml4 && l.pd[j] != l.pdpt
    ensures forall j, k :: 0 <= j < k < 4 ==> l.pd[j] != l.pd[k]
  {
    var p := Places(l);
    assert p[0] == l.pml4 && p[1] == l.pdpt;
    forall j | 0 <= j < 4
      ensures l.pd[j] % TABLE_SIZE == 0 && l.pd[j] != l.pml4 && l.pd[j] != l.pdpt
    {
      assert p[j + 2] == l.pd[j];
    }
    forall j, k | 0 <= j < k < 4
      ensures l.pd[j] != l.pd[k]
    {
      assert p[j + 2] == l.pd[j] && p[k + 2] == l.pd[k];
    }
  }
}
