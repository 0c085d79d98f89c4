/**
  The page tables (arch/x86/x86/memory/paging.c) as the processor reads them: two levels of 1024
  32-bit entries (Intel SDM Vol. 3A, section 4.3), and what mapping a page does to every address.
 */
module PageModel {
  import opened CTypes
  import opened Options
  import opened Bits

  const ENTRIES: nat := 1024
  const PAGE: nat := 4096

  /** The page directory, and the page tables by the physical address they stand at. */
  datatype Mmu = Mmu(dir: seq<u32>, tables: map<nat, seq<u32>>)

  ghost predicate Wf(m: Mmu) {
    |m.dir| == ENTRIES && forall a :: a in m.tables ==> |m.tables[a]| == ENTRIES
  }

  /** Where a page goes: its frame, and whether it may be written and reached from user mode. */
  datatype Mapping = Mapping(frame: nat, writable: bool, user: bool)

  // ---------------------------------------------------------------- the processor

  predicate Present(e: u32) { e % 2 == 1 }

  predicate Writable(e: u32) { e / 2 % 2 == 1 }

  predicate User(e: u32) { e / 4 % 2 == 1 }

  function Base(e: u32): u32 { e - e % PAGE }

  function DirIndex(virt: u32): (i: nat)
    ensures i < ENTRIES
  {
    virt / 0x40_0000
  }

  function TableIndex(virt: u32): (i: nat)
    ensures i < ENTRIES
  {
    virt / PAGE % ENTRIES
  }

  /** What a pair of entries says of a page. */
  function Entries(pde: u32, pte: u32): Option<Mapping> {
    if Present(pde) && Present(pte) then
      Some(Mapping(pte / PAGE, Writable(pde) && Writable(pte), User(pde) && User(pte)))
    else None
  }

  /** The walk of the two levels for an address. */
  function Translate(m: Mmu, virt: u32): Option<Mapping>
    requires |m.dir| == ENTRIES && forall a :: a in m.tables ==> |m.tables[a]| == ENTRIES
  {
    var pde := m.dir[DirIndex(virt)];
    if Present(pde) && Base(pde) in m.tables then Entries(pde, m.tables[Base(pde)][TableIndex(virt)]) else None
  }

  /** The physical address. */
  function Physical(m: Mmu, virt: u32): Option<nat>
    requires |m.dir| == ENTRIES && forall a :: a in m.tables ==> |m.tables[a]| == ENTRIES
  {
    match Translate(m, virt) case None => None case Some(p) => Some(p.frame * PAGE + virt % PAGE)
  }

  /** The two indices are the page number. */
  lemma SamePage(v: u32, w: u32)
    ensures v / PAGE == w / PAGE <==> DirIndex(v) == DirIndex(w) && TableIndex(v) == TableIndex(w)
  {
    Split(v);
    Split(w);
  }

  lemma Split(v: u32)
    ensures v / PAGE == DirIndex(v) * ENTRIES + TableIndex(v)
  {
    var (p, o) := (v / PAGE, v % PAGE);
    var (d, i) := (p / ENTRIES, p % ENTRIES);
    assert v == 0x40_0000 * d + (PAGE * i + o) && PAGE * i + o < 0x40_0000;
    assert v / 0x40_0000 == d;
  }

  // ---------------------------------------------------------------- the kernel's arithmetic

  const PRESENT: u32 := 1
  const RW: u32 := 2
  const USER: u32 := 4

  /** e & ~0xFFF is the page-aligned base of an entry. */
  lemma MaskIsBase(e: u32)
    ensures And(e, Not(0xFFF)) == Base(e)
  {
    hide And;
    Pow32();
    assert Pow2(12) == 0x1000 by { Pow12(); }
    AndHigh(e, 32, 12);
  }

  lemma Pow12()
    ensures Pow2(10) == 0x400 && Pow2(12) == 0x1000
  {
    assert Pow2(5) == 32;
    assert Pow2(10) == 0x400;
  }

  /** (virt >> 22) & 0x3FF and (virt >> 12) & 0x3FF. */
  lemma MaskIsIndex(virt: u32)
    ensures And(virt / 0x40_0000, 0x3FF) == DirIndex(virt) && And(virt / 0x1000, 0x3FF) == TableIndex(virt)
  {
    hide And;
    Pow12();
    AndLow(virt / 0x40_0000, 10);
    AndLow(virt / 0x1000, 10);
  }

  lemma OrStep(a: nat, x: nat, b: nat, y: nat)
    requires x < 2 && y < 2
    ensures Or(2 * a + x, 2 * b + y) == 2 * Or(a, b) + Max(x, y)
  {
    HalfOf(a, x);
    HalfOf(b, y);
  }

  lemma HalfOf(a: nat, f: nat)
    ensures (2 * a + f) / 2 == a + f / 2 && (2 * a + f) % 2 == f % 2
  {
  }

  /** base | PAGE_PRESENT | PAGE_RW, and with PAGE_USER, for a page-aligned base. */
  lemma OrFlags(base: u32)
    requires base % PAGE == 0
    ensures Or(Or(base, PRESENT), RW) == base + 3
    ensures Or(Or(Or(base, PRESENT), RW), USER) == base + 7
  {
    hide Or;
    var k := 512 * (base / PAGE);
    assert base == 8 * k;
    OrOne(k);
    OrTwo(k);
    OrFour(k);
  }

  lemma OrOne(k: nat)
    ensures Or(8 * k, 1) == 8 * k + 1
  {
    hide Or;
    OrStep(4 * k, 0, 0, 1);
    OrNone(4 * k);
  }

  lemma OrTwo(k: nat)
    ensures Or(8 * k + 1, 2) == 8 * k + 3
  {
    hide Or;
    OrStep(4 * k, 1, 1, 0);
    OrStep(2 * k, 0, 0, 1);
    OrNone(2 * k);
  }

  lemma OrFour(k: nat)
    ensures Or(8 * k + 3, 4) == 8 * k + 7
  {
    hide Or;
    OrStep(4 * k + 1, 1, 2, 0);
    OrStep(2 * k, 1, 1, 0);
    OrStep(k, 0, 0, 1);
    OrNone(k);
  }

  lemma OrNone(a: nat)
    ensures Or(a, 0) == a
  {
  }

  lemma EntryBits(base: u32, f: nat)
    requires base % PAGE == 0 && f < 8
    ensures base + f < TWO_32 && (base + f) % PAGE == f && (base + f) / PAGE == base / PAGE
    ensures (base + f) % 2 == f % 2 && (base + f) / 2 % 2 == f / 2 % 2 && (base + f) / 4 % 2 == f / 4 % 2
  {
    var q := base / PAGE;
    assert base == PAGE * q;
    HalfOf(2048 * q, f);
    HalfOf(1024 * q, f / 2);
    HalfOf(512 * q, f / 4);
  }

  /** An entry for a page-aligned address, without and with user access. */
  function KernelEntry(base: u32): (e: u32)
    requires base % PAGE == 0
    ensures Base(e) == base && Present(e) && Writable(e) && !User(e)
    ensures e / PAGE == base / PAGE
  {
    EntryBits(base, 3);
    base + 3
  }

  function UserEntry(base: u32): (e: u32)
    requires base % PAGE == 0
    ensures Base(e) == base && Present(e) && Writable(e) && User(e)
    ensures e / PAGE == base / PAGE
  {
    EntryBits(base, 7);
    base + 7
  }

  // ---------------------------------------------------------------- the tables at the start

  function FirstEntry(i: nat): u32
    requires i < ENTRIES
  {
    UserEntry(i * PAGE)
  }

  function HeapEntry(i: nat): u32
    requires i < ENTRIES
  {
    if i < 256 then KernelEntry(0x40_0000 + i * PAGE) else 0
  }

  function DirEntry(first: u32, heap: u32, i: nat): u32
    requires first % PAGE == 0 && heap % PAGE == 0
  {
    if i == 0 then UserEntry(first) else if i == 0x300 then KernelEntry(heap) else 0
  }

  /** After paging_init, with the two tables at the physical addresses first and heap. */
  function Initial(first: u32, heap: u32): (m: Mmu)
    requires first % PAGE == 0 && heap % PAGE == 0
    ensures Wf(m)
  {
    Mmu(seq(ENTRIES, i requires 0 <= i < ENTRIES => DirEntry(first, heap, i)),
        map[first := seq(ENTRIES, i requires 0 <= i < ENTRIES => FirstEntry(i)),
            heap := seq(ENTRIES, i requires 0 <= i < ENTRIES => HeapEntry(i))])
  }

  /** Addresses below 4 MB are their own physical addresses and open to user mode, 0xC0000000 + k
      is 4 MB + k for k below 1 MB, for the kernel only, and nothing else is mapped. */
  lemma InitialIs(first: u32, heap: u32, virt: u32)
    requires first % PAGE == 0 && heap % PAGE == 0 && first != heap
    ensures var m := Initial(first, heap);
            if virt < 0x40_0000 then
              Translate(m, virt) == Some(Mapping(virt / PAGE, true, true)) && Physical(m, virt) == Some(virt)
            else if 0xC000_0000 <= virt < 0xC010_0000 then
              && Translate(m, virt) == Some(Mapping((virt - 0xC000_0000 + 0x40_0000) / PAGE, true, false))
              && Physical(m, virt) == Some(virt - 0xC000_0000 + 0x40_0000)
            else Translate(m, virt) == None && Physical(m, virt) == None
  {
    var (d, i) := (DirIndex(virt), TableIndex(virt));
    assert virt / PAGE == d * ENTRIES + i;
    var m := Initial(first, heap);
    assert d == 0 ==> m.tables[first][i] == FirstEntry(i);
    assert d == 0x300 ==> m.tables[heap][i] == HeapEntry(i);
    assert !Present(0);
  }

  // ---------------------------------------------------------------- mapping a page

  /** Every present directory entry leads to a table of its own, for writing. */
  ghost predicate Inv(m: Mmu) {
    && Wf(m)
    && (forall d :: 0 <= d < ENTRIES && Present(m.dir[d]) ==> Base(m.dir[d]) in m.tables && Writable(m.dir[d]))
    && (forall d, e :: 0 <= d < e < ENTRIES && Present(m.dir[d]) && Present(m.dir[e]) ==>
          Base(m.dir[d]) != Base(m.dir[e]))
  }

  lemma InitialInv(first: u32, heap: u32)
    requires first % PAGE == 0 && heap % PAGE == 0 && first != heap
    ensures Inv(Initial(first, heap))
  {
    assert !Present(0);
  }

  predicate HasTable(m: Mmu, virt: u32)
    requires |m.dir| == ENTRIES
  {
    Present(m.dir[DirIndex(virt)]) && Base(m.dir[DirIndex(virt)]) in m.tables
  }

  /** Entry i of the table at an address, overwritten. */
  function Store(m: Mmu, table: u32, i: nat, entry: u32): Mmu
    requires table in m.tables && i < |m.tables[table]|
  {
    var t: seq<u32> := m.tables[table][i := entry];
    m.(tables := m.tables[table := t])
  }

  /** paging_map_page on a page whose directory entry is present. */
  function MapPage(m: Mmu, virt: u32, phys: u32): Mmu
    requires |m.dir| == ENTRIES && (forall a :: a in m.tables ==> |m.tables[a]| == ENTRIES) && HasTable(m, virt)
  {
    Store(m, Base(m.dir[DirIndex(virt)]), TableIndex(virt), KernelEntry(Base(phys)))
  }

  /** It maps that page to that frame, for the kernel, and leaves every other page as it was. */
  lemma MapPageIs(m: Mmu, virt: u32, phys: u32, v: u32)
    requires Inv(m) && HasTable(m, virt)
    ensures Inv(MapPage(m, virt, phys)) && MapPage(m, virt, phys).dir == m.dir
    ensures Translate(MapPage(m, virt, phys), v) ==
            if v / PAGE == virt / PAGE then Some(Mapping(phys / PAGE, true, false)) else Translate(m, v)
  {
    SamePage(v, virt);
    assert Base(phys) / PAGE == phys / PAGE;
  }

  datatype Request = Request(virt: u32, phys: u32)

  /** A sequence of mappings, the last one last. */
  ghost function MapAll(m: Mmu, rs: seq<Request>): (r: Mmu)
    requires Inv(m) && forall i :: 0 <= i < |rs| ==> HasTable(m, rs[i].virt)
    ensures Inv(r) && r.dir == m.dir && r.tables.Keys == m.tables.Keys
  {
    if rs == [] then m
    else
      var (init, last) := (rs[..|rs| - 1], rs[|rs| - 1]);
      assert HasTable(m, last.virt);
      MapPageIs(MapAll(m, init), last.virt, last.phys, last.virt);
      MapPage(MapAll(m, init), last.virt, last.phys)
  }

  /** The mapping the last request for a page asks for. */
  function LastFor(rs: seq<Request>, page: nat): Option<Mapping> {
    if rs == [] then None
    else if rs[|rs| - 1].virt / PAGE == page then Some(Mapping(rs[|rs| - 1].phys / PAGE, true, false))
    else LastFor(rs[..|rs| - 1], page)
  }

  /** Any sequence of mappings is the update of one map from pages to frames: a page goes where
      the last request for it says, and where it went before if there is none. */
  lemma {:induction false} MapAllIs(m: Mmu, rs: seq<Request>, v: u32)
    requires Inv(m) && forall i :: 0 <= i < |rs| ==> HasTable(m, rs[i].virt)
    ensures Translate(MapAll(m, rs), v) ==
        match LastFor(rs, v / PAGE) case None => Translate(m, v) case Some(p) => Some(p)
  {
    hide Translate, Inv, MapPage;
    if rs != [] {
      var (init, last) := (rs[..|rs| - 1], rs[|rs| - 1]);
      MapAllIs(m, init, v);
      MapPageIs(MapAll(m, init), last.virt, last.phys, v);
    }
  }

  /** A table the kernel would make at an address that is not page-aligned could not be found
      again: the entry made for it leads back to it exactly when it is aligned. */
  lemma NewTableIff(table: u32)
    requires table + 4096 <= TWO_32
    ensures And(Or(Or(table, PRESENT), RW), Not(0xFFF)) == table <==> table % PAGE == 0
  {
    hide And, Or;
    if table % PAGE == 0 {
      OrFlags(table);
      EntryBits(table, 3);
      MaskIsBase(table + 3);
    } else {
      Pow32();
      OrBelow(table, PRESENT, 32);
      OrBelow(Or(table, PRESENT), RW, 32);
      MaskIsBase(Or(Or(table, PRESENT), RW));
    }
  }

  /** The first pointer kmalloc returns is such an address. */
  lemma NewTableExample()
    ensures And(Or(Or(0xC000_000C, PRESENT), RW), Not(0xFFF)) != 0xC000_000C
  {
    hide And, Or;
    NewTableIff(0xC000_000C);
  }
}
