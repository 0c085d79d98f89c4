/** The three arrays of entries (arch/x86/x86/memory/paging.c), at the physical addresses the linker gives them. */
module Paging {
  import opened CTypes
  import opened Options
  import opened Bits
  import opened PageModel

  class PageTables {
    const pageDirectory: array<u32>
    const firstPageTable: array<u32>
    const heapPageTable: array<u32>
    /** Where the two tables stand. */
    const first: u32
    const heap: u32

    ghost predicate Sized() {
      && pageDirectory.Length == firstPageTable.Length == heapPageTable.Length == ENTRIES
      && pageDirectory != firstPageTable && firstPageTable != heapPageTable && pageDirectory != heapPageTable
      && first != heap && first % PAGE == 0 && heap % PAGE == 0
    }

    ghost function State(): Mmu
      reads pageDirectory, firstPageTable, heapPageTable
    {
      Mmu(pageDirectory[..], map[first := firstPageTable[..], heap := heapPageTable[..]])
    }

    ghost predicate Valid()
      reads pageDirectory, firstPageTable, heapPageTable
    {
      Sized() && Inv(State())
    }

    /** paging_init, on arrays that hold anything. */
    constructor (first: u32, heap: u32)
      requires first % PAGE == 0 && heap % PAGE == 0 && first != heap
      ensures Valid() && State() == Initial(first, heap)
      ensures fresh(pageDirectory) && fresh(firstPageTable) && fresh(heapPageTable)
    {
      this.first, this.heap := first, heap;
      pageDirectory := new u32[ENTRIES];
      firstPageTable := new u32[ENTRIES];
      heapPageTable := new u32[ENTRIES];
      new;
      FillFirst();
      FillHeap();
      FillDirectory();
      InitialInv(first, heap);
      assert pageDirectory[..] == Initial(first, heap).dir;
      assert firstPageTable[..] == Initial(first, heap).tables[first];
      assert heapPageTable[..] == Initial(first, heap).tables[heap];
    }

    method FillDirectory()
      requires Sized()
      modifies pageDirectory
      ensures forall i :: 0 <= i < ENTRIES ==> pageDirectory[i] == DirEntry(first, heap, i)
    {
      hide Or;
      ZeroDirectory();
      OrFlags(first);
      OrFlags(heap);
      assert Or(Or(Or(first, PRESENT), RW), USER) == UserEntry(first) && Or(Or(heap, PRESENT), RW) == KernelEntry(heap);
      pageDirectory[0] := Or(Or(Or(first, PRESENT), RW), USER);
      pageDirectory[0x300] := Or(Or(heap, PRESENT), RW);
    }

    method ZeroDirectory()
      requires Sized()
      modifies pageDirectory
      ensures forall i :: 0 <= i < ENTRIES ==> pageDirectory[i] == 0
    {
      var i: nat := 0;
      while i < ENTRIES
        invariant i <= ENTRIES && forall k :: 0 <= k < i ==> pageDirectory[k] == 0
      {
        pageDirectory[i] := 0;
        i := i + 1;
      }
    }

    method FillFirst()
      requires Sized()
      modifies firstPageTable
      ensures forall i :: 0 <= i < ENTRIES ==> firstPageTable[i] == FirstEntry(i)
    {
      hide Or;
      var i: nat := 0;
      while i < ENTRIES
        invariant i <= ENTRIES && forall k :: 0 <= k < i ==> firstPageTable[k] == FirstEntry(k)
      {
        OrFlags(i * 0x1000);
        firstPageTable[i] := Or(Or(Or(i * 0x1000, PRESENT), RW), USER);
        i := i + 1;
      }
    }

    method FillHeap()
      requires Sized()
      modifies heapPageTable
      ensures forall i :: 0 <= i < ENTRIES ==> heapPageTable[i] == HeapEntry(i)
    {
      hide Or, And;
      var i: nat := 0;
      while i < 256
        invariant i <= 256 && forall k :: 0 <= k < i ==> heapPageTable[k] == HeapEntry(k)
      {
        MaskIsBase(0x40_0000 + i * 0x1000);
        OrFlags(0x40_0000 + i * 0x1000);
        heapPageTable[i] := Or(Or(And(0x40_0000 + i * 0x1000, Not(0xFFF)), PRESENT), RW);
        i := i + 1;
      }
      while i < ENTRIES
        invariant 256 <= i <= ENTRIES && forall k :: 0 <= k < i ==> heapPageTable[k] == HeapEntry(k)
      {
        heapPageTable[i] := 0;
        i := i + 1;
      }
    }

    /** paging_map_page, where the directory entry is present. */
    method MapPage(virt: u32, phys: u32)
      requires Valid() && HasTable(State(), virt)
      modifies firstPageTable, heapPageTable
      ensures Valid() && State() == PageModel.MapPage(old(State()), virt, phys)
      ensures forall v: u32 :: Translate(State(), v) ==
                if v / PAGE == virt / PAGE then Some(Mapping(phys / PAGE, true, false)) else Translate(old(State()), v)
    {
      hide And, Or, Inv, Translate;
      forall v: u32
        ensures Translate(PageModel.MapPage(State(), virt, phys), v) ==
                if v / PAGE == virt / PAGE then Some(Mapping(phys / PAGE, true, false)) else Translate(State(), v)
      {
        MapPageIs(State(), virt, phys, v);
      }
      MapPageIs(State(), virt, phys, virt);
      MaskIsIndex(virt);
      var pdIdx := And(virt / 0x40_0000, 0x3FF);
      var ptIdx := And(virt / 0x1000, 0x3FF);
      var pde := pageDirectory[pdIdx];
      MaskIsBase(pde);
      MaskIsBase(phys);
      OrFlags(Base(phys));
      var entry: u32 := Or(Or(And(phys, Not(0xFFF)), PRESENT), RW);
      SetEntry(And(pde, Not(0xFFF)), ptIdx, entry);
    }

    /** The store through the table pointer. */
    method SetEntry(table: u32, i: nat, entry: u32)
      requires Sized() && i < ENTRIES && (table == first || table == heap)
      modifies firstPageTable, heapPageTable
      ensures State() == Store(old(State()), table, i, entry)
    {
      if table == first { firstPageTable[i] := entry; } else { heapPageTable[i] := entry; }
    }
  }
}
