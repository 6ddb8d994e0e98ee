/** kernel/k_init.c: from the boot tables and the memory map of the boot loader to a running heap. */
module KernelInit {
  import opened Words
  import opened Paging
  import opened PageSearch
  import opened PhysicalPages
  import opened Backing
  import opened VirtualMemory
  import opened HeapBreak
  import opened KernelHeap
  import opened BootTables

  const MULTIBOOT_MEMORY_AVAILABLE: nat := 1
  const VGA_BUFFER_VADDR: Word := 0xB000_0000
  const VGA_BUFFER_PADDR: Word := 0xB_8000
  const VGA_PAGE: nat := 0xB8
  const K_STACK_PAGES: nat := 16

  /** multiboot_memory_map_t. setup_memory reads neither of the high halves. */
  datatype MmapEntry = MmapEntry(addrLow: Word, addrHigh: Word, lenLow: Word, lenHigh: Word, kind: nat) {
    function FirstPage(): nat {
      Wrap(addrLow + 0xFFF) / 4096
    }

    function PageCount(): nat {
      lenLow / 4096
    }

    predicate Available() {
      kind == MULTIBOOT_MEMORY_AVAILABLE
    }

    /** How many pages are freed for the entry if it is available. */
    function FreedCount(): nat {
      Effective(FirstPage(), PageCount())
    }

    /** The page lies inside the bytes that the entry describes. */
    predicate Contains(p: nat) {
      var base := addrHigh * 0x1_0000_0000 + addrLow;
      base <= 4096 * p && 4096 * (p + 1) <= base + lenHigh * 0x1_0000_0000 + lenLow
    }

    /** The entry begins below 4 GiB, with a page to follow, and rounding its base up does not push the pages freed for
        it past its end. */
    predicate Honoured() {
      addrHigh == 0 && addrLow <= 0xFFFF_F000 &&
      (lenHigh > 0 || FreedCount() < PageCount() || 4096 * FirstPage() - addrLow <= lenLow % 4096)
    }

    /** Marking the entry stays inside the bitmap. */
    predicate Fits() {
      Available() ==> InBounds(FirstPage(), PageCount())
    }
  }

  /** The pages the first pass frees. */
  ghost function Reported(entries: seq<MmapEntry>): set<nat> {
    if entries == [] then {}
    else
      var last := entries[|entries| - 1]; var before := Reported(entries[..|entries| - 1]);
      if last.Available() then before + Pages(last.FirstPage(), last.FreedCount()) else before
  }

  /** A page is freed exactly when it is one of the pages an available entry has freed: the whole interval that the
      code computes for it, unless that has at most 8 pages and straddles a group of the bitmap (ChunkIsWhole). */
  lemma {:induction false} ReportedPages(entries: seq<MmapEntry>, p: nat)
    ensures p in Reported(entries) <==>
      exists e :: e in entries && e.Available() && e.FirstPage() <= p < e.FirstPage() + e.FreedCount()
  {
    if entries != [] {
      var last, before := entries[|entries| - 1], entries[..|entries| - 1];
      assert entries == before + [last];
      ReportedPages(before, p);
    }
  }

  /** Exactly when the pages freed for an entry lie inside it. The base is rounded up and the length down, each on its
      own, so that the last page may stick out; and the high half of the base is dropped, so that an entry above 4 GiB
      frees pages below. */
  lemma EntryIsHonoured(e: MmapEntry)
    requires e.PageCount() > 0
    ensures (forall p: nat | e.FirstPage() <= p < e.FirstPage() + e.FreedCount() :: e.Contains(p)) <==> e.Honoured()
  {
    FreedSpan(e);
    var first, last := e.FirstPage(), e.FirstPage() + e.FreedCount() - 1;
    if !e.Honoured() {
      assert !e.Contains(first) || !e.Contains(last);
    }
  }

  lemma FreedSpan(e: MmapEntry)
    requires e.PageCount() > 0
    ensures 1 <= e.FreedCount() <= e.PageCount() && e.lenLow == 4096 * e.PageCount() + e.lenLow % 4096
    ensures if e.addrLow <= 0xFFFF_F000 then e.addrLow <= 4096 * e.FirstPage() < e.addrLow + 4096
            else e.FirstPage() == 0
    ensures e.FirstPage() < 0x10_0000
  {
  }

  /** The pages left to the allocator: reported, not below the end of the kernel, not the VGA page. */
  ghost function Usable(entries: seq<MmapEntry>, end: nat): set<nat> {
    Reported(entries) - Pages(0, end) - {VGA_PAGE}
  }

  /** What pmm_alloc_page may return after setup_memory: the pages at or above the end of the kernel, the VGA page
      excepted, that an entry of type 1 frees. These are as many as its length has, from its base rounded up on; but if
      they are 8 or fewer, and not all in one group of the bitmap, only those of the first group. */
  lemma UsablePages(entries: seq<MmapEntry>, end: nat, p: nat)
    ensures p in Usable(entries, end) <==>
      end <= p && p != 0xB8 &&
      exists e ::
        e in entries && e.kind == 1 &&
        (var first, count := (e.addrLow + 0xFFF) % 0x1_0000_0000 / 4096, e.lenLow / 4096;
         first <= p < first + count && (count > 8 || first % 8 + count <= 8 || p / 8 == first / 8))
  {
    ReportedPages(entries, p);
    forall e | e in entries
      ensures e.FirstPage() <= p < e.FirstPage() + e.FreedCount() <==>
        var first, count := (e.addrLow + 0xFFF) % 0x1_0000_0000 / 4096, e.lenLow / 4096;
        first <= p < first + count && (count > 8 || first % 8 + count <= 8 || p / 8 == first / 8)
    {
    }
  }

  /** They lie inside an available entry if all entries are honoured. */
  lemma UsableIsAvailable(entries: seq<MmapEntry>, end: nat, p: nat)
    requires p in Usable(entries, end)
    requires forall e | e in entries && e.Available() && e.PageCount() > 0 :: e.Honoured()
    ensures exists e ::
      e in entries && e.kind == 1 &&
      (var base := e.addrHigh * 0x1_0000_0000 + e.addrLow;
       base <= 4096 * p && 4096 * p + 4096 <= base + e.lenHigh * 0x1_0000_0000 + e.lenLow)
  {
    ReportedPages(entries, p);
    var e :| e in entries && e.Available() && e.FirstPage() <= p < e.FirstPage() + e.FreedCount();
    EntryIsHonoured(e);
    assert e.Contains(p);
  }

  /** 256 KiB from 0x3C0000 on: pages 960 to 1023 if they are available, none if they are reserved. */
  lemma ReservedEntryExample(p: nat)
    ensures p in Usable([MmapEntry(0x3C_0000, 0, 0x4_0000, 0, 1)], 0) <==> 960 <= p < 1024
    ensures p !in Usable([MmapEntry(0x3C_0000, 0, 0x4_0000, 0, 2)], 0)
  {
    var free, reserved := MmapEntry(0x3C_0000, 0, 0x4_0000, 0, 1), MmapEntry(0x3C_0000, 0, 0x4_0000, 0, 2);
    hide Usable;
    UsablePages([free], 0, p);
    UsablePages([reserved], 0, p);
    assert free in [free];
    assert (0x3C_0000 + 0xFFF) % 0x1_0000_0000 / 4096 == 960 && 0x4_0000 / 4096 == 64;
  }

  /** An entry from 0x800 to 0x1800 frees page 1, which ends at 0x2000. */
  lemma PageSticksOutExample()
    ensures var e := MmapEntry(0x800, 0, 0x1000, 0, 1); e.Fits() && 1 in Usable([e], 0) && !e.Contains(1)
  {
    var e := MmapEntry(0x800, 0, 0x1000, 0, 1);
    ReportedPages([e], 1);
    assert e in [e];
  }

  /** An entry of 4 KiB, 1 MiB above 4 GiB, frees page 256, below 2 MiB. */
  lemma HighEntryExample()
    ensures var e := MmapEntry(0x10_0000, 1, 0x1000, 0, 1); e.Fits() && 256 in Usable([e], 0) && !e.Contains(256)
  {
    var e := MmapEntry(0x10_0000, 1, 0x1000, 0, 1);
    ReportedPages([e], 256);
    assert e in [e];
  }

  /** vmm_map_page for the VGA buffer: only its table may take a frame. */
  ghost function MapVga(a: Account): Account
  {
    if Take(a.pool) == None then a.(pool := After(a.pool))
    else
      var v := VGA_BUFFER_VADDR / 4096;
      Account(a.tables + {v / 1024}, After(a.pool), a.mapped + {v})
  }

  /** setup_memory: builds the set of free pages from the memory map, and maps the VGA buffer unless no page is found
      for its table. */
  method SetupMemory(vmm: Vmm, entries: seq<MmapEntry>, kernelEnd: Word)
    requires vmm.Valid() && vmm.pmm.free == {}
    requires HIGHER_HLF_BASE <= kernelEnd && forall e | e in entries :: e.Fits()
    requires forall f: nat | (kernelEnd - HIGHER_HLF_BASE) / 4096 <= f :: NoRole(vmm.ram, vmm.pd, f)
    requires vmm.ram[vmm.pd][L1Index(VGA_BUFFER_VADDR)] == 0
    modifies vmm`ram, vmm`managed, vmm.pmm`lookup, vmm.pmm`free, vmm.pmm.bits
    ensures vmm.Valid()
    ensures vmm.managed == Usable(entries, (kernelEnd - HIGHER_HLF_BASE) / 4096) && vmm.pmm.free <= vmm.managed
    ensures var pool := Pool(vmm.managed, old(vmm.pmm.lookup), old(vmm.pmm.maxPg));
      vmm.Budget() == MapVga(old(vmm.Budget()).(pool := pool)) &&
      vmm.View() == if Take(pool) == None then old(vmm.View())
                    else old(vmm.View())[VGA_BUFFER_VADDR / 4096 := NewEntry(PG_PREM_RW, VGA_BUFFER_PADDR)]
  {
    hide Owned, Mappings, Take, After, OnlyTablesChanged, Effective, Pages, NoRole, Tables, SelfMapped, Tabled;
    var pmm: Bitmap := vmm.pmm;
    ghost var ram := vmm.ram;
    assert pmm.Valid();
    assert L1Index(VGA_BUFFER_VADDR) == VGA_BUFFER_VADDR / 4096 / 1024;
    OwnedHasTables(vmm.ram, vmm.pd, vmm.managed, pmm.free);
    for i := 0 to |entries|
      modifies pmm`free, pmm.bits
      invariant pmm.Valid() && pmm.free == Reported(entries[..i])
    {
      assert entries[..i + 1][..i] == entries[..i];
      assert entries[i] in entries;
      if entries[i].Available() {
        pmm.MarkChunkFree(entries[i].FirstPage(), entries[i].PageCount());
      }
    }
    assert entries[..|entries|] == entries;
    var pgCount := (kernelEnd - HIGHER_HLF_BASE) / 4096;
    KernelFits(pgCount);
    pmm.MarkChunkOccupied(0, pgCount);
    VgaFits();
    pmm.MarkChunkOccupied(VGA_PAGE, 1);
    vmm.managed := pmm.free;
    UsableAreAbove(entries, pgCount);
    assert pmm.free == Usable(entries, pgCount);
    FreshPool(ram, vmm.pd, pgCount, pmm.free);
    HoleInAbsentTable(vmm.ram, vmm.pd, VGA_BUFFER_VADDR / 4096);
    HoleIsClear(vmm.ram, vmm.pd, VGA_BUFFER_VADDR / 4096, VGA_BUFFER_VADDR / 4096);
    var r := vmm.MapPage(VGA_BUFFER_VADDR, VGA_BUFFER_PADDR, PG_PREM_RW, VGA_BUFFER_VADDR / 4096);
  }

  lemma KernelFits(n: nat)
    requires n < 0x4_0000
    ensures InBounds(0, n) && Effective(0, n) == n
  {
  }

  lemma VgaFits()
    ensures InBounds(VGA_PAGE, 1) && Effective(VGA_PAGE, 1) == 1 && Pages(VGA_PAGE, 1) == {VGA_PAGE}
  {
  }

  lemma UsableAreAbove(entries: seq<MmapEntry>, end: nat)
    ensures forall f | f in Usable(entries, end) :: end <= f
  {
  }

  /** Tables without roles above `end`, nothing managed yet: any set of frames there may become the pool. */
  lemma FreshPool(ram: Ram, pd: nat, end: nat, pool: set<nat>)
    requires pd < FRAMES && Tables(ram, pd) && forall f: nat | end <= f :: NoRole(ram, pd, f)
    requires forall f | f in pool :: end <= f
    ensures Owned(ram, pd, pool, pool)
  {
    forall f | f in pool
      ensures NoRole(ram, pd, f)
    {
    }
  }

  lemma HoleInAbsentTable(ram: Ram, pd: nat, v: nat)
    requires pd < FRAMES && v < VPAGES && ram[pd][v / 1024] == 0
    ensures LeastHole(Mappings(ram, pd), v, v)
  {
  }

  /** What kalloc_init makes of the account: the first page, and the break moved by HEAP_INIT_SIZE. */
  ghost function WithHeap(a: Account, start: Word, maxAddr: Word): Account
    requires start + WSIZE < 0x1_0000_0000
  {
    if CanBack(a, start / 4096) then Spent(WithPage(a, start / 4096), start + WSIZE, HEAP_INIT_SIZE / 4, maxAddr)
    else BackOrPass(a, start / 4096)
  }

  /** setup_kernel_runtime: the pages of the kernel stack, then the heap. A stack page that cannot be backed is
      passed over. */
  method SetupKernelRuntime(heap: Heap) returns (ok: bool)
    requires heap.ctx.vmm.Valid() && 0 < heap.ctx.start && heap.ctx.start % 4096 == 0
    requires heap.ctx.start + 8 < heap.ctx.maxAddr <= K_STACK_START && heap.ctx.start / 4096 !in heap.ctx.vmm.View()
    requires forall v | K_STACK_START / 4096 <= v < K_STACK_START / 4096 + K_STACK_PAGES :: v !in heap.ctx.vmm.View()
    modifies heap`words, heap`blocks, heap.ctx`brk, heap.ctx.vmm`ram, heap.ctx.vmm`managed
    modifies heap.ctx.vmm.pmm`lookup, heap.ctx.vmm.pmm`free, heap.ctx.vmm.pmm.bits
    ensures heap.ctx.vmm.Valid()
    ensures heap.ctx.vmm.managed == old(heap.ctx.vmm.managed)
    ensures var a := BackOrPassAll(old(heap.ctx.vmm.Budget()), K_STACK_START / 4096, K_STACK_PAGES);
      (ok <==> HeapComesUp(a, heap.ctx.start, heap.ctx.maxAddr)) &&
      heap.ctx.vmm.Budget() == WithHeap(a, heap.ctx.start, heap.ctx.maxAddr)
    ensures ok ==> heap.Valid() && heap.Contents() == map[]
    ensures forall v | v in old(heap.ctx.vmm.View()) ::
      v in heap.ctx.vmm.View() && heap.ctx.vmm.View()[v] == old(heap.ctx.vmm.View())[v]
  {
    hide Owned, Mappings, OnlyTablesChanged, Bitmap.Valid, BackOrPass, HeapComesUp, CanBack, WithPage, Spent, Tabled;
    var vmm := heap.ctx.vmm;
    for i := 0 to K_STACK_PAGES
      invariant vmm.Valid() && heap.ctx.start / 4096 !in vmm.View() && vmm.managed == old(vmm.managed)
      invariant vmm.Budget() == BackOrPassAll(old(vmm.Budget()), K_STACK_START / 4096, i)
      invariant forall v | v in old(vmm.View()) :: v in vmm.View() && vmm.View()[v] == old(vmm.View())[v]
      invariant forall v | K_STACK_START / 4096 + i <= v < K_STACK_START / 4096 + K_STACK_PAGES :: v !in vmm.View()
    {
      ghost var v := K_STACK_START / 4096 + i;
      Div4096(v, 0);
      assert LeastHole(vmm.View(), v, v);
      var r := vmm.AllocPage(K_STACK_START + i * 4096, PG_PREM_RW, v);
    }
    ok := heap.KallocInit();
  }

  /** Memory with the six frames of the buffer at frame pd. */
  function LoadBuffer(ram: Ram, pd: nat, kpg: seq<Word>): Ram
    requires pd + 6 <= FRAMES && |kpg| == KPG_WORDS
  {
    ram[pd := kpg[0..1024]][pd + 1 := kpg[1024..2048]][pd + 2 := kpg[2048..3072]]
       [pd + 3 := kpg[3072..4096]][pd + 4 := kpg[4096..5120]][pd + 5 := kpg[5120..6144]]
  }

  lemma LoadBufferWord(ram: Ram, pd: nat, kpg: seq<Word>, t: nat, j: nat)
    requires pd + 6 <= FRAMES && |kpg| == KPG_WORDS && t < 6 && j < 1024
    ensures TableWord(LoadBuffer(ram, pd, kpg), pd, t, j) == kpg[1024 * t + j]
  {
  }

  /** _hhk_init on memory: the buffer is the six frames at ptd. */
  method BootRam(im: Image, ram: Ram) returns (loaded: Ram)
    requires im.Fits()
    ensures Loaded(loaded, im)
  {
    var kpg := new Word[KPG_WORDS](_ => 0);
    HhkInit(kpg, im);
    loaded := LoadBuffer(ram, im.Pd(), kpg[..]);
    forall t: nat, j: nat | t < 6 && j < 1024
      ensures TableWord(loaded, im.Pd(), t, j) == BootWord(im, 1024 * t + j)
    {
      LoadBufferWord(ram, im.Pd(), kpg[..], t, j);
    }
  }

  /** An image that ends, with its heap to follow, below 12 MiB of the higher half. */
  ghost predicate Bootable(im: Image) {
    im.Fits() && im.kernelEnd % 4096 == 0 && im.kernelEnd < 0xC0C0_0000 && EndsAt(im, im.EndPage())
  }

  lemma BootableMeans(im: Image)
    ensures Bootable(im) <==>
      im.Fits() && im.kernelEnd % 4096 == 0 && im.kernelEnd < 0xC0C0_0000 &&
      im.hhkEnd <= im.kernelEnd - 0xC000_0000 && im.ptd + 6 * 4096 <= im.kernelEnd - 0xC000_0000
  {
    if im.Fits() && im.kernelEnd % 4096 == 0 {
      PageCounts(im);
      var n := (im.kernelEnd - HIGHER_HLF_BASE) / 4096;
      assert im.kernelEnd == HIGHER_HLF_BASE + 4096 * n;
      assert im.hhkEnd <= 4096 * n <==> (im.hhkEnd + 4095) / 4096 <= n;
      assert im.ptd == 4096 * im.Pd();
    }
  }

  lemma BootIsReady(ram: Ram, im: Image)
    requires Bootable(im) && Loaded(ram, im)
    ensures Owned(ram, im.Pd(), {}, {}) && forall f: nat | im.EndPage() <= f :: NoRole(ram, im.Pd(), f)
    ensures ram[im.Pd()][L1Index(VGA_BUFFER_VADDR)] == 0
    ensures im.kernelEnd / 4096 !in Mappings(ram, im.Pd())
    ensures forall v: nat | K_STACK_START / 4096 <= v < VPAGES :: v !in Mappings(ram, im.Pd())
  {
    BootOwned(ram, im, im.EndPage(), {});
    BootDirectory(ram, im, L1Index(VGA_BUFFER_VADDR));
    EndIsUnmapped(im);
    forall v: nat | v == im.kernelEnd / 4096 || K_STACK_START / 4096 <= v < VPAGES
      ensures v < VPAGES ==> v !in Mappings(ram, im.Pd())
    {
      if v < VPAGES {
        BootTranslation(ram, im, v);
      }
    }
  }

  lemma EndIsUnmapped(im: Image)
    requires Bootable(im)
    ensures forall v: nat | v < VPAGES && (v == im.kernelEnd / 4096 || K_STACK_START / 4096 <= v) :: BootPte(im, v) == 0
  {
    KernelEndsAtEnd(im);
    hide NewEntry, Image.KernelPde, Image.KernelPte, Image.HhkPages, Image.KernelPages, Image.KernelPage;
  }

  lemma KernelEndsAtEnd(im: Image)
    requires Bootable(im)
    ensures im.KernelPage() + im.KernelPages() == im.kernelEnd / 4096 && 256 + im.HhkPages() <= 1024
    ensures 0xC_0000 <= im.kernelEnd / 4096 < 0xC_0C00
  {
    var q, p := im.kernelStart / 4096, im.kernelEnd / 4096;
    assert im.kernelEnd - im.kernelStart + 0xFFF == 4096 * (p - q) + 0xFFF;
    Div4096(p - q, 0xFFF);
  }

  lemma BootMappings(ram: Ram, im: Image)
    requires im.Fits() && Loaded(ram, im)
    ensures forall v: nat | v < VPAGES && BootPte(im, v) != 0 ::
      v in Mappings(ram, im.Pd()) && Mappings(ram, im.Pd())[v] == BootPte(im, v) && v != VGA_BUFFER_VADDR / 4096
  {
    KernelIndices(im);
    forall v: nat | v < VPAGES
      ensures Pte(ram, im.Pd(), v) == BootPte(im, v)
    {
      BootTranslation(ram, im, v);
    }
    hide Image.KernelPage, Image.KernelPages, Image.HhkPages, NewEntry, Pte;
  }

  /** The slots of the boot directory that have a table, and the pages that the boot tables map. */
  ghost function BootAccount(im: Image, pool: Pool): Account
    requires im.Fits()
  {
    var kpde := im.KernelPde();
    Account({0, kpde, kpde + 1, kpde + 2}, pool, set v: nat | v < VPAGES && BootPte(im, v) != 0)
  }

  lemma BootBudget(ram: Ram, im: Image, pool: Pool)
    requires im.Fits() && Loaded(ram, im)
    ensures Account(Tabled(ram, im.Pd()), pool, Mappings(ram, im.Pd()).Keys) == BootAccount(im, pool)
  {
    KernelIndices(im);
    forall i: nat | i < WINDOW
      ensures i in Tabled(ram, im.Pd()) <==> i in BootAccount(im, pool).tables
    {
      BootDirectory(ram, im, i);
    }
    forall v: nat | v < VPAGES
      ensures Pte(ram, im.Pd(), v) == BootPte(im, v)
    {
      BootTranslation(ram, im, v);
    }
    hide Image.KernelPage, Image.KernelPages, Image.HhkPages, Image.KernelPde, NewEntry, Pte, BootPte;
    assert Tabled(ram, im.Pd()) == BootAccount(im, pool).tables;
    assert Mappings(ram, im.Pd()).Keys == BootAccount(im, pool).mapped;
  }

  /** What pmm_init makes of the field mem_upper. */
  function MaxPage(memUpper: Word): nat {
    Wrap(MEM_1MB + Wrap(memUpper * 1024)) / 4096
  }

  /** The account before the heap: the VGA buffer is mapped if a page for its table is found, and the stack pages are
      backed that can be. */
  ghost function BeforeHeap(im: Image, memUpper: Word, entries: seq<MmapEntry>): Account
    requires Bootable(im)
  {
    var pool := Pool(Usable(entries, im.EndPage()), LOOKUP_START, MaxPage(memUpper));
    BackOrPassAll(MapVga(BootAccount(im, pool)), K_STACK_START / 4096, K_STACK_PAGES)
  }

  /** Exactly when the kernel comes up: the heap still finds its frames. */
  ghost predicate ComesUp(im: Image, memUpper: Word, entries: seq<MmapEntry>)
    requires Bootable(im)
  {
    HeapComesUp(BeforeHeap(im, memUpper, entries), im.kernelEnd, K_STACK_START)
  }

  /** mem_upper counts KiB from 1 MiB on; from 4 GiB on the sum wraps around. */
  lemma MaxPageMeans(memUpper: Word)
    ensures memUpper < 0x3F_FC00 ==> MaxPage(memUpper) == 256 + memUpper / 4
    ensures memUpper == 0x3F_FC00 ==> MaxPage(memUpper) == 0
  {
  }

  /** Two usable pages are the least that the kernel needs. */
  lemma FewPages(im: Image, memUpper: Word, entries: seq<MmapEntry>)
    requires Bootable(im) && ComesUp(im, memUpper, entries)
    ensures exists p, q :: p in Usable(entries, im.EndPage()) && q in Usable(entries, im.EndPage()) && p != q
  {
    hide Usable, MaxPage, MapVga, BackOrPassAll, CanBackAll, BootPte;
    var pool := Pool(Usable(entries, im.EndPage()), LOOKUP_START, MaxPage(memUpper));
    var a := MapVga(BootAccount(im, pool));
    var b := BackOrPassAll(a, K_STACK_START / 4096, K_STACK_PAGES);
    VgaTakesOnly(BootAccount(im, pool));
    PassingTakesOnly(a, K_STACK_START / 4096, K_STACK_PAGES);
    KernelEndsAtEnd(im);
    var p, q := HeapTakesTwo(b, im.kernelEnd, K_STACK_START);
    assert p in Usable(entries, im.EndPage()) && q in Usable(entries, im.EndPage());
  }

  lemma HeapTakesTwo(a: Account, start: Word, maxAddr: Word) returns (p: nat, q: nat)
    requires start % 4096 == 0 && start + 8192 < 0x1_0000_0000 && HeapComesUp(a, start, maxAddr)
    ensures p in a.pool.free && q in a.pool.free && p != q
  {
    hide WithPage, Take, RoundUp4;
    FirstBreak(start);
    var v := start / 4096;
    BackedIs(a, v);
    BackingUsesOne(a, v);
    var b := WithPage(a, v);
    assert CanBackAll(b, v + 1, 1);
    BackedStep(b, v + 1, 0);
    BackedNone(b, v + 1);
    BackedIs(b, v + 1);
    BackingUsesOne(b, v + 1);
    p, q := Take(a.pool).value, Take(b.pool).value;
  }

  lemma VgaTakesOnly(a: Account)
    ensures MapVga(a).pool.free <= a.pool.free
  {
  }

  lemma {:induction false} PassingTakesOnly(a: Account, v: nat, n: nat)
    ensures BackOrPassAll(a, v, n).pool.free <= a.pool.free
  {
    hide Take, After;
    if n > 0 {
      PassingTakesOnly(a, v, n - 1);
      PassTakesOnly(BackOrPassAll(a, v, n - 1), v + n - 1);
    }
  }

  lemma PassTakesOnly(a: Account, v: nat)
    ensures BackOrPass(a, v).pool.free <= a.pool.free
  {
  }

  lemma LastPagesOfRun(s: Pool, first: nat, n: nat)
    requires s.cursor <= first && forall p: nat | first <= p < first + 8 * n + 7 :: p in s.free && p < s.limit
    ensures Plenty(s, (first + 7) / 8, n)
  {
    var g := (first + 7) / 8;
    forall k: nat {:trigger LastPage(g, k)} | k < n
      ensures LastPage(g, k) in s.free && LastPage(g, k) < s.limit
    {
      assert first <= LastPage(g, k) < first + 8 * n + 7;
    }
  }

  lemma HeapFits(a: Account, start: Word, maxAddr: Word, g: nat)
    requires start % 4096 == 0 && start + 8192 < maxAddr && Plenty(a.pool, g, 4)
    requires start / 4096 !in a.mapped && start / 4096 + 1 !in a.mapped
    ensures HeapComesUp(a, start, maxAddr)
  {
    hide Plenty, CanBack, CanBackAll, WithPage, PagesEntered, RoundUp4;
    FirstBreak(start);
    var v := start / 4096;
    var h := PlentyBacksOne(a, v, g, 2);
    OnlyUnmapped(a, v);
    var h' := PlentyBacks(WithPage(a, v), v + 1, 1, h, 0);
  }

  lemma OnlyUnmapped(a: Account, v: nat)
    requires v + 1 !in a.mapped
    ensures v + 1 !in WithPage(a, v).mapped
  {
  }

  /** The first growth enters the second page of the heap, and no other. */
  lemma FirstBreak(start: Word)
    requires start % 4096 == 0 && start + 8192 < 0x1_0000_0000
    ensures RoundUp4(4100) == 4100 && (start + 4) / 4096 == start / 4096 && PagesEntered(start + 4, 4100) == 1
  {
    Div4096(start / 4096, 4);
    Div4096(start / 4096 + 1, 8);
  }

  lemma VgaLeavesPlenty(a: Account, g: nat, n: nat)
    requires Plenty(a.pool, g, n + 1)
    ensures Plenty(MapVga(a).pool, g + 1, n)
    ensures forall v | v in MapVga(a).mapped :: v in a.mapped || v == VGA_BUFFER_VADDR / 4096
  {
    PlentyTakes(a.pool, g, n + 1);
  }

  /** A run of 303 usable pages, less than 1.2 MiB, is enough, whatever else is free. */
  lemma EnoughMemory(im: Image, memUpper: Word, entries: seq<MmapEntry>, first: nat)
    requires Bootable(im) && 1 <= first
    requires forall p: nat | first <= p < first + 303 :: p in Usable(entries, im.EndPage()) && p < MaxPage(memUpper)
    ensures ComesUp(im, memUpper, entries)
  {
    var pool := Pool(Usable(entries, im.EndPage()), LOOKUP_START, MaxPage(memUpper));
    var a := BootAccount(im, pool);
    var stack := K_STACK_START / 4096;
    hide Usable, MaxPage;
    BootPagesAreLow(im);
    KernelEndsAtEnd(im);
    LastPagesOfRun(pool, first, 37);
    hide Bootable, Plenty, BootAccount, MapVga, HeapComesUp, Image.Fits;
    VgaLeavesPlenty(a, (first + 7) / 8, 36);
    var g := PlentyPassesNone(MapVga(a), stack, K_STACK_PAGES, (first + 7) / 8 + 1, 4);
    HeapFits(BackOrPassAll(MapVga(a), stack, K_STACK_PAGES), im.kernelEnd, K_STACK_START, g);
  }

  /** The boot tables map nothing from the end of the image on. */
  lemma BootPagesAreLow(im: Image)
    requires Bootable(im)
    ensures forall v | v in BootAccount(im, Pool({}, 0, 0)).mapped :: v < im.kernelEnd / 4096
    ensures forall pool: Pool :: BootAccount(im, pool).mapped == BootAccount(im, Pool({}, 0, 0)).mapped
  {
    KernelEndsAtEnd(im);
    hide NewEntry, Image.KernelPde, Image.KernelPte, Image.HhkPages, Image.KernelPages, Image.KernelPage;
  }

  /** _hhk_init, pmm_init, setup_memory and setup_kernel_runtime in the order of a boot; `ram` is whatever the boot
      loader left in memory. The heap comes up behind the tables that hhk.c wrote, with the invariants of all the
      layers below it in force, and every page that they mapped is mapped as before. */
  method BringUp(im: Image, ram: Ram, memUpper: Word, entries: seq<MmapEntry>) returns (heap: Heap, ok: bool)
    requires Bootable(im) && forall e | e in entries :: e.Fits()
    ensures heap.ctx.vmm.Valid() && heap.ctx.vmm.managed == Usable(entries, im.EndPage())
    ensures ok <==> ComesUp(im, memUpper, entries)
    ensures heap.ctx.vmm.Budget() == WithHeap(BeforeHeap(im, memUpper, entries), im.kernelEnd, K_STACK_START)
    ensures ok ==> heap.Valid() && heap.Contents() == map[]
    ensures forall v: nat | v < VPAGES && BootPte(im, v) != 0 ::
      v in heap.ctx.vmm.View() && heap.ctx.vmm.View()[v] == BootPte(im, v)
  {
    hide Owned, Mappings, Loaded, EndsAt, NoRole, Image.KernelPage, Image.KernelPages, Image.HhkPages, Usable, Tabled,
      BootAccount, MapVga, BackOrPassAll, HeapComesUp, WithHeap, Bitmap.Valid;
    var loaded := BootRam(im, ram);
    BootIsReady(loaded, im);
    BootMappings(loaded, im);
    hide BootPte;
    var pmm := new Bitmap(Wrap(MEM_1MB + Wrap(memUpper * 1024)));
    var vmm := new Vmm(pmm, im.Pd(), loaded, {});
    BootBudget(loaded, im, Pool(Usable(entries, im.EndPage()), LOOKUP_START, MaxPage(memUpper)));
    SetupMemory(vmm, entries, im.kernelEnd);
    var ctx := new HeapContext(vmm, im.kernelEnd, K_STACK_START);
    heap := new Heap(ctx);
    ok := SetupKernelRuntime(heap);
  }
}
