/** arch/x86/hhk.c: the page directory and the five tables the kernel boots with, written as one raw buffer of
    words before paging is on. */
module BootTables {
  import opened Words
  import opened Paging

  const PG_TABLE_IDENTITY: nat := 0
  const PG_TABLE_KERNEL: nat := 1
  const PG_TABLE_STACK: nat := 4
  const HIGHER_HLF_BASE: Word := 0xC000_0000
  const MEM_1MB: Word := 0x10_0000

  /** KPG_SIZE in words: one directory and five tables. */
  const KPG_WORDS: nat := 6144

  /** What the linker script provides, and where the buffer is. */
  datatype Image = Image(ptd: Word, hhkEnd: Word, kernelStart: Word, kernelEnd: Word) {
    /** HHK_PAGE_COUNT. */
    function HhkPages(): nat {
      if hhkEnd < MEM_1MB then 0 else Wrap(hhkEnd - MEM_1MB + 0xFFF) / 4096
    }

    /** KERNEL_PAGE_COUNT. */
    function KernelPages(): nat {
      if kernelEnd < kernelStart then 0 else Wrap(kernelEnd - kernelStart + 0xFFF) / 4096
    }

    function KernelPde(): nat {
      L1Index(kernelStart)
    }

    function KernelPte(): nat {
      L2Index(kernelStart)
    }

    /** The page number of the kernel's first page, in the higher half. */
    function KernelPage(): nat {
      kernelStart / 4096
    }

    /** The layout of linker.ld, small enough for the tables that hhk.c provides. */
    predicate Fits() {
      ptd % 4096 == 0 && ptd / 4096 + 6 <= FRAMES && MEM_1MB <= hhkEnd && HhkPages() <= 768 &&
      HIGHER_HLF_BASE <= kernelStart <= kernelEnd && kernelStart % 4096 == 0 &&
      KernelPde() + 2 < WINDOW && KernelPte() + KernelPages() <= 3072
    }

    function Pd(): nat {
      ptd / 4096
    }

    /** The physical page at which the image ends. */
    function EndPage(): nat {
      if kernelEnd < HIGHER_HLF_BASE then 0 else (kernelEnd - HIGHER_HLF_BASE) / 4096
    }
  }

  /** Where PT_ADDR(ptd, table) + pte is in the buffer. */
  function PteIndex(table: nat, pte: nat): nat {
    (table + 1) * 1024 + pte
  }

  /** The physical address of PT_ADDR(ptd, table). */
  function PtAddr(ptd: Word, table: nat): int {
    ptd + (table + 1) * 4096
  }

  /** What word k of the buffer holds once _hhk_init is done. */
  ghost function BootWord(im: Image, k: nat): Word
    requires im.Fits()
  {
    if k == 0 then NewEntry(PG_PREM_R, Wrap(PtAddr(im.ptd, PG_TABLE_IDENTITY)))
    else if im.KernelPde() <= k < im.KernelPde() + 3 then
      NewEntry(PG_PREM_RW, Wrap(PtAddr(im.ptd, PG_TABLE_KERNEL + (k - im.KernelPde()))))
    else if k == 1023 then NewEntry(T_SELF_REF_PERM, im.ptd)
    else if 1024 <= k < 1280 + im.HhkPages() then NewEntry(PG_PREM_RW, (k - 1024) * 4096)
    else if 2048 + im.KernelPte() <= k < 2048 + im.KernelPte() + im.KernelPages() then
      NewEntry(PG_PREM_RW, Wrap(im.kernelStart - HIGHER_HLF_BASE + (k - 2048 - im.KernelPte()) * 4096))
    else 0
  }

  /** The words of the identity mapping. */
  ghost predicate LowWord(im: Image, k: nat) {
    k == 0 || 1024 <= k < 1280 + im.HhkPages()
  }

  /** _hhk_init: clears the buffer, then _init_page. */
  method HhkInit(kpg: array<Word>, im: Image)
    requires kpg.Length == KPG_WORDS && im.Fits()
    modifies kpg
    ensures forall k: nat | k < KPG_WORDS :: kpg[k] == BootWord(im, k)
  {
    for i := 0 to KPG_WORDS
      invariant forall k | 0 <= k < i :: kpg[k] == 0
    {
      kpg[i] := 0;
    }
    InitPage(kpg, im);
  }

  method InitPage(kpg: array<Word>, im: Image)
    requires kpg.Length == KPG_WORDS && im.Fits()
    requires forall k | 0 <= k < KPG_WORDS :: kpg[k] == 0
    modifies kpg
    ensures forall k: nat | k < KPG_WORDS :: kpg[k] == BootWord(im, k)
  {
    hide NewEntry, PtAddr, Wrap;
    var ptd := im.ptd;
    kpg[0] := NewEntry(PG_PREM_R, Wrap(PtAddr(ptd, PG_TABLE_IDENTITY)));
    for i := 0 to 256
      invariant kpg[0] == BootWord(im, 0)
      invariant forall k | 1 <= k < KPG_WORDS :: kpg[k] == if 1024 <= k < 1024 + i then BootWord(im, k) else 0
    {
      kpg[PteIndex(PG_TABLE_IDENTITY, i)] := NewEntry(PG_PREM_RW, i * 4096);
    }
    for i := 0 to im.HhkPages()
      invariant kpg[0] == BootWord(im, 0)
      invariant forall k | 1 <= k < KPG_WORDS :: kpg[k] == if 1024 <= k < 1280 + i then BootWord(im, k) else 0
    {
      kpg[PteIndex(PG_TABLE_IDENTITY, 256 + i)] := NewEntry(PG_PREM_RW, MEM_1MB + i * 4096);
    }

    var kernelPdeIndex, kernelPteIndex, kernelPgCounts := im.KernelPde(), im.KernelPte(), im.KernelPages();
    for i := 0 to PG_TABLE_STACK - PG_TABLE_KERNEL
      invariant forall k: nat | k < KPG_WORDS ::
        kpg[k] == (if LowWord(im, k) || kernelPdeIndex <= k < kernelPdeIndex + i then BootWord(im, k) else 0)
    {
      kpg[kernelPdeIndex + i] := NewEntry(PG_PREM_RW, Wrap(PtAddr(ptd, PG_TABLE_KERNEL + i)));
    }

    var kernelPm := im.kernelStart - HIGHER_HLF_BASE;
    for i := 0 to kernelPgCounts
      invariant forall k: nat | k < KPG_WORDS ::
        kpg[k] == (if LowWord(im, k) || kernelPdeIndex <= k < kernelPdeIndex + 3 ||
                      2048 + kernelPteIndex <= k < 2048 + kernelPteIndex + i then BootWord(im, k) else 0)
    {
      kpg[PteIndex(PG_TABLE_KERNEL, kernelPteIndex + i)] := NewEntry(PG_PREM_RW, Wrap(kernelPm + i * 4096));
    }
    kpg[PG_MAX_ENTRIES - 1] := NewEntry(T_SELF_REF_PERM, ptd);
  }

  // ---------------------------------------------------------------- what the tables mean

  function TableWord(ram: Ram, pd: nat, t: nat, j: nat): Word
    requires pd + t < FRAMES && j < 1024
  {
    ram[pd + t][j]
  }

  /** Physical memory holds the buffer at ptd. */
  ghost predicate Loaded(ram: Ram, im: Image)
    requires im.Fits()
  {
    forall t: nat, j: nat | t < 6 && j < 1024 :: TableWord(ram, im.Pd(), t, j) == BootWord(im, 1024 * t + j)
  }

  lemma KernelIndices(im: Image)
    requires im.Fits()
    ensures im.KernelPde() + 2 < WINDOW && im.HhkPages() <= 768 && im.KernelPte() + im.KernelPages() <= 3072
    ensures im.Pd() + 6 <= FRAMES && 0xC_0000 <= im.KernelPage()
    ensures 768 <= im.KernelPde() && im.KernelPte() < 1024 && im.KernelPage() == 1024 * im.KernelPde() + im.KernelPte()
  {
    PageFields(im.kernelStart, im.KernelPage() / 1024, im.KernelPage() % 1024, 0);
  }

  lemma TableEntry(im: Image, flags: Word, table: nat)
    requires im.Fits() && flags < 4096 && Present(flags) && table < 5
    ensures var e := NewEntry(flags, Wrap(PtAddr(im.ptd, table)));
      Present(e) && FrameOf(e) == im.Pd() + 1 + table && e == im.ptd + 4096 * (1 + table) + flags
  {
    hide NewEntry, FrameOf, Present, Image.KernelPde, Image.KernelPte, Image.HhkPages, Image.KernelPages;
    assert PtAddr(im.ptd, table) == 4096 * (im.Pd() + 1 + table);
    EntryOf(flags, im.Pd() + 1 + table);
  }

  lemma LowTableEntry(im: Image)
    requires im.Fits()
    ensures Present(BootWord(im, 0)) && FrameOf(BootWord(im, 0)) == im.Pd() + 1
    ensures BootWord(im, 0) == im.ptd + 4096 + 1
  {
    TableEntry(im, PG_PREM_R, 0);
  }

  lemma KernelTableEntry(im: Image, t: nat)
    requires im.Fits() && t < 3
    ensures var e := BootWord(im, im.KernelPde() + t);
      Present(e) && FrameOf(e) == im.Pd() + 2 + t && e == im.ptd + 4096 * (2 + t) + 3
  {
    KernelIndices(im);
    TableEntry(im, PG_PREM_RW, 1 + t);
    hide NewEntry, PtAddr, Wrap, Image.Fits, Image.KernelPde, Image.KernelPte, Image.HhkPages, Image.KernelPages,
      Present, FrameOf;
  }

  lemma WindowEntry(im: Image)
    requires im.Fits()
    ensures Present(BootWord(im, 1023)) && FrameOf(BootWord(im, 1023)) == im.Pd()
    ensures BootWord(im, 1023) == im.ptd + 19
  {
    EntryOf(T_SELF_REF_PERM, im.Pd());
    KernelIndices(im);
    hide NewEntry, PtAddr, Wrap, Image.KernelPde, Image.KernelPte, Image.HhkPages, Image.KernelPages, Present, FrameOf;
  }

  lemma ClearEntry(im: Image, i: nat)
    requires im.Fits() && 0 < i < 1023 && !(im.KernelPde() <= i < im.KernelPde() + 3)
    ensures BootWord(im, i) == 0
  {
    hide NewEntry, PtAddr, Wrap, Image.Fits, Image.KernelPde, Image.KernelPte, Image.HhkPages, Image.KernelPages;
  }

  /** The directory: table 0 for the low pages, three kernel tables, the window, nothing else. */
  lemma BootDirectory(ram: Ram, im: Image, i: nat)
    requires im.Fits() && Loaded(ram, im) && i < 1024
    ensures var e := ram[im.Pd()][i]; var kpde := im.KernelPde();
      768 <= kpde &&
      if i == 0 then Present(e) && FrameOf(e) == im.Pd() + 1
      else if kpde <= i < kpde + 3 then Present(e) && FrameOf(e) == im.Pd() + 2 + (i - kpde)
      else if i == 1023 then Present(e) && FrameOf(e) == im.Pd()
      else e == 0
  {
    hide BootWord, NewEntry, Image.Fits, Image.KernelPde, Image.Pd, Present, FrameOf;
    KernelIndices(im);
    assert TableWord(ram, im.Pd(), 0, i) == BootWord(im, 1024 * 0 + i);
    if i == 0 {
      LowTableEntry(im);
    } else if im.KernelPde() <= i < im.KernelPde() + 3 {
      KernelTableEntry(im, i - im.KernelPde());
    } else if i == 1023 {
      WindowEntry(im);
    } else {
      ClearEntry(im, i);
    }
  }

  lemma EntryOf(flags: Word, f: nat)
    requires f < FRAMES && flags < 4096 && Present(flags)
    ensures var e := NewEntry(flags, 4096 * f); Present(e) && FrameOf(e) == f && e == 4096 * f + flags
  {
    Div4096(f, 0);
    EntryFields(flags, 4096 * f);
  }

  /** What the boot tables map: low memory and the boot code to themselves, the kernel to its physical pages,
      wherever in the three kernel tables its entries fall. */
  ghost function BootPte(im: Image, v: nat): Word
    requires im.Fits() && v < VPAGES
  {
    if v < 256 + im.HhkPages() then NewEntry(PG_PREM_RW, 4096 * v)
    else if im.KernelPage() <= v < im.KernelPage() + im.KernelPages() then NewEntry(PG_PREM_RW, 4096 * (v - 0xC_0000))
    else 0
  }

  lemma BootTranslation(ram: Ram, im: Image, v: nat)
    requires im.Fits() && Loaded(ram, im) && v < VPAGES
    ensures Pte(ram, im.Pd(), v) == BootPte(im, v)
  {
    var i, j, kpde := v / 1024, v % 1024, im.KernelPde();
    BootDirectory(ram, im, i);
    KernelIndices(im);
    hide Image.Fits, Image.Pd, Image.KernelPde, Image.KernelPte, Image.KernelPage, Image.HhkPages, Image.KernelPages,
      BootPte, BootWord;
    if i == 0 {
      assert Pte(ram, im.Pd(), v) == TableWord(ram, im.Pd(), 1, j) == BootWord(im, 1024 * 1 + j);
      BootLowWord(im, j);
    } else if kpde <= i < kpde + 3 {
      var t := 2 + (i - kpde);
      assert Pte(ram, im.Pd(), v) == TableWord(ram, im.Pd(), t, j) == BootWord(im, 1024 * t + j);
      BootKernelWord(im, i - kpde, j);
      assert v == 1024 * (kpde + (i - kpde)) + j;
    } else {
      BootGap(im, v);
    }
  }

  lemma BootLowWord(im: Image, j: nat)
    requires im.Fits() && j < 1024
    ensures BootWord(im, 1024 * 1 + j) == BootPte(im, j)
  {
    KernelIndices(im);
    hide NewEntry, PtAddr, Wrap, Image.Fits, Image.Pd, Image.KernelPde, Image.KernelPte, Image.KernelPage,
      Image.HhkPages, Image.KernelPages;
  }

  lemma BootKernelWord(im: Image, t: nat, j: nat)
    requires im.Fits() && t < 3 && j < 1024
    ensures BootWord(im, 1024 * (2 + t) + j) == BootPte(im, 1024 * (im.KernelPde() + t) + j)
  {
    KernelIndices(im);
    var k := 1024 * t + j;
    if im.KernelPte() <= k < im.KernelPte() + im.KernelPages() {
      KernelPhysical(im, k - im.KernelPte());
    }
    hide NewEntry, PtAddr, Wrap, Image.Fits, Image.Pd, Image.KernelPde, Image.KernelPte, Image.KernelPage,
      Image.HhkPages, Image.KernelPages;
  }

  lemma KernelPhysical(im: Image, n: nat)
    requires im.Fits() && n < im.KernelPages()
    ensures Wrap(im.kernelStart - HIGHER_HLF_BASE + n * 4096) == 4096 * (im.KernelPage() + n - 0xC_0000)
  {
    assert im.kernelStart == 4096 * im.KernelPage();
  }

  lemma BootGap(im: Image, v: nat)
    requires im.Fits() && v < VPAGES && 0 < v / 1024 && !(im.KernelPde() <= v / 1024 < im.KernelPde() + 3)
    ensures BootPte(im, v) == 0
  {
    KernelIndices(im);
    hide Image.Fits, Image.KernelPde, Image.KernelPte, Image.KernelPage, Image.HhkPages, Image.KernelPages;
  }

  /** The walk over the boot tables, address by address. */
  lemma BootWalk(ram: Ram, im: Image, va: Word)
    requires im.Fits() && Loaded(ram, im) && va < L2_BASE_VADDR
    ensures var v := va / 4096;
      Walk(ram, im.Pd(), va) ==
        if v < 256 + im.HhkPages() then Some(PhysWord(v, va % 4096 / 4))
        else if im.KernelPage() <= v < im.KernelPage() + im.KernelPages() then
          Some(PhysWord((va - HIGHER_HLF_BASE) / 4096, va % 4096 / 4))
        else None
  {
    var v := va / 4096;
    BootTranslation(ram, im, v);
    WalkIsPte(ram, im.Pd(), va);
    BootEntry(im, v);
    assert (va - HIGHER_HLF_BASE) / 4096 == v - 0xC_0000;
  }

  lemma BootEntry(im: Image, v: nat)
    requires im.Fits() && v < VPAGES
    ensures var e := BootPte(im, v);
      if v < 256 + im.HhkPages() then Present(e) && FrameOf(e) == v && e == 4096 * v + 3
      else if im.KernelPage() <= v < im.KernelPage() + im.KernelPages() then
        Present(e) && FrameOf(e) == v - 0xC_0000 && e == 4096 * (v - 0xC_0000) + 3
      else e == 0
  {
    hide NewEntry, Present, FrameOf, Image.Fits, Image.HhkPages, Image.KernelPage, Image.KernelPages;
    KernelIndices(im);
    if v < 256 + im.HhkPages() {
      EntryOf(PG_PREM_RW, v);
    } else if im.KernelPage() <= v < im.KernelPage() + im.KernelPages() {
      EntryOf(PG_PREM_RW, v - 0xC_0000);
    }
  }

  /** The same in terms of what the linker script provides: every page that begins below hhkEnd is mapped to itself,
      every page of the kernel, up to that of its last byte, to the frame 3 GiB below, and nothing else below the
      window. */
  lemma BootMap(ram: Ram, im: Image, va: Word)
    requires im.Fits() && Loaded(ram, im) && va < 0xFFC0_0000
    ensures Walk(ram, im.ptd / 4096, va) ==
      if va < (im.hhkEnd + 4095) / 4096 * 4096 then Some(PhysWord(va / 4096, va % 4096 / 4))
      else if im.kernelStart <= va < (im.kernelEnd + 4095) / 4096 * 4096 then
        Some(PhysWord((va - 0xC000_0000) / 4096, va % 4096 / 4))
      else None
  {
    BootWalk(ram, im, va);
    PageCounts(im);
    var k, s, h := im.KernelPages(), im.kernelStart / 4096, 256 + im.HhkPages();
    assert va < h * 4096 <==> va / 4096 < h;
    assert s * 4096 <= va < (s + k) * 4096 <==> s <= va / 4096 < s + k;
  }

  lemma PageCounts(im: Image)
    requires im.Fits()
    ensures 256 + im.HhkPages() == (im.hhkEnd + 4095) / 4096
    ensures im.kernelStart / 4096 + im.KernelPages() == (im.kernelEnd + 4095) / 4096
    ensures im.kernelStart == im.kernelStart / 4096 * 4096
  {
    var s := im.kernelStart / 4096;
    assert im.kernelEnd + 4095 == 4096 * s + (im.kernelEnd - im.kernelStart + 4095);
    assert im.hhkEnd + 4095 == 4096 * 256 + (im.hhkEnd - MEM_1MB + 4095);
  }

  /** The requirement on the image: the boot code ends within the first 4 MiB, and the kernel begins in the higher
      half, on a page boundary, and fits into the three tables from that of its first page on. */
  lemma FitsMeans(im: Image)
    ensures im.Fits() <==>
      im.ptd % 4096 == 0 && im.ptd / 4096 + 6 <= 0x10_0000 && 0x10_0000 <= im.hhkEnd <= 0x40_0000 &&
      0xC000_0000 <= im.kernelStart <= im.kernelEnd && im.kernelStart % 4096 == 0 &&
      im.kernelStart / 0x40_0000 + 2 < 1023 &&
      im.kernelStart / 4096 % 1024 + (im.kernelEnd - im.kernelStart + 4095) / 4096 <= 3072
  {
  }

  /** The words themselves: page tables writable, the entry of the low one not, the window uncached. */
  lemma BootEntries(ram: Ram, im: Image, v: nat)
    requires im.Fits() && Loaded(ram, im) && v < VPAGES
    ensures var directory, kpde := ram[im.ptd / 4096], im.kernelStart / 0x40_0000;
      directory[0] == im.ptd + 4096 + 1 && directory[1023] == im.ptd + 19 && kpde + 2 < 1023 &&
      forall i | kpde <= i < kpde + 3 :: directory[i] == im.ptd + 4096 * (2 + i - kpde) + 3
    ensures Pte(ram, im.ptd / 4096, v) ==
      if v < (im.hhkEnd + 4095) / 4096 then 4096 * v + 3
      else if im.kernelStart / 4096 <= v < (im.kernelEnd + 4095) / 4096 then 4096 * (v - 0xC_0000) + 3
      else 0
  {
    BootTranslation(ram, im, v);
    PageCounts(im);
    BootEntry(im, v);
    DirectoryWords(ram, im);
  }

  lemma DirectoryWords(ram: Ram, im: Image)
    requires im.Fits() && Loaded(ram, im)
    ensures var directory, kpde := ram[im.ptd / 4096], im.kernelStart / 0x40_0000;
      directory[0] == im.ptd + 4096 + 1 && directory[1023] == im.ptd + 19 && kpde + 2 < 1023 &&
      forall i | kpde <= i < kpde + 3 :: directory[i] == im.ptd + 4096 * (2 + i - kpde) + 3
  {
    var kpde := im.KernelPde();
    assert kpde == im.kernelStart / 0x40_0000;
    KernelIndices(im);
    LowTableEntry(im);
    WindowEntry(im);
    hide BootWord, Image.Fits, Image.KernelPde;
    forall i: nat | i < 1024
      ensures ram[im.ptd / 4096][i] == BootWord(im, i)
    {
      assert TableWord(ram, im.Pd(), 0, i) == BootWord(im, 1024 * 0 + i);
    }
    forall i: nat | kpde <= i < kpde + 3
      ensures ram[im.ptd / 4096][i] == im.ptd + 4096 * (2 + i - kpde) + 3
    {
      KernelTableEntry(im, i - kpde);
    }
  }

  /** With 768 boot pages the low table is full, and there is none behind it: a scan of vmm_map_page that begins in it
      faults on the boot tables. */
  lemma FullLowTable(ram: Ram, im: Image, v: nat)
    requires im.Fits() && Loaded(ram, im) && im.HhkPages() == 768 && v < 1024
    ensures LeastClear(ram, im.Pd(), v, 1024) && ram[im.Pd()][1] == 0 && v / 1024 != 1024 / 1024
  {
    BootIsSound(ram, im);
    BootDirectory(ram, im, 1);
    forall u: nat | u < 1024
      ensures Pte(ram, im.Pd(), u) != 0
    {
      BootTranslation(ram, im, u);
      BootEntry(im, u);
    }
    hide Pte, Loaded, Tables;
    FullTableBeforeNone(ram, im.Pd(), 0, v);
  }

  /** The boot tables alone are sound. */
  lemma BootIsSound(ram: Ram, im: Image)
    requires im.Fits() && Loaded(ram, im)
    ensures Tables(ram, im.Pd())
  {
    var pd := im.Pd();
    hide NewEntry;
    forall i: nat | i < 1024
      ensures ram[pd][i] == 0 || Present(ram[pd][i])
      ensures i < WINDOW && Present(ram[pd][i]) ==> pd < FrameOf(ram[pd][i]) < pd + 6
      ensures i == WINDOW ==> Present(ram[pd][i]) && FrameOf(ram[pd][i]) == pd
    {
      BootDirectory(ram, im, i);
    }
    forall i: nat, j: nat | i < j < WINDOW && Present(ram[pd][i]) && Present(ram[pd][j])
      ensures FrameOf(ram[pd][i]) != FrameOf(ram[pd][j])
    {
      BootDirectory(ram, im, i);
      BootDirectory(ram, im, j);
    }
    forall v: nat | v < VPAGES
      ensures Pte(ram, pd, v) == 0 || Present(Pte(ram, pd, v))
    {
      BootTranslation(ram, im, v);
      BootEntry(im, v);
    }
    hide Pte, BootWord, Loaded;
  }

  /** The image ends, physically, at page `end`: the boot pages, the kernel's pages and the tables lie below. */
  predicate EndsAt(im: Image, end: nat) {
    im.Fits() && 256 + im.HhkPages() <= end && im.KernelPage() + im.KernelPages() <= end + 0xC_0000 &&
      im.Pd() + 6 <= end
  }

  /** The boot tables satisfy the invariant of the page-table editor, every frame from the end of the image on
      being free of roles. */
  lemma BootOwned(ram: Ram, im: Image, end: nat, free: set<nat>)
    requires EndsAt(im, end) && Loaded(ram, im) && forall f | f in free :: end <= f
    ensures Owned(ram, im.Pd(), free, free)
    ensures forall f: nat | end <= f :: NoRole(ram, im.Pd(), f)
  {
    var pd := im.Pd();
    BootIsSound(ram, im);
    forall i: nat | i < WINDOW && Present(ram[pd][i])
      ensures pd < FrameOf(ram[pd][i]) < pd + 6
    {
      BootDirectory(ram, im, i);
    }
    forall v: nat | v < VPAGES && Present(Pte(ram, pd, v))
      ensures FrameOf(Pte(ram, pd, v)) < end
    {
      BootTranslation(ram, im, v);
      BootEntry(im, v);
    }
    hide Pte, BootWord, Loaded, NewEntry, Tables;
  }
}
