/** kernel/mm/dmm.c: the break of the heap against the pages that back it. */
module HeapBreak {
  import opened Words
  import opened Paging
  import opened PhysicalPages
  import opened PageSearch
  import opened Backing
  import opened VirtualMemory

  /** K_STACK_START, the end of the heap's address range. */
  const K_STACK_START: Word := 0xFFBF_0000

  function WordsOf(ram: Ram, pd: FrameNo, start: Word, n: nat): (h: seq<Word>)
    requires start + 4 * n <= 0xFFC0_0000
    ensures |h| == n
  {
    seq(n, k requires 0 <= k < n => WordAt(ram, pd, start + 4 * k))
  }

  lemma WordsAfterStore(r0: Ram, r1: Ram, pd: FrameNo, start: Word, n: nat, k: nat, w: Word)
    requires start + 4 * n <= 0xFFC0_0000 && k < n && WordAt(r1, pd, start + 4 * k) == w
    requires forall j: nat | j < n && j != k :: WordAt(r1, pd, start + 4 * j) == WordAt(r0, pd, start + 4 * j)
    ensures WordsOf(r1, pd, start, n) == WordsOf(r0, pd, start, n)[k := w]
  {
    hide WordAt;
  }

  /** The address of word k of a page-aligned range is aligned and lies in one of the range's pages. */
  lemma WordAddress(start: Word, k: nat, top: nat)
    requires start % 4096 == 0 && start + 4 * k <= top
    ensures (start + 4 * k) % 4 == 0 && start / 4096 <= (start + 4 * k) / 4096 <= top / 4096
  {
    assert start == 4 * (1024 * (start / 4096));
  }

  /** The arithmetic of lxbrk: without wrap-around it covers exactly the pages after that of the old break. */
  lemma BreakArithmetic(brk: Word, size: Word)
    requires size <= 0xFFFF_FFFC
    ensures size <= RoundUp4(size) <= size + 3 && RoundUp4(size) % 4 == 0
    ensures size % 4 == 0 ==> RoundUp4(size) == size
    ensures Wrap(brk + RoundUp4(size)) >= brk <==> brk + RoundUp4(size) < 0x1_0000_0000
    ensures var next := Wrap(brk + RoundUp4(size));
      next >= brk ==>
        next == brk + RoundUp4(size) && PgAlign(brk) <= PgAlign(next) &&
        var diff := PgAlign(next) - PgAlign(brk);
        diff % 4096 == 0 && diff / 4096 == next / 4096 - brk / 4096 && PgAlign(brk) == 4096 * (brk / 4096)
  {
    var next := Wrap(brk + RoundUp4(size));
    if next >= brk {
      Div4096(next / 4096 - brk / 4096, 0);
    }
  }

  lemma StartIsAligned(start: Word)
    requires start % 4096 == 0
    ensures start % 4 == 0
  {
    assert start == 4 * (1024 * (start / 4096));
  }

  /** No translation is gone, and no word of a managed page outside [lo, hi) has changed. */
  ghost predicate Undisturbed(r0: Ram, r1: Ram, pd: FrameNo, managed: set<nat>, lo: int, hi: int) {
    (forall v | v in Mappings(r0, pd) :: v in Mappings(r1, pd) && Mappings(r1, pd)[v] == Mappings(r0, pd)[v]) &&
    (forall va: Word | va % 4 == 0 && va / 4096 in Mappings(r0, pd) &&
       FrameOf(Mappings(r0, pd)[va / 4096]) in managed && !(lo <= va < hi) ::
       WordAt(r1, pd, va) == WordAt(r0, pd, va))
  }

  /** In particular every managed word outside [lo, hi) reads as before, through the walk of the hardware. */
  lemma UndisturbedMeans(r0: Ram, r1: Ram, pd: FrameNo, managed: set<nat>, lo: int, hi: int, va: Word)
    requires Undisturbed(r0, r1, pd, managed, lo, hi) && va % 4 == 0 && va / 4096 in Mappings(r0, pd)
    ensures va / 4096 in Mappings(r1, pd) && Mappings(r1, pd)[va / 4096] == Mappings(r0, pd)[va / 4096]
    ensures FrameOf(Mappings(r0, pd)[va / 4096]) in managed && (va < lo || hi <= va) ==>
      WordAt(r1, pd, va) == WordAt(r0, pd, va)
  {
    hide Mappings, WordAt;
  }

  lemma UndisturbedTwice(r0: Ram, r1: Ram, r2: Ram, pd: FrameNo, managed: set<nat>, lo: int, hi: int)
    requires Undisturbed(r0, r1, pd, managed, lo, hi) && Undisturbed(r1, r2, pd, managed, lo, hi)
    ensures Undisturbed(r0, r2, pd, managed, lo, hi)
  {
    hide Mappings, WordAt;
  }

  lemma UndisturbedAtFirst(r: Ram, pd: FrameNo, managed: set<nat>, lo: int, hi: int)
    ensures Undisturbed(r, r, pd, managed, lo, hi)
  {
  }

  /** Table edits that keep all translations. */
  lemma UndisturbedByEdits(r0: Ram, r1: Ram, pd: FrameNo, managed: set<nat>, free: set<nat>)
    requires OnlyTablesChanged(r0, r1, pd) && Owned(r1, pd, managed, free)
    requires forall p | p in Mappings(r0, pd) :: p in Mappings(r1, pd) && Mappings(r1, pd)[p] == Mappings(r0, pd)[p]
    ensures Undisturbed(r0, r1, pd, managed, 0, 0)
  {
    hide Mappings, WordAt, OnlyTablesChanged, Owned;
    forall va: Word | va / 4096 in Mappings(r0, pd) && FrameOf(Mappings(r0, pd)[va / 4096]) in managed
      ensures WordAt(r1, pd, va) == WordAt(r0, pd, va)
    {
      WordsSurvive(r0, r1, pd, managed, free, va);
    }
  }

  /** What holds outside a range holds outside a larger one. */
  lemma UndisturbedOutside(r0: Ram, r1: Ram, pd: FrameNo, managed: set<nat>, lo: int, hi: int, lo': int, hi': int)
    requires Undisturbed(r0, r1, pd, managed, lo, hi) && (hi <= lo || lo' <= lo <= hi <= hi')
    ensures Undisturbed(r0, r1, pd, managed, lo', hi')
  {
    hide Mappings, WordAt;
  }

  lemma UndisturbedByStore(r0: Ram, r1: Ram, pd: FrameNo, managed: set<nat>, lo: int, hi: int, va: Word)
    requires Mappings(r1, pd) == Mappings(r0, pd) && lo <= va < hi
    requires forall u: Word | u != va && u % 4 == 0 && u / 4096 in Mappings(r0, pd) ::
      WordAt(r1, pd, u) == WordAt(r0, pd, u)
    ensures Undisturbed(r0, r1, pd, managed, lo, hi)
  {
    hide Mappings, WordAt;
  }

  /** The words of a covered range stay, also as the beginning of a longer one. */
  lemma UndisturbedWords(r0: Ram, r1: Ram, pd: FrameNo, managed: set<nat>, start: Word, n: nat, m: nat)
    requires Undisturbed(r0, r1, pd, managed, 0, 0) && start % 4096 == 0 && n <= m && start + 4 * m <= 0xFFC0_0000
    requires forall p: nat | start / 4096 <= p <= (start + 4 * n) / 4096 ::
      p in Mappings(r0, pd) && FrameOf(Mappings(r0, pd)[p]) in managed
    ensures WordsOf(r1, pd, start, m)[..n] == WordsOf(r0, pd, start, n)
  {
    hide WordAt, Mappings;
    forall j: nat | j < n
      ensures WordAt(r1, pd, start + 4 * j) == WordAt(r0, pd, start + 4 * j)
    {
      WordAddress(start, j, start + 4 * n);
    }
  }

  /** The first page past that of the break, and how many pages lxbrk asks for. */
  function PagesEntered(brk: Word, size: Word): (n: nat)
    requires size <= 0xFFFF_FFFC
  {
    (brk + RoundUp4(size)) / 4096 - brk / 4096
  }

  /** Exactly when lxbrk moves the break. */
  ghost predicate BreakMoves(a: Account, brk: Word, size: Word, maxAddr: Word)
    requires size <= 0xFFFF_FFFC
  {
    size == 0 || (brk + RoundUp4(size) < maxAddr && CanBackAll(a, brk / 4096 + 1, PagesEntered(brk, size)))
  }

  /** Why the break does not move: the end of the address range, a page that is mapped already, or no frame. */
  lemma BreakStays(a: Account, brk: Word, size: Word, maxAddr: Word, g: nat)
    requires size <= 0xFFFF_FFFC && !BreakMoves(a, brk, size, maxAddr)
    ensures maxAddr <= brk + RoundUp4(size) ||
            (exists p: nat :: brk / 4096 < p <= (brk + RoundUp4(size)) / 4096 && p in a.mapped) ||
            !Plenty(a.pool, g, 2 * PagesEntered(brk, size))
  {
    var n := PagesEntered(brk, size);
    if Plenty(a.pool, g, 2 * n) && forall u | brk / 4096 + 1 <= u < brk / 4096 + 1 + n :: u !in a.mapped {
      var h := PlentyBacks(a, brk / 4096 + 1, n, g, 0);
    }
  }

  /** The page after that of the break is one that the heap already covers exactly when the epilogue is the last word
      of its page. */
  lemma BoundaryIsCovered(start: Word, brk: Word)
    requires start % 4096 == 0 && start <= brk && brk % 4 == 0
    ensures start / 4096 <= brk / 4096 + 1 <= (brk + 4) / 4096 <==> (brk + 4) % 4096 == 0
  {
  }

  /** Then lxbrk does not move the break beyond its page. */
  lemma BoundaryStops(a: Account, brk: Word, size: Word, maxAddr: Word)
    requires (brk + 4) % 4096 == 0 && 4 <= size <= 0xFFFF_FFFC && brk / 4096 + 1 in a.mapped
    ensures !BreakMoves(a, brk, size, maxAddr)
  {
    hide CanBackAll;
    assert RoundUp4(size) >= 4;
    if BreakMoves(a, brk, size, maxAddr) {
      assert (brk + 4) / 4096 == brk / 4096 + 1;
      BackedPagesAreUnmapped(a, brk / 4096 + 1, PagesEntered(brk, size), brk / 4096 + 1);
    }
  }

  /** heap_context_t. */
  class HeapContext {
    const vmm: Vmm
    const start: Word
    const maxAddr: Word
    var brk: Word

    constructor (vmm: Vmm, start: Word, maxAddr: Word)
      ensures this.vmm == vmm && this.start == start && this.maxAddr == maxAddr && brk == 0
    {
      this.vmm, this.start, this.maxAddr, brk := vmm, start, maxAddr, 0;
    }

    /** Every page from the first of the heap to the one that holds `top` is backed by a frame of its own. */
    ghost predicate Covered(top: nat)
      reads this, vmm
    {
      forall p: nat | start / 4096 <= p <= top / 4096 :: p in vmm.View() && FrameOf(vmm.View()[p]) in vmm.managed
    }

    ghost predicate Valid()
      reads this, vmm, vmm.pmm, vmm.pmm.bits
    {
      vmm.Valid() && 0 < start && start % 4096 == 0 && maxAddr <= K_STACK_START && start <= brk && Covered(brk)
    }

    /** The n words of virtual memory from `start` on. */
    ghost function Words(n: nat): (h: seq<Word>)
      requires start + 4 * n <= 0xFFC0_0000
      reads this, vmm
      ensures |h| == n
    {
      WordsOf(vmm.ram, vmm.pd, start, n)
    }

    /** dmm_init: the first page. */
    method DmmInit() returns (ok: bool)
      requires vmm.Valid() && 0 < start && start % 4096 == 0 && start < maxAddr <= K_STACK_START
      requires start / 4096 !in vmm.View()
      modifies this`brk, vmm`ram, vmm`managed, vmm.pmm`lookup, vmm.pmm`free, vmm.pmm.bits
      ensures vmm.Valid() && brk == start && vmm.managed == old(vmm.managed)
      ensures Undisturbed(old(vmm.ram), vmm.ram, vmm.pd, vmm.managed, 0, 0)
      ensures ok ==> Valid() && Covered(start)
      ensures ok ==>
        Extended(old(vmm.View()), vmm.View(), start / 4096, 1, old(vmm.pmm.free), PG_PREM_RW)
      ensures !ok ==> vmm.View() == old(vmm.View())
      ensures ok <==> CanBack(old(vmm.Budget()), start / 4096)
      ensures vmm.Budget() == BackOrPass(old(vmm.Budget()), start / 4096)
    {
      hide Owned, Mappings, WordAt, Bitmap.Valid, OnlyTablesChanged, Tables, CanBack, BackOrPass, Tabled;
      brk := start;
      OwnedHasTables(vmm.ram, vmm.pd, vmm.managed, vmm.pmm.free);
      assert LeastHole(vmm.View(), brk / 4096, brk / 4096);
      var r := vmm.AllocPage(brk, PG_PREM_RW, brk / 4096);
      ok := r.Mapped?;
      UndisturbedByEdits(old(vmm.ram), vmm.ram, vmm.pd, vmm.managed, vmm.pmm.free);
    }

    /** The inner part of lxbrk: backs the pages after that of the break, up to that of `next`. */
    method EnterPages(next: Word) returns (ok: bool)
      requires Valid() && brk <= next < maxAddr && PgAlign(brk) <= PgAlign(next)
      modifies vmm`ram, vmm`managed, vmm.pmm`lookup, vmm.pmm`free, vmm.pmm.bits
      ensures Valid() && vmm.managed == old(vmm.managed)
      ensures ok <==> CanBackAll(old(vmm.Budget()), brk / 4096 + 1, next / 4096 - brk / 4096)
      ensures if ok then Covered(next) else vmm.View() == old(vmm.View())
      ensures ok ==> forall p: nat | brk / 4096 < p <= next / 4096 :: p !in old(vmm.View())
      ensures var a, v, n := old(vmm.Budget()), brk / 4096 + 1, next / 4096 - brk / 4096;
        vmm.Budget() == if ok then WithPages(a, v, n) else AfterFailure(a, v, n)
      ensures ok ==> forall p: nat :: p in vmm.View() <==> p in old(vmm.View()) || brk / 4096 < p <= next / 4096
      ensures Undisturbed(old(vmm.ram), vmm.ram, vmm.pd, vmm.managed, 0, 0)
    {
      hide Owned, Mappings, WordAt, Bitmap.Valid, OnlyTablesChanged, CanBackAll, WithPages, AfterFailure, Tabled,
        Undisturbed, Targets;
      BackedNone(vmm.Budget(), brk / 4096 + 1);
      UndisturbedAtFirst(vmm.ram, vmm.pd, vmm.managed, 0, 0);
      OwnedHasTables(vmm.ram, vmm.pd, vmm.managed, vmm.pmm.free);
      var diff := PgAlign(next) - PgAlign(brk);
      Div4096(next / 4096 - brk / 4096, 0);
      ok := true;
      if diff != 0 {
        Div4096(brk / 4096 + 1, 0);
        ok := vmm.AllocPages(PgAlign(brk) + 4096, diff, PG_PREM_RW);
        UndisturbedByEdits(old(vmm.ram), vmm.ram, vmm.pd, vmm.managed, vmm.pmm.free);
      }
    }

    /** lxbrk: moves the break up by `size` and backs the pages it enters, or leaves everything as it is. */
    method Lxbrk(size: Word) returns (r: Option<Word>)
      requires Valid() && size <= 0xFFFF_FFFC
      modifies this`brk, vmm`ram, vmm`managed, vmm.pmm`lookup, vmm.pmm`free, vmm.pmm.bits
      ensures Valid() && vmm.managed == old(vmm.managed)
      ensures r != None <==> BreakMoves(old(vmm.Budget()), old(brk), size, maxAddr)
      ensures r == None ==> brk == old(brk) && vmm.View() == old(vmm.View())
      ensures r != None ==> r == Some(old(brk)) && brk == old(brk) + size && Covered(old(brk) + RoundUp4(size))
      ensures size > 0 && r != None ==> old(brk) + RoundUp4(size) < maxAddr
      ensures var a, v, n := old(vmm.Budget()), old(brk) / 4096 + 1, PagesEntered(old(brk), size);
        vmm.Budget() == if size == 0 || old(brk) + RoundUp4(size) >= maxAddr then a
                        else if r != None then WithPages(a, v, n) else AfterFailure(a, v, n)
      ensures size > 0 && r != None ==> forall p: nat ::
        p in vmm.View() <==> p in old(vmm.View()) || old(brk) / 4096 < p <= (old(brk) + RoundUp4(size)) / 4096
      ensures r != None ==>
        forall p: nat | old(brk) / 4096 < p <= (old(brk) + RoundUp4(size)) / 4096 :: p !in old(vmm.View())
      ensures Undisturbed(old(vmm.ram), vmm.ram, vmm.pd, vmm.managed, 0, 0)
    {
      hide Owned, Mappings, WordAt, Bitmap.Valid, CanBackAll, WithPages, AfterFailure, Tabled, Undisturbed, Wrap,
        RoundUp4, PgAlign;
      UndisturbedAtFirst(vmm.ram, vmm.pd, vmm.managed, 0, 0);
      BreakArithmetic(brk, size);
      r := if size == 0 then Some(brk) else None;
      var currentBrk := brk;
      var next := Wrap(currentBrk + RoundUp4(size));
      if size != 0 && next < maxAddr && currentBrk <= next {
        var ok := EnterPages(next);
        if ok {
          brk := brk + size;
          r := Some(currentBrk);
        }
      }
    }
  }
}
