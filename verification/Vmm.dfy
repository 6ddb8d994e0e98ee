/** kernel/mm/vmm.c: the page-table editor. Every table access goes through the recursive window of the
    current directory, that is, through the walk of the MMU. */
module VirtualMemory {
  import opened Words
  import opened Paging
  import opened PageSearch
  import opened PhysicalPages
  import opened Backing

  type FrameNo = f: nat | f < 0x10_0000

  /** v_mapping. */
  datatype VMapping = VMapping(pn: nat, pa: Word, flags: Word)

  /** What vmm_map_page can end in: an address, NULL, or a fault on an absent table during its scan. */
  datatype MapResult = Mapped(va: Word) | Null | PageFault

  /** Directory entries once set stay, and no frame but the directory and the tables changes. */
  ghost predicate OnlyTablesChanged(r0: Ram, r1: Ram, pd: nat)
    requires pd < FRAMES
  {
    (forall i: nat | i < 1024 && Present(r0[pd][i]) :: r1[pd][i] == r0[pd][i]) &&
    (forall f: nat | f < FRAMES && PlainFrame(r1, pd, f) :: r1[f] == r0[f])
  }

  /** Every table of r1 was one before, with the same entry, or is one of `frames`. */
  ghost predicate TablesFrom(r0: Ram, r1: Ram, pd: nat, frames: set<nat>)
    requires pd < FRAMES
  {
    forall i: nat | i < WINDOW && Present(r1[pd][i]) :: r1[pd][i] == r0[pd][i] || FrameOf(r1[pd][i]) in frames
  }

  lemma TablesFromTwice(r0: Ram, r1: Ram, r2: Ram, pd: nat, frames: set<nat>, frames': set<nat>)
    requires pd < FRAMES && TablesFrom(r0, r1, pd, frames) && TablesFrom(r1, r2, pd, frames') && frames' <= frames
    ensures TablesFrom(r0, r2, pd, frames)
  {
  }

  lemma SameDirectory(r0: Ram, r1: Ram, pd: nat, frames: set<nat>)
    requires pd < FRAMES && r1[pd] == r0[pd]
    ensures TablesFrom(r0, r1, pd, frames)
  {
  }

  lemma OneNewTable(r0: Ram, r1: Ram, pd: FrameNo, l1: nat, frames: set<nat>)
    requires l1 < WINDOW && NewTable(r0, r1, pd, l1) <= frames
    requires forall i: nat | i < 1024 && (i != l1 || Present(r0[pd][i])) :: r1[pd][i] == r0[pd][i]
    ensures TablesFrom(r0, r1, pd, frames)
  {
  }

  lemma OnlyTablesChangedTwice(r0: Ram, r1: Ram, r2: Ram, pd: nat)
    requires pd < FRAMES && OnlyTablesChanged(r0, r1, pd) && OnlyTablesChanged(r1, r2, pd)
    ensures OnlyTablesChanged(r0, r2, pd)
  {
    forall f: nat | f < FRAMES && PlainFrame(r2, pd, f)
      ensures PlainFrame(r1, pd, f)
    {
    }
  }

  lemma PteStoreOnlyTables(ram: Ram, pd: nat, v: nat, e: Word)
    requires pd < FRAMES && Tables(ram, pd) && v < VPAGES && Present(ram[pd][v / 1024])
    ensures var r := SetWord(ram, FrameOf(ram[pd][v / 1024]), v % 1024, e);
            r[pd] == ram[pd] && OnlyTablesChanged(ram, r, pd)
  {
  }

  lemma PageSplit(va: Word)
    ensures va / 4096 == 1024 * L1Index(va) + L2Index(va) && va / 4096 / 1024 == L1Index(va)
    ensures va / 4096 % 1024 == L2Index(va)
    ensures va / 4096 < VPAGES <==> L1Index(va) < WINDOW
  {
    var page := va / 4096;
    PageFields(va, page / 1024, page % 1024, va % 4096);
  }

  lemma EntryParts(e: Word)
    ensures e - e % 4096 == 4096 * FrameOf(e) && (e - e % 4096) / 4096 == FrameOf(e) && FlagsOf(e) == e % 4096
  {
    Div4096(e / 4096, 0);
  }

  /** The entry that a look-up of page v finds. */
  lemma LookedUp(ram: Ram, pd: nat, v: nat)
    requires pd < FRAMES && Tables(ram, pd) && v < FRAMES
    ensures Pte(ram, pd, v) ==
            if v in Mappings(ram, pd) then Mappings(ram, pd)[v] else if v < VPAGES then 0 else ram[pd][v % 1024]
  {
    SlotOfPage(ram, pd, v);
  }

  lemma HoleIsUnmapped(m: map<nat, Word>, v: nat, h: nat)
    ensures LeastHole(m, v, h) ==> v <= h < VPAGES && h !in m
  {
  }

  lemma MappedArePresent(ram: Ram, pd: nat)
    requires pd < FRAMES && Tables(ram, pd)
    ensures forall v | v in Mappings(ram, pd) :: v < VPAGES && Present(Pte(ram, pd, v))
  {
  }

  /** All that the replacement of an entry does. */
  lemma Replaced(ram: Ram, pd: nat, managed: set<nat>, free: set<nat>, v: nat, e: Word, freed: set<nat>)
    requires pd < FRAMES && Owned(ram, pd, managed, free) && v < VPAGES && Present(ram[pd][v / 1024])
    requires Present(e) && Mappable(ram, pd, managed, free, FrameOf(e))
    requires freed <= {FrameOf(Pte(ram, pd, v))} && FrameOf(e) !in freed && (freed != {} ==> OnlyRole(ram, pd, v))
    ensures var r := SetWord(ram, FrameOf(ram[pd][v / 1024]), v % 1024, e);
            Owned(r, pd, managed + freed, free + freed) && Mappings(r, pd) == Mappings(ram, pd)[v := e] &&
            r[pd] == ram[pd] && OnlyTablesChanged(ram, r, pd)
  {
    OwnedHasTables(ram, pd, managed, free);
    OwnedAfterReplace(ram, pd, managed, free, v, e, freed);
    hide Owned, Tables, Mappings, Pte, SetWord, OnlyTablesChanged;
    PteWriteMappings(ram, pd, v, e);
    PteStoreOnlyTables(ram, pd, v, e);
    OddIsNotZero(e);
  }

  lemma OddIsNotZero(e: Word)
    requires Present(e)
    ensures e != 0
  {
  }

  lemma PageAddress(va: Word)
    requires va % 4096 == 0
    ensures VAddr(L1Index(va), L2Index(va), 0) == va
  {
    AddressFields(va, L1Index(va), L2Index(va), 0);
  }

  lemma UnmappedPage(ram: Ram, pd: nat, v: nat)
    requires pd < FRAMES && v < FRAMES
    ensures v >= VPAGES || Pte(ram, pd, v) == 0 ==> Mappings(ram, pd) - {v} == Mappings(ram, pd)
  {
  }

  lemma NothingTranslated(ram: Ram, pd: nat)
    requires pd < FRAMES
    ensures SameTranslations(ram, ram, pd)
  {
  }

  lemma FreeFramesAreIdle(ram: Ram, pd: nat, managed: set<nat>, free: set<nat>, f: nat)
    requires pd < FRAMES && Owned(ram, pd, managed, free) && f in free
    ensures NoRole(ram, pd, f) && f != pd
  {
  }

  /** A page just taken out of the free set may be mapped, and everything else is as before. */
  lemma TakenFrame(ram: Ram, pd: nat, managed: set<nat>, free: set<nat>, f: nat)
    requires pd < FRAMES && Owned(ram, pd, managed, free) && f in free
    ensures Owned(ram, pd, managed, free - {f}) && Mappable(ram, pd, managed, free - {f}, f) && f in managed
    ensures NoRole(ram, pd, f)
    ensures forall v | v in Mappings(ram, pd) :: FrameOf(Mappings(ram, pd)[v]) != f
  {
  }

  /** A page whose frame is managed: its frame has no other role, and unmapping leaves the pool as it is. */
  lemma ManagedPagesAreReleasable(ram: Ram, pd: nat, managed: set<nat>, free: set<nat>, v: nat)
    requires pd < FRAMES && Owned(ram, pd, managed, free) && v < VPAGES
    requires v in Mappings(ram, pd) && FrameOf(Mappings(ram, pd)[v]) in managed
    ensures OnlyRole(ram, pd, v) && Pte(ram, pd, v) == Mappings(ram, pd)[v] && Present(Pte(ram, pd, v))
  {
    ManagedTargetsAreExclusive(ram, pd, managed, v);
  }

  lemma NothingChanged(ram: Ram, pd: nat)
    requires pd < FRAMES
    ensures OnlyTablesChanged(ram, ram, pd)
  {
  }

  /** The frame of table l1 when it exists in r1 and did not exist in r0. */
  ghost function NewTable(r0: Ram, r1: Ram, pd: FrameNo, l1: nat): set<nat>
    requires l1 < WINDOW
  {
    if Present(r1[pd][l1]) && !Present(r0[pd][l1]) then {FrameOf(r1[pd][l1])} else {}
  }

  lemma NewTableFrom(r0: Ram, r1: Ram, pd: FrameNo, l1: nat, free: set<nat>)
    requires l1 < WINDOW && NewTable(r0, r1, pd, l1) <= free
    ensures Present(r1[pd][l1]) && !Present(r0[pd][l1]) ==> FrameOf(r1[pd][l1]) in free
    ensures Present(r0[pd][l1]) || r1 == r0 ==> NewTable(r0, r1, pd, l1) == {}
  {
  }

  lemma SameNewTable(r0: Ram, r1: Ram, r2: Ram, pd: FrameNo, l1: nat)
    requires l1 < WINDOW && r2[pd] == r1[pd]
    ensures NewTable(r0, r2, pd, l1) == NewTable(r0, r1, pd, l1)
  {
  }

  /** The frames a present entry gives back when it is dropped: pmm_free_page refuses frame 0 and frames
      from max_pg on. */
  ghost function Released(e: Word, maxPg: nat): set<nat> {
    if Present(e) && 0 < FrameOf(e) < maxPg then {FrameOf(e)} else {}
  }

  lemma ReleasedIsTarget(e: Word, maxPg: nat)
    ensures Released(e, maxPg) <= {FrameOf(e)}
    ensures !Present(e) ==> Released(e, maxPg) == {}
  {
  }

  lemma TableStoreOnlyTables(ram: Ram, pd: nat, i: nat, f: nat, e: Word)
    requires pd < FRAMES && i < WINDOW && f < FRAMES && ram[pd][i] == 0 && Present(e) && FrameOf(e) == f && f != pd
    ensures var r := SetWord(ram, pd, i, e)[f := ZERO_FRAME];
            OnlyTablesChanged(ram, r, pd) && NewTable(ram, r, pd, i) == {f}
  {
    var r := SetWord(ram, pd, i, e)[f := ZERO_FRAME];
    assert r[pd] == ram[pd][i := e];
    assert r[pd][i] == e && !Present(ram[pd][i]);
  }

  /** m1 is m0 with the n pages from v0 on added, each on its own frame out of `frames`. */
  ghost predicate Extended(m0: map<nat, Word>, m1: map<nat, Word>, v0: nat, n: nat, frames: set<nat>, attr: Word) {
    (forall v :: v in m1 <==> v in m0 || v0 <= v < v0 + n) &&
    (forall v | v in m0 :: !(v0 <= v < v0 + n) && m1[v] == m0[v]) &&
    (forall v | v0 <= v < v0 + n :: FrameOf(m1[v]) in frames && FlagsOf(m1[v]) == attr && Present(m1[v])) &&
    (forall v, w | v0 <= v < w < v0 + n :: FrameOf(m1[v]) != FrameOf(m1[w]))
  }

  lemma ExtendedByNone(m: map<nat, Word>, v0: nat, frames: set<nat>, attr: Word)
    ensures Extended(m, m, v0, 0, frames, attr)
  {
  }

  lemma ExtendedByOne(m0: map<nat, Word>, m1: map<nat, Word>, v0: nat, n: nat, frames: set<nat>, attr: Word, e: Word)
    requires Extended(m0, m1, v0, n, frames, attr) && v0 + n !in m1
    requires FrameOf(e) in frames && FlagsOf(e) == attr && Present(e)
    requires forall v | v in m1 :: FrameOf(m1[v]) != FrameOf(e)
    ensures Extended(m0, m1[v0 + n := e], v0, n + 1, frames, attr)
  {
  }

  lemma ExtendedOnce(m: map<nat, Word>, v: nat, frames: set<nat>, attr: Word, e: Word)
    requires v !in m && FrameOf(e) in frames && FlagsOf(e) == attr && Present(e)
    ensures Extended(m, m[v := e], v, 1, frames, attr)
  {
  }

  lemma ExtensionShrinks(m0: map<nat, Word>, m1: map<nat, Word>, v0: nat, n: nat, frames: set<nat>, attr: Word)
    requires Extended(m0, m1, v0, n, frames, attr)
    ensures n > 0 ==> v0 in m1 && FrameOf(m1[v0]) in frames && Extended(m0, m1 - {v0}, v0 + 1, n - 1, frames, attr)
    ensures n == 0 ==> m1 == m0
  {
    if n == 0 {
      assert m1.Keys == m0.Keys;
    }
  }

  /** Page v0 + j is mapped to frame taken[j]. */
  ghost predicate MappedTo(m: map<nat, Word>, v0: nat, taken: seq<nat>) {
    forall v | v0 <= v < v0 + |taken| :: v in m && FrameOf(m[v]) == taken[v - v0]
  }

  lemma MappedToMore(m: map<nat, Word>, v0: nat, taken: seq<nat>, e: Word)
    requires MappedTo(m, v0, taken) && v0 + |taken| !in m
    ensures MappedTo(m[v0 + |taken| := e], v0, taken + [FrameOf(e)])
  {
  }

  /** Every frame of free0 is free still, or a target, or a table. */
  ghost predicate Accounted(ram: Ram, pd: nat, free0: set<nat>, free: set<nat>, taken: seq<nat>)
    requires pd < FRAMES
  {
    forall f | f in free0 :: f in free || f in taken || IsTable(ram, pd, f)
  }

  lemma TablesStay(r0: Ram, r1: Ram, pd: nat, f: nat)
    requires pd < FRAMES && OnlyTablesChanged(r0, r1, pd) && IsTable(r0, pd, f)
    ensures IsTable(r1, pd, f)
  {
    var i: nat :| i < WINDOW && Present(r0[pd][i]) && FrameOf(r0[pd][i]) == f;
    assert r1[pd][i] == r0[pd][i];
  }

  lemma AccountedMore(r0: Ram, r1: Ram, pd: nat, free0: set<nat>, free: set<nat>, free': set<nat>,
                      taken: seq<nat>, p: nat)
    requires pd < FRAMES && Accounted(r0, pd, free0, free, taken) && OnlyTablesChanged(r0, r1, pd)
    requires forall f | f in free :: f in free' || f == p || IsTable(r1, pd, f)
    ensures Accounted(r1, pd, free0, free', taken + [p])
  {
    hide OnlyTablesChanged, IsTable;
    forall f | f in free0
      ensures f in free' || f in taken + [p] || IsTable(r1, pd, f)
    {
      if IsTable(r0, pd, f) {
        TablesStay(r0, r1, pd, f);
      }
    }
  }

  /** When the directory stays and translations only go, no frame gets a new role. */
  lemma NoNewRole(r0: Ram, r1: Ram, pd: nat, f: nat)
    requires pd < FRAMES && r1[pd] == r0[pd] && NoRole(r0, pd, f)
    requires forall v | v in Mappings(r1, pd) :: v in Mappings(r0, pd) && Mappings(r0, pd)[v] == Mappings(r1, pd)[v]
    ensures NoRole(r1, pd, f)
  {
    forall v: nat | v < VPAGES && Present(Pte(r1, pd, v))
      ensures FrameOf(Pte(r1, pd, v)) != f
    {
      assert v in Mappings(r1, pd);
    }
  }

  /** The target of a page that is no longer mapped has lost its only role. */
  lemma TargetIsIdle(r0: Ram, r1: Ram, pd: nat, managed: set<nat>, free: set<nat>, v: nat)
    requires pd < FRAMES && Owned(r0, pd, managed, free) && r1[pd] == r0[pd] && v < VPAGES
    requires v in Mappings(r0, pd) && FrameOf(Mappings(r0, pd)[v]) in managed && v !in Mappings(r1, pd)
    requires forall w | w in Mappings(r1, pd) :: w in Mappings(r0, pd) && Mappings(r0, pd)[w] == Mappings(r1, pd)[w]
    ensures NoRole(r1, pd, FrameOf(Mappings(r0, pd)[v])) && FrameOf(Mappings(r0, pd)[v]) !in free
  {
    ManagedPagesAreReleasable(r0, pd, managed, free, v);
    EntriesAreClearOrPresent(r0, pd, v);
    var f := FrameOf(Mappings(r0, pd)[v]);
    forall w: nat | w < VPAGES && Present(Pte(r1, pd, w))
      ensures FrameOf(Pte(r1, pd, w)) != f
    {
      assert w in Mappings(r1, pd);
    }
    if f in free {
      FreeFramesAreIdle(r0, pd, managed, free, f);
    }
  }

  /** Which frames are lost once the pages have been unmapped again: the one that was found for the page that could not
      be backed, and the targets that the bitmap refuses. */
  lemma LostAfterRollback(r0: Ram, r1: Ram, pd: nat, managed: set<nat>, free0: set<nat>, free: set<nat>, v0: nat,
                          taken: seq<nat>, found: set<nat>, limit: nat, f: nat)
    requires pd < FRAMES && Owned(r0, pd, managed, free) && r1[pd] == r0[pd] && v0 + |taken| <= VPAGES
    requires MappedTo(Mappings(r0, pd), v0, taken) && forall t | t in taken :: t in managed
    requires forall v | v in Mappings(r1, pd) ::
      v in Mappings(r0, pd) && Mappings(r0, pd)[v] == Mappings(r1, pd)[v] && !(v0 <= v < v0 + |taken|)
    requires forall p | p in found :: p in managed && p !in free && NoRole(r0, pd, p)
    requires Accounted(r0, pd, free0, free + found, taken) && f in free0
    ensures f in managed && f !in free + Accepted(taken, limit) && NoRole(r1, pd, f) <==>
            f in found + Refused(taken, limit)
  {
    hide Mappings, Owned;
    if f in taken {
      var j: nat :| j < |taken| && taken[j] == f;
      MappedIsPage(r0, pd, v0 + j);
      TargetIsIdle(r0, r1, pd, managed, free, v0 + j);
      OwnedHasTables(r0, pd, managed, free);
      EntriesAreClearOrPresent(r0, pd, v0 + j);
      TargetHasRole(r0, pd, v0 + j);
    } else if f in found {
      NoNewRole(r0, r1, pd, f);
    } else if f !in free {
      assert IsTable(r0, pd, f);
    }
  }

  lemma MappedToLess(m: map<nat, Word>, v: nat, taken: seq<nat>, j: nat)
    requires j < |taken| && MappedTo(m, v, taken[j..])
    ensures v in m && FrameOf(m[v]) == taken[j] && MappedTo(m - {v}, v + 1, taken[j + 1..])
  {
    assert taken[j..][0] == taken[j];
    assert taken[j + 1..] == taken[j..][1..];
  }

  lemma NothingTaken(ram: Ram, pd: nat, v0: nat, free: set<nat>)
    requires pd < FRAMES
    ensures MappedTo(Mappings(ram, pd), v0, []) && Accounted(ram, pd, free, free, [])
  {
  }

  lemma AcceptedNone(limit: nat)
    ensures Accepted([], limit) == {}
  {
  }

  lemma WholeOf(taken: seq<nat>)
    ensures taken[..0] == [] && taken[0..] == taken && taken[..|taken|] == taken
  {
  }

  /** What dropping an entry frees is what the bitmap accepts of its target. */
  lemma ReleasedIsAccepted(e: Word, maxPg: nat, taken: seq<nat>, j: nat)
    requires j < |taken| && FrameOf(e) == taken[j] && Present(e)
    ensures Accepted(taken[..j + 1], maxPg) == Accepted(taken[..j], maxPg) + Released(e, maxPg)
  {
    assert taken[..j + 1] == taken[..j] + [taken[j]];
  }

  lemma ExtensionKeeps(m0: map<nat, Word>, m1: map<nat, Word>, v0: nat, n: nat, frames: set<nat>, attr: Word)
    requires Extended(m0, m1, v0, n, frames, attr)
    ensures forall v | v in m0 :: v in m1 && m1[v] == m0[v] && !(v0 <= v < v0 + n)
  {
  }

  lemma NewTablesAreTables(r0: Ram, r1: Ram, pd: FrameNo, i: nat)
    requires i < WINDOW
    ensures forall f | f in NewTable(r0, r1, pd, i) :: IsTable(r1, pd, f)
  {
  }

  lemma MappedHasTable(ram: Ram, pd: nat, v: nat)
    requires pd < FRAMES && v < FRAMES
    ensures v in Mappings(ram, pd) ==> Present(ram[pd][v / 1024])
  {
  }

  /** The frame that dropping the entry of a page gives back. */
  lemma ReleasedFrame(ram: Ram, pd: nat, v: nat, maxPg: nat)
    requires pd < FRAMES && v < FRAMES
    ensures Tables(ram, pd) && v in Mappings(ram, pd) ==>
      var f := FrameOf(Mappings(ram, pd)[v]);
      v < VPAGES && Released(Pte(ram, pd, v), maxPg) == if 0 < f < maxPg then {f} else {}
    ensures v < VPAGES && v !in Mappings(ram, pd) ==> Released(Pte(ram, pd, v), maxPg) == {}
    ensures v >= VPAGES ==> v !in Mappings(ram, pd)
  {
  }

  lemma MappedIsPage(ram: Ram, pd: nat, v: nat)
    requires pd < FRAMES && v in Mappings(ram, pd)
    ensures v < VPAGES && Mappings(ram, pd)[v] == Pte(ram, pd, v) != 0
  {
  }

  lemma TargetHasRole(ram: Ram, pd: nat, v: nat)
    requires pd < FRAMES && v in Mappings(ram, pd) && Present(Mappings(ram, pd)[v])
    ensures !NoRole(ram, pd, FrameOf(Mappings(ram, pd)[v]))
  {
  }

  class Vmm {
    const pmm: Bitmap
    const pd: FrameNo
    var ram: Ram
    ghost var managed: set<nat>

    ghost predicate Valid()
      reads this, pmm, pmm.bits
    {
      pmm.Valid() && Owned(ram, pd, managed, pmm.free)
    }

    /** The partial map from virtual page to entry that the tables stand for. */
    ghost function View(): map<nat, Word>
      reads this`ram
    {
      Mappings(ram, pd)
    }

    /** What backing more pages depends on. */
    ghost function Budget(): Account
      reads this`ram, pmm`free, pmm`lookup, pmm`maxPg
    {
      Account(Tabled(ram, pd), pmm.State(), View().Keys)
    }

    /** The machine with paging switched on: cr3 holds the frame of the directory. */
    constructor (pmm: Bitmap, cr3: FrameNo, ram: Ram, ghost managed: set<nat>)
      requires pmm.Valid() && Owned(ram, cr3, managed, pmm.free)
      ensures Valid() && this.pmm == pmm && pd == cr3 && this.ram == ram && this.managed == managed
    {
      this.pmm, pd, this.ram, this.managed := pmm, cr3, ram, managed;
    }

    // -------------------------------------------------------------- memory accesses

    /** LW: a load that does not fault. */
    method Load(va: Word) returns (w: Word)
      requires Walk(ram, pd, va).Some?
      ensures var a := Walk(ram, pd, va).value; w == ram[a.frame][a.index]
    {
      var a := Walk(ram, pd, va).value;
      w := ram[a.frame][a.index];
    }

    /** SW: a store that does not fault. */
    method Store(va: Word, w: Word)
      requires Walk(ram, pd, va).Some?
      modifies this`ram
      ensures var a := Walk(old(ram), pd, va).value; ram == SetWord(old(ram), a.frame, a.index, w)
    {
      var a := Walk(ram, pd, va).value;
      ram := SetWord(ram, a.frame, a.index, w);
    }

    /** memset of one whole page to zero. */
    method ClearPage(va: Word)
      requires va % 4096 == 0 && Walk(ram, pd, va).Some?
      modifies this`ram
      ensures ram == old(ram)[Walk(old(ram), pd, va).value.frame := ZERO_FRAME]
    {
      ram := ram[Walk(ram, pd, va).value.frame := ZERO_FRAME];
    }

    /** `l1pt->entry[i]`. */
    method LoadPde(i: nat) returns (e: Word)
      requires SelfMapped(ram, pd) && i < 1024
      ensures e == ram[pd][i]
    {
      WindowReachesTables(ram, pd, i, 0);
      e := Load(L1_BASE_VADDR + 4 * i);
    }

    /** `l2pt->entry[j]` for l2pt at L2_VADDR(i). */
    method LoadPte(i: nat, j: nat) returns (e: Word)
      requires SelfMapped(ram, pd) && i < 1024 && j < 1024 && Present(ram[pd][i])
      ensures e == ram[FrameOf(ram[pd][i])][j]
    {
      WindowReachesTables(ram, pd, i, j);
      e := Load(L2Vaddr(i) + 4 * j);
    }

    method StorePde(i: nat, e: Word)
      requires SelfMapped(ram, pd) && i < 1024
      modifies this`ram
      ensures ram == SetWord(old(ram), pd, i, e)
    {
      WindowReachesTables(ram, pd, i, 0);
      Store(L1_BASE_VADDR + 4 * i, e);
    }

    method StorePte(i: nat, j: nat, e: Word)
      requires SelfMapped(ram, pd) && i < 1024 && j < 1024 && Present(ram[pd][i])
      modifies this`ram
      ensures ram == SetWord(old(ram), FrameOf(old(ram)[pd][i]), j, e)
    {
      WindowReachesTables(ram, pd, i, j);
      Store(L2Vaddr(i) + 4 * j, e);
    }

    // -------------------------------------------------------------- operations

    /** Table l1 is absent, and the search of the bitmap would find no page for it. */
    ghost predicate TableDenied(l1: nat)
      requires l1 < WINDOW
      reads this`ram, pmm
    {
      !Present(ram[pd][l1]) && Take(pmm.State()) == None
    }

    /** The part of __vmm_map_internal that creates table l1 when it is absent. */
    method EnsureTable(l1: nat, attr: Word) returns (ok: bool)
      requires Valid() && l1 < WINDOW && Present(attr)
      modifies this`ram, pmm`lookup, pmm`free, pmm.bits
      ensures Valid() && SameTranslations(old(ram), ram, pd) && OnlyTablesChanged(old(ram), ram, pd)
      ensures View() == old(View()) && TablesFrom(old(ram), ram, pd, old(pmm.free))
      ensures ok <==> !old(TableDenied(l1))
      ensures ok <==> Present(ram[pd][l1])
      ensures ok && !Present(old(ram)[pd][l1]) ==>
        Take(old(pmm.State())).Some? && FrameOf(ram[pd][l1]) == Take(old(pmm.State())).value &&
        FlagsOf(ram[pd][l1]) == attr % 4096
      ensures forall i: nat | i < 1024 && i != l1 :: ram[pd][i] == old(ram)[pd][i]
      ensures Present(old(ram)[pd][l1]) ==> ram == old(ram)
      ensures NewTable(old(ram), ram, pd, l1) <= old(pmm.free)
      ensures pmm.free == old(pmm.free) - NewTable(old(ram), ram, pd, l1)
      ensures if ok then Tabled(ram, pd) == Tabled(old(ram), pd) + {l1} else ram == old(ram)
      ensures pmm.State() == if Present(old(ram)[pd][l1]) then old(pmm.State()) else After(old(pmm.State()))
    {
      hide Owned, Tables, NoRole, SameTranslations, OnlyTablesChanged, Bitmap.Valid, Take, After, Tabled, Mappings,
        TablesFrom;
      OwnedHasTables(ram, pd, managed, pmm.free);
      NothingChanged(ram, pd);
      NothingTranslated(ram, pd);
      EntriesAreClearOrPresent(ram, pd, 1024 * l1);
      Div1024(l1, 0);
      ok := true;
      var l1pte := LoadPde(l1);
      if l1pte == 0 {
        var newL1pt := pmm.AllocPage();
        ok := newL1pt != 0;
        if ok {
          AddTable(l1, newL1pt, attr, old(pmm.free));
          EntryFields(attr, newL1pt);
        }
      }
      SameMappings(old(ram), ram, pd);
      OneNewTable(old(ram), ram, pd, l1, old(pmm.free));
      if ok {
        OneMoreTable(old(ram), ram, pd, l1);
      }
    }

    /** A frame just taken becomes table l1, and is cleared through the window. */
    method AddTable(l1: nat, newL1pt: Word, attr: Word, ghost free: set<nat>)
      requires pmm.Valid() && Owned(ram, pd, managed, free) && l1 < WINDOW && Present(attr) && ram[pd][l1] == 0
      requires newL1pt / 4096 in free && pmm.free == free - {newL1pt / 4096}
      modifies this`ram
      ensures Valid() && SameTranslations(old(ram), ram, pd) && OnlyTablesChanged(old(ram), ram, pd)
      ensures Present(ram[pd][l1]) && NewTable(old(ram), ram, pd, l1) == {newL1pt / 4096}
      ensures ram[pd][l1] == NewEntry(attr, newL1pt)
      ensures forall i: nat | i < 1024 && i != l1 :: ram[pd][i] == old(ram)[pd][i]
    {
      hide Owned, Tables, NoRole, SameTranslations, OnlyTablesChanged, Bitmap.Valid;
      OwnedHasTables(ram, pd, managed, free);
      var e := NewEntry(attr, newL1pt);
      ghost var f := newL1pt / 4096;
      EntryFields(attr, newL1pt);
      hide NewEntry, NewTable;
      FreeFramesAreIdle(ram, pd, managed, free, f);
      OwnedAfterTable(ram, pd, managed, free, l1, f, e);
      TableWrite(ram, pd, l1, f, e);
      TableStoreOnlyTables(ram, pd, l1, f, e);
      StorePde(l1, e);
      WindowReachesTables(ram, pd, l1, 0);
      ClearPage(L2Vaddr(l1));
    }

    /** Dropping the entry of page v frees no frame that something else still uses. */
    ghost predicate Releasable(v: nat)
      requires v < VPAGES
      reads this, pmm
    {
      Released(Pte(ram, pd, v), pmm.maxPg) != {} ==> OnlyRole(ram, pd, v)
    }

    /** pmm_free_page on the target of a present entry. */
    method FreeTarget(l2pte: Word)
      requires pmm.Valid()
      modifies this`managed, pmm`free, pmm.bits
      ensures pmm.Valid()
      ensures managed == old(managed) + Released(l2pte, pmm.maxPg) &&
        pmm.free == old(pmm.free) + Released(l2pte, pmm.maxPg)
    {
      if Present(l2pte) {
        Div4096(FrameOf(l2pte), 0);
        var released := pmm.FreePage(PgAlign(l2pte));
        managed := managed + Released(l2pte, pmm.maxPg);
      }
    }

    /** The end of __vmm_map_internal: the frame of a present old entry is freed, and the entry is written. */
    method WriteEntry(l1: nat, l2: nat, e: Word)
      requires Valid() && l1 < WINDOW && l2 < 1024 && Present(ram[pd][l1])
      requires Present(e) && Mappable(ram, pd, managed, pmm.free, FrameOf(e))
      requires Releasable(1024 * l1 + l2) && FrameOf(e) !in Released(Pte(ram, pd, 1024 * l1 + l2), pmm.maxPg)
      modifies this`ram, this`managed, pmm`free, pmm.bits
      ensures Valid() && OnlyTablesChanged(old(ram), ram, pd) && ram[pd] == old(ram)[pd]
      ensures View() == old(View())[1024 * l1 + l2 := e]
      ensures var freed := old(Released(Pte(ram, pd, 1024 * l1 + l2), pmm.maxPg));
        managed == old(managed) + freed && pmm.free == old(pmm.free) + freed
    {
      hide Tables, SelfMapped, Owned, Mappings, SetWord, Pte, Mappable, OnlyRole, OnlyTablesChanged, Bitmap.Valid,
        Released;
      ghost var v := 1024 * l1 + l2;
      Div1024(l1, l2);
      OwnedHasTables(ram, pd, managed, pmm.free);
      EntriesAreClearOrPresent(ram, pd, v);
      ReleasedIsTarget(Pte(ram, pd, v), pmm.maxPg);
      Replaced(ram, pd, managed, pmm.free, v, e, Released(Pte(ram, pd, v), pmm.maxPg));
      var l2pte := LoadPte(l1, l2);
      FreeTarget(l2pte);
      StorePte(l1, l2, e);
    }

    /** `l2pt->entry[l2_inx] = ...` for a clear entry. In the window the entry is one of the directory. */
    method FillEntry(l1: nat, l2: nat, e: Word)
      requires Valid() && l1 < 1024 && l2 < 1024 && Present(ram[pd][l1]) && Pte(ram, pd, 1024 * l1 + l2) == 0
      requires l1 < WINDOW ==> Present(e) && Mappable(ram, pd, managed, pmm.free, FrameOf(e))
      modifies this`ram
      ensures l1 < WINDOW ==> Valid() && OnlyTablesChanged(old(ram), ram, pd) && ram[pd] == old(ram)[pd]
      ensures l1 < WINDOW ==> View() == old(View())[1024 * l1 + l2 := e] && Tabled(ram, pd) == Tabled(old(ram), pd)
      ensures l1 == WINDOW ==> ram == SetWord(old(ram), pd, l2, e)
    {
      hide Tables, Owned, Mappings, SetWord, Pte, Mappable, OnlyTablesChanged, Bitmap.Valid, Tabled;
      ghost var v := 1024 * l1 + l2;
      Div1024(l1, l2);
      OwnedHasTables(ram, pd, managed, pmm.free);
      if l1 < WINDOW {
        OwnedAfterMap(ram, pd, managed, pmm.free, v, e);
        PteWriteMappings(ram, pd, v, e);
        PteStoreOnlyTables(ram, pd, v, e);
      }
      StorePte(l1, l2, e);
      if l1 < WINDOW {
        SameTabled(old(ram), ram, pd);
      }
    }

    /** The end of __vmm_map_internal with forced == false: an entry is written only where there is none. */
    method FillIfClear(l1: nat, l2: nat, e: Word) returns (ok: bool)
      requires Valid() && l1 < WINDOW && l2 < 1024 && Present(ram[pd][l1])
      requires Present(e) && Mappable(ram, pd, managed, pmm.free, FrameOf(e))
      modifies this`ram
      ensures Valid() && OnlyTablesChanged(old(ram), ram, pd) && Tabled(ram, pd) == Tabled(old(ram), pd)
      ensures ram[pd] == old(ram)[pd]
      ensures ok <==> 1024 * l1 + l2 !in old(View())
      ensures if ok then View() == old(View())[1024 * l1 + l2 := e] else ram == old(ram)
    {
      hide Owned, Tables, SelfMapped, Pte, Mappings, OnlyTablesChanged, Mappable, Bitmap.Valid, Tabled, Take;
      ghost var v := 1024 * l1 + l2;
      Div1024(l1, l2);
      NothingChanged(ram, pd);
      OwnedHasTables(ram, pd, managed, pmm.free);
      EntriesAreClearOrPresent(ram, pd, v);
      var l2pte := LoadPte(l1, l2);
      ok := l2pte == 0;
      if ok {
        FillEntry(l1, l2, e);
      }
    }

    /** __vmm_map_internal with forced == false: maps page l1 * 1024 + l2 to pa, creating and clearing its table
        on demand; a page already mapped is refused. */
    method MapInternal(l1: nat, l2: nat, pa: Word, attr: Word) returns (ok: bool)
      requires Valid() && l1 < WINDOW && l2 < 1024
      requires attr <= 128 && Present(attr)
      requires Mappable(ram, pd, managed, pmm.free, pa / 4096)
      modifies this`ram, this`managed, pmm`lookup, pmm`free, pmm.bits
      ensures Valid() && managed == old(managed) && OnlyTablesChanged(old(ram), ram, pd)
      ensures View() == if ok then old(View())[1024 * l1 + l2 := NewEntry(attr, pa)] else old(View())
      ensures NewTable(old(ram), ram, pd, l1) <= old(pmm.free) &&
        pmm.free == old(pmm.free) - NewTable(old(ram), ram, pd, l1)
      ensures ok <==> 1024 * l1 + l2 !in old(View()) && !old(TableDenied(l1))
      ensures !ok ==> ram == old(ram) && pmm.free == old(pmm.free)
      ensures pmm.State() == if Present(old(ram)[pd][l1]) then old(pmm.State()) else After(old(pmm.State()))
      ensures ok ==> Tabled(ram, pd) == Tabled(old(ram), pd) + {l1}
      ensures TablesFrom(old(ram), ram, pd, old(pmm.free))
    {
      hide Owned, Tables, SelfMapped, Pte, Mappings, SameTranslations, OnlyTablesChanged, Mappable, OnlyRole,
        Bitmap.Valid, NewTable, NewEntry, Tabled, After, Take, TablesFrom;
      ghost var v := 1024 * l1 + l2;
      Div1024(l1, l2);
      EntryFields(attr, pa);
      ghost var free := pmm.free;
      OwnedHasTables(ram, pd, managed, free);
      EntriesAreClearOrPresent(ram, pd, v);
      ok := EnsureTable(l1, attr);
      NewTableFrom(old(ram), ram, pd, l1, free);
      if ok {
        label tabled:
        MappableAfterTable(old(ram), ram, pd, managed, free, pmm.free, l1, pa / 4096);
        ok := FillIfClear(l1, l2, NewEntry(attr, pa));
        OnlyTablesChangedTwice(old(ram), old@tabled(ram), ram, pd);
        SameNewTable(old(ram), old@tabled(ram), ram, pd, l1);
        SameDirectory(old@tabled(ram), ram, pd, {});
        TablesFromTwice(old(ram), old@tabled(ram), ram, pd, free, {});
      }
    }

    /** __vmm_map_internal with forced == true: the frame of a page already mapped is freed, its entry replaced. */
    method ForceMapInternal(l1: nat, l2: nat, pa: Word, attr: Word) returns (ok: bool)
      requires Valid() && l1 < WINDOW && l2 < 1024
      requires attr <= 128 && Present(attr)
      requires Mappable(ram, pd, managed, pmm.free, pa / 4096)
      requires Releasable(1024 * l1 + l2) && pa / 4096 !in Released(Pte(ram, pd, 1024 * l1 + l2), pmm.maxPg)
      modifies this`ram, this`managed, pmm`lookup, pmm`free, pmm.bits
      ensures Valid() && OnlyTablesChanged(old(ram), ram, pd)
      ensures View() == if ok then old(View())[1024 * l1 + l2 := NewEntry(attr, pa)] else old(View())
      ensures ok ==> var freed := old(Released(Pte(ram, pd, 1024 * l1 + l2), pmm.maxPg));
        managed == old(managed) + freed && pmm.free == old(pmm.free) - NewTable(old(ram), ram, pd, l1) + freed
      ensures !ok ==> ram == old(ram) && managed == old(managed) && pmm.free == old(pmm.free)
      ensures ok <==> !old(TableDenied(l1))
      ensures var s := if Present(old(ram)[pd][l1]) then old(pmm.State()) else After(old(pmm.State()));
        pmm.State() ==
          if ok then s.(free := s.free + old(Released(Pte(ram, pd, 1024 * l1 + l2), pmm.maxPg))) else s
    {
      ghost var v := 1024 * l1 + l2;
      Div1024(l1, l2);
      hide Owned, Tables, SelfMapped, Pte, Mappings, SameTranslations, OnlyTablesChanged, Mappable, OnlyRole,
        Bitmap.Valid, NewTable, NewEntry, Tabled, After, Take;
      EntryFields(attr, pa);
      ghost var free := pmm.free;
      OwnedHasTables(ram, pd, managed, free);
      EntriesAreClearOrPresent(ram, pd, v);
      ok := EnsureTable(l1, attr);
      SameMappings(old(ram), ram, pd);
      if ok {
        label tabled:
        MappableAfterTable(old(ram), ram, pd, managed, free, pmm.free, l1, pa / 4096);
        SamePte(old(ram), ram, pd, v);
        if Released(Pte(ram, pd, v), pmm.maxPg) != {} {
          OnlyRoleAfterTable(old(ram), ram, pd, managed, free, l1, v);
        }
        WriteEntry(l1, l2, NewEntry(attr, pa));
        OnlyTablesChangedTwice(old(ram), old@tabled(ram), ram, pd);
      }
    }

    /** vmm_fmap_page: maps va to pa, whatever it mapped to before. */
    method ForceMapPage(va: Word, pa: Word, tattr: Word) returns (r: MapResult)
      requires Valid() && va % 4096 == 0 && va / 4096 < VPAGES
      requires tattr <= 128 && Present(tattr)
      requires Mappable(ram, pd, managed, pmm.free, pa / 4096)
      requires Releasable(va / 4096) && pa / 4096 !in Released(Pte(ram, pd, va / 4096), pmm.maxPg)
      modifies this`ram, this`managed, pmm`lookup, pmm`free, pmm.bits
      ensures Valid() && OnlyTablesChanged(old(ram), ram, pd)
      ensures r == if pa == 0 || va == 0 || old(TableDenied(va / 4096 / 1024)) then Null else Mapped(va)
      ensures pa == 0 || va == 0 ==> pmm.State() == old(pmm.State())
      ensures pa != 0 && va != 0 ==>
        var s := if Present(old(ram)[pd][va / 4096 / 1024]) then old(pmm.State()) else After(old(pmm.State()));
        pmm.State() ==
          if r.Mapped? && va / 4096 in old(View()) && 0 < FrameOf(old(View())[va / 4096]) < pmm.maxPg then
            s.(free := s.free + {FrameOf(old(View())[va / 4096])})
          else s
      ensures View() == if r == Null then old(View()) else old(View())[va / 4096 := NewEntry(tattr, pa)]
    {
      hide VAddr, L1Index, L2Index, Owned, Mappings, OnlyTablesChanged, Mappable, Bitmap.Valid, OnlyRole, Pte, Take;
      var l1, l2 := L1Index(va), L2Index(va);
      PageAddress(va);
      PageSplit(va);
      NothingChanged(ram, pd);
      OwnedHasTables(ram, pd, managed, pmm.free);
      ReleasedFrame(ram, pd, va / 4096, pmm.maxPg);
      r := Null;
      if pa != 0 && va != 0 {
        var ok := ForceMapInternal(l1, l2, pa, tattr);
        r := if ok then Mapped(VAddr(l1, l2, 0)) else Null;
      }
    }

    /** vmm_set_mapping: inserts a mapping only where there is none, and never in the window. */
    method SetMapping(va: Word, pa: Word, attr: Word)
      requires Valid() && va % 4096 == 0 && attr <= 128 && Present(attr)
      requires Mappable(ram, pd, managed, pmm.free, pa / 4096)
      modifies this`ram, this`managed, pmm`lookup, pmm`free, pmm.bits
      ensures Valid() && managed == old(managed) && OnlyTablesChanged(old(ram), ram, pd)
      ensures var v := va / 4096;
        View() == if v < VPAGES && v !in old(View()) && !old(TableDenied(v / 1024))
                  then old(View())[v := NewEntry(attr, pa)] else old(View())
      ensures pmm.free <= old(pmm.free) && TablesFrom(old(ram), ram, pd, old(pmm.free))
      ensures var v := va / 4096;
        pmm.State() == (if v < VPAGES && !Present(old(ram)[pd][v / 1024]) then After(old(pmm.State()))
                        else old(pmm.State())) &&
        Tabled(ram, pd) == Tabled(old(ram), pd) +
          if v < VPAGES && v !in old(View()) && !old(TableDenied(v / 1024)) then {v / 1024} else {}
    {
      hide L1Index, L2Index, Owned, Mappings, OnlyTablesChanged, Mappable, Bitmap.Valid, NewTable, NewEntry, TablesFrom,
        Tabled, Take, After;
      var l1, l2 := L1Index(va), L2Index(va);
      PageSplit(va);
      NothingChanged(ram, pd);
      SameDirectory(ram, ram, pd, pmm.free);
      if l1 == 1023 {
        return;
      }
      var ok := MapInternal(l1, l2, pa, attr);
    }

    /** The inner part of vmm_unmap_page: the target is freed, then the entry is cleared. */
    method DropEntry(l1: nat, l2: nat)
      requires Valid() && l1 < WINDOW && l2 < 1024 && Present(ram[pd][l1])
      requires Releasable(1024 * l1 + l2)
      modifies this`ram, this`managed, pmm`free, pmm.bits
      ensures Valid() && OnlyTablesChanged(old(ram), ram, pd)
      ensures View() == old(View()) - {1024 * l1 + l2} && ram[pd] == old(ram)[pd]
      ensures var freed := old(Released(Pte(ram, pd, 1024 * l1 + l2), pmm.maxPg));
        managed == old(managed) + freed && pmm.free == old(pmm.free) + freed
    {
      hide Owned, Tables, SelfMapped, Pte, Mappings, SetWord, OnlyTablesChanged, OnlyRole, Bitmap.Valid, Released;
      ghost var v := 1024 * l1 + l2;
      Div1024(l1, l2);
      OwnedHasTables(ram, pd, managed, pmm.free);
      EntriesAreClearOrPresent(ram, pd, v);
      ReleasedIsTarget(Pte(ram, pd, v), pmm.maxPg);
      OwnedAfterDrop(ram, pd, managed, pmm.free, v, Released(Pte(ram, pd, v), pmm.maxPg));
      PteWriteMappings(ram, pd, v, 0);
      PteStoreOnlyTables(ram, pd, v, 0);
      var l2pte := LoadPte(l1, l2);
      FreeTarget(l2pte);
      StorePte(l1, l2, 0);
    }

    /** vmm_unmap_page: removes the mapping and gives the frame back. The window is left alone. */
    method UnmapPage(va: Word)
      requires Valid() && va % 4096 == 0
      requires va / 4096 < VPAGES ==> Releasable(va / 4096)
      modifies this`ram, this`managed, pmm`free, pmm.bits
      ensures Valid() && OnlyTablesChanged(old(ram), ram, pd)
      ensures View() == old(View()) - {va / 4096} && ram[pd] == old(ram)[pd]
      ensures var freed := if va / 4096 < VPAGES then old(Released(Pte(ram, pd, va / 4096), pmm.maxPg)) else {};
        managed == old(managed) + freed && pmm.free == old(pmm.free) + freed
      ensures va / 4096 in old(View()) ==> var f := FrameOf(old(View())[va / 4096]);
        pmm.free == old(pmm.free) + if 0 < f < pmm.maxPg then {f} else {}
      ensures va / 4096 !in old(View()) ==> pmm.free == old(pmm.free) && managed == old(managed)
    {
      var l1, l2 := L1Index(va), L2Index(va);
      PageSplit(va);
      hide Owned, Tables, SelfMapped, Pte, Mappings, OnlyTablesChanged, OnlyRole, Bitmap.Valid, Released;
      UnmappedPage(ram, pd, va / 4096);
      ReleasedFrame(ram, pd, va / 4096, pmm.maxPg);
      NothingChanged(ram, pd);
      if l1 == 1023 {
        return;
      }
      OwnedHasTables(ram, pd, managed, pmm.free);
      EntriesAreClearOrPresent(ram, pd, va / 4096);
      var l1pte := LoadPde(l1);
      if l1pte != 0 {
        DropEntry(l1, l2);
      } else {
        ReleasedIsTarget(0, pmm.maxPg);
      }
    }

    /** vmm_lookup: reads back what is mapped, zeros where nothing is. Looking into the window reads the
        directory as if it were a table. */
    method Lookup(va: Word) returns (m: VMapping)
      requires Valid() && va % 4096 == 0
      ensures var v := va / 4096;
        var e := if v in View() then View()[v] else if v < VPAGES then 0 else ram[pd][v % 1024];
        m == VMapping(FrameOf(e), 4096 * FrameOf(e), FlagsOf(e))
    {
      hide L1Index, L2Index, Owned, Tables, Mappings, Pte, Bitmap.Valid, FrameOf;
      var l1, l2 := L1Index(va), L2Index(va);
      PageSplit(va);
      OwnedHasTables(ram, pd, managed, pmm.free);
      SlotOfPage(ram, pd, va / 4096);
      LookedUp(ram, pd, va / 4096);
      var l1pte := LoadPde(l1);
      m := VMapping(0, 0, 0);
      EntryParts(0);
      if l1pte != 0 {
        var l2pte := LoadPte(l1, l2);
        EntryParts(l2pte);
        if l2pte != 0 {
          m := VMapping((l2pte - l2pte % 4096) / 4096, l2pte - l2pte % 4096, l2pte % 4096);
        }
      }
    }

    /** The scan of vmm_map_page, upwards from va to the first clear entry h. It reads the first entry of every
        table it enters, and so faults when that table is absent. Past the last table it reads the directory. */
    method FindHole(va: Word, ghost h: nat) returns (l1: nat, l2: nat, fault: bool)
      requires Valid() && LeastClear(ram, pd, va / 4096, h)
      ensures l1 == h / 1024 && l2 == h % 1024
      ensures fault <==> ram[pd][h / 1024] == 0 && h / 1024 != va / 4096 / 1024
    {
      hide Owned, Tables, SelfMapped, Pte, Bitmap.Valid;
      PageSplit(va);
      OwnedHasTables(ram, pd, managed, pmm.free);
      l1, l2 := L1Index(va), L2Index(va);
      var l1pte := LoadPde(l1);
      SlotOfPage(ram, pd, va / 4096);
      while l1pte != 0 && l1 < 1024
        invariant l1 < 1024 && l2 <= 1024 && va / 4096 <= 1024 * l1 + l2 <= h
        invariant l1pte == ram[pd][l1] && (l1pte == 0 || Present(l1pte))
        invariant l1pte == 0 ==> h == va / 4096 == 1024 * l1 + l2 && l2 < 1024
        decreases h - (1024 * l1 + l2), l2
      {
        if l2 == 1024 {
          l1 := l1 + 1;
          l2 := 0;
          Div1024(l1, l2);
          SlotOfPage(ram, pd, 1024 * l1);
          l1pte := LoadPde(l1);
          if l1pte == 0 {
            // the window shows nothing here: the read of l2pt->entry[0] faults
            return l1, l2, true;
          }
        }
        Div1024(l1, l2);
        SlotOfPage(ram, pd, 1024 * l1 + l2);
        var l2pte := LoadPte(l1, l2);
        if l2pte == 0 {
          return l1, l2, false;
        }
        l2 := l2 + 1;
      }
      Div1024(l1, l2);
      fault := false;
    }

    /** vmm_map_page: maps pa at the first unmapped page h at or above va. Only the table of va itself may be
        created; a scan that runs into another absent table ends in a page fault. When every page up to the window is
        mapped, h lies in the window: the entry that is overwritten is one of the directory. */
    method MapPage(va: Word, pa: Word, tattr: Word, ghost h: nat) returns (r: MapResult)
      requires Valid() && va % 4096 == 0 && pa % 4096 == 0 && tattr <= 128 && Present(tattr)
      requires va != 0 && pa != 0 ==> LeastClear(ram, pd, va / 4096, h)
      requires va != 0 && pa != 0 && h < VPAGES ==> Mappable(ram, pd, managed, pmm.free, pa / 4096)
      modifies this`ram, this`managed, pmm`lookup, pmm`free, pmm.bits
      ensures pa == 0 || va == 0 || h < VPAGES ==>
        Valid() && managed == old(managed) && OnlyTablesChanged(old(ram), ram, pd) && pmm.free <= old(pmm.free) &&
        TablesFrom(old(ram), ram, pd, old(pmm.free))
      ensures pa == 0 || va == 0 ==> r == Null
      ensures pa != 0 && va != 0 ==>
        (r == PageFault <==> old(ram)[pd][h / 1024] == 0 && h / 1024 != va / 4096 / 1024) &&
        (r == Null <==> h < VPAGES && old(TableDenied(h / 1024)) && h / 1024 == va / 4096 / 1024) &&
        (r.Mapped? ==> r.va == 4096 * h)
      ensures r.Mapped? && h < VPAGES ==>
        View() == old(View())[h := NewEntry(tattr, pa)] && Tabled(ram, pd) == Tabled(old(ram), pd) + {h / 1024}
      ensures pa != 0 && va != 0 && h >= VPAGES ==> ram == SetWord(old(ram), pd, h % 1024, NewEntry(tattr, pa))
      ensures !r.Mapped? ==> ram == old(ram) && pmm.free == old(pmm.free)
      ensures pmm.State() ==
        if pa == 0 || va == 0 || r == PageFault || Present(old(ram)[pd][h / 1024]) then old(pmm.State())
        else After(old(pmm.State()))
    {
      hide Owned, Tables, SelfMapped, Pte, Mappings, SameTranslations, OnlyTablesChanged, Mappable, Bitmap.Valid,
        NewEntry, TablesFrom;
      NothingChanged(ram, pd);
      SameDirectory(ram, ram, pd, pmm.free);
      if pa == 0 || va == 0 {
        return Null;
      }
      EntryFields(tattr, pa);
      OwnedHasTables(ram, pd, managed, pmm.free);
      SlotOfPage(ram, pd, h);
      if h < VPAGES {
        EntriesAreClearOrPresent(ram, pd, h);
      }
      var l1, l2, fault := FindHole(va, h);
      if fault {
        return PageFault;
      }
      var l1pte := LoadPde(l1);
      if l1pte != 0 {
        FillEntry(l1, l2, NewEntry(tattr, pa));
        if h < VPAGES {
          SameDirectory(old(ram), ram, pd, pmm.free);
        }
        return Mapped(VAddr(l1, l2, 0));
      }
      var ok := MapInternal(l1, l2, pa, tattr);
      r := if ok then Mapped(VAddr(l1, l2, 0)) else Null;
    }

    /** vmm_alloc_page: backs the first unmapped page at or above va with a page from the bitmap. A page that cannot
        be mapped is given back, unless it is one past max_pg, which pmm_free_page refuses. */
    method AllocPage(va: Word, tattr: Word, ghost h: nat) returns (r: MapResult)
      requires Valid() && va % 4096 == 0 && tattr <= 128 && Present(tattr)
      requires va != 0 ==> LeastHole(View(), va / 4096, h)
      modifies this`ram, this`managed, pmm`lookup, pmm`free, pmm.bits
      ensures Valid() && managed == old(managed) && OnlyTablesChanged(old(ram), ram, pd)
      ensures pmm.free <= old(pmm.free) && TablesFrom(old(ram), ram, pd, old(pmm.free))
      ensures r.Mapped? ==> r.va == 4096 * h && Extended(old(View()), View(), h, 1, old(pmm.free), tattr)
      ensures r.Mapped? ==> Take(old(pmm.State())) == Some(FrameOf(View()[h]))
      ensures !r.Mapped? ==> View() == old(View())
      ensures r.Mapped? <==>
        va != 0 && Take(old(pmm.State())).Some? &&
        (Present(old(ram)[pd][h / 1024]) || (h / 1024 == va / 4096 / 1024 && Take(After(old(pmm.State()))).Some?))
      ensures va != 0 && h == va / 4096 ==>
        (r.Mapped? <==> CanBack(old(Budget()), h)) && r != PageFault && Budget() == BackOrPass(old(Budget()), h)
      ensures r == Null && pmm.free != old(pmm.free) ==>
        exists f :: f in old(pmm.free) && pmm.maxPg <= f && pmm.free == old(pmm.free) - {f}
      ensures pmm.State() ==
        match Take(old(pmm.State()))
        case None => After(old(pmm.State()))
        case Some(p) =>
          var s := After(old(pmm.State()));
          var s' := if va == 0 || r == PageFault || Present(old(ram)[pd][h / 1024]) then s else After(s);
          if r == Null then s'.(free := s'.free + if 0 < p < s'.limit then {p} else {}) else s'
    {
      hide Owned, Tables, Mappings, OnlyTablesChanged, Mappable, NoRole, Bitmap.Valid, Take, After, Extended, Tabled,
        NewEntry, CanBack, WithPage, BackOrPass, LeastHole, LeastClear, TablesFrom, FrameOf, FlagsOf;
      ghost var free, a := pmm.free, Budget();
      HoleIsUnmapped(View(), va / 4096, h);
      BackedIs(a, h);
      PassedIs(a, h);
      OwnedHasTables(ram, pd, managed, free);
      if va != 0 {
        EntriesAreClearOrPresent(ram, pd, h);
        HasTable(ram, pd, h / 1024);
        HoleIsClear(ram, pd, va / 4096, h);
      }
      var pp := pmm.AllocPage();
      ghost var f := pp / 4096;
      if pp != 0 {
        TakenFrame(ram, pd, managed, free, f);
        EntryFields(tattr, pp);
      }
      ghost var left := pmm.free;
      r := MapPage(va, pp, tattr, h);
      SameDirectory(old(ram), old(ram), pd, free);
      TablesFromTwice(old(ram), old(ram), ram, pd, free, left);
      if r == Null {
        GiveBack(pp);
      } else if r.Mapped? {
        ExtendedOnce(old(View()), h, free, tattr, NewEntry(tattr, pp));
        assert View().Keys == a.mapped + {h};
      }
    }

    /** pmm_free_page on a frame that could not be mapped, or on none. */
    method GiveBack(pp: Word)
      requires Valid() && (pp != 0 ==> pp / 4096 in managed && NoRole(ram, pd, pp / 4096))
      modifies pmm`free, pmm.bits
      ensures Valid() && pmm.free == old(pmm.free) + if 0 < pp / 4096 < pmm.maxPg then {pp / 4096} else {}
    {
      hide Owned, NoRole, Bitmap.Valid;
      var freed := pmm.FreePage(pp);
      if freed {
        OwnedAfterRelease(ram, pd, managed, old(pmm.free), pp / 4096);
        assert managed + {pp / 4096} == managed;
      }
    }

    /** Frame f has no role and is not free either: nothing will ever hand it out again. */
    ghost predicate Lost(f: nat)
      reads this, pmm
    {
      f in managed && f !in pmm.free && NoRole(ram, pd, f)
    }

    /** One round of vmm_alloc_pages. A page taken from the bitmap is lost when it cannot be mapped. */
    method BackPage(va: Word, tattr: Word) returns (ok: bool, ghost e: Word)
      requires Valid() && va % 4096 == 0 && va / 4096 < VPAGES && tattr <= 128 && Present(tattr)
      modifies this`ram, this`managed, pmm`lookup, pmm`free, pmm.bits
      ensures Valid() && managed == old(managed) && OnlyTablesChanged(old(ram), ram, pd)
      ensures pmm.free <= old(pmm.free) && TablesFrom(old(ram), ram, pd, old(pmm.free))
      ensures ok <==> CanBack(old(Budget()), va / 4096)
      ensures ok ==> Budget() == WithPage(old(Budget()), va / 4096)
      ensures ok ==>
        Take(old(pmm.State())) == Some(FrameOf(e)) && FrameOf(e) in old(pmm.free) && FlagsOf(e) == tattr &&
        Present(e) && va / 4096 !in old(View()) && View() == old(View())[va / 4096 := e]
      ensures ok ==> forall v | v in old(View()) :: FrameOf(old(View())[v]) != FrameOf(e)
      ensures ok ==> forall f | f in old(pmm.free) :: f in pmm.free || f == FrameOf(e) || IsTable(ram, pd, f)
      ensures !ok ==> ram == old(ram) && pmm.State() == Missed(old(Budget()), va / 4096)
      ensures !ok ==> pmm.free == old(pmm.free) - Found(old(pmm.State()))
      ensures !ok ==> forall f | Take(old(pmm.State())) == Some(f) :: f in old(pmm.free) && Lost(f)
    {
      hide Owned, Tables, Mappings, OnlyTablesChanged, Mappable, NoRole, NewTable, Bitmap.Valid, Take, After, IsTable,
        L1Index, L2Index, NewEntry, Tabled, CanBack, WithPage, TablesFrom, Missed;
      BackedIs(Budget(), va / 4096);
      MissedIs(Budget(), va / 4096);
      MappedHasTable(ram, pd, va / 4096);
      NothingChanged(ram, pd);
      SameDirectory(ram, ram, pd, pmm.free);
      PageSplit(va);
      HasTable(ram, pd, L1Index(va));
      ghost var free := pmm.free;
      var pp := pmm.AllocPage();
      var l1, l2 := L1Index(va), L2Index(va);
      ok, e := pp != 0, NewEntry(tattr, pp);
      if ok {
        TakenFrame(ram, pd, managed, free, pp / 4096);
        EntryFields(tattr, pp);
        ghost var left := pmm.free;
        ok := MapInternal(l1, l2, pp, tattr);
        TablesFromTwice(old(ram), old(ram), ram, pd, free, left);
        NewTablesAreTables(old(ram), ram, pd, l1);
      }
    }

    /** The roll-back of vmm_alloc_pages: unmaps the first n pages from va, whose frames are `taken`. */
    method Rollback(va: Word, n: nat, ghost m0: map<nat, Word>, ghost frames: set<nat>, ghost tattr: Word,
                    ghost taken: seq<nat>)
      requires Valid() && va % 4096 == 0 && va / 4096 + n <= VPAGES && |taken| == n
      requires Extended(m0, View(), va / 4096, n, frames, tattr) && frames <= managed && pmm.free <= frames
      requires MappedTo(View(), va / 4096, taken)
      modifies this`ram, this`managed, pmm`free, pmm.bits
      ensures Valid() && managed == old(managed) && OnlyTablesChanged(old(ram), ram, pd) && ram[pd] == old(ram)[pd]
      ensures View() == m0 && pmm.free <= frames
      ensures pmm.free == old(pmm.free) + Accepted(taken, pmm.maxPg)
    {
      hide Owned, Tables, Mappings, OnlyTablesChanged, Bitmap.Valid, Extended, OnlyRole, Accepted, MappedTo;
      NothingChanged(ram, pd);
      AcceptedNone(pmm.maxPg);
      WholeOf(taken);
      var j, va' := 0, va;
      while j < n
        invariant j <= n && va' == va + 4096 * j
        invariant Valid() && managed == old(managed) && OnlyTablesChanged(old(ram), ram, pd) && ram[pd] == old(ram)[pd]
        invariant pmm.free <= frames && pmm.free == old(pmm.free) + Accepted(taken[..j], pmm.maxPg)
        invariant Extended(m0, View(), va / 4096 + j, n - j, frames, tattr)
        invariant MappedTo(View(), va / 4096 + j, taken[j..])
      {
        label step:
        Div4096(va / 4096 + j, 0);
        ExtensionShrinks(m0, View(), va / 4096 + j, n - j, frames, tattr);
        MappedToLess(View(), va / 4096 + j, taken, j);
        ManagedPagesAreReleasable(ram, pd, managed, pmm.free, va / 4096 + j);
        ReleasedIsAccepted(Pte(ram, pd, va / 4096 + j), pmm.maxPg, taken, j);
        ReleasedIsTarget(Pte(ram, pd, va / 4096 + j), pmm.maxPg);
        UnmapPage(va');
        OnlyTablesChangedTwice(old(ram), old@step(ram), ram, pd);
        j, va' := j + 1, va' + 4096;
      }
      ExtensionShrinks(m0, View(), va / 4096 + n, 0, frames, tattr);
    }

    /** vmm_alloc_pages: backs every page of [va, va + sz), or none of them. */
    method AllocPages(va: Word, sz: Word, tattr: Word) returns (ok: bool)
      requires Valid() && va % 4096 == 0 && sz % 4096 == 0 && tattr <= 128 && Present(tattr)
      requires va / 4096 + sz / 4096 <= VPAGES
      modifies this`ram, this`managed, pmm`lookup, pmm`free, pmm.bits
      ensures Valid() && managed == old(managed) && OnlyTablesChanged(old(ram), ram, pd)
      ensures pmm.free <= old(pmm.free) && TablesFrom(old(ram), ram, pd, old(pmm.free))
      ensures ok <==> CanBackAll(old(Budget()), va / 4096, sz / 4096)
      ensures ok ==> Budget() == WithPages(old(Budget()), va / 4096, sz / 4096)
      ensures ok ==> Extended(old(View()), View(), va / 4096, sz / 4096, old(pmm.free), tattr)
      ensures ok ==> MappedTo(View(), va / 4096, Targets(old(Budget()), va / 4096, sz / 4096))
      ensures !ok ==> View() == old(View()) && Budget() == AfterFailure(old(Budget()), va / 4096, sz / 4096)
      ensures !ok ==> forall f | f in old(pmm.free) ::
        Lost(f) <==> f in LostFrames(old(Budget()), va / 4096, sz / 4096)
    {
      hide Owned, Tables, Mappings, OnlyTablesChanged, Mappable, NoRole, NewTable, Bitmap.Valid, Take, After, Extended,
        Tabled, CanBack, CanBackAll, WithPage, WithPages, Targets, AfterFailure, LostFrames, MappedTo, Accounted,
        Found, Missed, IsTable, Accepted, Refused, TablesFrom;
      ghost var v0, n, taken := va / 4096, sz / 4096, [];
      OwnedHasTables(ram, pd, managed, pmm.free);
      ExtendedByNone(View(), v0, pmm.free, tattr);
      NothingChanged(ram, pd);
      SameDirectory(ram, ram, pd, pmm.free);
      BackedNone(Budget(), v0);
      NothingTaken(ram, pd, v0, pmm.free);
      var i, va' := 0, va;
      while i < sz / 4096
        invariant i <= sz / 4096 && va' == va + 4096 * i && |taken| == i
        invariant Valid() && managed == old(managed) && OnlyTablesChanged(old(ram), ram, pd)
        invariant pmm.free <= old(pmm.free) && forall t | t in taken :: t in managed
        invariant TablesFrom(old(ram), ram, pd, old(pmm.free))
        invariant Extended(old(View()), View(), v0, i, old(pmm.free), tattr)
        invariant CanBackAll(old(Budget()), v0, i) && Budget() == WithPages(old(Budget()), v0, i)
        invariant taken == Targets(old(Budget()), v0, i)
        invariant MappedTo(View(), v0, taken) && Accounted(ram, pd, old(pmm.free), pmm.free, taken)
      {
        label step:
        Div4096(va / 4096 + i, 0);
        BackedStep(old(Budget()), v0, i);
        ghost var e;
        ok, e := BackPage(va', tattr);
        OnlyTablesChangedTwice(old(ram), old@step(ram), ram, pd);
        TablesFromTwice(old(ram), old@step(ram), ram, pd, old(pmm.free), old@step(pmm.free));
        if !ok {
          FailureIs(old(Budget()), v0, n, i);
          FoundIs(old@step(pmm.State()));
          Undo(va, i, old(View()), old(pmm.free), tattr, taken, Found(old@step(pmm.State())), old@step(pmm.free));
          OnlyTablesChangedTwice(old(ram), old@step(ram), ram, pd);
          SameDirectory(old@step(ram), ram, pd, {});
          SameTabled(old@step(ram), ram, pd);
          TablesFromTwice(old(ram), old@step(ram), ram, pd, old(pmm.free), {});
          return false;
        }
        ExtendedByOne(old(View()), old@step(View()), v0, i, old(pmm.free), tattr, e);
        MappedToMore(old@step(View()), v0, taken, e);
        AccountedMore(old@step(ram), ram, pd, old(pmm.free), old@step(pmm.free), pmm.free, taken, FrameOf(e));
        taken := taken + [FrameOf(e)];
        i, va' := i + 1, va' + 4096;
      }
      ok := true;
    }

    /** The failing branch of vmm_alloc_pages, `found` being the frame taken for the page that could not be backed. */
    method Undo(va: Word, n: nat, ghost m0: map<nat, Word>, ghost free0: set<nat>, ghost tattr: Word,
                ghost taken: seq<nat>, ghost found: set<nat>, ghost before: set<nat>)
      requires Valid() && va % 4096 == 0 && va / 4096 + n <= VPAGES && |taken| == n
      requires Extended(m0, View(), va / 4096, n, free0, tattr) && free0 <= managed && before <= free0
      requires MappedTo(View(), va / 4096, taken) && Accounted(ram, pd, free0, before, taken)
      requires pmm.free == before - found && forall t | t in taken :: t in managed
      requires forall f | f in found :: f in before && Lost(f)
      modifies this`ram, this`managed, pmm`free, pmm.bits
      ensures Valid() && managed == old(managed) && OnlyTablesChanged(old(ram), ram, pd) && ram[pd] == old(ram)[pd]
      ensures View() == m0 && pmm.free == before - found + Accepted(taken, pmm.maxPg) && pmm.free <= free0
      ensures forall f | f in free0 :: Lost(f) <==> f in found + Refused(taken, pmm.maxPg)
    {
      hide Owned, Tables, Mappings, OnlyTablesChanged, NoRole, Bitmap.Valid, Extended, MappedTo, Accounted, Accepted,
        Refused;
      Rollback(va, n, m0, free0, tattr, taken);
      ExtensionKeeps(m0, old(View()), va / 4096, n, free0, tattr);
      assert before - found + found == before;
      forall f | f in free0
        ensures Lost(f) <==> f in found + Refused(taken, pmm.maxPg)
      {
        LostAfterRollback(old(ram), ram, pd, managed, free0, before - found, va / 4096, taken, found, pmm.maxPg, f);
      }
    }

    // -------------------------------------------------------------- virtual memory as its users see it

    /** va is an aligned address in a page that vmm_alloc_page or vmm_alloc_pages has backed. */
    ghost predicate Backed(va: Word)
      reads this
    {
      va % 4 == 0 && va / 4096 < VPAGES && va / 4096 in View() && FrameOf(View()[va / 4096]) in managed
    }

    /** LW on a backed address. */
    method LW(va: Word) returns (w: Word)
      requires Valid() && Backed(va)
      ensures w == WordAt(ram, pd, va)
    {
      OwnedHasTables(ram, pd, managed, pmm.free);
      hide Owned, Tables, Mappings, Pte, Bitmap.Valid;
      EntriesAreClearOrPresent(ram, pd, va / 4096);
      WalkIsPte(ram, pd, va);
      w := Load(va);
    }

    /** SW on a backed address: no other address reads differently afterwards, and no translation changes. */
    method SW(va: Word, w: Word)
      requires Valid() && Backed(va)
      modifies this`ram
      ensures Valid() && View() == old(View()) && WordAt(ram, pd, va) == w && ram[pd] == old(ram)[pd]
      ensures forall u: Word | u != va && u % 4 == 0 && u / 4096 in View() ::
        WordAt(ram, pd, u) == WordAt(old(ram), pd, u)
    {
      hide Owned, Tables, Mappings, Pte, SetWord, WordAt, SameTranslations, Bitmap.Valid, Walk;
      ghost var v := va / 4096;
      OwnedHasTables(ram, pd, managed, pmm.free);
      EntriesAreClearOrPresent(ram, pd, v);
      WalkIsPte(ram, pd, va);
      StoreIsLocal(ram, pd, managed, pmm.free, va, w);
      SameMappings(ram, SetWord(ram, FrameOf(Pte(ram, pd, v)), va % 4096 / 4, w), pd);
      MappedArePresent(ram, pd);
      Store(va, w);
    }
  }

  /** Table edits leave the words of a managed page alone. */
  lemma WordsSurvive(r0: Ram, r1: Ram, pd: nat, managed: set<nat>, free: set<nat>, va: Word)
    requires pd < FRAMES && OnlyTablesChanged(r0, r1, pd) && Owned(r1, pd, managed, free)
    requires va / 4096 in Mappings(r0, pd) && va / 4096 in Mappings(r1, pd)
    requires Mappings(r0, pd)[va / 4096] == Mappings(r1, pd)[va / 4096]
    requires FrameOf(Mappings(r1, pd)[va / 4096]) in managed
    ensures WordAt(r1, pd, va) == WordAt(r0, pd, va)
  {
    ManagedTargetsArePlain(r1, pd, managed, va / 4096);
  }
}
