/** Callers of kernel/mm/vmm.c and kernel/mm/pmm.c: whole sequences of page operations. */
module PageSession {
  import opened Words
  import opened Paging
  import opened PageSearch
  import opened PhysicalPages
  import opened Backing
  import opened VirtualMemory
  import opened PageBooks

  /** The translations are those from before and those of `pages`, on frames of the pool. */
  ghost predicate PagesKnown(m0: map<nat, Word>, m: map<nat, Word>, managed: set<nat>, pages: seq<nat>) {
    Distinct(pages) &&
    (forall v | v in m0 :: v in m && m[v] == m0[v] && v !in pages) &&
    (forall v | v in m :: v in m0 || v in pages) &&
    (forall v | v in pages :: v < VPAGES && v in m && FrameOf(m[v]) in managed)
  }

  /** The frames in hand are frames of the pool that are neither free nor in use. */
  ghost predicate FramesKnown(ram: Ram, pd: nat, managed: set<nat>, free: set<nat>, hand: seq<nat>)
    requires pd < FRAMES
  {
    Distinct(hand) && forall f | f in hand :: 0 < f < FRAMES && f in managed && f !in free && NoRole(ram, pd, f)
  }

  /** In this state no managed frame has two roles, and none that has one is free. */
  ghost predicate RolesAreSingle(ram: Ram, pd: nat, managed: set<nat>, free: set<nat>)
    requires pd < FRAMES
  {
    forall f, r, s | f in managed && HasRole(ram, pd, f, r) && HasRole(ram, pd, f, s) :: r == s && f !in free
  }

  lemma OwnedHasSingleRoles(ram: Ram, pd: nat, managed: set<nat>, free: set<nat>)
    requires pd < FRAMES && Owned(ram, pd, managed, free)
    ensures RolesAreSingle(ram, pd, managed, free)
  {
    hide HasRole, Owned;
    forall f, r, s | f in managed && HasRole(ram, pd, f, r) && HasRole(ram, pd, f, s)
      ensures r == s && f !in free
    {
      AtMostOneRole(ram, pd, managed, free, f, r, s);
    }
  }

  lemma DistinctRange(s: seq<nat>, v: nat, n: nat)
    requires Distinct(s) && forall u | v <= u < v + n :: u !in s
    ensures Distinct(s + Range(v, n)) && forall y :: y in s + Range(v, n) <==> y in s || v <= y < v + n
  {
    var r := Range(v, n);
    assert forall k | 0 <= k < n :: r[k] == v + k;
    hide Range;
    forall y | v <= y < v + n
      ensures y in r
    {
      assert r[y - v] == y;
    }
    forall j, k | 0 <= j < k < |s + r|
      ensures (s + r)[j] != (s + r)[k]
    {
      if k >= |s| > j {
        assert (s + r)[j] in s && (s + r)[k] == v + (k - |s|);
      }
    }
  }

  // ---------------------------------------------------------------- what the operations do to the books

  lemma PagesMore(m0: map<nat, Word>, m: map<nat, Word>, managed: set<nat>, pages: seq<nat>, v: nat, e: Word)
    requires PagesKnown(m0, m, managed, pages) && v !in m && v < VPAGES && FrameOf(e) in managed
    ensures PagesKnown(m0, m[v := e], managed, pages + [v])
  {
    DistinctMore(pages, v);
    hide Distinct;
  }

  lemma PagesExtended(m0: map<nat, Word>, m: map<nat, Word>, m': map<nat, Word>, managed: set<nat>, pages: seq<nat>,
                      v: nat, n: nat, frames: set<nat>, attr: Word)
    requires PagesKnown(m0, m, managed, pages) && Extended(m, m', v, n, frames, attr) && frames <= managed
    requires v + n <= VPAGES
    ensures PagesKnown(m0, m', managed, pages + Range(v, n))
  {
    DistinctRange(pages, v, n);
    hide Distinct;
  }

  lemma PagesLess(m0: map<nat, Word>, m: map<nat, Word>, managed: set<nat>, pages: seq<nat>, k: nat)
    requires PagesKnown(m0, m, managed, pages) && k < |pages|
    ensures PagesKnown(m0, m - {pages[k]}, managed, pages[..k] + pages[k + 1..])
  {
    DistinctLess(pages, k);
    hide Distinct;
    assert pages[k] in pages;
  }

  /** A frame without a role that no new table and no new target uses stays without one. */
  lemma StaysIdle(r0: Ram, r1: Ram, pd: nat, free: set<nat>, f: nat)
    requires pd < FRAMES && NoRole(r0, pd, f) && f !in free && TablesFrom(r0, r1, pd, free)
    requires forall v | v in Mappings(r1, pd) ::
      (v in Mappings(r0, pd) && Mappings(r0, pd)[v] == Mappings(r1, pd)[v]) || FrameOf(Mappings(r1, pd)[v]) != f
    ensures NoRole(r1, pd, f)
  {
    forall v: nat | v < VPAGES && Present(Pte(r1, pd, v))
      ensures FrameOf(Pte(r1, pd, v)) != f
    {
      assert v in Mappings(r1, pd);
    }
  }

  /** Frames in hand stay so when new tables come from the free frames and new targets are not in hand. */
  lemma FramesStay(r0: Ram, r1: Ram, pd: nat, managed: set<nat>, free: set<nat>, free': set<nat>, hand: seq<nat>)
    requires pd < FRAMES && FramesKnown(r0, pd, managed, free, hand) && TablesFrom(r0, r1, pd, free)
    requires forall f | f in hand :: f !in free'
    requires forall v | v in Mappings(r1, pd) ::
      (v in Mappings(r0, pd) && Mappings(r0, pd)[v] == Mappings(r1, pd)[v]) || FrameOf(Mappings(r1, pd)[v]) !in hand
    ensures FramesKnown(r1, pd, managed, free', hand)
  {
    hide NoRole, Mappings, TablesFrom, Distinct;
    forall f | f in hand
      ensures NoRole(r1, pd, f)
    {
      StaysIdle(r0, r1, pd, free, f);
    }
  }

  lemma FramesMore(ram: Ram, pd: nat, managed: set<nat>, free: set<nat>, hand: seq<nat>, f: nat)
    requires pd < FRAMES && FramesKnown(ram, pd, managed, free, hand) && f in free && f in managed && NoRole(ram, pd, f)
    requires 0 < f < FRAMES
    ensures FramesKnown(ram, pd, managed, free - {f}, hand + [f])
  {
    DistinctMore(hand, f);
    hide Distinct, NoRole;
  }

  lemma FramesLess(ram: Ram, pd: nat, managed: set<nat>, free: set<nat>, free': set<nat>, hand: seq<nat>, k: nat)
    requires pd < FRAMES && FramesKnown(ram, pd, managed, free, hand) && k < |hand| && free' <= free + {hand[k]}
    ensures FramesKnown(ram, pd, managed, free', hand[..k] + hand[k + 1..])
  {
    DistinctLess(hand, k);
    hide Distinct, NoRole;
  }

  lemma HandAt(ram: Ram, pd: nat, managed: set<nat>, free: set<nat>, hand: seq<nat>, k: nat)
    requires pd < FRAMES && FramesKnown(ram, pd, managed, free, hand) && k < |hand|
    ensures var f := hand[k]; 0 < f < FRAMES && f in managed && f !in free && NoRole(ram, pd, f)
  {
    assert hand[k] in hand;
  }

  // ---------------------------------------------------------------- the session

  /** What a look-up of zeros means. */
  lemma ZerosMeanUnmapped(ram: Ram, pd: nat, v: nat)
    requires pd < FRAMES && Tables(ram, pd) && v < VPAGES
    ensures var m := Mappings(ram, pd); var e := if v in m then m[v] else 0;
      (FrameOf(e) == 0 && FlagsOf(e) == 0 <==> v !in m) && (v !in m ==> LeastHole(m, v, v))
  {
    EntriesAreClearOrPresent(ram, pd, v);
    hide Mappings, Pte;
  }

  lemma PageAddress(v: nat)
    requires v < VPAGES
    ensures 4096 * v < 0x1_0000_0000 && 4096 * v / 4096 == v && 4096 * v % 4096 == 0
  {
    Div4096(v, 0);
  }

  /** vmm_alloc_page, where vmm_lookup finds nothing. */
  method ServeBack(vmm: Vmm, va: Word, ghost m0: map<nat, Word>, pages: seq<nat>, ghost hand: seq<nat>)
    returns (pages': seq<nat>)
    requires vmm.Valid() && IsPage(va)
    requires PagesKnown(m0, vmm.View(), vmm.managed, pages)
    requires FramesKnown(vmm.ram, vmm.pd, vmm.managed, vmm.pmm.free, hand)
    modifies vmm`ram, vmm`managed, vmm.pmm`lookup, vmm.pmm`free, vmm.pmm.bits
    ensures vmm.Valid() && vmm.managed == old(vmm.managed) && OnlyTablesChanged(old(vmm.ram), vmm.ram, vmm.pd)
    ensures PagesKnown(m0, vmm.View(), vmm.managed, pages')
    ensures FramesKnown(vmm.ram, vmm.pd, vmm.managed, vmm.pmm.free, hand)
    ensures BooksOf(vmm.ram, vmm.pd, vmm.pmm.State(), pages', hand) ==
      NextBack(BooksOf(old(vmm.ram), vmm.pd, old(vmm.pmm.State()), pages, hand), va / 4096)
  {
    hide Owned, Tables, Mappings, OnlyTablesChanged, PagesKnown, FramesKnown, Bitmap.Valid, NoRole, Extended,
      TablesFrom, LeastHole, CanBack, BackOrPass, Tabled, Take, After, BooksOf, NextBack, FrameOf;
    ghost var v, s := va / 4096, vmm.pmm.State();
    MappedInBooks(vmm.ram, vmm.pd, s, pages, hand, v);
    OwnedHasTables(vmm.ram, vmm.pd, vmm.managed, vmm.pmm.free);
    ZerosMeanUnmapped(vmm.ram, vmm.pd, v);
    NothingChanged(vmm.ram, vmm.pd);
    pages' := pages;
    var m := vmm.Lookup(va);
    if m.pn == 0 && m.flags == 0 {
      var r := vmm.AllocPage(va, PG_PREM_RW, v);
      if r.Mapped? {
        PagesExtended(m0, old(vmm.View()), vmm.View(), vmm.managed, pages, v, 1, old(vmm.pmm.free), PG_PREM_RW);
        OneInRange(v);
        pages' := pages + [va / 4096];
        NewTargets(old(vmm.View()), vmm.View(), v, 1, old(vmm.pmm.free), PG_PREM_RW);
      }
      HandIsNotFree(old(vmm.ram), vmm.pd, vmm.managed, old(vmm.pmm.free), hand);
      FramesStay(old(vmm.ram), vmm.ram, vmm.pd, vmm.managed, old(vmm.pmm.free), vmm.pmm.free, hand);
      BackedBooks(old(vmm.ram), vmm.ram, vmm.pd, s, vmm.pmm.State(), pages, hand, v, r.Mapped?, old(vmm.pmm.free),
        PG_PREM_RW);
    }
  }

  /** Calls for a page that is mapped already change nothing. */
  lemma MappedInBooks(ram: Ram, pd: nat, s: Pool, pages: seq<nat>, hand: seq<nat>, v: nat)
    requires pd < FRAMES
    ensures var b := BooksOf(ram, pd, s, pages, hand);
      v in Mappings(ram, pd) ==> NextBack(b, v) == b && forall k: nat :: NextMap(b, k, v) == b
  {
    hide Mappings, Tabled;
  }

  lemma OneInRange(v: nat)
    ensures Range(v, 1) == [v]
  {
  }

  lemma NewTargets(m: map<nat, Word>, m': map<nat, Word>, v: nat, n: nat, frames: set<nat>, attr: Word)
    requires Extended(m, m', v, n, frames, attr)
    ensures forall u | u in m' :: (u in m && m[u] == m'[u]) || FrameOf(m'[u]) in frames
  {
  }

  lemma HandIsNotFree(ram: Ram, pd: nat, managed: set<nat>, free: set<nat>, hand: seq<nat>)
    requires pd < FRAMES && FramesKnown(ram, pd, managed, free, hand)
    ensures forall f | f in hand :: f !in free && f in managed && NoRole(ram, pd, f)
  {
  }

  method ServeRange(vmm: Vmm, va: Word, sz: Word, ghost m0: map<nat, Word>, pages: seq<nat>, ghost hand: seq<nat>)
    returns (pages': seq<nat>)
    requires vmm.Valid() && va % 4096 == 0 && sz % 4096 == 0 && va / 4096 + sz / 4096 <= VPAGES
    requires PagesKnown(m0, vmm.View(), vmm.managed, pages)
    requires FramesKnown(vmm.ram, vmm.pd, vmm.managed, vmm.pmm.free, hand)
    modifies vmm`ram, vmm`managed, vmm.pmm`lookup, vmm.pmm`free, vmm.pmm.bits
    ensures vmm.Valid() && vmm.managed == old(vmm.managed) && OnlyTablesChanged(old(vmm.ram), vmm.ram, vmm.pd)
    ensures PagesKnown(m0, vmm.View(), vmm.managed, pages')
    ensures FramesKnown(vmm.ram, vmm.pd, vmm.managed, vmm.pmm.free, hand)
    ensures BooksOf(vmm.ram, vmm.pd, vmm.pmm.State(), pages', hand) ==
      NextRange(BooksOf(old(vmm.ram), vmm.pd, old(vmm.pmm.State()), pages, hand), va / 4096, sz / 4096)
  {
    hide Owned, Tables, Mappings, OnlyTablesChanged, PagesKnown, FramesKnown, Bitmap.Valid, NoRole, Extended,
      TablesFrom, CanBackAll, WithPages, AfterFailure, LostFrames, Tabled, Take, Targets, MappedTo, BooksOf, NextRange;
    OwnedHasTables(vmm.ram, vmm.pd, vmm.managed, vmm.pmm.free);
    ghost var v, n := va / 4096, sz / 4096;
    pages' := pages;
    var ok := vmm.AllocPages(va, sz, PG_PREM_RW);
    if ok {
      PagesExtended(m0, old(vmm.View()), vmm.View(), vmm.managed, pages, v, n, old(vmm.pmm.free), PG_PREM_RW);
      NewTargets(old(vmm.View()), vmm.View(), v, n, old(vmm.pmm.free), PG_PREM_RW);
      pages' := pages + Range(va / 4096, sz / 4096);
    }
    HandIsNotFree(old(vmm.ram), vmm.pd, vmm.managed, old(vmm.pmm.free), hand);
    FramesStay(old(vmm.ram), vmm.ram, vmm.pd, vmm.managed, old(vmm.pmm.free), vmm.pmm.free, hand);
    RangeBooks(old(vmm.ram), vmm.ram, vmm.pd, old(vmm.pmm.State()), vmm.pmm.State(), pages, hand, v, n,
      old(vmm.pmm.free), PG_PREM_RW);
  }

  method ServeUnmap(vmm: Vmm, k: nat, ghost m0: map<nat, Word>, pages: seq<nat>, ghost hand: seq<nat>)
    requires vmm.Valid() && k < |pages|
    requires PagesKnown(m0, vmm.View(), vmm.managed, pages)
    requires FramesKnown(vmm.ram, vmm.pd, vmm.managed, vmm.pmm.free, hand)
    modifies vmm`ram, vmm`managed, vmm.pmm`free, vmm.pmm.bits
    ensures vmm.Valid() && vmm.managed == old(vmm.managed) && OnlyTablesChanged(old(vmm.ram), vmm.ram, vmm.pd)
    ensures PagesKnown(m0, vmm.View(), vmm.managed, pages[..k] + pages[k + 1..])
    ensures FramesKnown(vmm.ram, vmm.pd, vmm.managed, vmm.pmm.free, hand)
    ensures BooksOf(vmm.ram, vmm.pd, vmm.pmm.State(), Without(pages, k), hand) ==
      NextUnmap(BooksOf(old(vmm.ram), vmm.pd, old(vmm.pmm.State()), pages, hand), k)
  {
    hide Owned, Tables, Mappings, OnlyTablesChanged, PagesKnown, FramesKnown, Bitmap.Valid, NoRole, TablesFrom, Pte,
      OnlyRole, Released, Tabled, BooksOf, NextUnmap, FrameOf;
    ghost var v, s := pages[k], vmm.pmm.State();
    KnownPage(m0, vmm.View(), vmm.managed, pages, k);
    PagesLess(m0, vmm.View(), vmm.managed, pages, k);
    PageAddress(pages[k]);
    ManagedPagesAreReleasable(vmm.ram, vmm.pd, vmm.managed, vmm.pmm.free, v);
    ReleasedIsTarget(Pte(vmm.ram, vmm.pd, v), vmm.pmm.maxPg);
    HandIsNotFree(vmm.ram, vmm.pd, vmm.managed, vmm.pmm.free, hand);
    TargetHasRole(vmm.ram, vmm.pd, v);
    ghost var freed := Released(Pte(vmm.ram, vmm.pd, v), vmm.pmm.maxPg);
    vmm.UnmapPage(4096 * pages[k]);
    assert old(vmm.managed) + freed == old(vmm.managed);
    SameDirectory(old(vmm.ram), vmm.ram, vmm.pd, old(vmm.pmm.free));
    FramesStay(old(vmm.ram), vmm.ram, vmm.pd, vmm.managed, old(vmm.pmm.free), vmm.pmm.free, hand);
    UnmapBooks(old(vmm.ram), vmm.ram, vmm.pd, s, vmm.pmm.free, pages, hand, k);
  }

  lemma KnownPage(m0: map<nat, Word>, m: map<nat, Word>, managed: set<nat>, pages: seq<nat>, k: nat)
    requires PagesKnown(m0, m, managed, pages) && k < |pages|
    ensures pages[k] < VPAGES && pages[k] in m && FrameOf(m[pages[k]]) in managed
  {
    assert pages[k] in pages;
  }

  method ServeTake(vmm: Vmm, ghost pages: seq<nat>, hand: seq<nat>) returns (hand': seq<nat>)
    requires vmm.Valid() && FramesKnown(vmm.ram, vmm.pd, vmm.managed, vmm.pmm.free, hand)
    modifies vmm.pmm`lookup, vmm.pmm`free, vmm.pmm.bits
    ensures vmm.Valid() && FramesKnown(vmm.ram, vmm.pd, vmm.managed, vmm.pmm.free, hand')
    ensures BooksOf(vmm.ram, vmm.pd, vmm.pmm.State(), pages, hand') ==
      NextTake(BooksOf(vmm.ram, vmm.pd, old(vmm.pmm.State()), pages, hand))
  {
    hide Owned, Bitmap.Valid, NoRole, FramesKnown, Mappings, Take, After, Tabled;
    ghost var free := vmm.pmm.free;
    hand' := hand;
    var page := vmm.pmm.AllocPage();
    if page != 0 {
      var f := page / 4096;
      Div4096(vmm.pmm.lookup, 0);
      TakenFrame(vmm.ram, vmm.pd, vmm.managed, free, f);
      FramesMore(vmm.ram, vmm.pd, vmm.managed, free, hand, f);
      hand' := hand + [f];
    }
  }

  method ServeGive(vmm: Vmm, k: nat, ghost pages: seq<nat>, hand: seq<nat>)
    requires vmm.Valid() && FramesKnown(vmm.ram, vmm.pd, vmm.managed, vmm.pmm.free, hand) && k < |hand|
    modifies vmm.pmm`free, vmm.pmm.bits
    ensures vmm.Valid() && FramesKnown(vmm.ram, vmm.pd, vmm.managed, vmm.pmm.free, hand[..k] + hand[k + 1..])
    ensures BooksOf(vmm.ram, vmm.pd, vmm.pmm.State(), pages, Without(hand, k)) ==
      NextGive(BooksOf(vmm.ram, vmm.pd, old(vmm.pmm.State()), pages, hand), k)
  {
    hide Owned, Bitmap.Valid, NoRole, FramesKnown, Mappings, Tabled;
    HandAt(vmm.ram, vmm.pd, vmm.managed, vmm.pmm.free, hand, k);
    FrameAddress(hand[k]);
    var ok := vmm.pmm.FreePage(4096 * hand[k]);
    if ok {
      OwnedAfterRelease(vmm.ram, vmm.pd, vmm.managed, old(vmm.pmm.free), hand[k]);
      assert vmm.managed + {hand[k]} == vmm.managed;
    }
    FramesLess(vmm.ram, vmm.pd, vmm.managed, old(vmm.pmm.free), vmm.pmm.free, hand, k);
  }

  lemma FrameAddress(f: nat)
    requires f < FRAMES
    ensures 4096 * f < 0x1_0000_0000 && 4096 * f / 4096 == f && 4096 * f % 4096 == 0
  {
    Div4096(f, 0);
  }

  /** vmm_set_mapping says nothing about its outcome; vmm_lookup does. */
  method ServeMap(vmm: Vmm, k: nat, va: Word, ghost m0: map<nat, Word>, pages: seq<nat>, hand: seq<nat>)
    returns (pages': seq<nat>, hand': seq<nat>)
    requires vmm.Valid() && IsPage(va) && k < |hand|
    requires PagesKnown(m0, vmm.View(), vmm.managed, pages)
    requires FramesKnown(vmm.ram, vmm.pd, vmm.managed, vmm.pmm.free, hand)
    modifies vmm`ram, vmm`managed, vmm.pmm`lookup, vmm.pmm`free, vmm.pmm.bits
    ensures vmm.Valid() && vmm.managed == old(vmm.managed) && OnlyTablesChanged(old(vmm.ram), vmm.ram, vmm.pd)
    ensures PagesKnown(m0, vmm.View(), vmm.managed, pages')
    ensures FramesKnown(vmm.ram, vmm.pd, vmm.managed, vmm.pmm.free, hand')
    ensures BooksOf(vmm.ram, vmm.pd, vmm.pmm.State(), pages', hand') ==
      NextMap(BooksOf(old(vmm.ram), vmm.pd, old(vmm.pmm.State()), pages, hand), k, va / 4096)
  {
    hide Owned, Tables, Mappings, OnlyTablesChanged, PagesKnown, FramesKnown, Bitmap.Valid, NoRole, TablesFrom, Tabled,
      NewEntry, LeastHole, Take, After, FrameOf, FlagsOf, BooksOf, NextMap;
    ghost var v, f, s := va / 4096, hand[k], vmm.pmm.State();
    MappedInBooks(vmm.ram, vmm.pd, s, pages, hand, v);
    OwnedHasTables(vmm.ram, vmm.pd, vmm.managed, vmm.pmm.free);
    ZerosMeanUnmapped(vmm.ram, vmm.pd, v);
    NothingChanged(vmm.ram, vmm.pd);
    HandAt(vmm.ram, vmm.pd, vmm.managed, vmm.pmm.free, hand, k);
    FrameAddress(hand[k]);
    EntryFields(PG_PREM_RW, 4096 * f);
    pages', hand' := pages, hand;
    var m := vmm.Lookup(va);
    if m.pn == 0 && m.flags == 0 {
      vmm.SetMapping(va, 4096 * hand[k], PG_PREM_RW);
      ghost var rest := hand[..k] + hand[k + 1..];
      HandIsNotFree(old(vmm.ram), vmm.pd, vmm.managed, old(vmm.pmm.free), hand);
      m := vmm.Lookup(va);
      if m.pn == hand[k] {
        PagesMore(m0, old(vmm.View()), vmm.managed, pages, v, NewEntry(PG_PREM_RW, 4096 * f));
        FramesLess(old(vmm.ram), vmm.pd, vmm.managed, old(vmm.pmm.free), old(vmm.pmm.free), hand, k);
        HandWithout(old(vmm.ram), vmm.pd, vmm.managed, old(vmm.pmm.free), hand, k);
        HandIsNotFree(old(vmm.ram), vmm.pd, vmm.managed, old(vmm.pmm.free), rest);
        FramesStay(old(vmm.ram), vmm.ram, vmm.pd, vmm.managed, old(vmm.pmm.free), vmm.pmm.free, rest);
        pages', hand' := pages + [va / 4096], hand[..k] + hand[k + 1..];
      } else {
        FramesStay(old(vmm.ram), vmm.ram, vmm.pd, vmm.managed, old(vmm.pmm.free), vmm.pmm.free, hand);
      }
      MapBooks(old(vmm.ram), vmm.ram, vmm.pd, s, vmm.pmm.State(), pages, hand, k, v, NewEntry(PG_PREM_RW, 4096 * f));
    }
  }

  lemma HandWithout(ram: Ram, pd: nat, managed: set<nat>, free: set<nat>, hand: seq<nat>, k: nat)
    requires pd < FRAMES && FramesKnown(ram, pd, managed, free, hand) && k < |hand|
    ensures hand[k] !in hand[..k] + hand[k + 1..]
  {
    DistinctLess(hand, k);
  }

  lemma NothingToServe(b: Books, c: PageCall)
    ensures c.Unmap? && c.k >= |b.pages| ==> Next(b, c) == b
    ensures (c.GiveFrame? || c.MapFrame?) && c.k >= |b.hand| ==> Next(b, c) == b
  {
  }

  lemma BooksHave(ram: Ram, pd: nat, s: Pool, pages: seq<nat>, hand: seq<nat>)
    requires pd < FRAMES
    ensures var b := BooksOf(ram, pd, s, pages, hand); b.pages == pages && b.hand == hand
  {
  }

  /** One call. */
  method Serve(vmm: Vmm, c: PageCall, ghost m0: map<nat, Word>, pages: seq<nat>, hand: seq<nat>)
    returns (pages': seq<nat>, hand': seq<nat>)
    requires vmm.Valid() && c.Proper()
    requires PagesKnown(m0, vmm.View(), vmm.managed, pages)
    requires FramesKnown(vmm.ram, vmm.pd, vmm.managed, vmm.pmm.free, hand)
    modifies vmm`ram, vmm`managed, vmm.pmm`lookup, vmm.pmm`free, vmm.pmm.bits
    ensures vmm.Valid() && vmm.managed == old(vmm.managed) && OnlyTablesChanged(old(vmm.ram), vmm.ram, vmm.pd)
    ensures PagesKnown(m0, vmm.View(), vmm.managed, pages')
    ensures FramesKnown(vmm.ram, vmm.pd, vmm.managed, vmm.pmm.free, hand')
    ensures BooksOf(vmm.ram, vmm.pd, vmm.pmm.State(), pages', hand') ==
      Next(BooksOf(old(vmm.ram), vmm.pd, old(vmm.pmm.State()), pages, hand), c)
  {
    hide Owned, Mappings, OnlyTablesChanged, PagesKnown, FramesKnown, Bitmap.Valid, NoRole, BooksOf, NextBack,
      NextRange, NextUnmap, NextTake, NextGive, NextMap;
    NothingToServe(BooksOf(vmm.ram, vmm.pd, vmm.pmm.State(), pages, hand), c);
    BooksHave(vmm.ram, vmm.pd, vmm.pmm.State(), pages, hand);
    pages', hand' := pages, hand;
    NothingChanged(vmm.ram, vmm.pd);
    match c {
      case Back(va) =>
        pages' := ServeBack(vmm, va, m0, pages, hand);
      case BackRange(va, sz) =>
        pages' := ServeRange(vmm, va, sz, m0, pages, hand);
      case Unmap(k) =>
        if k < |pages| {
          ServeUnmap(vmm, k, m0, pages, hand);
          pages' := pages[..k] + pages[k + 1..];
        }
      case TakeFrame =>
        hand' := ServeTake(vmm, pages, hand);
      case GiveFrame(k) =>
        if k < |hand| {
          ServeGive(vmm, k, pages, hand);
          hand' := hand[..k] + hand[k + 1..];
        }
      case MapFrame(k, va) =>
        if k < |hand| {
          pages', hand' := ServeMap(vmm, k, va, m0, pages, hand);
        }
    }
  }

  /** Any sequence of calls. In the end, as after each of them, no managed frame has two roles and none that has one is
      free; the translations are those from before and those that the session has made and not removed, each on a frame
      of the pool; the frames in hand are out of the pool and in no use; and no frame but the directory and the tables
      has changed. */
  method Session(vmm: Vmm, calls: seq<PageCall>) returns (pages: seq<nat>, hand: seq<nat>)
    requires vmm.Valid() && forall c | c in calls :: c.Proper()
    modifies vmm`ram, vmm`managed, vmm.pmm`lookup, vmm.pmm`free, vmm.pmm.bits
    ensures vmm.Valid() && vmm.managed == old(vmm.managed) && OnlyTablesChanged(old(vmm.ram), vmm.ram, vmm.pd)
    ensures RolesAreSingle(vmm.ram, vmm.pd, vmm.managed, vmm.pmm.free)
    ensures PagesKnown(old(vmm.View()), vmm.View(), vmm.managed, pages)
    ensures FramesKnown(vmm.ram, vmm.pd, vmm.managed, vmm.pmm.free, hand)
    ensures BooksOf(vmm.ram, vmm.pd, vmm.pmm.State(), pages, hand) ==
      Run(BooksOf(old(vmm.ram), vmm.pd, old(vmm.pmm.State()), [], []), calls)
  {
    pages, hand := [], [];
    assert PagesKnown(vmm.View(), vmm.View(), vmm.managed, pages);
    assert FramesKnown(vmm.ram, vmm.pd, vmm.managed, vmm.pmm.free, hand);
    NothingChanged(vmm.ram, vmm.pd);
    hide Owned, Mappings, OnlyTablesChanged, PagesKnown, FramesKnown, Bitmap.Valid, PageCall.Proper, RolesAreSingle,
      BooksOf, Next, Run;
    RunNone(BooksOf(vmm.ram, vmm.pd, vmm.pmm.State(), [], []));
    assert calls[..0] == [];
    for i := 0 to |calls|
      invariant vmm.Valid() && vmm.managed == old(vmm.managed) && OnlyTablesChanged(old(vmm.ram), vmm.ram, vmm.pd)
      invariant PagesKnown(old(vmm.View()), vmm.View(), vmm.managed, pages)
      invariant FramesKnown(vmm.ram, vmm.pd, vmm.managed, vmm.pmm.free, hand)
      invariant BooksOf(vmm.ram, vmm.pd, vmm.pmm.State(), pages, hand) ==
        Run(BooksOf(old(vmm.ram), vmm.pd, old(vmm.pmm.State()), [], []), calls[..i])
    {
      assert calls[i] in calls;
      RunStep(BooksOf(old(vmm.ram), vmm.pd, old(vmm.pmm.State()), [], []), calls, i);
      label step:
      pages, hand := Serve(vmm, calls[i], old(vmm.View()), pages, hand);
      OnlyTablesChangedTwice(old(vmm.ram), old@step(vmm.ram), vmm.ram, vmm.pd);
    }
    assert calls[..|calls|] == calls;
    OwnedHasSingleRoles(vmm.ram, vmm.pd, vmm.managed, vmm.pmm.free);
  }

  lemma RunNone(b: Books)
    ensures Run(b, []) == b
  {
  }
}
