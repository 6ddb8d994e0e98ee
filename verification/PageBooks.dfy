/** The books that callers of kernel/mm/vmm.c and kernel/mm/pmm.c could keep: what every call makes of the tables that
    exist, the page search, the target of every page, the pages mapped so far, and the frames in hand. */
module PageBooks {
  import opened Words
  import opened Paging
  import opened PageSearch
  import opened PhysicalPages
  import opened Backing
  import opened VirtualMemory

  /** vmm_alloc_page at an unmapped page, vmm_alloc_pages, vmm_unmap_page of the k-th page that the session has mapped,
      pmm_alloc_page, pmm_free_page of the k-th frame in hand, vmm_set_mapping of that frame at an unmapped page. */
  datatype PageCall =
    | Back(va: Word)
    | BackRange(va: Word, sz: Word)
    | Unmap(k: nat)
    | TakeFrame
    | GiveFrame(k: nat)
    | MapFrame(k: nat, va: Word)
  {
    /** Aligned, and below the window. */
    predicate Proper() {
      match this
      case Back(va) => IsPage(va)
      case BackRange(va, sz) => va % 4096 == 0 && sz % 4096 == 0 && va / 4096 + sz / 4096 <= VPAGES
      case MapFrame(k, va) => IsPage(va)
      case _ => true
    }
  }

  predicate IsPage(va: Word) {
    va % 4096 == 0 && 0 < va && va / 4096 < VPAGES
  }

  datatype Books = Books(tables: set<nat>, pool: Pool, targets: map<nat, nat>, pages: seq<nat>, hand: seq<nat>) {
    ghost function Account(): Account {
      Backing.Account(tables, pool, targets.Keys)
    }

    /** The account is a new one, the rest stays. */
    ghost function With(a: Account): Books {
      this.(tables := a.tables, pool := a.pool)
    }
  }

  /** The books of a machine. */
  ghost function BooksOf(ram: Ram, pd: nat, pool: Pool, pages: seq<nat>, hand: seq<nat>): Books
    requires pd < FRAMES
  {
    Books(Tabled(ram, pd), pool, TargetsOf(Mappings(ram, pd)), pages, hand)
  }

  /** The frame behind every page. */
  ghost function TargetsOf(m: map<nat, Word>): map<nat, nat> {
    map v | v in m :: FrameOf(m[v])
  }

  lemma AccountOf(ram: Ram, pd: nat, pool: Pool, pages: seq<nat>, hand: seq<nat>)
    requires pd < FRAMES
    ensures BooksOf(ram, pd, pool, pages, hand).Account() == Account(Tabled(ram, pd), pool, Mappings(ram, pd).Keys)
  {
    assert TargetsOf(Mappings(ram, pd)).Keys == Mappings(ram, pd).Keys;
  }

  function Without<T>(s: seq<T>, k: nat): seq<T>
    requires k < |s|
  {
    s[..k] + s[k + 1..]
  }

  /** The pages [v, v + n). */
  function Range(v: nat, n: nat): (s: seq<nat>)
    ensures |s| == n
  {
    seq(n, i requires 0 <= i < n => v + i)
  }

  // ---------------------------------------------------------------- one call

  ghost function NextBack(b: Books, v: nat): Books {
    var c := b.With(BackOrPass(b.Account(), v));
    if v in b.targets then b
    else if CanBack(b.Account(), v) then
      c.(targets := b.targets[v := Take(b.pool).value], pages := b.pages + [v])
    else c
  }

  ghost function NextRange(b: Books, v: nat, n: nat): Books {
    var a := b.Account();
    if CanBackAll(a, v, n) then
      b.With(WithPages(a, v, n)).(targets := WithTargets(b.targets, v, Targets(a, v, n)),
                                  pages := b.pages + Range(v, n))
    else b.With(AfterFailure(a, v, n))
  }

  /** The pages from v on get these targets. */
  ghost function WithTargets(m: map<nat, nat>, v: nat, frames: seq<nat>): map<nat, nat> {
    m + map u: nat | u < v + |frames| && AtLeast(u, v) :: frames[u - v]
  }

  /** The target goes back to the bitmap, which refuses page 0 and pages from max_pg on. */
  ghost function NextUnmap(b: Books, k: nat): Books {
    if k < |b.pages| && b.pages[k] in b.targets then
      var v := b.pages[k];
      var f := b.targets[v];
      b.(targets := b.targets - {v}, pages := Without(b.pages, k), pool := Given(b.pool, f))
    else b
  }

  ghost function Given(s: Pool, f: nat): Pool {
    s.(free := s.free + if 0 < f < s.limit then {f} else {})
  }

  ghost function NextTake(b: Books): Books {
    match Take(b.pool)
    case Some(f) => b.(pool := After(b.pool), hand := b.hand + [f])
    case None => b.(pool := After(b.pool))
  }

  ghost function NextGive(b: Books, k: nat): Books {
    if k < |b.hand| then b.(hand := Without(b.hand, k), pool := Given(b.pool, b.hand[k])) else b
  }

  /** Only an absent table takes a frame from the bitmap. */
  ghost function NextMap(b: Books, k: nat, v: nat): Books {
    if k >= |b.hand| || v in b.targets then b
    else
      var mapped := b.(targets := b.targets[v := b.hand[k]], pages := b.pages + [v], hand := Without(b.hand, k));
      if v / 1024 in b.tables then mapped
      else if Take(b.pool) == None then b.(pool := After(b.pool))
      else mapped.(tables := b.tables + {v / 1024}, pool := After(b.pool))
  }

  ghost function Next(b: Books, c: PageCall): Books {
    match c
    case Back(va) => NextBack(b, va / 4096)
    case BackRange(va, sz) => NextRange(b, va / 4096, sz / 4096)
    case Unmap(k) => NextUnmap(b, k)
    case TakeFrame => NextTake(b)
    case GiveFrame(k) => NextGive(b, k)
    case MapFrame(k, va) => NextMap(b, k, va / 4096)
  }

  /** A sequence of calls. */
  ghost function Run(b: Books, calls: seq<PageCall>): Books {
    if calls == [] then b else Next(Run(b, calls[..|calls| - 1]), calls[|calls| - 1])
  }

  lemma RunStep(b: Books, calls: seq<PageCall>, i: nat)
    requires i < |calls|
    ensures Run(b, calls[..i + 1]) == Next(Run(b, calls[..i]), calls[i])
  {
    assert calls[..i + 1][..i] == calls[..i];
  }

  // ---------------------------------------------------------------- the operations make these calls

  /** vmm_alloc_page at an unmapped page. */
  lemma BackedBooks(r0: Ram, r1: Ram, pd: nat, s0: Pool, s1: Pool, pages: seq<nat>, hand: seq<nat>, v: nat, ok: bool,
                    frames: set<nat>, attr: Word)
    requires pd < FRAMES && v !in Mappings(r0, pd)
    requires var a := Account(Tabled(r0, pd), s0, Mappings(r0, pd).Keys);
      Account(Tabled(r1, pd), s1, Mappings(r1, pd).Keys) == BackOrPass(a, v) && (ok <==> CanBack(a, v))
    requires var m0, m1 := Mappings(r0, pd), Mappings(r1, pd);
      if ok then Extended(m0, m1, v, 1, frames, attr) && Take(s0) == Some(FrameOf(m1[v])) else m1 == m0
    ensures BooksOf(r1, pd, s1, if ok then pages + [v] else pages, hand) ==
      NextBack(BooksOf(r0, pd, s0, pages, hand), v)
  {
    hide Tabled, Mappings, BackOrPass, CanBack, Take, FrameOf;
    AccountOf(r0, pd, s0, pages, hand);
    if ok {
      assert TargetsOf(Mappings(r1, pd)) == TargetsOf(Mappings(r0, pd))[v := Take(s0).value];
    }
  }

  /** vmm_alloc_pages. */
  lemma RangeBooks(r0: Ram, r1: Ram, pd: nat, s0: Pool, s1: Pool, pages: seq<nat>, hand: seq<nat>, v: nat, n: nat,
                   frames: set<nat>, attr: Word)
    requires pd < FRAMES
    requires var a := Account(Tabled(r0, pd), s0, Mappings(r0, pd).Keys);
      var b := Account(Tabled(r1, pd), s1, Mappings(r1, pd).Keys);
      var m0, m1 := Mappings(r0, pd), Mappings(r1, pd);
      if CanBackAll(a, v, n) then
        b == WithPages(a, v, n) && Extended(m0, m1, v, n, frames, attr) && MappedTo(m1, v, Targets(a, v, n))
      else b == AfterFailure(a, v, n) && m1 == m0
    ensures var a := Account(Tabled(r0, pd), s0, Mappings(r0, pd).Keys);
      BooksOf(r1, pd, s1, if CanBackAll(a, v, n) then pages + Range(v, n) else pages, hand) ==
      NextRange(BooksOf(r0, pd, s0, pages, hand), v, n)
  {
    hide Tabled, Mappings, CanBackAll, WithPages, AfterFailure, Targets, FrameOf;
    AccountOf(r0, pd, s0, pages, hand);
    var a := Account(Tabled(r0, pd), s0, Mappings(r0, pd).Keys);
    if CanBackAll(a, v, n) {
      TargetCount(a, v, n);
      assert TargetsOf(Mappings(r1, pd)) == WithTargets(TargetsOf(Mappings(r0, pd)), v, Targets(a, v, n));
    }
  }

  lemma {:induction false} TargetCount(a: Account, v: nat, n: nat)
    requires CanBackAll(a, v, n)
    ensures |Targets(a, v, n)| == n
    decreases n
  {
    hide WithPages, Take;
    if n > 0 {
      TargetCount(a, v, n - 1);
      BackedStep(a, v, n - 1);
    }
  }

  /** vmm_unmap_page of the k-th page. */
  lemma UnmapBooks(r0: Ram, r1: Ram, pd: nat, s: Pool, free: set<nat>, pages: seq<nat>, hand: seq<nat>, k: nat)
    requires pd < FRAMES && r1[pd] == r0[pd] && k < |pages| && pages[k] in Mappings(r0, pd)
    requires Mappings(r1, pd) == Mappings(r0, pd) - {pages[k]}
    requires var f := FrameOf(Mappings(r0, pd)[pages[k]]); free == s.free + if 0 < f < s.limit then {f} else {}
    ensures BooksOf(r1, pd, s.(free := free), Without(pages, k), hand) == NextUnmap(BooksOf(r0, pd, s, pages, hand), k)
  {
    hide Tabled, Mappings, FrameOf;
    SameTabled(r0, r1, pd);
    assert TargetsOf(Mappings(r1, pd)) == TargetsOf(Mappings(r0, pd)) - {pages[k]};
  }

  /** vmm_set_mapping of the k-th frame in hand at an unmapped page. */
  lemma MapBooks(r0: Ram, r1: Ram, pd: nat, s0: Pool, s1: Pool, pages: seq<nat>, hand: seq<nat>, k: nat, v: nat,
                 e: Word)
    requires pd < FRAMES && k < |hand| && v < VPAGES && v !in Mappings(r0, pd) && FrameOf(e) == hand[k]
    requires var i := v / 1024; var denied := !Present(r0[pd][i]) && Take(s0) == None;
      s1 == (if Present(r0[pd][i]) then s0 else After(s0)) &&
      Tabled(r1, pd) == Tabled(r0, pd) + (if denied then {} else {i}) &&
      Mappings(r1, pd) == if denied then Mappings(r0, pd) else Mappings(r0, pd)[v := e]
    ensures var denied := !Present(r0[pd][v / 1024]) && Take(s0) == None;
      BooksOf(r1, pd, s1, if denied then pages else pages + [v], if denied then hand else Without(hand, k)) ==
      NextMap(BooksOf(r0, pd, s0, pages, hand), k, v)
  {
    hide Tabled, Mappings, FrameOf, Take, After, Present;
    HasTable(r0, pd, v / 1024);
    if v in Mappings(r1, pd) {
      assert TargetsOf(Mappings(r1, pd)) == TargetsOf(Mappings(r0, pd))[v := hand[k]];
    }
  }
}
