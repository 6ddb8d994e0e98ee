/** What it takes to back pages: the outcome of vmm_alloc_page and vmm_alloc_pages, kernel/mm/vmm.c, as a function of
    the tables that exist, the pages that are mapped and the state of the page search. */
module Backing {
  import opened Words
  import opened Paging
  import opened PageSearch

  /** The directory slots below the window that have a table, the page search, and the mapped pages. */
  datatype Account = Account(tables: set<nat>, pool: Pool, mapped: set<nat>)

  /** Page v can be backed: it is unmapped, the search finds a frame, and another one if the table is absent. */
  ghost predicate CanBack(a: Account, v: nat) {
    v !in a.mapped && Take(a.pool).Some? && (v / 1024 in a.tables || Take(After(a.pool)).Some?)
  }

  /** The account once page v is backed. */
  ghost function WithPage(a: Account, v: nat): Account {
    Account(a.tables + {v / 1024}, if v / 1024 in a.tables then After(a.pool) else After(After(a.pool)), a.mapped + {v})
  }

  /** Both definitions in terms of what one round of vmm_alloc_pages does. */
  lemma BackedIs(a: Account, v: nat)
    ensures CanBack(a, v) <==>
      v !in a.mapped && Take(a.pool).Some? && (v / 1024 in a.tables || Take(After(a.pool)).Some?)
    ensures WithPage(a, v) ==
      Account(a.tables + {v / 1024}, if v / 1024 in a.tables then After(a.pool) else After(After(a.pool)),
              a.mapped + {v})
  {
  }

  /** The n pages from v on can be backed one after the other. */
  ghost predicate CanBackAll(a: Account, v: nat, n: nat)
    decreases n
  {
    n > 0 ==> CanBackAll(a, v, n - 1) && CanBack(WithPages(a, v, n - 1), v + n - 1)
  }

  ghost function WithPages(a: Account, v: nat, n: nat): Account
    decreases n
  {
    if n == 0 then a else WithPage(WithPages(a, v, n - 1), v + n - 1)
  }

  /** The frames that become the targets of these pages. */
  ghost function Targets(a: Account, v: nat, n: nat): seq<nat>
    decreases n
  {
    if n == 0 then []
    else Targets(a, v, n - 1) + match Take(WithPages(a, v, n - 1).pool) case Some(p) => [p] case None => []
  }

  /** One page more. */
  lemma BackedStep(a: Account, v: nat, n: nat)
    ensures CanBackAll(a, v, n + 1) <==> CanBackAll(a, v, n) && CanBack(WithPages(a, v, n), v + n)
    ensures WithPages(a, v, n + 1) == WithPage(WithPages(a, v, n), v + n)
    ensures CanBackAll(a, v, n + 1) ==>
      Take(WithPages(a, v, n).pool).Some? &&
      Targets(a, v, n + 1) == Targets(a, v, n) + [Take(WithPages(a, v, n).pool).value]
  {
  }

  lemma BackedNone(a: Account, v: nat)
    ensures CanBackAll(a, v, 0) && WithPages(a, v, 0) == a && Targets(a, v, 0) == []
  {
  }

  // ---------------------------------------------------------------- a failed vmm_alloc_pages

  /** The first page that cannot be backed is the k-th. */
  ghost predicate FailsAt(a: Account, v: nat, n: nat, k: nat) {
    k < n && CanBackAll(a, v, k) && !CanBack(WithPages(a, v, k), v + k)
  }

  ghost function FirstFailure(a: Account, v: nat, n: nat): nat
    decreases n
  {
    if n == 0 then 0 else if CanBackAll(a, v, n - 1) then n - 1 else FirstFailure(a, v, n - 1)
  }

  lemma {:induction false} FailsThere(a: Account, v: nat, n: nat)
    requires !CanBackAll(a, v, n)
    ensures FailsAt(a, v, n, FirstFailure(a, v, n))
    decreases n
  {
    hide CanBack, WithPages, Take;
    if !CanBackAll(a, v, n - 1) {
      FailsThere(a, v, n - 1);
    }
  }

  lemma {:induction false} FailsOnce(a: Account, v: nat, n: nat, k: nat)
    requires FailsAt(a, v, n, k)
    ensures !CanBackAll(a, v, n) && FirstFailure(a, v, n) == k
    decreases n
  {
    hide CanBack, WithPages, Take;
    if k < n - 1 {
      FailsOnce(a, v, n - 1, k);
    }
  }

  /** The page search after one round of vmm_alloc_pages has failed: for the page, and for a table if it had to look. */
  ghost function Missed(a: Account, v: nat): Pool {
    if Take(a.pool) == None || v in a.mapped then After(a.pool) else After(After(a.pool))
  }

  lemma MissedIs(a: Account, v: nat)
    ensures Take(a.pool) == None || v in a.mapped ==> Missed(a, v) == After(a.pool)
    ensures !(Take(a.pool) == None || v in a.mapped) ==> Missed(a, v) == After(After(a.pool))
  {
  }

  /** The frame that the search finds, if any. */
  ghost function Found(s: Pool): set<nat> {
    match Take(s)
    case Some(p) => {p}
    case None => {}
  }

  /** The frames that pmm_free_page accepts, and those that it refuses. */
  ghost function Accepted(frames: seq<nat>, limit: nat): set<nat> {
    set f | f in frames && 0 < f < limit
  }

  ghost function Refused(frames: seq<nat>, limit: nat): set<nat> {
    set f | f in frames && !(0 < f < limit)
  }

  /** The account after vmm_alloc_pages has failed: the tables made on the way stay, the frames of the pages are given
      back as far as the bitmap accepts them, and no page is mapped. */
  ghost function AfterFailure(a: Account, v: nat, n: nat): Account {
    var k := FirstFailure(a, v, n);
    var b := WithPages(a, v, k);
    var s := Missed(b, v + k);
    Account(b.tables, s.(free := s.free + Accepted(Targets(a, v, k), s.limit)), a.mapped)
  }

  /** The frames that nothing will hand out again: the one found for the page that could not be backed, and those past
      max_pg. */
  ghost function LostFrames(a: Account, v: nat, n: nat): set<nat> {
    var k := FirstFailure(a, v, n);
    var b := WithPages(a, v, k);
    Found(b.pool) + Refused(Targets(a, v, k), b.pool.limit)
  }

  lemma FailureIs(a: Account, v: nat, n: nat, k: nat)
    requires FailsAt(a, v, n, k)
    ensures var b := WithPages(a, v, k); var s := Missed(b, v + k); var t := Targets(a, v, k);
      !CanBackAll(a, v, n) &&
      AfterFailure(a, v, n) == Account(b.tables, s.(free := s.free + Accepted(t, s.limit)), a.mapped) &&
      LostFrames(a, v, n) == Found(b.pool) + Refused(t, b.pool.limit) && s.limit == b.pool.limit
  {
    hide WithPages, Missed, Take, CanBack, CanBackAll, Targets;
    FailsOnce(a, v, n, k);
    MissedFrames(WithPages(a, v, k), v + k);
  }

  lemma FoundIs(s: Pool)
    ensures forall f :: f in Found(s) <==> Take(s) == Some(f)
  {
  }

  /** The first page is mapped already, or its table cannot be had: the frame found for it is lost. */
  lemma FirstFrameIsLost(a: Account, v: nat, n: nat, p: nat)
    requires n >= 1 && Take(a.pool) == Some(p)
    requires v in a.mapped || (v / 1024 !in a.tables && Take(After(a.pool)) == None)
    ensures !CanBackAll(a, v, n) && LostFrames(a, v, n) == {p} && p !in AfterFailure(a, v, n).pool.free
    ensures AfterFailure(a, v, n).pool.free == a.pool.free - {p}
    ensures AfterFailure(a, v, n).tables == a.tables && AfterFailure(a, v, n).mapped == a.mapped
  {
    BackedNone(a, v);
    FailsOnce(a, v, n, 0);
  }

  /** No frame is found for the first page: nothing is lost. */
  lemma NothingIsLost(a: Account, v: nat, n: nat)
    requires n >= 1 && Take(a.pool) == None
    ensures !CanBackAll(a, v, n) && LostFrames(a, v, n) == {} && AfterFailure(a, v, n).pool.free == a.pool.free
  {
    BackedNone(a, v);
    FailsOnce(a, v, n, 0);
  }

  /** The same at any first page that fails: with b the account of the pages before it, a frame is lost exactly when the
      search finds it for that page, or it is the target of a page before and not below max_pg. */
  lemma LostAt(a: Account, v: nat, n: nat, k: nat, f: nat)
    requires FailsAt(a, v, n, k)
    ensures var b := WithPages(a, v, k);
      !CanBackAll(a, v, n) &&
      (f in LostFrames(a, v, n) <==>
         Take(b.pool) == Some(f) || (f in Targets(a, v, k) && !(0 < f < a.pool.limit))) &&
      (f in AfterFailure(a, v, n).pool.free <==>
         (f in b.pool.free && Take(b.pool) != Some(f)) || (f in Targets(a, v, k) && 0 < f < a.pool.limit))
  {
    hide WithPages, Missed, Take, CanBack, CanBackAll, Targets;
    FailsOnce(a, v, n, k);
    LimitStays(a, v, k);
    MissedFrames(WithPages(a, v, k), v + k);
  }

  lemma MissedFrames(a: Account, v: nat)
    requires !CanBack(a, v)
    ensures Missed(a, v).limit == a.pool.limit
    ensures forall f :: f in Missed(a, v).free <==> f in a.pool.free && Take(a.pool) != Some(f)
  {
  }

  lemma {:induction false} LimitStays(a: Account, v: nat, n: nat)
    ensures WithPages(a, v, n).pool.limit == a.pool.limit
    decreases n
  {
    hide WithPage;
    if n > 0 {
      LimitStays(a, v, n - 1);
      WithPageLimit(WithPages(a, v, n - 1), v + n - 1);
    }
  }

  lemma WithPageLimit(a: Account, v: nat)
    ensures WithPage(a, v).pool.limit == a.pool.limit
  {
  }

  /** Page 5 is mapped already: the search takes frame 15 for it, and vmm_alloc_pages does not give it back. */
  lemma FrameIsLostExample()
    ensures var a := Account({0}, Pool({15}, 1, 16), {5});
      Take(a.pool) == Some(15) && !CanBackAll(a, 5, 1) && LostFrames(a, 5, 1) == {15} &&
      AfterFailure(a, 5, 1).pool.free == {}
  {
    var a := Account({0}, Pool({15}, 1, 16), {5});
    assert Seen({15}, 1, 16, 15);
    assert Take(a.pool).Some?;
    FirstFrameIsLost(a, 5, 1, 15);
  }

  // ---------------------------------------------------------------- what backing pages uses

  /** Conservation: n pages use n frames, and one more for each table that was missing, all of them free before; the
      pages are mapped, their tables exist, and nothing else changes. */
  lemma {:induction false} BackingUses(a: Account, v: nat, n: nat)
    requires CanBackAll(a, v, n)
    ensures var b := WithPages(a, v, n);
      (forall u :: u in b.mapped <==> u in a.mapped || v <= u < v + n) &&
      (forall i :: i in b.tables <==> i in a.tables || exists u :: v <= u < v + n && InTable(u, i)) &&
      a.tables <= b.tables && b.pool.free <= a.pool.free &&
      |a.pool.free| + |a.tables| == |b.pool.free| + |b.tables| + n
    ensures forall t | t in Targets(a, v, n) :: t in a.pool.free && t !in WithPages(a, v, n).pool.free
    decreases n
  {
    hide WithPage, CanBack, Take;
    if n > 0 {
      BackingUses(a, v, n - 1);
      var c := WithPages(a, v, n - 1);
      BackingUsesOne(c, v + n - 1);
      TablesGrow(a.tables, c.tables, v, n - 1);
    }
  }

  predicate InTable(u: nat, i: nat) {
    u / 1024 == i
  }

  lemma TablesGrow(t0: set<nat>, t: set<nat>, v: nat, n: nat)
    requires forall i :: i in t <==> i in t0 || exists u :: v <= u < v + n && InTable(u, i)
    ensures forall i :: i in t + {(v + n) / 1024} <==> i in t0 || exists u :: v <= u < v + n + 1 && InTable(u, i)
  {
    assert InTable(v + n, (v + n) / 1024);
  }

  lemma BackingUsesOne(a: Account, v: nat)
    requires CanBack(a, v)
    ensures var b := WithPage(a, v); var p := Take(a.pool).value;
      b.tables == a.tables + {v / 1024} && b.mapped == a.mapped + {v} && b.pool.free <= a.pool.free &&
      p in a.pool.free && p !in b.pool.free && v !in a.mapped &&
      |a.pool.free| + |a.tables| == |b.pool.free| + |b.tables| + 1
  {
    var s := After(a.pool);
    assert a.pool.free == s.free + {Take(a.pool).value};
    if v / 1024 in a.tables {
      assert a.tables + {v / 1024} == a.tables;
    } else {
      assert s.free == After(s).free + {Take(s).value};
    }
  }

  /** Pages can be backed only if none of them is mapped. */
  lemma BackedPagesAreUnmapped(a: Account, v: nat, n: nat, u: nat)
    requires CanBackAll(a, v, n) && v <= u < v + n
    ensures u !in a.mapped
    decreases n
  {
    hide WithPages, Take;
    BackingUses(a, v, n - 1);
    if u < v + n - 1 {
      BackedPagesAreUnmapped(a, v, n - 1, u);
    }
  }

  /** Backing n pages and then m more is backing n + m. */
  lemma {:induction false} BackedInTwo(a: Account, v: nat, n: nat, m: nat)
    ensures WithPages(a, v, n + m) == WithPages(WithPages(a, v, n), v + n, m)
    ensures CanBackAll(a, v, n + m) <==> CanBackAll(a, v, n) && CanBackAll(WithPages(a, v, n), v + n, m)
    decreases m
  {
    hide WithPage, CanBack;
    if m > 0 {
      BackedInTwo(a, v, n, m - 1);
    }
  }

  // ---------------------------------------------------------------- pages backed one by one

  /** vmm_alloc_page on an unmapped page: it is backed, or the frame in hand goes back to the bitmap, which refuses
      frames from max_pg on. */
  ghost function BackOrPass(a: Account, v: nat): Account {
    if CanBack(a, v) then WithPage(a, v)
    else
      match Take(a.pool)
      case None => a.(pool := After(a.pool))
      case Some(p) =>
        var s := After(After(a.pool));
        a.(pool := s.(free := s.free + if 0 < p < s.limit then {p} else {}))
  }

  lemma PassedIs(a: Account, v: nat)
    ensures CanBack(a, v) ==> BackOrPass(a, v) == WithPage(a, v)
    ensures !CanBack(a, v) && Take(a.pool) == None ==> BackOrPass(a, v) == a.(pool := After(a.pool))
    ensures !CanBack(a, v) && Take(a.pool).Some? ==>
      var p, s := Take(a.pool).value, After(After(a.pool));
      BackOrPass(a, v) == a.(pool := s.(free := s.free + if 0 < p < s.limit then {p} else {}))
  {
  }

  /** vmm_alloc_page on the n pages from v on, failures being passed over. */
  ghost function BackOrPassAll(a: Account, v: nat, n: nat): Account
    decreases n
  {
    if n == 0 then a else BackOrPass(BackOrPassAll(a, v, n - 1), v + n - 1)
  }

  // ---------------------------------------------------------------- enough frames

  /** Two last pages of groups are enough for one page. */
  lemma PlentyBacksOne(a: Account, v: nat, g: nat, n: nat) returns (g': nat)
    requires Plenty(a.pool, g, n + 2) && v !in a.mapped
    ensures CanBack(a, v) && Plenty(WithPage(a, v).pool, g', n)
  {
    PlentyTakes(a.pool, g, n + 2);
    if v / 1024 in a.tables {
      g' := g + 1;
      PlentyLess(After(a.pool), g', n + 1, n);
    } else {
      PlentyTakes(After(a.pool), g + 1, n + 1);
      g' := g + 2;
    }
  }

  lemma StillUnmapped(a: Account, v: nat, n: nat)
    requires CanBackAll(a, v, n) && v + n !in a.mapped
    ensures v + n !in WithPages(a, v, n).mapped
  {
    hide CanBackAll, WithPages;
    BackingUses(a, v, n);
  }

  lemma {:induction false} PlentyBacks(a: Account, v: nat, n: nat, g: nat, m: nat) returns (g': nat)
    requires Plenty(a.pool, g, 2 * n + m) && forall u | v <= u < v + n :: u !in a.mapped
    ensures CanBackAll(a, v, n) && Plenty(WithPages(a, v, n).pool, g', m)
    decreases n
  {
    hide Plenty, CanBack, Take, WithPage;
    if n == 0 {
      g' := g;
    } else {
      var h := PlentyBacks(a, v, n - 1, g, m + 2);
      StillUnmapped(a, v, n - 1);
      BackedStep(a, v, n - 1);
      hide CanBackAll, WithPages;
      g' := PlentyBacksOne(WithPages(a, v, n - 1), v + n - 1, h, m);
    }
  }

  /** Then vmm_alloc_page passes over none of the n pages either. */
  lemma {:induction false} PlentyPassesNone(a: Account, v: nat, n: nat, g: nat, m: nat) returns (g': nat)
    requires Plenty(a.pool, g, 2 * n + m) && forall u | v <= u < v + n :: u !in a.mapped
    ensures var b := BackOrPassAll(a, v, n);
      Plenty(b.pool, g', m) && forall u :: u in b.mapped <==> u in a.mapped || v <= u < v + n
    decreases n
  {
    hide Plenty, CanBack, Take, After;
    if n == 0 {
      g' := g;
    } else {
      var h := PlentyPassesNone(a, v, n - 1, g, m + 2);
      g' := PlentyBacksOne(BackOrPassAll(a, v, n - 1), v + n - 1, h, m);
    }
  }
}
