/** The next-fit search of kernel/mm/pmm.c, pmm_alloc_page, on the plain set of free pages: which pages it comes
    across, which one it takes, where the cursor ends, and when it misses pages. */
module PageSearch {
  import opened Words

  /** LOOKUP_START: page 0 is never handed out. */
  const LOOKUP_START: nat := 1

  // ---------------------------------------------------------------- one pass

  /** No page of the groups [g, h) is free. */
  ghost predicate NoneFreeInGroups(free: set<nat>, g: nat, h: nat) {
    forall q | q in free :: !(g <= q / 8 < h)
  }

  /** Page p is one that a pass from `start` up to `limit` comes across. As long as it has met full groups only, the
      cursor keeps the remainder it started with, and looks at a group from that bit on; after the first group
      that is not full it is aligned. A group is entered when the cursor is below the limit then. */
  ghost predicate Seen(free: set<nat>, start: nat, limit: nat, p: nat) {
    p in free && start <= p &&
    if NoneFreeInGroups(free, start / 8, p / 8) then start % 8 <= p % 8 && 8 * (p / 8) + start % 8 < limit
    else 8 * (p / 8) < limit
  }

  ghost predicate SomeSeen(free: set<nat>, start: nat, limit: nat) {
    exists p :: Seen(free, start, limit, p)
  }

  ghost predicate FirstSeen(free: set<nat>, start: nat, limit: nat, p: nat) {
    Seen(free, start, limit, p) && forall q | Seen(free, start, limit, q) :: p <= q
  }

  /** The pass ends in its first group that is not full; then the search does not wrap around. */
  ghost predicate Stranded(free: set<nat>, start: nat, limit: nat) {
    exists q :: StrandedAt(free, start, limit, q)
  }

  ghost predicate StrandedAt(free: set<nat>, start: nat, limit: nat, q: nat) {
    q in free && start / 8 <= q / 8 && NoneFreeInGroups(free, start / 8, q / 8) &&
    8 * (q / 8) + start % 8 < limit <= 8 * (q / 8) + 8
  }

  /** What is free in [lo, hi) and not seen lies in one single group, below the bit at which the pass entered;
      there is none when it entered at a group boundary. */
  ghost predicate MissedOnlyIn(free: set<nat>, lo: nat, hi: nat, g: nat) {
    forall p | p in free && lo <= p < hi :: p / 8 == g && p % 8 < lo % 8
  }

  lemma UnseenLieInOneGroup(free: set<nat>, lo: nat, hi: nat) returns (g: nat)
    requires !SomeSeen(free, lo, hi)
    ensures MissedOnlyIn(free, lo, hi, g)
  {
    if p :| p in free && lo <= p < hi {
      g := p / 8;
      forall q | q in free && lo <= q < hi
        ensures q / 8 == g && q % 8 < lo % 8
      {
        assert !Seen(free, lo, hi, p) && !Seen(free, lo, hi, q);
      }
    } else {
      g := 0;
    }
  }

  /** How far a pass has got: through full groups only, or past a group that is not full and then aligned, with
      everything it can see still ahead. */
  ghost predicate Passed(free: set<nat>, start: nat, limit: nat, cursor: nat) {
    (Skewed(free, start, cursor) || Aligned(free, start, limit, cursor)) && (cursor == start || cursor < limit + 8)
  }

  ghost predicate Skewed(free: set<nat>, start: nat, cursor: nat) {
    start <= cursor && cursor % 8 == start % 8 && NoneFreeInGroups(free, start / 8, cursor / 8)
  }

  ghost predicate Aligned(free: set<nat>, start: nat, limit: nat, cursor: nat) {
    cursor % 8 == 0 && start < limit && start / 8 < cursor / 8 &&
    !NoneFreeInGroups(free, start / 8, cursor / 8) && !NoneFreeInGroups(free, start / 8, SkewedEnd(start, limit) / 8) &&
    forall p | Seen(free, start, limit, p) :: cursor <= p
  }

  /** Where a cursor that moves by eight only ends. */
  function SkewedEnd(start: nat, limit: nat): nat {
    if limit <= start then start else start + (limit - start + 7) / 8 * 8
  }

  lemma PassStart(free: set<nat>, start: nat, limit: nat)
    ensures Passed(free, start, limit, start)
  {
    assert Skewed(free, start, start);
  }

  /** A full group: the cursor moves on by eight and keeps its remainder. */
  lemma PassFull(free: set<nat>, start: nat, limit: nat, cursor: nat)
    requires Passed(free, start, limit, cursor) && cursor < limit
    requires forall p | p in free :: p / 8 != cursor / 8
    ensures Passed(free, start, limit, cursor + 8)
    ensures limit <= cursor + 8 ==> !Stranded(free, start, limit)
  {
    assert (cursor + 8) / 8 == cursor / 8 + 1 && (cursor + 8) % 8 == cursor % 8;
    if Skewed(free, start, cursor) {
      assert Skewed(free, start, cursor + 8);
    } else {
      forall p: nat | Seen(free, start, limit, p)
        ensures cursor + 8 <= p
      {
        assert cursor <= p && p / 8 != cursor / 8;
      }
      assert Aligned(free, start, limit, cursor + 8);
    }
  }

  /** A group that is not full, scanned without success: the cursor is aligned from now on. */
  lemma PassOpen(free: set<nat>, start: nat, limit: nat, cursor: nat, open: nat)
    requires Passed(free, start, limit, cursor) && cursor < limit
    requires open in free && open / 8 == cursor / 8 && forall p | p in free && cursor <= p :: 8 * (cursor / 8) + 8 <= p
    ensures Passed(free, start, limit, 8 * (cursor / 8) + 8)
    ensures limit <= 8 * (cursor / 8) + 8 ==> Stranded(free, start, limit)
  {
    var next := 8 * (cursor / 8) + 8;
    if Skewed(free, start, cursor) {
      SkewedSteps(start, limit, cursor);
      if limit <= next {
        assert StrandedAt(free, start, limit, open);
      }
      forall p: nat | Seen(free, start, limit, p)
        ensures next <= p
      {
        SeenAhead(free, start, limit, cursor, p);
      }
      assert Aligned(free, start, limit, next);
    }
  }

  lemma SeenAhead(free: set<nat>, start: nat, limit: nat, cursor: nat, p: nat)
    requires Passed(free, start, limit, cursor) && Seen(free, start, limit, p)
    ensures cursor <= p
  {
    if Skewed(free, start, cursor) {
      assert start / 8 <= p / 8 && cursor / 8 <= p / 8;
    }
  }

  /** The first free page from the cursor on, in the cursor's group, is the first page the pass sees. */
  lemma PassFound(free: set<nat>, start: nat, limit: nat, cursor: nat, p: nat)
    requires Passed(free, start, limit, cursor) && cursor < limit
    requires p in free && cursor <= p < 8 * (cursor / 8) + 8 && forall q | q in free && cursor <= q :: p <= q
    ensures FirstSeen(free, start, limit, p)
  {
    assert p / 8 == cursor / 8;
    assert Seen(free, start, limit, p);
    forall q: nat | Seen(free, start, limit, q)
      ensures p <= q
    {
      SeenAhead(free, start, limit, cursor, q);
    }
  }

  lemma PassEnd(free: set<nat>, start: nat, limit: nat, cursor: nat)
    requires Passed(free, start, limit, cursor) && limit <= cursor
    ensures !SomeSeen(free, start, limit) && cursor == EndOfPass(free, start, limit)
  {
    forall p
      ensures !Seen(free, start, limit, p)
    {
      if Seen(free, start, limit, p) {
        SeenAhead(free, start, limit, cursor, p);
      }
    }
    if Skewed(free, start, cursor) {
      SkewedSteps(start, limit, cursor);
    }
  }

  /** A cursor that has moved by eight only is one of the multiples below the end, or the end. */
  lemma SkewedSteps(start: nat, limit: nat, cursor: nat)
    requires start <= cursor && cursor % 8 == start % 8
    ensures cursor < limit ==> cursor / 8 < SkewedEnd(start, limit) / 8
    ensures limit <= cursor && (cursor == start || cursor < limit + 8) ==> cursor == SkewedEnd(start, limit)
  {
    var k := cursor / 8 - start / 8;
    assert cursor == start + 8 * k;
  }

  /** Where the cursor is after a pass that finds nothing. */
  ghost function EndOfPass(free: set<nat>, start: nat, limit: nat): nat {
    if limit <= start then start
    else
      var e := SkewedEnd(start, limit);
      if NoneFreeInGroups(free, start / 8, e / 8) then e else (limit + 7) / 8 * 8
  }

  // ---------------------------------------------------------------- the whole search

  /** What the search depends on: the free pages, pg_lookup_ptr and max_pg. */
  datatype Pool = Pool(free: set<nat>, cursor: nat, limit: nat)

  /** The search turns back only when its first pass neither starts nor ends in a way that keeps it from doing so. */
  ghost predicate Wraps(s: Pool) {
    s.cursor != LOOKUP_START && s.cursor < s.limit && !Stranded(s.free, s.cursor, s.limit)
  }

  /** When the search fails: it sees nothing from the cursor to max_pg, and either does not wrap around (it had
      entered at the start or at the end, or is stranded) or sees nothing below the cursor either. */
  ghost predicate NothingFound(s: Pool) {
    !SomeSeen(s.free, s.cursor, s.limit) && (!Wraps(s) || !SomeSeen(s.free, LOOKUP_START, s.cursor))
  }

  /** Next fit: the first page seen from the cursor on, or else the first one seen from the start. */
  ghost predicate NextFit(s: Pool, p: nat) {
    if SomeSeen(s.free, s.cursor, s.limit) then FirstSeen(s.free, s.cursor, s.limit, p)
    else FirstSeen(s.free, LOOKUP_START, s.cursor, p)
  }

  /** The page that pmm_alloc_page takes. */
  ghost function Take(s: Pool): (r: Option<nat>)
    ensures r == None <==> NothingFound(s)
    ensures r.Some? ==> NextFit(s, r.value) && r.value in s.free
  {
    if NothingFound(s) then None
    else
      NextFitExists(s);
      var p :| NextFit(s, p);
      Some(p)
  }

  /** The pool after the call. */
  ghost function After(s: Pool): Pool {
    match Take(s)
    case Some(p) => Pool(s.free - {p}, p, s.limit)
    case None => s.(cursor := if Wraps(s) then EndOfPass(s.free, LOOKUP_START, s.cursor)
                              else EndOfPass(s.free, s.cursor, s.limit))
  }

  lemma LeastSeen(free: set<nat>, start: nat, limit: nat, p: nat) returns (q: nat)
    requires Seen(free, start, limit, p)
    ensures FirstSeen(free, start, limit, q)
    decreases p
  {
    if r: nat :| r < p && Seen(free, start, limit, r) {
      q := LeastSeen(free, start, limit, r);
    } else {
      q := p;
    }
  }

  lemma NextFitExists(s: Pool)
    requires !NothingFound(s)
    ensures exists p: nat :: NextFit(s, p)
  {
    if SomeSeen(s.free, s.cursor, s.limit) {
      var p :| Seen(s.free, s.cursor, s.limit, p);
      var q := LeastSeen(s.free, s.cursor, s.limit, p);
      assert NextFit(s, q);
    } else {
      var p :| Seen(s.free, LOOKUP_START, s.cursor, p);
      var q := LeastSeen(s.free, LOOKUP_START, s.cursor, p);
      assert NextFit(s, q);
    }
  }

  /** There is never a second candidate. */
  lemma TakeIs(s: Pool, p: nat)
    requires !NothingFound(s) && NextFit(s, p)
    ensures Take(s) == Some(p)
  {
  }

  /** The end of the search: the second pass if it has wrapped around, the first one otherwise. */
  lemma SearchEnds(s: Pool, start: nat, limit: nat, wrapped: bool, found: bool, cursor: nat)
    requires if wrapped then start == LOOKUP_START && limit == s.cursor else start == s.cursor && limit == s.limit
    requires wrapped ==> Wraps(s) && !SomeSeen(s.free, s.cursor, s.limit)
    requires if found then FirstSeen(s.free, start, limit, cursor)
             else Passed(s.free, start, limit, cursor) && limit <= cursor && (!wrapped ==> !Wraps(s))
    ensures if found then Take(s) == Some(cursor) && After(s) == Pool(s.free - {cursor}, cursor, s.limit)
            else Take(s) == None && After(s) == s.(cursor := cursor)
  {
    if found {
      assert Seen(s.free, start, limit, cursor);
      TakeIs(s, cursor);
    } else {
      PassEnd(s.free, start, limit, cursor);
    }
  }

  // ---------------------------------------------------------------- what the search misses

  /** All the free pages in the groups that a pass reaches lie in one group, below the bit at which it is entered,
      or the pass ends before it enters that group. */
  ghost predicate MissedIn(free: set<nat>, lo: nat, hi: nat, g: nat) {
    forall q | q in free && lo / 8 <= q / 8 && 8 * (q / 8) < hi ::
      q / 8 == g && (q % 8 < lo % 8 || hi <= 8 * g + lo % 8)
  }

  /** Exactly when a pass sees nothing. */
  lemma PassSeesNothing(free: set<nat>, lo: nat, hi: nat)
    ensures !SomeSeen(free, lo, hi) <==> exists g: nat :: MissedIn(free, lo, hi, g)
  {
    if !SomeSeen(free, lo, hi) {
      if p :| p in free && lo / 8 <= p / 8 && 8 * (p / 8) < hi {
        forall q | q in free && lo / 8 <= q / 8 && 8 * (q / 8) < hi
          ensures q / 8 == p / 8 && (q % 8 < lo % 8 || hi <= 8 * (p / 8) + lo % 8)
        {
          assert !Seen(free, lo, hi, p) && !Seen(free, lo, hi, q);
        }
        assert MissedIn(free, lo, hi, p / 8);
      } else {
        assert MissedIn(free, lo, hi, 0);
      }
    } else {
      var p: nat :| Seen(free, lo, hi, p);
      forall g: nat
        ensures !MissedIn(free, lo, hi, g)
      {
        if !NoneFreeInGroups(free, lo / 8, p / 8) {
          var q :| q in free && lo / 8 <= q / 8 < p / 8;
        }
      }
    }
  }

  /** A pass misses a free page in its range exactly when that page lies in the first group that is not full, below the
      bit at which the pass enters it. */
  lemma MissedByPass(free: set<nat>, lo: nat, hi: nat, q: nat)
    requires q in free && lo <= q < hi
    ensures !Seen(free, lo, hi, q) <==> NoneFreeInGroups(free, lo / 8, q / 8) && q % 8 < lo % 8
  {
  }

  /** Exactly when pmm_alloc_page fails. All the free pages that the first pass reaches lie in one group, below the bit
      at which it enters that group, or it ends before it enters it. And the search does not turn back, because it
      started at the beginning or at the end, or because the first group that is not full is the last one; or else the
      second pass, from page 1 up to the cursor, is blind in the same way. */
  lemma SearchMisses(s: Pool)
    ensures Take(s) == None <==>
      (forall q, r | q in s.free && s.cursor / 8 <= q / 8 && 8 * (q / 8) < s.limit &&
                     r in s.free && s.cursor / 8 <= r / 8 && 8 * (r / 8) < s.limit ::
         q / 8 == r / 8 && (q % 8 < s.cursor % 8 || s.limit <= 8 * (q / 8) + s.cursor % 8)) &&
      (s.cursor == 1 || s.limit <= s.cursor ||
       (exists q :: q in s.free && s.cursor / 8 <= q / 8 &&
          8 * (q / 8) + s.cursor % 8 < s.limit <= 8 * (q / 8) + 8 &&
          forall r | r in s.free :: !(s.cursor / 8 <= r / 8 < q / 8)) ||
       (forall q, r | q in s.free && 8 * (q / 8) < s.cursor && r in s.free && 8 * (r / 8) < s.cursor ::
          q / 8 == r / 8 && (q % 8 < 1 || s.cursor <= 8 * (q / 8) + 1)))
  {
    BlindPass(s.free, s.cursor, s.limit);
    BlindPass(s.free, LOOKUP_START, s.cursor);
    StrandedMeans(s.free, s.cursor, s.limit);
    hide Stranded, SomeSeen, Seen;
  }

  lemma BlindPass(free: set<nat>, lo: nat, hi: nat)
    ensures !SomeSeen(free, lo, hi) <==>
      forall q, r | q in free && lo / 8 <= q / 8 && 8 * (q / 8) < hi &&
                    r in free && lo / 8 <= r / 8 && 8 * (r / 8) < hi ::
        q / 8 == r / 8 && (q % 8 < lo % 8 || hi <= 8 * (q / 8) + lo % 8)
  {
    PassSeesNothing(free, lo, hi);
    hide SomeSeen, Seen;
    if q :| q in free && lo / 8 <= q / 8 && 8 * (q / 8) < hi {
      assert (exists g: nat :: MissedIn(free, lo, hi, g)) ==> MissedIn(free, lo, hi, q / 8);
    } else {
      assert MissedIn(free, lo, hi, 0);
    }
  }

  /** A pass is stranded when its first group that is not full is entered and is the last one. */
  lemma StrandedMeans(free: set<nat>, lo: nat, hi: nat)
    ensures Stranded(free, lo, hi) <==>
      exists q :: q in free && lo / 8 <= q / 8 && 8 * (q / 8) + lo % 8 < hi <= 8 * (q / 8) + 8 &&
        forall r | r in free :: !(lo / 8 <= r / 8 < q / 8)
  {
    forall q | q in free
      ensures StrandedAt(free, lo, hi, q) <==>
        lo / 8 <= q / 8 && 8 * (q / 8) + lo % 8 < hi <= 8 * (q / 8) + 8 &&
        forall r | r in free :: !(lo / 8 <= r / 8 < q / 8)
    {
    }
  }

  /** The search takes page q in its first pass. When all the groups before that of q are full, the group is looked at
      from the bit of the cursor on; otherwise from its first page on, the free pages that were passed over lying in
      the first group that is not full, below that bit. */
  lemma FirstPassTakes(s: Pool, q: nat)
    requires q in s.free && s.cursor <= q
    requires
      if forall r | r in s.free :: !(s.cursor / 8 <= r / 8 < q / 8) then
        s.cursor % 8 <= q % 8 && 8 * (q / 8) + s.cursor % 8 < s.limit &&
        forall r | r in s.free && r / 8 == q / 8 && s.cursor % 8 <= r % 8 :: q <= r
      else
        8 * (q / 8) < s.limit &&
        forall r, t | r in s.free && t in s.free && s.cursor / 8 <= r / 8 && s.cursor / 8 <= t / 8 && r < q ::
          r % 8 < s.cursor % 8 && r / 8 <= t / 8
    ensures Take(s) == Some(q) && After(s) == Pool(s.free - {q}, q, s.limit)
  {
    assert Seen(s.free, s.cursor, s.limit, q);
    forall p: nat | Seen(s.free, s.cursor, s.limit, p)
      ensures q <= p
    {
    }
    assert NextFit(s, q);
    TakeIs(s, q);
  }

  /** The search turns back when its first pass has entered full groups only, or has left a group that is not full
      behind it and ends at a full one: the second pass is the search from page 1 up to the cursor. */
  lemma SearchTurnsBack(s: Pool)
    requires 1 != s.cursor < s.limit
    requires forall q, r | q in s.free && s.cursor / 8 <= q / 8 && 8 * (q / 8) < s.limit &&
                           r in s.free && s.cursor / 8 <= r / 8 && 8 * (r / 8) < s.limit ::
      q / 8 == r / 8 && (q % 8 < s.cursor % 8 || s.limit <= 8 * (q / 8) + s.cursor % 8)
    requires forall q | q in s.free && s.cursor / 8 <= q / 8 ::
      !(8 * (q / 8) + s.cursor % 8 < s.limit <= 8 * (q / 8) + 8)
    ensures var second := Pool(s.free, 1, s.cursor);
      Take(s) == Take(second) && After(s) == After(second).(limit := s.limit)
  {
    BlindPass(s.free, s.cursor, s.limit);
    StrandedMeans(s.free, s.cursor, s.limit);
    hide Stranded, SomeSeen, Seen, EndOfPass;
    var second := Pool(s.free, 1, s.cursor);
    assert NothingFound(s) <==> NothingFound(second);
    if !NothingFound(s) {
      NextFitExists(second);
      var p: nat :| NextFit(second, p);
      TakeIs(s, p);
      TakeIs(second, p);
    }
  }

  /** Free pages only in the last group, below the bit at which it is entered: the search fails, whatever is free below
      the cursor. */
  lemma StrandedFails(s: Pool, q: nat)
    requires q in s.free && s.cursor / 8 <= q / 8 && 8 * (q / 8) + s.cursor % 8 < s.limit <= 8 * (q / 8) + 8
    requires forall r | r in s.free && s.cursor / 8 <= r / 8 && r < 8 * (q / 8) + 8 ::
      r / 8 == q / 8 && r % 8 < s.cursor % 8
    ensures Take(s) == None && After(s) == Pool(s.free, 8 * (q / 8) + 8, s.limit)
  {
    assert StrandedAt(s.free, s.cursor, s.limit, q);
    forall r: nat
      ensures !Seen(s.free, s.cursor, s.limit, r)
    {
    }
  }

  /** Where the cursor is left when the search fails without turning back: it has moved by eight only, past full
      groups; or it is at the end of the last group. */
  lemma FailedCursor(s: Pool)
    requires Take(s) == None
    requires s.cursor == 1 || s.limit <= s.cursor ||
      exists q :: q in s.free && s.cursor / 8 <= q / 8 && 8 * (q / 8) + s.cursor % 8 < s.limit <= 8 * (q / 8) + 8 &&
        forall r | r in s.free :: !(s.cursor / 8 <= r / 8 < q / 8)
    ensures After(s).free == s.free && After(s).limit == s.limit
    ensures s.limit <= s.cursor ==> After(s).cursor == s.cursor
    ensures s.cursor < s.limit ==>
      var skewed := s.cursor + (s.limit - s.cursor + 7) / 8 * 8;
      After(s).cursor ==
        if forall r | r in s.free :: !(s.cursor / 8 <= r / 8 < skewed / 8) then skewed else (s.limit + 7) / 8 * 8
  {
    assert !Wraps(s) by {
      StrandedMeans(s.free, s.cursor, s.limit);
    }
    hide Wraps, Take;
    EndOfPassIs(s.free, s.cursor, s.limit);
  }

  lemma EndOfPassIs(free: set<nat>, lo: nat, hi: nat)
    ensures hi <= lo ==> EndOfPass(free, lo, hi) == lo
    ensures lo < hi ==>
      var skewed := lo + (hi - lo + 7) / 8 * 8;
      EndOfPass(free, lo, hi) ==
        if forall r | r in free :: !(lo / 8 <= r / 8 < skewed / 8) then skewed else (hi + 7) / 8 * 8
  {
  }

  /** No group that is entered from the initial cursor has a free page but g, and g has only its first one free; or g
      is not entered, because max_pg is the page after its first one. */
  ghost predicate OnlyFirstPageOf(free: set<nat>, limit: nat, g: nat) {
    forall q | q in free && 8 * (q / 8) < limit :: q / 8 == g && (q == 8 * g || limit == 8 * g + 1)
  }

  /** Exactly when the search from the initial cursor finds nothing. */
  lemma FirstSearchMisses(free: set<nat>, limit: nat)
    ensures Take(Pool(free, LOOKUP_START, limit)) == None <==> exists g: nat :: OnlyFirstPageOf(free, limit, g)
  {
    PassSeesNothing(free, LOOKUP_START, limit);
    forall g: nat
      ensures MissedIn(free, LOOKUP_START, limit, g) <==> OnlyFirstPageOf(free, limit, g)
    {
    }
  }

  /** The cursor stands past the only free page of its group, in the last group of the bitmap: the pass finds nothing
      there and is stranded, so that nothing below the cursor is looked at. */
  lemma SearchMissesExample()
    ensures Take(Pool({2, 8}, 9, 16)) == None && After(Pool({2, 8}, 9, 16)) == Pool({2, 8}, 16, 16)
  {
    StrandedFails(Pool({2, 8}, 9, 16), 8);
  }

  /** Page 8 is the only free one: the search from page 1 enters group 1 at page 9. */
  lemma FirstSearchMissesExample()
    ensures Take(Pool({8}, 1, 16)) == None && After(Pool({8}, 1, 16)) == Pool({8}, 16, 16)
  {
    hide Take, After;
    assert 8 in Pool({8}, 1, 16).free;
    FirstSearchMisses({8}, 16);
    assert OnlyFirstPageOf({8}, 16, 1);
    FailedCursor(Pool({8}, 1, 16));
  }

  /** Group 1 is full: the search turns back and takes page 2. Page 20 is below the bit at which group 2 is entered,
      and group 3 is full: the search turns back and takes page 3. */
  lemma SearchTurnsBackExample()
    ensures Take(Pool({2}, 9, 16)) == Some(2) && After(Pool({2}, 9, 16)) == Pool({}, 2, 16)
    ensures Take(Pool({3, 20}, 13, 32)) == Some(3) && After(Pool({3, 20}, 13, 32)) == Pool({20}, 3, 32)
  {
    hide Take, After;
    FirstPassTakes(Pool({2}, 1, 9), 2);
    SearchTurnsBack(Pool({2}, 9, 16));
    FirstPassTakes(Pool({3, 20}, 1, 13), 3);
    SearchTurnsBack(Pool({3, 20}, 13, 32));
    assert {3, 20} - {3} == {20} && {2} - {2} == {};
  }

  /** The free pages below hi, from the group of lo on, all lie in group g, below the remainder of lo. */
  ghost predicate BelowBit(free: set<nat>, lo: nat, hi: nat, g: nat) {
    forall q | q in free && lo / 8 <= q / 8 && q < hi :: q / 8 == g && q % 8 < lo % 8
  }

  /** The page taken lies at or past max_pg exactly when the first pass sees a page at all, and the free pages below
      max_pg that it could have taken are in one group, below the bit at which it enters that group. */
  lemma PastLimit(s: Pool, p: nat)
    requires Take(s) == Some(p) && 1 <= s.cursor
    ensures p >= s.limit <==>
      SomeSeen(s.free, s.cursor, s.limit) && exists g: nat :: BelowBit(s.free, s.cursor, s.limit, g)
    ensures p >= s.limit ==> p / 8 == s.limit / 8 && s.limit % 8 <= p % 8
  {
    var free, lo, hi := s.free, s.cursor, s.limit;
    if !SomeSeen(free, lo, hi) {
      assert FirstSeen(free, LOOKUP_START, lo, p);
      assert !Seen(free, lo, hi, p);
    } else if p >= hi {
      AllBelowBit(free, lo, hi, p);
    } else {
      SeenIsNotBelow(free, lo, hi, p);
    }
  }

  /** When the first page seen lies at or past the limit. */
  lemma AllBelowBit(free: set<nat>, lo: nat, hi: nat, p: nat)
    requires FirstSeen(free, lo, hi, p) && p >= hi
    ensures exists g: nat :: BelowBit(free, lo, hi, g)
  {
    if q :| q in free && lo / 8 <= q / 8 && q < hi {
      forall r | r in free && lo / 8 <= r / 8 && r < hi
        ensures r / 8 == q / 8 && r % 8 < lo % 8
      {
        assert !Seen(free, lo, hi, q) && !Seen(free, lo, hi, r);
      }
      assert BelowBit(free, lo, hi, q / 8);
    } else {
      assert BelowBit(free, lo, hi, 0);
    }
  }

  lemma SeenIsNotBelow(free: set<nat>, lo: nat, hi: nat, p: nat)
    requires Seen(free, lo, hi, p) && p < hi
    ensures forall g: nat :: !BelowBit(free, lo, hi, g)
  {
    if !NoneFreeInGroups(free, lo / 8, p / 8) {
      var q :| q in free && lo / 8 <= q / 8 < p / 8;
    }
  }

  lemma PastLimitExample()
    ensures Take(Pool({13}, 8, 12)) == Some(13)
  {
    assert Seen({13}, 8, 12, 13);
    assert FirstSeen({13}, 8, 12, 13);
    TakeIs(Pool({13}, 8, 12), 13);
  }

  // ---------------------------------------------------------------- enough pages

  /** The last pages of n consecutive groups, from group g on, are free, below the limit and ahead of the cursor. */
  ghost predicate Plenty(s: Pool, g: nat, n: nat) {
    s.cursor <= 8 * g + 7 && forall k: nat | k < n :: LastPage(g, k) in s.free && LastPage(g, k) < s.limit
  }

  function LastPage(g: nat, k: nat): nat {
    8 * (g + k) + 7
  }

  /** Every pass comes across the last page of a group, whatever the cursor's remainder is; so n such pages are enough
      for n calls. */
  lemma PlentyTakes(s: Pool, g: nat, n: nat)
    requires Plenty(s, g, n) && n >= 1
    ensures Take(s).Some? && Plenty(After(s), g + 1, n - 1)
  {
    var q := LastPage(g, 0);
    assert Seen(s.free, s.cursor, s.limit, q);
    var p := Take(s).value;
    assert p <= q;
    forall k: nat {:trigger LastPage(g + 1, k)} | k < n - 1
      ensures LastPage(g + 1, k) in After(s).free && LastPage(g + 1, k) < s.limit
    {
      assert LastPage(g + 1, k) == LastPage(g, k + 1);
    }
  }

  lemma PlentyLess(s: Pool, g: nat, n: nat, m: nat)
    requires Plenty(s, g, n) && m <= n
    ensures Plenty(s, g, m)
  {
  }
}
