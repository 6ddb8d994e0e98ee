/** kernel/mm/pmm.c: the physical page bitmap, one bit per page, most significant bit first. */
module PhysicalPages {
  import opened Words
  import opened PageSearch

  /** PM_BMP_MAX_SIZE, in bytes. */
  const PM_BMP_MAX_SIZE: nat := 131072

  // ---------------------------------------------------------------- one byte

  /** Bit i of a group, counted from the most significant one. */
  predicate Bit(b: bv8, i: nat)
    requires i < 8
  {
    b & PageMask(i) != 0
  }

  /** `0x80U >> i`, tabulated (PageMaskIsShift). */
  function PageMask(i: nat): (m: bv8)
    requires i < 8
  {
    if i == 0 then 0x80 else if i == 1 then 0x40 else if i == 2 then 0x20 else if i == 3 then 0x10
    else if i == 4 then 0x08 else if i == 5 then 0x04 else if i == 6 then 0x02 else 0x01
  }

  /** `((1U << n) - 1) << shift`, the masks of the chunk operations. */
  function Ones(n: nat, shift: nat): bv32
    requires n + shift <= 8
  {
    ((1 << n) - 1) << shift
  }

  lemma OnesBits(n: nat, shift: nat)
    requires n + shift <= 8
    ensures Ones(n, shift) <= 0xFF
    ensures var m := Ones(n, shift) as bv8; forall i: nat | i < 8 :: Bit(m, i) <==> 8 - shift - n <= i < 8 - shift
  {
    OnesBit(n, shift, 0);
    var m := Ones(n, shift) as bv8;
    forall i: nat | i < 8
      ensures Bit(m, i) <==> 8 - shift - n <= i < 8 - shift
    {
      OnesBit(n, shift, i);
    }
  }

  lemma OnesBit(n: nat, shift: nat, i: nat)
    requires n + shift <= 8 && i < 8
    ensures Ones(n, shift) <= 0xFF
    ensures Bit(Ones(n, shift) as bv8, i) <==> 8 - shift - n <= i < 8 - shift
  {
  }

  lemma MaskedBits(b: bv8, m: bv8)
    ensures forall i: nat | i < 8 :: Bit(b & !m, i) == (Bit(b, i) && !Bit(m, i))
    ensures forall i: nat | i < 8 :: Bit(b | m, i) == (Bit(b, i) || Bit(m, i))
  {
    forall i: nat | i < 8
      ensures Bit(b & !m, i) == (Bit(b, i) && !Bit(m, i))
      ensures Bit(b | m, i) == (Bit(b, i) || Bit(m, i))
    {
      MaskedBit(b, m, i);
    }
  }

  lemma MaskedBit(b: bv8, m: bv8, i: nat)
    requires i < 8
    ensures Bit(b & !m, i) == (Bit(b, i) && !Bit(m, i))
    ensures Bit(b | m, i) == (Bit(b, i) || Bit(m, i))
  {
    OneHot(i);
    MaskedByOne(b, m, PageMask(i));
  }

  predicate IsOneHot(k: bv8) {
    k == 0x80 || k == 0x40 || k == 0x20 || k == 0x10 || k == 0x08 || k == 0x04 || k == 0x02 || k == 0x01
  }

  lemma OneHot(i: nat)
    requires i < 8
    ensures IsOneHot(PageMask(i))
  {
  }

  lemma MaskedByOne(b: bv8, m: bv8, k: bv8)
    requires IsOneHot(k)
    ensures (b & !m) & k != 0 <==> b & k != 0 && m & k == 0
    ensures (b | m) & k != 0 <==> b & k != 0 || m & k != 0
  {
  }

  /** The link of the table to the shift of the source, and to the masks of the chunk operations. */
  lemma PageMaskIsShift(i: nat)
    requires i < 8
    ensures PageMask(i) == 0x80 >> i && PageMask(i) as bv32 == Ones(1, 7 - i)
  {
  }

  lemma UniformBits()
    ensures forall i: nat | i < 8 :: Bit(0xFF, i) && !Bit(0, i)
  {
    forall i: nat | i < 8
      ensures Bit(0xFF, i) && !Bit(0, i)
    {
    }
  }

  lemma NotFull(b: bv8) returns (i: nat)
    requires b != 0xFF
    ensures i < 8 && !Bit(b, i)
  {
    if !Bit(b, 0) { return 0; }
    if !Bit(b, 1) { return 1; }
    if !Bit(b, 2) { return 2; }
    if !Bit(b, 3) { return 3; }
    if !Bit(b, 4) { return 4; }
    if !Bit(b, 5) { return 5; }
    if !Bit(b, 6) { return 6; }
    return 7;
  }

  // ---------------------------------------------------------------- the set of free pages

  /** The pages whose bit is clear: the plain set the bitmap stands for. */
  ghost function FreeSet(bm: seq<bv8>): set<nat> {
    set p: nat | p < 8 * |bm| && !Bit(bm[p / 8], p % 8)
  }

  ghost function Pages(start: nat, count: nat): set<nat> {
    set p: nat | p < start + count && AtLeast(p, start)
  }

  ghost predicate AtLeast(p: nat, start: nat) {
    start <= p
  }

  /** How many pages a chunk operation really touches: a request of at most 8 pages that
      straddles a group boundary loses the part beyond the boundary. */
  function Effective(start: nat, count: nat): (n: nat) {
    if count > 8 || start % 8 + count <= 8 then count else 8 - start % 8
  }

  /** A chunk operation does what a loop over its pages would exactly when it has more than 8 pages or stays in
      one group; otherwise it does it for a proper beginning of the range. */
  lemma ChunkIsWhole(start: nat, count: nat)
    ensures Pages(start, Effective(start, count)) <= Pages(start, count)
    ensures Pages(start, Effective(start, count)) == Pages(start, count) <==> count > 8 || start % 8 + count <= 8
  {
    if !(count > 8 || start % 8 + count <= 8) {
      var p := start + Effective(start, count);
      assert p in Pages(start, count) && p !in Pages(start, Effective(start, count));
    }
  }

  /** Pages 6 to 9: the operation stops after page 7. */
  lemma ChunkTailLostExample()
    ensures 8 in Pages(6, 4) && 8 !in Pages(6, Effective(6, 4)) && Pages(6, Effective(6, 4)) == Pages(6, 2)
  {
  }

  /** A chunk operation stays inside the bitmap. The group after the last full one is always
      read and written back, even when no bit of it changes. */
  predicate InBounds(start: nat, count: nat) {
    var groups := (count + start % 8) / 8;
    start + count < 0x1_0000_0000 &&
    start / 8 + (if groups == 0 then 1 else groups) < PM_BMP_MAX_SIZE
  }

  /** Every range that ends below the last group of the bitmap is in bounds. */
  lemma BoundsMean(start: nat, count: nat)
    ensures start + count < 8 * (PM_BMP_MAX_SIZE - 1) ==> InBounds(start, count)
    ensures start + count >= 8 * (PM_BMP_MAX_SIZE + 1) ==> !InBounds(start, count)
  {
  }

  /** The numbers of MARK_CHUNK_AUX_VAR: where the groups are, and how many pages they add up to. */
  lemma ChunkArithmetic(start: nat, count: nat)
    requires InBounds(start, count)
    ensures var g, offset := start / 8, start % 8;
      var groups, rest := (count + offset) / 8, (count + offset) % 8;
      var lead := if count + offset < 8 then count else 8 - offset;
      g + (if groups == 0 then 1 else groups) < PM_BMP_MAX_SIZE && start == 8 * g + offset && offset < 8 &&
      count + offset == 8 * groups + rest && rest < 8 && lead + offset <= 8 &&
      lead + (if groups == 0 then 0 else 8 * (groups - 1)) + (if count > 8 then rest else 0) == Effective(start, count)
  {
  }

  lemma PagesSplit(free: set<nat>, start: nat, a: nat, b: nat)
    ensures free + Pages(start, a) + Pages(start + a, b) == free + Pages(start, a + b)
    ensures free - Pages(start, a) - Pages(start + a, b) == free - Pages(start, a + b)
  {
  }

  lemma NoPages(start: nat)
    ensures Pages(start, 0) == {}
  {
  }

  /** Changing the bits of one group changes the free set by those bits only. */
  lemma GroupWrite(bm: seq<bv8>, g: nat, b: bv8, lo: nat, hi: nat, occupied: bool)
    requires g < |bm| && lo <= hi <= 8
    requires forall i: nat | i < 8 :: Bit(b, i) == if lo <= i < hi then occupied else Bit(bm[g], i)
    ensures FreeSet(bm[g := b]) ==
            if occupied then FreeSet(bm) - Pages(8 * g + lo, hi - lo) else FreeSet(bm) + Pages(8 * g + lo, hi - lo)
  {
    var bm' := bm[g := b];
    forall p: nat
      ensures p in FreeSet(bm') <==>
              p in if occupied then FreeSet(bm) - Pages(8 * g + lo, hi - lo)
                   else FreeSet(bm) + Pages(8 * g + lo, hi - lo)
    {
      if p < 8 * |bm| {
        assert p == 8 * (p / 8) + p % 8;
        if p / 8 == g {
          assert Bit(b, p % 8) == if lo <= p % 8 < hi then occupied else Bit(bm[g], p % 8);
        }
      }
    }
  }

  lemma FullGroup(bm: seq<bv8>, g: nat)
    requires g < |bm| && bm[g] == 0xFF
    ensures forall p | p in FreeSet(bm) :: p / 8 != g
  {
    UniformBits();
  }

  lemma OpenGroup(bm: seq<bv8>, g: nat) returns (p: nat)
    requires g < |bm| && bm[g] != 0xFF
    ensures p in FreeSet(bm) && p / 8 == g
  {
    var i := NotFull(bm[g]);
    p := 8 * g + i;
  }

  class Bitmap {
    const bits: array<bv8>
    var maxPg: nat
    var lookup: nat
    /** The pages marked free. */
    ghost var free: set<nat>

    ghost predicate Valid()
      reads this, bits
    {
      bits.Length == PM_BMP_MAX_SIZE && maxPg <= 8 * PM_BMP_MAX_SIZE && LOOKUP_START <= lookup &&
      free == FreeSet(bits[..])
    }

    /** What the next search depends on. */
    ghost function State(): Pool
      reads this`free, this`lookup, this`maxPg
    {
      Pool(free, lookup, maxPg)
    }

    /** The static array of pmm.c, and pmm_init. */
    constructor (memUpperLim: Word)
      ensures Valid() && fresh(bits)
      ensures maxPg == memUpperLim / 4096 && lookup == LOOKUP_START && free == {}
    {
      bits := new bv8[PM_BMP_MAX_SIZE];
      new;
      maxPg := PgAlign(memUpperLim) / 4096;
      lookup := LOOKUP_START;
      for i := 0 to PM_BMP_MAX_SIZE
        modifies bits
        invariant maxPg == memUpperLim / 4096 && lookup == LOOKUP_START && bits.Length == PM_BMP_MAX_SIZE
        invariant forall j | 0 <= j < i :: bits[j] == 0xFF
      {
        bits[i] := 0xFF;
      }
      UniformBits();
      free := FreeSet(bits[..]);
    }

    /** `pm_bitmap[group] &= ~mask` for the mask of the n bits from bit lo on. */
    method ClearBits(group: nat, lo: nat, n: nat)
      requires Valid() && group < PM_BMP_MAX_SIZE && lo + n <= 8
      modifies this`free, bits
      ensures Valid()
      ensures free == old(free) + Pages(8 * group + lo, n)
    {
      ghost var before := bits[..];
      OnesBits(n, 8 - lo - n);
      var mask := Ones(n, 8 - lo - n) as bv8;
      MaskedBits(bits[group], mask);
      bits[group] := bits[group] & !mask;
      assert bits[..] == before[group := bits[group]];
      GroupWrite(before, group, bits[group], lo, lo + n, false);
      free := FreeSet(bits[..]);
    }

    /** `pm_bitmap[group] |= mask` for the mask of the n bits from bit lo on. */
    method SetBits(group: nat, lo: nat, n: nat)
      requires Valid() && group < PM_BMP_MAX_SIZE && lo + n <= 8
      modifies this`free, bits
      ensures Valid()
      ensures free == old(free) - Pages(8 * group + lo, n)
    {
      ghost var before := bits[..];
      OnesBits(n, 8 - lo - n);
      var mask := Ones(n, 8 - lo - n) as bv8;
      MaskedBits(bits[group], mask);
      bits[group] := bits[group] | mask;
      assert bits[..] == before[group := bits[group]];
      GroupWrite(before, group, bits[group], lo, lo + n, true);
      free := FreeSet(bits[..]);
    }

    /** A whole group at once. */
    method FillGroup(group: nat, b: bv8)
      requires Valid() && group < PM_BMP_MAX_SIZE && (b == 0 || b == 0xFF)
      modifies this`free, bits
      ensures Valid()
      ensures free == if b == 0 then old(free) + Pages(8 * group, 8) else old(free) - Pages(8 * group, 8)
    {
      ghost var before := bits[..];
      UniformBits();
      bits[group] := b;
      assert bits[..] == before[group := b];
      GroupWrite(before, group, b, 0, 8, b == 0xFF);
      free := FreeSet(bits[..]);
    }

    method MarkPageFree(ppn: nat)
      requires Valid() && ppn < 8 * PM_BMP_MAX_SIZE
      modifies this`free, bits
      ensures Valid()
      ensures free == old(free) + {ppn}
    {
      var group, bit := ppn / 8, ppn % 8;
      assert Pages(8 * group + bit, 1) == {ppn};
      ClearBits(group, bit, 1);
    }

    method MarkPageOccupied(ppn: nat)
      requires Valid() && ppn < 8 * PM_BMP_MAX_SIZE
      modifies this`free, bits
      ensures Valid()
      ensures free == old(free) - {ppn}
    {
      var group, bit := ppn / 8, ppn % 8;
      assert Pages(8 * group + bit, 1) == {ppn};
      SetBits(group, bit, 1);
    }

    /** pmm_mark_chunk_free: the bit tricks add exactly the effective pages to the free set. */
    method MarkChunkFree(startPpn: nat, pageCount: nat)
      requires Valid() && InBounds(startPpn, pageCount)
      modifies this`free, bits
      ensures Valid()
      ensures free == old(free) + Pages(startPpn, Effective(startPpn, pageCount))
    {
      hide FreeSet, Pages, Effective, InBounds;
      ChunkArithmetic(startPpn, pageCount);
      var group, offset := startPpn / 8, startPpn % 8;
      var groupCount, remainder := (pageCount + offset) / 8, (pageCount + offset) % 8;
      var leadingShifts := if pageCount + offset < 8 then pageCount else 8 - offset;

      ClearBits(group, offset, leadingShifts);
      ghost var done := leadingShifts;
      group := group + 1;

      var i := 0;
      while groupCount != 0 && i < groupCount - 1
        invariant 0 <= i && (i == 0 || i <= groupCount - 1)
        invariant group == startPpn / 8 + 1 + i
        invariant done == leadingShifts + 8 * i && (groupCount != 0 ==> startPpn + done == 8 * group)
        invariant Valid() && free == old(free) + Pages(startPpn, done)
      {
        FillGroup(group, 0);
        PagesSplit(old(free), startPpn, done, 8);
        done := done + 8;
        i, group := i + 1, group + 1;
      }

      var tailBits := if pageCount > 8 then remainder else 0;
      ClearBits(group, 0, tailBits);
      PagesSplit(old(free), startPpn, done, tailBits);
      NoPages(8 * group);
    }

    /** pmm_mark_chunk_occupied: likewise, with the bits set. */
    method MarkChunkOccupied(startPpn: nat, pageCount: nat)
      requires Valid() && InBounds(startPpn, pageCount)
      modifies this`free, bits
      ensures Valid()
      ensures free == old(free) - Pages(startPpn, Effective(startPpn, pageCount))
    {
      hide FreeSet, Pages, Effective, InBounds;
      ChunkArithmetic(startPpn, pageCount);
      var group, offset := startPpn / 8, startPpn % 8;
      var groupCount, remainder := (pageCount + offset) / 8, (pageCount + offset) % 8;
      var leadingShifts := if pageCount + offset < 8 then pageCount else 8 - offset;

      SetBits(group, offset, leadingShifts);
      ghost var done := leadingShifts;
      group := group + 1;

      var i := 0;
      while groupCount != 0 && i < groupCount - 1
        invariant 0 <= i && (i == 0 || i <= groupCount - 1)
        invariant group == startPpn / 8 + 1 + i
        invariant done == leadingShifts + 8 * i && (groupCount != 0 ==> startPpn + done == 8 * group)
        invariant Valid() && free == old(free) - Pages(startPpn, done)
      {
        FillGroup(group, 0xFF);
        PagesSplit(old(free), startPpn, done, 8);
        done := done + 8;
        i, group := i + 1, group + 1;
      }

      var tailBits := if pageCount > 8 then remainder else 0;
      SetBits(group, 0, tailBits);
      PagesSplit(old(free), startPpn, done, tailBits);
      NoPages(8 * group);
    }

    /** pmm_free_page: page 0 and pages from max_pg on are refused. */
    method FreePage(page: Word) returns (ok: bool)
      requires Valid()
      modifies this`free, bits
      ensures Valid()
      ensures ok <==> 0 < page / 4096 < maxPg
      ensures free == if ok then old(free) + {page / 4096} else old(free)
    {
      var pg := page / 4096;
      if pg != 0 && pg < maxPg {
        MarkPageFree(pg);
        return true;
      }
      return false;
    }

    /** The inner loop of pmm_alloc_page: from the cursor to the end of its group. */
    method ScanGroup() returns (found: Word)
      requires Valid() && lookup < maxPg
      modifies this`lookup, this`free, bits
      ensures Valid()
      ensures found == 0 ==> free == old(free) && lookup == 8 * (old(lookup) / 8) + 8
      ensures found != 0 ==>
        found == lookup * 4096 && old(lookup) <= lookup < 8 * (old(lookup) / 8) + 8 &&
        lookup in old(free) && free == old(free) - {lookup}
      ensures forall p | p in old(free) && old(lookup) <= p :: lookup <= p
    {
      ghost var entry := lookup;
      var chunk := bits[lookup / 8];
      var i := lookup % 8;
      while i < 8
        invariant i <= 8 && lookup == 8 * (entry / 8) + i && entry % 8 <= i
        invariant Valid() && free == old(free) && chunk == bits[entry / 8]
        invariant forall j | entry % 8 <= j < i :: Bit(chunk, j)
        invariant forall p | p in old(free) && entry <= p :: lookup <= p
      {
        if !Bit(chunk, i) {
          MarkPageOccupied(lookup);
          return lookup * 4096;
        }
        i, lookup := i + 1, lookup + 1;
      }
      return 0;
    }

    /** pmm_alloc_page: next fit with a wrapping cursor. It fails exactly when the search sees nothing. */
    method AllocPage() returns (page: Word)
      requires Valid()
      modifies this`lookup, this`free, bits
      ensures Valid()
      ensures State() == After(old(State()))
      ensures page == match Take(old(State())) case None => 0 case Some(p) => 4096 * p
      ensures page == 0 <==> Take(old(State())) == None
      ensures page == 0 ==> free == old(free)
      ensures page != 0 ==>
        page == lookup * 4096 && lookup in old(free) && free == old(free) - {lookup} && 1 <= lookup < maxPg + 7
    {
      hide FreeSet, Passed, SomeSeen, Seen, FirstSeen, Stranded, EndOfPass, NothingFound, NextFit, After, Take;
      page := 0;
      var oldPgPtr, upperLim := lookup, maxPg;
      ghost var was, entry, wrapped := free, lookup, false;
      PassStart(was, lookup, maxPg);
      while page == 0 && lookup < upperLim
        invariant Valid() && upperLim <= maxPg
        invariant if wrapped then oldPgPtr == LOOKUP_START && upperLim == entry
                  else oldPgPtr == entry && upperLim == maxPg
        invariant wrapped ==>
          entry != LOOKUP_START && entry < maxPg && !SomeSeen(was, entry, maxPg) && !Stranded(was, entry, maxPg)
        invariant page == 0 ==> free == was && Passed(was, oldPgPtr, upperLim, lookup)
        invariant page == 0 && !wrapped && entry != LOOKUP_START && entry < maxPg <= lookup ==>
          Stranded(was, entry, maxPg)
        invariant page != 0 ==>
          page == lookup * 4096 && lookup in was && free == was - {lookup} && lookup < maxPg + 7 &&
          FirstSeen(was, oldPgPtr, upperLim, lookup)
        decreases !wrapped, page == 0, upperLim - lookup
      {
        ghost var cursor := lookup;
        var chunk := bits[lookup / 8];
        if chunk != 0xFF {
          ghost var open := OpenGroup(bits[..], lookup / 8);
          page := ScanGroup();
          if page == 0 {
            PassOpen(was, oldPgPtr, upperLim, cursor, open);
          } else {
            PassFound(was, oldPgPtr, upperLim, cursor, lookup);
          }
        } else {
          FullGroup(bits[..], lookup / 8);
          PassFull(was, oldPgPtr, upperLim, lookup);
          lookup := lookup + 8;
          if lookup >= upperLim && oldPgPtr != LOOKUP_START {
            PassEnd(was, oldPgPtr, upperLim, lookup);
            upperLim := oldPgPtr;
            lookup := LOOKUP_START;
            oldPgPtr := LOOKUP_START;
            wrapped := true;
            PassStart(was, lookup, upperLim);
          }
        }
      }
      SearchEnds(Pool(was, entry, maxPg), oldPgPtr, upperLim, wrapped, page != 0, lookup);
    }
  }
}
