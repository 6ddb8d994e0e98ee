/** Laws of whole runs of lxmalloc and lxfree, on the layouts that the methods of the heap step through. */
module HeapRuns {
  import opened Words
  import opened HeapLayout

  /** A request for n words, header included, with what lxbrk would answer; or the release of block i. */
  datatype Request = Malloc(n: nat, breakMoves: bool) | Free(i: nat)

  /** The first block from position i on that can take n words, or the end. */
  function FirstFitFrom(blocks: seq<Block>, n: nat, i: nat): (k: nat)
    requires i <= |blocks|
    ensures i <= k <= |blocks|
    ensures k < |blocks| ==> Fits(blocks[k], n)
    ensures forall j | i <= j < k :: !Fits(blocks[j], n)
    decreases |blocks| - i
  {
    if i == |blocks| || Fits(blocks[i], n) then i else FirstFitFrom(blocks, n, i + 1)
  }

  /** A request no caller makes, a payload that is not live: the layout stays. */
  function Step(blocks: seq<Block>, r: Request): seq<Block> {
    match r
    case Malloc(n, breakMoves) =>
      var i := FirstFitFrom(blocks, n, 0);
      if n < 2 then blocks
      else if i < |blocks| then Place(blocks, i, n)
      else if !breakMoves || !Shaped(blocks) then blocks
      else
        GrownBlock(blocks, n);
        Place(Grow(blocks, n), |Front(blocks)|, n)
    case Free(i) =>
      if 1 <= i < |blocks| && !blocks[i].free then Release(blocks, i) else blocks
  }

  /** lxmalloc when block i is the first free one with n words: the block becomes an allocated one of exactly n words,
      and what is left of it a free one behind. Without growth nothing else can happen. */
  lemma MallocMeans(blocks: seq<Block>, n: nat, i: nat, breakMoves: bool)
    requires 2 <= n && i < |blocks| && blocks[i].free && n <= blocks[i].len
    requires forall j | 0 <= j < i :: blocks[j].free ==> blocks[j].len < n
    ensures Step(blocks, Malloc(n, breakMoves)) ==
      blocks[..i] + [Block(n, false)] + (if blocks[i].len > n then [Block(blocks[i].len - n, true)] else []) +
      blocks[i + 1..]
  {
    assert FirstFitFrom(blocks, n, 0) == i;
    hide FirstFitFrom, Place;
    PlaceMeans(blocks, i, n);
  }

  lemma PlaceMeans(blocks: seq<Block>, i: nat, n: nat)
    requires i < |blocks| && n <= blocks[i].len
    ensures Place(blocks, i, n) ==
      blocks[..i] + [Block(n, false)] + (if blocks[i].len > n then [Block(blocks[i].len - n, true)] else []) +
      blocks[i + 1..]
  {
    Joined(blocks[..i], [Block(n, false)], if blocks[i].len > n then [Block(blocks[i].len - n, true)] else [],
      blocks[i + 1..]);
  }

  lemma Joined(a: seq<Block>, b: seq<Block>, c: seq<Block>, d: seq<Block>)
    ensures a + (b + (c + d)) == a + b + c + d && [] + d == d
  {
  }

  /** lxmalloc when no block is large enough: refused unless the break moves; else n words are added at the end, to the
      last block if that is free, and the first n words there become the new block. */
  lemma GrowthMeans(blocks: seq<Block>, n: nat, breakMoves: bool)
    requires WellFormed(blocks) && 2 <= n && forall b | b in blocks && b.free :: b.len < n
    ensures !breakMoves ==> Step(blocks, Malloc(n, breakMoves)) == blocks
    ensures breakMoves ==> var m := |blocks| - 1;
      Step(blocks, Malloc(n, breakMoves)) ==
        if blocks[m].free then blocks[..m] + [Block(n, false), Block(blocks[m].len, true)]
        else blocks + [Block(n, false)]
  {
    assert FirstFitFrom(blocks, n, 0) == |blocks|;
    hide FirstFitFrom, Place, Grow;
    GrownBlock(blocks, n);
    PlaceOnGrownMeans(blocks, n);
  }

  lemma PlaceOnGrownMeans(blocks: seq<Block>, n: nat)
    requires WellFormed(blocks)
    ensures var f, m := |Front(blocks)|, |blocks| - 1;
      f < |Grow(blocks, n)| && n <= Grow(blocks, n)[f].len &&
      Place(Grow(blocks, n), f, n) ==
        if blocks[m].free then blocks[..m] + [Block(n, false), Block(blocks[m].len, true)]
        else blocks + [Block(n, false)]
  {
    var f, m := Front(blocks), |blocks| - 1;
    NoEmptyBlock(false, blocks, m);
    GrownBlock(blocks, n);
    assert Grow(blocks, n) == f + [Block(FrontFree(blocks) + n, true)];
    PlaceMeans(Grow(blocks, n), |f|, n);
    hide Place, Grow, Separated;
    assert (f + [Block(FrontFree(blocks) + n, true)])[..|f|] == f;
  }

  lemma {:induction false} NoEmptyBlock(pf: bool, blocks: seq<Block>, i: nat)
    requires Separated(pf, blocks) && i < |blocks|
    ensures blocks[i].len >= 1
    decreases |blocks|
  {
    if i > 0 {
      NoEmptyBlock(blocks[0].free, blocks[1..], i - 1);
    }
  }

  /** lxfree of block i: with its free neighbours, on either side, it becomes one free block. */
  lemma FreeMeans(blocks: seq<Block>, i: nat)
    requires 1 <= i < |blocks| && !blocks[i].free
    ensures var before, behind := blocks[i - 1].free, i + 1 < |blocks| && blocks[i + 1].free;
      var len := (if before then blocks[i - 1].len else 0) + blocks[i].len +
                 (if behind then blocks[i + 1].len else 0);
      Step(blocks, Free(i)) ==
        blocks[..if before then i - 1 else i] + [Block(len, true)] + blocks[if behind then i + 2 else i + 1..]
  {
    hide Release;
    ReleaseMeans(blocks, i);
  }

  lemma ReleaseMeans(blocks: seq<Block>, i: nat)
    requires 1 <= i < |blocks|
    ensures var before, behind := blocks[i - 1].free, i + 1 < |blocks| && blocks[i + 1].free;
      var len := (if before then blocks[i - 1].len else 0) + blocks[i].len +
                 (if behind then blocks[i + 1].len else 0);
      Release(blocks, i) ==
        blocks[..if before then i - 1 else i] + [Block(len, true)] + blocks[if behind then i + 2 else i + 1..]
  {
    SidesMean(blocks, i);
    hide Front, Rear, FrontFree, RearFree;
    Joined(Front(blocks[..i]), [Block(MergedLen(blocks[..i], blocks[i].len, blocks[i + 1..]), true)], [],
      Rear(blocks[i + 1..]));
  }

  lemma SidesMean(blocks: seq<Block>, i: nat)
    requires 1 <= i < |blocks|
    ensures var before, behind := blocks[i - 1].free, i + 1 < |blocks| && blocks[i + 1].free;
      Front(blocks[..i]) == blocks[..if before then i - 1 else i] &&
      Rear(blocks[i + 1..]) == blocks[if behind then i + 2 else i + 1..] &&
      FrontFree(blocks[..i]) == (if before then blocks[i - 1].len else 0) &&
      RearFree(blocks[i + 1..]) == (if behind then blocks[i + 1].len else 0)
  {
    assert blocks[i + 1..] != [] ==> blocks[i + 1..][0] == blocks[i + 1];
    assert blocks[..i][..i - 1] == blocks[..i - 1];
  }

  function Run(blocks: seq<Block>, requests: seq<Request>): seq<Block> {
    if requests == [] then blocks else Step(Run(blocks, requests[..|requests| - 1]), requests[|requests| - 1])
  }

  lemma StepWellFormed(blocks: seq<Block>, r: Request)
    requires WellFormed(blocks)
    ensures WellFormed(Step(blocks, r))
    ensures Total(blocks) <= Total(Step(blocks, r))
    ensures r.Free? ==> Total(Step(blocks, r)) == Total(blocks)
  {
    hide Total, Separated, Around;
    match r {
      case Malloc(n, breakMoves) =>
        var i := FirstFitFrom(blocks, n, 0);
        if n >= 2 && i < |blocks| {
          AroundIndex(blocks, i);
          PlaceWellFormed(blocks[..i], blocks[i], blocks[i + 1..], n);
        } else if n >= 2 && breakMoves {
          GrownBlock(blocks, n);
          GrowWellFormed(blocks, n);
          PlaceWellFormed(Front(blocks), Block(FrontFree(blocks) + n, true), [], n);
        }
      case Free(i) =>
        if 1 <= i < |blocks| && !blocks[i].free {
          AroundIndex(blocks, i);
          ReleaseWellFormed(blocks[..i], blocks[i], blocks[i + 1..]);
        }
    }
  }

  /** From any well-formed heap, every run keeps the shape: prologue first, no empty block, no two adjacent free
      blocks, room in every allocated block. No word is ever lost. */
  lemma {:induction false} RunWellFormed(blocks: seq<Block>, requests: seq<Request>)
    requires WellFormed(blocks)
    ensures WellFormed(Run(blocks, requests)) && Total(blocks) <= Total(Run(blocks, requests))
  {
    if requests != [] {
      RunWellFormed(blocks, requests[..|requests| - 1]);
      StepWellFormed(Run(blocks, requests[..|requests| - 1]), requests[|requests| - 1]);
    }
  }

  ghost predicate AllReleased(blocks: seq<Block>) {
    forall i | 1 <= i < |blocks| :: blocks[i].free
  }

  /** A heap without live blocks is prologue and one free block, whatever happened before. */
  lemma DrainedLayout(blocks: seq<Block>)
    requires WellFormed(blocks) && AllReleased(blocks) && Total(blocks) > 1
    ensures blocks == [Block(1, false), Block(Total(blocks) - 1, true)]
  {
    OneBlock(blocks);
    if |blocks| > 2 {
      NoFreeNeighbours(false, blocks, 1);
      assert false;
    }
    assert blocks == [blocks[0]] + [blocks[1]];
    TotalSplit([blocks[0]], [blocks[1]]);
    OneBlock([blocks[0]]);
    OneBlock([blocks[1]]);
  }

  lemma OneBlock(blocks: seq<Block>)
    ensures |blocks| == 1 ==> Total(blocks) == blocks[0].len
  {
  }

  lemma {:induction false} NoFreeNeighbours(pf: bool, blocks: seq<Block>, i: nat)
    requires Separated(pf, blocks) && i + 1 < |blocks|
    ensures !(blocks[i].free && blocks[i + 1].free)
    decreases |blocks|
  {
    if i > 0 {
      NoFreeNeighbours(blocks[0].free, blocks[1..], i - 1);
    } else {
      assert Separated(blocks[0].free, blocks[1..]);
    }
  }

  /** Free space is conserved, and the order of the releases does not matter: any two runs that end without live
      blocks and with the same break end in the same layout. */
  lemma DrainedRunsAgree(start: seq<Block>, r1: seq<Request>, r2: seq<Request>)
    requires WellFormed(start) && Total(start) > 1
    requires AllReleased(Run(start, r1)) && AllReleased(Run(start, r2)) &&
      Total(Run(start, r1)) == Total(Run(start, r2))
    ensures var total := Total(Run(start, r1));
      Total(start) <= total && Run(start, r1) == Run(start, r2) == [Block(1, false), Block(total - 1, true)]
  {
    hide Run, Step, Total, Separated, Shaped, AllReleased;
    RunWellFormed(start, r1);
    RunWellFormed(start, r2);
    DrainedLayout(Run(start, r1));
    DrainedLayout(Run(start, r2));
  }

  /** Releasing what was just placed restores the layout, when the heap did not grow. */
  lemma ReleaseUndoesPlace(blocks: seq<Block>, i: nat, n: nat)
    requires WellFormed(blocks) && i < |blocks| && Fits(blocks[i], n) && 2 <= n
    ensures i < |Place(blocks, i, n)| && Release(Place(blocks, i, n), i) == blocks
  {
    var a, b, r := blocks[..i], blocks[i], blocks[i + 1..];
    AroundIndex(blocks, i);
    assert a != [];
    SeparatedSplit(false, a, [b] + r);
    SeparatedSplit(EndsFree(false, a), [b], r);
    SingleBlock([], 0, EndsFree(false, a), b);
    SeparatedWeaken(r);
    PlaceAround(a, b, r, n);
    var rest := if n < b.len then [Block(b.len - n, true)] + r else r;
    AroundParts(a, Block(n, false), rest);
    assert Release(Place(blocks, i, n), i) == Merge(a, n, rest);
    if n < b.len {
      assert Rear(rest) == r;
    }
  }

  /** lxfree of the pointer that lxmalloc has just returned restores the block list, when the heap did not grow: the
      slot determines the block that is released. */
  lemma FreeUndoesMalloc(before: seq<Block>, placed: seq<Block>, after: seq<Block>, n: nat, slot: nat, j: nat)
    requires WellFormed(before) && 2 <= n && PlacedFirstFit(before, placed, n, slot)
    requires IsBlockAt(placed, j, slot) && after == Release(placed, j)
    ensures after == before
  {
    var i: nat :| FirstFit(before, n, i) && placed == Place(before, i, n) && slot == Total(before[..i]) + 1;
    var a, b, r := before[..i], before[i], before[i + 1..];
    AroundIndex(before, i);
    PlaceWellFormed(a, b, r, n);
    PlaceAround(a, b, r, n);
    AroundParts(a, Block(n, false), if n < b.len then [Block(b.len - n, true)] + r else r);
    assert IsBlockAt(placed, i, slot);
    SlotDeterminesBlock(placed, i, j, slot);
    ReleaseUndoesPlace(before, i, n);
  }

  /** No live payload means that every block is released. */
  lemma {:induction false} NoPayloadNoBlock(h: seq<Word>, at: nat, blocks: seq<Block>)
    requires at + Total(blocks) <= |h| && Payloads(h, at, blocks) == map[]
    ensures forall i | 0 <= i < |blocks| :: blocks[i].free || blocks[i].len < 2
    decreases |blocks|
  {
    if blocks != [] {
      if !blocks[0].free && blocks[0].len >= 2 {
        HeadPayload(h, at, blocks);
        assert false;
      } else {
        NoPayloadNoBlock(h, at + blocks[0].len, blocks[1..]);
        assert forall i | 1 <= i < |blocks| :: blocks[i] == blocks[1..][i - 1];
      }
    }
  }

  lemma HeadPayload(h: seq<Word>, at: nat, blocks: seq<Block>)
    requires at + Total(blocks) <= |h| && blocks != [] && !blocks[0].free && blocks[0].len >= 2
    ensures at + 1 in Payloads(h, at, blocks)
  {
  }

  /** On words: a heap whose payload map is empty is prologue, one free block and epilogue. */
  lemma DrainedHeap(h: seq<Word>, blocks: seq<Block>)
    requires WellFormed(blocks) && 2 < |h| == Total(blocks) + 1 && Live(h, blocks) == map[]
    ensures blocks == [Block(1, false), Block(|h| - 2, true)]
  {
    NoPayloadNoBlock(h, 0, blocks);
    DrainedLayout(blocks);
  }

  // ---------------------------------------------------------------- the heap steps through these layouts

  /** The outcomes of lxmalloc, first fit, growth or refusal, are the step for a request of which lxbrk says whether
      the break moves. */
  lemma MallocIsStep(before: seq<Block>, after: seq<Block>, n: nat, slot: nat, breakMoves: bool)
    requires WellFormed(before) && 2 <= n
    requires if AnyFit(before, n) then PlacedFirstFit(before, after, n, slot)
             else if breakMoves then PlacedByGrowth(before, after, n, slot) else after == before
    ensures after == Step(before, Malloc(n, breakMoves))
  {
    var k := FirstFitFrom(before, n, 0);
    if AnyFit(before, n) {
      var i: nat :| FirstFit(before, n, i) && after == Place(before, i, n) && slot == Total(before[..i]) + 1;
      assert i == k;
    }
  }

  /** Releasing the block of a live payload is the step for that block, and there is only one. */
  lemma FreeIsStep(h: seq<Word>, before: seq<Block>, after: seq<Block>, i: nat, slot: nat)
    requires WellFormed(before) && Total(before) <= |h| && slot in Live(h, before)
    requires IsBlockAt(before, i, slot) && after == Release(before, i)
    ensures after == Step(before, Free(i)) && forall j | IsBlockAt(before, j, slot) :: j == i
  {
    var k := SlotBlock(h, 0, before, slot);
    SlotDeterminesBlock(before, i, k, slot);
    forall j | IsBlockAt(before, j, slot)
      ensures j == i
    {
      SlotDeterminesBlock(before, i, j, slot);
    }
  }

  lemma RunOneMore(blocks: seq<Block>, requests: seq<Request>, r: Request)
    ensures Run(blocks, requests + [r]) == Step(Run(blocks, requests), r)
  {
    assert (requests + [r])[..|requests|] == requests;
  }
}
