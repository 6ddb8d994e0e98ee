/** kernel/mm/kalloc.c: the kernel heap. Its words live in virtual memory, behind the page tables. */
module KernelHeap {
  import opened Words
  import opened Paging
  import opened PhysicalPages
  import opened PageSearch
  import opened Backing
  import opened VirtualMemory
  import opened HeapBreak
  import opened HeapLayout
  import opened HeapRuns

  const WSIZE: nat := 4
  const HEAP_INIT_SIZE: Word := 4096

  /** How many pages the break enters when the heap grows by n words: those past that of the old break, up to that of
      the end of the new epilogue. */
  function NewPages(brk: Word, n: nat): nat {
    (brk + 4 * n + WSIZE) / 4096 - brk / 4096
  }

  /** What lxbrk makes of the account when the heap grows by n words: nothing past the end of the address range; the
      new pages backed; or the failure of vmm_alloc_pages. */
  ghost function Spent(a: Account, brk: Word, n: nat, maxAddr: Word): Account {
    var v, k := brk / 4096 + 1, NewPages(brk, n);
    if brk + 4 * n + WSIZE >= maxAddr then a
    else if CanBackAll(a, v, k) then WithPages(a, v, k) else AfterFailure(a, v, k)
  }

  /** Exactly when kalloc_init succeeds: one page can be backed for prologue and epilogue, and the break can then move
      by HEAP_INIT_SIZE. */
  ghost predicate HeapComesUp(a: Account, start: Word, maxAddr: Word)
    requires start + WSIZE < 0x1_0000_0000
  {
    CanBack(a, start / 4096) &&
    BreakMoves(WithPage(a, start / 4096), start + WSIZE, HEAP_INIT_SIZE + WSIZE, maxAddr)
  }

  class Heap {
    const ctx: HeapContext
    /** The words of the heap as virtual memory holds them, epilogue included. */
    ghost var words: seq<Word>
    /** The block list that the words encode. */
    ghost var blocks: seq<Block>

    /** Every word up to the end of the epilogue is backed. */
    ghost predicate Mem()
      reads this`words, ctx, ctx.vmm, ctx.vmm.pmm, ctx.vmm.pmm.bits
    {
      ctx.Valid() && ctx.brk + WSIZE < ctx.maxAddr && ctx.Covered(ctx.brk + WSIZE) &&
      ctx.start + 4 * |words| == ctx.brk + WSIZE && words == ctx.Words(|words|)
    }

    ghost predicate Valid()
      reads this, ctx, ctx.vmm, ctx.vmm.pmm, ctx.vmm.pmm.bits
    {
      Mem() && WellFormed(blocks) && Total(blocks) + 1 == |words| && Encodes(words, 0, false, blocks)
    }

    /** What the owners of live payloads see, keyed by payload slot. */
    ghost function Contents(): map<nat, seq<Word>>
      requires Total(blocks) <= |words|
      reads this
    {
      Live(words, blocks)
    }

    /** The address of word k. */
    ghost function At(k: nat): int {
      ctx.start + 4 * k
    }

    lemma AddressesFit()
      requires Mem()
      ensures 0 < ctx.start && At(|words|) == ctx.brk + WSIZE <= 0xFFBF_0000 && 4 * |words| < 0x1_0000_0000 &&
        ctx.start % 4 == 0
    {
      StartIsAligned(ctx.start);
    }

    lemma StartIsPage()
      requires Mem()
      ensures ctx.start % 4096 == 0
    {
    }

    constructor (ctx: HeapContext)
      ensures this.ctx == ctx
    {
      this.ctx := ctx;
      words, blocks := [], [];
    }

    // -------------------------------------------------------------- LW and SW

    method LW(p: Word, ghost k: nat) returns (w: Word)
      requires Mem() && p == At(k) && k < |words|
      ensures w == words[k]
    {
      hide Heap.Mem;
      WordIsBacked(k);
      w := ctx.vmm.LW(p);
    }

    /** Each word of the heap is where the page tables say. */
    lemma WordIsBacked(k: nat)
      requires Mem() && k < |words|
      ensures ctx.vmm.Valid() && 0 <= At(k) < 0x1_0000_0000 && ctx.vmm.Backed(At(k))
      ensures WordAt(ctx.vmm.ram, ctx.vmm.pd, At(k)) == words[k]
    {
      hide Owned, Mappings, WordAt, Bitmap.Valid;
      WordAddress(ctx.start, k, ctx.brk + WSIZE);
    }

    method SW(p: Word, w: Word, ghost k: nat)
      requires Mem() && p == At(k) && k < |words|
      modifies this`words, ctx.vmm`ram
      ensures Mem() && words == old(words)[k := w] && ctx.vmm.View() == old(ctx.vmm.View())
      ensures ctx.vmm.ram[ctx.vmm.pd] == old(ctx.vmm.ram)[ctx.vmm.pd]
      ensures Undisturbed(old(ctx.vmm.ram), ctx.vmm.ram, ctx.vmm.pd, ctx.vmm.managed, ctx.start, ctx.brk + WSIZE)
    {
      hide Owned, Mappings, WordAt, Bitmap.Valid;
      WordAddress(ctx.start, k, ctx.brk + WSIZE);
      ctx.vmm.SW(p, w);
      forall j: nat | j < |words| && j != k
        ensures WordAt(ctx.vmm.ram, ctx.vmm.pd, ctx.start + 4 * j) ==
                WordAt(old(ctx.vmm.ram), ctx.vmm.pd, ctx.start + 4 * j)
      {
        WordAddress(ctx.start, j, ctx.brk + WSIZE);
      }
      WordsAfterStore(old(ctx.vmm.ram), ctx.vmm.ram, ctx.vmm.pd, ctx.start, |words|, k, w);
      words := words[k := w];
    }

    // -------------------------------------------------------------- coalesce

    /** Header and footer of a free block. */
    method Stamp(head: Word, foot: Word, w: Word, ghost s: nat, ghost e: nat)
      requires Mem() && head == At(s) && foot == At(e) && s <= e < |words|
      modifies this`words, ctx.vmm`ram
      ensures Mem() && ctx.vmm.View() == old(ctx.vmm.View())
      ensures ctx.vmm.ram[ctx.vmm.pd] == old(ctx.vmm.ram)[ctx.vmm.pd]
      ensures Undisturbed(old(ctx.vmm.ram), ctx.vmm.ram, ctx.vmm.pd, ctx.vmm.managed, ctx.start, ctx.brk + WSIZE)
      ensures words == old(words)[s := w][e := w]
    {
      hide Heap.Mem, Undisturbed;
      SW(head, w, s);
      label footer:
      SW(foot, w, e);
      UndisturbedTwice(old(ctx.vmm.ram), old@footer(ctx.vmm.ram), ctx.vmm.ram, ctx.vmm.pd, ctx.vmm.managed, ctx.start,
        ctx.brk + WSIZE);
    }

    /** The footer of the free block before. */
    method ReadPrevFooter(chunk: Word, ghost a: seq<Block>, ghost len: nat, ghost r: seq<Block>) returns (ftr: Word)
      requires Mem() && BeforeCoalesce(words, a, len, r) && chunk == At(Total(a)) && EndsFree(false, a)
      ensures ChunkSize(ftr) == 4 * FrontFree(a) && !ChunkPf(ftr)
    {
      hide Heap.Mem, Segment, Separated, Total, Encodes, ChunkSize, ChunkPf, BeforeCoalesce, FrontFree;
      AddressesFit();
      CoalesceSizes(words, a, len, r);
      CoalescePrevFooter(words, a, len, r);
      ftr := LW(chunk - WSIZE, Total(a) - 1);
    }

    /** coalesce: merges a free block with its free neighbours. */
    method Coalesce(chunk: Word, ghost a: seq<Block>, ghost len: nat, ghost r: seq<Block>) returns (c: Word)
      requires Mem() && BeforeCoalesce(words, a, len, r) && chunk == At(Total(a))
      modifies this`words, ctx.vmm`ram
      ensures Mem() && ctx.vmm.View() == old(ctx.vmm.View()) && Encodes(words, 0, false, Merge(a, len, r))
      ensures ctx.vmm.ram[ctx.vmm.pd] == old(ctx.vmm.ram)[ctx.vmm.pd]
      ensures Undisturbed(old(ctx.vmm.ram), ctx.vmm.ram, ctx.vmm.pd, ctx.vmm.managed, ctx.start, ctx.brk + WSIZE)
      ensures c == At(Total(Front(a))) && |words| == old(|words|)
      ensures Untouched(old(words), words, Total(Front(a)), Total(Front(a)) + MergedLen(a, len, r))
    {
      ghost var h := words;
      ghost var at, s, n := Total(a), Total(Front(a)), MergedLen(a, len, r);
      hide Heap.Mem, Undisturbed, Header, Segment, Separated, Total, Encodes, FirstHeader, ChunkSize, ChunkPf, ChunkA,
        Pack, BeforeCoalesce, Untouched, Front, FrontFree, RearFree, MergedLen, StartsFree, EndsFree, Merge, RoundUp4,
        Vmm.Valid;
      AddressesFit();
      CoalesceSizes(h, a, len, r);
      CoalesceOwnHeader(h, a, len, r);
      CoalesceNextHeader(h, a, len, r);
      CoalesceStamped(h, a, len, r);
      ghost var stamp := Pack(4 * n, false, false);
      var hdr := LW(chunk, at);
      var pf := ChunkPf(hdr);
      var sz := ChunkSize(hdr);
      var nHdr := LW(chunk + sz, at + len);
      c := chunk;
      if ChunkA(nHdr) && pf {
        var prevFtr := ReadPrevFooter(chunk, a, len, r);
        var prevSz := ChunkSize(prevFtr);
        var newHdr := Pack(prevSz + sz, ChunkPf(prevFtr), false);
        assert newHdr == stamp && chunk - prevSz == At(s);
        Stamp(chunk - prevSz, chunk + sz - WSIZE, newHdr, s, s + n - 1);
        c := chunk - prevSz;
      } else if !ChunkA(nHdr) && !pf {
        var nextSz := ChunkSize(nHdr);
        var newHdr := Pack(nextSz + sz, pf, false);
        assert newHdr == stamp;
        Stamp(chunk, chunk + (sz + nextSz) - WSIZE, newHdr, s, s + n - 1);
      } else if !ChunkA(nHdr) && pf {
        var prevFtr := ReadPrevFooter(chunk, a, len, r);
        var nextSz := ChunkSize(nHdr);
        var prevSz := ChunkSize(prevFtr);
        var newHdr := Pack(nextSz + prevSz + sz, ChunkPf(prevFtr), false);
        assert newHdr == stamp && chunk - prevSz == At(s);
        Stamp(chunk - prevSz, chunk + (sz + nextSz) - WSIZE, newHdr, s, s + n - 1);
        c := chunk - prevSz;
      } else {
        CoalesceNothing(h, a, len, r);
        UndisturbedAtFirst(ctx.vmm.ram, ctx.vmm.pd, ctx.vmm.managed, ctx.start, ctx.brk + WSIZE);
      }
    }

    // -------------------------------------------------------------- place_chunk

    /** place_chunk: takes the first n words of free block b and leaves the rest free. */
    method PlaceChunk(ptr: Word, size: Word, ghost a: seq<Block>, ghost b: Block, ghost r: seq<Block>, ghost n: nat)
      requires Valid() && blocks == Around(a, b, r) && a != [] && b.free
      requires ptr == At(Total(a)) && size == 4 * n && 2 <= n <= b.len
      modifies this`words, this`blocks, ctx.vmm`ram
      ensures Valid() && ctx.vmm.View() == old(ctx.vmm.View()) && |words| == old(|words|)
      ensures ctx.vmm.ram[ctx.vmm.pd] == old(ctx.vmm.ram)[ctx.vmm.pd]
      ensures blocks == Place(old(blocks), |a|, n) && Total(a) + n <= |words|
      ensures Undisturbed(old(ctx.vmm.ram), ctx.vmm.ram, ctx.vmm.pd, ctx.vmm.managed, ctx.start, ctx.brk + WSIZE)
      ensures Total(a) + 1 !in old(Contents())
      ensures Contents() == old(Contents())[Total(a) + 1 := words[Total(a) + 1..Total(a) + n]]
    {
      hide Heap.Mem, Undisturbed, Header, Segment, Separated, Total, Encodes, FirstHeader, ChunkSize, ChunkPf, ClearPf,
        Pack, BeforeCoalesce, Payloads, Place, Around, Merge, Untouched, Front, MergedLen, EndsFree, Shaped, Live,
        RoundUp4;
      ghost var h, at, next := words, Total(a), Total(a) + b.len;
      AddressesFit();
      PlaceView(h, a, b, r, n);
      PlaceWellFormed(a, b, r, n);
      PlaceAround(a, b, r, n);
      AroundParts(a, b, r);
      ghost var placed := Place(blocks, |a|, n);
      var header := LW(ptr, at);
      var chunkSize := ChunkSize(header);
      SW(ptr, Pack(size, ChunkPf(header), true), at);
      label headed:
      var nHdrPtr := ptr + size;
      var diff := chunkSize - size;
      if diff == 0 {
        var nHdr := LW(nHdrPtr, next);
        PlaceExactStores(h, a, b, r);
        SW(nHdrPtr, ClearPf(nHdr), next);
      } else {
        LeaveRemainder(nHdrPtr, diff, h, a, b, r, n);
      }
      UndisturbedTwice(old(ctx.vmm.ram), old@headed(ctx.vmm.ram), ctx.vmm.ram, ctx.vmm.pd, ctx.vmm.managed, ctx.start,
        ctx.brk + WSIZE);
      PlaceLive(h, words, a, b, r, n);
      blocks := placed;
    }

    /** The branch of place_chunk for a remainder: its header and footer, and coalesce. */
    method LeaveRemainder(nHdrPtr: Word, diff: Word, ghost h: seq<Word>, ghost a: seq<Block>, ghost b: Block,
                          ghost r: seq<Block>, ghost n: nat)
      requires Mem() && Encodes(h, 0, false, Around(a, b, r)) && WellFormed(Around(a, b, r)) && b.free && a != []
      requires 2 <= n < b.len && diff == 4 * (b.len - n) && nHdrPtr == At(Total(a) + n)
      requires Total(a) < |h| && Header(n, EndsFree(false, a), true) < 0x1_0000_0000
      requires words == h[Total(a) := Header(n, EndsFree(false, a), true)]
      modifies this`words, ctx.vmm`ram
      ensures Mem() && ctx.vmm.View() == old(ctx.vmm.View()) && |words| == old(|words|)
      ensures ctx.vmm.ram[ctx.vmm.pd] == old(ctx.vmm.ram)[ctx.vmm.pd]
      ensures Encodes(words, 0, false, Place(Around(a, b, r), |a|, n))
      ensures Untouched(h, words, Total(a), Total(a) + b.len + 1)
      ensures Undisturbed(old(ctx.vmm.ram), ctx.vmm.ram, ctx.vmm.pd, ctx.vmm.managed, ctx.start, ctx.brk + WSIZE)
    {
      ghost var at, next := Total(a), Total(a) + b.len;
      hide Heap.Mem, Undisturbed, Header, Segment, Separated, Total, Encodes, FirstHeader, Pack, BeforeCoalesce, Place,
        Around, Merge, Untouched, Front, MergedLen, EndsFree, Shaped;
      AddressesFit();
      AroundParts(a, b, r);
      PlaceView(h, a, b, r, n);
      PlaceSplitStores(h, a, b, r, n);
      PlaceSplitShape(a, b, r, n);
      var remainderHdr := Pack(diff, false, false);
      Stamp(nHdrPtr, nHdrPtr + diff - WSIZE, remainderHdr, at + n, next - 1);
      label split:
      var c := Coalesce(nHdrPtr, a + [Block(n, false)], b.len - n, r);
      UntouchedTwice(h, old@split(words), words, at, next, at + n, next);
      UntouchedMore(h, words, at, next);
      UndisturbedTwice(old(ctx.vmm.ram), old@split(ctx.vmm.ram), ctx.vmm.ram, ctx.vmm.pd, ctx.vmm.managed, ctx.start,
        ctx.brk + WSIZE);
    }

    // -------------------------------------------------------------- lxfree

    ghost function Slot(p: Word): nat {
      if p < ctx.start then 0 else (p - ctx.start) / 4
    }

    /** p is the address that a live payload starts at. */
    ghost predicate IsLive(p: Word)
      requires Total(blocks) <= |words|
      reads this
    {
      Slot(p) in Contents() && p == At(Slot(p))
    }

    /** lxfree: drops one payload and nothing else. */
    method LxFree(ptr: Word)
      requires Valid() && (ptr != 0 ==> IsLive(ptr))
      modifies this`words, this`blocks, ctx.vmm`ram
      ensures Valid() && ctx.vmm.View() == old(ctx.vmm.View()) && |words| == old(|words|)
      ensures ctx.vmm.ram[ctx.vmm.pd] == old(ctx.vmm.ram)[ctx.vmm.pd]
      ensures ptr == 0 ==> words == old(words) && blocks == old(blocks)
      ensures Undisturbed(old(ctx.vmm.ram), ctx.vmm.ram, ctx.vmm.pd, ctx.vmm.managed, ctx.start, ctx.brk + WSIZE)
      ensures ptr != 0 ==> Contents() == old(Contents()) - {Slot(ptr)}
      ensures ptr != 0 ==> exists i :: IsBlockAt(old(blocks), i, Slot(ptr)) && blocks == Release(old(blocks), i)
    {
      hide Heap.Mem, Undisturbed, Encodes, Payloads, Release, Separated;
      UndisturbedAtFirst(ctx.vmm.ram, ctx.vmm.pd, ctx.vmm.managed, ctx.start, ctx.brk + WSIZE);
      if ptr != 0 {
        ghost var i := SlotBlock(words, 0, blocks, Slot(ptr));
        AroundIndex(blocks, i);
        hide Around, Total, WellFormed;
        FreeChunk(ptr - WSIZE, blocks[..i], blocks[i], blocks[i + 1..]);
      }
    }

    /** The body of lxfree, on the chunk of allocated block b. */
    method FreeChunk(chunkPtr: Word, ghost a: seq<Block>, ghost b: Block, ghost r: seq<Block>)
      requires Valid() && blocks == Around(a, b, r) && a != [] && !b.free && chunkPtr == At(Total(a))
      modifies this`words, this`blocks, ctx.vmm`ram
      ensures Valid() && ctx.vmm.View() == old(ctx.vmm.View()) && |words| == old(|words|)
      ensures ctx.vmm.ram[ctx.vmm.pd] == old(ctx.vmm.ram)[ctx.vmm.pd]
      ensures blocks == Release(old(blocks), |a|)
      ensures Undisturbed(old(ctx.vmm.ram), ctx.vmm.ram, ctx.vmm.pd, ctx.vmm.managed, ctx.start, ctx.brk + WSIZE)
      ensures Contents() == old(Contents()) - {Total(a) + 1}
    {
      ghost var h, at, next := words, Total(a), Total(a) + b.len;
      hide Heap.Mem, Undisturbed, Header, Segment, Separated, Total, Encodes, FirstHeader, ChunkSize, ClearA, SetPf,
        BeforeCoalesce, Payloads, Around, Merge, Release, Untouched, Front, MergedLen, EndsFree, FreeStores, Shaped;
      AddressesFit();
      FreeView(h, a, b, r);
      ShapedParts(a, b, r);
      FreeStoresReady(h, a, b, r);
      FreeStoresAre(h, a, b, r);
      ReleaseWellFormed(a, b, r);
      AroundParts(a, b, r);
      var hdr := LW(chunkPtr, at);
      var sz := ChunkSize(hdr);
      var nextHdr := chunkPtr + sz;
      // the two debug assertions of lxfree hold for every live pointer
      assert chunkPtr + WSIZE < 0x1_0000_0000 - sz && sz > WSIZE;
      Stamp(chunkPtr, chunkPtr + sz - WSIZE, ClearA(hdr), at, next - 1);
      label stamped:
      var n := LW(nextHdr, next);
      SW(nextHdr, SetPf(n), next);
      label flagged:
      assert words == FreeStores(h, a, b, r);
      var c := Coalesce(chunkPtr, a, b.len, r);
      UndisturbedTwice(old@stamped(ctx.vmm.ram), old@flagged(ctx.vmm.ram), ctx.vmm.ram, ctx.vmm.pd, ctx.vmm.managed,
        ctx.start, ctx.brk + WSIZE);
      UndisturbedTwice(old(ctx.vmm.ram), old@stamped(ctx.vmm.ram), ctx.vmm.ram, ctx.vmm.pd, ctx.vmm.managed, ctx.start,
        ctx.brk + WSIZE);
      ReleaseLive(h, words, a, b, r);
      blocks := Release(blocks, |a|);
    }

    // -------------------------------------------------------------- lx_grow_heap

    /** Exactly when the heap can grow by n words: lxbrk moves the break by as much and the epilogue. */
    ghost predicate CanGrow(n: nat)
      reads ctx, ctx.vmm, ctx.vmm.pmm
    {
      4 * n + WSIZE <= 0xFFFF_FFFC && BreakMoves(ctx.vmm.Budget(), ctx.brk, 4 * n + WSIZE, ctx.maxAddr)
    }

    /** The epilogue is the last word of its page. Then the page after it is mapped already, lxbrk asks for it
        again, and the heap can never grow any more. */
    predicate BreakAtBoundary(brk: Word) {
      (brk + WSIZE) % 4096 == 0
    }

    /** Moves the break and brings `words` up to the new one. */
    method MoveBreak(sz: Word) returns (start: Word)
      requires Valid() && sz % 4 == 0 && 4 <= sz <= 0xFFFF_FFF8
      modifies this`words, ctx`brk, ctx.vmm`ram, ctx.vmm`managed, ctx.vmm.pmm`lookup, ctx.vmm.pmm`free, ctx.vmm.pmm.bits
      ensures Mem()
      ensures start == 0 ==> words == old(words) && ctx.brk == old(ctx.brk) && ctx.vmm.View() == old(ctx.vmm.View())
      ensures start != 0 ==> start == old(ctx.brk) && ctx.brk == old(ctx.brk) + sz
      ensures start != 0 ==> |words| == |old(words)| + sz / 4 && words[..|old(words)|] == old(words)
      ensures ctx.vmm.managed == old(ctx.vmm.managed)
      ensures Undisturbed(old(ctx.vmm.ram), ctx.vmm.ram, ctx.vmm.pd, ctx.vmm.managed, ctx.start, ctx.brk + WSIZE)
      ensures start != 0 <==> old(CanGrow(sz / 4))
      ensures ctx.vmm.Budget() == Spent(old(ctx.vmm.Budget()), old(ctx.brk), sz / 4, ctx.maxAddr)
      ensures BreakAtBoundary(old(ctx.brk)) ==> start == 0
    {
      hide Owned, Mappings, WordAt, Bitmap.Valid, WordsOf, Encodes, WellFormed, Total, Undisturbed, BreakMoves, Tabled,
        Vmm.Valid, WithPages, AfterFailure, PagesEntered, Spent;
      ghost var ram0, n := ctx.vmm.ram, |words|;
      CoveredWords(sz);
      SpentByLxbrk(ctx.vmm.Budget(), ctx.brk, sz, ctx.maxAddr);
      var brk := ctx.Lxbrk(sz + WSIZE);
      ghost var m := n + (if brk == None then 0 else sz / 4);
      UndisturbedWords(ram0, ctx.vmm.ram, ctx.vmm.pd, ctx.vmm.managed, ctx.start, n, m);
      UndisturbedOutside(ram0, ctx.vmm.ram, ctx.vmm.pd, ctx.vmm.managed, 0, 0, ctx.start, ctx.start + 4 * m);
      start := 0;
      words := ctx.Words(m);
      if brk != None {
        // minus the overhead for the epilogue
        ctx.brk := ctx.brk - WSIZE;
        start := brk.value;
      }
    }

    /** What the break covers, and what stops it. */
    lemma CoveredWords(sz: Word)
      requires Mem() && sz % 4 == 0 && 4 <= sz <= 0xFFFF_FFF8
      ensures RoundUp4(sz + WSIZE) == sz + WSIZE
      ensures forall p: nat | ctx.start / 4096 <= p <= (ctx.start + 4 * |words|) / 4096 ::
        p in Mappings(ctx.vmm.ram, ctx.vmm.pd) && FrameOf(Mappings(ctx.vmm.ram, ctx.vmm.pd)[p]) in ctx.vmm.managed
      ensures BreakAtBoundary(ctx.brk) ==> !CanGrow(sz / 4)
    {
      hide Mappings, Owned, BreakMoves, Tabled, WordAt;
      assert ctx.vmm.View() == Mappings(ctx.vmm.ram, ctx.vmm.pd) && ctx.Covered(ctx.start + 4 * |words|);
      if BreakAtBoundary(ctx.brk) {
        AfterBoundary(ctx.brk);
        BoundaryStops(ctx.vmm.Budget(), ctx.brk, sz + WSIZE, ctx.maxAddr);
      }
    }

    /** The stores of lx_grow_heap: a free chunk of sz bytes from the old epilogue on, a new epilogue, coalesce. */
    method WriteGrown(start: Word, sz: Word, ghost h: seq<Word>, ghost n: nat) returns (c: Word)
      requires Mem() && WellFormed(blocks) && Encodes(h, 0, false, blocks) && |h| == Total(blocks) + 1
      requires sz == 4 * n && n >= 1 && |words| == |h| + n && words[..|h|] == h && start == At(Total(blocks))
      modifies this`words, ctx.vmm`ram
      ensures Mem() && ctx.vmm.View() == old(ctx.vmm.View()) && |words| == old(|words|)
      ensures ctx.vmm.ram[ctx.vmm.pd] == old(ctx.vmm.ram)[ctx.vmm.pd]
      ensures Encodes(words, 0, false, Grow(blocks, n)) && c == At(Total(Front(blocks)))
      ensures Undisturbed(old(ctx.vmm.ram), ctx.vmm.ram, ctx.vmm.pd, ctx.vmm.managed, ctx.start, ctx.brk + WSIZE)
      ensures Total(Grow(blocks, n)) + 1 == |words| && Live(words, Grow(blocks, n)) == Live(h, blocks)
    {
      ghost var h1, at := words, Total(blocks);
      hide Heap.Mem, Undisturbed, Header, Segment, Separated, Total, Encodes, ChunkSize, ChunkPf, Pack,
        BeforeCoalesce, Payloads, Around, Merge, Untouched, Front, MergedLen, EndsFree, Shaped;
      AddressesFit();
      GrowStores(h, h1, blocks, n);
      GrowWellFormed(blocks, n);
      var oldMarker := LW(start, at);
      var freeHdr := Pack(sz, ChunkPf(oldMarker), false);
      Stamp(start, start + sz - WSIZE, freeHdr, at, at + n - 1);
      label stamped:
      var nextChk := LW(start, at);
      SW(start + ChunkSize(nextChk), Pack(0, true, true), at + n);
      label closed:
      ghost var h2 := words;
      c := Coalesce(start, blocks, n, []);
      UndisturbedTwice(old@stamped(ctx.vmm.ram), old@closed(ctx.vmm.ram), ctx.vmm.ram, ctx.vmm.pd, ctx.vmm.managed,
        ctx.start, ctx.brk + WSIZE);
      UndisturbedTwice(old(ctx.vmm.ram), old@stamped(ctx.vmm.ram), ctx.vmm.ram, ctx.vmm.pd, ctx.vmm.managed, ctx.start,
        ctx.brk + WSIZE);
      GrowLive(h, h2, words, blocks, n);
    }

    /** The new block on the grown range, whose beginning is the old heap h. */
    method AddBlock(start: Word, sz: Word, ghost h: seq<Word>) returns (c: Word)
      requires Mem() && WellFormed(blocks) && Encodes(h, 0, false, blocks) && |h| == Total(blocks) + 1
      requires 4 <= sz && sz % 4 == 0 && |words| == |h| + sz / 4 && words[..|h|] == h && start == At(Total(blocks))
      modifies this`words, this`blocks, ctx.vmm`ram
      ensures Valid() && ctx.vmm.View() == old(ctx.vmm.View()) && c == At(Total(Front(old(blocks))))
      ensures ctx.vmm.ram[ctx.vmm.pd] == old(ctx.vmm.ram)[ctx.vmm.pd]
      ensures blocks == Grow(old(blocks), sz / 4) && Contents() == Live(h, old(blocks))
      ensures Undisturbed(old(ctx.vmm.ram), ctx.vmm.ram, ctx.vmm.pd, ctx.vmm.managed, ctx.start, ctx.brk + WSIZE)
    {
      hide Heap.Mem, Undisturbed, Total, Encodes, WellFormed, Live, Grow, Front;
      GrowWellFormed(blocks, sz / 4);
      c := WriteGrown(start, sz, h, sz / 4);
      blocks := Grow(blocks, sz / 4);
    }

    /** lx_grow_heap: a free block of sz bytes in place of the epilogue, merged with a free block before it; or
        nothing at all. */
    method GrowHeap(sz: Word) returns (c: Word)
      requires Valid() && sz % 4 == 0 && 4 <= sz <= 0xFFFF_FFF8
      modifies this`words, this`blocks, ctx`brk, ctx.vmm`ram, ctx.vmm`managed
      modifies ctx.vmm.pmm`lookup, ctx.vmm.pmm`free, ctx.vmm.pmm.bits
      ensures Valid()
      ensures c == 0 ==> words == old(words) && blocks == old(blocks) && ctx.brk == old(ctx.brk)
      ensures c != 0 ==> c == At(Total(Front(old(blocks)))) && ctx.brk == old(ctx.brk) + sz
      ensures c != 0 ==> blocks == Grow(old(blocks), sz / 4) && Contents() == old(Contents())
      ensures ctx.vmm.managed == old(ctx.vmm.managed)
      ensures Undisturbed(old(ctx.vmm.ram), ctx.vmm.ram, ctx.vmm.pd, ctx.vmm.managed, ctx.start, ctx.brk + WSIZE)
      ensures c != 0 <==> old(CanGrow(sz / 4))
      ensures ctx.vmm.Budget() == Spent(old(ctx.vmm.Budget()), old(ctx.brk), sz / 4, ctx.maxAddr)
      ensures BreakAtBoundary(old(ctx.brk)) ==> c == 0
    {
      ghost var h := words;
      hide Heap.Mem, Undisturbed, Total, Encodes, WellFormed, Live, Grow, Front, Owned, Mappings, Bitmap.Valid,
        Heap.BreakAtBoundary, Spent, BreakMoves, Tabled;
      AddressesFit();
      c := MoveBreak(sz);
      if c != 0 {
        ghost var ram := ctx.vmm.ram;
        AddressesFit();
        c := AddBlock(c, sz, h);
        SameTabled(ram, ctx.vmm.ram, ctx.vmm.pd);
        UndisturbedTwice(old(ctx.vmm.ram), ram, ctx.vmm.ram, ctx.vmm.pd, ctx.vmm.managed, ctx.start, ctx.brk + WSIZE);
      }
    }

    // -------------------------------------------------------------- kalloc_init

    /** kalloc_init: prologue and epilogue, then one free block of HEAP_INIT_SIZE bytes. */
    method KallocInit() returns (ok: bool)
      requires ctx.vmm.Valid() && 0 < ctx.start && ctx.start % 4096 == 0
      requires ctx.start + 2 * WSIZE < ctx.maxAddr <= K_STACK_START && ctx.start / 4096 !in ctx.vmm.View()
      modifies this`words, this`blocks, ctx`brk, ctx.vmm`ram, ctx.vmm`managed
      modifies ctx.vmm.pmm`lookup, ctx.vmm.pmm`free, ctx.vmm.pmm.bits
      ensures ctx.vmm.Valid()
      ensures ctx.vmm.managed == old(ctx.vmm.managed)
      ensures Undisturbed(old(ctx.vmm.ram), ctx.vmm.ram, ctx.vmm.pd, ctx.vmm.managed, ctx.start, ctx.brk + WSIZE)
      ensures ok <==> HeapComesUp(old(ctx.vmm.Budget()), ctx.start, ctx.maxAddr)
      ensures var a, v := old(ctx.vmm.Budget()), ctx.start / 4096;
        ctx.vmm.Budget() == if CanBack(a, v) then Spent(WithPage(a, v), ctx.start + WSIZE, 1024, ctx.maxAddr)
                            else BackOrPass(a, v)
      ensures ok ==> Valid() && ctx.brk == ctx.start + WSIZE + HEAP_INIT_SIZE
      ensures ok ==> blocks == [Block(1, false), Block(HEAP_INIT_SIZE / 4, true)] && Contents() == map[]
    {
      hide Undisturbed, Owned, Mappings, Bitmap.Valid, CanBack, BreakMoves, WithPage, Tabled, Grow, Live, WellFormed,
        Encodes, Spent, BackOrPass;
      PassedIs(ctx.vmm.Budget(), ctx.start / 4096);
      ok := FirstPage();
      if ok {
        ghost var ram, hi := ctx.vmm.ram, ctx.brk + WSIZE;
        var c := GrowHeap(HEAP_INIT_SIZE);
        ok := c != 0;
        UndisturbedOutside(old(ctx.vmm.ram), ram, ctx.vmm.pd, ctx.vmm.managed, ctx.start, hi, ctx.start,
          ctx.brk + WSIZE);
        UndisturbedTwice(old(ctx.vmm.ram), ram, ctx.vmm.ram, ctx.vmm.pd, ctx.vmm.managed, ctx.start, ctx.brk + WSIZE);
        FirstGrowth(HEAP_INIT_SIZE / 4);
      }
    }

    /** The first part of kalloc_init: one page, prologue and epilogue. */
    method FirstPage() returns (ok: bool)
      requires ctx.vmm.Valid() && 0 < ctx.start && ctx.start % 4096 == 0
      requires ctx.start + 2 * WSIZE < ctx.maxAddr <= K_STACK_START && ctx.start / 4096 !in ctx.vmm.View()
      modifies this`words, this`blocks, ctx`brk, ctx.vmm`ram, ctx.vmm`managed
      modifies ctx.vmm.pmm`lookup, ctx.vmm.pmm`free, ctx.vmm.pmm.bits
      ensures ctx.vmm.Valid()
      ensures ctx.vmm.managed == old(ctx.vmm.managed)
      ensures Undisturbed(old(ctx.vmm.ram), ctx.vmm.ram, ctx.vmm.pd, ctx.vmm.managed, ctx.start, ctx.brk + WSIZE)
      ensures ok <==> CanBack(old(ctx.vmm.Budget()), ctx.start / 4096)
      ensures ctx.vmm.Budget() == BackOrPass(old(ctx.vmm.Budget()), ctx.start / 4096)
      ensures ok ==> Valid() && ctx.brk == ctx.start + WSIZE && blocks == [Block(1, false)] && Contents() == map[]
    {
      hide Owned, Mappings, WordAt, Bitmap.Valid, Extended, Undisturbed, CanBack, BackOrPass, Tabled, Encodes, Live;
      ok := ctx.DmmInit();
      ghost var ram, lo := ctx.vmm.ram, ctx.start;
      UndisturbedOutside(old(ctx.vmm.ram), ram, ctx.vmm.pd, ctx.vmm.managed, 0, 0, lo, lo + WSIZE);
      if ok {
        WriteMarkers();
        UndisturbedOutside(old(ctx.vmm.ram), ram, ctx.vmm.pd, ctx.vmm.managed, 0, 0, lo, lo + 2 * WSIZE);
        UndisturbedTwice(old(ctx.vmm.ram), ram, ctx.vmm.ram, ctx.vmm.pd, ctx.vmm.managed, lo, lo + 2 * WSIZE);
      }
    }

    /** Prologue and epilogue on the first page. */
    method WriteMarkers()
      requires ctx.Valid() && ctx.brk == ctx.start && ctx.start + 2 * WSIZE < ctx.maxAddr
      modifies this`words, this`blocks, ctx`brk, ctx.vmm`ram
      ensures Valid() && ctx.brk == ctx.start + WSIZE && blocks == [Block(1, false)] && Contents() == map[]
      ensures ctx.vmm.Budget() == old(ctx.vmm.Budget())
      ensures Undisturbed(old(ctx.vmm.ram), ctx.vmm.ram, ctx.vmm.pd, ctx.vmm.managed, ctx.start, ctx.brk + WSIZE)
    {
      hide Owned, Mappings, WordAt, Bitmap.Valid, Undisturbed, Tabled;
      ghost var ram, lo, hi := ctx.vmm.ram, ctx.start, ctx.start + 2 * WSIZE;
      WordAddress(ctx.start, 0, ctx.start + 7);
      WordAddress(ctx.start, 1, ctx.start + 7);
      ctx.vmm.SW(ctx.start, Pack(4, false, true));
      UndisturbedByStore(ram, ctx.vmm.ram, ctx.vmm.pd, ctx.vmm.managed, lo, hi, ctx.start);
      ghost var ram1 := ctx.vmm.ram;
      ctx.vmm.SW(ctx.start + WSIZE, Pack(0, false, true));
      UndisturbedByStore(ram1, ctx.vmm.ram, ctx.vmm.pd, ctx.vmm.managed, lo, hi, ctx.start + WSIZE);
      UndisturbedTwice(ram, ram1, ctx.vmm.ram, ctx.vmm.pd, ctx.vmm.managed, lo, hi);
      SameTabled(ram, ctx.vmm.ram, ctx.vmm.pd);
      ctx.brk := ctx.brk + WSIZE;
      words := ctx.Words(2);
      blocks := [Block(1, false)];
      assert words == [Pack(4, false, true), Pack(0, false, true)];
      assert blocks[1..] == [];
    }

    // -------------------------------------------------------------- an owner's store

    /** A store by the owner of a live payload, the only other way in which the heap's memory changes: every
        other payload and every header stays. */
    method StorePayload(p: Word, j: nat, w: Word)
      requires Valid() && IsLive(p) && j < |Contents()[Slot(p)]|
      modifies this`words, ctx.vmm`ram
      ensures Valid() && blocks == old(blocks) && ctx.vmm.View() == old(ctx.vmm.View())
      ensures ctx.vmm.ram[ctx.vmm.pd] == old(ctx.vmm.ram)[ctx.vmm.pd]
      ensures Undisturbed(old(ctx.vmm.ram), ctx.vmm.ram, ctx.vmm.pd, ctx.vmm.managed, ctx.start, ctx.brk + WSIZE)
      ensures Contents() == Overwritten(old(Contents()), Slot(p), j, w)
    {
      hide Heap.Mem, Undisturbed, Encodes, WellFormed, Overwritten, Payloads;
      ghost var i := SlotBlock(words, 0, blocks, Slot(p));
      AroundIndex(blocks, i);
      AddressesFit();
      hide Total, Live, Around;
      StoreInside(p + 4 * j, w, blocks[..i], blocks[i], blocks[i + 1..], j);
    }

    method StoreInside(q: Word, w: Word, ghost a: seq<Block>, ghost b: Block, ghost r: seq<Block>, ghost j: nat)
      requires Valid() && blocks == Around(a, b, r) && !b.free && j + 1 < b.len && q == At(Total(a) + 1 + j)
      modifies this`words, ctx.vmm`ram
      ensures Valid() && ctx.vmm.View() == old(ctx.vmm.View())
      ensures ctx.vmm.ram[ctx.vmm.pd] == old(ctx.vmm.ram)[ctx.vmm.pd]
      ensures Undisturbed(old(ctx.vmm.ram), ctx.vmm.ram, ctx.vmm.pd, ctx.vmm.managed, ctx.start, ctx.brk + WSIZE)
      ensures var slot := Total(a) + 1;
        slot in old(Contents()) && j < |old(Contents())[slot]| &&
        Contents() == Overwritten(old(Contents()), slot, j, w)
    {
      hide Heap.Mem, Undisturbed, Total, Encodes, Live, WellFormed, Around, Overwritten;
      PayloadStore(words, a, b, r, j, w);
      AddressesFit();
      SW(q, w, Total(a) + 1 + j);
    }

    // -------------------------------------------------------------- lxmalloc

    /** The header walk of lx_malloc_internal: it stops at the first block that fits, or exactly at the epilogue. */
    method FirstFitChunk(size: Word, ghost n: nat) returns (ptr: Word, ghost i: nat)
      requires Valid() && size == 4 * n && n >= 1
      ensures i <= |blocks| && ptr == At(Total(blocks[..i])) && |blocks| >= 1
      ensures if ptr < ctx.brk then FirstFit(blocks, n, i) && i >= 1
              else i == |blocks| && ptr == ctx.brk && !AnyFit(blocks, n)
      ensures if AnyFit(blocks, n) then exists k: nat :: FirstFit(blocks, n, k) && ptr == At(Total(blocks[..k]))
              else ptr == ctx.brk
    {
      hide Heap.Mem, Total, Encodes, Separated, ChunkSize, ChunkA, Around;
      AddressesFit();
      EmptyTotal();
      WholeList(blocks);
      ptr, i := ctx.start, 0;
      WalkView(words, blocks, 0);
      while ptr < ctx.brk
        invariant i <= |blocks| && ptr == At(Total(blocks[..i]))
        invariant forall j | 0 <= j < i :: !Fits(blocks[j], n)
        invariant if i == |blocks| then ptr == ctx.brk else ptr < ctx.brk
        decreases |blocks| - i
      {
        WalkView(words, blocks, i);
        var header := LW(ptr, Total(blocks[..i]));
        var chunkSize := ChunkSize(header);
        if chunkSize == 0 && ChunkA(header) {
          assert false;
          break;
        }
        if chunkSize >= size && !ChunkA(header) {
          return;
        }
        ptr, i := ptr + chunkSize, i + 1;
        if i < |blocks| {
          WalkView(words, blocks, i);
        }
      }
    }

    /** lx_malloc_internal: first fit, growing the heap only when nothing fits. */
    method LxMalloc(size: Word) returns (p: Word)
      requires Valid() && size <= 0xFFFF_FFF4
      modifies this`words, this`blocks, ctx`brk, ctx.vmm`ram, ctx.vmm`managed
      modifies ctx.vmm.pmm`lookup, ctx.vmm.pmm`free, ctx.vmm.pmm.bits
      ensures Valid()
      ensures p == 0 <==>
        size == 0 || (!AnyFit(old(blocks), RequestWords(size)) && !old(CanGrow(RequestWords(size))))
      ensures size == 0 || AnyFit(old(blocks), RequestWords(size)) ==> ctx.vmm.Budget() == old(ctx.vmm.Budget())
      ensures size > 0 && !AnyFit(old(blocks), RequestWords(size)) ==>
        ctx.vmm.Budget() == Spent(old(ctx.vmm.Budget()), old(ctx.brk), RequestWords(size), ctx.maxAddr)
      ensures p == 0 ==> words == old(words) && blocks == old(blocks) && ctx.brk == old(ctx.brk)
      ensures p != 0 ==> p % 4 == 0 && p == At(Slot(p)) && OnePayloadMore(old(Contents()), Contents(), Slot(p), size)
      ensures ctx.vmm.managed == old(ctx.vmm.managed)
      ensures Undisturbed(old(ctx.vmm.ram), ctx.vmm.ram, ctx.vmm.pd, ctx.vmm.managed, ctx.start, ctx.brk + WSIZE)
      ensures size > 0 && AnyFit(old(blocks), RequestWords(size)) ==>
        p != 0 && ctx.brk == old(ctx.brk) && PlacedFirstFit(old(blocks), blocks, RequestWords(size), Slot(p))
      ensures BreakAtBoundary(old(ctx.brk)) && !AnyFit(old(blocks), RequestWords(size)) ==> p == 0
      ensures Apart(Contents())
      ensures blocks == Step(old(blocks), Malloc(RequestWords(size), old(CanGrow(RequestWords(size)))))
      ensures p != 0 && !AnyFit(old(blocks), RequestWords(size)) ==>
        ctx.brk == old(ctx.brk) + 4 * RequestWords(size) &&
        PlacedByGrowth(old(blocks), blocks, RequestWords(size), Slot(p))
    {
      hide Heap.Mem, Total, Encodes, WellFormed, Payloads, Live, RequestWords, RoundUp4, Wrap, AnyFit,
        PlacedFirstFit, PlacedByGrowth, OnePayloadMore, Heap.Slot, Undisturbed, Apart, Step, BreakMoves, Spent;
      NoRequest(blocks, CanGrow(RequestWords(0)));
      UndisturbedAtFirst(ctx.vmm.ram, ctx.vmm.pd, ctx.vmm.managed, ctx.start, ctx.brk + WSIZE);
      p := 0;
      if size != 0 {
        ghost var n := RequestWords(size);
        RequestIsLargeEnough(size);
        var ptr, at := TakeChunk(RoundUp4(Wrap(size + WSIZE)), n);
        if ptr != 0 {
          AddressesFit();
          SlotOfAddress(at + 1);
          PayloadAdded(old(Contents()), at + 1, words[at + 1..at + n], size);
          p := ptr + WSIZE;
        }
        MallocIsStep(old(blocks), blocks, n, at + 1, old(CanGrow(n)));
      }
      PayloadsAreApart(words, blocks);
    }

    /** The walk, the growth if nothing fits, and place_chunk. */
    method TakeChunk(size: Word, ghost n: nat) returns (ptr: Word, ghost at: nat)
      requires Valid() && size == 4 * n && 2 <= n && size <= 0xFFFF_FFF8
      modifies this`words, this`blocks, ctx`brk, ctx.vmm`ram, ctx.vmm`managed
      modifies ctx.vmm.pmm`lookup, ctx.vmm.pmm`free, ctx.vmm.pmm.bits
      ensures Valid()
      ensures ptr == 0 ==> words == old(words) && blocks == old(blocks) && ctx.brk == old(ctx.brk)
      ensures ptr == 0 <==> !AnyFit(old(blocks), n) && !old(CanGrow(n))
      ensures ctx.vmm.Budget() ==
        if AnyFit(old(blocks), n) then old(ctx.vmm.Budget())
        else Spent(old(ctx.vmm.Budget()), old(ctx.brk), n, ctx.maxAddr)
      ensures ptr != 0 ==> ptr == At(at) && at + n <= |words| && at + 1 !in old(Contents())
      ensures ctx.vmm.managed == old(ctx.vmm.managed)
      ensures Undisturbed(old(ctx.vmm.ram), ctx.vmm.ram, ctx.vmm.pd, ctx.vmm.managed, ctx.start, ctx.brk + WSIZE)
      ensures ptr != 0 ==> Contents() == old(Contents())[at + 1 := words[at + 1..at + n]]
      ensures AnyFit(old(blocks), n) ==>
        ptr != 0 && ctx.brk == old(ctx.brk) && PlacedFirstFit(old(blocks), blocks, n, at + 1)
      ensures BreakAtBoundary(old(ctx.brk)) && !AnyFit(old(blocks), n) ==> ptr == 0
      ensures ptr != 0 && !AnyFit(old(blocks), n) ==>
        ctx.brk == old(ctx.brk) + size && PlacedByGrowth(old(blocks), blocks, n, at + 1)
    {
      hide Heap.Mem, Undisturbed, Total, Encodes, Separated, Live, BreakMoves, Spent, WellFormed, PlacedFirstFit,
        PlacedByGrowth, Vmm.Budget;
      ghost var i;
      ptr, i := FirstFitChunk(size, n);
      if ptr < ctx.brk {
        at := PlaceFitting(ptr, size, i, n);
      } else {
        ptr, at := PlaceOnGrown(size, n);
      }
    }

    /** place_chunk on the block that the walk has found. */
    method PlaceFitting(ptr: Word, size: Word, ghost i: nat, ghost n: nat) returns (ghost at: nat)
      requires Valid() && size == 4 * n && 2 <= n && 1 <= i && FirstFit(blocks, n, i) && ptr == At(Total(blocks[..i]))
      modifies this`words, this`blocks, ctx.vmm`ram
      ensures Valid() && ctx.vmm.Budget() == old(ctx.vmm.Budget())
      ensures Undisturbed(old(ctx.vmm.ram), ctx.vmm.ram, ctx.vmm.pd, ctx.vmm.managed, ctx.start, ctx.brk + WSIZE)
      ensures ptr != 0 && ptr == At(at) && at + n <= |words| && at + 1 !in old(Contents())
      ensures Contents() == old(Contents())[at + 1 := words[at + 1..at + n]]
      ensures PlacedFirstFit(old(blocks), blocks, n, at + 1)
    {
      hide Heap.Mem, Undisturbed, Total, Encodes, Separated, Around, Place, Live, Tabled, Mappings, WellFormed;
      AddressesFit();
      AroundIndex(blocks, i);
      at := Total(blocks[..i]);
      PlaceChunk(ptr, size, blocks[..i], blocks[i], blocks[i + 1..], n);
      SameTabled(old(ctx.vmm.ram), ctx.vmm.ram, ctx.vmm.pd);
      assert FirstFit(old(blocks), n, i);
    }

    /** lx_grow_heap and place_chunk on the block that it makes. */
    method PlaceOnGrown(size: Word, ghost n: nat) returns (ptr: Word, ghost at: nat)
      requires Valid() && size == 4 * n && 2 <= n && size <= 0xFFFF_FFF8
      modifies this`words, this`blocks, ctx`brk, ctx.vmm`ram, ctx.vmm`managed
      modifies ctx.vmm.pmm`lookup, ctx.vmm.pmm`free, ctx.vmm.pmm.bits
      ensures Valid()
      ensures ptr == 0 ==> words == old(words) && blocks == old(blocks) && ctx.brk == old(ctx.brk)
      ensures ptr == 0 <==> !old(CanGrow(n))
      ensures ctx.vmm.Budget() == Spent(old(ctx.vmm.Budget()), old(ctx.brk), n, ctx.maxAddr)
      ensures ptr != 0 ==> ptr == At(at) && at + n <= |words| && at + 1 !in old(Contents())
      ensures ctx.vmm.managed == old(ctx.vmm.managed)
      ensures Undisturbed(old(ctx.vmm.ram), ctx.vmm.ram, ctx.vmm.pd, ctx.vmm.managed, ctx.start, ctx.brk + WSIZE)
      ensures ptr != 0 ==> Contents() == old(Contents())[at + 1 := words[at + 1..at + n]]
      ensures BreakAtBoundary(old(ctx.brk)) ==> ptr == 0
      ensures ptr != 0 ==> ctx.brk == old(ctx.brk) + size && PlacedByGrowth(old(blocks), blocks, n, at + 1)
    {
      hide Heap.Mem, Undisturbed, Total, Encodes, Separated, Grow, Front, Around, Place, Live, BreakMoves, Spent,
        Tabled, Mappings, Heap.BreakAtBoundary;
      ghost var before := blocks;
      ptr := GrowHeap(size);
      at := 0;
      if ptr != 0 {
        ghost var ram := ctx.vmm.ram;
        AddressesFit();
        GrownBlock(before, n);
        at := Total(Front(before));
        PlaceChunk(ptr, size, Front(before), Block(FrontFree(before) + n, true), [], n);
        SameTabled(ram, ctx.vmm.ram, ctx.vmm.pd);
        UndisturbedTwice(old(ctx.vmm.ram), ram, ctx.vmm.ram, ctx.vmm.pd, ctx.vmm.managed, ctx.start, ctx.brk + WSIZE);
      }
    }

    lemma SlotOfAddress(k: nat)
      requires At(k) < 0x1_0000_0000 && ctx.start % 4 == 0
      ensures Slot(At(k)) == k && At(k) % 4 == 0
    {
      assert At(k) == 4 * (ctx.start / 4 + k);
    }
  }

  lemma SpentByLxbrk(a: Account, brk: Word, sz: Word, maxAddr: Word)
    requires sz % 4 == 0 && 4 <= sz <= 0xFFFF_FFF8
    ensures 4 * (sz / 4) == sz && RoundUp4(sz + WSIZE) == sz + WSIZE
    ensures var v, k := brk / 4096 + 1, PagesEntered(brk, sz + WSIZE);
      Spent(a, brk, sz / 4, maxAddr) ==
        if brk + sz + WSIZE >= maxAddr then a
        else if BreakMoves(a, brk, sz + WSIZE, maxAddr) then WithPages(a, v, k) else AfterFailure(a, v, k)
  {
    hide CanBackAll, WithPages, AfterFailure;
  }

  /** When the heap has grown, all the new pages were backed. */
  lemma GrowthSpends(a: Account, brk: Word, n: nat, maxAddr: Word)
    requires 4 * n + WSIZE <= 0xFFFF_FFFC && BreakMoves(a, brk, 4 * n + WSIZE, maxAddr)
    ensures var v, k := brk / 4096 + 1, (brk + 4 * n + 4) / 4096 - brk / 4096;
      brk + 4 * n + 4 < maxAddr && CanBackAll(a, v, k) && Spent(a, brk, n, maxAddr) == WithPages(a, v, k)
  {
    hide CanBackAll, WithPages, AfterFailure, RoundUp4;
    WordsAreRounded(n);
  }

  /** Exactly when the heap grows by n words: the range is long enough, and every new page can be backed. */
  lemma GrowthAtOnce(a: Account, brk: Word, n: nat, maxAddr: Word)
    requires n >= 1
    ensures 4 * n + WSIZE <= 0xFFFF_FFFC && BreakMoves(a, brk, 4 * n + WSIZE, maxAddr) <==>
      brk + 4 * n + 4 < maxAddr && CanBackAll(a, brk / 4096 + 1, (brk + 4 * n + 4) / 4096 - brk / 4096)
  {
    hide CanBackAll, RoundUp4;
    if 4 * n + WSIZE <= 0xFFFF_FFFC {
      WordsAreRounded(n);
    }
  }

  lemma WordsAreRounded(n: nat)
    requires 4 * n + WSIZE <= 0xFFFF_FFFC
    ensures RoundUp4(4 * n + WSIZE) == 4 * n + WSIZE
  {
    Quarters(n + 1, 0);
    BreakArithmetic(0, 4 * n + WSIZE);
  }

  /** Growing by n words and then by m is growing by n + m, unless the epilogue ends its page in between. */
  lemma GrowthInTwo(a: Account, brk: Word, n: nat, m: nat, maxAddr: Word)
    requires 4 * n + WSIZE <= 0xFFFF_FFFC && 4 * m + WSIZE <= 0xFFFF_FFFC && brk % 4 == 0
    requires BreakMoves(a, brk, 4 * n + WSIZE, maxAddr) && (brk + 4 * n + WSIZE) % 4096 != 0 && m >= 1
    ensures var b := Spent(a, brk, n, maxAddr); var k := (brk + 4 * (n + m) + 4) / 4096 - brk / 4096;
      (BreakMoves(b, brk + 4 * n, 4 * m + WSIZE, maxAddr) <==>
         brk + 4 * (n + m) + 4 < maxAddr && CanBackAll(a, brk / 4096 + 1, k)) &&
      (BreakMoves(b, brk + 4 * n, 4 * m + WSIZE, maxAddr) ==>
         Spent(b, brk + 4 * n, m, maxAddr) == WithPages(a, brk / 4096 + 1, k))
  {
    hide CanBackAll, WithPages, BreakMoves, Spent;
    var mid, v := brk + 4 * n, brk / 4096 + 1;
    GrowthSpends(a, brk, n, maxAddr);
    var b := Spent(a, brk, n, maxAddr);
    GrowthAtOnce(b, mid, m, maxAddr);
    if BreakMoves(b, mid, 4 * m + WSIZE, maxAddr) {
      GrowthSpends(b, mid, m, maxAddr);
    }
    MiddleOfPage(brk, n, m);
    BackedInTwo(a, v, NewPages(brk, n), NewPages(mid, m));
  }

  lemma MiddleOfPage(brk: Word, n: nat, m: nat)
    requires brk % 4 == 0 && (brk + 4 * n + WSIZE) % 4096 != 0 && brk + 4 * n < 0x1_0000_0000
    ensures (brk + 4 * n + 4) / 4096 == (brk + 4 * n) / 4096 && 4 * (n + m) == 4 * n + 4 * m
    ensures brk / 4096 + 1 + NewPages(brk, n) == (brk + 4 * n) / 4096 + 1
    ensures NewPages(brk, n) + NewPages(brk + 4 * n, m) == (brk + 4 * (n + m) + 4) / 4096 - brk / 4096
  {
    var x := brk + 4 * n;
    var q, r := x / 4096, x % 4096;
    assert brk == 4 * (brk / 4) && x == 4096 * q + r;
    Quarters(brk / 4 + n - 1024 * q, 0);
    assert r == 4 * (brk / 4 + n - 1024 * q);
    Div4096(q, r + 4);
  }

  /** kalloc_init needs two pages, and the address range to reach beyond the first word of the second one. */
  lemma HeapComesUpMeans(a: Account, start: Word, maxAddr: Word)
    requires start % 4096 == 0 && start + 8192 < 0x1_0000_0000
    ensures HeapComesUp(a, start, maxAddr) <==> start + 4104 < maxAddr && CanBackAll(a, start / 4096, 2)
  {
    hide CanBack, WithPage, RoundUp4;
    var v, b := start / 4096, WithPage(a, start / 4096);
    Div4096(v, 4);
    Div4096(v + 1, 8);
    BreakArithmetic(start + 4, HEAP_INIT_SIZE + WSIZE);
    BackedNone(a, v);
    BackedStep(a, v, 0);
    BackedStep(a, v, 1);
    BackedNone(b, v + 1);
    BackedStep(b, v + 1, 0);
    assert PagesEntered(start + 4, 4100) == 1;
  }

  lemma FirstGrowth(n: nat)
    ensures Grow([Block(1, false)], n) == [Block(1, false), Block(n, true)]
  {
    AroundParts([Block(1, false)], Block(n, true), []);
  }

  /** A request for nothing is the step that changes nothing. */
  lemma NoRequest(blocks: seq<Block>, breakMoves: bool)
    ensures Step(blocks, Malloc(RequestWords(0), breakMoves)) == blocks
  {
  }

  lemma AfterBoundary(brk: Word)
    requires (brk + 4) % 4096 == 0
    ensures (brk + 4) / 4096 == brk / 4096 + 1
  {
  }

  lemma EmptyTotal()
    ensures Total([]) == 0
  {
  }

  lemma WholeList(blocks: seq<Block>)
    ensures blocks[..|blocks|] == blocks && blocks[..0] == []
  {
  }
}
