/** Callers of kernel/mm/kalloc.c: whole sequences of lxmalloc and lxfree on the heap in memory. */
module HeapSession {
  import opened Words
  import opened Paging
  import opened PageSearch
  import opened Backing
  import opened PhysicalPages
  import opened VirtualMemory
  import opened HeapBreak
  import opened HeapLayout
  import opened HeapRuns
  import opened KernelHeap

  /** lxmalloc(size), lxfree of the k-th pointer that is still live, or a store of its owner to word j of it. */
  datatype Call = Allocate(size: Word) | GiveBack(k: nat) | Write(k: nat, j: nat, w: Word)

  /** What the caller knows of a live pointer: the bytes asked for, and the words written so far. */
  datatype Owner = Owner(size: Word, written: map<nat, Word>)

  /** The request of a run that a call makes, whatever lxbrk and the layout say. */
  predicate Asks(c: Call, r: Request) {
    match c
    case Allocate(size) => r.Malloc? && r.n == RequestWords(size)
    case _ => r.Free?
  }

  /** One call, `granted` saying whether lxmalloc returned a pointer. A store stays inside the bytes asked for. */
  function Known(owners: seq<Owner>, c: Call, granted: bool): seq<Owner> {
    match c
    case Allocate(size) => if granted then owners + [Owner(size, map[])] else owners
    case GiveBack(k) => if k < |owners| then owners[..k] + owners[k + 1..] else owners
    case Write(k, j, w) =>
      if k < |owners| && 4 * j + 4 <= owners[k].size then
        owners[k := owners[k].(written := owners[k].written[j := w])]
      else owners
  }

  /** What the caller knows after a sequence of calls. */
  function Owners(calls: seq<Call>, granted: seq<bool>): seq<Owner>
    requires |granted| == |calls|
  {
    if calls == [] then []
    else
      var n := |calls| - 1;
      Known(Owners(calls[..n], granted[..n]), calls[n], granted[n])
  }

  lemma OwnersStep(calls: seq<Call>, i: nat, granted: seq<bool>, g: bool)
    requires i < |calls| && |granted| == i
    ensures Owners(calls[..i + 1], granted + [g]) == Known(Owners(calls[..i], granted), calls[i], g)
  {
    assert calls[..i + 1][..i] == calls[..i] && (granted + [g])[..i] == granted;
  }

  /** A payload that bears out what its owner knows. */
  predicate Holds(payload: seq<Word>, o: Owner) {
    4 * |payload| >= o.size && forall j | j in o.written :: j < |payload| && payload[j] == o.written[j]
  }

  /** The payloads are those from before, unchanged, and those at `slots`, all different, as their owners left them. */
  ghost predicate Ledger(before: map<nat, seq<Word>>, now: map<nat, seq<Word>>, slots: seq<nat>, owners: seq<Owner>) {
    |owners| == |slots| &&
    (forall s | s in before :: s in now && now[s] == before[s]) &&
    (forall s | s in now :: s in before || s in slots) &&
    (forall k | 0 <= k < |slots| :: slots[k] in now && slots[k] !in before && Holds(now[slots[k]], owners[k])) &&
    Distinct(slots)
  }

  lemma LedgerStart(now: map<nat, seq<Word>>)
    ensures Ledger(now, now, [], [])
  {
  }

  lemma LedgerMalloc(before: map<nat, seq<Word>>, m0: map<nat, seq<Word>>, m1: map<nat, seq<Word>>, slots: seq<nat>,
                     owners: seq<Owner>, slot: nat, size: Word)
    requires Ledger(before, m0, slots, owners) && OnePayloadMore(m0, m1, slot, size)
    ensures Ledger(before, m1, slots + [slot], Known(owners, Allocate(size), true))
  {
    HoldsNothing(m1[slot], size);
    DistinctMore(slots, slot);
    KnownAfterMalloc(owners, size);
    hide Holds, Known, Distinct;
  }

  lemma KnownAfterMalloc(owners: seq<Owner>, size: Word)
    ensures Known(owners, Allocate(size), true) == owners + [Owner(size, map[])]
  {
  }

  lemma KnownAfterWrite(owners: seq<Owner>, k: nat, j: nat, w: Word)
    requires k < |owners| && 4 * j + 4 <= owners[k].size
    ensures Known(owners, Write(k, j, w), false) == owners[k := Owner(owners[k].size, owners[k].written[j := w])]
  {
  }

  lemma HoldsNothing(payload: seq<Word>, size: Word)
    ensures Holds(payload, Owner(size, map[])) <==> 4 * |payload| >= size
  {
  }

  lemma LedgerFree(before: map<nat, seq<Word>>, m: map<nat, seq<Word>>, slots: seq<nat>, owners: seq<Owner>, k: nat)
    requires Ledger(before, m, slots, owners) && k < |slots|
    ensures Ledger(before, m - {slots[k]}, slots[..k] + slots[k + 1..], Known(owners, GiveBack(k), false))
  {
    var rest, left := slots[..k] + slots[k + 1..], owners[..k] + owners[k + 1..];
    WithoutAt(slots, k);
    WithoutAt(owners, k);
    DistinctLess(slots, k);
    KnownAfterFree(owners, k);
    hide Holds, Known, Distinct;
    forall a | 0 <= a < |rest|
      ensures rest[a] in m - {slots[k]} && rest[a] !in before && Holds(m[rest[a]], left[a])
    {
      assert rest[a] in rest;
    }
  }

  lemma KnownAfterFree(owners: seq<Owner>, k: nat)
    requires k < |owners|
    ensures Known(owners, GiveBack(k), false) == owners[..k] + owners[k + 1..]
  {
  }

  lemma LedgerWrite(before: map<nat, seq<Word>>, m: map<nat, seq<Word>>, slots: seq<nat>, owners: seq<Owner>,
                    k: nat, j: nat, w: Word)
    requires Ledger(before, m, slots, owners) && k < |slots| && 4 * j + 4 <= owners[k].size
    ensures j < |m[slots[k]]|
    ensures var own: seq<Word> := m[slots[k]][j := w];
      Ledger(before, m[slots[k] := own], slots, Known(owners, Write(k, j, w), false))
  {
  }

  /** The pointer of a payload slot. */
  ghost predicate Pointers(heap: Heap, live: seq<Word>, slots: seq<nat>) {
    |live| == |slots| &&
    forall k | 0 <= k < |live| :: live[k] != 0 && heap.Slot(live[k]) == slots[k] && live[k] == heap.At(slots[k])
  }

  lemma PointersMore(heap: Heap, live: seq<Word>, slots: seq<nat>, p: Word)
    requires Pointers(heap, live, slots) && p != 0 && p == heap.At(heap.Slot(p))
    ensures Pointers(heap, live + [p], slots + [heap.Slot(p)])
  {
    hide Heap.Slot, Heap.At;
  }

  lemma PointersLess(heap: Heap, live: seq<Word>, slots: seq<nat>, k: nat)
    requires Pointers(heap, live, slots) && k < |live|
    ensures Pointers(heap, live[..k] + live[k + 1..], slots[..k] + slots[k + 1..])
    ensures live[k] != 0 && heap.Slot(live[k]) == slots[k] && live[k] == heap.At(slots[k])
  {
    hide Heap.Slot, Heap.At;
    WithoutAt(live, k);
    WithoutAt(slots, k);
  }

  lemma LedgerSizes(before: map<nat, seq<Word>>, m: map<nat, seq<Word>>, slots: seq<nat>, owners: seq<Owner>)
    requires Ledger(before, m, slots, owners)
    ensures |owners| == |slots| && forall k | 0 <= k < |slots| :: slots[k] in m
  {
  }

  lemma SameLength(heap: Heap, live: seq<Word>, slots: seq<nat>)
    requires Pointers(heap, live, slots)
    ensures |live| == |slots|
  {
  }

  lemma NothingDone(owners: seq<Owner>, c: Call)
    ensures c.Allocate? ==> Known(owners, c, false) == owners
    ensures c.GiveBack? && c.k >= |owners| ==> Known(owners, c, false) == owners
    ensures c.Write? && (c.k >= |owners| || 4 * c.j + 4 > owners[c.k].size) ==> Known(owners, c, false) == owners
  {
  }

  /** Any sequence of calls, releases and stores being of pointers handed out before. The block list that the heap's
      words encode in the end is that of the run of the requests. The payloads are those from before, unchanged, and one
      for each pointer still live, of at least the size asked for, in which every word that its owner has written reads
      as written last. Nothing outside the heap has changed. */
  method Session(heap: Heap, calls: seq<Call>)
    returns (live: seq<Word>, granted: seq<bool>, ghost requests: seq<Request>, ghost slots: seq<nat>)
    requires heap.Valid() && forall c | c in calls :: c.Allocate? ==> c.size <= 0xFFFF_FFF4
    modifies heap`words, heap`blocks, heap.ctx`brk, heap.ctx.vmm`ram, heap.ctx.vmm`managed
    modifies heap.ctx.vmm.pmm`lookup, heap.ctx.vmm.pmm`free, heap.ctx.vmm.pmm.bits
    ensures heap.Valid() && heap.blocks == Run(old(heap.blocks), requests)
    ensures |requests| == |calls| && forall i | 0 <= i < |calls| :: Asks(calls[i], requests[i])
    ensures |granted| == |calls| && Pointers(heap, live, slots)
    ensures Ledger(old(heap.Contents()), heap.Contents(), slots, Owners(calls, granted))
    ensures heap.ctx.vmm.managed == old(heap.ctx.vmm.managed)
    ensures Undisturbed(old(heap.ctx.vmm.ram), heap.ctx.vmm.ram, heap.ctx.vmm.pd, heap.ctx.vmm.managed, heap.ctx.start,
                        heap.ctx.brk + WSIZE)
    ensures old(heap.Contents()) == map[] && live == [] && old(|heap.words|) > 2 ==>
      heap.blocks == [Block(1, false), Block(|heap.words| - 2, true)]
  {
    hide Heap.Mem, WellFormed, Encodes, Total, Live, Run, Step, Ledger, Known, Owners, Undisturbed, Heap.Slot, Heap.At;
    live, granted, requests, slots := [], [], [], [];
    var owners: seq<Owner> := [];
    LedgerStart(heap.Contents());
    RunNone(heap.blocks);
    OwnersNone();
    UndisturbedAtFirst(heap.ctx.vmm.ram, heap.ctx.vmm.pd, heap.ctx.vmm.managed, heap.ctx.start, heap.ctx.brk + WSIZE);
    assert calls[..0] == [];
    for i := 0 to |calls|
      invariant heap.Valid() && heap.blocks == Run(old(heap.blocks), requests)
      invariant |requests| == i && forall j | 0 <= j < i :: Asks(calls[j], requests[j])
      invariant |granted| == i && Pointers(heap, live, slots) && owners == Owners(calls[..i], granted)
      invariant Ledger(old(heap.Contents()), heap.Contents(), slots, owners)
      invariant heap.ctx.vmm.managed == old(heap.ctx.vmm.managed) && heap.ctx.brk >= old(heap.ctx.brk)
      invariant Undisturbed(old(heap.ctx.vmm.ram), heap.ctx.vmm.ram, heap.ctx.vmm.pd, heap.ctx.vmm.managed,
                            heap.ctx.start, heap.ctx.brk + WSIZE)
    {
      ghost var ram, top := heap.ctx.vmm.ram, heap.ctx.brk + WSIZE;
      assert calls[i] in calls;
      ghost var request;
      var g;
      live, g, request, slots := Serve(heap, calls[i], old(heap.Contents()), live, owners, slots);
      OwnersStep(calls, i, granted, g);
      owners := Known(owners, calls[i], g);
      RunOneMore(old(heap.blocks), requests, request);
      granted, requests := granted + [g], requests + [request];
      UndisturbedOutside(old(heap.ctx.vmm.ram), ram, heap.ctx.vmm.pd, heap.ctx.vmm.managed, heap.ctx.start, top,
        heap.ctx.start, heap.ctx.brk + WSIZE);
      UndisturbedTwice(old(heap.ctx.vmm.ram), ram, heap.ctx.vmm.ram, heap.ctx.vmm.pd, heap.ctx.vmm.managed,
        heap.ctx.start, heap.ctx.brk + WSIZE);
    }
    assert calls[..|calls|] == calls;
    if old(heap.Contents()) == map[] && live == [] && old(|heap.words|) > 2 {
      LedgerClosed(heap.Contents(), Owners(calls, granted));
      RunWellFormed(old(heap.blocks), requests);
      DrainedHeap(heap.words, heap.blocks);
    }
  }

  /** One call of a session. */
  method Serve(heap: Heap, c: Call, ghost before: map<nat, seq<Word>>, live: seq<Word>, owners: seq<Owner>,
               ghost slots: seq<nat>)
    returns (live': seq<Word>, granted: bool, ghost request: Request, ghost slots': seq<nat>)
    requires heap.Valid() && (c.Allocate? ==> c.size <= 0xFFFF_FFF4)
    requires Pointers(heap, live, slots) && Ledger(before, heap.Contents(), slots, owners)
    modifies heap`words, heap`blocks, heap.ctx`brk, heap.ctx.vmm`ram, heap.ctx.vmm`managed
    modifies heap.ctx.vmm.pmm`lookup, heap.ctx.vmm.pmm`free, heap.ctx.vmm.pmm.bits
    ensures heap.Valid() && heap.blocks == Step(old(heap.blocks), request) && Asks(c, request)
    ensures Pointers(heap, live', slots') && Ledger(before, heap.Contents(), slots', Known(owners, c, granted))
    ensures heap.ctx.vmm.managed == old(heap.ctx.vmm.managed) && heap.ctx.brk >= old(heap.ctx.brk)
    ensures Undisturbed(old(heap.ctx.vmm.ram), heap.ctx.vmm.ram, heap.ctx.vmm.pd, heap.ctx.vmm.managed, heap.ctx.start,
                        heap.ctx.brk + WSIZE)
  {
    hide Heap.Mem, WellFormed, Encodes, Total, Live, Step, Apart, OnePayloadMore, PlacedFirstFit, PlacedByGrowth,
      AnyFit, RequestWords, Undisturbed, Heap.Slot, Heap.At, BreakMoves, Release, Holds, Pointers, Ledger, Known;
    UndisturbedAtFirst(heap.ctx.vmm.ram, heap.ctx.vmm.pd, heap.ctx.vmm.managed, heap.ctx.start, heap.ctx.brk + WSIZE);
    ghost var blocks, contents, h := heap.blocks, heap.Contents(), heap.words;
    live', granted, slots' := live, false, slots;
    request := Free(0);
    FreeOfNothing(blocks);
    LedgerSizes(before, contents, slots, owners);
    SameLength(heap, live, slots);
    NothingDone(owners, c);
    match c {
      case Allocate(size) =>
        request := Malloc(RequestWords(size), heap.CanGrow(RequestWords(size)));
        var p := heap.LxMalloc(size);
        granted := p != 0;
        if granted {
          LedgerMalloc(before, contents, heap.Contents(), slots, owners, heap.Slot(p), size);
          PointersMore(heap, live, slots, p);
          live', slots' := live + [p], slots + [heap.Slot(p)];
        }
      case GiveBack(k) =>
        if k < |live| {
          LedgerFree(before, contents, slots, owners, k);
          PointersLess(heap, live, slots, k);
          heap.LxFree(live[k]);
          ghost var b: nat :| IsBlockAt(blocks, b, slots[k]) && heap.blocks == Release(blocks, b);
          FreeIsStep(h, blocks, heap.blocks, b, slots[k]);
          request := Free(b);
          live', slots' := live[..k] + live[k + 1..], slots[..k] + slots[k + 1..];
        }
      case Write(k, j, w) =>
        if k < |live| && 4 * j + 4 <= owners[k].size {
          LedgerWrite(before, contents, slots, owners, k, j, w);
          PointersLess(heap, live, slots, k);
          heap.StorePayload(live[k], j, w);
        }
    }
  }

  lemma OwnersNone()
    ensures Owners([], []) == []
  {
  }

  lemma RunNone(blocks: seq<Block>)
    ensures Run(blocks, []) == blocks
  {
  }

  lemma FreeOfNothing(blocks: seq<Block>)
    ensures Step(blocks, Free(0)) == blocks
  {
  }

  lemma LedgerClosed(now: map<nat, seq<Word>>, owners: seq<Owner>)
    requires Ledger(map[], now, [], owners)
    ensures now == map[]
  {
  }

  /** lxfree of what lxmalloc has just returned: the block list is restored when some block was large enough. */
  method AllocateAndGiveBack(heap: Heap, size: Word) returns (p: Word)
    requires heap.Valid() && size <= 0xFFFF_FFF4
    modifies heap`words, heap`blocks, heap.ctx`brk, heap.ctx.vmm`ram, heap.ctx.vmm`managed
    modifies heap.ctx.vmm.pmm`lookup, heap.ctx.vmm.pmm`free, heap.ctx.vmm.pmm.bits
    ensures heap.Valid() && heap.Contents() == old(heap.Contents())
    ensures size > 0 && AnyFit(old(heap.blocks), RequestWords(size)) ==> p != 0 && heap.blocks == old(heap.blocks)
  {
    hide Heap.Mem, WellFormed, Encodes, Total, Live, Step, Apart, PlacedFirstFit, PlacedByGrowth, AnyFit, RequestWords,
      Undisturbed, Heap.Slot, Heap.At, BreakMoves, Release;
    ghost var before := heap.blocks;
    p := heap.LxMalloc(size);
    ghost var placed := heap.blocks;
    if p != 0 {
      heap.LxFree(p);
      ghost var b: nat :| IsBlockAt(placed, b, heap.Slot(p)) && heap.blocks == Release(placed, b);
      if AnyFit(before, RequestWords(size)) {
        RequestIsLargeEnough(size);
        FreeUndoesMalloc(before, placed, heap.blocks, RequestWords(size), heap.Slot(p), b);
      }
    }
  }

  /** Two requests, the first of which makes the heap grow by n words. Unless that leaves the epilogue at the end of
      its page, both are served exactly when the heap can grow by n words, and either some block is then large enough
      for the other m words or the heap could have grown by n + m words at once. */
  method GrowTwice(heap: Heap, first: Word, second: Word) returns (p: Word, q: Word)
    requires heap.Valid() && 0 < first <= 0xFFFF_FFF4 && 0 < second <= 0xFFFF_FFF4
    requires !AnyFit(heap.blocks, RequestWords(first))
    requires (heap.ctx.brk + 4 * RequestWords(first) + WSIZE) % 4096 != 0
    modifies heap`words, heap`blocks, heap.ctx`brk, heap.ctx.vmm`ram, heap.ctx.vmm`managed
    modifies heap.ctx.vmm.pmm`lookup, heap.ctx.vmm.pmm`free, heap.ctx.vmm.pmm.bits
    ensures heap.Valid()
    ensures var n, m := RequestWords(first), RequestWords(second);
      p != 0 && q != 0 <==>
        old(heap.CanGrow(n)) &&
        (AnyFit(Step(old(heap.blocks), Malloc(n, true)), m) || old(heap.CanGrow(n + m)))
  {
    hide Heap.Mem, WellFormed, Encodes, Total, Live, Step, Apart, PlacedFirstFit, PlacedByGrowth, AnyFit, RequestWords,
      Undisturbed, Heap.Slot, Heap.At, BreakMoves, Spent, OnePayloadMore, Tabled, Mappings, Heap.Valid, CanBackAll;
    ghost var a, brk, n, m := heap.ctx.vmm.Budget(), heap.ctx.brk, RequestWords(first), RequestWords(second);
    RequestIsLargeEnough(first);
    RequestIsLargeEnough(second);
    BreakIsAligned(heap);
    p := heap.LxMalloc(first);
    q := 0;
    if p != 0 {
      GrowthInTwo(a, brk, n, m, heap.ctx.maxAddr);
      GrowthAtOnce(a, brk, n + m, heap.ctx.maxAddr);
      q := heap.LxMalloc(second);
    }
  }

  lemma BreakIsAligned(heap: Heap)
    requires heap.Valid()
    ensures heap.ctx.brk % 4 == 0
  {
    hide Encodes, WellFormed, Total, Vmm.Valid, HeapContext.Covered, HeapContext.Words;
    heap.AddressesFit();
    assert heap.ctx.brk == 4 * (heap.ctx.start / 4 + |heap.words| - 1);
  }

  /** A reachable dead end: on the heap that kalloc_init leaves, one request of 8180 bytes that makes the heap grow puts
      the epilogue at the end of its page. The next request that needs growth fails, and so does every later one. */
  method GrowthEnds(heap: Heap) returns (p: Word, q: Word)
    requires heap.Valid() && heap.ctx.brk == heap.ctx.start + WSIZE + HEAP_INIT_SIZE
    requires heap.blocks == [Block(1, false), Block(HEAP_INIT_SIZE / 4, true)] && heap.CanGrow(2046)
    modifies heap`words, heap`blocks, heap.ctx`brk, heap.ctx.vmm`ram, heap.ctx.vmm`managed
    modifies heap.ctx.vmm.pmm`lookup, heap.ctx.vmm.pmm`free, heap.ctx.vmm.pmm.bits
    ensures heap.Valid() && p != 0 && q == 0 && heap.BreakAtBoundary(heap.ctx.brk)
  {
    hide Heap.Mem, WellFormed, Encodes, Total, Live, Apart, PlacedFirstFit, PlacedByGrowth, OnePayloadMore, Undisturbed,
      Heap.Slot, Heap.At, BreakMoves;
    DeadEndLayout(heap.CanGrow(2046));
    assert RequestWords(8180) == 2046;
    hide Step, AnyFit, RequestWords;
    heap.StartIsPage();
    Boundary(heap.ctx.start);
    p := heap.LxMalloc(8180);
    q := heap.LxMalloc(8180);
  }

  lemma Boundary(start: Word)
    requires start % 4096 == 0
    ensures (start + 4 + 4096 + 4 * 2046 + 4) % 4096 == 0
  {
  }

  lemma DeadEndLayout(breakMoves: bool)
    ensures var blocks := [Block(1, false), Block(1024, true)];
      !AnyFit(blocks, 2046) &&
      (breakMoves ==>
        Step(blocks, Malloc(2046, breakMoves)) == [Block(1, false), Block(2046, false), Block(1024, true)])
    ensures !AnyFit([Block(1, false), Block(2046, false), Block(1024, true)], 2046)
  {
    var blocks := [Block(1, false), Block(1024, true)];
    assert FirstFitFrom(blocks, 2046, 0) == |blocks|;
    assert Grow(blocks, 2046) == [Block(1, false), Block(3070, true)];
  }
}
