/** The block structure that the words of the kernel heap encode: kernel/mm/kalloc.c with the header macros of
    includes/awa/mm/dmm.h, seen as a list of blocks. Positions and lengths count 4-byte words. */
module HeapLayout {
  import opened Words

  datatype Block = Block(len: nat, free: bool)

  // ---------------------------------------------------------------- headers

  /** PACK(size, flags) for a block of len words. */
  function Header(len: nat, prevFree: bool, taken: bool): nat {
    4 * len + (if prevFree then 2 else 0) + (if taken then 1 else 0)
  }

  /** CHUNK_S, in bytes. */
  function ChunkSize(header: Word): Word {
    header - header % 4
  }

  /** CHUNK_PF != 0. */
  predicate ChunkPf(header: Word) {
    header / 2 % 2 == 1
  }

  /** CHUNK_A != 0. */
  predicate ChunkA(header: Word) {
    header % 2 == 1
  }

  /** `header & ~M_ALLOCATED`. */
  function ClearA(header: Word): Word {
    header - header % 2
  }

  /** `header | M_PREV_FREE`. */
  function SetPf(header: Word): (r: Word) {
    if ChunkPf(header) then header else Wrap(header + 2)
  }

  /** `header & ~0x2`. */
  function ClearPf(header: Word): Word {
    if ChunkPf(header) then header - 2 else header
  }

  /** PACK on a byte size. */
  function Pack(size: Word, prevFree: bool, taken: bool): Word
  {
    ChunkSize(size) + (if prevFree then 2 else 0) + (if taken then 1 else 0)
  }

  /** The bits of a header: the size above, PREV_FREE in bit 1, ALLOCATED in bit 0. */
  lemma HeaderBits(len: nat, pf: bool, a: bool)
    ensures var h := Header(len, pf, a);
      h == 4 * len + (if pf then 2 else 0) + (if a then 1 else 0) &&
      h % 2 == (if a then 1 else 0) && h / 2 % 2 == (if pf then 1 else 0) &&
      h % 4 == (if pf then 2 else 0) + (if a then 1 else 0)
  {
    var b, c := if pf then 1 else 0, if a then 1 else 0;
    Halves(2 * len + b, c);
    Halves(len, b);
    Quarters(len, 2 * b + c);
  }

  lemma Halves(q: nat, r: nat)
    requires r < 2
    ensures (2 * q + r) / 2 == q && (2 * q + r) % 2 == r
  {
  }

  lemma Quarters(q: nat, r: nat)
    requires r < 4
    ensures (4 * q + r) % 4 == r
  {
  }

  lemma HeaderFields(len: nat, pf: bool, a: bool)
    requires 4 * len + 3 < 0x1_0000_0000
    ensures var h := Header(len, pf, a);
            ChunkSize(h) == 4 * len && ChunkPf(h) == pf && ChunkA(h) == a &&
            ClearA(h) == Header(len, pf, false) && SetPf(h) == Header(len, true, a) &&
            ClearPf(h) == Header(len, false, a) && Pack(4 * len, pf, a) == h
  {
    HeaderBits(len, pf, a);
    Quarters(len, 0);
    SmallWord(Header(len, true, a));
    hide Wrap;
  }

  lemma SmallWord(w: nat)
    requires w < 0x1_0000_0000
    ensures Wrap(w) == w
  {
  }

  // ---------------------------------------------------------------- block lists

  function Total(blocks: seq<Block>): nat {
    if blocks == [] then 0 else blocks[0].len + Total(blocks[1..])
  }

  /** Whether the block before position |blocks| is free, `pf` being the answer for an empty list. */
  function EndsFree(pf: bool, blocks: seq<Block>): bool {
    if blocks == [] then pf else blocks[|blocks| - 1].free
  }

  /** No block is empty and no two free blocks are adjacent; `pf` says whether a free block comes before. */
  ghost predicate Separated(pf: bool, blocks: seq<Block>)
    decreases |blocks|
  {
    blocks != [] ==>
      blocks[0].len >= 1 && !(pf && blocks[0].free) && Separated(blocks[0].free, blocks[1..])
  }

  /** Block b between the lists a and r. */
  function Around(a: seq<Block>, b: Block, r: seq<Block>): seq<Block> {
    a + ([b] + r)
  }

  lemma {:induction false} TotalSplit(a: seq<Block>, b: seq<Block>)
    ensures Total(a + b) == Total(a) + Total(b)
  {
    if a == [] {
      assert a + b == b;
    } else {
      assert (a + b)[1..] == a[1..] + b;
      TotalSplit(a[1..], b);
    }
  }

  lemma {:induction false} SeparatedSplit(pf: bool, a: seq<Block>, b: seq<Block>)
    ensures Separated(pf, a + b) <==> Separated(pf, a) && Separated(EndsFree(pf, a), b)
    decreases |a|
  {
    if a == [] {
      assert a + b == b;
    } else {
      assert (a + b)[1..] == a[1..] + b;
      SeparatedSplit(a[0].free, a[1..], b);
    }
  }

  /** The shape of the heap: the prologue, then separated blocks; an allocated one has room for a header and at
      least one word. */
  ghost predicate WellFormed(blocks: seq<Block>) {
    Shaped(blocks) && Separated(false, blocks)
  }

  predicate Shaped(blocks: seq<Block>) {
    |blocks| >= 1 && blocks[0] == Block(1, false) &&
    forall i | 1 <= i < |blocks| :: blocks[i].free || blocks[i].len >= 2
  }

  predicate Roomy(blocks: seq<Block>) {
    forall i | 0 <= i < |blocks| :: blocks[i].free || blocks[i].len >= 2
  }

  // ---------------------------------------------------------------- encoding

  /** Words h from position `at` on hold these blocks: every header is exact, a free block ends in a copy of its
      header. */
  ghost predicate Segment(h: seq<Word>, at: nat, pf: bool, blocks: seq<Block>)
    decreases |blocks|
  {
    blocks != [] ==>
      var b := blocks[0];
      b.len >= 1 && at + b.len <= |h| && h[at] == Header(b.len, pf, !b.free) &&
      (b.free ==> h[at + b.len - 1] == h[at]) && Segment(h, at + b.len, b.free, blocks[1..])
  }

  /** ... and after them stands the epilogue, a zero-sized allocated header. */
  ghost predicate Encodes(h: seq<Word>, at: nat, pf: bool, blocks: seq<Block>) {
    var end := at + Total(blocks);
    Segment(h, at, pf, blocks) && end < |h| && h[end] == Header(0, EndsFree(pf, blocks), true)
  }

  lemma {:induction false} SegmentSplit(h: seq<Word>, at: nat, pf: bool, a: seq<Block>, b: seq<Block>)
    ensures Segment(h, at, pf, a + b) <==> Segment(h, at, pf, a) && Segment(h, at + Total(a), EndsFree(pf, a), b)
    decreases |a|
  {
    if a == [] {
      assert a + b == b;
    } else {
      assert (a + b)[1..] == a[1..] + b;
      SegmentSplit(h, at + a[0].len, a[0].free, a[1..], b);
    }
  }

  lemma EncodesSplit(h: seq<Word>, at: nat, pf: bool, a: seq<Block>, b: seq<Block>)
    ensures Encodes(h, at, pf, a + b) <==> Segment(h, at, pf, a) && Encodes(h, at + Total(a), EndsFree(pf, a), b)
  {
    SegmentSplit(h, at, pf, a, b);
    TotalSplit(a, b);
    if b == [] {
      assert a + b == a;
    }
  }

  /** A segment depends on its own words only. */
  lemma {:induction false} SegmentFrame(h: seq<Word>, h': seq<Word>, at: nat, pf: bool, blocks: seq<Block>)
    requires Segment(h, at, pf, blocks) && at + Total(blocks) <= |h| && at + Total(blocks) <= |h'|
    requires forall k | at <= k < at + Total(blocks) :: h'[k] == h[k]
    ensures Segment(h', at, pf, blocks)
    decreases |blocks|
  {
    if blocks != [] {
      SegmentFrame(h, h', at + blocks[0].len, blocks[0].free, blocks[1..]);
    }
  }

  lemma {:induction false} SegmentFits(h: seq<Word>, at: nat, pf: bool, blocks: seq<Block>)
    requires Segment(h, at, pf, blocks) && at <= |h|
    ensures at + Total(blocks) <= |h|
    decreases |blocks|
  {
    if blocks != [] {
      SegmentFits(h, at + blocks[0].len, blocks[0].free, blocks[1..]);
    }
  }

  /** The first header of the tail, or the epilogue. */
  function FirstHeader(pf: bool, blocks: seq<Block>): nat {
    if blocks == [] then Header(0, pf, true) else Header(blocks[0].len, pf, !blocks[0].free)
  }

  lemma EncodesStarts(h: seq<Word>, at: nat, pf: bool, blocks: seq<Block>)
    requires Encodes(h, at, pf, blocks)
    ensures at < |h| && h[at] == FirstHeader(pf, blocks)
  {
    SegmentFits(h, at, pf, blocks);
  }

  /** Switching PREV_FREE in the first header after a block that was freed or taken. */
  lemma EncodesAfterFlag(h: seq<Word>, h': seq<Word>, at: nat, pf: bool, pf': bool, blocks: seq<Block>)
    requires Encodes(h, at, pf, blocks) && (blocks == [] || !blocks[0].free)
    requires |h'| == |h| && h'[at] == FirstHeader(pf', blocks)
    requires forall k | at < k <= at + Total(blocks) :: h'[k] == h[k]
    ensures Encodes(h', at, pf', blocks)
  {
    if blocks != [] {
      SegmentFrame(h, h', at + blocks[0].len, blocks[0].free, blocks[1..]);
    }
  }

  // ---------------------------------------------------------------- payloads

  /** What the owners of the allocated blocks see: for each, keyed by its first payload position, its words.
      The prologue has no payload. */
  ghost function Payloads(h: seq<Word>, at: nat, blocks: seq<Block>): map<nat, seq<Word>>
    requires at + Total(blocks) <= |h|
    decreases |blocks|
  {
    if blocks == [] then map[]
    else
      var rest := Payloads(h, at + blocks[0].len, blocks[1..]);
      if blocks[0].free || blocks[0].len < 2 then rest else rest[at + 1 := h[at + 1..at + blocks[0].len]]
  }

  lemma {:induction false} PayloadKeys(h: seq<Word>, at: nat, blocks: seq<Block>)
    requires at + Total(blocks) <= |h|
    ensures forall k | k in Payloads(h, at, blocks) :: at < k < at + Total(blocks)
    decreases |blocks|
  {
    if blocks != [] {
      PayloadKeys(h, at + blocks[0].len, blocks[1..]);
    }
  }

  lemma {:induction false} PayloadsSplit(h: seq<Word>, at: nat, a: seq<Block>, b: seq<Block>)
    requires at + Total(a) + Total(b) <= |h|
    ensures Total(a + b) == Total(a) + Total(b)
    ensures Payloads(h, at, a + b) == Payloads(h, at, a) + Payloads(h, at + Total(a), b)
    decreases |a|
  {
    TotalSplit(a, b);
    if a == [] {
      assert a + b == b;
    } else {
      assert (a + b)[1..] == a[1..] + b;
      HeadTotal(a);
      hide Payloads, Total;
      PayloadsSplit(h, at + a[0].len, a[1..], b);
      HeadUnion(h, at, a, b);
    }
  }

  lemma HeadUnion(h: seq<Word>, at: nat, a: seq<Block>, b: seq<Block>)
    requires a != [] && at + Total(a) + Total(b) <= |h| && Total(a + b) == Total(a) + Total(b)
    requires Total(a) == a[0].len + Total(a[1..]) && Total(a[1..] + b) == Total(a[1..]) + Total(b)
    requires Payloads(h, at + a[0].len, a[1..] + b) ==
             Payloads(h, at + a[0].len, a[1..]) + Payloads(h, at + Total(a), b)
    ensures Payloads(h, at, a + b) == Payloads(h, at, a) + Payloads(h, at + Total(a), b)
  {
    hide Payloads, Total;
    assert (a + b)[1..] == a[1..] + b;
    PayloadsOfHead(h, at, a);
    PayloadsOfHead(h, at, a + b);
    PayloadKeys(h, at + Total(a), b);
    if !a[0].free && a[0].len >= 2 {
      PutBeforeUnion(Payloads(h, at + a[0].len, a[1..]), Payloads(h, at + Total(a), b), at + 1,
        h[at + 1..at + a[0].len]);
    }
  }

  lemma HeadTotal(blocks: seq<Block>)
    requires blocks != []
    ensures Total(blocks) == blocks[0].len + Total(blocks[1..])
  {
  }

  lemma PayloadsOfHead(h: seq<Word>, at: nat, blocks: seq<Block>)
    requires at + Total(blocks) <= |h| && blocks != []
    ensures at + blocks[0].len + Total(blocks[1..]) <= |h|
    ensures var b, rest := blocks[0], Payloads(h, at + blocks[0].len, blocks[1..]);
      Payloads(h, at, blocks) == if b.free || b.len < 2 then rest else rest[at + 1 := h[at + 1..at + b.len]]
  {
  }

  lemma PutBeforeUnion<K, V>(m: map<K, V>, n: map<K, V>, k: K, v: V)
    ensures k !in n ==> m[k := v] + n == (m + n)[k := v]
  {
  }

  lemma {:induction false} PayloadsFrame(h: seq<Word>, h': seq<Word>, at: nat, blocks: seq<Block>)
    requires at + Total(blocks) <= |h| && at + Total(blocks) <= |h'|
    requires forall k | at < k < at + Total(blocks) :: h'[k] == h[k]
    ensures Payloads(h', at, blocks) == Payloads(h, at, blocks)
    decreases |blocks|
  {
    if blocks != [] {
      if blocks[0].len >= 2 {
        assert h'[at + 1..at + blocks[0].len] == h[at + 1..at + blocks[0].len];
      }
      PayloadsFrame(h, h', at + blocks[0].len, blocks[1..]);
    }
  }

  // ---------------------------------------------------------------- operations on layouts

  /** The list without its last block if that one is free, and the length so removed. */
  function Front(a: seq<Block>): seq<Block> {
    if EndsFree(false, a) then a[..|a| - 1] else a
  }

  function FrontFree(a: seq<Block>): nat {
    if EndsFree(false, a) then a[|a| - 1].len else 0
  }

  predicate StartsFree(r: seq<Block>) {
    r != [] && r[0].free
  }

  function Rear(r: seq<Block>): seq<Block> {
    if StartsFree(r) then r[1..] else r
  }

  function RearFree(r: seq<Block>): nat {
    if StartsFree(r) then r[0].len else 0
  }

  function MergedLen(a: seq<Block>, len: nat, r: seq<Block>): nat {
    FrontFree(a) + len + RearFree(r)
  }

  /** A free block of `len` words between `a` and `r`, merged with its free neighbours: coalesce. */
  function Merge(a: seq<Block>, len: nat, r: seq<Block>): seq<Block> {
    Around(Front(a), Block(MergedLen(a, len, r), true), Rear(r))
  }

  /** place_chunk on free block i for a request of n words. */
  function Place(blocks: seq<Block>, i: nat, n: nat): seq<Block>
    requires i < |blocks| && n <= blocks[i].len
  {
    var rest := blocks[i + 1..];
    Around(blocks[..i], Block(n, false), if n < blocks[i].len then [Block(blocks[i].len - n, true)] + rest else rest)
  }

  /** lxfree on block i. */
  function Release(blocks: seq<Block>, i: nat): seq<Block>
    requires i < |blocks|
  {
    Merge(blocks[..i], blocks[i].len, blocks[i + 1..])
  }

  /** lx_grow_heap by n words. */
  function Grow(blocks: seq<Block>, n: nat): seq<Block> {
    Merge(blocks, n, [])
  }

  predicate Fits(b: Block, n: nat) {
    b.free && b.len >= n
  }

  // ---------------------------------------------------------------- coalesce, on words

  /** What coalesce expects: `a` stands before a free block of len words with header and footer, the next header
      already carries PREV_FREE. When the next block is free its footer may be out of date. */
  ghost predicate BeforeCoalesce(h: seq<Word>, a: seq<Block>, len: nat, r: seq<Block>) {
    var at := Total(a); var next := at + len;
    len >= 1 && Segment(h, 0, false, a) && Separated(false, a) && Separated(false, r) &&
    next + Total(r) < |h| && h[at] == Header(len, EndsFree(false, a), false) && h[next - 1] == h[at] &&
    h[next] == FirstHeader(true, r) && Encodes(h, next + RearFree(r), true, Rear(r))
  }

  lemma SingleBlock(h: seq<Word>, at: nat, pf: bool, b: Block)
    ensures Total([b]) == b.len && EndsFree(pf, [b]) == b.free
    ensures Segment(h, at, pf, [b]) <==>
      b.len >= 1 && at + b.len <= |h| && h[at] == Header(b.len, pf, !b.free) && (b.free ==> h[at + b.len - 1] == h[at])
    ensures Separated(pf, [b]) <==> b.len >= 1 && !(pf && b.free)
  {
  }

  lemma FrontSegment(h: seq<Word>, a: seq<Block>)
    requires Segment(h, 0, false, a) && Separated(false, a)
    ensures var s := Total(Front(a));
      Total(a) == s + FrontFree(a) && Segment(h, 0, false, Front(a)) && Separated(false, Front(a)) &&
      !EndsFree(false, Front(a)) &&
      (EndsFree(false, a) ==>
        FrontFree(a) >= 1 && Total(a) <= |h| && h[s] == Header(FrontFree(a), false, false) && h[Total(a) - 1] == h[s])
  {
    hide Segment, Separated, Header, Total;
    if EndsFree(false, a) {
      var b := a[|a| - 1];
      assert a == Front(a) + [b];
      SegmentSplit(h, 0, false, Front(a), [b]);
      TotalSplit(Front(a), [b]);
      SeparatedSplit(false, Front(a), [b]);
      SingleBlock(h, Total(Front(a)), EndsFree(false, Front(a)), b);
    }
  }

  /** The result of coalesce: one header and one footer make the merged list exact. */
  lemma CoalesceEncodes(h: seq<Word>, h': seq<Word>, a: seq<Block>, len: nat, r: seq<Block>)
    requires BeforeCoalesce(h, a, len, r) && |h'| == |h|
    requires var s := Total(Front(a)); var e := s + MergedLen(a, len, r);
      e <= |h| && h'[s] == Header(MergedLen(a, len, r), false, false) && h'[e - 1] == h'[s] &&
      forall k | 0 <= k < |h| && k != s && k != e - 1 :: h'[k] == h[k]
    ensures Encodes(h', 0, false, Merge(a, len, r))
  {
    var s, n := Total(Front(a)), MergedLen(a, len, r);
    var m := Block(n, true);
    hide Segment, Separated, Header, Total, FirstHeader;
    FrontSegment(h, a);
    SegmentFrame(h, h', 0, false, Front(a));
    SegmentFrame(h, h', s + n, true, Rear(r));
    SingleBlock(h', s, false, m);
    EncodesSplit(h', s, false, [m], Rear(r));
    EncodesSplit(h', 0, false, Front(a), [m] + Rear(r));
  }

  /** The words outside [s, e) are the same in h' as in h. */
  ghost predicate Untouched(h: seq<Word>, h': seq<Word>, s: nat, e: nat) {
    |h'| == |h| && forall k | 0 <= k < |h| && (k < s || k >= e) :: h'[k] == h[k]
  }

  /** What coalesce reads, and what it will write. */
  lemma CoalesceSizes(h: seq<Word>, a: seq<Block>, len: nat, r: seq<Block>)
    requires BeforeCoalesce(h, a, len, r)
    ensures MergedLen(a, len, r) == FrontFree(a) + len + RearFree(r)
    ensures len >= 1 && Total(a) == Total(Front(a)) + FrontFree(a) && Total(a) + len + RearFree(r) < |h|
    ensures !StartsFree(r) ==> RearFree(r) == 0
    ensures if EndsFree(false, a) then FrontFree(a) >= 1 else FrontFree(a) == 0
  {
    FrontSegment(h, a);
    RearPayloads(h, Total(a) + len, r);
  }

  lemma CoalesceOwnHeader(h: seq<Word>, a: seq<Block>, len: nat, r: seq<Block>)
    requires BeforeCoalesce(h, a, len, r) && 4 * |h| < 0x1_0000_0000
    ensures var hdr := h[Total(a)]; ChunkSize(hdr) == 4 * len && ChunkPf(hdr) == EndsFree(false, a)
  {
    hide Segment, Separated, Encodes, ChunkSize, ChunkPf, ChunkA, Pack, Total, Header;
    HeaderFields(len, EndsFree(false, a), false);
  }

  lemma CoalesceNextHeader(h: seq<Word>, a: seq<Block>, len: nat, r: seq<Block>)
    requires BeforeCoalesce(h, a, len, r) && 4 * |h| < 0x1_0000_0000
    ensures var nHdr := h[Total(a) + len];
      ChunkA(nHdr) == !StartsFree(r) && (StartsFree(r) ==> ChunkSize(nHdr) == 4 * RearFree(r))
  {
    hide Segment, Separated, Encodes, ChunkSize, ChunkPf, ChunkA, Pack, Total, Header;
    CoalesceSizes(h, a, len, r);
    if r == [] {
      HeaderFields(0, true, true);
    } else {
      FirstBlockFits(r);
      HeaderFields(r[0].len, true, !r[0].free);
    }
  }

  lemma FirstBlockFits(r: seq<Block>)
    requires r != []
    ensures r[0].len <= Total(r)
  {
  }

  lemma CoalescePrevFooter(h: seq<Word>, a: seq<Block>, len: nat, r: seq<Block>)
    requires BeforeCoalesce(h, a, len, r) && 4 * |h| < 0x1_0000_0000 && EndsFree(false, a)
    ensures Total(a) >= 1 && ChunkSize(h[Total(a) - 1]) == 4 * FrontFree(a) && !ChunkPf(h[Total(a) - 1])
  {
    FrontSegment(h, a);
    hide Segment, Separated, Encodes, ChunkSize, ChunkPf, ChunkA, Pack, Total, Header;
    HeaderFields(FrontFree(a), false, false);
  }

  lemma CoalesceStamped(h: seq<Word>, a: seq<Block>, len: nat, r: seq<Block>)
    requires BeforeCoalesce(h, a, len, r) && 4 * |h| < 0x1_0000_0000
    ensures var s := Total(Front(a)); var n := MergedLen(a, len, r); var hdr := Header(n, false, false);
      s + n < |h| && n >= 1 && hdr < 0x1_0000_0000 && Pack(4 * n, false, false) == hdr &&
      var h' := h[s := hdr][s + n - 1 := hdr];
      Encodes(h', 0, false, Merge(a, len, r)) && Untouched(h, h', s, s + n)
  {
    hide Segment, Separated, Encodes, Total, Header, BeforeCoalesce, Pack;
    CoalesceSizes(h, a, len, r);
    var s, n := Total(Front(a)), MergedLen(a, len, r);
    HeaderFields(n, false, false);
    var hdr := Header(n, false, false);
    CoalesceEncodes(h, h[s := hdr][s + n - 1 := hdr], a, len, r);
  }

  lemma CoalesceNothing(h: seq<Word>, a: seq<Block>, len: nat, r: seq<Block>)
    requires BeforeCoalesce(h, a, len, r) && !EndsFree(false, a) && !StartsFree(r)
    ensures Encodes(h, 0, false, Merge(a, len, r)) && Untouched(h, h, Total(a), Total(a) + len)
    ensures Front(a) == a && MergedLen(a, len, r) == len
  {
    hide Segment, Separated, Encodes, Total, Header;
    CoalesceEncodes(h, h, a, len, r);
  }

  // ---------------------------------------------------------------- the steps before coalesce, on words

  /** The three stores of lxfree, on allocated block b between a and r. */
  ghost function FreeStores(h: seq<Word>, a: seq<Block>, b: Block, r: seq<Block>): seq<Word>
    requires var at := Total(a); b.len >= 1 && at + b.len < |h| && 4 * b.len + 3 < 0x1_0000_0000
    requires FirstHeader(true, r) < 0x1_0000_0000
  {
    var at := Total(a); var hdr := Header(b.len, EndsFree(false, a), false);
    h[at := hdr][at + b.len - 1 := hdr][at + b.len := FirstHeader(true, r)]
  }

  lemma FreeStoresReady(h: seq<Word>, a: seq<Block>, b: Block, r: seq<Block>)
    requires Encodes(h, 0, false, Around(a, b, r)) && Separated(false, Around(a, b, r)) && !b.free
    requires Total(a) + b.len < |h| && 4 * b.len + 3 < 0x1_0000_0000 && FirstHeader(true, r) < 0x1_0000_0000
    ensures b.len >= 1 && BeforeCoalesce(FreeStores(h, a, b, r), a, b.len, r)
  {
    hide Header, FirstHeader, FreeStores;
    Parts(h, a, b, r);
    FreeStoresWords(h, a, b, r);
    var h' := FreeStores(h, a, b, r);
    var next := Total(a) + b.len;
    SegmentFrame(h, h', 0, false, a);
    EncodesStarts(h, next, false, r);
    if StartsFree(r) {
      TailAfterFirst(h, h', next, false, r);
    } else {
      EncodesAfterFlag(h, h', next, false, true, r);
    }
  }

  lemma FreeStoresAre(h: seq<Word>, a: seq<Block>, b: Block, r: seq<Block>)
    requires b.len >= 1 && Total(a) + b.len < |h| && 4 * b.len + 3 < 0x1_0000_0000 &&
      FirstHeader(true, r) < 0x1_0000_0000
    ensures var at := Total(a); var hdr := Header(b.len, EndsFree(false, a), false);
      hdr < 0x1_0000_0000 &&
      FreeStores(h, a, b, r) == h[at := hdr][at + b.len - 1 := hdr][at + b.len := FirstHeader(true, r)]
  {
  }

  /** What lxfree reads, and what it will write. */
  lemma FreeView(h: seq<Word>, a: seq<Block>, b: Block, r: seq<Block>)
    requires Encodes(h, 0, false, Around(a, b, r)) && Separated(false, Around(a, b, r)) && !b.free
    requires 4 * |h| < 0x1_0000_0000
    ensures Total(a) + b.len < |h| && ChunkSize(h[Total(a)]) == 4 * b.len
    ensures ClearA(h[Total(a)]) == Header(b.len, EndsFree(false, a), false)
    ensures SetPf(h[Total(a) + b.len]) == FirstHeader(true, r)
  {
    hide Segment, Separated, Encodes, Total, Header, ChunkSize, ClearA, SetPf;
    Parts(h, a, b, r);
    EncodesStarts(h, Total(a) + b.len, false, r);
    HeaderFields(b.len, EndsFree(false, a), true);
    if r == [] {
      HeaderFields(0, false, true);
    } else {
      FirstBlockFits(r);
      HeaderFields(r[0].len, false, !r[0].free);
    }
  }

  lemma FreeStoresWords(h: seq<Word>, a: seq<Block>, b: Block, r: seq<Block>)
    requires b.len >= 1 && Total(a) + b.len < |h| && 4 * b.len + 3 < 0x1_0000_0000 &&
      FirstHeader(true, r) < 0x1_0000_0000
    ensures var h' := FreeStores(h, a, b, r); var at := Total(a);
      |h'| == |h| && h'[at] == Header(b.len, EndsFree(false, a), false) && h'[at + b.len - 1] == h'[at] &&
      h'[at + b.len] == FirstHeader(true, r) &&
      forall k | 0 <= k < |h| && (k < at || k > at + b.len) :: h'[k] == h[k]
  {
  }

  /** A layout taken apart around block b. */
  lemma Parts(h: seq<Word>, a: seq<Block>, b: Block, r: seq<Block>)
    requires Encodes(h, 0, false, Around(a, b, r)) && Separated(false, Around(a, b, r))
    ensures Segment(h, 0, false, a) && Separated(false, a) && Separated(b.free, r) && b.len >= 1
    ensures !(EndsFree(false, a) && b.free)
    ensures var at := Total(a);
      at + b.len + Total(r) < |h| && h[at] == Header(b.len, EndsFree(false, a), !b.free) &&
      (b.free ==> h[at + b.len - 1] == h[at]) && Encodes(h, at + b.len, b.free, r) &&
      Total(Around(a, b, r)) == at + b.len + Total(r)
  {
    hide Header, Segment, Separated, Total, EndsFree, Encodes;
    var t := [b] + r;
    EncodesSplit(h, 0, false, a, t);
    SeparatedSplit(false, a, t);
    TotalSplit(a, t);
    EncodesSplit(h, Total(a), EndsFree(false, a), [b], r);
    SeparatedSplit(EndsFree(false, a), [b], r);
    TotalSplit([b], r);
    SingleBlock(h, Total(a), EndsFree(false, a), b);
    EncodesFits(h, Total(a) + b.len, b.free, r);
  }

  lemma EncodesFits(h: seq<Word>, at: nat, pf: bool, blocks: seq<Block>)
    requires Encodes(h, at, pf, blocks)
    ensures at + Total(blocks) < |h|
  {
  }

  /** The blocks after a free first block do not depend on its own words. */
  lemma TailAfterFirst(h: seq<Word>, h': seq<Word>, at: nat, pf: bool, r: seq<Block>)
    requires Encodes(h, at, pf, r) && StartsFree(r) && |h'| == |h|
    requires forall k | at < k <= at + Total(r) :: h'[k] == h[k]
    ensures Encodes(h', at + r[0].len, true, r[1..])
  {
    assert r == [r[0]] + r[1..];
    EncodesSplit(h, at, pf, [r[0]], r[1..]);
    SingleBlock(h, at, pf, r[0]);
    TotalSplit([r[0]], r[1..]);
    SegmentFrame(h, h', at + r[0].len, true, r[1..]);
  }

  /** place_chunk when the block is used up: one header, and PREV_FREE cleared behind it. */
  lemma PlaceExactEncodes(h: seq<Word>, h': seq<Word>, a: seq<Block>, b: Block, r: seq<Block>)
    requires Encodes(h, 0, false, Around(a, b, r)) && Separated(false, Around(a, b, r)) && b.free && |h'| == |h|
    requires var at := Total(a);
      at + b.len < |h| && h'[at] == Header(b.len, EndsFree(false, a), true) &&
      h'[at + b.len] == FirstHeader(false, r) &&
      forall k | 0 <= k < |h| && k != at && k != at + b.len :: h'[k] == h[k]
    ensures Encodes(h', 0, false, Around(a, Block(b.len, false), r))
  {
    hide Header, FirstHeader, Segment, Separated, Total, Encodes;
    Parts(h, a, b, r);
    var at, m := Total(a), Block(b.len, false);
    SegmentFrame(h, h', 0, false, a);
    SeparatedWeaken(r);
    EncodesAfterFlag(h, h', at + b.len, true, false, r);
    SingleBlock(h', at, EndsFree(false, a), m);
    EncodesSplit(h', at, EndsFree(false, a), [m], r);
    EncodesSplit(h', 0, false, a, [m] + r);
  }

  /** What place_chunk reads, and what it will write. */
  lemma PlaceView(h: seq<Word>, a: seq<Block>, b: Block, r: seq<Block>, n: nat)
    requires Encodes(h, 0, false, Around(a, b, r)) && Separated(false, Around(a, b, r)) && b.free
    requires 4 * |h| < 0x1_0000_0000 && n <= b.len
    ensures Total(a) + b.len < |h|
    ensures ChunkSize(h[Total(a)]) == 4 * b.len && ChunkPf(h[Total(a)]) == EndsFree(false, a)
    ensures Pack(4 * n, EndsFree(false, a), true) == Header(n, EndsFree(false, a), true)
    ensures Pack(4 * (b.len - n), false, false) == Header(b.len - n, false, false)
    ensures 0 < Total(a) + b.len && ClearPf(h[Total(a) + b.len]) == FirstHeader(false, r)
    ensures Separated(true, r)
  {
    hide Segment, Separated, Encodes, Total, Header, ChunkSize, ChunkPf, ClearPf, Pack;
    Parts(h, a, b, r);
    EncodesStarts(h, Total(a) + b.len, true, r);
    HeaderFields(b.len, EndsFree(false, a), false);
    HeaderFields(n, EndsFree(false, a), true);
    HeaderFields(b.len - n, false, false);
    if r == [] {
      HeaderFields(0, true, true);
    } else {
      FirstBlockFits(r);
      HeaderFields(r[0].len, true, !r[0].free);
    }
  }

  lemma PlaceExactStores(h: seq<Word>, a: seq<Block>, b: Block, r: seq<Block>)
    requires Encodes(h, 0, false, Around(a, b, r)) && Separated(false, Around(a, b, r)) && b.free
    requires 4 * |h| < 0x1_0000_0000
    ensures var at := Total(a); var next := at + b.len;
      next < |h| && Header(b.len, EndsFree(false, a), true) < 0x1_0000_0000 && FirstHeader(false, r) < 0x1_0000_0000 &&
      var h' := h[at := Header(b.len, EndsFree(false, a), true)][next := FirstHeader(false, r)];
      Encodes(h', 0, false, Around(a, Block(b.len, false), r)) && Untouched(h, h', at, next + 1)
  {
    hide Segment, Separated, Encodes, Total, Header, FirstHeader, Around;
    PlaceView(h, a, b, r, b.len);
    Parts(h, a, b, r);
    var at, next := Total(a), Total(a) + b.len;
    var h' := h[at := Header(b.len, EndsFree(false, a), true)][next := FirstHeader(false, r)];
    PlaceExactEncodes(h, h', a, b, r);
  }

  lemma PlaceSplitStores(h: seq<Word>, a: seq<Block>, b: Block, r: seq<Block>, n: nat)
    requires Encodes(h, 0, false, Around(a, b, r)) && Separated(false, Around(a, b, r)) && b.free
    requires 4 * |h| < 0x1_0000_0000 && 1 <= n < b.len
    ensures var at := Total(a); var next := at + b.len; var rem := Header(b.len - n, false, false);
      next < |h| && Header(n, EndsFree(false, a), true) < 0x1_0000_0000 && rem < 0x1_0000_0000 &&
      var h' := h[at := Header(n, EndsFree(false, a), true)][at + n := rem][next - 1 := rem];
      BeforeCoalesce(h', a + [Block(n, false)], b.len - n, r) && Untouched(h, h', at, next)
  {
    hide Segment, Separated, Encodes, Total, Header, FirstHeader, Around, BeforeCoalesce;
    PlaceView(h, a, b, r, n);
    Parts(h, a, b, r);
    var at, next, rem := Total(a), Total(a) + b.len, Header(b.len - n, false, false);
    PlaceSplitReady(h, h[at := Header(n, EndsFree(false, a), true)][at + n := rem][next - 1 := rem], a, b, r, n);
  }

  lemma UntouchedMore(h: seq<Word>, h': seq<Word>, s: nat, e: nat)
    requires Untouched(h, h', s, e)
    ensures Untouched(h, h', s, e + 1) && |h'| == |h|
  {
  }

  lemma UntouchedTwice(h0: seq<Word>, h1: seq<Word>, h2: seq<Word>, s: nat, e: nat, s': nat, e': nat)
    requires Untouched(h0, h1, s, e) && Untouched(h1, h2, s', e') && s <= s' && e' <= e
    ensures Untouched(h0, h2, s, e)
  {
  }

  lemma PlaceSplitShape(a: seq<Block>, b: Block, r: seq<Block>, n: nat)
    requires Separated(true, r) && n < b.len
    ensures var a' := a + [Block(n, false)]; var d := b.len - n;
      Total(a') == Total(a) + n && Front(a') == a' && MergedLen(a', d, r) == d &&
      Merge(a', d, r) == Place(Around(a, b, r), |a|, n)
  {
    hide Around, Place, Merge, Total, Separated, Front, MergedLen;
    SeparatedWeaken(r);
    AppendAllocated(a, n, b.len - n, r);
    PlaceIsMerge(a, n, b.len - n, r);
    PlaceAround(a, b, r, n);
  }

  lemma AppendAllocated(a: seq<Block>, n: nat, d: nat, r: seq<Block>)
    requires !StartsFree(r)
    ensures var a' := a + [Block(n, false)]; Total(a') == Total(a) + n && Front(a') == a' && MergedLen(a', d, r) == d
  {
    TotalSplit(a, [Block(n, false)]);
    SingleBlock([], 0, false, Block(n, false));
  }

  /** place_chunk when something is left over: a header, and header and footer of the remainder. */
  lemma PlaceSplitReady(h: seq<Word>, h': seq<Word>, a: seq<Block>, b: Block, r: seq<Block>, n: nat)
    requires Encodes(h, 0, false, Around(a, b, r)) && Separated(false, Around(a, b, r)) && b.free && |h'| == |h|
    requires 1 <= n < b.len
    requires var at := Total(a);
      at + b.len < |h| && h'[at] == Header(n, EndsFree(false, a), true) &&
      h'[at + n] == Header(b.len - n, false, false) && h'[at + b.len - 1] == h'[at + n] &&
      forall k | 0 <= k < |h| && k != at && k != at + n && k != at + b.len - 1 :: h'[k] == h[k]
    ensures BeforeCoalesce(h', a + [Block(n, false)], b.len - n, r)
  {
    hide Header, FirstHeader, Segment, Separated, Total;
    Parts(h, a, b, r);
    var at, m := Total(a), Block(n, false);
    SegmentFrame(h, h', 0, false, a);
    SingleBlock(h', at, EndsFree(false, a), m);
    SegmentSplit(h', 0, false, a, [m]);
    SeparatedSplit(false, a, [m]);
    TotalSplit(a, [m]);
    EncodesStarts(h, at + b.len, true, r);
    SeparatedWeaken(r);
    SegmentFrame(h, h', at + b.len, true, r);
  }

  lemma SeparatedWeaken(r: seq<Block>)
    requires Separated(true, r)
    ensures Separated(false, r) && !StartsFree(r)
  {
  }

  /** lx_grow_heap: the old epilogue becomes the header of a free block of n words, a new epilogue follows. */
  lemma GrowReady(h: seq<Word>, h': seq<Word>, blocks: seq<Block>, n: nat)
    requires Encodes(h, 0, false, blocks) && Separated(false, blocks) && n >= 1
    requires var at := Total(blocks);
      |h'| == at + n + 1 && h'[at] == Header(n, EndsFree(false, blocks), false) &&
      h'[at + n - 1] == h'[at] && h'[at + n] == Header(0, true, true) && forall k | 0 <= k < at :: h'[k] == h[k]
    ensures BeforeCoalesce(h', blocks, n, [])
  {
    hide Header;
    SegmentFrame(h, h', 0, false, blocks);
  }

  /** The stores of lx_grow_heap on the grown range h1, whose beginning is the old heap h. */
  lemma GrowStores(h: seq<Word>, h1: seq<Word>, blocks: seq<Block>, n: nat)
    requires Encodes(h, 0, false, blocks) && Separated(false, blocks) && n >= 1 && |h| == Total(blocks) + 1
    requires |h1| == |h| + n && h1[..|h|] == h && 4 * |h1| < 0x1_0000_0000
    ensures var at := Total(blocks); var hdr := Header(n, EndsFree(false, blocks), false);
      hdr < 0x1_0000_0000 && Pack(4 * n, ChunkPf(h1[at]), false) == hdr && ChunkSize(hdr) == 4 * n &&
      Pack(0, true, true) == Header(0, true, true) &&
      var h2 := h1[at := hdr][at + n - 1 := hdr][at + n := Header(0, true, true)];
      BeforeCoalesce(h2, blocks, n, []) && forall k | 0 <= k < at :: h2[k] == h[k]
  {
    var at, hdr := Total(blocks), Header(n, EndsFree(false, blocks), false);
    EncodesStarts(h, 0, false, blocks);
    hide Segment, Separated, Total, Header, ChunkPf, ChunkSize, Pack;
    assert h1[at] == h[at];
    HeaderFields(0, EndsFree(false, blocks), true);
    HeaderFields(n, EndsFree(false, blocks), false);
    HeaderFields(0, true, true);
    assert forall k | 0 <= k < at :: h1[k] == h1[..|h|][k];
    GrowReady(h, h1[at := hdr][at + n - 1 := hdr][at + n := Header(0, true, true)], blocks, n);
  }

  // ---------------------------------------------------------------- what the operations keep

  /** Merging keeps the shape of the heap, and every word stays accounted for. */
  lemma MergeWellFormed(a: seq<Block>, len: nat, r: seq<Block>)
    requires len >= 1 && Separated(false, a) && Separated(false, r) && Shaped(a) && Roomy(r)
    ensures WellFormed(Merge(a, len, r))
    ensures Total(Merge(a, len, r)) == Total(a) + len + Total(r)
  {
    hide Separated, Total, EndsFree;
    var m := Block(MergedLen(a, len, r), true);
    FrontBlocks(a);
    RearBlocks(r);
    SingleBlock([], 0, false, m);
    SeparatedSplit(false, Front(a), [m] + Rear(r));
    SeparatedSplit(false, [m], Rear(r));
    TotalSplit(Front(a), [m] + Rear(r));
    TotalSplit([m], Rear(r));
    MergeShaped(a, len, r);
  }

  lemma MergeShaped(a: seq<Block>, len: nat, r: seq<Block>)
    requires Shaped(a) && Roomy(r)
    ensures Shaped(Merge(a, len, r))
  {
    var f, m := Front(a), Block(MergedLen(a, len, r), true);
    assert Shaped(f);
    assert Roomy([m] + Rear(r));
    ShapedAppend(f, [m] + Rear(r));
  }

  lemma ShapedAppend(a: seq<Block>, r: seq<Block>)
    requires Shaped(a) && Roomy(r)
    ensures Shaped(a + r)
  {
    forall i | 1 <= i < |a + r|
      ensures (a + r)[i].free || (a + r)[i].len >= 2
    {
      if i >= |a| {
        assert (a + r)[i] == r[i - |a|];
      }
    }
  }

  lemma FrontBlocks(a: seq<Block>)
    requires Separated(false, a)
    ensures Separated(false, Front(a)) && !EndsFree(false, Front(a)) && Total(a) == Total(Front(a)) + FrontFree(a)
  {
    if EndsFree(false, a) {
      var b := a[|a| - 1];
      assert a == Front(a) + [b];
      TotalSplit(Front(a), [b]);
      SeparatedSplit(false, Front(a), [b]);
      SingleBlock([], 0, EndsFree(false, Front(a)), b);
    }
  }

  lemma RearBlocks(r: seq<Block>)
    requires Separated(false, r)
    ensures Separated(true, Rear(r)) && Total(r) == RearFree(r) + Total(Rear(r))
  {
  }

  /** The coalesce call of place_chunk finds nothing to merge. */
  lemma PlaceIsMerge(a: seq<Block>, n: nat, d: nat, r: seq<Block>)
    requires !StartsFree(r)
    ensures Merge(a + [Block(n, false)], d, r) == Around(a, Block(n, false), [Block(d, true)] + r)
  {
    assert a + [Block(n, false)] + ([Block(d, true)] + r) == a + ([Block(n, false)] + ([Block(d, true)] + r));
  }

  lemma PlaceWellFormed(a: seq<Block>, b: Block, r: seq<Block>, n: nat)
    requires WellFormed(Around(a, b, r)) && b.free && a != [] && 2 <= n <= b.len
    ensures var blocks := Place(Around(a, b, r), |a|, n);
      WellFormed(blocks) && Total(blocks) == Total(Around(a, b, r))
  {
    hide Separated, Total;
    var m, rest := Block(n, false), if n < b.len then [Block(b.len - n, true)] + r else r;
    PlaceAround(a, b, r, n);
    SeparatedSplit(false, a, [b] + r);
    SeparatedSplit(EndsFree(false, a), [b], r);
    SingleBlock([], 0, EndsFree(false, a), b);
    SeparatedWeaken(r);
    SeparatedSplit(false, a, [m] + rest);
    SeparatedSplit(EndsFree(false, a), [m], rest);
    SingleBlock([], 0, EndsFree(false, a), m);
    SingleBlock([], 0, false, Block(b.len - n, true));
    SeparatedSplit(false, [Block(b.len - n, true)], r);
    TotalSplit([Block(b.len - n, true)], r);
    TotalSplit(a, [b] + r);
    TotalSplit([b], r);
    TotalSplit(a, [m] + rest);
    TotalSplit([m], rest);
    ShapedParts(a, b, r);
    ShapedAppend(a, [m] + rest);
  }

  lemma PlaceAround(a: seq<Block>, b: Block, r: seq<Block>, n: nat)
    requires n <= b.len
    ensures var rest := if n < b.len then [Block(b.len - n, true)] + r else r;
      Place(Around(a, b, r), |a|, n) == Around(a, Block(n, false), rest)
  {
    AroundParts(a, b, r);
  }

  lemma AroundParts(a: seq<Block>, b: Block, r: seq<Block>)
    ensures var l := Around(a, b, r);
      |a| < |l| && l[..|a|] == a && l[|a|] == b && l[|a| + 1..] == r
  {
  }

  lemma AroundIndex(blocks: seq<Block>, i: nat)
    requires i < |blocks|
    ensures blocks == Around(blocks[..i], blocks[i], blocks[i + 1..])
  {
  }

  lemma ShapedParts(a: seq<Block>, b: Block, r: seq<Block>)
    requires Shaped(Around(a, b, r)) && a != []
    ensures Shaped(a) && Roomy(r) && (b.free || b.len >= 2)
  {
    var l := Around(a, b, r);
    assert forall i | 0 <= i < |a| :: l[i] == a[i];
    assert l[|a|] == b;
    assert forall i | 0 <= i < |r| :: l[|a| + 1 + i] == r[i];
  }

  lemma ReleaseWellFormed(a: seq<Block>, b: Block, r: seq<Block>)
    requires WellFormed(Around(a, b, r)) && !b.free && a != []
    ensures WellFormed(Release(Around(a, b, r), |a|)) && Total(Release(Around(a, b, r), |a|)) == Total(Around(a, b, r))
    ensures Release(Around(a, b, r), |a|) == Merge(a, b.len, r)
  {
    hide Separated, Total;
    AroundParts(a, b, r);
    SeparatedSplit(false, a, [b] + r);
    SeparatedSplit(EndsFree(false, a), [b], r);
    SingleBlock([], 0, EndsFree(false, a), b);
    TotalSplit(a, [b] + r);
    TotalSplit([b], r);
    ShapedParts(a, b, r);
    MergeWellFormed(a, b.len, r);
  }

  lemma GrowWellFormed(blocks: seq<Block>, n: nat)
    requires WellFormed(blocks) && n >= 1
    ensures WellFormed(Grow(blocks, n)) && Total(Grow(blocks, n)) == Total(blocks) + n
  {
    MergeWellFormed(blocks, n, []);
  }

  /** Block i is allocated and its payload starts at slot k. */
  ghost predicate IsBlockAt(blocks: seq<Block>, i: nat, k: nat) {
    i < |blocks| && !blocks[i].free && k == Total(blocks[..i]) + 1
  }

  // ---------------------------------------------------------------- what the owners see

  /** The live payloads of a heap. */
  ghost function Live(h: seq<Word>, blocks: seq<Block>): map<nat, seq<Word>>
    requires Total(blocks) <= |h|
  {
    Payloads(h, 0, blocks)
  }

  lemma LiveAround(h: seq<Word>, a: seq<Block>, b: Block, r: seq<Block>)
    requires Total(Around(a, b, r)) <= |h|
    ensures var at := Total(a); var next := at + b.len;
      Total(Around(a, b, r)) == next + Total(r) &&
      var own := if b.free || b.len < 2 then map[] else map[at + 1 := h[at + 1..next]];
      Live(h, Around(a, b, r)) == Payloads(h, 0, a) + own + Payloads(h, next, r) &&
      (forall k | k in Payloads(h, 0, a) :: k < at) && (forall k | k in Payloads(h, next, r) :: k > next)
  {
    hide Payloads, Total;
    var at := Total(a);
    AroundTotal(a, b, r);
    TotalSplit([b], r);
    SingleBlock(h, at, false, b);
    SinglePayload(h, at, b);
    PayloadsSplit(h, 0, a, [b] + r);
    PayloadsSplit(h, at, [b], r);
    PayloadKeys(h, 0, a);
    PayloadKeys(h, at + b.len, r);
    UnionIsAssociative(Payloads(h, 0, a), Payloads(h, at, [b]), Payloads(h, at + b.len, r));
  }

  lemma AroundTotal(a: seq<Block>, b: Block, r: seq<Block>)
    ensures Total(Around(a, b, r)) == Total(a) + b.len + Total(r)
  {
    TotalSplit(a, [b] + r);
    TotalSplit([b], r);
    SingleBlock([], 0, false, b);
  }

  lemma SinglePayload(h: seq<Word>, at: nat, b: Block)
    requires at + b.len <= |h| && Total([b]) == b.len
    ensures Payloads(h, at, [b]) == if b.free || b.len < 2 then map[] else map[at + 1 := h[at + 1..at + b.len]]
  {
  }

  lemma UnionIsAssociative<K, V>(m: map<K, V>, n: map<K, V>, o: map<K, V>)
    ensures m + (n + o) == m + n + o
  {
  }

  lemma MergeLive(h: seq<Word>, h': seq<Word>, a: seq<Block>, len: nat, r: seq<Block>)
    requires BeforeCoalesce(h, a, len, r) && |h'| == |h|
    requires var s := Total(Front(a)); var e := s + MergedLen(a, len, r);
      forall k | 0 <= k < |h| && (k < s || k >= e) :: h'[k] == h[k]
    ensures Total(Merge(a, len, r)) <= |h|
    ensures Live(h', Merge(a, len, r)) == Payloads(h, 0, a) + Payloads(h, Total(a) + len, r)
  {
    hide Segment, Separated, Encodes, Header, FirstHeader, Total, Payloads, Front, Rear, FrontFree, RearFree;
    var s, m := Total(Front(a)), Block(MergedLen(a, len, r), true);
    FrontBlocks(a);
    FrontPayloads(h, a);
    RearBlocks(r);
    RearPayloads(h, Total(a) + len, r);
    SingleBlock(h, 0, false, m);
    TotalSplit(Front(a), [m] + Rear(r));
    TotalSplit([m], Rear(r));
    LiveAround(h', Front(a), m, Rear(r));
    PayloadsFrame(h, h', 0, Front(a));
    PayloadsFrame(h, h', s + m.len, Rear(r));
  }

  lemma FrontPayloads(h: seq<Word>, a: seq<Block>)
    requires Total(a) <= |h|
    ensures Total(Front(a)) <= Total(a) && Payloads(h, 0, a) == Payloads(h, 0, Front(a))
  {
    if EndsFree(false, a) {
      var b := a[|a| - 1];
      assert a == Front(a) + [b];
      TotalSplit(Front(a), [b]);
      PayloadsSplit(h, 0, Front(a), [b]);
    }
  }

  lemma RearPayloads(h: seq<Word>, at: nat, r: seq<Block>)
    requires at + Total(r) <= |h|
    ensures Total(r) == RearFree(r) + Total(Rear(r))
    ensures Payloads(h, at, r) == Payloads(h, at + RearFree(r), Rear(r))
  {
  }

  /** Taking n words of a free block adds one payload; the others stay. */
  lemma PlaceLive(h: seq<Word>, h': seq<Word>, a: seq<Block>, b: Block, r: seq<Block>, n: nat)
    requires Total(Around(a, b, r)) <= |h| && |h'| == |h| && b.free && 2 <= n <= b.len
    requires Untouched(h, h', Total(a), Total(a) + b.len + 1)
    ensures var at := Total(a); var blocks := Place(Around(a, b, r), |a|, n);
      at + n <= |h| && Total(blocks) <= |h| && at + 1 !in Live(h, Around(a, b, r)) &&
      Live(h', blocks) == Live(h, Around(a, b, r))[at + 1 := h'[at + 1..at + n]]
  {
    hide Payloads, Total, Around, Place, Untouched;
    var at, next := Total(a), Total(a) + b.len;
    var rest := if n < b.len then [Block(b.len - n, true)] + r else r;
    PlaceAround(a, b, r, n);
    LiveAround(h, a, b, r);
    RestAfterPlace(h', at + n, b.len - n, r);
    AroundTotal(a, Block(n, false), rest);
    LiveAround(h', a, Block(n, false), rest);
    PayloadsAround(h, h', a, b.len, r);
    PutBetween(Payloads(h, 0, a), Payloads(h, next, r), at + 1, h'[at + 1..at + n]);
  }

  /** What lies before and after an edited block. */
  lemma PayloadsAround(h: seq<Word>, h': seq<Word>, a: seq<Block>, len: nat, r: seq<Block>)
    requires var next := Total(a) + len; Untouched(h, h', Total(a), next + 1) && next + Total(r) <= |h|
    ensures |h'| == |h| && Payloads(h', 0, a) == Payloads(h, 0, a)
    ensures Payloads(h', Total(a) + len, r) == Payloads(h, Total(a) + len, r)
  {
    hide Payloads, Total;
    PayloadsFrame(h, h', 0, a);
    PayloadsFrame(h, h', Total(a) + len, r);
  }

  lemma PutBetween<V>(m: map<nat, V>, o: map<nat, V>, k: nat, v: V)
    requires k !in m && k !in o
    ensures k !in m + map[] + o && m + map[k := v] + o == (m + map[] + o)[k := v]
  {
  }

  lemma RestAfterPlace(h: seq<Word>, at: nat, d: nat, r: seq<Block>)
    requires at + d + Total(r) <= |h|
    ensures var rest := if d > 0 then [Block(d, true)] + r else r;
      Total(rest) == d + Total(r) && Payloads(h, at, rest) == Payloads(h, at + d, r)
  {
    if d > 0 {
      assert ([Block(d, true)] + r)[1..] == r;
    }
  }

  /** The stores of lxfree and the merge after them remove one payload; the others stay. */
  lemma ReleaseLive(h: seq<Word>, h': seq<Word>, a: seq<Block>, b: Block, r: seq<Block>)
    requires Encodes(h, 0, false, Around(a, b, r)) && Separated(false, Around(a, b, r)) && !b.free && b.len >= 2
    requires 4 * |h| < 0x1_0000_0000 && |h'| == |h|
    requires Total(a) + b.len < |h| && FirstHeader(true, r) < 0x1_0000_0000
    requires var s := Total(Front(a)); var e := s + MergedLen(a, b.len, r); Untouched(FreeStores(h, a, b, r), h', s, e)
    ensures Total(Around(a, b, r)) <= |h| && Total(Merge(a, b.len, r)) <= |h|
    ensures Total(a) + 1 in Live(h, Around(a, b, r))
    ensures Live(h', Merge(a, b.len, r)) == Live(h, Around(a, b, r)) - {Total(a) + 1}
  {
    hide Payloads, Total, Encodes, Segment, Separated, Header, FreeStores, BeforeCoalesce;
    var h1, next := FreeStores(h, a, b, r), Total(a) + b.len;
    EncodesFits(h, 0, false, Around(a, b, r));
    FreeStoresReady(h, a, b, r);
    FreeStoresWords(h, a, b, r);
    LiveAround(h, a, b, r);
    MergeLive(h1, h', a, b.len, r);
    PayloadsFrame(h, h1, 0, a);
    PayloadsFrame(h, h1, next, r);
  }

  /** Growing changes no payload. */
  lemma GrowLive(h: seq<Word>, h1: seq<Word>, h': seq<Word>, blocks: seq<Block>, n: nat)
    requires BeforeCoalesce(h1, blocks, n, []) && |h'| == |h1| && Total(blocks) <= |h|
    requires Untouched(h1, h', Total(Front(blocks)), Total(Front(blocks)) + MergedLen(blocks, n, []))
    requires forall k | 0 <= k < Total(blocks) :: h1[k] == h[k]
    ensures Total(Grow(blocks, n)) <= |h'|
    ensures Live(h', Grow(blocks, n)) == Live(h, blocks)
  {
    hide Segment, Separated, Encodes, Header;
    MergeLive(h1, h', blocks, n, []);
    PayloadsFrame(h, h1, 0, blocks);
  }

  /** Every payload slot belongs to one allocated block. */
  lemma {:induction false} SlotBlock(h: seq<Word>, at: nat, blocks: seq<Block>, k: nat) returns (i: nat)
    requires at + Total(blocks) <= |h| && k in Payloads(h, at, blocks)
    ensures i < |blocks| && !blocks[i].free && blocks[i].len >= 2 && k == at + Total(blocks[..i]) + 1
    ensures k + blocks[i].len - 1 <= |h| && Payloads(h, at, blocks)[k] == h[k..k + blocks[i].len - 1]
    decreases |blocks|
  {
    if !blocks[0].free && blocks[0].len >= 2 && k == at + 1 {
      i := 0;
    } else {
      var rest := blocks[1..];
      var j := SlotBlock(h, at + blocks[0].len, rest, k);
      i := j + 1;
      assert blocks[..i][1..] == rest[..j];
    }
  }

  lemma {:induction false} BlocksAreNotEmpty(pf: bool, blocks: seq<Block>, i: nat)
    requires Separated(pf, blocks) && i < |blocks|
    ensures blocks[i].len >= 1
    decreases |blocks|
  {
    if i > 0 {
      BlocksAreNotEmpty(blocks[0].free, blocks[1..], i - 1);
    }
  }

  /** Blocks do not overlap: each one ends before any later one begins. */
  lemma {:induction false} BlocksAreOrdered(blocks: seq<Block>, i: nat, j: nat)
    requires WellFormed(blocks) && i < j <= |blocks|
    ensures Total(blocks[..i]) + blocks[i].len <= Total(blocks[..j]) && blocks[i].len >= 1
    decreases j
  {
    BlocksAreNotEmpty(false, blocks, i);
    assert blocks[..j] == blocks[..j - 1] + [blocks[j - 1]];
    TotalSplit(blocks[..j - 1], [blocks[j - 1]]);
    SingleBlock([], 0, false, blocks[j - 1]);
    if i < j - 1 {
      BlocksAreOrdered(blocks, i, j - 1);
    }
  }

  /** A payload slot determines its block. */
  lemma SlotDeterminesBlock(blocks: seq<Block>, i: nat, j: nat, k: nat)
    requires WellFormed(blocks) && IsBlockAt(blocks, i, k) && IsBlockAt(blocks, j, k)
    ensures i == j
  {
    if i < j {
      BlocksAreOrdered(blocks, i, j);
    } else if j < i {
      BlocksAreOrdered(blocks, j, i);
    }
  }

  /** Payloads do not overlap, and between any two there is room for the header of the later one. */
  ghost predicate Apart(payloads: map<nat, seq<Word>>) {
    forall k, l | k in payloads && l in payloads && k < l :: k + |payloads[k]| < l
  }

  lemma PayloadsAreApart(h: seq<Word>, blocks: seq<Block>)
    requires WellFormed(blocks) && Total(blocks) <= |h|
    ensures var m := Live(h, blocks);
      Apart(m) && forall k, l | k in m && l in m && k < l :: k + |m[k]| < l
  {
    hide Payloads, WellFormed, Total;
    forall k, l | k in Live(h, blocks) && l in Live(h, blocks) && k < l
      ensures k + |Live(h, blocks)[k]| < l
    {
      var i := SlotBlock(h, 0, blocks, k);
      var j := SlotBlock(h, 0, blocks, l);
      if i < j {
        BlocksAreOrdered(blocks, i, j);
      } else if j < i {
        BlocksAreOrdered(blocks, j, i);
      }
    }
  }

  /** Payload `slot` with word j overwritten. */
  ghost function Overwritten(m: map<nat, seq<Word>>, slot: nat, j: nat, w: Word): map<nat, seq<Word>>
    requires slot in m && j < |m[slot]|
  {
    var own: seq<Word> := m[slot][j := w];
    m[slot := own]
  }

  /** An owner's store into a live payload keeps the encoding and changes that payload only. */
  lemma PayloadStore(h: seq<Word>, a: seq<Block>, b: Block, r: seq<Block>, j: nat, w: Word)
    requires Encodes(h, 0, false, Around(a, b, r)) && WellFormed(Around(a, b, r)) && !b.free && j + 1 < b.len
    ensures var at := Total(a); var own := at + 1;
      own + j < |h| && own + b.len - 1 <= |h| && Total(Around(a, b, r)) <= |h| &&
      own in Live(h, Around(a, b, r)) && Live(h, Around(a, b, r))[own] == h[own..own + b.len - 1] &&
      var h' := h[own + j := w];
      Encodes(h', 0, false, Around(a, b, r)) &&
      Live(h', Around(a, b, r)) == Overwritten(Live(h, Around(a, b, r)), own, j, w)
  {
    hide Header, Segment, Separated, Total, Encodes, Payloads, EndsFree;
    Parts(h, a, b, r);
    var at, next := Total(a), Total(a) + b.len;
    var h' := h[at + 1 + j := w];
    AroundTotal(a, b, r);
    SegmentFrame(h, h', 0, false, a);
    SingleBlock(h', at, EndsFree(false, a), b);
    EncodesFrame(h, h', next, b.free, r);
    EncodesSplit(h', at, EndsFree(false, a), [b], r);
    EncodesSplit(h', 0, false, a, [b] + r);
    LiveAround(h, a, b, r);
    LiveAround(h', a, b, r);
    PayloadsFrame(h, h', 0, a);
    PayloadsFrame(h, h', next, r);
    assert h'[at + 1..next] == h[at + 1..next][j := w];
  }

  lemma EncodesFrame(h: seq<Word>, h': seq<Word>, at: nat, pf: bool, r: seq<Block>)
    requires Encodes(h, at, pf, r) && |h'| == |h| && forall k | at <= k < |h| :: h'[k] == h[k]
    ensures Encodes(h', at, pf, r)
  {
    SegmentFrame(h, h', at, pf, r);
  }

  // ---------------------------------------------------------------- first fit

  /** Block i is the first that can take n words. */
  ghost predicate FirstFit(blocks: seq<Block>, n: nat, i: nat) {
    i < |blocks| && Fits(blocks[i], n) && forall j | 0 <= j < i :: !Fits(blocks[j], n)
  }

  ghost predicate AnyFit(blocks: seq<Block>, n: nat) {
    exists i: nat :: i < |blocks| && Fits(blocks[i], n)
  }

  /** The outcome of a request for n words without growth: the first fitting block is split, the payload is at
      `slot`. */
  ghost predicate PlacedFirstFit(before: seq<Block>, after: seq<Block>, n: nat, slot: nat) {
    exists i: nat :: FirstFit(before, n, i) && after == Place(before, i, n) && slot == Total(before[..i]) + 1
  }

  /** The outcome with growth: the end of the heap is extended by n words and split. */
  ghost predicate PlacedByGrowth(before: seq<Block>, after: seq<Block>, n: nat, slot: nat) {
    var g := |Front(before)|; var grown := Grow(before, n);
    g < |grown| && n <= grown[g].len && after == Place(grown, g, n) && slot == Total(Front(before)) + 1
  }

  /** One payload of `bytes` bytes, rounded up to a word, was added at `slot`; all the others are as they were. */
  ghost predicate OnePayloadMore(before: map<nat, seq<Word>>, after: map<nat, seq<Word>>, slot: nat, bytes: nat) {
    slot !in before && slot in after && bytes <= 4 * |after[slot]| < bytes + 4 &&
    after == before[slot := after[slot]]
  }

  lemma PayloadAdded(before: map<nat, seq<Word>>, slot: nat, own: seq<Word>, bytes: nat)
    requires slot !in before && bytes <= 4 * |own| < bytes + 4
    ensures OnePayloadMore(before, before[slot := own], slot, bytes)
  {
  }

  /** The request of lx_malloc_internal in words, header included. */
  function RequestWords(size: Word): nat {
    RoundUp4(Wrap(size + 4)) / 4
  }

  lemma RequestIsLargeEnough(size: Word)
    requires 0 < size <= 0xFFFF_FFF4
    ensures var n := RequestWords(size);
      RoundUp4(Wrap(size + 4)) == 4 * n && 2 <= n && size <= 4 * (n - 1) < size + 4 && 4 * n <= 0xFFFF_FFF8
  {
  }

  /** The number of bytes asked of lxbrk covers the payload, its header and the new epilogue exactly when the
      request is at most 0xFFFFFFF4; beyond that one of the roundings wraps around. */
  lemma RequestWraps(size: Word)
    requires 0 < size
    ensures Wrap(RoundUp4(Wrap(size + 4)) + 4) >= size + 8 <==> size <= 0xFFFF_FFF4
  {
  }

  /** The smallest request beyond the bound: lxbrk is asked for nothing and reports success. */
  lemma RequestWrapsExample()
    ensures Wrap(RoundUp4(Wrap(0xFFFF_FFF5 + 4)) + 4) == 0
  {
    assert Wrap(0xFFFF_FFF5 + 4) == 0xFFFF_FFF9 && Wrap(0xFFFF_FFF9 + 3) == 0xFFFF_FFFC;
    hide Wrap;
    assert RoundUp4(0xFFFF_FFF9) == 0xFFFF_FFFC;
    WrapOnce();
  }

  lemma WrapOnce()
    ensures Wrap(0xFFFF_FFFC + 4) == 0
  {
  }

  /** The first block with its position, as the header walk meets it. */
  lemma WalkView(h: seq<Word>, blocks: seq<Block>, i: nat)
    requires Encodes(h, 0, false, blocks) && WellFormed(blocks) && i < |blocks| && 4 * |h| < 0x1_0000_0000
    ensures var at := Total(blocks[..i]); var b := blocks[i];
      at + b.len < |h| && b.len >= 1 && ChunkSize(h[at]) == 4 * b.len && ChunkA(h[at]) == !b.free &&
      Total(blocks[..i + 1]) == at + b.len && blocks == Around(blocks[..i], b, blocks[i + 1..]) &&
      (b.free ==> i >= 1)
  {
    var a, b, r := blocks[..i], blocks[i], blocks[i + 1..];
    AroundIndex(blocks, i);
    Parts(h, a, b, r);
    hide Encodes, Segment, Separated, Header, ChunkSize, ChunkA, Total, Around;
    HeaderFields(b.len, EndsFree(false, a), !b.free);
    TotalSplit(a, [b]);
    SingleBlock(h, 0, false, b);
    assert blocks[..i + 1] == a + [b];
  }

  lemma GrownBlock(blocks: seq<Block>, n: nat)
    requires Shaped(blocks)
    ensures var f := Front(blocks);
      f != [] && Grow(blocks, n) == Around(f, Block(FrontFree(blocks) + n, true), []) &&
      |f| < |Grow(blocks, n)| && Grow(blocks, n)[|f|].len == FrontFree(blocks) + n
  {
  }
}
