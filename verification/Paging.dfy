/** includes/awa/mm/page.h and the two-level walk of 32-bit paging
    (Intel SDM Vol. 3A, section 4.3): what a directory and its tables mean. */
module Paging {
  import opened Words

  const PG_MAX_ENTRIES: nat := 1024
  const PG_PREM_R: Word := 1
  const PG_PREM_RW: Word := 3
  const T_SELF_REF_PERM: Word := 19
  const L1_BASE_VADDR: Word := 0xFFFF_F000
  const L2_BASE_VADDR: Word := 0xFFC0_0000

  /** Directory slot 1023 is the recursive window; pages below it are the ones software maps. */
  const WINDOW: nat := 1023
  const VPAGES: nat := 1023 * 1024

  /** One physical page as the MMU sees it: 1024 entries. */
  type Frame = f: seq<Word> | |f| == 1024 witness seq(1024, _ => 0)

  const FRAMES: nat := 0x10_0000

  const ZERO_FRAME: Frame := seq(1024, _ => 0)

  /** All of physical memory, frame by frame. */
  type Ram = r: seq<Frame> | |r| == 0x10_0000 witness seq<Frame>(0x10_0000, _ => ZERO_FRAME)

  function L1Index(va: Word): (i: nat)
    ensures i < 1024
  {
    va / 0x40_0000
  }

  function L2Index(va: Word): (i: nat)
    ensures i < 1024
  {
    va / 4096 % 1024
  }

  function PgOffset(va: Word): (o: nat)
    ensures o < 4096
  {
    va % 4096
  }

  /** V_ADDR: the three fields occupy disjoint bits. */
  function VAddr(l1: nat, l2: nat, offset: nat): Word
    requires l1 < 1024 && l2 < 1024 && offset < 4096
  {
    l1 * 0x40_0000 + l2 * 4096 + offset
  }

  /** L2_VADDR: where table i appears in the recursive window. */
  function L2Vaddr(i: nat): Word
    requires i < 1024
  {
    L2_BASE_VADDR + i * 4096
  }

  /** NEW_L1_ENTRY and NEW_L2_ENTRY. */
  function NewEntry(flags: Word, addr: Word): Word {
    PgAlign(addr) + flags % 4096
  }

  function FrameOf(e: Word): (f: nat)
    ensures f < FRAMES
  {
    e / 4096
  }

  /** PG_ENTRY_FLAGS. */
  function FlagsOf(e: Word): Word {
    e % 4096
  }

  predicate Present(e: Word) {
    e % 2 == 1
  }

  // ---------------------------------------------------------------- the walk

  /** A word of physical memory: frame and index. */
  datatype PhysWord = PhysWord(frame: nat, index: nat)

  /** The walk of the MMU for the aligned word at va: two present entries, or a page fault. */
  function Walk(ram: Ram, pd: nat, va: Word): (r: Option<PhysWord>)
    requires pd < FRAMES
    ensures r.Some? ==> r.value.frame < FRAMES && r.value.index < 1024
  {
    var pde := ram[pd][L1Index(va)];
    if !Present(pde) then None
    else
      var pte := ram[FrameOf(pde)][L2Index(va)];
      if !Present(pte) then None else Some(PhysWord(FrameOf(pte), PgOffset(va) / 4))
  }

  /** The page-table entry of virtual page v, 0 where there is no table. */
  function Pte(ram: Ram, pd: nat, v: nat): Word
    requires pd < FRAMES && v < FRAMES
  {
    var pde := ram[pd][v / 1024];
    if !Present(pde) then 0 else ram[FrameOf(pde)][v % 1024]
  }

  /** What virtual memory means to its users: the partial map from virtual page to entry. */
  ghost function Mappings(ram: Ram, pd: nat): map<nat, Word>
    requires pd < FRAMES
  {
    map v: nat | v < VPAGES && Pte(ram, pd, v) != 0 :: Pte(ram, pd, v)
  }

  /** The slots below the window that have a table. */
  ghost function Tabled(ram: Ram, pd: nat): set<nat>
    requires pd < FRAMES
  {
    set i: nat | i < WINDOW && Present(ram[pd][i])
  }

  lemma HasTable(ram: Ram, pd: nat, i: nat)
    requires pd < FRAMES
    ensures i in Tabled(ram, pd) <==> i < WINDOW && Present(ram[pd][i])
  {
  }

  lemma SameTabled(r0: Ram, r1: Ram, pd: nat)
    requires pd < FRAMES && r1[pd] == r0[pd]
    ensures Tabled(r1, pd) == Tabled(r0, pd)
  {
  }

  lemma OneMoreTable(r0: Ram, r1: Ram, pd: nat, i: nat)
    requires pd < FRAMES && i < WINDOW && Present(r1[pd][i])
    requires forall j: nat | j < 1024 && j != i :: r1[pd][j] == r0[pd][j]
    ensures Tabled(r1, pd) == Tabled(r0, pd) + {i}
  {
  }

  lemma WalkIsPte(ram: Ram, pd: nat, va: Word)
    requires pd < FRAMES
    ensures Walk(ram, pd, va) ==
            var e := Pte(ram, pd, va / 4096);
            if Present(e) then Some(PhysWord(FrameOf(e), va % 4096 / 4)) else None
  {
    assert va / 4096 / 1024 == va / 0x40_0000;
  }

  lemma PageFields(va: Word, l1: nat, l2: nat, offset: nat)
    requires l1 < 1024 && l2 < 1024 && offset < 4096
    requires va == 4096 * (1024 * l1 + l2) + offset
    ensures L1Index(va) == l1 && L2Index(va) == l2 && PgOffset(va) == offset
  {
    Div4096(1024 * l1 + l2, offset);
    Div1024(l1, l2);
    Div4M(l1, 4096 * l2 + offset);
  }

  /** The three fields of an address rebuild it, and they are the only ones that do. */
  lemma AddressFields(va: Word, l1: nat, l2: nat, offset: nat)
    requires l1 < 1024 && l2 < 1024 && offset < 4096
    ensures va == VAddr(l1, l2, offset) <==> l1 == L1Index(va) && l2 == L2Index(va) && offset == PgOffset(va)
  {
    var page := va / 4096;
    PageFields(va, page / 1024, page % 1024, va % 4096);
    if va == VAddr(l1, l2, offset) {
      PageFields(va, l1, l2, offset);
    }
  }

  lemma EntryFields(flags: Word, addr: Word)
    ensures var e := NewEntry(flags, addr);
            FrameOf(e) == addr / 4096 && FlagsOf(e) == flags % 4096 && (Present(e) <==> Present(flags))
  {
    var q, r, e := addr / 4096, flags % 4096, NewEntry(flags, addr);
    assert e == 4096 * q + r;
    Div4096(q, r);
    Div2(2048 * q + r / 2, r % 2);
    Div2(2048 * (flags / 4096) + r / 2, r % 2);
  }

  predicate SelfMapped(ram: Ram, pd: nat)
    requires pd < FRAMES
  {
    Present(ram[pd][WINDOW]) && FrameOf(ram[pd][WINDOW]) == pd
  }

  /** One word through the window. */
  lemma WindowWord(ram: Ram, pd: nat, i: nat, j: nat)
    requires pd < FRAMES && SelfMapped(ram, pd) && i < 1024 && j < 1024
    ensures Walk(ram, pd, L2Vaddr(i) + 4 * j) ==
            if Present(ram[pd][i]) then Some(PhysWord(FrameOf(ram[pd][i]), j)) else None
  {
    hide L1Index, L2Index, PgOffset, L2Vaddr, VAddr, Present, FrameOf;
    WindowAddress(i, j);
    AddressFields(L2Vaddr(i) + 4 * j, 1023, i, 4 * j);
  }

  lemma WindowAddress(i: nat, j: nat)
    requires i < 1024 && j < 1024
    ensures L2Vaddr(i) + 4 * j == VAddr(1023, i, 4 * j)
    ensures i == 1023 ==> L2Vaddr(i) == L1_BASE_VADDR
  {
  }

  /** The recursive window: word j of table i is at L2_VADDR(i) + 4j, and word i of the directory at
      L1_BASE_VADDR + 4i, that is, where the directory appears as table 1023. */
  lemma WindowReachesTables(ram: Ram, pd: nat, i: nat, j: nat)
    requires pd < FRAMES && SelfMapped(ram, pd) && i < 1024 && j < 1024
    ensures Walk(ram, pd, L2Vaddr(i) + 4 * j) ==
            if Present(ram[pd][i]) then Some(PhysWord(FrameOf(ram[pd][i]), j)) else None
    ensures Walk(ram, pd, L1_BASE_VADDR + 4 * i) == Some(PhysWord(pd, i))
  {
    hide Walk, L2Vaddr;
    WindowAddress(1023, i);
    WindowWord(ram, pd, i, j);
    WindowWord(ram, pd, 1023, i);
  }

  // ---------------------------------------------------------------- ownership

  /** Frame f has no role: it is neither the directory, nor a table, nor the target of an entry. */
  ghost predicate NoRole(ram: Ram, pd: nat, f: nat)
    requires pd < FRAMES
  {
    f != pd &&
    (forall i: nat | i < WINDOW && Present(ram[pd][i]) :: FrameOf(ram[pd][i]) != f) &&
    (forall v: nat | v < VPAGES && Present(Pte(ram, pd, v)) :: FrameOf(Pte(ram, pd, v)) != f)
  }

  ghost predicate IsTable(ram: Ram, pd: nat, f: nat)
    requires pd < FRAMES
  {
    exists i: nat :: i < WINDOW && Present(ram[pd][i]) && FrameOf(ram[pd][i]) == f
  }

  /** The directory is self-mapped, its other entries are clear or name distinct tables. */
  ghost predicate Tables(ram: Ram, pd: nat)
    requires pd < FRAMES
  {
    SelfMapped(ram, pd) &&
    (forall i: nat | i < WINDOW :: ram[pd][i] == 0 || Present(ram[pd][i])) &&
    (forall i: nat | i < WINDOW && Present(ram[pd][i]) :: FrameOf(ram[pd][i]) != pd) &&
    (forall i: nat, j: nat | i < j < WINDOW && Present(ram[pd][i]) && Present(ram[pd][j]) ::
       FrameOf(ram[pd][i]) != FrameOf(ram[pd][j])) &&
    (forall v: nat | v < VPAGES :: Pte(ram, pd, v) == 0 || Present(Pte(ram, pd, v)))
  }

  /** Every managed frame has at most one role. */
  ghost predicate SingleRoles(ram: Ram, pd: nat, managed: set<nat>)
    requires pd < FRAMES
  {
    pd !in managed &&
    (forall i: nat, v: nat | i < WINDOW && v < VPAGES && Present(ram[pd][i]) && Present(Pte(ram, pd, v)) &&
       FrameOf(ram[pd][i]) in managed :: FrameOf(Pte(ram, pd, v)) != FrameOf(ram[pd][i])) &&
    (forall v: nat, w: nat | v < w < VPAGES && Present(Pte(ram, pd, v)) && Present(Pte(ram, pd, w)) &&
       FrameOf(Pte(ram, pd, v)) in managed :: FrameOf(Pte(ram, pd, w)) != FrameOf(Pte(ram, pd, v)))
  }

  /** The state all operations keep. A free frame is managed and has no role, so a role means that the
      bit of the frame is set. */
  ghost predicate Owned(ram: Ram, pd: nat, managed: set<nat>, free: set<nat>)
    requires pd < FRAMES
  {
    Tables(ram, pd) && SingleRoles(ram, pd, managed) && free <= managed &&
    forall f | f in free :: NoRole(ram, pd, f)
  }

  /** The uses that a frame can be put to. */
  datatype Role = Directory | Table(index: nat) | Target(page: nat)

  ghost predicate HasRole(ram: Ram, pd: nat, f: nat, role: Role)
    requires pd < FRAMES
  {
    match role
    case Directory => f == pd
    case Table(i) => i < WINDOW && Present(ram[pd][i]) && FrameOf(ram[pd][i]) == f
    case Target(v) => v < VPAGES && Present(Pte(ram, pd, v)) && FrameOf(Pte(ram, pd, v)) == f
  }

  /** In every state that the operations keep, a managed frame has at most one role, and while it has one its bit
      is set: it is not among the frames the bitmap would hand out, so that clearing a frame just handed out
      destroys no table and no mapping. */
  lemma AtMostOneRole(ram: Ram, pd: nat, managed: set<nat>, free: set<nat>, f: nat, r: Role, s: Role)
    requires pd < FRAMES && Owned(ram, pd, managed, free) && f in managed
    requires HasRole(ram, pd, f, r) && HasRole(ram, pd, f, s)
    ensures r == s && f !in free
  {
    match (r, s) {
      case (Table(i), Table(j)) =>
        if i != j {
          TablesDiffer(ram, pd, i, j);
        }
      case (Target(v), Target(w)) =>
        ManagedTargetsAreExclusive(ram, pd, managed, v);
      case _ =>
    }
    assert f in free ==> NoRole(ram, pd, f);
  }

  // ---------------------------------------------------------------- writes

  function SetWord(ram: Ram, f: nat, k: nat, w: Word): Ram
    requires f < FRAMES && k < 1024
  {
    ram[f := ram[f][k := w]]
  }

  lemma SetWordTwice(ram: Ram, f: nat, k: nat, w: Word, x: Word)
    requires f < FRAMES && k < 1024
    ensures SetWord(SetWord(ram, f, k, w), f, k, x) == SetWord(ram, f, k, x)
  {
    assert ram[f][k := w][k := x] == ram[f][k := x];
  }

  /** Frames in which the state's own tables live: everything else is plain memory. */
  ghost predicate PlainFrame(ram: Ram, pd: nat, f: nat)
    requires pd < FRAMES
  {
    f != pd && !IsTable(ram, pd, f)
  }

  ghost predicate SameTranslations(r0: Ram, r1: Ram, pd: nat)
    requires pd < FRAMES
  {
    forall v: nat | v < VPAGES :: Pte(r1, pd, v) == Pte(r0, pd, v)
  }

  lemma SameMappings(r0: Ram, r1: Ram, pd: nat)
    requires pd < FRAMES && SameTranslations(r0, r1, pd)
    ensures Mappings(r1, pd) == Mappings(r0, pd)
  {
  }

  /** A word written outside the directory and the tables changes no translation. */
  lemma PlainWrite(ram: Ram, pd: nat, f: nat, k: nat, w: Word)
    requires pd < FRAMES && f < FRAMES && k < 1024 && PlainFrame(ram, pd, f)
    ensures var r := SetWord(ram, f, k, w); r[pd] == ram[pd] && SameTranslations(ram, r, pd)
  {
    var r := SetWord(ram, f, k, w);
    forall v: nat | v < VPAGES
      ensures Pte(r, pd, v) == Pte(ram, pd, v)
    {
      assert v / 1024 < WINDOW;
    }
  }

  /** An entry written into an existing table changes the translation of its own page only. */
  lemma PteWrite(ram: Ram, pd: nat, v: nat, e: Word)
    requires pd < FRAMES && Tables(ram, pd) && v < VPAGES && Present(ram[pd][v / 1024])
    ensures var r := SetWord(ram, FrameOf(ram[pd][v / 1024]), v % 1024, e);
            r[pd] == ram[pd] &&
            (forall u: nat | u < VPAGES :: Pte(r, pd, u) == if u == v then e else Pte(ram, pd, u))
  {
    var r := SetWord(ram, FrameOf(ram[pd][v / 1024]), v % 1024, e);
    forall u: nat | u < VPAGES
      ensures Pte(r, pd, u) == if u == v then e else Pte(ram, pd, u)
    {
      if u / 1024 == v / 1024 {
        assert u == v <==> u % 1024 == v % 1024;
      } else if Present(ram[pd][u / 1024]) {
        TablesDiffer(ram, pd, u / 1024, v / 1024);
      }
    }
  }

  lemma PteWriteMappings(ram: Ram, pd: nat, v: nat, e: Word)
    requires pd < FRAMES && Tables(ram, pd) && v < VPAGES && Present(ram[pd][v / 1024])
    ensures Mappings(SetWord(ram, FrameOf(ram[pd][v / 1024]), v % 1024, e), pd) ==
            if e == 0 then Mappings(ram, pd) - {v} else Mappings(ram, pd)[v := e]
  {
    PteWrite(ram, pd, v, e);
    hide Pte, SetWord;
  }

  lemma TablesDiffer(ram: Ram, pd: nat, i: nat, j: nat)
    requires pd < FRAMES && Tables(ram, pd) && i < WINDOW && j < WINDOW && i != j
    requires Present(ram[pd][i]) && Present(ram[pd][j])
    ensures FrameOf(ram[pd][i]) != FrameOf(ram[pd][j])
  {
    if i < j {
    } else {
      assert j < i;
    }
  }

  /** Registering a role-free frame as table i and then clearing it changes no translation. */
  lemma TableWrite(ram: Ram, pd: nat, i: nat, f: nat, e: Word)
    requires pd < FRAMES && i < WINDOW && f < FRAMES
    requires ram[pd][i] == 0 && Present(e) && FrameOf(e) == f && NoRole(ram, pd, f) && Tables(ram, pd)
    ensures var r := SetWord(ram, pd, i, e)[f := ZERO_FRAME];
            r[pd] == ram[pd][i := e] && SameTranslations(ram, r, pd)
  {
    var r := SetWord(ram, pd, i, e)[f := ZERO_FRAME];
    assert r[pd] == ram[pd][i := e];
    forall v: nat | v < VPAGES
      ensures Pte(r, pd, v) == Pte(ram, pd, v)
    {
      assert v / 1024 < WINDOW;
      assert Present(ram[pd][v / 1024]) ==> FrameOf(ram[pd][v / 1024]) != f;
    }
  }

  /** The frame behind page v has no other role. */
  ghost predicate OnlyRole(ram: Ram, pd: nat, v: nat)
    requires pd < FRAMES && v < VPAGES
  {
    var f := FrameOf(Pte(ram, pd, v));
    f != pd &&
    (forall i: nat | i < WINDOW && Present(ram[pd][i]) :: FrameOf(ram[pd][i]) != f) &&
    (forall w: nat | w < VPAGES && w != v && Present(Pte(ram, pd, w)) :: FrameOf(Pte(ram, pd, w)) != f)
  }

  lemma ManagedTargetsAreExclusive(ram: Ram, pd: nat, managed: set<nat>, v: nat)
    requires pd < FRAMES && SingleRoles(ram, pd, managed) && v < VPAGES
    requires Present(Pte(ram, pd, v)) && FrameOf(Pte(ram, pd, v)) in managed
    ensures OnlyRole(ram, pd, v)
  {
    var f := FrameOf(Pte(ram, pd, v));
    forall w: nat | w < VPAGES && w != v && Present(Pte(ram, pd, w))
      ensures FrameOf(Pte(ram, pd, w)) != f
    {
      if w < v {
        assert FrameOf(Pte(ram, pd, w)) in managed ==> FrameOf(Pte(ram, pd, w)) != f;
      }
    }
  }

  /** Frame f may become the target of an entry: it is outside the managed pool, or it is allocated and idle. */
  ghost predicate Mappable(ram: Ram, pd: nat, managed: set<nat>, free: set<nat>, f: nat)
    requires pd < FRAMES
  {
    f !in managed || (f !in free && NoRole(ram, pd, f))
  }

  lemma MappableAfterTable(r0: Ram, r1: Ram, pd: nat, managed: set<nat>, free: set<nat>, free': set<nat>, i: nat,
    f: nat)
    requires pd < FRAMES && i < WINDOW && Mappable(r0, pd, managed, free, f) && free <= managed && free' <= free
    requires SameTranslations(r0, r1, pd) && forall j: nat | j < 1024 && j != i :: r1[pd][j] == r0[pd][j]
    requires r1[pd][i] == r0[pd][i] || FrameOf(r1[pd][i]) in free
    ensures Mappable(r1, pd, managed, free', f)
  {
  }

  lemma OnlyRoleAfterTable(r0: Ram, r1: Ram, pd: nat, managed: set<nat>, free: set<nat>, i: nat, v: nat)
    requires pd < FRAMES && i < WINDOW && v < VPAGES && Owned(r0, pd, managed, free)
    requires OnlyRole(r0, pd, v) && Present(Pte(r0, pd, v))
    requires SameTranslations(r0, r1, pd) && forall j: nat | j < 1024 && j != i :: r1[pd][j] == r0[pd][j]
    requires r1[pd][i] == r0[pd][i] || FrameOf(r1[pd][i]) in free
    ensures OnlyRole(r1, pd, v)
  {
  }

  lemma SamePte(r0: Ram, r1: Ram, pd: nat, v: nat)
    requires pd < FRAMES && v < VPAGES && SameTranslations(r0, r1, pd)
    ensures Pte(r1, pd, v) == Pte(r0, pd, v)
  {
  }

  lemma OwnedAfterMap(ram: Ram, pd: nat, managed: set<nat>, free: set<nat>, v: nat, e: Word)
    requires pd < FRAMES && Owned(ram, pd, managed, free) && v < VPAGES && Present(ram[pd][v / 1024])
    requires Pte(ram, pd, v) == 0 && Present(e) && Mappable(ram, pd, managed, free, FrameOf(e))
    ensures Owned(SetWord(ram, FrameOf(ram[pd][v / 1024]), v % 1024, e), pd, managed, free)
  {
    PteWrite(ram, pd, v, e);
    hide Pte, SetWord;
  }

  lemma OwnedAfterUnmap(ram: Ram, pd: nat, managed: set<nat>, free: set<nat>, v: nat)
    requires pd < FRAMES && Owned(ram, pd, managed, free) && v < VPAGES && Present(ram[pd][v / 1024])
    ensures Owned(SetWord(ram, FrameOf(ram[pd][v / 1024]), v % 1024, 0), pd, managed, free)
  {
    PteWrite(ram, pd, v, 0);
    hide Pte, SetWord;
  }

  lemma IdleAfterUnmap(ram: Ram, pd: nat, v: nat)
    requires pd < FRAMES && Tables(ram, pd) && v < VPAGES && Present(ram[pd][v / 1024]) && OnlyRole(ram, pd, v)
    ensures NoRole(SetWord(ram, FrameOf(ram[pd][v / 1024]), v % 1024, 0), pd, FrameOf(Pte(ram, pd, v)))
  {
    PteWrite(ram, pd, v, 0);
    hide Pte, SetWord;
  }

  lemma OwnedAfterRelease(ram: Ram, pd: nat, managed: set<nat>, free: set<nat>, f: nat)
    requires pd < FRAMES && Owned(ram, pd, managed, free) && NoRole(ram, pd, f)
    ensures Owned(ram, pd, managed + {f}, free + {f})
  {
  }

  lemma OwnedAfterTable(ram: Ram, pd: nat, managed: set<nat>, free: set<nat>, i: nat, f: nat, e: Word)
    requires pd < FRAMES && Owned(ram, pd, managed, free) && i < WINDOW && f in free && f < FRAMES
    requires ram[pd][i] == 0 && Present(e) && FrameOf(e) == f
    ensures Owned(SetWord(ram, pd, i, e)[f := ZERO_FRAME], pd, managed, free - {f})
  {
    TableWrite(ram, pd, i, f, e);
  }

  lemma OwnedAfterPlainWrite(ram: Ram, pd: nat, managed: set<nat>, free: set<nat>, f: nat, k: nat, w: Word)
    requires pd < FRAMES && Owned(ram, pd, managed, free) && f < FRAMES && k < 1024 && PlainFrame(ram, pd, f)
    ensures Owned(SetWord(ram, f, k, w), pd, managed, free)
  {
    PlainWrite(ram, pd, f, k, w);
  }

  /** Clearing the entry of page v and freeing the frame behind it. */
  lemma OwnedAfterDrop(ram: Ram, pd: nat, managed: set<nat>, free: set<nat>, v: nat, freed: set<nat>)
    requires pd < FRAMES && Owned(ram, pd, managed, free) && v < VPAGES && Present(ram[pd][v / 1024])
    requires freed <= {FrameOf(Pte(ram, pd, v))} && (freed != {} ==> OnlyRole(ram, pd, v))
    ensures Owned(SetWord(ram, FrameOf(ram[pd][v / 1024]), v % 1024, 0), pd, managed + freed, free + freed)
  {
    OwnedAfterUnmap(ram, pd, managed, free, v);
    hide Pte, SetWord, Owned;
    if freed != {} {
      assert Tables(ram, pd) by {
        assert Owned(ram, pd, managed, free);
        OwnedHasTables(ram, pd, managed, free);
      }
      IdleAfterUnmap(ram, pd, v);
      OwnedAfterRelease(SetWord(ram, FrameOf(ram[pd][v / 1024]), v % 1024, 0), pd, managed, free,
        FrameOf(Pte(ram, pd, v)));
      assert freed == {FrameOf(Pte(ram, pd, v))};
    } else {
      assert managed + freed == managed && free + freed == free;
    }
  }

  lemma OwnedHasTables(ram: Ram, pd: nat, managed: set<nat>, free: set<nat>)
    requires pd < FRAMES && Owned(ram, pd, managed, free)
    ensures Tables(ram, pd) && SelfMapped(ram, pd) && free <= managed
  {
  }

  /** Entries are clear or present, and a page is in the map exactly when its entry is not clear. */
  lemma EntriesAreClearOrPresent(ram: Ram, pd: nat, v: nat)
    requires pd < FRAMES && Tables(ram, pd) && v < VPAGES
    ensures ram[pd][v / 1024] == 0 || Present(ram[pd][v / 1024])
    ensures Pte(ram, pd, v) == 0 || Present(Pte(ram, pd, v))
    ensures Present(ram[pd][v / 1024]) ==> Pte(ram, pd, v) == ram[FrameOf(ram[pd][v / 1024])][v % 1024]
    ensures !Present(ram[pd][v / 1024]) ==> Pte(ram, pd, v) == 0
    ensures Pte(ram, pd, v) != 0 <==> v in Mappings(ram, pd)
    ensures v in Mappings(ram, pd) ==> Mappings(ram, pd)[v] == Pte(ram, pd, v)
  {
  }

  /** Replacing the entry of page v and freeing the frame that was behind it. */
  lemma OwnedAfterReplace(ram: Ram, pd: nat, managed: set<nat>, free: set<nat>, v: nat, e: Word, freed: set<nat>)
    requires pd < FRAMES && Owned(ram, pd, managed, free) && v < VPAGES && Present(ram[pd][v / 1024])
    requires Present(e) && Mappable(ram, pd, managed, free, FrameOf(e))
    requires freed <= {FrameOf(Pte(ram, pd, v))} && FrameOf(e) !in freed && (freed != {} ==> OnlyRole(ram, pd, v))
    ensures Owned(SetWord(ram, FrameOf(ram[pd][v / 1024]), v % 1024, e), pd, managed + freed, free + freed)
  {
    var t, k := FrameOf(ram[pd][v / 1024]), v % 1024;
    var r := SetWord(ram, t, k, 0);
    OwnedAfterDrop(ram, pd, managed, free, v, freed);
    OwnedHasTables(ram, pd, managed, free);
    PteWrite(ram, pd, v, 0);
    SetWordTwice(ram, t, k, 0, e);
    hide Pte, SetWord, Owned, Tables;
    OwnedAfterMap(r, pd, managed + freed, free + freed, v, e);
  }

  /** The frame behind a page of the managed pool is no table and not the directory. */
  lemma ManagedTargetsArePlain(ram: Ram, pd: nat, managed: set<nat>, v: nat)
    requires pd < FRAMES && SingleRoles(ram, pd, managed) && v < VPAGES
    requires Present(Pte(ram, pd, v)) && FrameOf(Pte(ram, pd, v)) in managed
    ensures PlainFrame(ram, pd, FrameOf(Pte(ram, pd, v)))
  {
  }

  /** h is the first unmapped page at or above v. */
  ghost predicate LeastHole(m: map<nat, Word>, v: nat, h: nat) {
    v <= h < VPAGES && h !in m && forall u: nat | v <= u < h :: u in m
  }

  /** h is the first page at or above v whose entry is clear. In the window these are the entries of the directory. */
  ghost predicate LeastClear(ram: Ram, pd: nat, v: nat, h: nat)
    requires pd < FRAMES
  {
    v <= h < FRAMES && Pte(ram, pd, h) == 0 && forall u: nat | v <= u < h :: Pte(ram, pd, u) != 0
  }

  lemma HoleIsClear(ram: Ram, pd: nat, v: nat, h: nat)
    requires pd < FRAMES && h < VPAGES
    ensures LeastClear(ram, pd, v, h) <==> LeastHole(Mappings(ram, pd), v, h)
  {
    var m := Mappings(ram, pd);
    assert forall u: nat | u < VPAGES :: u in m <==> Pte(ram, pd, u) != 0;
    hide Pte, Mappings;
    if LeastHole(m, v, h) {
      forall u: nat | v <= u < h
        ensures Pte(ram, pd, u) != 0
      {
        assert u in m;
      }
    }
  }

  /** The entry of a page, window included. */
  lemma SlotOfPage(ram: Ram, pd: nat, v: nat)
    requires pd < FRAMES && Tables(ram, pd) && v < FRAMES
    ensures ram[pd][v / 1024] == 0 || Present(ram[pd][v / 1024])
    ensures Pte(ram, pd, v) ==
            if Present(ram[pd][v / 1024]) then ram[FrameOf(ram[pd][v / 1024])][v % 1024] else 0
    ensures VPAGES <= v ==> v / 1024 == WINDOW && FrameOf(ram[pd][v / 1024]) == pd && Present(ram[pd][v / 1024])
  {
  }

  /** A full table with none behind it: the scan of vmm_map_page from any page v of the table runs into the absent one,
      and faults. */
  lemma FullTableBeforeNone(ram: Ram, pd: nat, l: nat, v: nat)
    requires pd < FRAMES && Tables(ram, pd) && l + 1 < WINDOW && ram[pd][l + 1] == 0 && v / 1024 == l
    requires forall u: nat | 1024 * l <= u < 1024 * (l + 1) :: Pte(ram, pd, u) != 0
    ensures var h := 1024 * (l + 1);
      LeastClear(ram, pd, v, h) && h < VPAGES && ram[pd][h / 1024] == 0 && h / 1024 != v / 1024
  {
    var h := 1024 * (l + 1);
    Div1024(l + 1, 0);
    hide Pte;
    SlotOfPage(ram, pd, h);
  }

  /** Every page from v up to the window mapped, the first j directory slots in use and slot j clear: the scan ends at
      slot j of the directory. */
  lemma ScanEndsInDirectory(ram: Ram, pd: nat, v: nat, j: nat)
    requires pd < FRAMES && Tables(ram, pd) && v <= VPAGES && j < 1024 && ram[pd][j] == 0
    requires forall u: nat | v <= u < VPAGES :: Pte(ram, pd, u) != 0
    requires forall i: nat | i < j :: ram[pd][i] != 0
    ensures LeastClear(ram, pd, v, VPAGES + j)
  {
    hide Pte;
    forall i: nat | i <= j
      ensures Pte(ram, pd, VPAGES + i) == ram[pd][i]
    {
      SlotOfPage(ram, pd, VPAGES + i);
      Div1024(1023, i);
    }
    forall u: nat | v <= u < VPAGES + j
      ensures Pte(ram, pd, u) != 0
    {
      if u >= VPAGES {
        assert Pte(ram, pd, VPAGES + (u - VPAGES)) == ram[pd][u - VPAGES];
      }
    }
  }

  /** What a directory entry written through the window does: the words of the frame, whatever they are, become the
      entries of 1024 pages. */
  lemma DirectoryOverwritten(ram: Ram, pd: nat, j: nat, e: Word)
    requires pd < FRAMES && Tables(ram, pd) && j < 1024 && ram[pd][j] == 0 && Present(e) && FrameOf(e) != pd
    ensures j < WINDOW
    ensures forall k: nat | k < 1024 :: Pte(SetWord(ram, pd, j, e), pd, 1024 * j + k) == ram[FrameOf(e)][k]
  {
    forall k: nat | k < 1024
      ensures Pte(SetWord(ram, pd, j, e), pd, 1024 * j + k) == ram[FrameOf(e)][k]
    {
      Div1024(j, k);
    }
  }

  /** The word that virtual address va reads. */
  function WordAt(ram: Ram, pd: nat, va: Word): Word
    requires pd < FRAMES
  {
    ram[FrameOf(Pte(ram, pd, va / 4096))][va % 4096 / 4]
  }

  /** A store through a page of the managed pool is seen at its own address only. */
  lemma StoreIsLocal(ram: Ram, pd: nat, managed: set<nat>, free: set<nat>, va: Word, w: Word)
    requires pd < FRAMES && Owned(ram, pd, managed, free) && va % 4 == 0 && va / 4096 < VPAGES
    requires Present(Pte(ram, pd, va / 4096)) && FrameOf(Pte(ram, pd, va / 4096)) in managed
    ensures var r := SetWord(ram, FrameOf(Pte(ram, pd, va / 4096)), va % 4096 / 4, w);
            Owned(r, pd, managed, free) && r[pd] == ram[pd] && SameTranslations(ram, r, pd) && WordAt(r, pd, va) == w &&
            forall u: Word | u % 4 == 0 && u / 4096 < VPAGES && u != va && Present(Pte(ram, pd, u / 4096)) ::
              WordAt(r, pd, u) == WordAt(ram, pd, u)
  {
    var f, k := FrameOf(Pte(ram, pd, va / 4096)), va % 4096 / 4;
    var r := SetWord(ram, f, k, w);
    ManagedTargetsArePlain(ram, pd, managed, va / 4096);
    OwnedAfterPlainWrite(ram, pd, managed, free, f, k, w);
    PlainWrite(ram, pd, f, k, w);
    ManagedTargetsAreExclusive(ram, pd, managed, va / 4096);
    hide Pte, Owned;
    forall u: Word | u % 4 == 0 && u / 4096 < VPAGES && u != va && Present(Pte(ram, pd, u / 4096))
      ensures WordAt(r, pd, u) == WordAt(ram, pd, u)
    {
      if u / 4096 == va / 4096 {
        WordIndex(va, u);
      }
    }
  }

  lemma WordIndex(va: Word, u: Word)
    requires va % 4 == 0 && u % 4 == 0 && va / 4096 == u / 4096 && va != u
    ensures va % 4096 / 4 != u % 4096 / 4
  {
    var q := va / 4096;
    assert va == 4 * (va / 4) && u == 4 * (u / 4);
    OffsetInWords(q, va / 4 - 1024 * q);
    OffsetInWords(q, u / 4 - 1024 * q);
  }

  lemma OffsetInWords(q: int, k: int)
    requires 0 <= k < 1024
    ensures (4096 * q + 4 * k) % 4096 / 4 == k
  {
    Div4096(q, 4 * k);
  }
}
