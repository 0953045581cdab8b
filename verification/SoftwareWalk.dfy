/** The kernel's software walk and how far it agrees with the processor. */
module SoftwareWalk {
  import opened Words
  import opened Memory
  import opened Paging
  import opened Updates
  import opened Windows
  import opened Ranges
  import opened Spaces
  import opened Runs
  import opened Machines

  /** Physical address `f * 4096`, used as a pointer: the frame of RAM that it leads to, if
      the access does not fault. */
  function SeenAt(m: Mem, cr3: nat, f: nat): Option<nat> {
    if f < 0x8_0000_0000 && Translate(m, cr3, f).Some? && Translate(m, cr3, f).value in m then Translate(m, cr3, f)
    else None
  }

  /** `virt_to_phys` from the table in frame `t` on, or None if one of its loads faults. It
      tests PS one level too high and takes every PD entry for a pointer. */
  function Software(m: Mem, cr3: nat, t: nat, level: Level, va: Word): Option<Word>
    decreases level
  {
    match SeenAt(m, cr3, t)
    case None => None
    case Some(g) =>
      var w := Entry(m, g, Index(PageOf(va), level));
      if !Present(w) then Some(0)
      else if level == 0 then Some(FrameOf(w) * 4096 + va % 4096)
      else if level == 3 && Large(w) then Some(FrameOf(w) * 4096 + va % 0x4000_0000)
      else if level == 2 && Large(w) then Some(FrameOf(w) * 4096 + va % 0x20_0000)
      else Software(m, cr3, FrameOf(w), level - 1, va)
  }

  lemma SeenReaches(k: Machine, f: nat)
    requires SeenAt(k.ram, k.cr3, f).Some?
    ensures f * 4096 < TWO64 && k.Reaches(f * 4096, SeenAt(k.ram, k.cr3, f).value)
  {
    QuotientRemainder(f * 4096, f, 4096, 0);
    QuotientRemainder(f, 0, PAGES, f);
  }

  /** `(*table)[i]` through a physical address */
  method LoadSeen(k: Machine, table: Word, i: nat, ghost t: nat) returns (w: Word)
    requires table == t * 4096 && i < 512 && SeenAt(k.ram, k.cr3, t).Some?
    ensures w == Entry(k.ram, SeenAt(k.ram, k.cr3, t).value, i)
  {
    SeenReaches(k, t);
    w := k.Load(table, i, SeenAt(k.ram, k.cr3, t).value);
  }

  /** `virt_to_phys`; the PML4 lies in frame `t`. */
  method VirtToPhys(k: Machine, va: Word, oldPml4: Word, ghost t: nat) returns (phys: Word)
    requires oldPml4 == t * 4096 && Software(k.ram, k.cr3, t, 3, va).Some?
    ensures Some(phys) == Software(k.ram, k.cr3, t, 3, va)
  {
    IndicesOfAddress(va);
    var pdpte := LoadSeen(k, oldPml4, va / 0x80_0000_0000 % 512, t);
    if !Present(pdpte) {
      return 0;
    }
    if Large(pdpte) {
      return FrameOf(pdpte) * 4096 + va % 0x4000_0000;
    }
    var pde := LoadSeen(k, FrameOf(pdpte) * 4096, va / 0x4000_0000 % 512, FrameOf(pdpte));
    if !Present(pde) {
      return 0;
    }
    if Large(pde) {
      return FrameOf(pde) * 4096 + va % 0x20_0000;
    }
    var pte := LoadSeen(k, FrameOf(pde) * 4096, va / 0x20_0000 % 512, FrameOf(pde));
    if !Present(pte) {
      return 0;
    }
    var pe := LoadSeen(k, FrameOf(pte) * 4096, va / 0x1000 % 512, FrameOf(pte));
    if !Present(pe) {
      return 0;
    }
    return FrameOf(pe) * 4096 + va % 0x1000;
  }

  // ----- compared with the processor

  /** Every table that the walk of page `p` passes from table `t` on is mapped to its own
      address. */
  predicate TablesSeen(m: Mem, cr3: nat, t: nat, level: Level, p: nat)
    decreases level
  {
    && SeenAt(m, cr3, t) == Some(t)
    && var w := Entry(m, t, Index(p, level));
       (level > 0 && Pointer(w) ==> TablesSeen(m, cr3, FrameOf(w), level - 1, p))
  }

  /** What the software walk makes of a walk with the given outcome: on a 2 MiB page it
      takes the data at the page's start for a page table. */
  function SoftwareOf(m: Mem, cr3: nat, o: Outcome, va: Word): Option<Word> {
    match o
    case Hole(_, _) => Some(0)
    case Leaf(level, w) =>
      if level == 0 then Some(FrameOf(w) * 4096 + va % 4096)
      else if level == 1 then FromTable(m, cr3, FrameOf(w), va)
      else if level == 2 then Some(FrameOf(w) * 4096 + va % 0x20_0000)
      else Some(FrameOf(w) * 4096 + va % 0x4000_0000)
  }

  /** The last step of the software walk. */
  function FromTable(m: Mem, cr3: nat, t: nat, va: Word): Option<Word> {
    match SeenAt(m, cr3, t)
    case None => None
    case Some(g) =>
      var w := Entry(m, g, Index(PageOf(va), 0));
      if Present(w) then Some(FrameOf(w) * 4096 + va % 4096) else Some(0)
  }

  lemma LastStep(m: Mem, cr3: nat, t: nat, va: Word)
    ensures Software(m, cr3, t, 0, va) == FromTable(m, cr3, t, va)
  {
  }

  /** One step down; a PD entry is followed whatever its PS bit is. */
  lemma WalkStep(m: Mem, cr3: nat, t: nat, level: Level, va: Word, below: Level)
    requires SeenAt(m, cr3, t) == Some(t) && level > 0 && below == level - 1
    requires var w := Entry(m, t, Index(PageOf(va), level)); Present(w) && (level > 1 ==> !Large(w))
    ensures var w := Entry(m, t, Index(PageOf(va), level));
      && Software(m, cr3, t, level, va) == Software(m, cr3, FrameOf(w), below, va)
      && Walk(m, t, level, PageOf(va)) == if Large(w) then Leaf(1, w) else Walk(m, FrameOf(w), below, PageOf(va))
  {
  }

  lemma EndsInHole(m: Mem, cr3: nat, t: nat, level: Level, va: Word)
    requires SeenAt(m, cr3, t) == Some(t) && !Present(Entry(m, t, Index(PageOf(va), level)))
    ensures Software(m, cr3, t, level, va) == Some(0) && Walk(m, t, level, PageOf(va)).Hole?
  {
  }

  lemma EndsInPage(m: Mem, cr3: nat, t: nat, va: Word)
    requires SeenAt(m, cr3, t) == Some(t) && Present(Entry(m, t, Index(PageOf(va), 0)))
    ensures Walk(m, t, 0, PageOf(va)) == Leaf(0, Entry(m, t, Index(PageOf(va), 0)))
    ensures Software(m, cr3, t, 0, va) == Some(FrameOf(Entry(m, t, Index(PageOf(va), 0))) * 4096 + va % 4096)
  {
  }

  lemma EndsInLarge(m: Mem, cr3: nat, t: nat, level: Level, va: Word, w: Word)
    requires SeenAt(m, cr3, t) == Some(t) && level > 1 && w == Entry(m, t, Index(PageOf(va), level))
    requires Present(w) && Large(w)
    ensures Walk(m, t, level, PageOf(va)) == Leaf(level, w)
    ensures Software(m, cr3, t, level, va)
            == Some(FrameOf(w) * 4096 + if level == 3 then va % 0x4000_0000 else va % 0x20_0000)
  {
  }

  lemma TableSeen(m: Mem, cr3: nat, t: nat, level: Level, p: nat, below: nat)
    requires TablesSeen(m, cr3, t, level, p)
    ensures SeenAt(m, cr3, t) == Some(t)
    ensures var w := Entry(m, t, Index(p, level));
      below + 1 == level && Pointer(w) ==> TablesSeen(m, cr3, FrameOf(w), below, p)
  {
  }

  /** The answer depends on the outcome of the architectural walk alone. */
  lemma {:induction false} FollowsWalk(m: Mem, cr3: nat, t: nat, level: Level, va: Word)
    requires TablesSeen(m, cr3, t, level, PageOf(va))
    ensures Software(m, cr3, t, level, va) == SoftwareOf(m, cr3, Walk(m, t, level, PageOf(va)), va)
    decreases level
  {
    var w := Entry(m, t, Index(PageOf(va), level));
    if level > 0 && Present(w) && (level > 1 ==> !Large(w)) {
      var below := level - 1;
      TableSeen(m, cr3, t, level, PageOf(va), below);
      WalkStep(m, cr3, t, level, va, below);
      if Large(w) {
        LastStep(m, cr3, FrameOf(w), va);
      } else {
        FollowsWalk(m, cr3, FrameOf(w), below, va);
      }
    } else {
      TableSeen(m, cr3, t, level, PageOf(va), 0);
      if !Present(w) {
        EndsInHole(m, cr3, t, level, va);
      } else if level == 0 {
        EndsInPage(m, cr3, t, va);
      } else {
        EndsInLarge(m, cr3, t, level, va, w);
      }
    }
  }

  /** The physical address in the given frame, or 0. */
  function AddressIn(frame: Option<nat>, va: Word): nat {
    match frame
    case Some(f) => f * 4096 + va % 4096
    case None => 0
  }

  /** The physical address the processor would use, or 0. */
  function Architectural(m: Mem, pml4: nat, va: Word): nat { AddressIn(Translate(m, pml4, PageOf(va)), va) }

  /** On every walk that meets no large page the two agree. */
  lemma AgreesWithoutLargePages(m: Mem, cr3: nat, pml4: nat, va: Word)
    requires TablesSeen(m, cr3, pml4, 3, PageOf(va)) && NoLargePage(m, pml4, PageOf(va))
    ensures Software(m, cr3, pml4, 3, va) == Some(Architectural(m, pml4, va))
  {
    FollowsWalk(m, cr3, pml4, 3, va);
  }

  /** A load faults exactly on a 2 MiB page whose data cannot be read at its physical
      address. */
  lemma FaultsExactly(m: Mem, cr3: nat, pml4: nat, va: Word)
    requires TablesSeen(m, cr3, pml4, 3, PageOf(va))
    ensures var o := Walk(m, pml4, 3, PageOf(va));
      Software(m, cr3, pml4, 3, va) == None <==>
      o.Leaf? && o.level == 1 && SeenAt(m, cr3, FrameOf(o.entry)) == None
  {
    FollowsWalk(m, cr3, pml4, 3, va);
  }

  /** When the software walk is right about a walk with the given outcome. On a 1 GiB
      page that is its first 2 MiB, as long as bits 12 to 29 of the leaf are clear. On
      a 2 MiB page the page's start must be readable at its physical address, and what
      is there must say the same when it is read as a page table. PS in the PML4 is
      reserved, so only the answer 0 is right. */
  predicate RightOn(m: Mem, cr3: nat, o: Outcome, va: Word) {
    match o
    case Hole(_, _) => true
    case Leaf(level, w) =>
      if level == 0 then true
      else if level == 1 then
        match SeenAt(m, cr3, FrameOf(w))
        case None => false
        case Some(g) => DataSays(Entry(m, g, Index(PageOf(va), 0)), LeafFrame(1, w, PageOf(va)), va)
      else if level == 2 then va % 0x4000_0000 < 0x20_0000 && FrameOf(w) % 0x4_0000 == 0
      else FrameOf(w) == 0 && va % 0x4000_0000 == 0
  }

  /** The mapped data, read as an entry, leads to the frame of the leaf. Where one side
      has no frame, the other one must be physical address 0, the mark of a failure. */
  predicate DataSays(data: Word, frame: Option<nat>, va: Word) {
    match frame
    case Some(f) => if Present(data) then FrameOf(data) == f else f == 0 && va % 4096 == 0
    case None => Present(data) ==> FrameOf(data) == 0 && va % 4096 == 0
  }

  /** `virt_to_phys` returns the architectural answer exactly then, for every memory, every
      PML4 whose tables are mapped to their own addresses, and every address. */
  lemma RightExactly(m: Mem, cr3: nat, pml4: nat, va: Word)
    requires TablesSeen(m, cr3, pml4, 3, PageOf(va))
    ensures Software(m, cr3, pml4, 3, va) == Some(Architectural(m, pml4, va))
            <==> RightOn(m, cr3, Walk(m, pml4, 3, PageOf(va)), va)
  {
    FollowsWalk(m, cr3, pml4, 3, va);
    var o := Walk(m, pml4, 3, PageOf(va));
    RightAnswer(m, cr3, o, va);
  }

  lemma RightAnswer(m: Mem, cr3: nat, o: Outcome, va: Word)
    ensures SoftwareOf(m, cr3, o, va) == Some(AddressIn(FrameAt(o, PageOf(va)), va)) <==> RightOn(m, cr3, o, va)
  {
    if o.Leaf? && o.level == 2 {
      GigabyteLeaf(o.entry, va);
    }
  }

  /** The two readings of a 1 GiB leaf. */
  lemma GigabyteLeaf(w: Word, va: Word)
    ensures FrameOf(w) * 4096 + va % 0x20_0000 == AddressIn(LeafFrame(2, w, PageOf(va)), va)
            <==> va % 0x4000_0000 < 0x20_0000 && FrameOf(w) % 0x4_0000 == 0
  {
    OffsetInGigabyte(va);
    SmallOffset(va);
    var f, r := FrameOf(w) / 0x4_0000, FrameOf(w) % 0x4_0000;
    assert FrameOf(w) * 4096 == f * 0x4000_0000 + r * 4096;
    var k := va % 0x4000_0000 / 0x20_0000;
    BlockOffset(va);
    assert va % 0x4000_0000 == k * 0x20_0000 + va % 0x20_0000;
  }

  lemma BlockOffset(va: Word)
    ensures va % 0x4000_0000 % 0x20_0000 == va % 0x20_0000
  {
    NestedRemainder(va, 0x20_0000, 512, 0x4000_0000);
  }

  lemma OffsetInGigabyte(va: Word)
    ensures PageOf(va) % 0x4_0000 * 4096 + va % 4096 == va % 0x4000_0000
  {
  }

  lemma SmallOffset(va: Word)
    ensures va % 0x4000_0000 == va % 0x20_0000 <==> va % 0x4000_0000 < 0x20_0000
  {
  }

  // ----- after a run of the mapper

  /** A program whose window is not shifted sees every table of every walk. */
  lemma {:induction false} TablesInPlace(s: Space, t: nat, level: Level, p: nat)
    requires s.Valid() && s.win.shift == 0 && p < PAGES && Passes(s.ram, s.root, p, level, t)
    ensures TablesSeen(s.ram, s.root, t, level, p)
    decreases level
  {
    PassesNode(s.ram, s.root, s.shape, p, level, t);
    InWindow(s.ram, s.root, s.win, t);
    UnshiftedPage(s.win, t);
    var w := Entry(s.ram, t, Index(p, level));
    if level > 0 && Pointer(w) {
      DescendStep(s.ram, s.root, 3, p, level);
      TablesInPlace(s, FrameOf(w), level - 1, p);
    }
  }

  lemma UnshiftedPage(win: Window, f: nat)
    requires WellPlaced(win) && win.shift == 0 && win.lo <= f < win.hi
    ensures PageFor(win, f) == f < 0x8_0000_0000
  {
    PointerValue(win, f);
    QuotientRemainder(f, 0, PAGES, f);
  }

  /** After `map_4k` the software walk reads back the flat page map. */
  lemma ReadsBackMapping(s: Space, s': Space, virt: Word, phys: Word, n: nat, va: Word)
    requires MapsRun(s, s', virt, phys, n) && s.win.shift == 0 && s.Smooth(PageOf(va), 0)
    ensures Software(s'.ram, s'.root, s'.root, 3, va)
            == Some(AddressIn(Remapped(PageOf(va), virt, phys, n, s.Translated(PageOf(va))), va))
  {
    SmoothAfter(s, s', virt, phys, n, PageOf(va));
    TablesInPlace(s', s'.root, 3, PageOf(va));
    AgreesWithoutLargePages(s'.ram, s'.root, s'.root, va);
    MappedAt(s, s', virt, phys, n, PageOf(va));
  }

  lemma SmoothAfter(s: Space, s': Space, virt: Word, phys: Word, n: nat, p: nat)
    requires MapsRun(s, s', virt, phys, n) && p < PAGES && s.Smooth(p, 0)
    ensures s'.Valid() && s'.Smooth(p, 0) && s'.win == s.win && NoLargePage(s'.ram, s'.root, p)
    ensures Passes(s'.ram, s'.root, p, 3, s'.root)
  {
  }
}
