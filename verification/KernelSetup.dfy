/** The kernel's `setup_paging`: a private copy of the higher half of the tables
    the bootloader left behind. */
module KernelSetup {
  import opened Words
  import opened Memory
  import opened Paging
  import opened Trees
  import opened Windows
  import opened Heap
  import opened Spaces
  import opened Machines
  import opened SoftwareWalk
  import opened DeepCopy

  /** What the bootloader hands over: memory, its PML4, and the kernel's window and
      the physical start of its heap. */
  datatype Origin = Origin(ram: Mem, root: nat, win: Window, phys: nat)

  /** The old tables map the kernel's window linearly, with 4 KiB pages, in the
      higher half, and lie outside it. */
  ghost predicate Sound(o: Origin) {
    && WellPlaced(o.win) && LinearlyMapped(o.ram, o.root, o.win)
    && OldTables(o.ram, o.root, o.win, o.root, 3)
    && forall f: nat {:trigger PageFor(o.win, f)} | o.win.lo <= f < o.win.hi ::
         NoLargePage(o.ram, o.root, PageFor(o.win, f)) && Index(PageFor(o.win, f), 3) >= 256
  }

  /** The copy is under way: the old tables are in use and untouched. */
  ghost predicate Copying(o: Origin, m: Mem, root: nat, heap: Heap) {
    root == o.root && SameOutside(o.ram, m, o.win) && HeapPlaced(heap, o.win, o.phys)
  }

  /** The old translation still holds. */
  lemma StillOld(o: Origin, m: Mem, root: nat, heap: Heap, p: nat)
    requires Sound(o) && Copying(o, m, root, heap)
    ensures Walk(m, root, 3, p) == Walk(o.ram, o.root, 3, p)
  {
    OldWalk(o.ram, m, o.root, o.win, o.root, 3, p);
  }

  lemma ReachesNew(k: Machine, o: Origin, f: nat)
    requires Sound(o) && Copying(o, k.ram, k.cr3, k.heap) && o.win.lo <= f < o.win.hi
    ensures k.Reaches(Pointer64(o.win, f), f)
  {
    PointerValue(o.win, f);
    InWindow(o.ram, o.root, o.win, f);
    StillOld(o, k.ram, k.cr3, k.heap, PageFor(o.win, f));
  }

  lemma ReachesOld(k: Machine, o: Origin, t: nat, level: Level)
    requires Sound(o) && Copying(o, k.ram, k.cr3, k.heap) && OldTables(o.ram, o.root, o.win, t, level)
    ensures t * 4096 < TWO64 && k.Reaches(t * 4096, t) && k.ram[t] == o.ram[t]
  {
    QuotientRemainder(t * 4096, t, 4096, 0);
    QuotientRemainder(t, 0, PAGES, t);
    StillOld(o, k.ram, k.cr3, k.heap, t);
  }

  /** The old tables are mapped to their own addresses while the copy is under way. */
  lemma {:induction false} OldTablesSeen(o: Origin, m: Mem, root: nat, heap: Heap, t: nat, level: Level, p: nat)
    requires Sound(o) && Copying(o, m, root, heap) && OldTables(o.ram, o.root, o.win, t, level)
    ensures TablesSeen(m, root, t, level, p)
    decreases level
  {
    StillOld(o, m, root, heap, t);
    assert m[t] == o.ram[t];
    var i := Index(p, level);
    if level > 0 && Pointer(Entry(m, t, i)) {
      assert OldSlot(o.ram, o.root, o.win, t, level, i);
      var below := level - 1;
      OldTablesSeen(o, m, root, heap, FrameOf(Entry(m, t, i)), below, p);
    }
  }

  /** `virt_to_phys` finds the frame of a heap page. */
  lemma PhysOfNew(o: Origin, m: Mem, root: nat, heap: Heap, f: nat)
    requires Sound(o) && Copying(o, m, root, heap) && o.win.lo <= f < o.win.hi
    ensures Software(m, root, root, 3, Pointer64(o.win, f)) == Some(f * 4096) && root * 4096 < TWO64
  {
    PointerValue(o.win, f);
    InWindow(o.ram, o.root, o.win, f);
    StillOld(o, m, root, heap, PageFor(o.win, f));
    OldTablesSeen(o, m, root, heap, root, 3, PageFor(o.win, f));
    AgreesWithoutLargePages(m, root, root, Pointer64(o.win, f));
  }

  /** `phys | flags`, where `flags` are bits 0 to 11 and bit 63 of `w`. */
  function WithFlags(phys: Word, w: Word): Word
    requires phys < 0x8000_0000_0000_0000 - 4096
  {
    phys + w % 4096 + w / 0x8000_0000_0000_0000 * 0x8000_0000_0000_0000
  }

  lemma FlagsKept(c: nat, w: Word)
    requires c < PAGES && Pointer(w)
    ensures var e := WithFlags(c * 4096, w);
      && e == c * 4096 + Flags(w) && Pointer(e) && FrameOf(e) == c && Flags(e) == Flags(w)
      && (!NoExecute(w) ==> e == c * 4096 + e % 4096)
  {
    var e := WithFlags(c * 4096, w);
    var top, page := if NoExecute(w) then 0x8_0000_0000_0000 else 0, if NoExecute(w) then 0x8000 else 0;
    QuotientRemainder(w, if NoExecute(w) then 1 else 0, 0x8000_0000_0000_0000, Remains(w));
    QuotientRemainder(e, top + c, 4096, w % 4096);
    QuotientRemainder(top + c, page, PAGES, c);
    LowFlags(w);
    LowFlags(e);
  }

  /** The bits below bit 63. */
  function Remains(w: Word): nat { if NoExecute(w) then w - 0x8000_0000_0000_0000 else w }

  /** Copying slots `first` to 511 of old table `s`, of the given level and region,
      into frame `f`; `lo` is the first frame for the tables below. The copy is `clean`
      if no entry to be copied has bit 63 set. */
  datatype Job = Job(s: nat, f: nat, level: Level, base: nat, first: nat, lo: nat, clean: bool)

  /** Memory, heap and the shape of the tables built so far. */
  datatype Snap = Snap(m: Mem, heap: Heap, shape: Shape)

  function FreeAt(o: Origin, x: Snap): nat { FreeFrame(x.heap, o.phys) }

  /** Frame `f` is not part of the free heap: no later table will be placed there. */
  predicate OffHeap(o: Origin, x: Snap, f: nat) {
    f < FreeAt(o, x) || o.phys + x.heap.size <= f * 4096
  }

  /** Slots before `i` are done, and the heap has room for all tables still to copy. */
  ghost predicate Running(o: Origin, j: Job, x: Snap, i: nat) {
    && Sound(o) && Copying(o, x.m, o.root, x.heap) && o.win.lo <= j.f < o.win.hi
    && OldTables(o.ram, o.root, o.win, j.s, j.level)
    && Slots(o, j, x, i)
  }

  ghost predicate Slots(o: Origin, j: Job, x: Snap, i: nat) {
    && i <= 512 && (j.f < j.lo || o.phys + x.heap.size <= j.f * 4096)
    && (j.clean ==> Executable(o.ram, j.s, j.level, j.first))
    && Progress(o.ram, x.m, x.shape, j.s, j.f, j.level, j.base, j.first, i, j.lo, FreeAt(o, x), j.clean)
    && RoomFor(x.heap, o.phys, Count(o.ram, j.s, j.level, i))
    && Unallocated(o, x) && Cleared(x.m, j.f, j.first)
  }

  /** The slots that are not copied are empty. */
  ghost predicate Cleared(m: Mem, f: nat, first: nat) {
    forall i {:trigger Entry(m, f, i)} | 0 <= i < first && i < 512 :: Entry(m, f, i) == 0
  }

  /** No table built so far lies in the free part of the heap. */
  ghost predicate Unallocated(o: Origin, x: Snap) {
    forall t {:trigger t in x.shape} | t in x.shape :: OffHeap(o, x, t)
  }

  /** Only frame `f` and newly allocated frames change, and those are exactly the
      new tables. */
  ghost predicate Extends(o: Origin, a: Snap, b: Snap, f: nat) {
    && b.m.Keys == a.m.Keys && FreeAt(o, a) <= FreeAt(o, b)
    && b.heap.base == a.heap.base && b.heap.size == a.heap.size
    && (forall g {:trigger b.m[g]} | g in a.m && g != f && !(FreeAt(o, a) <= g < FreeAt(o, b)) :: b.m[g] == a.m[g])
    && (forall t {:trigger t in b.shape} :: t in b.shape <==> t in a.shape || FreeAt(o, a) <= t < FreeAt(o, b))
    && (forall t {:trigger b.shape[t]} | t in a.shape && !(FreeAt(o, a) <= t < FreeAt(o, b)) ::
          t in b.shape && b.shape[t] == a.shape[t])
  }

  lemma ExtendsTransitive(o: Origin, a: Snap, b: Snap, c: Snap, f: nat)
    requires Extends(o, a, b, f) && Extends(o, b, c, f)
    ensures Extends(o, a, c, f)
  {
    forall g | g in a.m && g != f && !(FreeAt(o, a) <= g < FreeAt(o, c))
      ensures c.m[g] == a.m[g]
    {
      assert b.m[g] == a.m[g];
    }
    forall t | t in a.shape && !(FreeAt(o, a) <= t < FreeAt(o, c))
      ensures t in c.shape && c.shape[t] == a.shape[t]
    {
      assert t in b.shape && b.shape[t] == a.shape[t];
    }
    forall t
      ensures t in c.shape <==> t in a.shape || FreeAt(o, a) <= t < FreeAt(o, c)
    {
      assert t in b.shape <==> t in a.shape || FreeAt(o, a) <= t < FreeAt(o, b);
    }
  }

  /** From `a` to `b` exactly the tables below slots `i` to `i'` were allocated. */
  ghost predicate Spent(o: Origin, j: Job, a: Snap, i: nat, b: Snap, i': nat)
    requires i <= 512 && i' <= 512
  {
    FreeAt(o, b) + Count(o.ram, j.s, j.level, i') == FreeAt(o, a) + Count(o.ram, j.s, j.level, i)
  }

  lemma SkipSlot(o: Origin, j: Job, x: Snap, i: nat)
    requires Running(o, j, x, i) && i < 512 && !Pointer(Entry(x.m, j.f, i))
    ensures Running(o, j, x, i + 1) && Extends(o, x, x, j.f) && Spent(o, j, x, i, x, i + 1)
  {
    ExtendsSame(o, x, j.f);
    assert Entry(x.m, j.f, i) == Entry(o.ram, j.s, i);
    KeepSlot(o.ram, x.m, x.shape, j.s, j.f, j.level, j.base, j.first, i, j.lo, FreeAt(o, x), j.clean);
  }

  /** The old entry behind a slot that points to a table. */
  lemma PointerSlot(o: Origin, j: Job, i: nat)
    requires OldTables(o.ram, o.root, o.win, j.s, j.level) && j.level > 0 && i < 512
    requires Pointer(Entry(o.ram, j.s, i))
    ensures var w := Entry(o.ram, j.s, i);
      && w == FrameOf(w) * 4096 + Flags(w)
      && OldTables(o.ram, o.root, o.win, FrameOf(w), j.level - 1)
      && Count(o.ram, j.s, j.level, i)
        == 1 + Count(o.ram, FrameOf(w), j.level - 1, 0) + Count(o.ram, j.s, j.level, i + 1)
  {
    assert OldSlot(o.ram, o.root, o.win, j.s, j.level, i);
  }

  lemma TableBelow(o: Origin, j: Job, i: nat)
    requires OldTables(o.ram, o.root, o.win, j.s, j.level) && j.level > 0 && i < 512
    requires Pointer(Entry(o.ram, j.s, i))
    ensures OldTables(o.ram, o.root, o.win, FrameOf(Entry(o.ram, j.s, i)), j.level - 1)
  {
    assert OldSlot(o.ram, o.root, o.win, j.s, j.level, i);
  }

  lemma CleanSlot(o: Origin, j: Job, i: nat)
    requires j.level > 0 && i < 512 && Pointer(Entry(o.ram, j.s, i))
    ensures j.clean && Executable(o.ram, j.s, j.level, j.first) && j.first <= i ==>
      !NoExecute(Entry(o.ram, j.s, i)) && Executable(o.ram, FrameOf(Entry(o.ram, j.s, i)), j.level - 1, 0)
  {
    if Executable(o.ram, j.s, j.level, j.first) && j.first <= i {
      assert ExecutableSlot(o.ram, j.s, j.level, i);
    }
  }

  /** The copy of the table behind slot `i`. */
  function Child(o: Origin, j: Job, a: Snap, i: nat): Job
    requires i < 512 && j.level > 0
  {
    Job(FrameOf(Entry(o.ram, j.s, i)), FreeAt(o, a), j.level - 1, j.base * 512 + i, 0, FreeAt(o, a) + 1, j.clean)
  }

  /** The entry that refers to the child, with the flags of the old one. */
  function ChildEntry(o: Origin, j: Job, a: Snap, i: nat): Word
    requires i < 512 && FreeAt(o, a) < PAGES
  {
    FreeAt(o, a) * 4096 + Flags(Entry(o.ram, j.s, i))
  }

  lemma ChildEntryFacts(o: Origin, j: Job, a: Snap, i: nat)
    requires OldTables(o.ram, o.root, o.win, j.s, j.level) && j.level > 0 && i < 512
    requires Pointer(Entry(o.ram, j.s, i)) && FreeAt(o, a) < PAGES
    ensures var e := ChildEntry(o, j, a, i);
      && Pointer(e) && FrameOf(e) == FreeAt(o, a) && Flags(e) == Flags(Entry(o.ram, j.s, i))
      && (!NoExecute(Entry(o.ram, j.s, i)) ==> e == FreeAt(o, a) * 4096 + e % 4096)
  {
    PointerSlot(o, j, i);
    FlagsKept(FreeAt(o, a), Entry(o.ram, j.s, i));
  }

  /** The child is allocated, filled verbatim and hung into slot `i`. */
  ghost predicate Started(o: Origin, j: Job, a: Snap, b: Snap, i: nat) {
    && i < 512 && j.level > 0 && Pointer(Entry(o.ram, j.s, i))
    && var w := Entry(o.ram, j.s, i);
    && var c := FreeAt(o, a);
    && c in a.m && c < PAGES && o.win.lo <= c < o.win.hi && j.f in a.m && FrameOf(w) in o.ram
    && b.m == SetEntry(a.m[c := o.ram[FrameOf(w)]], j.f, i, ChildEntry(o, j, a, i))
    && b.shape == a.shape[c := Node(j.level - 1, j.base * 512 + i)]
    && FreeAt(o, b) == c + 1 && b.heap.base == a.heap.base && b.heap.size == a.heap.size
    && HeapPlaced(b.heap, o.win, o.phys)
  }

  /** The first free frame has been allocated and filled with a copy of old table `s`. */
  ghost predicate TableTaken(o: Origin, a: Snap, b: Snap, s: nat) {
    && var c := FreeAt(o, a);
    && c in a.m && c < PAGES && o.win.lo <= c < o.win.hi && s in o.ram
    && b.m == a.m[c := o.ram[s]] && b.shape == a.shape
    && FreeAt(o, b) == c + 1 && b.heap.base == a.heap.base && b.heap.size == a.heap.size
    && HeapPlaced(b.heap, o.win, o.phys)
  }

  lemma IsStarted(o: Origin, j: Job, a: Snap, mid: Snap, b: Snap, i: nat)
    requires i < 512 && j.level > 0 && Pointer(Entry(o.ram, j.s, i)) && j.f in a.m
    requires TableTaken(o, a, mid, FrameOf(Entry(o.ram, j.s, i)))
    requires b.m == SetEntry(mid.m, j.f, i, ChildEntry(o, j, a, i)) && b.heap == mid.heap
    requires b.shape == a.shape[FreeAt(o, a) := Node(j.level - 1, j.base * 512 + i)]
    ensures Started(o, j, a, b, i)
  {
  }

  lemma StartedFacts(o: Origin, j: Job, a: Snap, b: Snap, i: nat)
    requires OldTables(o.ram, o.root, o.win, j.s, j.level) && Slots(o, j, a, i) && Started(o, j, a, b, i)
    ensures j.f != FreeAt(o, a)
    ensures b.m[FreeAt(o, a)] == o.ram[FrameOf(Entry(o.ram, j.s, i))]
    ensures RoomFor(b.heap, o.phys,
                    Count(o.ram, FrameOf(Entry(o.ram, j.s, i)), j.level - 1, 0) + Count(o.ram, j.s, j.level, i + 1))
  {
    PointerSlot(o, j, i);
  }

  /** The child's own slots can now be copied. */
  lemma ChildReady(o: Origin, j: Job, a: Snap, b: Snap, i: nat)
    requires Running(o, j, a, i) && Started(o, j, a, b, i) && j.level > 1
    ensures Running(o, Child(o, j, a, i), b, 0)
  {
    PointerSlot(o, j, i);
    CleanSlot(o, j, i);
    StartedFacts(o, j, a, b, i);
  }

  /** All tables below slot `i` are in place. */
  ghost predicate ChildFinished(o: Origin, j: Job, a: Snap, b: Snap, d: Snap, i: nat)
    requires i < 512 && j.level > 0
  {
    var s := FrameOf(Entry(o.ram, j.s, i));
    && ChildDone(o.ram, d.m, d.shape, s, FreeAt(o, a), j.level - 1, j.base * 512 + i, FreeAt(o, d), j.clean)
    && Extends(o, b, d, FreeAt(o, a)) && Copying(o, d.m, o.root, d.heap)
    && FreeAt(o, d) == FreeAt(o, a) + 1 + Count(o.ram, s, j.level - 1, 0)
  }

  /** Nothing happened since. */
  lemma ExtendsSame(o: Origin, x: Snap, f: nat)
    ensures Extends(o, x, x, f)
  {
  }

  /** The child is a page table: its verbatim copy is all there is to do. */
  lemma PageTableFinished(o: Origin, j: Job, a: Snap, b: Snap, i: nat)
    requires Copying(o, a.m, o.root, a.heap) && o.win.lo <= j.f < o.win.hi && j.f != FreeAt(o, a)
    requires Started(o, j, a, b, i) && j.level == 1
    ensures ChildFinished(o, j, a, b, b, i)
  {
    StillCopying(o, j, a, b, i);
    ExtendsSame(o, b, FreeAt(o, a));
    StartedPageTable(o, j, a, b, i);
  }

  lemma StillCopying(o: Origin, j: Job, a: Snap, b: Snap, i: nat)
    requires Copying(o, a.m, o.root, a.heap) && o.win.lo <= j.f < o.win.hi && Started(o, j, a, b, i)
    ensures Copying(o, b.m, o.root, b.heap)
  {
  }

  lemma StartedPageTable(o: Origin, j: Job, a: Snap, b: Snap, i: nat)
    requires Started(o, j, a, b, i) && j.level == 1 && j.f != FreeAt(o, a)
    ensures ChildDone(o.ram, b.m, b.shape, FrameOf(Entry(o.ram, j.s, i)), FreeAt(o, a), 0,
                      j.base * 512 + i, FreeAt(o, b), j.clean)
  {
    var child := Child(o, j, a, i);
    PageTableDone(o.ram, b.m, b.shape, child.s, child.f, child.base, j.clean);
  }

  /** The child is a directory: all its slots are done. */
  lemma DirectoryFinished(o: Origin, j: Job, a: Snap, b: Snap, d: Snap, i: nat)
    requires i < 512 && j.level > 0 && FreeAt(o, b) == FreeAt(o, a) + 1
    requires Running(o, Child(o, j, a, i), d, 512) && Extends(o, b, d, FreeAt(o, a))
    requires Spent(o, Child(o, j, a, i), b, 0, d, 512)
    ensures ChildFinished(o, j, a, b, d, i)
  {
    var child := Child(o, j, a, i);
    SoFar(o, child, d, 512);
    DirectoryDone(o.ram, d.m, d.shape, child.s, child.f, child.level, child.base, child.first, child.lo,
                  FreeAt(o, d), j.clean);
  }

  lemma ChildExtends(o: Origin, j: Job, a: Snap, b: Snap, d: Snap, i: nat)
    requires OldTables(o.ram, o.root, o.win, j.s, j.level) && Slots(o, j, a, i)
    requires Started(o, j, a, b, i) && ChildFinished(o, j, a, b, d, i)
    ensures Extends(o, a, d, j.f)
  {
    StartedExtends(o, j, a, b, i);
    ExtendsBelow(o, a, b, d, j.f, FreeAt(o, a));
  }

  lemma StartedExtends(o: Origin, j: Job, a: Snap, b: Snap, i: nat)
    requires Started(o, j, a, b, i)
    ensures Extends(o, a, b, j.f)
  {
  }

  /** A frame that is itself new does not count. */
  lemma ExtendsBelow(o: Origin, a: Snap, b: Snap, d: Snap, f: nat, c: nat)
    requires Extends(o, a, b, f) && Extends(o, b, d, c) && FreeAt(o, a) <= c < FreeAt(o, b)
    ensures Extends(o, a, d, f)
  {
    forall g | g in a.m && g != f && !(FreeAt(o, a) <= g < FreeAt(o, d))
      ensures d.m[g] == a.m[g]
    {
      assert b.m[g] == a.m[g];
    }
    forall t
      ensures t in d.shape <==> t in a.shape || FreeAt(o, a) <= t < FreeAt(o, d)
    {
      assert t in b.shape <==> t in a.shape || FreeAt(o, a) <= t < FreeAt(o, b);
    }
    forall t | t in a.shape && !(FreeAt(o, a) <= t < FreeAt(o, d))
      ensures t in d.shape && d.shape[t] == a.shape[t]
    {
      assert t in b.shape && b.shape[t] == a.shape[t];
    }
  }

  lemma ClearedKept(m: Mem, m': Mem, f: nat, first: nat, i: nat, w: Word)
    requires Cleared(m, f, first) && f in m && f in m' && first <= i < 512 && m'[f] == m[f][i := w]
    ensures Cleared(m', f, first)
  {
    forall k | 0 <= k < first && k < 512
      ensures Entry(m', f, k) == 0
    {
      assert Entry(m, f, k) == 0;
    }
  }

  lemma SlotIsFilled(o: Origin, j: Job, a: Snap, b: Snap, d: Snap, i: nat)
    requires OldTables(o.ram, o.root, o.win, j.s, j.level) && Slots(o, j, a, i)
    requires Started(o, j, a, b, i) && ChildFinished(o, j, a, b, d, i)
    requires Extends(o, a, d, j.f)
    ensures SlotFilled(a.m, d.m, a.shape, d.shape, j.f, i, ChildEntry(o, j, a, i), FreeAt(o, a), FreeAt(o, d))
    ensures !(j.lo <= j.f < FreeAt(o, d)) && Cleared(d.m, j.f, j.first)
    ensures j.clean ==> ChildEntry(o, j, a, i) == FreeAt(o, a) * 4096 + ChildEntry(o, j, a, i) % 4096
    ensures var e := ChildEntry(o, j, a, i);
      && Pointer(e) && FrameOf(e) == FreeAt(o, a) && Flags(e) == Flags(Entry(o.ram, j.s, i))
      && (!NoExecute(Entry(o.ram, j.s, i)) ==> e == FreeAt(o, a) * 4096 + e % 4096)
  {
    ChildEntryFacts(o, j, a, i);
    CleanSlot(o, j, i);
    StartedFacts(o, j, a, b, i);
    assert b.m[j.f] == a.m[j.f][i := ChildEntry(o, j, a, i)];
    NotAllocated(o, j, a, b, d, i);
    assert d.m[j.f] == b.m[j.f];
    ClearedKept(a.m, d.m, j.f, j.first, i, ChildEntry(o, j, a, i));
    forall t | t in a.shape
      ensures t in d.shape && d.shape[t] == a.shape[t]
    {
      assert OffHeap(o, a, t);
      assert d.shape[t] == a.shape[t];
    }
  }

  /** The frame being filled is none of the new frames. */
  lemma NotAllocated(o: Origin, j: Job, a: Snap, b: Snap, d: Snap, i: nat)
    requires OldTables(o.ram, o.root, o.win, j.s, j.level) && Slots(o, j, a, i)
    requires Started(o, j, a, b, i) && ChildFinished(o, j, a, b, d, i)
    ensures !(j.lo <= j.f < FreeAt(o, d)) && FreeAt(o, d) * 4096 <= o.phys + a.heap.size && j.lo <= FreeAt(o, a)
  {
    PointerSlot(o, j, i);
  }

  lemma SoFar(o: Origin, j: Job, a: Snap, i: nat)
    requires Slots(o, j, a, i)
    ensures Progress(o.ram, a.m, a.shape, j.s, j.f, j.level, j.base, j.first, i, j.lo, FreeAt(o, a), j.clean)
  {
  }

  lemma ChildSoFar(o: Origin, j: Job, a: Snap, b: Snap, d: Snap, i: nat, below: Level, inner: nat)
    requires i < 512 && j.level > 0 && ChildFinished(o, j, a, b, d, i)
    requires below == j.level - 1 && inner == j.base * 512 + i
    ensures ChildDone(o.ram, d.m, d.shape, FrameOf(Entry(o.ram, j.s, i)), FreeAt(o, a), below, inner, FreeAt(o, d),
                      j.clean)
  {
  }

  lemma SlotProgress(o: Origin, j: Job, a: Snap, b: Snap, d: Snap, i: nat)
    requires OldTables(o.ram, o.root, o.win, j.s, j.level) && Slots(o, j, a, i)
    requires Started(o, j, a, b, i) && ChildFinished(o, j, a, b, d, i)
    requires Extends(o, a, d, j.f)
    ensures Progress(o.ram, d.m, d.shape, j.s, j.f, j.level, j.base, j.first, i + 1, j.lo, FreeAt(o, d), j.clean)
  {
    var below, inner, next := j.level - 1, j.base * 512 + i, i + 1;
    SoFar(o, j, a, i);
    ChildSoFar(o, j, a, b, d, i, below, inner);
    SlotIsFilled(o, j, a, b, d, i);
    FillSlot(o.ram, a.m, d.m, a.shape, d.shape, j.s, FrameOf(Entry(o.ram, j.s, i)), j.f, j.level, j.base, j.first, i,
             ChildEntry(o, j, a, i), j.lo, FreeAt(o, a), FreeAt(o, d), j.clean, below, inner, next);
  }

  lemma SlotAccounts(o: Origin, j: Job, a: Snap, b: Snap, d: Snap, i: nat)
    requires OldTables(o.ram, o.root, o.win, j.s, j.level) && Slots(o, j, a, i)
    requires Started(o, j, a, b, i) && ChildFinished(o, j, a, b, d, i)
    requires Extends(o, a, d, j.f)
    ensures Spent(o, j, a, i, d, i + 1) && Unallocated(o, d)
    ensures RoomFor(d.heap, o.phys, Count(o.ram, j.s, j.level, i + 1))
  {
    PointerSlot(o, j, i);
    NotAllocated(o, j, a, b, d, i);
    forall t | t in d.shape
      ensures OffHeap(o, d, t)
    {
      assert t in a.shape || FreeAt(o, a) <= t < FreeAt(o, d);
    }
  }

  /** One slot further. */
  lemma FinishSlot(o: Origin, j: Job, a: Snap, b: Snap, d: Snap, i: nat)
    requires Running(o, j, a, i) && Started(o, j, a, b, i) && ChildFinished(o, j, a, b, d, i)
    ensures Running(o, j, d, i + 1) && Extends(o, a, d, j.f) && Spent(o, j, a, i, d, i + 1)
  {
    ChildExtends(o, j, a, b, d, i);
    SlotIsFilled(o, j, a, b, d, i);
    SlotProgress(o, j, a, b, d, i);
    SlotAccounts(o, j, a, b, d, i);
  }

  ghost function Now(k: Machine): Snap
    reads k
  {
    Snap(k.ram, k.heap, k.shape)
  }

  /** `virt_to_phys(new_table, PML4Address) | flags`; the old PML4 is still in use. */
  method RedirectedEntry(k: Machine, child: Word, w: Word, ghost o: Origin, ghost j: Job, ghost a: Snap, ghost i: nat)
    returns (entry: Word)
    requires Sound(o) && Copying(o, k.ram, k.cr3, k.heap)
    requires o.win.lo <= FreeAt(o, a) < o.win.hi && FreeAt(o, a) < PAGES
    requires OldTables(o.ram, o.root, o.win, j.s, j.level) && j.level > 0 && i < 512
    requires child == Pointer64(o.win, FreeAt(o, a)) && w == Entry(o.ram, j.s, i) && Pointer(w)
    ensures entry == ChildEntry(o, j, a, i)
  {
    TableBelow(o, j, i);
    PhysOfNew(o, k.ram, k.cr3, k.heap, FreeAt(o, a));
    FlagsKept(FreeAt(o, a), w);
    var phys := VirtToPhys(k, child, k.cr3 * 4096, k.cr3);
    entry := WithFlags(phys, w);
  }

  /** A table allocated and filled with a copy of old table `s`. */
  method CopyTable(k: Machine, from: Word, ghost o: Origin, ghost s: nat, ghost level: Level) returns (table: Word)
    requires Sound(o) && Copying(o, k.ram, k.cr3, k.heap)
    requires OldTables(o.ram, o.root, o.win, s, level) && from == s * 4096
    requires RoomFor(k.heap, o.phys, 1)
    modifies k`ram, k`heap
    ensures table == Pointer64(o.win, FreeAt(o, old(Now(k))))
    ensures Copying(o, k.ram, k.cr3, k.heap) && TableTaken(o, old(Now(k)), Now(k), s)
  {
    AllocateTable(k.heap, o.win, o.phys);
    ghost var c := FreeFrame(k.heap, o.phys);
    table := k.Kmalloc(4096, 4096);
    ReachesNew(k, o, c);
    ReachesOld(k, o, s, level);
    k.CopyFrame(table, from, c, s);
  }

  /** Allocates the child of slot `i`, fills it, and redirects the slot to it. */
  method StartChild(k: Machine, table: Word, i: nat, w: Word, ghost o: Origin, ghost j: Job)
    returns (child: Word)
    requires k.cr3 == o.root && Sound(o) && Copying(o, k.ram, k.cr3, k.heap)
    requires o.win.lo <= j.f < o.win.hi && j.f in k.ram && RoomFor(k.heap, o.phys, 1)
    requires OldTables(o.ram, o.root, o.win, j.s, j.level) && i < 512 && j.level > 0
    requires table == Pointer64(o.win, j.f) && w == Entry(o.ram, j.s, i) && Pointer(w)
    modifies k`ram, k`heap, k`shape
    ensures child == Pointer64(o.win, FreeAt(o, old(Now(k))))
    ensures Started(o, j, old(Now(k)), Now(k), i)
  {
    ghost var a := Now(k);
    TableBelow(o, j, i);
    child := CopyTable(k, FrameOf(w) * 4096, o, FrameOf(w), j.level - 1);
    ghost var mid := Now(k);
    RedirectSlot(k, table, i, child, w, o, j, a);
    k.shape := k.shape[FreeAt(o, a) := Node(j.level - 1, j.base * 512 + i)];
    IsStarted(o, j, a, mid, Now(k), i);
  }

  /** Slot `i` of the table being filled gets its new entry. */
  method RedirectSlot(k: Machine, table: Word, i: nat, child: Word, w: Word, ghost o: Origin, ghost j: Job,
                      ghost a: Snap)
    requires Sound(o) && Copying(o, k.ram, k.cr3, k.heap) && o.win.lo <= j.f < o.win.hi
             && table == Pointer64(o.win, j.f)
    requires o.win.lo <= FreeAt(o, a) < o.win.hi && FreeAt(o, a) < PAGES
    requires OldTables(o.ram, o.root, o.win, j.s, j.level) && j.level > 0 && i < 512
    requires child == Pointer64(o.win, FreeAt(o, a)) && w == Entry(o.ram, j.s, i) && Pointer(w)
    modifies k`ram
    ensures j.f in old(k.ram) && k.ram == SetEntry(old(k.ram), j.f, i, ChildEntry(o, j, a, i))
  {
    ReachesNew(k, o, j.f);
    var entry := RedirectedEntry(k, child, w, o, j, a, i);
    k.Store(table, i, entry, j.f);
  }

  /** The invariant of the loop over the slots. */
  ghost predicate Going(o: Origin, j: Job, start: Snap, x: Snap, first: nat, i: nat)
    requires first <= 512 && i <= 512
  {
    Running(o, j, x, i) && Extends(o, start, x, j.f) && Spent(o, j, start, first, x, i)
  }

  lemma GoingStart(o: Origin, j: Job, start: Snap, first: nat)
    requires first <= 512 && Running(o, j, start, first)
    ensures Going(o, j, start, start, first, first)
  {
  }

  lemma GoingOn(o: Origin, j: Job, start: Snap, a: Snap, x: Snap, first: nat, i: nat)
    requires first <= 512 && i < 512 && Going(o, j, start, a, first, i)
    requires Running(o, j, x, i + 1) && Extends(o, a, x, j.f) && Spent(o, j, a, i, x, i + 1)
    ensures Going(o, j, start, x, first, i + 1)
  {
    ExtendsTransitive(o, start, a, x, j.f);
  }

  lemma GoingSlot(o: Origin, j: Job, start: Snap, a: Snap, first: nat, i: nat)
    requires first <= 512 && i < 512 && Going(o, j, start, a, first, i)
    ensures Sound(o) && Copying(o, a.m, o.root, a.heap) && o.win.lo <= j.f < o.win.hi && Running(o, j, a, i)
    ensures Entry(a.m, j.f, i) == Entry(o.ram, j.s, i)
  {
    SoFar(o, j, a, i);
  }

  /** The loop over the slots of one table; the loops over the tables below are
      inside it. */
  method CopyTables(k: Machine, table: Word, first: nat, level: Level, ghost o: Origin, ghost j: Job)
    requires k.cr3 == o.root && Running(o, j, Now(k), first)
    requires first == j.first && level == j.level && table == Pointer64(o.win, j.f)
    modifies k`ram, k`heap, k`shape
    ensures Running(o, j, Now(k), 512) && Extends(o, old(Now(k)), Now(k), j.f)
    ensures Spent(o, j, old(Now(k)), first, Now(k), 512)
    decreases level, 3
  {
    ghost var start := Now(k);
    var i := first;
    GoingStart(o, j, start, first);
    while i < 512
      invariant first <= i <= 512 && Going(o, j, start, Now(k), first, i)
    {
      NextSlot(k, table, i, level, o, j, start, first);
      i := i + 1;
    }
  }

  /** One round of the loop. */
  method NextSlot(k: Machine, table: Word, i: nat, level: Level, ghost o: Origin, ghost j: Job, ghost start: Snap,
                  ghost first: nat)
    requires k.cr3 == o.root && first <= 512 && i < 512 && Going(o, j, start, Now(k), first, i)
    requires level == j.level && table == Pointer64(o.win, j.f)
    modifies k`ram, k`heap, k`shape
    ensures Going(o, j, start, Now(k), first, i + 1)
    decreases level, 2
  {
    ghost var a := Now(k);
    GoingSlot(o, j, start, a, first, i);
    ReachesNew(k, o, j.f);
    var w := k.Load(table, i, j.f);
    if Present(w) && !Large(w) {
      CopySlot(k, table, i, level, w, o, j);
    } else {
      SkipSlot(o, j, a, i);
    }
    GoingOn(o, j, start, a, Now(k), first, i);
  }

  /** One slot that points to a table: copy that table, redirect the slot, and copy
      the tables below. */
  method CopySlot(k: Machine, table: Word, i: nat, level: Level, w: Word, ghost o: Origin, ghost j: Job)
    requires k.cr3 == o.root && Running(o, j, Now(k), i) && i < 512 && level == j.level
    requires table == Pointer64(o.win, j.f)
    requires w == Entry(k.ram, j.f, i) == Entry(o.ram, j.s, i) && Pointer(w)
    modifies k`ram, k`heap, k`shape
    ensures Running(o, j, Now(k), i + 1) && Extends(o, old(Now(k)), Now(k), j.f)
    ensures Spent(o, j, old(Now(k)), i, Now(k), i + 1)
    decreases level, 1
  {
    ghost var a := Now(k);
    SoFar(o, j, a, i);
    PointerSlot(o, j, i);
    var child := StartChild(k, table, i, w, o, j);
    ghost var b := Now(k);
    CopyBelow(k, child, i, level, o, j, a);
    FinishSlot(o, j, a, b, Now(k), i);
  }

  /** The tables below the child of slot `i`, which was started in state `a`. */
  method CopyBelow(k: Machine, child: Word, ghost i: nat, level: Level, ghost o: Origin, ghost j: Job, ghost a: Snap)
    requires k.cr3 == o.root && Running(o, j, a, i) && Started(o, j, a, Now(k), i) && level == j.level
    requires child == Pointer64(o.win, FreeAt(o, a))
    modifies k`ram, k`heap, k`shape
    ensures ChildFinished(o, j, a, old(Now(k)), Now(k), i)
    decreases level, 0
  {
    ghost var b := Now(k);
    if level > 1 {
      ChildReady(o, j, a, b, i);
      CopyTables(k, child, 0, level - 1, o, Child(o, j, a, i));
      DirectoryFinished(o, j, a, b, Now(k), i);
    } else {
      StartedFacts(o, j, a, b, i);
      PageTableFinished(o, j, a, b, i);
    }
  }

  /** Pages of the higher half, where slot 256 and above of the PML4 are used. */
  predicate Higher(q: nat) { Index(q, 3) >= 256 }

  /** The copy of the PML4 itself. */
  ghost function RootJob(o: Origin, r: nat, free: nat): Job {
    Job(o.root, r, 3, 0, 256, free, Executable(o.ram, o.root, 3, 256))
  }

  lemma RootReady(o: Origin, x: Snap, r: nat)
    requires Sound(o) && Copying(o, x.m, o.root, x.heap) && o.win.lo <= r < o.win.hi
    requires OffHeap(o, x, r)
    requires r in x.m && Verbatim(o.ram, x.m, o.root, r, 256) && Cleared(x.m, r, 256)
    requires x.shape == map[r := Node(3, 0)]
    requires RoomFor(x.heap, o.phys, Count(o.ram, o.root, 3, 256))
    ensures Running(o, RootJob(o, r, FreeAt(o, x)), x, 256)
  {
  }

  /** The new tables as the kernel uses them from now on. */
  ghost function NewSpace(o: Origin, x: Snap, r: nat): Space {
    Space(x.m, r, x.shape, o.win, x.heap, o.phys)
  }

  /** The result of `setup_paging`: the higher half translates as before, all flags
      included, and the lower half is unmapped. */
  ghost predicate HigherHalfCopied(o: Origin, s: Space) {
    && (forall q: nat {:trigger s.Translated(q)} | q < PAGES ::
          s.Translated(q) == if Higher(q) then Translate(o.ram, o.root, q) else None)
    && (forall q: nat {:trigger Trail(s.ram, s.root, 3, q)} | q < PAGES && Higher(q) ::
          Trail(s.ram, s.root, 3, q) == Trail(o.ram, o.root, 3, q))
  }

  /** No walk of a page of the lower half gets behind the PML4. */
  ghost predicate LowerHalfGone(s: Space) {
    forall q: nat {:trigger s.Walked(q)} | q < PAGES && !Higher(q) :: s.Walked(q) == Hole(3, s.root)
  }

  /** The tables are the PML4 and the heap frames from `lo` on. */
  ghost predicate TablesFrom(s: Space, lo: nat) {
    forall t {:trigger t in s.shape} :: t in s.shape <==> t == s.root || lo <= t < s.Free()
  }

  /** A tree of tables, except that bits 48 to 63 of its entries may be set. */
  ghost predicate Hung(m: Mem, root: nat, shape: Shape) {
    && root in shape && shape[root] == Node(3, 0)
    && (forall t {:trigger t in shape} | t in shape :: t in m && t < PAGES)
    && (forall t, i {:trigger Hangs(m, shape, t, i)} | t in shape && shape[t].level > 0 && i < 512 ::
          Hangs(m, shape, t, i))
  }

  /** The new tables hang together, lie in the window and map it linearly. */
  ghost predicate Assembled(o: Origin, s: Space) {
    && WellPlaced(s.win) && Hung(s.ram, s.root, s.shape) && LinearlyMapped(s.ram, s.root, s.win)
    && HeapPlaced(s.heap, s.win, s.phys) && s.FreeFramesUnused()
    && (forall t {:trigger t in s.shape} | t in s.shape :: o.win.lo <= t < o.win.hi)
  }

  /** Every table that a walk passes belongs to a hung tree. */
  lemma {:induction false} HungDescend(m: Mem, root: nat, shape: Shape, s: nat, level: Level, p: nat, target: Level)
    requires Hung(m, root, shape) && target <= level
    requires s in shape && shape[s] == Node(level, Region(p, level + 1))
    requires Descend(m, s, level, p, target).Some?
    ensures Descend(m, s, level, p, target).value in shape
    decreases level
  {
    if level != target {
      RegionStep(p, level);
      var w := Entry(m, s, Index(p, level));
      assert Hangs(m, shape, s, Index(p, level));
      HungDescend(m, root, shape, FrameOf(w), level - 1, p, target);
    }
  }

  /** No old table can be reached from the new root: whatever table the walk of a page
      passes is a frame of the window, where no old table lies. */
  lemma NoOldTable(o: Origin, s: Space, p: nat, level: Level)
    requires Assembled(o, s) && p < PAGES && Descend(s.ram, s.root, 3, p, level).Some?
    ensures var t := Descend(s.ram, s.root, 3, p, level).value;
      o.win.lo <= t < o.win.hi && forall l: Level :: !OldTables(o.ram, o.root, o.win, t, l)
  {
    RootRegion(p);
    HungDescend(s.ram, s.root, s.shape, s.root, 3, p, level);
  }

  lemma NewTranslation(o: Origin, x: Snap, r: nat, free: nat, q: nat)
    requires Running(o, RootJob(o, r, free), x, 512) && q < PAGES
    ensures Translate(x.m, r, q) == if Higher(q) then Translate(o.ram, o.root, q) else None
    ensures Higher(q) ==> Trail(x.m, r, 3, q) == Trail(o.ram, o.root, 3, q)
  {
    var j := RootJob(o, r, free);
    SoFar(o, j, x, 512);
    RootRegion(q);
    if Higher(q) {
      assert Trail(x.m, r, 3, q) == Trail(o.ram, o.root, 3, q);
      TrailWalk(x.m, r, o.ram, o.root, 3, q);
    } else {
      assert Entry(x.m, r, Index(q, 3)) == 0;
    }
  }

  lemma NewTree(m0: Mem, m: Mem, shape: Shape, s: nat, r: nat, lo: nat, hi: nat, clean: bool)
    requires Progress(m0, m, shape, s, r, 3, 0, 256, 512, lo, hi, clean) && Cleared(m, r, 256)
    requires forall t {:trigger t in shape} :: t in shape <==> t == r || lo <= t < hi
    requires hi <= PAGES && r < PAGES
    ensures Hung(m, r, shape) && (clean ==> Tree(m, r, shape))
  {
    forall t, i | t in shape && shape[t].level > 0 && i < 512
      ensures Hangs(m, shape, t, i) && (clean ==> Linked(m, shape, t, i))
    {
      if t != r || i >= 256 {
        assert NewLink(m, shape, t, i, lo, hi, clean);
      } else {
        assert Entry(m, r, i) == 0;
      }
    }
  }

  lemma NewLinear(o: Origin, x: Snap, r: nat, free: nat)
    requires Running(o, RootJob(o, r, free), x, 512)
    ensures LinearlyMapped(x.m, r, o.win)
  {
    forall f: nat | o.win.lo <= f < o.win.hi
      ensures f in x.m && Translate(x.m, r, PageFor(o.win, f)) == Some(f)
    {
      InWindow(o.ram, o.root, o.win, f);
      NewTranslation(o, x, r, free, PageFor(o.win, f));
    }
  }

  lemma NewPlaces(o: Origin, a: Snap, x: Snap, r: nat)
    requires a.shape == map[r := Node(3, 0)] && Extends(o, a, x, r)
    requires Running(o, RootJob(o, r, FreeAt(o, a)), x, 512)
    requires o.win.lo * 4096 <= o.phys && FreeAt(o, x) <= o.win.hi
    ensures Hung(x.m, r, x.shape) && (Executable(o.ram, o.root, 3, 256) ==> Tree(x.m, r, x.shape))
    ensures forall t {:trigger t in x.shape} | t in x.shape :: o.win.lo <= t < o.win.hi && OffHeap(o, x, t)
  {
    SoFar(o, RootJob(o, r, FreeAt(o, a)), x, 512);
    forall t
      ensures t in x.shape <==> t == r || FreeAt(o, a) <= t < FreeAt(o, x)
    {
      assert t in x.shape <==> t in a.shape || FreeAt(o, a) <= t < FreeAt(o, x);
    }
    NewTree(o.ram, x.m, x.shape, o.root, r, FreeAt(o, a), FreeAt(o, x), RootJob(o, r, FreeAt(o, a)).clean);
  }

  /** The finished copy maps the window linearly, and it is self-mapped exactly if no old
      entry that points to a table had bit 63 set. */
  lemma NewSpaceValid(o: Origin, a: Snap, x: Snap, r: nat)
    requires a.shape == map[r := Node(3, 0)] && Extends(o, a, x, r)
    requires Running(o, RootJob(o, r, FreeAt(o, a)), x, 512)
    requires FreeAt(o, x) <= o.win.hi
    ensures Assembled(o, NewSpace(o, x, r)) && HigherHalfCopied(o, NewSpace(o, x, r))
    ensures NewSpace(o, x, r).Valid() <==> Executable(o.ram, o.root, 3, 256)
  {
    var s := NewSpace(o, x, r);
    NewPlaces(o, a, x, r);
    NewLinear(o, x, r, FreeAt(o, a));
    forall q: nat | q < PAGES
      ensures s.Translated(q) == if Higher(q) then Translate(o.ram, o.root, q) else None
      ensures Higher(q) ==> Trail(s.ram, s.root, 3, q) == Trail(o.ram, o.root, 3, q)
    {
      NewTranslation(o, x, r, FreeAt(o, a), q);
    }
    if s.Valid() {
      TreeExecutable(o, s);
    }
  }

  lemma NewTables(o: Origin, a: Snap, x: Snap, r: nat)
    requires a.shape == map[r := Node(3, 0)] && Extends(o, a, x, r)
    requires Running(o, RootJob(o, r, FreeAt(o, a)), x, 512)
    ensures LowerHalfGone(NewSpace(o, x, r)) && TablesFrom(NewSpace(o, x, r), FreeAt(o, a))
  {
    var s := NewSpace(o, x, r);
    forall q: nat | q < PAGES && !Higher(q)
      ensures s.Walked(q) == Hole(3, s.root)
    {
      assert Entry(x.m, r, Index(q, 3)) == 0;
    }
    forall t
      ensures t in s.shape <==> t == s.root || FreeAt(o, a) <= t < s.Free()
    {
      assert t in x.shape <==> t in a.shape || FreeAt(o, a) <= t < FreeAt(o, x);
    }
  }

  /** The pages of one region. */
  function Span(level: Level): nat {
    if level == 0 then 1 else if level == 1 then 0x200 else if level == 2 then 0x4_0000 else 0x800_0000
  }

  /** A page that uses slot `i` of the table of the given level and region. */
  function PageIn(base: nat, level: Level, i: nat): (p: nat)
    requires i < 512
    ensures Region(p, level) == base * 512 + i && Region(p, level + 1) == base && Index(p, level) == i
  {
    var r := base * 512 + i;
    QuotientRemainder(r, base, 512, i);
    var p := r * Span(level);
    PageUp(r, level);
    RegionStep(p, level);
    p
  }

  lemma PageUp(r: nat, level: Level)
    ensures Region(r * Span(level), level) == r
  {
    QuotientRemainder(r * Span(level), r, Span(level), 0);
  }

  /** Old tables with the same trails as a proper tree have no bit 63 set. */
  lemma {:induction false} TrailsExecutable(m: Mem, root: nat, shape: Shape, t: nat, m0: Mem, t0: nat, level: Level,
                                            base: nat, first: nat)
    requires Tree(m, root, shape) && t in shape && shape[t] == Node(level, base)
    requires forall p: nat {:trigger Trail(m, t, level, p)} |
      Region(p, level + 1) == base && Index(p, level) >= first ::
      Trail(m, t, level, p) == Trail(m0, t0, level, p)
    ensures Executable(m0, t0, level, first)
    decreases level, 1
  {
    if level > 0 {
      forall i | first <= i < 512
        ensures ExecutableSlot(m0, t0, level, i)
      {
        TrailsExecutableSlot(m, root, shape, t, m0, t0, level, base, first, i);
      }
    }
  }

  lemma {:induction false} TrailsExecutableSlot(m: Mem, root: nat, shape: Shape, t: nat, m0: Mem, t0: nat,
                                                level: Level, base: nat, first: nat, i: nat)
    requires Tree(m, root, shape) && t in shape && shape[t] == Node(level, base) && level > 0 && first <= i < 512
    requires forall p: nat {:trigger Trail(m, t, level, p)} |
      Region(p, level + 1) == base && Index(p, level) >= first ::
      Trail(m, t, level, p) == Trail(m0, t0, level, p)
    ensures ExecutableSlot(m0, t0, level, i)
    decreases level, 0
  {
    var w, w0 := Entry(m, t, i), Entry(m0, t0, i);
    if Pointer(w0) {
      SameFlags(m, t, m0, t0, level, PageIn(base, level, i));
      assert Linked(m, shape, t, i);
      forall p: nat | Region(p, level) == base * 512 + i
        ensures Trail(m, FrameOf(w), level - 1, p) == Trail(m0, FrameOf(w0), level - 1, p)
      {
        RegionStep(p, level);
        QuotientRemainder(base * 512 + i, base, 512, i);
        SameFlags(m, t, m0, t0, level, p);
      }
      TrailsExecutable(m, root, shape, FrameOf(w), m0, FrameOf(w0), level - 1, base * 512 + i, 0);
    }
  }

  /** Equal trails begin with the same flags and go on as equal trails. */
  lemma SameFlags(m: Mem, t: nat, m0: Mem, t0: nat, level: Level, p: nat)
    requires level > 0 && Trail(m, t, level, p) == Trail(m0, t0, level, p) && Pointer(Entry(m0, t0, Index(p, level)))
    ensures var w, w0 := Entry(m, t, Index(p, level)), Entry(m0, t0, Index(p, level));
      && Pointer(w) && NoExecute(w) == NoExecute(w0)
      && Trail(m, FrameOf(w), level - 1, p) == Trail(m0, FrameOf(w0), level - 1, p)
  {
    var w, w0 := Entry(m, t, Index(p, level)), Entry(m0, t0, Index(p, level));
    FlagsTell(w);
    FlagsTell(w0);
    assert Trail(m0, t0, level, p)[0] == Trail(m, t, level, p)[0];
    assert Trail(m, t, level, p)[1..] == Trail(m0, t0, level, p)[1..];
  }

  lemma TreeExecutable(o: Origin, s: Space)
    requires s.Valid() && HigherHalfCopied(o, s)
    ensures Executable(o.ram, o.root, 3, 256)
  {
    forall p: nat | Region(p, 4) == 0 && Index(p, 3) >= 256
      ensures Trail(s.ram, s.root, 3, p) == Trail(o.ram, o.root, 3, p)
    {
      assert p < PAGES && Higher(p);
    }
    TrailsExecutable(s.ram, s.root, s.shape, s.root, o.ram, o.root, 3, 0, 256);
  }

  lemma ClearOne(m0: Mem, m: Mem, m': Mem, s: nat, r: nat, i: nat)
    requires Verbatim(m0, m, s, r, i) && Cleared(m, r, i) && i < 512 && m' == SetEntry(m, r, i, 0)
    ensures Verbatim(m0, m', s, r, i + 1) && Cleared(m', r, i + 1)
  {
    forall j | i + 1 <= j < 512
      ensures Entry(m', r, j) == Entry(m0, s, j)
    {
      assert Entry(m, r, j) == Entry(m0, s, j);
    }
    forall j | 0 <= j < i + 1 && j < 512
      ensures Entry(m', r, j) == 0
    {
      assert j < i ==> Entry(m, r, j) == 0;
    }
  }

  /** Copies the old PML4 and clears its lower half. */
  method CopyRoot(k: Machine, pml4Address: Word, ghost o: Origin, ghost r: nat)
    requires Sound(o) && Copying(o, k.ram, k.cr3, k.heap) && pml4Address == o.root * 4096
    requires o.win.lo <= r < o.win.hi && k.pml4 == Pointer64(o.win, r)
    modifies k`ram
    ensures Copying(o, k.ram, k.cr3, k.heap) && r in k.ram
    ensures Verbatim(o.ram, k.ram, o.root, r, 256) && Cleared(k.ram, r, 256)
    ensures k.ram.Keys == old(k.ram).Keys && forall g | g in old(k.ram) && g != r :: k.ram[g] == old(k.ram)[g]
  {
    ReachesNew(k, o, r);
    ReachesOld(k, o, o.root, 3);
    k.CopyFrame(k.pml4, pml4Address, r, o.root);
    var i := 0;
    while i < 256
      invariant 0 <= i <= 256 && r in k.ram
      invariant Copying(o, k.ram, k.cr3, k.heap)
      invariant Verbatim(o.ram, k.ram, o.root, r, i) && Cleared(k.ram, r, i)
      invariant k.ram.Keys == old(k.ram).Keys
      invariant forall g | g in old(k.ram) && g != r :: k.ram[g] == old(k.ram)[g]
    {
      ReachesNew(k, o, r);
      ghost var m := k.ram;
      k.Store(k.pml4, i, 0, r);
      ClearOne(o.ram, m, k.ram, o.root, r, i);
      i := i + 1;
    }
  }

  /** Only frame `r` and the frames `lo` to `hi` may differ. */
  ghost predicate SameButTables(m: Mem, m': Mem, r: nat, lo: nat, hi: nat) {
    && m'.Keys == m.Keys
    && forall f {:trigger m'[f]} | f in m && f != r && !(lo <= f < hi) :: m'[f] == m[f]
  }

  lemma ExtendsRoot(o: Origin, m: Mem, a: Snap, b: Snap, r: nat)
    requires Extends(o, a, b, r) && a.m.Keys == m.Keys && forall g | g in m && g != r :: a.m[g] == m[g]
    ensures SameButTables(m, b.m, r, FreeAt(o, a), FreeAt(o, b))
  {
    forall f | f in m && f != r && !(FreeAt(o, a) <= f < FreeAt(o, b))
      ensures b.m[f] == m[f]
    {
      assert b.m[f] == a.m[f];
    }
  }

  /** `setup_paging`: afterwards the kernel runs on its own tables, every page of the
      higher half translates as before through the same leaf and the same flags, the
      lower half is unmapped, exactly one heap frame was used per copied table, nothing
      else in memory changed, and the kernel can find its tables through
      `KERNEL_OFFSET` exactly if no old entry that points to a table had bit 63 set. */
  method SetupPaging(k: Machine, pml4Address: Word, kernelOffset: Word, ghost o: Origin, ghost r: nat)
    requires Sound(o) && k.ram == o.ram && k.cr3 == o.root && pml4Address == o.root * 4096
    requires kernelOffset == o.win.Offset() && HeapPlaced(k.heap, o.win, o.phys)
    requires o.win.lo <= r < o.win.hi && k.pml4 == Pointer64(o.win, r)
    requires OffHeap(o, Now(k), r)
    requires RoomFor(k.heap, o.phys, Count(o.ram, o.root, 3, 256))
    modifies k
    ensures k.win == o.win && k.cr3 == r && k.heapPhys == o.phys
    ensures Assembled(o, k.View()) && HigherHalfCopied(o, k.View())
    ensures k.Valid() <==> Executable(o.ram, o.root, 3, 256)
    ensures LowerHalfGone(k.View()) && TablesFrom(k.View(), FreeFrame(old(k.heap), o.phys))
    ensures k.heap.size == old(k.heap.size)
    ensures k.View().Free() == FreeFrame(old(k.heap), o.phys) + Count(o.ram, o.root, 3, 256)
    ensures SameButTables(o.ram, k.ram, r, FreeFrame(old(k.heap), o.phys), k.View().Free())
  {
    k.kernelOffset := kernelOffset;
    BuildTables(k, pml4Address, o, r);
    Switch(k, o, r);
  }

  /** The copy, before the switch to it. */
  method BuildTables(k: Machine, pml4Address: Word, ghost o: Origin, ghost r: nat)
    requires Sound(o) && Copying(o, k.ram, k.cr3, k.heap) && pml4Address == o.root * 4096
    requires o.win.lo <= r < o.win.hi && k.pml4 == Pointer64(o.win, r) && OffHeap(o, Now(k), r)
    requires RoomFor(k.heap, o.phys, Count(o.ram, o.root, 3, 256))
    modifies k`ram, k`heap, k`shape
    ensures Copying(o, k.ram, k.cr3, k.heap)
    ensures Assembled(o, NewSpace(o, Now(k), r)) && HigherHalfCopied(o, NewSpace(o, Now(k), r))
    ensures NewSpace(o, Now(k), r).Valid() <==> Executable(o.ram, o.root, 3, 256)
    ensures LowerHalfGone(NewSpace(o, Now(k), r)) && TablesFrom(NewSpace(o, Now(k), r), FreeAt(o, old(Now(k))))
    ensures k.heap.size == old(k.heap.size)
    ensures FreeAt(o, Now(k)) == FreeAt(o, old(Now(k))) + Count(o.ram, o.root, 3, 256)
    ensures SameButTables(old(k.ram), k.ram, r, FreeAt(o, old(Now(k))), FreeAt(o, Now(k)))
  {
    ghost var a := CopyTree(k, pml4Address, o, r);
    NewSpaceValid(o, a, Now(k), r);
    NewTables(o, a, Now(k), r);
    ExtendsRoot(o, old(k.ram), a, Now(k), r);
  }

  /** The PML4 and then all tables below it; `a` is the state in between. */
  method CopyTree(k: Machine, pml4Address: Word, ghost o: Origin, ghost r: nat) returns (ghost a: Snap)
    requires Sound(o) && Copying(o, k.ram, k.cr3, k.heap) && pml4Address == o.root * 4096
    requires o.win.lo <= r < o.win.hi && k.pml4 == Pointer64(o.win, r) && OffHeap(o, Now(k), r)
    requires RoomFor(k.heap, o.phys, Count(o.ram, o.root, 3, 256))
    modifies k`ram, k`heap, k`shape
    ensures a.shape == map[r := Node(3, 0)] && a.heap == old(k.heap) && a.m.Keys == old(k.ram).Keys
    ensures forall g | g in old(k.ram) && g != r :: a.m[g] == old(k.ram)[g]
    ensures Running(o, RootJob(o, r, FreeAt(o, a)), Now(k), 512) && Extends(o, a, Now(k), r)
    ensures Spent(o, RootJob(o, r, FreeAt(o, a)), a, 256, Now(k), 512)
  {
    CopyRoot(k, pml4Address, o, r);
    k.shape := map[r := Node(3, 0)];
    a := Now(k);
    RootReady(o, a, r);
    CopyTables(k, k.pml4, 256, 3, o, RootJob(o, r, FreeAt(o, a)));
  }

  /** `load_cr3(virt_to_phys(pml4))` */
  method Switch(k: Machine, ghost o: Origin, ghost r: nat)
    requires Sound(o) && Copying(o, k.ram, k.cr3, k.heap)
    requires o.win.lo <= r < o.win.hi && k.pml4 == Pointer64(o.win, r)
    modifies k
    ensures k.View() == NewSpace(o, old(Now(k)), r)
    ensures k.pml4 == old(k.pml4) && k.kernelOffset == old(k.kernelOffset)
  {
    PhysOfNew(o, k.ram, k.cr3, k.heap, r);
    var phys := VirtToPhys(k, k.pml4, k.cr3 * 4096, k.cr3);
    k.Install(k.ram, phys / 4096, k.pml4, k.kernelOffset, NewSpace(o, Now(k), r));
  }

  /** Once the lower half is gone no page table can be read at its physical address:
      `virt_to_phys` faults at its first load, whatever it is asked. */
  lemma FaultsAfterwards(o: Origin, s: Space, t: nat, va: Word)
    requires HigherHalfCopied(o, s)
    ensures Software(s.ram, s.root, t, 3, va) == None
  {
    if t < 0x8_0000_0000 {
      QuotientRemainder(t / 0x800_0000, 0, 512, t / 0x800_0000);
      assert s.Translated(t) == None;
    }
  }
}
