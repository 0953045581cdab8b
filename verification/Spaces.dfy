/** The self-mapping invariant: a program that finds its own page tables, and the
    free part of its heap, through the translation those tables define. */
module Spaces {
  import opened Words
  import opened Memory
  import opened Paging
  import opened Trees
  import opened Updates
  import opened Windows
  import opened Heap
  import opened Ranges

  /** Memory, PML4 frame, shape of the tables, window, heap and its physical start. */
  datatype Space = Space(ram: Mem, root: nat, shape: Shape, win: Window, heap: Heap, phys: nat) {

    ghost predicate Valid() {
      && WellPlaced(win) && SelfMapped(ram, root, shape, win)
      && HeapPlaced(heap, win, phys) && FreeFramesUnused()
    }

    /** No table lies in the unallocated part of the heap. */
    ghost predicate FreeFramesUnused() {
      forall t {:trigger t in shape} | t in shape :: t < Free() || phys + heap.size <= t * 4096
    }

    function Free(): nat { FreeFrame(heap, phys) }

    predicate Room(k: nat) { RoomFor(heap, phys, k) }

    function Walked(p: nat): Outcome { Walk(ram, root, 3, p) }

    function Translated(p: nat): Option<nat> { Translate(ram, root, p) }

    /** The walk of `p` meets no large page above level `target`. */
    predicate Smooth(p: nat, target: Level) {
      var o := Walked(p);
      o.Leaf? ==> o.level <= target
    }

    /** How many tables are missing above a slot of level `target` for page `p`. */
    function Missing(p: nat, target: Level): nat {
      var o := Walked(p);
      if o.Hole? && o.level > target then o.level - target else 0
    }
  }

  /** An entry of an upper table that was present stays so and, as long as it points to a
      table, is the same; a new one that points to a table is its address with bits 0 and 1 set. */
  ghost predicate LinkKept(s: Space, s': Space, t: nat, i: nat)
    requires i < 512
  {
    var w, w' := Entry(s.ram, t, i), Entry(s'.ram, t, i);
    if t in s.shape && Present(w) then Present(w') && (Pointer(w') ==> w' == w)
    else Pointer(w') ==> w' == FrameOf(w') * 4096 + 3
  }

  ghost predicate LinksKept(s: Space, s': Space) {
    forall t: nat, i: nat {:trigger LinkKept(s, s', t, i)} | t in s'.shape && s'.shape[t].level > 0 && i < 512 ::
      LinkKept(s, s', t, i)
  }

  /** What every step of the mapper keeps: the invariant, the place of the heap
      and the window, the entries that point to tables, and all memory that is not a
      table. New tables are exactly frames taken from the free heap. */
  ghost predicate Kept(s: Space, s': Space) {
    && s'.Valid() && s'.win == s.win && s'.phys == s.phys && s'.root == s.root
    && s'.heap.base == s.heap.base && s'.heap.size == s.heap.size
    && s'.ram.Keys == s.ram.Keys && s.shape.Keys <= s'.shape.Keys && s.Free() <= s'.Free() && LinksKept(s, s')
    && (forall f {:trigger s'.ram[f]} | f in s.ram && f !in s'.shape :: s'.ram[f] == s.ram[f])
    && (forall t {:trigger t in s'.shape} | t in s'.shape :: t in s.shape || s.Free() <= t < s'.Free())
    && (forall t {:trigger s'.shape[t]} | t in s.shape :: s'.shape[t] == s.shape[t])
  }

  lemma KeptTransitive(a: Space, b: Space, c: Space)
    requires Kept(a, b) && Kept(b, c)
    ensures Kept(a, c)
  {
    LinksTransitive(a, b, c);
  }

  lemma LinksTransitive(a: Space, b: Space, c: Space)
    requires LinksKept(a, b) && LinksKept(b, c)
    requires a.shape.Keys <= b.shape.Keys <= c.shape.Keys
    requires forall t {:trigger c.shape[t]} | t in b.shape :: c.shape[t] == b.shape[t]
    requires forall t {:trigger t in c.shape} | t in c.shape && t !in b.shape :: t !in a.shape
    ensures LinksKept(a, c)
  {
    forall t: nat, i: nat | t in c.shape && c.shape[t].level > 0 && i < 512
      ensures LinkKept(a, c, t, i)
    {
      assert LinkKept(b, c, t, i);
      if t in b.shape {
        assert LinkKept(a, b, t, i);
      }
    }
  }

  /** The first free frame can take a table. */
  lemma FreeIsUsable(s: Space)
    requires s.Valid() && s.Room(1)
    ensures s.Free() !in s.shape && s.Free() in s.ram && s.win.lo <= s.Free() < s.win.hi && s.Free() < PAGES
    ensures Allocate(s.heap, TABLE).1 == Some(Pointer64(s.win, s.Free()))
    ensures Pointer64(s.win, s.Free()) > 0
  {
    AllocateTable(s.heap, s.win, s.phys);
    InWindow(s.ram, s.root, s.win, s.Free());
  }

  /** A step that may have added empty tables but changed no translation. */
  ghost predicate Grown(s: Space, s': Space) {
    && Kept(s, s')
    && forall q: nat {:trigger SameLeaf(s.ram, s'.ram, s.root, q)} | q < PAGES :: SameLeaf(s.ram, s'.ram, s.root, q)
  }

  lemma GrownSame(s: Space)
    requires s.Valid()
    ensures Grown(s, s)
  {
  }

  lemma GrownTransitive(a: Space, b: Space, c: Space)
    requires Grown(a, b) && Grown(b, c)
    ensures Grown(a, c)
  {
    KeptTransitive(a, b, c);
    forall q: nat | q < PAGES
      ensures SameLeaf(a.ram, c.ram, a.root, q)
    {
      assert SameLeaf(a.ram, b.ram, a.root, q) && SameLeaf(b.ram, c.ram, b.root, q);
    }
  }

  /** The frames taken are the tables that were missing for page `p`. */
  ghost predicate Paid(s: Space, s': Space, p: nat, target: Level) {
    s.Free() <= s'.Free() && s'.Free() + s'.Missing(p, target) == s.Free() + s.Missing(p, target)
  }

  lemma PaidTransitive(a: Space, b: Space, c: Space, p: nat, target: Level)
    requires Paid(a, b, p, target) && Paid(b, c, p, target)
    ensures Paid(a, c, p, target)
  {
  }

  /** Room reserved for the missing tables is still there after a step. */
  lemma RoomPaid(s: Space, s': Space, p: nat, target: Level)
    requires Kept(s, s') && Paid(s, s', p, target) && s.Room(s.Missing(p, target))
    ensures s'.Room(s'.Missing(p, target))
  {
  }

  lemma NothingMissing(s: Space, p: nat, level: Level, t: nat)
    requires s.Valid() && Passes(s.ram, s.root, p, level, t)
    ensures s.Missing(p, level) == 0
  {
    PassesNode(s.ram, s.root, s.shape, p, level, t);
    StopsBelow(s.ram, t, level, p);
  }

  lemma StopsBelow(m: Mem, t: nat, level: Level, p: nat)
    ensures Walk(m, t, level, p).level <= level
    decreases level
  {
  }

  /** A walk that ends at or below a level passes a table of that level. */
  lemma Reached(m: Mem, t: nat, level: Level, p: nat, target: Level)
    requires target <= level && Walk(m, t, level, p).level <= target
    ensures Descend(m, t, level, p, target).Some?
    decreases level
  {
  }

  /** Once the walk of a page gets down to a level, so does the walk of every page
      that shares its region. */
  lemma SharedTables(s: Space, q: nat, p: nat, level: Level)
    requires s.Valid() && q < PAGES && p < PAGES
    requires s.Walked(q).level <= level && Region(p, level + 1) == Region(q, level + 1)
    ensures s.Walked(p).level <= level
  {
    Reached(s.ram, s.root, 3, q, level);
    DescendSame(s.ram, s.root, 3, p, q, level);
    var t := Descend(s.ram, s.root, 3, p, level).value;
    PassesNode(s.ram, s.root, s.shape, p, level, t);
    StopsBelow(s.ram, t, level, p);
  }

  /** The next page of a run lacks at most one table per region it opens. */
  lemma MissingNext(s: Space, a: Word, n: nat)
    requires s.Valid() && (n > 0 ==> s.Walked(PageAt(a, n - 1)).level == 0)
    ensures s.Missing(PageAt(a, n), 0) <= Opened(a, n)
  {
    if n > 0 {
      var u, q, p := a / 4096 + n, PageAt(a, n - 1), PageAt(a, n);
      if u % 0x200 != 0 {
        SharedRegion(a, n, 1);
        SharedTables(s, q, p, 0);
      } else if u % 0x4_0000 != 0 {
        SharedRegion(a, n, 2);
        SharedTables(s, q, p, 1);
      } else if u % 0x800_0000 != 0 {
        SharedRegion(a, n, 3);
        SharedTables(s, q, p, 2);
      }
    }
  }

  lemma SmoothKept(s: Space, s': Space, p: nat, target: Level)
    requires Grown(s, s') && p < PAGES && s.Smooth(p, target)
    ensures s'.Smooth(p, target)
  {
    assert SameLeaf(s.ram, s'.ram, s.root, p);
  }

  /** A table created at the first free frame and hung into slot `i` of `t`. */
  ghost function Create(s: Space, i: nat, t: nat, node: Node): Space
    requires i < 512 && t in s.ram && s.Free() in s.ram && s.Free() < PAGES
  {
    var c := s.Free();
    Space(SetEntry(s.ram[c := ZeroTable()], t, i, c * 4096 + 3), s.root, s.shape[c := node], s.win,
          Allocate(s.heap, TABLE).0, s.phys)
  }

  /** Creating a missing table keeps the invariant, changes no translation, and
      takes exactly one frame of the heap. */
  lemma CreateKeeps(s: Space, p: nat, level: Level, t: nat, s': Space)
    requires s.Valid() && s.Room(1) && level > 0
    requires Passes(s.ram, s.root, p, level, t) && !Present(Entry(s.ram, t, Index(p, level)))
    requires t in s.ram && s.Free() in s.ram && s.Free() < PAGES
    requires s' == Create(s, Index(p, level), t, Node(level - 1, Region(p, level)))
    ensures Grown(s, s') && s'.Free() == s.Free() + 1
    ensures Passes(s'.ram, s.root, p, level - 1, s.Free())
    ensures forall k: Level | k < level :: Paid(s, s', p, k)
  {
    FreeIsUsable(s);
    PassesNode(s.ram, s.root, s.shape, p, level, t);
    HangTable(s.ram, s'.ram, s.root, s.shape, p, level, t, s.Free());
    HangKeeps(s.ram, s'.ram, s.root, s.shape, s.win, p, level, t, s.Free());
    CreateTakesFree(s, Index(p, level), t, Node(level - 1, Region(p, level)), s');
    OneLess(s, s', p, level, t);
  }

  /** The new table takes the first free frame. */
  lemma CreateTakesFree(s: Space, i: nat, t: nat, node: Node, s': Space)
    requires s.Valid() && s.Room(1) && i < 512 && t in s.ram && t in s.shape
    requires s.Free() in s.ram && s.Free() < PAGES && s' == Create(s, i, t, node)
    requires SelfMapped(s'.ram, s.root, s'.shape, s.win)
    requires !Present(Entry(s.ram, t, i))
    ensures Kept(s, s') && s'.Free() == s.Free() + 1
  {
    AllocateTable(s.heap, s.win, s.phys);
    CreateLinks(s, i, t, node, s');
  }

  lemma CreateLinks(s: Space, i: nat, t: nat, node: Node, s': Space)
    requires i < 512 && t in s.ram && t in s.shape && s.Free() in s.ram && s.Free() < PAGES && s.Free() !in s.shape
    requires s' == Create(s, i, t, node) && !Present(Entry(s.ram, t, i))
    ensures LinksKept(s, s')
  {
    FrameEntry(s.Free());
  }

  /** The hole moves one level down. */
  lemma OneLess(s: Space, s': Space, p: nat, level: Level, t: nat)
    requires level > 0 && s'.Free() == s.Free() + 1
    requires s.Walked(p) == Hole(level, t) && s'.Walked(p) == Hole(level - 1, s.Free())
    ensures forall k: Level | k < level :: Paid(s, s', p, k)
  {
  }

  /** What the slot of `p` in a table on its way tells about the whole walk. */
  lemma SlotOnTheWay(s: Space, p: nat, level: Level, t: nat, target: Level)
    requires s.Valid() && Passes(s.ram, s.root, p, level, t) && target < level && s.Smooth(p, target)
    ensures var w := Entry(s.ram, t, Index(p, level));
      && (Present(w) ==> Pointer(w))
      && (!Present(w) ==> s.Walked(p) == Hole(level, t))
      && (s.Room(s.Missing(p, target)) ==> Present(w) || s.Room(1))
  {
    WalkFrom(s.ram, s.root, 3, p, level);
  }

  /** Page `p` now has the 4 KiB leaf `w`; every other page keeps its leaf or hole. */
  ghost predicate PageSet(s: Space, s': Space, p: nat, w: Word) {
    && Kept(s, s')
    && s'.Walked(p) == Leaf(0, w)
    && forall q: nat {:trigger SameLeaf(s.ram, s'.ram, s.root, q)} | q < PAGES && q != p ::
         SameLeaf(s.ram, s'.ram, s.root, q)
  }

  lemma GrownThenSet(a: Space, b: Space, c: Space, p: nat, t: nat, w: Word)
    requires Grown(a, b) && Passes(b.ram, b.root, p, 0, t) && t in b.ram && Present(w)
    requires b.Valid() && OutsideWindow(b.win, p)
    requires c == Write(b, Index(p, 0), t, w)
    ensures PageSet(a, c, p, w) && c.Free() == b.Free()
  {
    WriteKeeps(b, p, 0, t, w, c);
    KeptTransitive(a, b, c);
    forall q: nat | q < PAGES && q != p
      ensures SameLeaf(a.ram, c.ram, a.root, q)
    {
      assert SameLeaf(a.ram, b.ram, a.root, q);
      assert c.Walked(q) == b.Walked(q);
    }
  }

  /** Page `p` is unmapped; every other page keeps its leaf or hole. */
  ghost predicate PageCleared(s: Space, s': Space, p: nat) {
    && Kept(s, s') && s'.heap == s.heap
    && s'.Walked(p).Hole?
    && forall q: nat {:trigger SameLeaf(s.ram, s'.ram, s.root, q)} | q < PAGES && q != p ::
         SameLeaf(s.ram, s'.ram, s.root, q)
  }

  lemma KeptSame(s: Space)
    requires s.Valid()
    ensures Kept(s, s)
  {
  }

  lemma ClearPage(s: Space, s': Space, p: nat, t: nat)
    requires s.Valid() && Passes(s.ram, s.root, p, 0, t) && t in s.ram && OutsideWindow(s.win, p)
    requires s' == Write(s, Index(p, 0), t, 0)
    ensures PageCleared(s, s', p)
  {
    WriteKeeps(s, p, 0, t, 0, s');
    forall q: nat | q < PAGES && q != p
      ensures SameLeaf(s.ram, s'.ram, s.root, q)
    {
      assert s'.Walked(q) == s.Walked(q);
    }
  }

  lemma TableNotNull(s: Space, p: nat, level: Level, t: nat)
    requires s.Valid() && Passes(s.ram, s.root, p, level, t)
    ensures Pointer64(s.win, t) > 0
  {
    PassesNode(s.ram, s.root, s.shape, p, level, t);
  }

  /** The next table of a walk, and its address as rebuilt from the entry. */
  lemma FollowEntry(s: Space, p: nat, level: Level, t: nat, w: Word)
    requires s.Valid() && Passes(s.ram, s.root, p, level, t) && level > 0
    requires w == Entry(s.ram, t, Index(p, level)) && Pointer(w)
    ensures Passes(s.ram, s.root, p, level - 1, FrameOf(w))
    ensures Add64(w / 4096 * 4096, s.win.Offset()) == Pointer64(s.win, FrameOf(w))
    ensures Grown(s, s)
  {
    PassesNode(s.ram, s.root, s.shape, p, level, t);
    assert Linked(s.ram, s.shape, t, Index(p, level));
    DescendStep(s.ram, s.root, 3, p, level);
    PointerOfEntry(s.win, w);
  }

  /** Clearing the frame beforehand does not move the window. */
  lemma ClearKeeps(s: Space, m': Mem)
    requires s.Valid() && s.Room(1)
    requires m' == s.ram[s.Free() := ZeroTable()]
    ensures LinearlyMapped(m', s.root, s.win)
  {
    FreeIsUsable(s);
    OutsideTables(s.ram, m', s.root, s.shape);
    StillLinear(s.ram, m', s.root, s.win);
  }

  /** All that hanging a new table asks of the parent, the frame and the window. */
  lemma AttachReady(s: Space, p: nat, level: Level, t: nat)
    requires s.Valid() && s.Room(1) && Passes(s.ram, s.root, p, level, t)
    ensures WellPlaced(s.win) && LinearlyMapped(s.ram, s.root, s.win)
    ensures LinearlyMapped(s.ram[s.Free() := ZeroTable()], s.root, s.win)
    ensures s.win.lo <= t < s.win.hi && s.win.lo <= s.Free() < s.win.hi
    ensures t in s.ram && s.Free() in s.ram && s.Free() < PAGES
  {
    FreeIsUsable(s);
    ClearKeeps(s, s.ram[s.Free() := ZeroTable()]);
    PassesNode(s.ram, s.root, s.shape, p, level, t);
  }

  /** Slot `i` of `t` written. */
  ghost function Write(s: Space, i: nat, t: nat, w: Word): Space
    requires i < 512 && t in s.ram
  {
    Space(SetEntry(s.ram, t, i, w), s.root, s.shape, s.win, s.heap, s.phys)
  }

  /** Writing a leaf outside the window, or clearing a slot there, keeps the
      invariant and replaces the translation of exactly the pages of the slot. */
  lemma WriteKeeps(s: Space, p: nat, level: Level, t: nat, w: Word, s': Space)
    requires s.Valid() && Passes(s.ram, s.root, p, level, t) && t in s.ram
    requires level == 0 || (Present(w) && !Pointer(w))
    requires s' == Write(s, Index(p, level), t, w)
    requires forall q: nat | q < PAGES && Region(q, level) == Region(p, level) :: OutsideWindow(s.win, q)
    ensures Kept(s, s') && s'.Free() == s.Free()
    ensures forall q: nat | q < PAGES && Region(q, level) == Region(p, level) ::
      s'.Walked(q) == if Present(w) then Leaf(level, w) else Hole(level, t)
    ensures forall q: nat | q < PAGES && Region(q, level) != Region(p, level) ::
      s'.Walked(q) == s.Walked(q)
  {
    PassesNode(s.ram, s.root, s.shape, p, level, t);
    SetSlot(s.ram, s'.ram, s.root, s.shape, p, level, t, w);
    SetKeeps(s.ram, s'.ram, s.root, s.shape, s.win, p, level, t, w);
  }
}
