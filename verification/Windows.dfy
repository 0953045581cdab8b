/** The linear window: the run of physical frames that the running program sees
    at a fixed offset. Its tables and its heap live there, which is what lets it
    turn the address in an entry back into a pointer. */
module Windows {
  import opened Words
  import opened Memory
  import opened Paging
  import opened Trees
  import opened Updates

  /** Frames `lo` to `hi`, seen `shift` pages above their physical place. */
  datatype Window = Window(lo: nat, hi: nat, shift: nat) {
    function Offset(): nat { shift * 4096 }
  }

  /** The virtual address at which the program sees frame `f`. */
  function Pointer64(win: Window, f: nat): Word { Add64(f * 4096, win.Offset()) }

  function PageFor(win: Window, f: nat): (p: nat)
    ensures p < PAGES
  {
    PageOf(Pointer64(win, f))
  }

  /** The addresses of the window are canonical and not null. */
  ghost predicate WellPlaced(win: Window) {
    && win.hi <= PAGES && win.Offset() < TWO64
    && forall f: nat {:trigger Pointer64(win, f)} | win.lo <= f < win.hi ::
         Canonical(Pointer64(win, f)) && Pointer64(win, f) > 0
  }

  /** Every frame of the window is mapped at its linear address. */
  ghost predicate LinearlyMapped(m: Mem, root: nat, win: Window) {
    forall f: nat {:trigger PageFor(win, f)} | win.lo <= f < win.hi ::
      f in m && Translate(m, root, PageFor(win, f)) == Some(f)
  }

  ghost predicate OutsideWindow(win: Window, p: nat) {
    forall f: nat {:trigger PageFor(win, f)} | win.lo <= f < win.hi :: PageFor(win, f) != p
  }

  /** The tables form a tree inside the window and the tree maps the window. */
  ghost predicate SelfMapped(m: Mem, root: nat, shape: Shape, win: Window) {
    && Tree(m, root, shape)
    && (forall t {:trigger t in shape} | t in shape :: win.lo <= t < win.hi)
    && LinearlyMapped(m, root, win)
  }

  lemma InWindow(m: Mem, root: nat, win: Window, f: nat)
    requires LinearlyMapped(m, root, win) && win.lo <= f < win.hi
    ensures f in m && Translate(m, root, PageFor(win, f)) == Some(f)
  {
  }

  /** The linear address is the shifted frame, reduced modulo 2^64. */
  lemma PointerValue(win: Window, f: nat)
    requires f <= PAGES && win.Offset() < TWO64
    ensures Pointer64(win, f) == if f + win.shift < 0x10_0000_0000_0000 then (f + win.shift) * 4096
                                 else (f + win.shift - 0x10_0000_0000_0000) * 4096
    ensures Pointer64(win, f) % 4096 == 0
  {
  }

  /** The pointer that `get_or_create_table` rebuilds from an entry is the address of
      the table exactly if bits 48 to 63 of the entry are clear. */
  lemma PointerOfEntry(win: Window, w: Word)
    ensures Add64(w / 4096 * 4096, win.Offset()) == Pointer64(win, FrameOf(w))
            <==> w == FrameOf(w) * 4096 + w % 4096
  {
    SameSum(w / 4096 * 4096, FrameOf(w) * 4096, win.Offset());
  }

  lemma SameSum(x: nat, y: nat, z: nat)
    requires y <= x < TWO64
    ensures Add64(x, z) == Add64(y, z) <==> x == y
  {
    if Add64(x, z) == Add64(y, z) {
      var q, q' := (x + z) / TWO64, (y + z) / TWO64;
      assert x - y == (q - q') * TWO64;
    }
  }

  /** The address that `get_or_create_table` stores for a pointer. */
  lemma EntryOfPointer(win: Window, f: nat)
    requires f <= PAGES && win.Offset() < TWO64
    ensures Sub64(Pointer64(win, f), win.Offset()) == f * 4096
  {
  }

  /** The entry that `get_or_create_table` writes for a new table. */
  lemma NewEntry(win: Window, f: nat)
    requires f < PAGES && win.Offset() < TWO64
    ensures OrPresentRw(Sub64(Pointer64(win, f), win.Offset())) == f * 4096 + 3
  {
    EntryOfPointer(win, f);
    FrameEntry(f);
  }

  /** The window stays mapped when the leaves of its pages stay. */
  lemma StillLinear(m: Mem, m': Mem, root: nat, win: Window)
    requires LinearlyMapped(m, root, win) && m.Keys <= m'.Keys
    requires forall q: nat | q < PAGES && !OutsideWindow(win, q) :: SameLeaf(m, m', root, q)
    ensures LinearlyMapped(m', root, win)
  {
    forall f: nat | win.lo <= f < win.hi
      ensures f in m' && Translate(m', root, PageFor(win, f)) == Some(f)
    {
      var q := PageFor(win, f);
      assert !OutsideWindow(win, q);
      StillMapped(m, m', root, q, f);
    }
  }

  lemma StillMapped(m: Mem, m': Mem, root: nat, q: nat, f: nat)
    requires Translate(m, root, q) == Some(f) && SameLeaf(m, m', root, q)
    ensures Translate(m', root, q) == Some(f)
  {
  }

  /** Hanging a new table of the window keeps the program self-mapped. */
  lemma HangKeeps(m: Mem, m': Mem, root: nat, shape: Shape, win: Window,
                  p: nat, level: Level, t: nat, c: nat)
    requires SelfMapped(m, root, shape, win)
    requires Passes(m, root, p, level, t) && level > 0
    requires !Present(Entry(m, t, Index(p, level)))
    requires TableHung(m, m', p, level, t, c) && c !in shape
    requires win.lo <= c < win.hi
    ensures SelfMapped(m', root, shape[c := Node(level - 1, Region(p, level))], win)
  {
    HangTable(m, m', root, shape, p, level, t, c);
    StillLinear(m, m', root, win);
  }

  /** Writing a slot that serves no page of the window keeps the program self-mapped. */
  lemma SetKeeps(m: Mem, m': Mem, root: nat, shape: Shape, win: Window,
                 p: nat, level: Level, t: nat, w: Word)
    requires SelfMapped(m, root, shape, win)
    requires Passes(m, root, p, level, t)
    requires SlotSet(m, m', p, level, t, w)
    requires level == 0 || !Pointer(w)
    requires forall q: nat | q < PAGES && Region(q, level) == Region(p, level) :: OutsideWindow(win, q)
    ensures SelfMapped(m', root, shape, win)
  {
    SetSlot(m, m', root, shape, p, level, t, w);
    StillLinear(m, m', root, win);
  }
}
