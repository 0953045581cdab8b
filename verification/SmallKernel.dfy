/** A concrete state of the kernel, of the kind that its `setup_paging` leaves: the second
    MiB of RAM is the kernel's, mapped at `KERNEL_BASE`, and the lower half is unmapped. */
module SmallKernel {
  import opened Words
  import opened Memory
  import opened Paging
  import opened Trees
  import opened Windows
  import opened Heap
  import opened Spaces

  const FIRST: nat := 0x100       // the first frame of the kernel, which is its PML4
  const HIGH: nat := 0x8_0000_0000 // the page at `KERNEL_BASE`

  /** Four tables: PML4, PDPT, PD and PT. */
  function TableWord(f: nat, i: nat): Word
    requires i < 512
  {
    if f == 0x100 && i == 256 then 0x10_1003
    else if (f == 0x101 || f == 0x102) && i == 0 then (f + 1) * 4096 + 3
    else if f == 0x103 && i < 256 then (FIRST + i) * 4096 + 3
    else 0
  }

  function FrameWords(f: nat): Table { seq(512, i requires 0 <= i < 512 => TableWord(f, i)) }

  /** Two MiB of RAM. */
  function SmallRam(): Mem { map f: nat | f < 512 :: FrameWords(f) }

  const HELD := Window(0x100, 0x200, 0xF_FFF8_0000_0000 - 0x100)

  const SMALL_HEAP := Heap(0xFFFF_8000_0000_8000, 0xF_0000, 0)

  function SmallSpace(): Space {
    Space(SmallRam(), FIRST, map[0x100 := Node(3, 0), 0x101 := Node(2, 256), 0x102 := Node(1, 256 * 512),
                                 0x103 := Node(0, 256 * 512 * 512)], HELD, SMALL_HEAP, 0x10_8000)
  }

  lemma WordAt(f: nat, i: nat)
    requires i < 512
    ensures Entry(SmallRam(), f, i) == TableWord(f, i)
  {
  }

  lemma PointerSlots()
    ensures Pointer(0x10_1003) && FrameOf(0x10_1003) == 0x101
    ensures Pointer(0x10_2003) && FrameOf(0x10_2003) == 0x102
    ensures Pointer(0x10_3003) && FrameOf(0x10_3003) == 0x103
  {
    FrameEntry(0x101);
    FrameEntry(0x102);
    FrameEntry(0x103);
  }

  /** The slots of a page, and where its walk goes. */
  lemma SmallWalk(q: nat)
    requires q < PAGES
    ensures Walk(SmallRam(), 0x100, 3, q) ==
      if Index(q, 3) != 256 then Hole(3, 0x100)
      else if Index(q, 2) != 0 then Hole(2, 0x101)
      else if Index(q, 1) != 0 then Hole(1, 0x102)
      else if Index(q, 0) >= 256 then Hole(0, 0x103)
      else Leaf(0, (FIRST + Index(q, 0)) * 4096 + 3)
  {
    var m := SmallRam();
    PointerSlots();
    WordAt(0x100, Index(q, 3));
    WordAt(0x101, Index(q, 2));
    WordAt(0x102, Index(q, 1));
    WordAt(0x103, Index(q, 0));
    FrameEntry(FIRST + Index(q, 0));
    assert Walk(m, 0x103, 0, q) ==
      if Index(q, 0) >= 256 then Hole(0, 0x103) else Leaf(0, (FIRST + Index(q, 0)) * 4096 + 3);
    assert Walk(m, 0x102, 1, q) == if Index(q, 1) != 0 then Hole(1, 0x102) else Walk(m, 0x103, 0, q);
    assert Walk(m, 0x101, 2, q) == if Index(q, 2) != 0 then Hole(2, 0x101) else Walk(m, 0x102, 1, q);
  }

  /** Exactly the kernel's frames are mapped. */
  lemma SmallTranslation(q: nat)
    requires q < PAGES
    ensures Translate(SmallRam(), 0x100, q) == if HIGH <= q < HIGH + 256 then Some(q - HIGH + FIRST) else None
    ensures SmallSpace().Smooth(q, 0)
  {
    SmallWalk(q);
    RegionStep(q, 0);
    RegionStep(q, 1);
    RegionStep(q, 2);
    RegionStep(q, 3);
    RootRegion(q);
    FrameEntry(FIRST + Index(q, 0));
  }

  lemma HeldPointer(f: nat)
    requires 0x100 <= f < 0x200
    ensures Pointer64(HELD, f) == 0xFFFF_8000_0000_0000 + (f - 0x100) * 4096
    ensures PageFor(HELD, f) == HIGH + (f - FIRST)
  {
    PointerValue(HELD, f);
    QuotientRemainder(Pointer64(HELD, f) / 4096, 0xFFFF, PAGES, HIGH + (f - FIRST));
  }

  lemma SmallTree()
    ensures Tree(SmallRam(), FIRST, SmallSpace().shape)
  {
    var m, shape := SmallRam(), SmallSpace().shape;
    PointerSlots();
    forall t, i | t in shape && shape[t].level > 0 && i < 512
      ensures Linked(m, shape, t, i)
    {
      WordAt(t, i);
    }
  }

  lemma SmallLinear()
    ensures WellPlaced(HELD) && LinearlyMapped(SmallRam(), FIRST, HELD)
  {
    forall f: nat | HELD.lo <= f < HELD.hi
      ensures Canonical(Pointer64(HELD, f)) && Pointer64(HELD, f) > 0
      ensures f in SmallRam() && Translate(SmallRam(), FIRST, PageFor(HELD, f)) == Some(f)
    {
      HeldPointer(f);
      SmallTranslation(PageFor(HELD, f));
    }
  }

  lemma SmallHeap()
    ensures HeapPlaced(SMALL_HEAP, HELD, 0x10_8000) && FreeFrame(SMALL_HEAP, 0x10_8000) == 0x108
  {
  }

  /** The state meets the kernel's invariant. */
  lemma SmallKernelValid()
    ensures SmallSpace().Valid()
  {
    var s := SmallSpace();
    SmallTree();
    SmallLinear();
    SmallHeap();
    assert s.FreeFramesUnused();
    assert SelfMapped(s.ram, s.root, s.shape, s.win);
  }

  /** A page of the lower half can be mapped there. */
  lemma LowPageFree(q: nat)
    requires q < HIGH
    ensures OutsideWindow(HELD, q) && SmallSpace().Smooth(q, 0)
  {
    SmallTranslation(q);
    forall f: nat | HELD.lo <= f < HELD.hi
      ensures PageFor(HELD, f) != q
    {
      HeldPointer(f);
    }
  }
}
