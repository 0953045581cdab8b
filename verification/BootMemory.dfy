/** The bootloader's mapper, which runs under an identity map. */
module BootMemory {
  import opened Words
  import opened Memory
  import opened Paging
  import opened Trees
  import opened Windows
  import opened Heap
  import opened Ranges
  import opened Spaces
  import opened Rights
  import opened Runs
  import opened LargeRuns
  import opened Machines

  /** `map_4k`; unlike the kernel's it does not mask the addresses. */
  method Map4K(b: Machine, virt: Word, phys: Word, count: Word)
    requires b.Valid() && ReadyToMap(b.View(), virt, count)
    modifies b`ram, b`heap, b`shape
    ensures b.Valid() && MapsRun(old(b.View()), b.View(), virt, phys, count)
    ensures LeavesRun(old(b.View()), b.View(), virt, phys, SmallLow(phys), count)
  {
    ghost var s := b.View();
    MapsNothing(s, virt, phys);
    LeavesNothing(s, virt, phys, SmallLow(phys));
    var i := 0;
    while i < count
      invariant 0 <= i <= count
      invariant b.Valid() && MapsRun(s, b.View(), virt, phys, i)
      invariant LeavesRun(s, b.View(), virt, phys, SmallLow(phys), i)
    {
      MapNext(b, virt, phys, i, s, count);
      i := i + 1;
    }
  }

  /** One round of the loop. */
  method MapNext(b: Machine, virt: Word, phys: Word, i: nat, ghost s: Space, ghost count: nat)
    requires b.Valid() && ReadyToMap(s, virt, count) && i < count
    requires MapsRun(s, b.View(), virt, phys, i) && LeavesRun(s, b.View(), virt, phys, SmallLow(phys), i)
    modifies b`ram, b`heap, b`shape
    ensures b.Valid() && MapsRun(s, b.View(), virt, phys, i + 1)
    ensures LeavesRun(s, b.View(), virt, phys, SmallLow(phys), i + 1)
  {
    ghost var a, p := b.View(), PageAt(virt, i);
    var va := Add64(virt, i * 4096);
    var pa := Add64(phys, i * 4096);
    PageOfStep(virt, i);
    PageOfStep(phys, i);
    RoomForNext(s, a, virt, phys, i, count);
    b.MapPage(va, OrPresentRw(pa), p);
    MapsOneMore(s, a, b.View(), virt, phys, i, OrPresentRw(pa));
    RoundEntry(phys, i);
    LeavesOneMore(s, a, b.View(), virt, phys, SmallLow(phys), i, OrPresentRw(pa));
  }

  /** `map_2m` with its 2 MiB stride. */
  method Map2M(b: Machine, virt: Word, phys: Word, count: Word)
    requires b.Valid() && ReadyForLarge(b.View(), virt, count)
    modifies b`ram, b`heap, b`shape
    ensures b.Valid() && MapsLarge(old(b.View()), b.View(), virt, phys, count)
    ensures LeavesLarge(old(b.View()), b.View(), virt, phys, LargeLow(phys), count)
  {
    ghost var s := b.View();
    LargeNothing(s, virt, phys);
    LargeLeavesNothing(s, virt, phys, LargeLow(phys));
    var i := 0;
    while i < count
      invariant 0 <= i <= count
      invariant b.Valid() && MapsLarge(s, b.View(), virt, phys, i)
      invariant LeavesLarge(s, b.View(), virt, phys, LargeLow(phys), i)
    {
      MapNextLarge(b, virt, phys, i, s, count);
      i := i + 1;
    }
  }

  /** One round of the loop. */
  method MapNextLarge(b: Machine, virt: Word, phys: Word, i: nat, ghost s: Space, ghost count: nat)
    requires b.Valid() && ReadyForLarge(s, virt, count) && i < count
    requires MapsLarge(s, b.View(), virt, phys, i) && LeavesLarge(s, b.View(), virt, phys, LargeLow(phys), i)
    modifies b`ram, b`heap, b`shape
    ensures b.Valid() && MapsLarge(s, b.View(), virt, phys, i + 1)
    ensures LeavesLarge(s, b.View(), virt, phys, LargeLow(phys), i + 1)
  {
    ghost var a := b.View();
    var va := Add64(virt, i * 0x20_0000);
    var pa := Add64(phys, i * 0x20_0000);
    RoomForBlock(s, a, virt, phys, i, count, PageOf(va));
    b.MapBlock(va, OrLarge(pa), PageOf(va));
    LargeOneMore(s, a, b.View(), virt, phys, i, PageOf(va));
    LargeRoundEntry(phys, i);
    LargeLeavesOneMore(s, a, b.View(), virt, phys, LargeLow(phys), i, PageOf(va), OrLarge(pa));
  }

  /** The first MiB, without page 0, at offset zero. */
  const LOW := Window(1, 256, 0)

  /** Four tables chained through slot 0, the last one mapping 256 pages to themselves. */
  ghost predicate IdentityTables(m: Mem, pml4: nat, pdpt: nat, pd: nat, pt: nat) {
    && (forall f {:trigger f in m} | 0 <= f < 256 :: f in m)
    && pml4 < 256 && pdpt < 256 && pd < 256 && pt < 256
    && Chained(m, pml4, pdpt, pd, pt)
    && (forall i {:trigger Entry(m, pt, i)} | 0 <= i < 512 :: Entry(m, pt, i) == if i < 256 then i * 4096 + 3 else 0)
  }

  /** The tables translate the first MiB to itself and nothing else. */
  lemma IdentityTranslation(m: Mem, pml4: nat, pdpt: nat, pd: nat, pt: nat, q: nat)
    requires IdentityTables(m, pml4, pdpt, pd, pt) && q < PAGES
    ensures Translate(m, pml4, q) == if q < 256 then Some(q) else None
    ensures NoLargePage(m, pml4, q)
  {
    FrameEntry(pdpt);
    FrameEntry(pd);
    FrameEntry(pt);
    FrameEntry(q % 512);
    RegionStep(q, 0);
    RegionStep(q, 1);
    RegionStep(q, 2);
    RegionStep(q, 3);
    RootRegion(q);
    var w3 := Entry(m, pml4, Index(q, 3));
    var w2 := Entry(m, pdpt, Index(q, 2));
    var w1 := Entry(m, pd, Index(q, 1));
    var w0 := Entry(m, pt, Index(q, 0));
    assert Walk(m, pt, 0, q) == if Present(w0) then Leaf(0, w0) else Hole(0, pt);
    assert Walk(m, pd, 1, q) == if Index(q, 1) == 0 then Walk(m, pt, 0, q) else Hole(1, pd);
    assert Walk(m, pdpt, 2, q) == if Index(q, 2) == 0 then Walk(m, pd, 1, q) else Hole(2, pdpt);
    assert Walk(m, pml4, 3, q) == if Index(q, 3) == 0 then Walk(m, pdpt, 2, q) else Hole(3, pml4);
  }

  /** Four different frames of the window. */
  predicate StaticTables(pml4: nat, pdpt: nat, pd: nat, pt: nat) {
    && 0 < pml4 < 256 && 0 < pdpt < 256 && 0 < pd < 256 && 0 < pt < 256
    && pml4 != pdpt && pml4 != pd && pml4 != pt && pdpt != pd && pdpt != pt && pd != pt
  }

  /** The places of the four static tables. */
  ghost function IdentityShape(pml4: nat, pdpt: nat, pd: nat, pt: nat): Shape {
    map[pml4 := Node(3, 0), pdpt := Node(2, 0), pd := Node(1, 0), pt := Node(0, 0)]
  }

  lemma LowPointer(f: nat)
    requires f < 256
    ensures Pointer64(LOW, f) == f * 4096 && PageFor(LOW, f) == f
  {
  }

  lemma LowLinear(m: Mem, pml4: nat, pdpt: nat, pd: nat, pt: nat)
    requires IdentityTables(m, pml4, pdpt, pd, pt)
    ensures WellPlaced(LOW) && LinearlyMapped(m, pml4, LOW)
  {
    forall f: nat | LOW.lo <= f < LOW.hi
      ensures Canonical(Pointer64(LOW, f)) && Pointer64(LOW, f) > 0
      ensures f in m && Translate(m, pml4, PageFor(LOW, f)) == Some(f)
    {
      LowPointer(f);
      IdentityTranslation(m, pml4, pdpt, pd, pt, f);
    }
  }

  lemma LowLink(m: Mem, shape: Shape, t: nat, i: nat, c: nat)
    requires t in shape && shape[t].level > 0 && i < 512 && c < 256
    requires Entry(m, t, i) == if i == 0 then c * 4096 + 3 else 0
    requires c in shape && shape[c] == Node(shape[t].level - 1, 0) && shape[t].base == 0
    ensures Linked(m, shape, t, i)
  {
  }

  lemma IdentityTree(m: Mem, pml4: nat, pdpt: nat, pd: nat, pt: nat)
    requires IdentityTables(m, pml4, pdpt, pd, pt) && StaticTables(pml4, pdpt, pd, pt)
    ensures Tree(m, pml4, IdentityShape(pml4, pdpt, pd, pt))
  {
    var shape := IdentityShape(pml4, pdpt, pd, pt);
    forall t, i | t in shape && shape[t].level > 0 && i < 512
      ensures Linked(m, shape, t, i)
    {
      LowLink(m, shape, t, i, if t == pml4 then pdpt else if t == pdpt then pd else pt);
    }
  }

  /** The state `setup_paging` builds. */
  ghost function IdentitySpace(m: Mem, heap: Heap, pml4: nat, pdpt: nat, pd: nat, pt: nat): Space {
    Space(m, pml4, IdentityShape(pml4, pdpt, pd, pt), LOW, heap, heap.base)
  }

  /** The four static tables are not part of the free heap. */
  predicate OffTheHeap(heap: Heap, pml4: nat, pdpt: nat, pd: nat, pt: nat) {
    forall t | t in [pml4, pdpt, pd, pt] :: t < FreeFrame(heap, heap.base) || heap.base + heap.size <= t * 4096
  }

  lemma IdentityValid(m: Mem, heap: Heap, pml4: nat, pdpt: nat, pd: nat, pt: nat)
    requires IdentityTables(m, pml4, pdpt, pd, pt) && StaticTables(pml4, pdpt, pd, pt)
    requires HeapPlaced(heap, LOW, heap.base) && OffTheHeap(heap, pml4, pdpt, pd, pt)
    ensures IdentitySpace(m, heap, pml4, pdpt, pd, pt).Valid()
  {
    IdentityTree(m, pml4, pdpt, pd, pt);
    LowLinear(m, pml4, pdpt, pd, pt);
    var s := IdentitySpace(m, heap, pml4, pdpt, pd, pt);
    forall t | t in s.shape
      ensures t < s.Free() || s.phys + s.heap.size <= t * 4096
    {
      assert t in [pml4, pdpt, pd, pt];
    }
  }

  lemma IdentityOpen(m: Mem, heap: Heap, pml4: nat, pdpt: nat, pd: nat, pt: nat)
    requires IdentityTables(m, pml4, pdpt, pd, pt)
    ensures TablesOpen(IdentitySpace(m, heap, pml4, pdpt, pd, pt))
  {
    FrameEntry(pdpt);
    FrameEntry(pd);
    FrameEntry(pt);
  }

  /** The identity on the first MiB and nothing else, without large pages. */
  ghost predicate IsIdentity(s: Space) {
    forall q: nat {:trigger s.Translated(q)} | q < PAGES ::
      s.Translated(q) == (if q < 256 then Some(q) else None) && s.Smooth(q, 0)
  }

  lemma IdentityIsIdentity(m: Mem, heap: Heap, pml4: nat, pdpt: nat, pd: nat, pt: nat)
    requires IdentityTables(m, pml4, pdpt, pd, pt)
    ensures IsIdentity(IdentitySpace(m, heap, pml4, pdpt, pd, pt))
  {
    var s := IdentitySpace(m, heap, pml4, pdpt, pd, pt);
    forall q: nat | q < PAGES
      ensures s.Translated(q) == (if q < 256 then Some(q) else None) && s.Smooth(q, 0)
    {
      IdentityTranslation(m, pml4, pdpt, pd, pt, q);
    }
  }

  /** The first MiB is mapped to itself, and all tables are seen there; entries that point to
      tables have bits 0 and 1 set and no others. */
  ghost predicate SelfHosting(s: Space) {
    && s.Valid() && s.win == LOW && TablesOpen(s)
    && (forall q: nat {:trigger s.Translated(q)} | q < 256 :: s.Translated(q) == Some(q))
    && (forall t {:trigger t in s.shape} | t in s.shape :: s.Translated(t) == Some(t))
  }

  lemma TablesLow(s: Space)
    requires s.Valid() && s.win == LOW && TablesOpen(s)
    requires forall q: nat {:trigger s.Translated(q)} | q < 256 :: s.Translated(q) == Some(q)
    ensures SelfHosting(s)
  {
  }

  /** Mapping pages behind the first MiB keeps the bootloader able to find its tables. */
  lemma MapKeepsHosting(s: Space, s': Space, virt: Word, phys: Word, n: nat)
    requires SelfHosting(s) && MapsRun(s, s', virt, phys, n)
    requires forall i: nat {:trigger PageAt(virt, i)} | i < n :: PageAt(virt, i) >= 256
    ensures SelfHosting(s')
  {
    forall q: nat | q < 256
      ensures s'.Translated(q) == Some(q)
    {
      RemappedMiss(q, virt, phys, n, s.Translated(q));
      assert s'.Translated(q) == Remapped(q, virt, phys, n, s.Translated(q));
      assert s.Translated(q) == Some(q);
    }
    StaysOpen(s, s');
    TablesLow(s');
  }

  lemma MapLargeKeepsHosting(s: Space, s': Space, virt: Word, phys: Word, n: nat)
    requires SelfHosting(s) && MapsLarge(s, s', virt, phys, n)
    requires forall i: nat {:trigger BlockAt(virt, i)} | i < n :: BlockAt(virt, i) > 0
    ensures SelfHosting(s')
  {
    forall q: nat | q < 256
      ensures s'.Translated(q) == Some(q)
    {
      QuotientRemainder(q, 0, 512, q);
      RemappedLargeMiss(q, virt, phys, n, s.Translated(q));
      assert s'.Translated(q) == RemappedLarge(q, virt, phys, n, s.Translated(q));
      assert s.Translated(q) == Some(q);
    }
    StaysOpen(s, s');
    TablesLow(s');
  }

  /** `setup_paging`, given the frames of its four static tables. Afterwards the
      translation is the identity on the first MiB and undefined elsewhere, and the
      bootloader can find its tables through it. */
  method SetupPaging(b: Machine, pml4: nat, pdpt: nat, pd: nat, pt: nat)
    requires StaticTables(pml4, pdpt, pd, pt) && OffTheHeap(b.heap, pml4, pdpt, pd, pt)
    requires forall f {:trigger f in b.ram} | 0 <= f < 256 :: f in b.ram
    requires HeapPlaced(b.heap, LOW, b.heap.base)
    modifies b
    ensures b.Valid() && b.win == LOW && b.heap == old(b.heap)
    ensures IsIdentity(b.View()) && SelfHosting(b.View()) && b.shape == IdentityShape(pml4, pdpt, pd, pt)
    ensures b.ram.Keys == old(b.ram).Keys
    ensures forall f | f in old(b.ram) && f !in [pml4, pdpt, pd, pt] :: b.ram[f] == old(b.ram)[f]
  {
    var m := LinkTables(b.ram, pml4, pdpt, pd, pt);
    m := FillTable(m, pml4, pdpt, pd, pt);
    ghost var s := IdentitySpace(m, b.heap, pml4, pdpt, pd, pt);
    IdentityValid(m, b.heap, pml4, pdpt, pd, pt);
    IdentityIsIdentity(m, b.heap, pml4, pdpt, pd, pt);
    IdentityOpen(m, b.heap, pml4, pdpt, pd, pt);
    LowPointer(pml4);
    TablesLow(s);
    b.Install(m, pml4, pml4 * 4096, 0, s);
  }

  /** The four tables are cleared and chained through their slots 0. */
  ghost predicate Chained(m: Mem, pml4: nat, pdpt: nat, pd: nat, pt: nat) {
    && (forall i {:trigger Entry(m, pml4, i)} | 0 <= i < 512 ::
          Entry(m, pml4, i) == if i == 0 then pdpt * 4096 + 3 else 0)
    && (forall i {:trigger Entry(m, pdpt, i)} | 0 <= i < 512 ::
          Entry(m, pdpt, i) == if i == 0 then pd * 4096 + 3 else 0)
    && (forall i {:trigger Entry(m, pd, i)} | 0 <= i < 512 :: Entry(m, pd, i) == if i == 0 then pt * 4096 + 3 else 0)
  }

  /** Clears the tables and links them. */
  method LinkTables(ram: Mem, pml4: nat, pdpt: nat, pd: nat, pt: nat) returns (m: Mem)
    requires StaticTables(pml4, pdpt, pd, pt)
    requires pml4 in ram && pdpt in ram && pd in ram && pt in ram
    ensures m.Keys == ram.Keys && m[pt] == ZeroTable() && Chained(m, pml4, pdpt, pd, pt)
    ensures forall f | f in ram && f !in [pml4, pdpt, pd, pt] :: m[f] == ram[f]
  {
    m := ram[pml4 := ZeroTable()][pdpt := ZeroTable()][pd := ZeroTable()][pt := ZeroTable()];
    FrameEntry(pdpt);
    FrameEntry(pd);
    FrameEntry(pt);
    m := SetEntry(m, pml4, 0, OrPresentRw(pdpt * 4096));
    m := SetEntry(m, pdpt, 0, OrPresentRw(pd * 4096));
    m := SetEntry(m, pd, 0, OrPresentRw(pt * 4096));
  }

  /** Identity maps the first MiB with 4 KiB pages. */
  method FillTable(linked: Mem, pml4: nat, pdpt: nat, pd: nat, pt: nat) returns (m: Mem)
    requires StaticTables(pml4, pdpt, pd, pt) && Chained(linked, pml4, pdpt, pd, pt)
    requires forall f {:trigger f in linked} | 0 <= f < 256 :: f in linked
    requires linked[pt] == ZeroTable()
    ensures m.Keys == linked.Keys && IdentityTables(m, pml4, pdpt, pd, pt)
    ensures forall f | f in linked && f != pt :: m[f] == linked[f]
  {
    m := linked;
    var i := 0;
    while i < 0x10_0000
      invariant 0 <= i <= 0x10_0000 && i == i / 4096 * 4096
      invariant m.Keys == linked.Keys
      invariant forall f | f in linked && f != pt :: m[f] == linked[f]
      invariant forall j {:trigger m[pt][j]} | 0 <= j < 512 ::
        m[pt][j] == if j < i / 4096 then j * 4096 + 3 else 0
    {
      FrameEntry(i / 4096);
      m := SetEntry(m, pt, i / 4096, OrPresentRw(i));
      NextPage(i / 4096);
      i := i + 4096;
    }
    assert forall i | 0 <= i < 512 :: Entry(m, pml4, i) == Entry(linked, pml4, i);
    assert forall i | 0 <= i < 512 :: Entry(m, pdpt, i) == Entry(linked, pdpt, i);
    assert forall i | 0 <= i < 512 :: Entry(m, pd, i) == Entry(linked, pd, i);
  }

  lemma NextPage(f: nat)
    ensures (f * 4096 + 4096) / 4096 == f + 1
  {
  }
}
