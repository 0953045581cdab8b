/** From the bootloader to the kernel: what `readElf` leaves behind is what the
    kernel's `setup_paging` needs. */
module Handoff {
  import opened Bytes
  import opened Words
  import opened Memory
  import opened Paging
  import opened Trees
  import opened Windows
  import opened Heap
  import opened Spaces
  import opened Rights
  import opened Machines
  import opened BootMemory
  import opened ElfImages
  import opened Loading
  import opened LoadPlans
  import opened ImageRights
  import opened DeepCopy
  import opened KernelSetup
  import opened TableCounts
  import opened ByteAccess

  /** The frames of a segment, seen at the offset that the kernel computes. */
  function KernelWindow(g: Segment, segments: seq<Segment>, data: Word): Window {
    Window(FirstFrame(g, data), FirstFrame(g, data) + PageCount(g), KernelOffset(PhysBase(segments, data)) / 4096)
  }

  /** A kernel image: linked at `KERNEL_BASE` plus its load addresses, the lowest of which is zero. */
  predicate KernelImage(segments: seq<Segment>, data: Word) {
    && LinkedHigh(segments, data)
    && (exists k :: 0 <= k < |segments| && Loads(segments[k]) && segments[k].paddr == 0)
    && forall i | 0 <= i < |segments| && Loads(segments[i]) :: KERNEL_BASE <= segments[i].virt
  }

  /** A segment whose bytes fit its pages and begin with a page. */
  predicate AlignedFit(g: Segment, data: Word) { g.virt % 4096 == 0 && FitsPages(g, data) }

  /** The kernel's offset takes each frame of the segment to its page. */
  lemma FrameSeen(g: Segment, segments: seq<Segment>, data: Word, i: nat, f: nat)
    requires KernelImage(segments, data) && i < |segments| && segments[i] == g && Loads(g)
    requires AlignedFit(g, data) && CanonicalRange(g) && InFrames(g, data, f)
    ensures var win := KernelWindow(g, segments, data);
      && win.Offset() == KernelOffset(PhysBase(segments, data))
      && Pointer64(win, f) == g.virt + (f - FirstFrame(g, data)) * 4096 && Canonical(Pointer64(win, f))
      && PageFor(win, f) == FirstPage(g) + (f - FirstFrame(g, data)) && InPages(g, PageFor(win, f))
  {
    HandoffExactly(segments, data, i);
    var o := (f - FirstFrame(g, data)) * 4096;
    BytePlace(g, data, o);
    ShiftedOffset(g.virt, Target(g, data), o);
    QuotientRemainder(o, f - FirstFrame(g, data), 4096, 0);
  }

  /** Adding the offset between two page-aligned addresses. */
  lemma ShiftedOffset(virt: Word, phys: Word, o: nat)
    requires virt % 4096 == 0 && phys % 4096 == 0 && virt + o < TWO64
    ensures Sub64(virt, phys) % 4096 == 0 && Sub64(virt, phys) / 4096 * 4096 == Sub64(virt, phys)
    ensures Add64(phys + o, Sub64(virt, phys)) == virt + o
  {
    var v, p := virt / 4096, phys / 4096;
    if virt >= phys {
      QuotientRemainder(virt + TWO64 - phys, 1, TWO64, virt - phys);
      QuotientRemainder(virt - phys, v - p, 4096, 0);
      QuotientRemainder(virt + o, 0, TWO64, virt + o);
    } else {
      QuotientRemainder(virt + TWO64 - phys, 0, TWO64, virt + TWO64 - phys);
      QuotientRemainder(virt + TWO64 - phys, 0x10_0000_0000_0000 + v - p, 4096, 0);
      QuotientRemainder(virt + o + TWO64, 1, TWO64, virt + o);
    }
  }

  /** A segment loaded with 4 KiB pages is a linear window of the kernel in the higher half. */
  lemma SegmentIsWindow(s: Space, g: Segment, segments: seq<Segment>, data: Word, file: seq<Byte>, i: nat)
    requires KernelImage(segments, data) && i < |segments| && segments[i] == g && Loads(g)
    requires g.virt % 4096 == 0 && Placed(s, g, data) && SegmentSeen(s, g, data, file) && Clear(s, g)
    ensures var win := KernelWindow(g, segments, data);
      && WellPlaced(win) && LinearlyMapped(s.ram, s.root, win)
      && forall f: nat {:trigger PageFor(win, f)} | win.lo <= f < win.hi ::
           NoLargePage(s.ram, s.root, PageFor(win, f)) && Index(PageFor(win, f), 3) >= 256
  {
    var win := KernelWindow(g, segments, data);
    WindowBounds(g, segments, data);
    forall f: nat | win.lo <= f < win.hi
      ensures Canonical(Pointer64(win, f)) && Pointer64(win, f) > 0
      ensures f in s.ram && Translate(s.ram, s.root, PageFor(win, f)) == Some(f)
      ensures NoLargePage(s.ram, s.root, PageFor(win, f)) && Index(PageFor(win, f), 3) >= 256
    {
      FrameSeen(g, segments, data, i, f);
      HighPage(Pointer64(win, f));
      FrameOfSegment(s, g, data, file, f, PageFor(win, f));
    }
  }

  lemma WindowBounds(g: Segment, segments: seq<Segment>, data: Word)
    requires FirstFrame(g, data) + PageCount(g) <= PAGES
    ensures var win := KernelWindow(g, segments, data); win.hi <= PAGES && win.Offset() < TWO64
  {
  }

  lemma FrameOfSegment(s: Space, g: Segment, data: Word, file: seq<Byte>, f: nat, q: nat)
    requires Placed(s, g, data) && SegmentSeen(s, g, data, file) && Clear(s, g)
    requires InFrames(g, data, f) && q == FirstPage(g) + (f - FirstFrame(g, data))
    ensures f in s.ram && s.Translated(q) == Some(f) && s.Smooth(q, 0)
  {
  }

  /** Canonical addresses from `KERNEL_BASE` on use the upper half of the PML4. */
  lemma HighPage(va: Word)
    requires KERNEL_BASE <= va
    ensures Index(PageOf(va), 3) >= 256
  {
    var p := va / 4096;
    QuotientRemainder(p, 0xFFFF, PAGES, p - 0xFFFF * PAGES);
    var q := p - 0xFFFF * PAGES;
    QuotientRemainder(q / 0x800_0000, 0, 512, q / 0x800_0000);
  }

  /** The bootloader's tables are what the kernel expects of old tables. */
  lemma {:induction false} TablesAreOld(s: Space, win: Window, t: nat, level: Level)
    requires SelfHosting(s) && win.lo >= 256 && t in s.shape && s.shape[t].level == level
    ensures OldTables(s.ram, s.root, win, t, level)
    decreases level
  {
    assert s.win.lo <= t < s.win.hi;
    if level > 0 {
      forall i | 0 <= i < 512
        ensures OldSlot(s.ram, s.root, win, t, level, i)
      {
        assert Linked(s.ram, s.shape, t, i);
        var w := Entry(s.ram, t, i);
        if Pointer(w) {
          TablesAreOld(s, win, FrameOf(w), level - 1);
        }
      }
    }
  }

  /** Loading a high image leaves the first MiB and the tables as they were. */
  lemma StillHosting(s: Space, s': Space, segments: seq<Segment>, data: Word, file: seq<Byte>)
    requires SelfHosting(s) && KernelImage(segments, data)
    requires Loadable(s, segments, data) && Loaded(s, s', segments, data, file, |segments|)
    ensures SelfHosting(s')
  {
    forall q: nat | q < 256
      ensures s'.Translated(q) == Some(q)
    {
      forall i: nat | i < |segments| && Loads(segments[i])
        ensures !InPages(segments[i], q)
      {
        HighStart(segments[i].virt);
      }
      assert !InSomePages(segments, |segments|, q);
      assert s.Translated(q) == Some(q);
    }
    StillOpen(s, s', segments, data, file, |segments|);
    TablesLow(s');
  }

  lemma HighStart(va: Word)
    requires KERNEL_BASE <= va
    ensures PageOf(va) >= 256
  {
  }

  /** The handoff: after `readElf` has loaded a kernel image, every segment with 4 KiB
      pages behind the first MiB meets all that `setup_paging` asks of the memory, the
      tables and the offset it is given. */
  lemma KernelCanStart(s: Space, s': Space, segments: seq<Segment>, data: Word, file: seq<Byte>, i: nat, phys: nat)
    requires SelfHosting(s) && KernelImage(segments, data)
    requires Loadable(s, segments, data) && Loaded(s, s', segments, data, file, |segments|)
    requires i < |segments| && Loads(segments[i]) && !UsesLarge(segments[i], data) && segments[i].virt % 4096 == 0
    requires FirstFrame(segments[i], data) >= 256
    ensures Sound(Origin(s'.ram, s'.root, KernelWindow(segments[i], segments, data), phys))
  {
    var g := segments[i];
    PlacedOf(s, segments, data, i);
    SeenOf(s, s', segments, data, file, |segments|, i);
    PlacedSame(s, s', g, data);
    ClearOf(s, s', segments, data, file, i);
    StillHosting(s, s', segments, data, file);
    SegmentIsWindow(s', g, segments, data, file, i);
    TablesAreOld(s', KernelWindow(g, segments, data), s'.root, 3);
  }

  lemma ClearOf(s: Space, s': Space, segments: seq<Segment>, data: Word, file: seq<Byte>, i: nat)
    requires Loaded(s, s', segments, data, file, |segments|)
    requires i < |segments| && Loads(segments[i]) && !UsesLarge(segments[i], data)
    ensures Clear(s', segments[i])
  {
  }

  /** The bootloader's tables have bit 63 clear, so the kernel's copy is self-mapped. */
  lemma {:induction false} TablesExecutable(s: Space, t: nat, level: Level, first: nat)
    requires s.Valid() && t in s.shape && s.shape[t].level == level
    ensures Executable(s.ram, t, level, first)
    decreases level
  {
    if level > 0 {
      forall i | first <= i < 512
        ensures ExecutableSlot(s.ram, t, level, i)
      {
        assert Linked(s.ram, s.shape, t, i);
        var w := Entry(s.ram, t, i);
        if Pointer(w) {
          TablesExecutable(s, FrameOf(w), level - 1, 0);
        }
      }
    }
  }

  /** Right after the bootloader's `setup_paging` no table serves the higher half. */
  lemma IdentityIsLow(s: Space, pml4: nat, pdpt: nat, pd: nat, pt: nat)
    requires s.shape == IdentityShape(pml4, pdpt, pd, pt)
    ensures NoUpperTables(s)
  {
    UpZero(1, 3);
    UpZero(2, 3);
    UpZero(3, 3);
  }

  // ----- starting the kernel

  /** Where the kernel's linker script puts its heap and its PML4 in a segment. */
  datatype Layout = Layout(heapAt: nat, pml4At: nat)

  ghost predicate LaidOut(g: Segment, l: Layout, heap: Heap, pml4: Word) {
    && heap.offset == 0 && heap.base == g.virt + l.heapAt && l.heapAt + heap.size <= g.memsz
    && pml4 == g.virt + l.pml4At && l.pml4At % 4096 == 0 && l.pml4At + 4096 <= g.memsz
    && (l.pml4At + 4096 <= l.heapAt || l.heapAt + heap.size <= l.pml4At)
    && g.virt + g.memsz + 0x2000 <= TWO64
  }

  function HeapStart(g: Segment, l: Layout, data: Word): nat { Target(g, data) + l.heapAt }

  function Pml4Frame(g: Segment, l: Layout, data: Word): nat { FirstFrame(g, data) + l.pml4At / 4096 }

  /** The kernel's heap and PML4 are where its mapper needs them. */
  lemma LayoutFits(g: Segment, segments: seq<Segment>, data: Word, i: nat, l: Layout, heap: Heap, pml4: Word)
    requires KernelImage(segments, data) && i < |segments| && segments[i] == g && Loads(g)
    requires AlignedFit(g, data) && CanonicalRange(g)
    requires FirstFrame(g, data) + PageCount(g) <= PAGES && LaidOut(g, l, heap, pml4)
    ensures HeapPlaced(heap, KernelWindow(g, segments, data), HeapStart(g, l, data))
    ensures InFrames(g, data, Pml4Frame(g, l, data))
    ensures pml4 == Pointer64(KernelWindow(g, segments, data), Pml4Frame(g, l, data))
    ensures Pml4Frame(g, l, data) < FreeFrame(heap, HeapStart(g, l, data))
            || HeapStart(g, l, data) + heap.size <= Pml4Frame(g, l, data) * 4096
  {
    HandoffExactly(segments, data, i);
    ShiftedOffset(g.virt, Target(g, data), l.heapAt);
    WindowBounds(g, segments, data);
    FrameSeen(g, segments, data, i, Pml4Frame(g, l, data));
  }

  /** The state that the kernel finds is the one the bootloader left, and the kernel's
      segment `g` holds its heap and its PML4. */
  ghost predicate Entered(s: Space, s': Space, segments: seq<Segment>, data: Word, file: seq<Byte>, g: Segment,
                          i: nat) {
    && SelfHosting(s) && NoUpperTables(s) && KernelImage(segments, data)
    && Loadable(s, segments, data) && Loaded(s, s', segments, data, file, |segments|)
    && i < |segments| && segments[i] == g && Loads(g) && !UsesLarge(g, data) && g.virt % 4096 == 0
    && FirstFrame(g, data) >= 256
  }

  /** The tables to copy are at most those that loading needed. */
  lemma TablesToCopy(s: Space, s': Space, segments: seq<Segment>, data: Word, file: seq<Byte>, g: Segment, i: nat)
    requires Entered(s, s', segments, data, file, g, i)
    ensures Count(s'.ram, s'.root, 3, 256) <= Needs(segments, data, |segments|)
  {
    UpperTables(s, s');
  }

  /** A byte of the image that lies in no frame of the new tables is read as before. */
  lemma ByteSurvives(s': Space, t: Space, o: Origin, g: Segment, data: Word, file: seq<Byte>, byte: nat, r: nat,
                     lo: nat, hi: nat)
    requires o.ram == s'.ram && o.root == s'.root && HigherHalfCopied(o, t) && SameButTables(s'.ram, t.ram, r, lo, hi)
    requires ReadsBack(s', g, data, file, byte) && KERNEL_BASE <= g.virt
    requires var f := (Target(g, data) + byte) / 4096; f != r && !(lo <= f < hi)
    ensures ReadsBack(t, g, data, file, byte)
  {
    var va, f := g.virt + byte, (Target(g, data) + byte) / 4096;
    HighTranslation(s', t, o, va);
    HighLeaf(s', t, o, va);
    FrameKept(s', t, r, lo, hi, f);
    SameReading(s', t, va, f);
  }

  lemma HighTranslation(s': Space, t: Space, o: Origin, va: Word)
    requires o.ram == s'.ram && o.root == s'.root && HigherHalfCopied(o, t) && KERNEL_BASE <= va
    ensures t.Translated(PageOf(va)) == s'.Translated(PageOf(va))
  {
    HighPage(va);
    assert t.Translated(PageOf(va)) == Translate(o.ram, o.root, PageOf(va));
  }

  lemma HighLeaf(s': Space, t: Space, o: Origin, va: Word)
    requires o.ram == s'.ram && o.root == s'.root && HigherHalfCopied(o, t) && KERNEL_BASE <= va
    ensures Alike(t.Walked(PageOf(va)), s'.Walked(PageOf(va)))
  {
    HighPage(va);
    assert Trail(t.ram, t.root, 3, PageOf(va)) == Trail(o.ram, o.root, 3, PageOf(va));
    TrailWalk(t.ram, t.root, o.ram, o.root, 3, PageOf(va));
  }

  /** The kernel's copy keeps these rights. */
  lemma CopyGranted(s: Space, s': Space, t: Space, o: Origin, segments: seq<Segment>, data: Word, file: seq<Byte>,
                    g: Segment, i: nat)
    requires Entered(s, s', segments, data, file, g, i)
    requires o.ram == s'.ram && o.root == s'.root && HigherHalfCopied(o, t)
    ensures ImageGranted(t, segments)
  {
    forall j: nat, q: nat | j < |segments| && Loads(segments[j]) && InPages(segments[j], q) && q < PAGES
      ensures Granted(t, q)
    {
      PlacedOf(s, segments, data, j);
      SegmentGranted(s, s', segments, data, file, j, q);
      PageCopied(s', t, o, segments[j], q);
    }
  }

  lemma PageCopied(s': Space, t: Space, o: Origin, g: Segment, q: nat)
    requires o.ram == s'.ram && o.root == s'.root && HigherHalfCopied(o, t)
    requires CanonicalRange(g) && KERNEL_BASE <= g.virt && InPages(g, q) && Granted(s', q)
    ensures Granted(t, q)
  {
    var at := (q - FirstPage(g)) * 4096;
    PageHasByte(g, q, at);
    HighPage(g.virt + at);
    HighLeaf(s', t, o, g.virt + at);
    assert Trail(t.ram, t.root, 3, q) == Trail(o.ram, o.root, 3, q);
  }

  lemma FrameKept(s': Space, t: Space, r: nat, lo: nat, hi: nat, f: nat)
    requires SameButTables(s'.ram, t.ram, r, lo, hi) && f != r && !(lo <= f < hi)
    ensures f in t.ram <==> f in s'.ram
    ensures f in s'.ram ==> t.ram[f] == s'.ram[f]
  {
  }

  lemma SameReading(s': Space, t: Space, va: Word, f: nat)
    requires t.Translated(PageOf(va)) == s'.Translated(PageOf(va)) == Some(f)
    requires (f in t.ram <==> f in s'.ram) && (f in s'.ram ==> t.ram[f] == s'.ram[f])
    ensures VirtualByte(t, va) == VirtualByte(s', va)
  {
    if f in s'.ram {
      SameByte(s'.ram, t.ram, f, va % 4096);
    }
  }

  /** `main`, up to the return of `setup_paging`: the kernel then runs on its own tables, can
      find them, and still reads its whole image, except where it has put those tables. */
  method StartKernel(k: Machine, physBase: Word, ghost s: Space, ghost s': Space, ghost segments: seq<Segment>,
                     ghost data: Word, ghost file: seq<Byte>, ghost g: Segment, ghost i: nat, ghost l: Layout)
    requires Entered(s, s', segments, data, file, g, i) && physBase == PhysBase(segments, data)
    requires k.ram == s'.ram && k.cr3 == s'.root && LaidOut(g, l, k.heap, k.pml4)
    requires 4095 + Needs(segments, data, |segments|) * 4096 < k.heap.size
    modifies k
    ensures k.Valid() && KernelUp(k.View(), segments, data, g, l, old(k.heap)) && k.ram.Keys == s'.ram.Keys
    ensures ImageKept(k.View(), segments, data, file, Pml4Frame(g, l, data),
                      FreeFrame(old(k.heap), HeapStart(g, l, data)), k.View().Free())
    ensures ImageGranted(k.View(), segments)
  {
    ghost var o := Origin(k.ram, k.cr3, KernelWindow(g, segments, data), HeapStart(g, l, data));
    ghost var r := Pml4Frame(g, l, data);
    StartReady(k, s, s', segments, data, file, g, i, l, o);
    var kernelOffset := Sub64(KERNEL_BASE, physBase);
    KernelSetup.SetupPaging(k, k.cr3 * 4096, kernelOffset, o, r);
    KeptBytes(s, s', k.View(), o, segments, data, file, r, FreeFrame(old(k.heap), o.phys), k.View().Free());
    CopyGranted(s, s', k.View(), o, segments, data, file, g, i);
    TablesToCopy(s, s', segments, data, file, g, i);
  }

  /** The kernel's state once its `setup_paging` has returned; `was` is its heap before. */
  ghost predicate KernelUp(t: Space, segments: seq<Segment>, data: Word, g: Segment, l: Layout, was: Heap) {
    && t.root == Pml4Frame(g, l, data) && t.win == KernelWindow(g, segments, data)
    && t.phys == HeapStart(g, l, data) && t.heap.size == was.size
    && FreeFrame(was, t.phys) <= t.Free() <= FreeFrame(was, t.phys) + Needs(segments, data, |segments|)
    && LowerHalfGone(t) && TablesFrom(t, FreeFrame(was, t.phys))
  }

  /** Every byte of the image outside the frames of the new tables reads back. */
  ghost predicate ImageKept(t: Space, segments: seq<Segment>, data: Word, file: seq<Byte>, r: nat, lo: nat, hi: nat) {
    forall j: nat, byte: nat {:trigger ReadsBack(t, segments[j], data, file, byte)} |
      j < |segments| && Loads(segments[j]) && byte < segments[j].memsz
      && (Target(segments[j], data) + byte) / 4096 != r && !(lo <= (Target(segments[j], data) + byte) / 4096 < hi) ::
      ReadsBack(t, segments[j], data, file, byte)
  }

  lemma KeptBytes(s: Space, s': Space, t: Space, o: Origin, segments: seq<Segment>, data: Word, file: seq<Byte>,
                  r: nat, lo: nat, hi: nat)
    requires o.ram == s'.ram && o.root == s'.root && HigherHalfCopied(o, t) && SameButTables(s'.ram, t.ram, r, lo, hi)
    requires KernelImage(segments, data)
    requires Loadable(s, segments, data) && Loaded(s, s', segments, data, file, |segments|)
    ensures ImageKept(t, segments, data, file, r, lo, hi)
  {
    forall j: nat, byte: nat |
      j < |segments| && Loads(segments[j]) && byte < segments[j].memsz
      && (Target(segments[j], data) + byte) / 4096 != r && !(lo <= (Target(segments[j], data) + byte) / 4096 < hi)
      ensures ReadsBack(t, segments[j], data, file, byte)
    {
      KeptByte(s, s', t, o, segments, data, file, j, byte, r, lo, hi);
    }
  }

  lemma KeptByte(s: Space, s': Space, t: Space, o: Origin, segments: seq<Segment>, data: Word, file: seq<Byte>,
                 j: nat, byte: nat, r: nat, lo: nat, hi: nat)
    requires o.ram == s'.ram && o.root == s'.root && HigherHalfCopied(o, t) && SameButTables(s'.ram, t.ram, r, lo, hi)
    requires Loadable(s, segments, data) && Loaded(s, s', segments, data, file, |segments|)
    requires j < |segments| && Loads(segments[j]) && byte < segments[j].memsz && KERNEL_BASE <= segments[j].virt
    requires var f := (Target(segments[j], data) + byte) / 4096; f != r && !(lo <= f < hi)
    ensures ReadsBack(t, segments[j], data, file, byte)
  {
    ImageReadsBack(s, s', segments, data, file, j, byte);
    ByteSurvives(s', t, o, segments[j], data, file, byte, r, lo, hi);
  }

  /** Everything that `setup_paging` asks for. */
  lemma StartReady(k: Machine, s: Space, s': Space, segments: seq<Segment>, data: Word, file: seq<Byte>,
                   g: Segment, i: nat, l: Layout, o: Origin)
    requires Entered(s, s', segments, data, file, g, i)
    requires k.ram == s'.ram && k.cr3 == s'.root && LaidOut(g, l, k.heap, k.pml4)
    requires 4095 + Needs(segments, data, |segments|) * 4096 < k.heap.size
    requires o == Origin(k.ram, k.cr3, KernelWindow(g, segments, data), HeapStart(g, l, data))
    ensures Sound(o) && k.cr3 * 4096 < TWO64 && Executable(o.ram, o.root, 3, 256)
    ensures KernelOffset(PhysBase(segments, data)) == o.win.Offset() && HeapPlaced(k.heap, o.win, o.phys)
    ensures o.win.lo <= Pml4Frame(g, l, data) < o.win.hi && k.pml4 == Pointer64(o.win, Pml4Frame(g, l, data))
    ensures OffHeap(o, Now(k), Pml4Frame(g, l, data))
    ensures RoomFor(k.heap, o.phys, Count(o.ram, o.root, 3, 256))
  {
    PlacedOf(s, segments, data, i);
    KernelCanStart(s, s', segments, data, file, i, o.phys);
    LayoutFits(g, segments, data, i, l, k.heap, k.pml4);
    FrameSeen(g, segments, data, i, Pml4Frame(g, l, data));
    TablesToCopy(s, s', segments, data, file, g, i);
    EnoughBytes(k.heap, o.phys, Count(o.ram, o.root, 3, 256));
    StillHosting(s, s', segments, data, file);
    TablesExecutable(s', s'.root, 3, 256);
  }
}
