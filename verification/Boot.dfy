/** The whole way from the bootloader's `setup_paging` to the kernel's first use of its
    mapper. */
module Boot {
  import opened Bytes
  import opened Words
  import opened Memory
  import opened Paging
  import opened Heap
  import opened Ranges
  import opened Spaces
  import opened Rights
  import opened Runs
  import opened Windows
  import opened Machines
  import opened BootMemory
  import opened FatDriver
  import opened ElfImages
  import opened Loading
  import opened LoadPlans
  import opened ImageRights
  import opened ElfFormat
  import opened ElfLoader
  import opened TableCounts
  import opened KernelSetup
  import opened Handoff
  import opened Stage2
  import opened Acpi

  /** The file is a kernel whose segment `g` has 4 KiB pages behind the first MiB and holds
      the kernel's heap, with room for the tables of the image and three more, and its PML4. */
  ghost predicate Bootable(file: seq<Byte>, data: Word, stale: seq<Byte>, g: Segment, i: nat, l: Layout, heap: Heap,
                           pml4: Word)
    requires |stale| == EHDR_SIZE
  {
    && Magic(HeaderRead(file, stale)) && Complete(file)
    && var segments := Segments(file);
    && KernelImage(segments, data) && i < |segments| && segments[i] == g && Loads(g)
    && !UsesLarge(g, data) && g.virt % 4096 == 0 && FirstFrame(g, data) >= 256
    && LaidOut(g, l, heap, pml4) && 4095 + (Needs(segments, data, |segments|) + 3) * 4096 < heap.size
  }

  /** The root pointer is a 32-bit address of RAM outside the kernel's segment, and the
      structure lies in one page. */
  predicate PointerPlaced(s: Space, rsdp: Word, g: Segment, data: Word) {
    RsdpAddress(s, rsdp) && OnePage(rsdp) && !InFrames(g, data, rsdp / 4096)
  }

  /** The jump to the kernel, which finds memory and tables as the bootloader left them. */
  method Enter(k: Machine, b: Machine)
    requires k != b
    modifies k
    ensures k.ram == b.ram && k.cr3 == b.cr3 && k.heap == old(k.heap) && k.pml4 == old(k.pml4)
  {
    k.ram, k.cr3 := b.ram, b.cr3;
  }

  /** The kernel can map the page of the root pointer. */
  lemma ReadyForPointer(t: Space, segments: seq<Segment>, data: Word, g: Segment, l: Layout, was: Heap, rsdp: Word)
    requires t.Valid() && KernelUp(t, segments, data, g, l, was) && was.offset == 0
    requires 4095 + (Needs(segments, data, |segments|) + 3) * 4096 < was.size
    requires PointerPlaced(t, rsdp, g, data)
    ensures ReadyToMap(t, rsdp, 1) && RsdpPlaced(t, rsdp) && t.Translated(PageOf(rsdp)) == None
    ensures t.Walked(PageOf(rsdp)).Hole?
  {
    RsdpPage(rsdp);
    LowPageGone(t, PageAt(rsdp, 0));
    UnmappedOutside(t, PageAt(rsdp, 0));
    LowPageFits(t, rsdp);
    PointerRoom(t, segments, data, g, l, was, rsdp);
    PointerApart(t, segments, data, g, l, was, rsdp);
  }

  lemma PointerRoom(t: Space, segments: seq<Segment>, data: Word, g: Segment, l: Layout, was: Heap, rsdp: Word)
    requires KernelUp(t, segments, data, g, l, was) && was.offset == 0
    requires 4095 + (Needs(segments, data, |segments|) + 3) * 4096 < was.size
    ensures t.Room(Touched(rsdp, 1))
  {
    TouchedStep(rsdp, 0);
  }

  lemma PointerApart(t: Space, segments: seq<Segment>, data: Word, g: Segment, l: Layout, was: Heap, rsdp: Word)
    requires KernelUp(t, segments, data, g, l, was) && PointerPlaced(t, rsdp, g, data)
    ensures RsdpPlaced(t, rsdp)
  {
  }

  lemma LowPageFits(t: Space, virt: Word)
    requires OutsideWindow(t.win, PageAt(virt, 0)) && t.Smooth(PageAt(virt, 0), 0)
    ensures PagesFree(t, virt, 1)
  {
  }

  lemma UnmappedOutside(t: Space, p: nat)
    requires t.Valid() && t.Translated(p) == None
    ensures OutsideWindow(t.win, p)
  {
    forall f: nat | t.win.lo <= f < t.win.hi
      ensures PageFor(t.win, f) != p
    {
      InWindow(t.ram, t.root, t.win, f);
    }
  }

  lemma LowPageGone(t: Space, p: nat)
    requires LowerHalfGone(t) && p < 0x8_0000_0000
    ensures t.Walked(p) == Hole(3, t.root) && t.Translated(p) == None && t.Smooth(p, 0)
  {
    QuotientRemainder(p / 0x800_0000, 0, 512, p / 0x800_0000);
  }

  /** What the kernel maps and unmaps afterwards leaves the image alone. */
  lemma StillKept(t: Space, t': Space, segments: seq<Segment>, data: Word, file: seq<Byte>, r: nat, lo: nat)
    requires ImageKept(t, segments, data, file, r, lo, t.Free()) && Kept(t, t') && SameTranslation(t, t')
    requires SameLeaves(t, t') && t.root == r && TablesFrom(t, lo) && lo <= t.Free()
    ensures ImageKept(t', segments, data, file, r, lo, t'.Free())
  {
    forall j: nat, byte: nat |
      j < |segments| && Loads(segments[j]) && byte < segments[j].memsz
      && (Target(segments[j], data) + byte) / 4096 != r
      && !(lo <= (Target(segments[j], data) + byte) / 4096 < t'.Free())
      ensures ReadsBack(t', segments[j], data, file, byte)
    {
      assert ReadsBack(t, segments[j], data, file, byte);
      StillReads(t, t', segments[j], data, file, byte, lo);
    }
  }

  /** And the rights to it. */
  lemma StillGranted(t: Space, t': Space, segments: seq<Segment>)
    requires ImageGranted(t, segments) && t.Valid() && Kept(t, t') && SameLeaves(t, t')
    ensures ImageGranted(t', segments)
  {
    forall i: nat, q: nat | i < |segments| && Loads(segments[i]) && InPages(segments[i], q) && q < PAGES
      ensures Granted(t', q)
    {
      assert Granted(t, q) && Alike(t'.Walked(q), t.Walked(q));
      RightsStay(t, t', q);
    }
  }

  lemma StillReads(t: Space, t': Space, g: Segment, data: Word, file: seq<Byte>, byte: nat, lo: nat)
    requires ReadsBack(t, g, data, file, byte) && Kept(t, t') && SameTranslation(t, t') && SameLeaves(t, t')
    requires TablesFrom(t, lo) && lo <= t.Free()
    requires var f := (Target(g, data) + byte) / 4096; f != t.root && !(lo <= f < t'.Free())
    ensures ReadsBack(t', g, data, file, byte)
  {
    var va, f := g.virt + byte, (Target(g, data) + byte) / 4096;
    FrameStays(t, t', lo, f);
    PageStays(t, t', PageOf(va));
    SameReading(t, t', va, f);
    StillRead(t, t', g, data, file, byte);
  }

  lemma PageStays(t: Space, t': Space, q: nat)
    requires SameTranslation(t, t') && SameLeaves(t, t') && q < PAGES
    ensures t'.Translated(q) == t.Translated(q) && Alike(t'.Walked(q), t.Walked(q))
  {
  }

  lemma StillRead(t: Space, t': Space, g: Segment, data: Word, file: seq<Byte>, byte: nat)
    requires ReadsBack(t, g, data, file, byte) && VirtualByte(t', g.virt + byte) == VirtualByte(t, g.virt + byte)
    requires t'.Translated(PageOf(g.virt + byte)) == t.Translated(PageOf(g.virt + byte))
    requires Alike(t'.Walked(PageOf(g.virt + byte)), t.Walked(PageOf(g.virt + byte)))
    ensures ReadsBack(t', g, data, file, byte)
  {
  }

  lemma FrameStays(t: Space, t': Space, lo: nat, f: nat)
    requires Kept(t, t') && TablesFrom(t, lo) && lo <= t.Free() && f != t.root && !(lo <= f < t'.Free())
    ensures (f in t'.ram <==> f in t.ram) && (f in t.ram ==> t'.ram[f] == t.ram[f])
  {
    assert f !in t'.shape;
  }

  /** The image, in terms of the fields of the file. */
  ghost predicate BootedByFields(t: Space, file: seq<Byte>, data: Word, g: Segment, l: Layout, was: Heap) {
    FieldsKept(t, file, data, t.root, FreeFrame(was, HeapStart(g, l, data)), t.Free())
  }

  lemma KeptByFields(s: Space, t: Space, file: seq<Byte>, data: Word, r: nat, lo: nat)
    requires Complete(file) && Loadable(s, Segments(file), data)
    requires ImageKept(t, Segments(file), data, file, r, lo, t.Free())
    ensures FieldsKept(t, file, data, r, lo, t.Free())
  {
    forall e: Ehdr, phdrs: seq<Phdr>, i: nat, o: nat |
      IsImage(file, e, phdrs) && i < |phdrs| && phdrs[i].kind == 1 && o < phdrs[i].memsz
      && var f := (Base(phdrs[i], data) + o) / 4096; f != r && !(lo <= f < t.Free())
      ensures ByteLoaded(t, phdrs[i], data, file, o)
    {
      ImageParses(file, e, phdrs);
      KeptByte(s, t, Segments(file), phdrs[i], data, file, r, lo, i, o);
    }
  }

  lemma KeptByte(s: Space, t: Space, segments: seq<Segment>, p: Phdr, data: Word, file: seq<Byte>, r: nat, lo: nat,
                 i: nat, o: nat)
    requires i < |segments| && segments[i] == SegmentOf(p) && Loadable(s, segments, data)
    requires ImageKept(t, segments, data, file, r, lo, t.Free())
    requires p.kind == 1 && o < p.memsz
    requires var f := (Base(p, data) + o) / 4096; f != r && !(lo <= f < t.Free())
    ensures ByteLoaded(t, p, data, file, o)
  {
    PlacedOf(s, segments, data, i);
    assert ReadsBack(t, segments[i], data, file, o);
    ByteTranslated(t, segments[i], p, data, file, o);
  }

  /** The path leads to such a kernel, or nowhere, and the root pointer is in place. */
  ghost predicate ReadyToBoot(s: Space, driver: Driver, path: seq<Byte>, dirs: set<nat>, data: Word, stale: seq<Byte>,
                              rsdp: Word, g: Segment, i: nat, l: Layout, heap: Heap, pml4: Word)
    requires |stale| == EHDR_SIZE
    reads driver
  {
    && ReadyToLoad(s, driver, path, dirs, data, stale)
    && (TargetOf(driver.vol, driver.chains, driver.files, path).Leads? ==>
          Bootable(KernelBytes(driver, path), data, stale, g, i, l, heap, pml4) && PointerPlaced(s, rsdp, g, data))
  }

  /** The kernel runs on its own tables and meets its invariant, reads its image wherever it
      has put no table, can write and execute all its pages, and has nothing mapped in the
      lower half. */
  ghost predicate Booted(t: Space, segments: seq<Segment>, data: Word, file: seq<Byte>, g: Segment, l: Layout,
                         was: Heap)
  {
    && t.Valid() && t.win == KernelWindow(g, segments, data) && t.root == Pml4Frame(g, l, data)
    && ImageKept(t, segments, data, file, t.root, FreeFrame(was, HeapStart(g, l, data)), t.Free())
    && ImageGranted(t, segments)
    && forall q: nat {:trigger t.Translated(q)} | q < 0x8_0000_0000 :: t.Translated(q) == None
  }

  /** What the loader is promised about the kernel's file. */
  lemma FilePromised(s: Space, driver: Driver, path: seq<Byte>, dirs: set<nat>, data: Word, stale: seq<Byte>,
                     rsdp: Word, g: Segment, i: nat, l: Layout, heap: Heap, pml4: Word, file: seq<Byte>)
    requires |stale| == EHDR_SIZE && ReadyToBoot(s, driver, path, dirs, data, stale, rsdp, g, i, l, heap, pml4)
    requires file == KernelBytes(driver, path)
    ensures TargetOf(driver.vol, driver.chains, driver.files, path).Leads? ==>
      && Bootable(file, data, stale, g, i, l, heap, pml4) && PointerPlaced(s, rsdp, g, data)
      && Acceptable(s, file, data)
  {
  }

  /** Loading such a kernel leaves the state that `setup_paging` starts from. */
  lemma EnteredAfter(s: Space, s': Space, file: seq<Byte>, data: Word, stale: seq<Byte>, g: Segment, i: nat, l: Layout,
                     heap: Heap, pml4: Word, rsdp: Word, info: (Word, Word))
    requires |stale| == EHDR_SIZE && Bootable(file, data, stale, g, i, l, heap, pml4)
    requires SelfHosting(s) && NoUpperTables(s) && Acceptable(s, file, data) && PointerPlaced(s, rsdp, g, data)
    requires LoadedFrom(s, s', file, data, stale, info)
    ensures Entered(s, s', Segments(file), data, file, g, i) && info.1 == PhysBase(Segments(file), data)
    ensures PointerPlaced(s', rsdp, g, data) && LaidOut(g, l, heap, pml4)
    ensures 4095 + (Needs(Segments(file), data, |Segments(file)|) + 3) * 4096 < heap.size
  {
  }

  /** `stage2_main` behind `setup_paging`, the jump, and `main` up to `parseRSDP`. Without
      the kernel's file the bootloader stops. */
  method Boot(b: Machine, driver: Driver, k: Machine, path: seq<Byte>, data: Word, stale: seq<Byte>, rsdp: Word,
              pml4: nat, pdpt: nat, pd: nat, pt: nat,
              ghost dirs: set<nat>, ghost g: Segment, ghost i: nat, ghost l: Layout)
    returns (copy: Option<seq<Byte>>)
    requires k != b && |stale| == EHDR_SIZE
    requires b.Valid() && SelfHosting(b.View()) && b.shape == IdentityShape(pml4, pdpt, pd, pt)
    requires ReadyToBoot(b.View(), driver, path, dirs, data, stale, rsdp, g, i, l, k.heap, k.pml4)
    modifies b`ram, b`heap, b`shape, driver`files, driver`fatCache, driver`fatCachePosition, k
    ensures copy.Some? <==> old(TargetOf(driver.vol, driver.chains, driver.files, path)).Leads?
    ensures var file := old(KernelBytes(driver, path));
      if copy == None then b.View() == old(b.View())
      else
        && k.Valid() && copy.value == PhysicalBytes(k.ram, rsdp, RSDP_SIZE)
        && Booted(k.View(), Segments(file), data, file, g, l, old(k.heap))
        && BootedByFields(k.View(), file, data, g, l, old(k.heap))
  {
    ghost var s, file := b.View(), KernelBytes(driver, path);
    IdentityIsLow(s, pml4, pdpt, pd, pt);
    FilePromised(s, driver, path, dirs, data, stale, rsdp, g, i, l, k.heap, k.pml4, file);
    var loaded := LoadKernel(b, driver, path, data, stale, dirs);
    if loaded == None {
      return None;
    }
    EnteredAfter(s, b.View(), file, data, stale, g, i, l, k.heap, k.pml4, rsdp, loaded.value);
    var bytes := EnterKernel(k, b, loaded.value.1, rsdp, s, data, file, g, i, l);
    return Some(bytes);
  }

  /** The jump and `main`, with the kernel's file in memory. */
  method EnterKernel(k: Machine, b: Machine, physBase: Word, rsdp: Word, ghost s: Space, ghost data: Word,
                     ghost file: seq<Byte>, ghost g: Segment, ghost i: nat, ghost l: Layout)
    returns (copy: seq<Byte>)
    requires k != b && Complete(file) && Entered(s, b.View(), Segments(file), data, file, g, i)
    requires physBase == PhysBase(Segments(file), data) && LaidOut(g, l, k.heap, k.pml4)
    requires 4095 + (Needs(Segments(file), data, |Segments(file)|) + 3) * 4096 < k.heap.size
    requires PointerPlaced(b.View(), rsdp, g, data)
    modifies k
    ensures copy == PhysicalBytes(k.ram, rsdp, RSDP_SIZE)
    ensures k.Valid() && Booted(k.View(), Segments(file), data, file, g, l, old(k.heap))
    ensures BootedByFields(k.View(), file, data, g, l, old(k.heap))
  {
    Enter(k, b);
    copy := RunKernel(k, physBase, rsdp, s, b.View(), Segments(file), data, file, g, i, l);
    KeptByFields(s, k.View(), file, data, k.View().root, FreeFrame(old(k.heap), HeapStart(g, l, data)));
  }

  /** `main`, entered in the state `s'` that the bootloader left. */
  method RunKernel(k: Machine, physBase: Word, rsdp: Word, ghost s: Space, ghost s': Space,
                   ghost segments: seq<Segment>, ghost data: Word, ghost file: seq<Byte>,
                   ghost g: Segment, ghost i: nat, ghost l: Layout)
    returns (copy: seq<Byte>)
    requires Entered(s, s', segments, data, file, g, i) && physBase == PhysBase(segments, data)
    requires k.ram == s'.ram && k.cr3 == s'.root && LaidOut(g, l, k.heap, k.pml4)
    requires 4095 + (Needs(segments, data, |segments|) + 3) * 4096 < k.heap.size
    requires PointerPlaced(s', rsdp, g, data)
    modifies k
    ensures copy == PhysicalBytes(k.ram, rsdp, RSDP_SIZE)
    ensures k.Valid() && Booted(k.View(), segments, data, file, g, l, old(k.heap))
  {
    StartKernel(k, physBase, s, s', segments, data, file, g, i, l);
    ghost var t := k.View();
    ReadyForPointer(t, segments, data, g, l, old(k.heap), rsdp);
    copy := ParseRsdp(k, rsdp);
    InPlace(t, k.View(), rsdp);
    StillKept(t, k.View(), segments, data, file, t.root, FreeFrame(old(k.heap), t.phys));
    StillGranted(t, k.View(), segments);
    forall q: nat | q < 0x8_0000_0000
      ensures k.View().Translated(q) == None
    {
      LowPageGone(t, q);
    }
  }
}
