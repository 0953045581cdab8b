/** Inputs at which the code departs from the obvious claim, one for each departure. */
module Departures {
  import opened Bytes
  import opened Words
  import opened Memory
  import opened Paging
  import opened Windows
  import opened Heap
  import opened Ranges
  import opened Spaces
  import opened Runs
  import opened Machines
  import opened KernelMemory
  import opened SmallKernel
  import opened SoftwareWalk
  import opened Acpi
  import opened ElfImages
  import opened Loading
  import opened FatSpec
  import opened FatDirectory
  import opened FatFiles
  import opened FatCursors
  import opened FatRoot
  import opened RootLimits
  import opened FatPaths
  import opened FatRuns

  /** `kmalloc` wraps in the sum: a huge request succeeds and moves the top down. */
  lemma HugeRequest()
    ensures var h := Heap(0x1000, 0x100, 0x10);
      Allocate(h, Request(0xFFFF_FFFF_FFFF_FFF8, 1)) == (h.(offset := 8), Some(0x1010))
  {
  }

  /** Seven doublings of a power of two. */
  lemma Times128(a: nat)
    requires PowerOfTwo(a)
    ensures PowerOfTwo(128 * a)
  {
    var b, c, d := 2 * a, 4 * a, 8 * a;
    var e, f, g := 16 * a, 32 * a, 64 * a;
    Twice(a, b);
    Twice(b, c);
    Twice(c, d);
    Twice(d, e);
    Twice(e, f);
    Twice(f, g);
    Twice(g, 128 * a);
  }

  lemma Twice(a: nat, b: nat)
    requires PowerOfTwo(a) && b == 2 * a
    ensures PowerOfTwo(b)
  {
    assert b % 2 == 0 && b / 2 == a;
  }

  lemma TopBit()
    ensures PowerOfTwo(0x8000_0000_0000_0000)
  {
    Times128(1);
    Times128(0x80);
    Times128(0x4000);
    Times128(0x20_0000);
    Times128(0x1000_0000);
    Times128(0x8_0000_0000);
    Times128(0x400_0000_0000);
    Times128(0x2_0000_0000_0000);
    Times128(0x100_0000_0000_0000);
  }

  /** `kmalloc` wraps in the rounding: the block is the null address, below the heap. */
  lemma HugeAlignment()
    ensures PowerOfTwo(0x8000_0000_0000_0000)
    ensures var h := Heap(0xFFFF_8000_0010_0000, 0x100_0000, 0);
      Allocate(h, Request(0xFFFF_8000_0010_0000, 0x8000_0000_0000_0000)).1 == Some(0)
  {
    TopBit();
    RoundsToZero(Heap(0xFFFF_8000_0010_0000, 0x100_0000, 0), 0x8000_0000_0000_0000);
  }

  /** A FAT of six sectors in which cluster 2 is followed by 1706, that by 768, and that
      by an end mark; all three lie on the disk. */
  function SixSectors(): Volume {
    var zero: Sector := seq(512, _ => 0);
    Volume(seq(1713, i =>
      if i == 1 then zero[3 := 0xAA][4 := 0x06]
      else if i == 3 then zero[128 := 0xFF][129 := 0x0F]
      else if i == 6 then zero[0 := 3] else zero), 1, 6, 1, 7, 16, 8)
  }

  /** Reading a file of three clusters misreads the entry of the second one: the first
      lookup leaves the cache where the second straddles its end, and the driver goes on
      with cluster 0, which it takes for sector 6, the last one of the FAT. */
  lemma StraddleReached()
    ensures var v, chain := SixSectors(), [2, 1706, 768];
      && IsChain(v, chain) && RefillsFit(v) && Crossed(v, chain, 0, 1536) == chain
      && Lookup(v, NO_CACHE, 2) == (0, 1706) && StraddlingHit(0, 1706) && FatEntry(v, 1706) == 768
      && Lookup(v, 0, 1706) == (0, 0) && SectorLba(v, 0, 0) == 6
      && !Untroubled(NO_CACHE, Crossed(v, chain, 0, 1536))
  {
    var v, chain := SixSectors(), [2, 1706, 768];
    SixEntries();
    ThreeLinks(v, 2, 1706, 768);
    SixLookups();
    assert chain[1..][0] == 1706;
  }

  lemma ThreeLinks(v: Volume, a: nat, b: nat, c: nat)
    requires WellFormed(v) && FatFiles.Readable(v, a) && FatFiles.Readable(v, b) && FatFiles.Readable(v, c)
    requires v.spc == 1 && FatEntry(v, a) == b && FatEntry(v, b) == c && FatEntry(v, c) >= 0xFF8
    ensures IsChain(v, [a, b, c]) && Crossed(v, [a, b, c], 0, 1536) == [a, b, c]
  {
    assert Follows(v, [a, b, c], 0) && Follows(v, [a, b, c], 1) && Follows(v, [a, b, c], 2);
  }

  lemma SixLookups()
    ensures var v := SixSectors();
      && RefillsFit(v) && SectorLba(v, 0, 0) == 6
      && Lookup(v, NO_CACHE, 2) == (0, 1706) && StraddlingHit(0, 1706) && Lookup(v, 0, 1706) == (0, 0)
  {
    SixEntries();
    CacheTransparent(SixSectors(), NO_CACHE, 2);
    SixByte(2559);
  }

  lemma SixByte(k: nat)
    requires k < 3072
    ensures FatByte(SixSectors(), k) ==
      if k == 3 then 0xAA else if k == 4 then 0x06 else if k == 1152 then 0xFF else if k == 1153 then 0x0F
      else if k == 2560 then 3 else 0
  {
  }

  lemma SixEntries()
    ensures var v := SixSectors();
      && WellFormed(v) && FatFiles.Readable(v, 2) && FatFiles.Readable(v, 1706) && FatFiles.Readable(v, 768)
      && FatEntry(v, 2) == 1706 && FatEntry(v, 1706) == 768 && FatEntry(v, 768) == 0xFFF
  {
    SixByte(3);
    SixByte(4);
    SixByte(2559);
    SixByte(2560);
    SixByte(1152);
    SixByte(1153);
  }

  /** `seek` to the end of a file that fills its cluster fails, but moves the position. */
  lemma SeekToTheEnd()
    ensures var c := Cursor(seq(512, _ => 0), [2], 1, 0);
      && Answered(Some(c), SeekTo(0, 512)) == Landed(false)
      && Moved(Some(c), SeekTo(0, 512)) == Some(c.(position := 512))
  {
  }

  /** KERNEL.ELF */
  function KernelName(): Name { [75, 69, 82, 78, 69, 76, 32, 32, 69, 76, 70] }

  /** A name of eleven letters A. */
  function OtherName(): Name { [65, 65, 65, 65, 65, 65, 65, 65, 65, 65, 65] }

  /** The numbers of a 1.44 MB floppy disk; the first sector of its root directory lists
      sixteen entries of the other name. */
  function Floppy(): Volume {
    Volume(seq(2880, i => if i == 19 then seq(512, _ => 65) else seq(512, _ => 0)), 1, 9, 1, 19, 224, 33)
  }

  function FloppyRoot(): FileData { FileData(Floppy().disk[19], true, 7168, 0, true, 19, 19, 0) }

  lemma FloppyLayout()
    ensures RootLayout(Floppy()) && FreshRoot(Floppy(), FloppyRoot())
    ensures !RootDecides(Floppy(), KernelName()) && !RootSpares(Floppy(), KernelName())
    ensures NextOnDisk(Floppy(), FloppyRoot()) && !StraddlingHit(NO_CACHE, 19)
  {
    var v, key := Floppy(), KernelName();
    forall k: nat
      ensures !StopsAt(RootSector(v), key, k) && !StopsAt(RootSector(v)[..480], key, k)
    {
      NeverNamed(RootSector(v), key, k);
      NeverNamed(RootSector(v)[..480], key, k);
    }
  }

  lemma NeverNamed(dir: seq<Byte>, key: Name, k: nat)
    requires key[0] == 75 && forall i: nat | i < |dir| :: dir[i] == 65
    ensures !StopsAt(dir, key, k)
  {
    if 32 * k + 32 <= |dir| {
      assert dir[32 * k..32 * k + 11][0] == 65;
    }
  }

  /** The seventeenth entry is KERNEL.ELF, but the search for it finds nothing. */
  lemma SeventeenthMissed()
    ensures var w, fd := Astray(Floppy(), KeySector(KernelName()), 0xFF, 0xFF), FloppyRoot();
      && RootLayout(w) && FreshRoot(w, fd)
      && Find(RootDirectory(w), KernelName(), 0).Some? && RootFind(w, NO_CACHE, fd, KernelName()).entry == None
  {
    var v, key, fd := Floppy(), KernelName(), FloppyRoot();
    FloppyLayout();
    AstrayFacts(v, KeySector(key), 0xFF, 0xFF);
    SameFirst(v, Astray(v, KeySector(key), 0xFF, 0xFF), fd, key);
    RootMissed(v, Astray(v, KeySector(key), 0xFF, 0xFF), NO_CACHE, fd, key);
  }

  /** The first entry is found, but after a search for KERNEL.ELF and `close` it is found
      no more. */
  lemma SecondSearchMisses()
    ensures var w, fd := Astray(Floppy(), ZeroSector(), Two(Floppy()), 0), FloppyRoot();
      && RootLayout(w) && FreshRoot(w, fd)
      && Find(RootDirectory(w), OtherName(), 0).Some? && RootFind(w, NO_CACHE, fd, OtherName()).entry.Some?
      && var spoiled := RootFind(w, NO_CACHE, fd, KernelName());
      && RootSane(w, Rewound(spoiled.fd))
      && RootFind(w, spoiled.cache, Rewound(spoiled.fd), OtherName()).entry == None
  {
    var v, fd := Floppy(), FloppyRoot();
    var w := Astray(v, ZeroSector(), Two(v), 0);
    FloppyLayout();
    AstrayFacts(v, ZeroSector(), Two(v), 0);
    SameFirst(v, w, fd, KernelName());
    LaterSearchesMiss(v, w, NO_CACHE, fd, KernelName(), RootFind(w, NO_CACHE, fd, KernelName()).cache, OtherName());
    FirstIsOther(v, w, fd);
  }

  lemma FirstIsOther(v: Volume, w: Volume, fd: FileData)
    requires v == Floppy() && RootLayout(w) && FreshRoot(w, fd) && w == v.(disk := w.disk)
    requires v.rootLba < |w.disk| && RootSector(w) == RootSector(v)
    ensures Find(RootDirectory(w), OtherName(), 0).Some? && RootFind(w, NO_CACHE, fd, OtherName()).entry.Some?
  {
    var dir := RootSector(w);
    assert dir[0..11] == OtherName();
    assert StopsAt(dir, OtherName(), 0);
    RootSearch(w, NO_CACHE, fd, OtherName());
    FirstOfAll(w);
    var all := RootDirectory(w);
    assert all[..512] == dir;
    assert all[0..11] == all[..512][0..11];
  }

  /** A directory that holds one entry, the directory DIR at cluster 2. */
  function OneDirectory(): DirEntry {
    [68, 73, 82, 32, 32, 32, 32, 32, 32, 32, 32, 16,
     0, 0, 0, 0, 0, 0, 0, 0, 0, 0, 0, 0, 0, 0, 2, 0, 0, 0, 0, 0]
  }

  /** With all handles open, the path DIR/X goes on with a null directory. */
  lemma NullDirectory(v: Volume, chains: Catalog)
    ensures Resolve(v, chains, OneDirectory(), [68, 73, 82, 47, 88], false) == ThroughNull
  {
    var path: seq<Byte> := [68, 73, 82, 47, 88];
    SlashAt(path);
    var name: seq<Byte> := [68, 73, 82];
    assert First(path) == name;
    NoDot(name);
    assert FatName(name) == OneDirectory()[..11];
    assert OneDirectory()[0..11] == OneDirectory()[..11] && OneDirectory()[0..32] == OneDirectory();
    assert Find(OneDirectory(), FatName(name), 0) == Some(OneDirectory());
    assert Rest(path) == [88];
  }

  lemma SlashAt(path: seq<Byte>)
    requires path == [68, 73, 82, 47, 88]
    ensures IndexOf(path, SLASH) == 3
  {
    assert path[1..] == [73, 82, 47, 88] && path[1..][1..] == [82, 47, 88] && path[1..][1..][1..] == [47, 88];
    assert IndexOf(path[1..][1..][1..], SLASH) == 0;
    assert IndexOf(path[1..][1..], SLASH) == 1;
    assert IndexOf(path[1..], SLASH) == 2;
  }

  lemma NoDot(name: seq<Byte>)
    requires name == [68, 73, 82]
    ensures Dot(name) == 11
  {
    assert name[1..] == [73, 82] && name[1..][1..] == [82] && name[1..][1..][1..] == [];
    assert IndexOf(name[1..][1..], DOT) == 1;
    assert IndexOf(name[1..], DOT) == 2;
    assert IndexOf(name, DOT) == 3;
  }

  /** The PML4 in frame 1 points to the table in frame 2, which maps the first GiB to
      itself with one 1 GiB page. */
  predicate FirstGigabyte(m: Mem) { 1 in m && 2 in m && Entry(m, 1, 0) == 0x2003 && Entry(m, 2, 0) == 0x83 }

  /** `virt_to_phys` loses the offset behind the first 2 MiB of a 1 GiB page. */
  lemma GigabyteOffset(m: Mem, pml4: nat, va: Word)
    requires FirstGigabyte(m) && pml4 == 1 && va == 0x20_0000
    ensures TablesSeen(m, pml4, pml4, 3, PageOf(va))
    ensures Architectural(m, pml4, va) == va && Software(m, pml4, pml4, 3, va) == Some(0)
  {
    InGigabyte(m, pml4);
    InGigabyte(m, 2);
    InGigabyte(m, PageOf(va));
    FrameEntry(2);
    SeenLast(m, pml4, 2, 2, PageOf(va));
    SeenNext(m, pml4, pml4, 3, PageOf(va), 2, 2);
    FollowsWalk(m, pml4, pml4, 3, va);
  }

  lemma InGigabyte(m: Mem, p: nat)
    requires FirstGigabyte(m) && p < 0x4_0000
    ensures Index(p, 3) == 0 && Index(p, 2) == 0 && Walk(m, 1, 3, p) == Leaf(2, 0x83)
    ensures Translate(m, 1, p) == Some(p)
  {
    assert Walk(m, 2, 2, p) == Leaf(2, 0x83);
    assert LeafFrame(2, 0x83, p) == Some(p);
  }

  /** The PML4 in frame 1 leads to the page directory in frame 3, which maps the first
      2 MiB to themselves and the sixth to address 0x40_0000, which is mapped nowhere else. */
  predicate TwoBlocks(m: Mem) {
    && 1 in m && 2 in m && 3 in m && Entry(m, 1, 0) == 0x2003 && Entry(m, 2, 0) == 0x3003
    && Entry(m, 3, 0) == 0x83 && Entry(m, 3, 2) == 0 && Entry(m, 3, 5) == 0x40_0083
  }

  /** `virt_to_phys` faults on such a page: it takes the data for a page table. */
  lemma LargePageFaults(m: Mem, pml4: nat, va: Word)
    requires TwoBlocks(m) && pml4 == 1 && va == 0xA0_0000
    ensures TablesSeen(m, pml4, pml4, 3, PageOf(va))
    ensures Architectural(m, pml4, va) == 0x40_0000 && Software(m, pml4, pml4, 3, va) == None
  {
    SixthBlock(m, pml4, PageOf(va));
    TwoBlocksSeen(m, pml4, PageOf(va));
    FaultsExactly(m, pml4, pml4, va);
  }

  lemma SixthBlock(m: Mem, pml4: nat, p: nat)
    requires TwoBlocks(m) && pml4 == 1 && p == 0xA00
    ensures Walk(m, pml4, 3, p) == Leaf(1, 0x40_0083) && Translate(m, pml4, p) == Some(0x400)
    ensures SeenAt(m, pml4, FrameOf(0x40_0083)) == None
  {
    InBlocks(m, 0x400, 2);
    InBlocks(m, p, 5);
  }

  lemma TwoBlocksSeen(m: Mem, pml4: nat, p: nat)
    requires TwoBlocks(m) && pml4 == 1 && p == 0xA00
    ensures TablesSeen(m, pml4, pml4, 3, p)
  {
    InBlocks(m, pml4, 0);
    InBlocks(m, 2, 0);
    InBlocks(m, 3, 0);
    BlockSlots(m, p);
    SeenLast(m, pml4, 3, 1, p);
    SeenNext(m, pml4, 2, 2, p, 3, 1);
    SeenNext(m, pml4, pml4, 3, p, 2, 2);
  }

  lemma BlockSlots(m: Mem, p: nat)
    requires TwoBlocks(m) && p == 0xA00
    ensures Leads(m, 1, 3, p, 2) && Leads(m, 2, 2, p, 3) && !Pointer(Entry(m, 3, Index(p, 1)))
  {
    FrameEntry(2);
    FrameEntry(3);
  }

  /** The walk of page `p` goes from table `t` to table `c`. */
  predicate Leads(m: Mem, t: nat, level: Level, p: nat, c: nat) {
    var w := Entry(m, t, Index(p, level));
    Pointer(w) && FrameOf(w) == c
  }

  /** Tables that are mapped to their own addresses, from the last one up. */
  lemma SeenLast(m: Mem, cr3: nat, t: nat, level: Level, p: nat)
    requires SeenAt(m, cr3, t) == Some(t) && !Pointer(Entry(m, t, Index(p, level)))
    ensures TablesSeen(m, cr3, t, level, p)
  {
  }

  lemma SeenNext(m: Mem, cr3: nat, t: nat, level: Level, p: nat, c: nat, below: Level)
    requires SeenAt(m, cr3, t) == Some(t) && Leads(m, t, level, p, c)
    requires below + 1 == level && TablesSeen(m, cr3, c, below, p)
    ensures TablesSeen(m, cr3, t, level, p)
  {
  }

  lemma InBlocks(m: Mem, p: nat, i: nat)
    requires TwoBlocks(m) && p / 0x200 == i < 512
    ensures Index(p, 3) == 0 && Index(p, 2) == 0 && Index(p, 1) == i
    ensures Walk(m, 1, 3, p) == Walk(m, 3, 1, p)
    ensures i == 0 ==> Translate(m, 1, p) == Some(p)
    ensures i == 2 ==> Translate(m, 1, p) == None
    ensures i == 5 ==> Walk(m, 1, 3, p) == Leaf(1, 0x40_0083) && Translate(m, 1, p) == Some(0x400 + p % 0x200)
  {
    assert Walk(m, 2, 2, p) == Walk(m, 3, 1, p);
  }

  /** In the small kernel one page of the lower half can be mapped. */
  lemma SmallKernelReady(virt: Word)
    requires virt < 0x8000_0000_0000
    ensures ReadyToMap(SmallSpace(), virt, 1)
  {
    var s := SmallSpace();
    SmallKernelValid();
    SmallRoom(virt);
    LowPage(virt);
    LowPageFree(PageAt(virt, 0));
    OnePageFree(s, virt);
  }

  lemma SmallRoom(virt: Word)
    ensures SmallSpace().Room(Touched(virt, 1))
  {
    SmallHeap();
    TouchedStep(virt, 0);
  }

  lemma OnePageFree(s: Space, virt: Word)
    requires OutsideWindow(s.win, PageAt(virt, 0)) && s.Smooth(PageAt(virt, 0), 0)
    ensures PagesFree(s, virt, 1)
  {
  }

  lemma LowPage(virt: Word)
    requires virt < 0x8000_0000_0000
    ensures PageAt(virt, 0) < HIGH
  {
  }

  /** A root pointer at page offset 0xFE0: once `parseRSDP` has mapped its page, the last
      eight bytes cannot be read. */
  lemma RsdpFaults(a: Space)
    ensures SmallSpace().Valid() && ReadyToMap(SmallSpace(), 0xE_0FE0, 1) && RsdpAddress(SmallSpace(), 0xE_0FE0)
    ensures MapsRun(SmallSpace(), a, 0xE_0FE0, 0xE_0FE0, 1) ==>
      ByteReadable(a, 0xE_0FE0, 31) && !ByteReadable(a, 0xE_0FE0, 32)
  {
    SmallKernelReady(0xE_0FE0);
    SmallTranslation(0xE1);
    if MapsRun(SmallSpace(), a, 0xE_0FE0, 0xE_0FE0, 1) {
      PagesMapped(SmallSpace(), a, 0xE_0FE0);
      ReadableByte(SmallSpace(), a, 0xE_0FE0, 31);
      ReadableByte(SmallSpace(), a, 0xE_0FE0, 32);
    }
  }

  /** The small kernel maps a page to itself, and `parseRSDP` for a root pointer in that
      page unmaps it. */
  method MappingLost(k: Machine) returns (before: Option<nat>, after: Option<nat>)
    requires k.Valid() && k.View() == SmallSpace()
    modifies k`ram, k`heap, k`shape
    ensures k.Valid() && before == Some(0xE0) && after == k.View().Translated(0xE0) == None
  {
    SmallKernelReady(0xE_0000);
    Map4K(k, 0xE_0000, 0xE_0000, 1);
    before := Translate(k.ram, k.cr3, 0xE0);
    MappedOnce(k.View());
    var copy := ParseRsdp(k, 0xE_0000);
    after := Translate(k.ram, k.cr3, 0xE0);
  }

  lemma MappedOnce(a: Space)
    requires MapsRun(SmallSpace(), a, 0xE_0000, 0xE_0000, 1)
    ensures a.Translated(0xE0) == Some(0xE0)
    ensures ReadyToMap(a, 0xE_0000, 1) && RsdpPlaced(a, 0xE_0000)
  {
    SmallHeap();
    SmallKernelReady(0xE_0000);
    PagesMapped(SmallSpace(), a, 0xE_0000);
    StillReady(SmallSpace(), a, 0xE_0000);
  }

  /** An entry with bit 63 set is rebuilt into another address than that of its table. */
  lemma ExecuteDisabledPointer()
    ensures var w, win := 0x8000_0000_0000_3003, Window(1, 256, 0);
      FrameOf(w) == 3 && Add64(w / 4096 * 4096, win.Offset()) == 0x8000_0000_0000_3000 && Pointer64(win, 3) == 0x3000
  {
  }

  /** A segment of one page that begins in the middle of a page: its second half is not
      mapped. */
  lemma HalfMapped()
    ensures var g := Segment(PT_LOAD, 0x800, 0x40_0800, 0x40_0800, 0x1000, 0x1000);
      PageCount(g) == 1 && ByteCovered(g, 0, 0x7FF) && !ByteCovered(g, 0, 0x800)
  {
  }

  /** A kernel whose lowest load address is one page computes another offset than the
      one it is mapped at. */
  lemma SecondPageKernel()
    ensures var g := Segment(PT_LOAD, 0x1000, 0xFFFF_8000_0000_1000, 0x1000, 0x1000, 0x1000);
      && LinkedHigh([g], 0x10_0000)
      && KernelOffset(PhysBase([g], 0x10_0000)) == 0xFFFF_7FFF_FFEF_F000
      && Offset(g, 0x10_0000) == 0xFFFF_7FFF_FFF0_0000
  {
    var g := Segment(PT_LOAD, 0x1000, 0xFFFF_8000_0000_1000, 0x1000, 0x1000, 0x1000);
    assert Lowest([g], 0x10_0000, 0) == TWO64 - 1;
    assert Lowest([g], 0x10_0000, 1) == 0x10_1000;
  }
}
