/** What loading a segment does to the address space: its pages are mapped, its bytes
    are written, and everything else stays. */
module Loading {
  import opened Bytes
  import opened Words
  import opened Memory
  import opened Paging
  import opened Updates
  import opened Windows
  import opened Ranges
  import opened Spaces
  import opened Runs
  import opened LargeRuns
  import opened ByteAccess
  import opened ElfImages

  // ----- the pages of a segment

  function PageCount(g: Segment): nat { (g.memsz + 4095) / 4096 }

  function FirstPage(g: Segment): nat { PageOf(g.virt) }

  function FirstFrame(g: Segment, data: Word): nat { Target(g, data) / 4096 }

  predicate InPages(g: Segment, q: nat) { FirstPage(g) <= q < FirstPage(g) + PageCount(g) }

  predicate InFrames(g: Segment, data: Word, f: nat) { FirstFrame(g, data) <= f < FirstFrame(g, data) + PageCount(g) }

  /** All addresses of the segment are canonical. */
  predicate CanonicalRange(g: Segment) {
    g.virt + g.memsz <= 0x8000_0000_0000 || (0xFFFF_8000_0000_0000 <= g.virt && g.virt + g.memsz <= TWO64)
  }

  /** The segment and its target lie at the same place in their pages, and as many pages
      as the loader maps reach to the end of the segment. */
  predicate FitsPages(g: Segment, data: Word) {
    g.virt % 4096 == Target(g, data) % 4096 && g.virt % 4096 + g.memsz <= PageCount(g) * 4096
  }

  /** A segment the loader can place: at canonical addresses outside the window of the
      bootloader, onto frames of RAM outside that window. */
  ghost predicate Placed(s: Space, g: Segment, data: Word) {
    && FitsPages(g, data) && g.filesz <= g.memsz
    && CanonicalRange(g) && FirstFrame(g, data) + PageCount(g) <= PAGES
    && (forall f: nat {:trigger f in s.ram} | InFrames(g, data, f) :: f in s.ram && !(s.win.lo <= f < s.win.hi))
    && (forall q: nat {:trigger OutsideWindow(s.win, q)} | InPages(g, q) :: OutsideWindow(s.win, q))
  }

  lemma PlacedSame(s: Space, s': Space, g: Segment, data: Word)
    requires Placed(s, g, data) && s'.win == s.win && s'.ram.Keys == s.ram.Keys
    ensures Placed(s', g, data)
  {
  }

  /** The condition under which the loader uses 2 MiB pages. */
  predicate UsesLarge(g: Segment, data: Word) {
    g.virt % 0x20_0000 == 0 && Target(g, data) % 0x20_0000 == 0 && g.memsz % 0x20_0000 == 0
  }

  predicate InLargePages(g: Segment, data: Word, q: nat) { UsesLarge(g, data) && InPages(g, q) }

  /** A bound on the tables that mapping the segment can need. */
  function Need(g: Segment, data: Word): nat {
    if UsesLarge(g, data) then TouchedLarge(g.virt, g.memsz / 0x20_0000) else Touched(g.virt, PageCount(g))
  }

  /** Pages of a segment do not wrap around the 48-bit address space. */
  lemma PagesFit(g: Segment)
    requires CanonicalRange(g)
    ensures FirstPage(g) + PageCount(g) <= PAGES
  {
  }

  /** Byte `o` of the segment lies in one of its pages, at the place of its target. */
  predicate ByteCovered(g: Segment, data: Word, o: nat) {
    g.virt + o < TWO64 && InPages(g, PageOf(g.virt + o)) && (g.virt + o) % 4096 == (Target(g, data) + o) % 4096
  }

  lemma ByteAddress(g: Segment, o: nat)
    requires CanonicalRange(g) && o < g.memsz
    ensures g.virt + o < TWO64 && Canonical(g.virt + o)
    ensures PageOf(g.virt + o) == FirstPage(g) + (g.virt % 4096 + o) / 4096
  {
    var v, k := g.virt / 4096, (g.virt % 4096 + o) / 4096;
    QuotientRemainder(g.virt + o, v + k, 4096, (g.virt % 4096 + o) % 4096);
    LastPage(g, o);
    QuotientRemainder(v + k, v / PAGES, PAGES, v % PAGES + k);
  }

  /** No byte of the segment wraps around the 48-bit address space. */
  lemma LastPage(g: Segment, o: nat)
    requires CanonicalRange(g) && o < g.memsz
    ensures FirstPage(g) + (g.virt % 4096 + o) / 4096 < PAGES
  {
    var v := g.virt / 4096;
    if g.virt + g.memsz <= 0x8000_0000_0000 {
      PagesBelow(g.virt, o, 0x8_0000_0000);
      QuotientRemainder(v, 0, PAGES, v);
    } else {
      PagesBelow(g.virt, o, 0x10_0000_0000_0000);
      QuotientRemainder(v, 0xFFFF, PAGES, v - 0xFFFF * PAGES);
    }
  }

  lemma PagesBelow(virt: nat, o: nat, bound: nat)
    requires virt + o < bound * 4096
    ensures virt / 4096 + (virt % 4096 + o) / 4096 < bound
  {
    QuotientRemainder(virt + o, virt / 4096 + (virt % 4096 + o) / 4096, 4096, (virt % 4096 + o) % 4096);
  }

  /** Where byte `o` of a segment lies. */
  lemma BytePlace(g: Segment, data: Word, o: nat)
    requires FitsPages(g, data) && CanonicalRange(g) && o < g.memsz
    ensures g.virt + o < TWO64 && Canonical(g.virt + o)
    ensures InPages(g, PageOf(g.virt + o)) && InFrames(g, data, (Target(g, data) + o) / 4096)
    ensures (Target(g, data) + o) / 4096 - FirstFrame(g, data) == PageOf(g.virt + o) - FirstPage(g)
    ensures (g.virt + o) % 4096 == (Target(g, data) + o) % 4096
  {
    ByteAddress(g, o);
    var a, k := g.virt % 4096, (g.virt % 4096 + o) / 4096;
    QuotientRemainder(g.virt + o, g.virt / 4096 + k, 4096, (a + o) % 4096);
    QuotientRemainder(Target(g, data) + o, FirstFrame(g, data) + k, 4096, (a + o) % 4096);
  }

  /** The pages that are mapped hold the whole segment exactly then. */
  lemma CoveredExactly(g: Segment, data: Word)
    requires CanonicalRange(g) && g.memsz > 0
    ensures (forall o: nat {:trigger ByteCovered(g, data, o)} | o < g.memsz :: ByteCovered(g, data, o))
            <==> FitsPages(g, data)
  {
    if FitsPages(g, data) {
      forall o: nat | o < g.memsz
        ensures ByteCovered(g, data, o)
      {
        BytePlace(g, data, o);
      }
    } else if g.virt % 4096 != Target(g, data) % 4096 {
      assert !ByteCovered(g, data, 0);
    } else {
      ByteAddress(g, g.memsz - 1);
      assert !ByteCovered(g, data, g.memsz - 1);
    }
  }

  // ----- mapping

  /** Where the walk of a page of the segment ends: at an entry that names its frame, with
      the bits that `map_4k` or `map_2m` sets. */
  function SegmentLeaf(g: Segment, data: Word, q: nat): Outcome
    requires InPages(g, q)
  {
    if UsesLarge(g, data) then Leaf(1, RunEntry(Target(g, data), 0x83, (q - FirstPage(g)) / 512 * 512))
    else Leaf(0, RunEntry(Target(g, data), SmallLow(Target(g, data)), q - FirstPage(g)))
  }

  /** Every page of the segment has that leaf, and every other page keeps its leaf or hole. */
  ghost predicate LeavesMapped(s: Space, s': Space, g: Segment, data: Word) {
    forall q: nat {:trigger s'.Walked(q)} | q < PAGES ::
      if InPages(g, q) then s'.Walked(q) == SegmentLeaf(g, data, q) else Alike(s'.Walked(q), s.Walked(q))
  }

  /** The pages of the segment are mapped in order to its frames; nothing else changed. */
  ghost predicate SegmentMapped(s: Space, s': Space, g: Segment, data: Word) {
    && Kept(s, s') && s'.Free() <= s.Free() + Need(g, data) && LeavesMapped(s, s', g, data)
    && (forall q: nat {:trigger s'.Translated(q)} | q < PAGES ::
          s'.Translated(q) == if InPages(g, q) then Some(FirstFrame(g, data) + (q - FirstPage(g))) else s.Translated(q))
    && (forall q: nat {:trigger s'.Smooth(q, 0)} | q < PAGES && s.Smooth(q, 0) && !InLargePages(g, data, q) ::
          s'.Smooth(q, 0))
  }

  /** The result of the mapping loops, seen as one block. */
  lemma BlockOfPages(g: Segment, data: Word, q: nat, before: Option<nat>)
    requires CanonicalRange(g) && FirstFrame(g, data) + PageCount(g) <= PAGES && q < PAGES
    ensures Remapped(q, g.virt, Target(g, data), PageCount(g), before)
            == if InPages(g, q) then Some(FirstFrame(g, data) + (q - FirstPage(g))) else before
  {
    PagesFit(g);
    RemappedBlock(q, g.virt, Target(g, data), PageCount(g), before);
    if InPages(g, q) {
      var i := q - FirstPage(g);
      QuotientRemainder(FirstFrame(g, data) + i, 0, PAGES, FirstFrame(g, data) + i);
    }
  }

  lemma SmallReady(s: Space, g: Segment, data: Word)
    requires s.Valid() && Placed(s, g, data) && !UsesLarge(g, data) && s.Room(Need(g, data))
    requires forall q: nat | InPages(g, q) :: s.Smooth(q, 0)
    ensures ReadyToMap(s, g.virt, PageCount(g))
  {
    PagesFit(g);
    forall i: nat | i < PageCount(g)
      ensures OutsideWindow(s.win, PageAt(g.virt, i)) && s.Smooth(PageAt(g.virt, i), 0)
    {
      PageAtOffset(g.virt, i);
      assert InPages(g, PageAt(g.virt, i));
    }
  }

  lemma SmallLeaves(s: Space, s': Space, g: Segment, data: Word)
    requires Placed(s, g, data) && !UsesLarge(g, data)
    requires LeavesRun(s, s', g.virt, Target(g, data), SmallLow(Target(g, data)), PageCount(g))
    ensures LeavesMapped(s, s', g, data)
  {
    var t := Target(g, data);
    PagesFit(g);
    forall q: nat | q < PAGES
      ensures if InPages(g, q) then s'.Walked(q) == SegmentLeaf(g, data, q) else Alike(s'.Walked(q), s.Walked(q))
    {
      LeafBlock(q, g.virt, t, SmallLow(t), PageCount(g), s.Walked(q));
      assert Alike(s'.Walked(q), LeafAfter(q, g.virt, t, SmallLow(t), PageCount(g), s.Walked(q)));
      if InPages(g, q) {
        EntryFits(t, SmallLow(t), q - FirstPage(g));
      }
    }
  }

  lemma EntryFits(phys: Word, low: nat, i: nat)
    requires low < 4096 && phys / 4096 + i < PAGES
    ensures RunEntry(phys, low, i) == (phys / 4096 + i) * 4096 + low
  {
    QuotientRemainder(phys / 4096 + i, 0, 0x10_0000_0000_0000, phys / 4096 + i);
  }

  lemma SmallMapped(s: Space, s': Space, g: Segment, data: Word)
    requires Placed(s, g, data) && !UsesLarge(g, data)
    requires MapsRun(s, s', g.virt, Target(g, data), PageCount(g))
    requires LeavesRun(s, s', g.virt, Target(g, data), SmallLow(Target(g, data)), PageCount(g))
    ensures SegmentMapped(s, s', g, data)
  {
    SmallLeaves(s, s', g, data);
    forall q: nat | q < PAGES
      ensures s'.Translated(q)
              == if InPages(g, q) then Some(FirstFrame(g, data) + (q - FirstPage(g))) else s.Translated(q)
    {
      BlockOfPages(g, data, q, s.Translated(q));
      assert s'.Translated(q) == Remapped(q, g.virt, Target(g, data), PageCount(g), s.Translated(q));
    }
  }

  /** An aligned segment consists of whole blocks. */
  lemma WholeBlocks(g: Segment, data: Word)
    requires UsesLarge(g, data)
    ensures PageCount(g) == 512 * (g.memsz / 0x20_0000)
    ensures g.virt % 4096 == 0 && Target(g, data) % 4096 == 0
  {
    var n := g.memsz / 0x20_0000;
    QuotientRemainder(g.memsz + 4095, 512 * n, 4096, 4095);
    QuotientRemainder(g.virt, g.virt / 0x20_0000 * 512, 4096, 0);
    var t := Target(g, data);
    QuotientRemainder(t, t / 0x20_0000 * 512, 4096, 0);
  }

  lemma BlockInPages(g: Segment, data: Word, q: nat)
    requires UsesLarge(g, data) && CanonicalRange(g) && q < PAGES && InBlocks(q, g.virt, g.memsz / 0x20_0000)
    ensures InPages(g, q)
  {
    WholeBlocks(g, data);
    PagesFit(g);
    var i: nat :| i < g.memsz / 0x20_0000 && BlockAt(g.virt, i) == Region(q, 1);
    AlignedStart(g.virt);
    BlockOfPage(g.virt, i, 0);
    PageAtOffset(g.virt, i * 512);
    assert q == Region(q, 1) * 512 + q % 512;
  }

  lemma LargeReady(s: Space, g: Segment, data: Word)
    requires s.Valid() && Placed(s, g, data) && UsesLarge(g, data) && s.Room(Need(g, data))
    requires forall q: nat | InPages(g, q) :: s.Smooth(q, 0)
    ensures ReadyForLarge(s, g.virt, g.memsz / 0x20_0000)
  {
    var n := g.memsz / 0x20_0000;
    forall q: nat | q < PAGES && InBlocks(q, g.virt, n)
      ensures OutsideWindow(s.win, q) && s.Smooth(q, 1)
    {
      BlockInPages(g, data, q);
    }
  }

  lemma LargeLeaves(s: Space, s': Space, g: Segment, data: Word)
    requires Placed(s, g, data) && UsesLarge(g, data)
    requires LeavesLarge(s, s', g.virt, Target(g, data), LargeLow(Target(g, data)), g.memsz / 0x20_0000)
    ensures LeavesMapped(s, s', g, data)
  {
    var t, n := Target(g, data), g.memsz / 0x20_0000;
    WholeBlocks(g, data);
    PagesFit(g);
    forall q: nat | q < PAGES
      ensures if InPages(g, q) then s'.Walked(q) == SegmentLeaf(g, data, q) else Alike(s'.Walked(q), s.Walked(q))
    {
      FirstBlock(g, q, n);
      LargeLeafBlock(q, g.virt, t, 0x83, n, s.Walked(q));
      assert Alike(s'.Walked(q), LargeLeafAfter(q, g.virt, t, 0x83, n, s.Walked(q)));
      if InPages(g, q) {
        EntryFits(t, 0x83, (q - FirstPage(g)) / 512 * 512);
      }
    }
  }

  /** The pages of an aligned segment are those of its blocks. */
  lemma FirstBlock(g: Segment, q: nat, n: nat)
    requires g.virt % 0x20_0000 == 0 && n == g.memsz / 0x20_0000 && PageCount(g) == 512 * n
    requires FirstPage(g) + PageCount(g) <= PAGES && q < PAGES
    ensures var b := g.virt / 0x20_0000 % BLOCKS;
      && FirstPage(g) == 512 * b && b + n <= BLOCKS
      && (InPages(g, q) <==> b <= q / 512 < b + n)
      && (InPages(g, q) ==> (q - FirstPage(g)) / 512 == q / 512 - b)
  {
    AlignedStart(g.virt);
    BlockOfPage(g.virt, 0, 0);
    QuotientRemainder(FirstPage(g), g.virt / 0x20_0000 % BLOCKS, 512, 0);
    if InPages(g, q) {
      var b := g.virt / 0x20_0000 % BLOCKS;
      QuotientRemainder(q - FirstPage(g), q / 512 - b, 512, q % 512);
    }
  }

  lemma LargeMapped(s: Space, s': Space, g: Segment, data: Word)
    requires Placed(s, g, data) && UsesLarge(g, data)
    requires MapsLarge(s, s', g.virt, Target(g, data), g.memsz / 0x20_0000)
    requires LeavesLarge(s, s', g.virt, Target(g, data), LargeLow(Target(g, data)), g.memsz / 0x20_0000)
    ensures SegmentMapped(s, s', g, data)
  {
    LargeLeaves(s, s', g, data);
    var n := g.memsz / 0x20_0000;
    WholeBlocks(g, data);
    forall q: nat | q < PAGES
      ensures s'.Translated(q)
              == if InPages(g, q) then Some(FirstFrame(g, data) + (q - FirstPage(g))) else s.Translated(q)
      ensures s.Smooth(q, 0) && !InLargePages(g, data, q) ==> s'.Smooth(q, 0)
    {
      BlockOfPages(g, data, q, s.Translated(q));
      LargeIsSmall(q, g.virt, Target(g, data), n, s.Translated(q));
      assert s'.Translated(q) == RemappedLarge(q, g.virt, Target(g, data), n, s.Translated(q));
      if InBlocks(q, g.virt, n) {
        BlockInPages(g, data, q);
      }
    }
  }

  // ----- storing bytes

  /** `bytes` have been stored at physical address `base`; the tables are the same. */
  ghost predicate Stored(s: Space, s': Space, base: nat, bytes: seq<Byte>) {
    && s'.Valid() && s' == s.(ram := s'.ram) && s'.ram.Keys == s.ram.Keys
    && (forall q: nat {:trigger s'.Walked(q)} | q < PAGES :: s'.Walked(q) == s.Walked(q))
    && (forall a: nat {:trigger PhysicalByte(s'.ram, a)} ::
          PhysicalByte(s'.ram, a) == if base <= a < base + |bytes| then bytes[a - base] else PhysicalByte(s.ram, a))
    && (forall f: nat {:trigger s'.ram[f]} | f in s.ram && !(base / 4096 <= f && f * 4096 < base + |bytes|) ::
          s'.ram[f] == s.ram[f])
  }

  lemma StoredNothing(s: Space, base: nat)
    requires s.Valid()
    ensures Stored(s, s, base, [])
  {
  }

  /** A write to a frame that is no table moves neither tables nor translations. */
  lemma DataWritten(s: Space, s': Space, f: nat)
    requires s.Valid() && f in s.ram && f !in s.shape
    requires s' == s.(ram := s'.ram) && f in s'.ram && s'.ram == s.ram[f := s'.ram[f]]
    ensures s'.Valid() && forall q: nat {:trigger s'.Walked(q)} | q < PAGES :: s'.Walked(q) == s.Walked(q)
  {
    OutsideTables(s.ram, s'.ram, s.root, s.shape);
    StillLinear(s.ram, s'.ram, s.root, s.win);
  }

  lemma ByteStored(a: Space, b: Space, at: nat, x: Byte)
    requires a.Valid() && at / 4096 in a.ram && at / 4096 !in a.shape
    requires b == a.(ram := SetPhysicalByte(a.ram, at, x))
    ensures Stored(a, b, at, [x])
  {
    DataWritten(a, b, at / 4096);
    forall y: nat
      ensures PhysicalByte(b.ram, y) == if y == at then x else PhysicalByte(a.ram, y)
    {
      PhysicalWritten(a.ram, at, x, y);
    }
  }

  lemma FrameInRange(base: nat, n: nat)
    ensures base / 4096 <= (base + n) / 4096 && (base + n) / 4096 * 4096 <= base + n
  {
  }

  lemma StoredTwice(s: Space, a: Space, b: Space, base: nat, x: seq<Byte>, y: seq<Byte>)
    requires Stored(s, a, base, x) && Stored(a, b, base + |x|, y)
    ensures Stored(s, b, base, x + y)
  {
    FrameInRange(base, |x|);
    forall p: nat
      ensures PhysicalByte(b.ram, p) == if base <= p < base + |x + y| then (x + y)[p - base] else PhysicalByte(s.ram, p)
    {
      assert PhysicalByte(a.ram, p) == if base <= p < base + |x| then x[p - base] else PhysicalByte(s.ram, p);
    }
    forall q: nat | q < PAGES
      ensures b.Walked(q) == s.Walked(q)
    {
      assert a.Walked(q) == s.Walked(q);
    }
  }
}
