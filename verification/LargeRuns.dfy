/** Runs of 2 MiB blocks, and why they are the same as runs of 4 KiB pages. */
module LargeRuns {
  import opened Words
  import opened Memory
  import opened Paging
  import opened Updates
  import opened Windows
  import opened Ranges
  import opened Spaces
  import opened Runs

  const BLOCKS: nat := 0x800_0000

  /** Block `i` of a run of 2 MiB blocks that starts at address `a`. */
  function BlockAt(a: Word, i: nat): (r: nat)
    ensures r < BLOCKS
  {
    (a / 0x20_0000 + i) % BLOCKS
  }

  /** The entry `map_2m` writes in round `i`. */
  function LargeEntry(phys: Word, i: nat): Word { OrLarge(Add64(phys, i * 0x20_0000)) }

  /** The flat page map after `n` rounds of `map_2m`. */
  function RemappedLarge(q: nat, virt: Word, phys: Word, n: nat, before: Option<nat>): Option<nat> {
    if n == 0 then before
    else if BlockAt(virt, n - 1) == Region(q, 1) then LeafFrame(1, LargeEntry(phys, n - 1), q)
    else RemappedLarge(q, virt, phys, n - 1, before)
  }

  /** Page `q` lies in one of the first `n` blocks. */
  predicate InBlocks(q: nat, virt: Word, n: nat) {
    exists i: nat :: i < n && BlockAt(virt, i) == Region(q, 1)
  }

  lemma BlockOfStep(a: Word, i: nat)
    ensures Region(PageOf(Add64(a, i * 0x20_0000)), 1) == BlockAt(a, i)
  {
    PageOfStep(a, i * 512);
    assert i * 0x20_0000 == i * 512 * 4096;
    BlockOfPage(a, i, 0);
  }

  /** Page `512 * i + j` of a run, counted from the start of its first block. */
  lemma BlockOfPage(a: Word, i: nat, j: nat)
    requires a / 4096 % 512 + j < 512
    ensures PageAt(a, i * 512 + j) == BlockAt(a, i) * 512 + a / 4096 % 512 + j
    ensures Region(PageAt(a, i * 512 + j), 1) == BlockAt(a, i)
  {
    var b, o := a / 0x20_0000, a / 4096 % 512;
    NestedQuotient(a, 4096, 512);
    assert a / 4096 == b * 512 + o;
    var h, r := (b + i) / BLOCKS, (b + i) % BLOCKS;
    QuotientRemainder(a / 4096 + (i * 512 + j), h, PAGES, r * 512 + o + j);
    QuotientRemainder(r * 512 + o + j, r, 512, o + j);
  }

  /** The leaf of an aligned block maps each of its pages in order. */
  lemma BlockLeaf(phys: Word, i: nat, q: nat)
    requires phys % 0x20_0000 == 0
    ensures LeafFrame(1, LargeEntry(phys, i), q) == Some(PageAt(phys, i * 512 + q % 512))
  {
    AlignedStart(phys);
    PageOfStep(phys, i * 512);
    assert i * 0x20_0000 == i * 512 * 4096;
    BlockOfPage(phys, i, 0);
    BlockOfPage(phys, i, q % 512);
    QuotientRemainder(BlockAt(phys, i) * 512, BlockAt(phys, i), 512, 0);
  }

  lemma AlignedStart(a: Word)
    requires a % 0x20_0000 == 0
    ensures a / 4096 % 512 == 0
  {
    var b := a / 0x20_0000;
    QuotientRemainder(a, b * 512, 4096, 0);
    QuotientRemainder(b * 512, b, 512, 0);
  }

  /** The pages of one block, one at a time. */
  lemma {:induction false} OneBlock(q: nat, virt: Word, phys: Word, n: nat, k: nat, before: Option<nat>)
    requires virt % 0x20_0000 == 0 && k <= 512 && q < PAGES
    ensures Remapped(q, virt, phys, n * 512 + k, before) ==
            if BlockAt(virt, n) == Region(q, 1) && q % 512 < k then Some(PageAt(phys, n * 512 + q % 512))
            else Remapped(q, virt, phys, n * 512, before)
    decreases k
  {
    if k > 0 {
      AlignedStart(virt);
      BlockOfPage(virt, n, k - 1);
      OneBlock(q, virt, phys, n, k - 1, before);
    }
  }

  /** The fast form equals the simple form: `n` aligned 2 MiB rounds and `512 * n`
      rounds of 4 KiB give every page the same translation. */
  lemma {:induction false} LargeIsSmall(q: nat, virt: Word, phys: Word, n: nat, before: Option<nat>)
    requires virt % 0x20_0000 == 0 && phys % 0x20_0000 == 0 && q < PAGES
    ensures RemappedLarge(q, virt, phys, n, before) == Remapped(q, virt, phys, 512 * n, before)
    decreases n
  {
    if n > 0 {
      LargeIsSmall(q, virt, phys, n - 1, before);
      OneBlock(q, virt, phys, n - 1, 512, before);
      BlockLeaf(phys, n - 1, q);
    }
  }

  // ----- the loop

  function TouchedLarge(a: Word, n: nat): nat {
    Spans(a / 0x20_0000, n, 0x200) + Spans(a / 0x20_0000, n, 0x4_0000)
  }

  function OpenedLarge(a: Word, n: nat): nat {
    if n == 0 then 2 else Starts(a / 0x20_0000 + n, 0x200) + Starts(a / 0x20_0000 + n, 0x4_0000)
  }

  lemma TouchedLargeStep(a: Word, n: nat)
    ensures TouchedLarge(a, n + 1) == TouchedLarge(a, n) + OpenedLarge(a, n)
  {
    SpansStep(a / 0x20_0000, n, 0x200);
    SpansStep(a / 0x20_0000, n, 0x4_0000);
  }

  lemma {:induction false} TouchedLargeGrows(a: Word, i: nat, n: nat)
    requires i <= n
    ensures TouchedLarge(a, i) <= TouchedLarge(a, n)
    decreases n
  {
    if i < n {
      TouchedLargeStep(a, n - 1);
      TouchedLargeGrows(a, i, n - 1);
    }
  }

  /** Two consecutive blocks share every region that the second one does not open. */
  lemma SharedBlockRegion(a: Word, n: nat, p: nat, q: nat, level: Level)
    requires n > 0 && 2 <= level
    requires Region(p, 1) == BlockAt(a, n) && Region(q, 1) == BlockAt(a, n - 1)
    requires (a / 0x20_0000 + n) % (if level == 2 then 0x200 else 0x4_0000) != 0
    ensures Region(p, level) == Region(q, level)
  {
    var u := a / 0x20_0000 + n;
    if level == 2 {
      SameQuotient(u, 0x200, 0x4_0000, BLOCKS);
    } else {
      SameQuotient(u, 0x4_0000, 0x200, BLOCKS);
    }
    RegionStep(p, 1);
    RegionStep(q, 1);
    RegionStep(p, 2);
    RegionStep(q, 2);
    NestedQuotient(Region(p, 1), 512, 512);
    NestedQuotient(Region(q, 1), 512, 512);
  }

  /** The block of page `p` now has the 2 MiB leaf `w`; all other pages keep their
      leaf or hole. */
  ghost predicate BlockSet(s: Space, s': Space, p: nat, w: Word) {
    && Kept(s, s')
    && (forall q: nat {:trigger s'.Walked(q)} | q < PAGES && Region(q, 1) == Region(p, 1) ::
          s'.Walked(q) == Leaf(1, w))
    && (forall q: nat {:trigger SameLeaf(s.ram, s'.ram, s.root, q)} | q < PAGES && Region(q, 1) != Region(p, 1) ::
          SameLeaf(s.ram, s'.ram, s.root, q))
  }

  lemma GrownThenBlock(a: Space, b: Space, c: Space, p: nat, t: nat, w: Word)
    requires Grown(a, b) && Passes(b.ram, b.root, p, 1, t) && t in b.ram && Present(w) && Large(w)
    requires b.Valid()
    requires forall q: nat | q < PAGES && Region(q, 1) == Region(p, 1) :: OutsideWindow(b.win, q)
    requires c == Write(b, Index(p, 1), t, w)
    ensures BlockSet(a, c, p, w) && c.Free() == b.Free()
  {
    WriteKeeps(b, p, 1, t, w, c);
    KeptTransitive(a, b, c);
    forall q: nat | q < PAGES && Region(q, 1) != Region(p, 1)
      ensures SameLeaf(a.ram, c.ram, a.root, q)
    {
      assert SameLeaf(a.ram, b.ram, a.root, q);
      assert c.Walked(q) == b.Walked(q);
    }
  }

  /** The blocks of the run avoid the window and meet no 1 GiB page, and the heap
      has room for every table the run can need. */
  ghost predicate ReadyForLarge(s: Space, virt: Word, n: nat) {
    && s.Valid() && s.Room(TouchedLarge(virt, n))
    && forall q: nat {:trigger InBlocks(q, virt, n)} | q < PAGES && InBlocks(q, virt, n) ::
         OutsideWindow(s.win, q) && s.Smooth(q, 1)
  }

  /** `n` rounds of `map_2m`. */
  ghost predicate MapsLarge(s: Space, s': Space, virt: Word, phys: Word, n: nat) {
    && Kept(s, s') && s.Free() <= s'.Free() <= s.Free() + TouchedLarge(virt, n)
    && (forall q: nat {:trigger s'.Translated(q)} | q < PAGES ::
          s'.Translated(q) == RemappedLarge(q, virt, phys, n, s.Translated(q)))
    && (forall q: nat {:trigger s'.Smooth(q, 1)} | q < PAGES && s.Smooth(q, 1) :: s'.Smooth(q, 1))
    && (forall q: nat {:trigger s'.Smooth(q, 0)} | q < PAGES && s.Smooth(q, 0) && !InBlocks(q, virt, n) ::
          s'.Smooth(q, 0))
    && (n > 0 ==> forall q: nat {:trigger s'.Walked(q)} | q < PAGES && Region(q, 1) == BlockAt(virt, n - 1) ::
          s'.Walked(q).level == 1)
  }

  /** The entry of round `i`, with the given bits 0 to 11. */
  function LargeRunEntry(phys: Word, low: nat, i: nat): Word
    requires low < 4096
  {
    (phys / 4096 + 512 * i) % 0x10_0000_0000_0000 * 4096 + low
  }

  /** Where the walk of page `q` ends after `n` rounds. */
  function LargeLeafAfter(q: nat, virt: Word, phys: Word, low: nat, n: nat, before: Outcome): Outcome
    requires low < 4096
  {
    if n == 0 then before
    else if BlockAt(virt, n - 1) == Region(q, 1) then Leaf(1, LargeRunEntry(phys, low, n - 1))
    else LargeLeafAfter(q, virt, phys, low, n - 1, before)
  }

  /** `n` rounds of `map_2m`, entry by entry. */
  ghost predicate LeavesLarge(s: Space, s': Space, virt: Word, phys: Word, low: nat, n: nat)
    requires low < 4096
  {
    forall q: nat {:trigger s'.Walked(q)} | q < PAGES ::
      Alike(s'.Walked(q), LargeLeafAfter(q, virt, phys, low, n, s.Walked(q)))
  }

  lemma LargeLeavesNothing(s: Space, virt: Word, phys: Word, low: nat)
    requires low < 4096
    ensures LeavesLarge(s, s, virt, phys, low, 0)
  {
  }

  lemma LargeLeavesOneMore(s: Space, a: Space, b: Space, virt: Word, phys: Word, low: nat, n: nat, p: nat, w: Word)
    requires low < 4096 && LeavesLarge(s, a, virt, phys, low, n) && BlockSet(a, b, p, w)
    requires p < PAGES && Region(p, 1) == BlockAt(virt, n) && w == LargeRunEntry(phys, low, n)
    ensures LeavesLarge(s, b, virt, phys, low, n + 1)
  {
    forall q: nat | q < PAGES
      ensures Alike(b.Walked(q), LargeLeafAfter(q, virt, phys, low, n + 1, s.Walked(q)))
    {
      assert Alike(a.Walked(q), LargeLeafAfter(q, virt, phys, low, n, s.Walked(q)));
      if Region(q, 1) != BlockAt(virt, n) {
        assert SameLeaf(a.ram, b.ram, a.root, q);
      }
    }
  }

  /** Bits 0 to 11 of `pa | PAGE_PRESENT | PAGE_RW | PAGE_PSE`. */
  function LargeLow(phys: Word): (low: nat)
    ensures low < 4096 && (phys % 4096 == 0 ==> low == 0x83)
  {
    phys % 4096 / 256 * 256 + 128 + phys % 128 / 4 * 4 + 3
  }

  /** What that is in round `i`. */
  lemma LargeRoundEntry(phys: Word, i: nat)
    ensures LargeEntry(phys, i) == LargeRunEntry(phys, LargeLow(phys), i)
  {
    var page, r := phys / 4096 + 512 * i, phys % 4096;
    var top, rest := page / 0x10_0000_0000_0000, page % 0x10_0000_0000_0000;
    QuotientRemainder(phys + i * 0x20_0000, top, TWO64, rest * 4096 + r);
    QuotientRemainder(rest * 4096 + r, rest, 4096, r);
    QuotientRemainder(rest * 4096 + r, rest * 32 + r / 128, 128, r % 128);
    QuotientRemainder(phys, phys / 4096 * 32 + r / 128, 128, r % 128);
  }

  /** Without wrap-around the entries of an aligned run name consecutive blocks of frames. */
  lemma {:induction false} LargeLeafBlock(q: nat, virt: Word, phys: Word, low: nat, n: nat, before: Outcome)
    requires low < 4096 && virt % 0x20_0000 == 0 && q < PAGES
    requires virt / 0x20_0000 % BLOCKS + n <= BLOCKS && phys / 4096 + 512 * n <= PAGES
    ensures var b := virt / 0x20_0000 % BLOCKS;
      LargeLeafAfter(q, virt, phys, low, n, before)
      == if b <= q / 512 < b + n then Leaf(1, (phys / 4096 + 512 * (q / 512 - b)) * 4096 + low) else before
    decreases n
  {
    if n > 0 {
      LargeLeafBlock(q, virt, phys, low, n - 1, before);
      BlockAtOffset(virt, n - 1);
    }
  }

  lemma BlockAtOffset(a: Word, i: nat)
    requires a / 0x20_0000 % BLOCKS + i < BLOCKS
    ensures BlockAt(a, i) == a / 0x20_0000 % BLOCKS + i
  {
    var u := a / 0x20_0000;
    QuotientRemainder(u + i, u / BLOCKS, BLOCKS, u % BLOCKS + i);
  }

  lemma LargeNothing(s: Space, virt: Word, phys: Word)
    requires s.Valid()
    ensures MapsLarge(s, s, virt, phys, 0)
  {
  }

  /** The next block lacks at most one table per region it opens. */
  lemma MissingBlock(s: Space, a: Word, n: nat, p: nat, q: nat)
    requires s.Valid() && p < PAGES && q < PAGES && Region(p, 1) == BlockAt(a, n)
    requires n > 0 ==> Region(q, 1) == BlockAt(a, n - 1) && s.Walked(q).level <= 1
    ensures s.Missing(p, 1) <= OpenedLarge(a, n)
  {
    if n > 0 {
      var u := a / 0x20_0000 + n;
      if u % 0x200 != 0 {
        SharedBlockRegion(a, n, p, q, 2);
        SharedTables(s, q, p, 1);
      } else if u % 0x4_0000 != 0 {
        SharedBlockRegion(a, n, p, q, 3);
        SharedTables(s, q, p, 2);
      }
    }
  }

  lemma RoomForBlock(s: Space, a: Space, virt: Word, phys: Word, n: nat, count: nat, p: nat)
    requires ReadyForLarge(s, virt, count) && n < count && MapsLarge(s, a, virt, phys, n)
    requires p == PageOf(Add64(virt, n * 0x20_0000))
    ensures Region(p, 1) == BlockAt(virt, n)
    ensures a.Room(a.Missing(p, 1)) && a.Smooth(p, 1)
    ensures a.Free() + a.Missing(p, 1) <= s.Free() + TouchedLarge(virt, n + 1)
    ensures forall q: nat | q < PAGES && Region(q, 1) == Region(p, 1) :: OutsideWindow(a.win, q)
  {
    BlockOfStep(virt, n);
    assert InBlocks(p, virt, count) && s.Smooth(p, 1);
    var q := if n > 0 then PageOf(Add64(virt, (n - 1) * 0x20_0000)) else 0;
    if n > 0 {
      BlockOfStep(virt, n - 1);
      assert a.Walked(q).level == 1;
    }
    MissingBlock(a, virt, n, p, q);
    TouchedLargeStep(virt, n);
    TouchedLargeGrows(virt, n + 1, count);
    BlockOutside(s, a, virt, count, p);
  }

  lemma BlockOutside(s: Space, a: Space, virt: Word, count: nat, p: nat)
    requires ReadyForLarge(s, virt, count) && a.win == s.win && InBlocks(p, virt, count)
    ensures forall q: nat | q < PAGES && Region(q, 1) == Region(p, 1) :: OutsideWindow(a.win, q)
  {
    forall q: nat | q < PAGES && Region(q, 1) == Region(p, 1)
      ensures OutsideWindow(a.win, q)
    {
      assert InBlocks(q, virt, count);
    }
  }

  lemma BlockTranslation(a: Space, b: Space, p: nat, w: Word, q: nat)
    requires BlockSet(a, b, p, w) && q < PAGES
    ensures b.Translated(q) == if Region(q, 1) == Region(p, 1) then LeafFrame(1, w, q) else a.Translated(q)
    ensures a.Smooth(q, 1) ==> b.Smooth(q, 1)
    ensures a.Smooth(q, 0) && Region(q, 1) != Region(p, 1) ==> b.Smooth(q, 0)
  {
    if Region(q, 1) != Region(p, 1) {
      assert SameLeaf(a.ram, b.ram, a.root, q);
    } else {
      assert b.Walked(q) == Leaf(1, w);
    }
  }

  lemma LargeOneMore(s: Space, a: Space, b: Space, virt: Word, phys: Word, n: nat, p: nat)
    requires MapsLarge(s, a, virt, phys, n) && BlockSet(a, b, p, LargeEntry(phys, n))
    requires p < PAGES && Region(p, 1) == BlockAt(virt, n)
    requires a.Free() <= b.Free() <= s.Free() + TouchedLarge(virt, n + 1)
    ensures MapsLarge(s, b, virt, phys, n + 1)
  {
    KeptTransitive(s, a, b);
    forall q: nat | q < PAGES
      ensures b.Translated(q) == RemappedLarge(q, virt, phys, n + 1, s.Translated(q))
      ensures s.Smooth(q, 1) ==> b.Smooth(q, 1)
      ensures s.Smooth(q, 0) && !InBlocks(q, virt, n + 1) ==> b.Smooth(q, 0)
    {
      BlockTranslation(a, b, p, LargeEntry(phys, n), q);
      assert a.Translated(q) == RemappedLarge(q, virt, phys, n, s.Translated(q));
      assert s.Smooth(q, 1) ==> a.Smooth(q, 1);
      assert InBlocks(q, virt, n) ==> InBlocks(q, virt, n + 1);
      assert s.Smooth(q, 0) && !InBlocks(q, virt, n) ==> a.Smooth(q, 0);
      assert Region(q, 1) == BlockAt(virt, n) ==> InBlocks(q, virt, n + 1);
    }
  }

  lemma {:induction false} RemappedLargeMiss(q: nat, virt: Word, phys: Word, n: nat, before: Option<nat>)
    requires !InBlocks(q, virt, n)
    ensures RemappedLarge(q, virt, phys, n, before) == before
  {
    if n > 0 {
      assert BlockAt(virt, n - 1) != Region(q, 1);
      assert InBlocks(q, virt, n - 1) ==> InBlocks(q, virt, n);
      RemappedLargeMiss(q, virt, phys, n - 1, before);
    }
  }

  /** So the branch taken for an aligned segment does not change the memory seen. */
  lemma LargeEqualsSmall(s: Space, a: Space, b: Space, virt: Word, phys: Word, n: nat, q: nat)
    requires MapsLarge(s, a, virt, phys, n) && MapsRun(s, b, virt, phys, 512 * n)
    requires virt % 0x20_0000 == 0 && phys % 0x20_0000 == 0 && q < PAGES
    ensures a.Translated(q) == b.Translated(q)
  {
    LargeIsSmall(q, virt, phys, n, s.Translated(q));
    assert a.Translated(q) == RemappedLarge(q, virt, phys, n, s.Translated(q));
    assert b.Translated(q) == Remapped(q, virt, phys, 512 * n, s.Translated(q));
  }
}
