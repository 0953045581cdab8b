/** Loops of the mapper as updates of a flat page map. */
module Runs {
  import opened Words
  import opened Memory
  import opened Paging
  import opened Updates
  import opened Windows
  import opened Heap
  import opened Ranges
  import opened Spaces

  /** The pages of the run lie outside the window and meet no large page. */
  ghost predicate PagesFree(s: Space, virt: Word, n: nat) {
    forall i: nat {:trigger PageAt(virt, i)} | i < n ::
      OutsideWindow(s.win, PageAt(virt, i)) && s.Smooth(PageAt(virt, i), 0)
  }

  /** In addition the heap has room for every table the run can need. */
  ghost predicate ReadyToMap(s: Space, virt: Word, n: nat) {
    s.Valid() && s.Room(Touched(virt, n)) && PagesFree(s, virt, n)
  }

  /** `n` rounds of `map_4k`: the translation is the flat map after `n` updates. */
  ghost predicate MapsRun(s: Space, s': Space, virt: Word, phys: Word, n: nat) {
    && Kept(s, s') && s.Free() <= s'.Free() <= s.Free() + Touched(virt, n)
    && (forall q: nat {:trigger s'.Translated(q)} | q < PAGES ::
          s'.Translated(q) == Remapped(q, virt, phys, n, s.Translated(q)))
    && (forall q: nat {:trigger s'.Smooth(q, 0)} | q < PAGES && s.Smooth(q, 0) :: s'.Smooth(q, 0))
    && (n > 0 ==> s'.Walked(PageAt(virt, n - 1)).level == 0)
  }

  /** The entry of round `i`: the page of the physical address, in 64 bits, with the given
      bits 0 to 11. */
  function RunEntry(phys: Word, low: nat, i: nat): Word
    requires low < 4096
  {
    (phys / 4096 + i) % 0x10_0000_0000_0000 * 4096 + low
  }

  /** Bits 0 to 11 of `pa | PAGE_PRESENT | PAGE_RW`. */
  function SmallLow(phys: Word): (low: nat)
    ensures low < 4096 && (phys % 4096 == 0 ==> low == 3)
  {
    phys % 4096 / 4 * 4 + 3
  }

  /** Where the walk of page `q` ends after `n` rounds. */
  function LeafAfter(q: nat, virt: Word, phys: Word, low: nat, n: nat, before: Outcome): Outcome
    requires low < 4096
  {
    if n == 0 then before
    else if PageAt(virt, n - 1) == q then Leaf(0, RunEntry(phys, low, n - 1))
    else LeafAfter(q, virt, phys, low, n - 1, before)
  }

  /** `n` rounds of `map_4k`, entry by entry: every page of the run has the entry of its last
      round, and every other page keeps its leaf or hole. */
  ghost predicate LeavesRun(s: Space, s': Space, virt: Word, phys: Word, low: nat, n: nat)
    requires low < 4096
  {
    forall q: nat {:trigger s'.Walked(q)} | q < PAGES ::
      Alike(s'.Walked(q), LeafAfter(q, virt, phys, low, n, s.Walked(q)))
  }

  lemma LeavesNothing(s: Space, virt: Word, phys: Word, low: nat)
    requires low < 4096
    ensures LeavesRun(s, s, virt, phys, low, 0)
  {
  }

  lemma LeavesOneMore(s: Space, a: Space, b: Space, virt: Word, phys: Word, low: nat, n: nat, w: Word)
    requires low < 4096 && LeavesRun(s, a, virt, phys, low, n) && PageSet(a, b, PageAt(virt, n), w)
    requires w == RunEntry(phys, low, n)
    ensures LeavesRun(s, b, virt, phys, low, n + 1)
  {
    forall q: nat | q < PAGES
      ensures Alike(b.Walked(q), LeafAfter(q, virt, phys, low, n + 1, s.Walked(q)))
    {
      assert Alike(a.Walked(q), LeafAfter(q, virt, phys, low, n, s.Walked(q)));
      if q != PageAt(virt, n) {
        assert SameLeaf(a.ram, b.ram, a.root, q);
      }
    }
  }

  /** What `pa | PAGE_PRESENT | PAGE_RW` is in round `i`. */
  lemma RoundEntry(phys: Word, i: nat)
    ensures OrPresentRw(Add64(phys, i * 4096)) == RunEntry(phys, SmallLow(phys), i)
    ensures OrPresentRw(Truncate(Add64(phys, i * 4096), 4096)) == RunEntry(phys, 3, i)
  {
    var page, r := phys / 4096 + i, phys % 4096;
    var top, rest := page / 0x10_0000_0000_0000, page % 0x10_0000_0000_0000;
    QuotientRemainder(phys + i * 4096, top, TWO64, rest * 4096 + r);
    QuotientRemainder(rest * 4096 + r, rest, 4096, r);
    QuotientRemainder(rest * 4096, rest, 4096, 0);
  }

  /** Without wrap-around the entries name consecutive frames. */
  lemma {:induction false} LeafBlock(q: nat, virt: Word, phys: Word, low: nat, n: nat, before: Outcome)
    requires low < 4096 && virt / 4096 % PAGES + n <= PAGES && phys / 4096 + n <= PAGES && q < PAGES
    ensures var v := virt / 4096 % PAGES;
      LeafAfter(q, virt, phys, low, n, before)
      == if v <= q < v + n then Leaf(0, (phys / 4096 + (q - v)) * 4096 + low) else before
    decreases n
  {
    if n > 0 {
      LeafBlock(q, virt, phys, low, n - 1, before);
      PageAtOffset(virt, n - 1);
    }
  }

  /** What a run says about one page. */
  lemma MappedAt(s: Space, s': Space, virt: Word, phys: Word, n: nat, q: nat)
    requires MapsRun(s, s', virt, phys, n) && q < PAGES
    ensures s'.Translated(q) == Remapped(q, virt, phys, n, s.Translated(q)) && s'.ram.Keys == s.ram.Keys
  {
  }

  /** `(a + i * PAGE_SIZE_4K) & ~0xFFF` is an address of page `i` of the run. */
  lemma RunAddress(a: Word, i: nat)
    ensures PageOf(Truncate(Add64(a, i * 4096), 4096)) == PageAt(a, i)
  {
    PageOfStep(a, i);
    PageOfTruncated(Add64(a, i * 4096));
  }

  lemma MapsNothing(s: Space, virt: Word, phys: Word)
    requires s.Valid()
    ensures MapsRun(s, s, virt, phys, 0)
  {
  }

  /** Room for the next page, whatever was created so far. */
  lemma RoomForNext(s: Space, a: Space, virt: Word, phys: Word, n: nat, count: nat)
    requires ReadyToMap(s, virt, count) && n < count && MapsRun(s, a, virt, phys, n)
    ensures a.Room(a.Missing(PageAt(virt, n), 0))
    ensures a.Smooth(PageAt(virt, n), 0) && OutsideWindow(a.win, PageAt(virt, n))
    ensures a.Free() + a.Missing(PageAt(virt, n), 0) <= s.Free() + Touched(virt, n + 1)
  {
    MissingNext(a, virt, n);
    TouchedStep(virt, n);
    TouchedGrows(virt, n + 1, count);
    assert s.Smooth(PageAt(virt, n), 0);
  }

  lemma SetTranslation(a: Space, b: Space, p: nat, w: Word, q: nat)
    requires PageSet(a, b, p, w) && q < PAGES
    ensures b.Translated(q) == if q == p then Some(FrameOf(w)) else a.Translated(q)
    ensures a.Smooth(q, 0) ==> b.Smooth(q, 0)
  {
    if q != p {
      assert SameLeaf(a.ram, b.ram, a.root, q);
    }
  }

  lemma MapsOneMore(s: Space, a: Space, b: Space, virt: Word, phys: Word, n: nat, w: Word)
    requires MapsRun(s, a, virt, phys, n) && PageSet(a, b, PageAt(virt, n), w)
    requires FrameOf(w) == PageAt(phys, n)
    requires a.Free() <= b.Free() <= s.Free() + Touched(virt, n + 1)
    ensures MapsRun(s, b, virt, phys, n + 1)
  {
    KeptTransitive(s, a, b);
    forall q: nat | q < PAGES
      ensures b.Translated(q) == Remapped(q, virt, phys, n + 1, s.Translated(q))
      ensures s.Smooth(q, 0) ==> b.Smooth(q, 0)
    {
      SetTranslation(a, b, PageAt(virt, n), w, q);
      assert a.Translated(q) == Remapped(q, virt, phys, n, s.Translated(q));
      assert s.Smooth(q, 0) ==> a.Smooth(q, 0);
    }
  }

  /** `n` rounds of `unmap_4k`. */
  ghost predicate UnmapsRun(s: Space, s': Space, virt: Word, n: nat) {
    && Kept(s, s') && s'.heap == s.heap
    && (forall q: nat {:trigger s'.Translated(q)} | q < PAGES ::
          s'.Translated(q) == Removed(q, virt, n, s.Translated(q)))
    && (forall q: nat {:trigger s'.Smooth(q, 0)} | q < PAGES && s.Smooth(q, 0) :: s'.Smooth(q, 0))
  }

  lemma UnmapsNothing(s: Space, virt: Word)
    requires s.Valid()
    ensures UnmapsRun(s, s, virt, 0)
  {
  }

  lemma ClearTranslation(a: Space, b: Space, p: nat, q: nat)
    requires PageCleared(a, b, p) && q < PAGES
    ensures b.Translated(q) == if q == p then None else a.Translated(q)
    ensures a.Smooth(q, 0) ==> b.Smooth(q, 0)
  {
    if q != p {
      assert SameLeaf(a.ram, b.ram, a.root, q);
    }
  }

  lemma UnmapsOneMore(s: Space, a: Space, b: Space, virt: Word, n: nat)
    requires UnmapsRun(s, a, virt, n) && PageCleared(a, b, PageAt(virt, n))
    ensures UnmapsRun(s, b, virt, n + 1)
  {
    KeptTransitive(s, a, b);
    forall q: nat | q < PAGES
      ensures b.Translated(q) == Removed(q, virt, n + 1, s.Translated(q))
      ensures s.Smooth(q, 0) ==> b.Smooth(q, 0)
    {
      ClearTranslation(a, b, PageAt(virt, n), q);
      assert a.Translated(q) == Removed(q, virt, n, s.Translated(q));
      assert s.Smooth(q, 0) ==> a.Smooth(q, 0);
    }
  }

  /** `n` rounds of `unmap_4k`, entry by entry. */
  ghost predicate LeavesGone(s: Space, s': Space, virt: Word, n: nat) {
    && (forall i: nat {:trigger PageAt(virt, i)} | i < n :: s'.Walked(PageAt(virt, i)).Hole?)
    && (forall q: nat {:trigger s'.Walked(q)} | q < PAGES && !InRun(q, virt, n) :: Alike(s'.Walked(q), s.Walked(q)))
  }

  predicate InRun(q: nat, virt: Word, n: nat) { exists i: nat :: i < n && PageAt(virt, i) == q }

  lemma GoneNothing(s: Space, virt: Word)
    ensures LeavesGone(s, s, virt, 0)
  {
  }

  lemma GoneOneMore(s: Space, a: Space, b: Space, virt: Word, n: nat)
    requires LeavesGone(s, a, virt, n) && PageCleared(a, b, PageAt(virt, n))
    ensures LeavesGone(s, b, virt, n + 1)
  {
    forall i: nat | i < n + 1
      ensures b.Walked(PageAt(virt, i)).Hole?
    {
      if i < n && PageAt(virt, i) != PageAt(virt, n) {
        assert SameLeaf(a.ram, b.ram, a.root, PageAt(virt, i));
        assert a.Walked(PageAt(virt, i)).Hole?;
      }
    }
    forall q: nat | q < PAGES && !InRun(q, virt, n + 1)
      ensures Alike(b.Walked(q), s.Walked(q))
    {
      assert PageAt(virt, n) != q && !InRun(q, virt, n);
      assert SameLeaf(a.ram, b.ram, a.root, q) && Alike(a.Walked(q), s.Walked(q));
    }
  }

  /** Pages of which none is mapped. */
  ghost predicate AllHoles(s: Space, virt: Word, n: nat) {
    forall i: nat {:trigger PageAt(virt, i)} | i < n :: s.Translated(PageAt(virt, i)) == None
  }

  lemma OneHole(s: Space, virt: Word)
    ensures AllHoles(s, virt, 1) <==> s.Translated(PageAt(virt, 0)) == None
  {
  }

  ghost predicate SameTranslation(s: Space, s': Space) {
    forall q: nat {:trigger s'.Translated(q)} | q < PAGES :: s'.Translated(q) == s.Translated(q)
  }

  /** Mapping a run of pages and unmapping it again restores the translation of every page,
      although the new tables stay, if and only if none of the pages was mapped before. */
  lemma MapThenUnmap(s: Space, a: Space, b: Space, virt: Word, phys: Word, n: nat)
    requires MapsRun(s, a, virt, phys, n) && UnmapsRun(a, b, virt, n)
    ensures SameTranslation(s, b) <==> AllHoles(s, virt, n)
  {
    if SameTranslation(s, b) {
      forall i: nat | i < n
        ensures s.Translated(PageAt(virt, i)) == None
      {
        UnmappedAt(a, b, virt, n, i);
        assert b.Translated(PageAt(virt, i)) == s.Translated(PageAt(virt, i));
      }
    }
    if AllHoles(s, virt, n) {
      forall q: nat | q < PAGES
        ensures b.Translated(q) == s.Translated(q)
      {
        PageRestored(s, a, b, virt, phys, n, q);
      }
    }
  }

  /** Every page has the same leaf, or none in both states. */
  ghost predicate SameLeaves(s: Space, s': Space) {
    forall q: nat {:trigger s'.Walked(q)} | q < PAGES :: Alike(s'.Walked(q), s.Walked(q))
  }

  ghost predicate NoLeaves(s: Space, virt: Word, n: nat) {
    forall i: nat {:trigger PageAt(virt, i)} | i < n :: s.Walked(PageAt(virt, i)).Hole?
  }

  lemma OneLeaf(s: Space, virt: Word)
    ensures NoLeaves(s, virt, 1) <==> s.Walked(PageAt(virt, 0)).Hole?
  {
  }

  /** The same for the leaves themselves, with all their bits. */
  lemma LeavesRestored(s: Space, a: Space, b: Space, virt: Word, phys: Word, low: nat, n: nat)
    requires low < 4096 && LeavesRun(s, a, virt, phys, low, n) && LeavesGone(a, b, virt, n)
    ensures SameLeaves(s, b) <==> NoLeaves(s, virt, n)
  {
    if SameLeaves(s, b) {
      forall i: nat | i < n
        ensures s.Walked(PageAt(virt, i)).Hole?
      {
        assert b.Walked(PageAt(virt, i)).Hole? && Alike(b.Walked(PageAt(virt, i)), s.Walked(PageAt(virt, i)));
      }
    }
    if NoLeaves(s, virt, n) {
      forall q: nat | q < PAGES
        ensures Alike(b.Walked(q), s.Walked(q))
      {
        if InRun(q, virt, n) {
          var i: nat :| i < n && PageAt(virt, i) == q;
        } else {
          LeafMiss(q, virt, phys, low, n, s.Walked(q));
          assert Alike(b.Walked(q), a.Walked(q)) && Alike(a.Walked(q), LeafAfter(q, virt, phys, low, n, s.Walked(q)));
        }
      }
    }
  }

  lemma {:induction false} LeafMiss(q: nat, virt: Word, phys: Word, low: nat, n: nat, before: Outcome)
    requires low < 4096 && !InRun(q, virt, n)
    ensures LeafAfter(q, virt, phys, low, n, before) == before
  {
    if n > 0 {
      assert PageAt(virt, n - 1) != q;
      assert InRun(q, virt, n - 1) ==> InRun(q, virt, n);
      LeafMiss(q, virt, phys, low, n - 1, before);
    }
  }

  lemma UnmappedAt(a: Space, b: Space, virt: Word, n: nat, i: nat)
    requires UnmapsRun(a, b, virt, n) && i < n
    ensures b.Translated(PageAt(virt, i)) == None
  {
    var q := PageAt(virt, i);
    RemovedHit(q, virt, n, i, a.Translated(q));
    assert b.Translated(q) == Removed(q, virt, n, a.Translated(q));
  }

  lemma PageRestored(s: Space, a: Space, b: Space, virt: Word, phys: Word, n: nat, q: nat)
    requires MapsRun(s, a, virt, phys, n) && UnmapsRun(a, b, virt, n) && AllHoles(s, virt, n) && q < PAGES
    ensures b.Translated(q) == s.Translated(q)
  {
    assert a.Translated(q) == Remapped(q, virt, phys, n, s.Translated(q));
    RemovedCovers(q, virt, phys, n, s.Translated(q));
    if i: nat :| i < n && PageAt(virt, i) == q {
      RemovedHole(q, virt, n);
    } else {
      RemovedMiss(q, virt, n, s.Translated(q));
    }
  }
}
