/** What the processor may do with a loaded image. */
module ImageRights {
  import opened Bytes
  import opened Words
  import opened Spaces
  import opened Runs
  import opened Rights
  import opened ElfImages
  import opened Loading
  import opened LoadPlans

  /** Every page of the image can be written and executed. */
  ghost predicate ImageGranted(s: Space, segments: seq<Segment>) {
    forall i: nat, q: nat {:trigger InPages(segments[i], q)} |
      i < |segments| && Loads(segments[i]) && InPages(segments[i], q) && q < PAGES :: Granted(s, q)
  }

  lemma PageHasByte(g: Segment, q: nat, o: nat)
    requires CanonicalRange(g) && InPages(g, q) && o == (q - FirstPage(g)) * 4096
    ensures o < g.memsz && g.virt + o < TWO64 && PageOf(g.virt + o) == q
  {
    ByteAddress(g, o);
    QuotientRemainder(g.virt % 4096 + o, q - FirstPage(g), 4096, g.virt % 4096);
  }

  /** The entries that the mapper writes allow writing and execution. */
  lemma LeafGrants(g: Segment, data: Word, q: nat)
    requires InPages(g, q) && FirstFrame(g, data) + PageCount(g) <= PAGES
    ensures SegmentLeaf(g, data, q).Leaf? && Grants(SegmentLeaf(g, data, q).entry)
  {
    var t, k := Target(g, data), q - FirstPage(g);
    if UsesLarge(g, data) {
      EntryFits(t, 0x83, k / 512 * 512);
      LowGrants(t / 4096 + k / 512 * 512, 0x83);
    } else {
      EntryFits(t, SmallLow(t), k);
      QuotientRemainder(SmallLow(t), t % 4096 / 4, 4, 3);
      LowGrants(t / 4096 + k, SmallLow(t));
    }
  }

  lemma LowGrants(f: nat, low: nat)
    requires f < PAGES && low < 4096 && low % 4 == 3
    ensures f * 4096 + low < TWO64 && Grants(f * 4096 + low)
  {
    QuotientRemainder(f * 4096 + low, f * 1024 + low / 4, 4, 3);
  }

  lemma StillOpen(s: Space, s': Space, segments: seq<Segment>, data: Word, file: seq<Byte>, n: nat)
    requires n <= |segments| && TablesOpen(s) && Loaded(s, s', segments, data, file, n)
    ensures TablesOpen(s')
  {
    StaysOpen(s, s');
  }

  /** On tables whose entries allow it, every page of a loaded segment can be written and executed. */
  lemma SegmentGranted(s: Space, s': Space, segments: seq<Segment>, data: Word, file: seq<Byte>, i: nat, q: nat)
    requires TablesOpen(s) && Loadable(s, segments, data) && Loaded(s, s', segments, data, file, |segments|)
    requires i < |segments| && Loads(segments[i]) && InPages(segments[i], q) && q < PAGES
    ensures Granted(s', q)
  {
    PlacedOf(s, segments, data, i);
    SeenOf(s, s', segments, data, file, |segments|, i);
    StillOpen(s, s', segments, data, file, |segments|);
    LeafGrants(segments[i], data, q);
    LeafDecides(s', q);
  }
}
