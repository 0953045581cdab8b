/** Loading all segments of an image: later segments never disturb earlier ones. */
module LoadPlans {
  import opened Bytes
  import opened Words
  import opened Memory
  import opened Paging
  import opened Windows
  import opened Heap
  import opened Spaces
  import opened ByteAccess
  import opened ElfImages
  import opened Loading

  /** The segment is mapped and its frames hold its bytes. */
  ghost predicate SegmentSeen(s: Space, g: Segment, data: Word, file: seq<Byte>) {
    && (forall q: nat {:trigger s.Walked(q)} | InPages(g, q) :: s.Walked(q) == SegmentLeaf(g, data, q))
    && (forall q: nat {:trigger s.Translated(q)} | InPages(g, q) ::
          s.Translated(q) == Some(FirstFrame(g, data) + (q - FirstPage(g))))
    && (forall o: nat {:trigger SegmentByte(file, g, o)} | o < g.memsz ::
          PhysicalByte(s.ram, Target(g, data) + o) == SegmentByte(file, g, o))
  }

  /** Invariant, place of window and heap, and set of frames are the same; new tables
      are frames taken from the free heap. */
  ghost predicate SamePlace(s: Space, s': Space) {
    && s'.Valid() && s'.win == s.win && s'.phys == s.phys && s'.root == s.root
    && s'.heap.base == s.heap.base && s'.heap.size == s.heap.size && s'.ram.Keys == s.ram.Keys
    && s.Free() <= s'.Free() && s.shape.Keys <= s'.shape.Keys && LinksKept(s, s')
    && (forall t {:trigger t in s'.shape} | t in s'.shape :: t in s.shape || s.Free() <= t < s'.Free())
    && (forall t {:trigger s'.shape[t]} | t in s.shape :: s'.shape[t] == s.shape[t])
  }

  /** Frame `f` is neither a table nor taken from the heap between the two states. */
  ghost predicate NoTable(s: Space, s': Space, f: nat) { f !in s.shape && !(s.Free() <= f < s'.Free()) }

  /** All tables lie in the window. */
  lemma OutsideNoTable(s: Space, s': Space, f: nat)
    requires s.Valid() && s'.Valid() && s'.win == s.win && s'.phys == s.phys && !(s.win.lo <= f < s.win.hi)
    ensures NoTable(s, s', f)
  {
    FreeInWindow(s.heap, s.win, s.phys, f);
    FreeInWindow(s'.heap, s'.win, s'.phys, f);
  }

  lemma FreeInWindow(h: Heap, win: Window, phys: nat, f: nat)
    requires HeapPlaced(h, win, phys)
    ensures f < win.lo ==> f < FreeFrame(h, phys)
    ensures win.hi <= f ==> FreeFrame(h, phys) <= f
  {
  }

  /** One round of the loader for one segment. */
  ghost predicate SegmentLoaded(s: Space, s': Space, g: Segment, data: Word, file: seq<Byte>) {
    && SamePlace(s, s') && s'.Free() <= s.Free() + Need(g, data)
    && SegmentSeen(s', g, data, file)
    && (forall q: nat {:trigger s'.Translated(q)} | q < PAGES && !InPages(g, q) :: s'.Translated(q) == s.Translated(q))
    && (forall q: nat {:trigger s'.Walked(q)} | q < PAGES && !InPages(g, q) :: Alike(s'.Walked(q), s.Walked(q)))
    && (forall q: nat {:trigger s'.Smooth(q, 0)} | q < PAGES && s.Smooth(q, 0) && !InLargePages(g, data, q) ::
          s'.Smooth(q, 0))
    && (forall f: nat {:trigger s'.ram[f]} | f in s.ram && NoTable(s, s', f) && !InFrames(g, data, f) ::
          s'.ram[f] == s.ram[f])
  }

  ghost predicate BytesOf(file: seq<Byte>, g: Segment, bytes: seq<Byte>) {
    && |bytes| == g.memsz
    && forall o: nat {:trigger SegmentByte(file, g, o)} | o < g.memsz :: bytes[o] == SegmentByte(file, g, o)
  }

  /** Mapping and then storing the bytes loads the segment. */
  lemma MappedThenStored(s: Space, m: Space, s': Space, g: Segment, data: Word, file: seq<Byte>, bytes: seq<Byte>)
    requires Placed(s, g, data) && SegmentMapped(s, m, g, data)
    requires Stored(m, s', Target(g, data), bytes) && BytesOf(file, g, bytes)
    ensures SegmentLoaded(s, s', g, data, file)
  {
    PagesFit(g);
    LinksStored(s, m, s', g, data, bytes);
    forall q: nat | q < PAGES
      ensures s'.Translated(q) == m.Translated(q) && s'.Smooth(q, 0) == m.Smooth(q, 0)
    {
      assert s'.Walked(q) == m.Walked(q);
    }
    forall f: nat | f in s.ram && NoTable(s, s', f) && !InFrames(g, data, f)
      ensures s'.ram[f] == s.ram[f]
    {
      assert f !in m.shape;
      assert m.ram[f] == s.ram[f];
      BehindSegment(g, data, f);
    }
    forall o: nat | o < g.memsz
      ensures PhysicalByte(s'.ram, Target(g, data) + o) == SegmentByte(file, g, o)
    {
    }
  }

  /** Storing bytes outside the window changes no table. */
  lemma LinksStored(s: Space, m: Space, s': Space, g: Segment, data: Word, bytes: seq<Byte>)
    requires Placed(s, g, data) && SegmentMapped(s, m, g, data)
    requires Stored(m, s', Target(g, data), bytes) && |bytes| == g.memsz
    ensures LinksKept(s, s')
  {
    PlacedSame(s, m, g, data);
    forall t: nat | t in m.shape
      ensures t in m.ram && t in s'.ram && s'.ram[t] == m.ram[t]
    {
      TableStays(m, s', g, data, bytes, t);
    }
    SameLinks(s, m, s');
  }

  lemma SameLinks(s: Space, m: Space, s': Space)
    requires LinksKept(s, m) && s'.shape == m.shape
    requires forall t: nat {:trigger t in m.shape} | t in m.shape :: t in m.ram && t in s'.ram && s'.ram[t] == m.ram[t]
    ensures LinksKept(s, s')
  {
    forall t: nat, i: nat | t in s'.shape && s'.shape[t].level > 0 && i < 512
      ensures LinkKept(s, s', t, i)
    {
      assert LinkKept(s, m, t, i);
    }
  }

  lemma TableStays(m: Space, s': Space, g: Segment, data: Word, bytes: seq<Byte>, t: nat)
    requires Placed(m, g, data) && t in m.shape && m.Valid()
    requires Stored(m, s', Target(g, data), bytes) && |bytes| == g.memsz
    ensures t in m.ram && t in s'.ram && s'.ram[t] == m.ram[t]
  {
    assert m.win.lo <= t < m.win.hi;
    BehindSegment(g, data, t);
  }

  lemma BehindSegment(g: Segment, data: Word, f: nat)
    requires FitsPages(g, data) && !InFrames(g, data, f)
    ensures !(Target(g, data) / 4096 <= f && f * 4096 < Target(g, data) + g.memsz)
  {
  }

  /** Two segments share no page and no frame. */
  predicate Apart(g: Segment, g': Segment, data: Word) {
    && (FirstPage(g) + PageCount(g) <= FirstPage(g') || FirstPage(g') + PageCount(g') <= FirstPage(g))
    && (FirstFrame(g, data) + PageCount(g) <= FirstFrame(g', data)
      || FirstFrame(g', data) + PageCount(g') <= FirstFrame(g, data))
  }

  lemma ByteStays(s: Space, s': Space, g: Segment, g': Segment, data: Word, file: seq<Byte>, o: nat)
    requires s.Valid() && Placed(s, g, data) && o < g.memsz
    requires SegmentLoaded(s, s', g', data, file) && Apart(g, g', data)
    ensures PhysicalByte(s'.ram, Target(g, data) + o) == PhysicalByte(s.ram, Target(g, data) + o)
  {
    BytePlace(g, data, o);
    var f := (Target(g, data) + o) / 4096;
    assert InFrames(g, data, f) && f in s.ram;
    OutsideNoTable(s, s', f);
    assert s'.ram[f] == s.ram[f];
  }

  /** A segment stays as it is while another one is loaded. */
  lemma SeenStays(s: Space, s': Space, g: Segment, g': Segment, data: Word, file: seq<Byte>)
    requires s.Valid() && Placed(s, g, data) && SegmentSeen(s, g, data, file)
    requires SegmentLoaded(s, s', g', data, file) && Apart(g, g', data)
    ensures SegmentSeen(s', g, data, file)
  {
    PagesFit(g);
    forall o: nat | o < g.memsz
      ensures PhysicalByte(s'.ram, Target(g, data) + o) == SegmentByte(file, g, o)
    {
      ByteStays(s, s', g, g', data, file, o);
    }
  }

  /** No large page on the way to the pages of the segment. */
  ghost predicate Clear(s: Space, g: Segment) {
    forall q: nat {:trigger s.Smooth(q, 0)} | InPages(g, q) :: s.Smooth(q, 0)
  }

  /** A bound on the tables for the first `n` segments. */
  function Needs(segments: seq<Segment>, data: Word, n: nat): nat
    requires n <= |segments|
  {
    if n == 0 then 0
    else Needs(segments, data, n - 1) + if Loads(segments[n - 1]) then Need(segments[n - 1], data) else 0
  }

  lemma {:induction false} NeedsGrow(segments: seq<Segment>, data: Word, n: nat, m: nat)
    requires n <= m <= |segments|
    ensures Needs(segments, data, n) <= Needs(segments, data, m)
    decreases m
  {
    if n < m {
      NeedsGrow(segments, data, n, m - 1);
    }
  }

  /** What an image must meet to be loaded: its segments have places, disjoint in
      virtual and in physical memory, and the heap has room for the tables. */
  ghost predicate Loadable(s: Space, segments: seq<Segment>, data: Word) {
    && s.Valid() && s.Room(Needs(segments, data, |segments|))
    && (forall i: nat {:trigger segments[i]} | i < |segments| && Loads(segments[i]) ::
          Placed(s, segments[i], data) && Clear(s, segments[i]))
    && (forall i: nat, j: nat {:trigger segments[i], segments[j]} |
          i < j < |segments| && Loads(segments[i]) && Loads(segments[j]) ::
          Apart(segments[i], segments[j], data))
  }

  predicate InSomePages(segments: seq<Segment>, n: nat, q: nat)
    requires n <= |segments|
  {
    exists i: nat {:trigger segments[i]} :: i < n && Loads(segments[i]) && InPages(segments[i], q)
  }

  predicate InSomeFrames(segments: seq<Segment>, data: Word, n: nat, f: nat)
    requires n <= |segments|
  {
    exists i: nat {:trigger segments[i]} :: i < n && Loads(segments[i]) && InFrames(segments[i], data, f)
  }

  /** The first `n` segments are mapped and hold their bytes. */
  ghost predicate AllSeen(s: Space, segments: seq<Segment>, data: Word, file: seq<Byte>, n: nat)
    requires n <= |segments|
  {
    forall i: nat {:trigger segments[i]} | i < n && Loads(segments[i]) :: SegmentSeen(s, segments[i], data, file)
  }

  /** After `n` program headers: the segments so far are in place, with large pages only
      where they call for them, the others can still be mapped, and nothing else has
      changed. */
  ghost predicate Loaded(s: Space, s': Space, segments: seq<Segment>, data: Word, file: seq<Byte>, n: nat)
    requires n <= |segments|
  {
    && SamePlace(s, s') && s'.Free() <= s.Free() + Needs(segments, data, n)
    && AllSeen(s', segments, data, file, n)
    && (forall i: nat {:trigger segments[i]} |
          i < |segments| && Loads(segments[i]) && (n <= i || !UsesLarge(segments[i], data)) ::
          Clear(s', segments[i]))
    && (forall q: nat {:trigger s'.Translated(q)} | q < PAGES && !InSomePages(segments, n, q) ::
          s'.Translated(q) == s.Translated(q))
    && (forall q: nat {:trigger s'.Walked(q)} | q < PAGES && !InSomePages(segments, n, q) ::
          Alike(s'.Walked(q), s.Walked(q)))
    && (forall f: nat {:trigger s'.ram[f]} | f in s.ram && NoTable(s, s', f) && !InSomeFrames(segments, data, n, f) ::
          s'.ram[f] == s.ram[f])
  }

  lemma LoadedNothing(s: Space, segments: seq<Segment>, data: Word, file: seq<Byte>)
    requires Loadable(s, segments, data)
    ensures Loaded(s, s, segments, data, file, 0)
  {
  }

  /** A header of another kind changes nothing. */
  lemma LoadedSkip(s: Space, a: Space, segments: seq<Segment>, data: Word, file: seq<Byte>, n: nat)
    requires n < |segments| && !Loads(segments[n]) && Loaded(s, a, segments, data, file, n)
    ensures Loaded(s, a, segments, data, file, n + 1)
  {
    forall q: nat | q < PAGES && !InSomePages(segments, n + 1, q)
      ensures !InSomePages(segments, n, q)
    {
      FewerPages(segments, n, q);
    }
    forall f: nat | f in s.ram && !InSomeFrames(segments, data, n + 1, f)
      ensures !InSomeFrames(segments, data, n, f)
    {
      FewerFrames(segments, data, n, f);
    }
  }

  lemma FewerPages(segments: seq<Segment>, n: nat, q: nat)
    requires n < |segments| && !InSomePages(segments, n + 1, q)
    ensures !InSomePages(segments, n, q)
  {
  }

  lemma FewerFrames(segments: seq<Segment>, data: Word, n: nat, f: nat)
    requires n < |segments| && !InSomeFrames(segments, data, n + 1, f)
    ensures !InSomeFrames(segments, data, n, f)
  {
  }

  /** The next segment can be loaded. */
  lemma NextIsReady(s: Space, a: Space, segments: seq<Segment>, data: Word, file: seq<Byte>, n: nat)
    requires Loadable(s, segments, data) && n < |segments| && Loads(segments[n])
             && Loaded(s, a, segments, data, file, n)
    ensures Placed(a, segments[n], data) && Clear(a, segments[n]) && a.Room(Need(segments[n], data))
  {
    PlacedSame(s, a, segments[n], data);
    NeedsGrow(segments, data, n + 1, |segments|);
  }

  lemma LoadedOneMore(s: Space, a: Space, b: Space, segments: seq<Segment>, data: Word, file: seq<Byte>, n: nat)
    requires Loadable(s, segments, data) && n < |segments| && Loads(segments[n])
    requires Loaded(s, a, segments, data, file, n) && SegmentLoaded(a, b, segments[n], data, file)
    ensures Loaded(s, b, segments, data, file, n + 1)
  {
    EarlierStay(s, a, b, segments, data, file, n);
    OneMoreSeen(a, b, segments, data, file, n);
    LaterStay(s, a, b, segments, data, file, n);
    SamePlaceTransitive(s, a, b);
    PagesElsewhere(s, a, b, segments, data, file, n);
    FramesElsewhere(s, a, b, segments, data, file, n);
  }

  lemma SamePlaceTransitive(s: Space, a: Space, b: Space)
    requires SamePlace(s, a) && SamePlace(a, b)
    ensures SamePlace(s, b)
  {
    forall t | t in s.shape
      ensures b.shape[t] == s.shape[t]
    {
      assert a.shape[t] == s.shape[t];
    }
    LinksTransitive(s, a, b);
  }

  lemma PagesElsewhere(s: Space, a: Space, b: Space, segments: seq<Segment>, data: Word, file: seq<Byte>, n: nat)
    requires n < |segments| && Loads(segments[n])
    requires Loaded(s, a, segments, data, file, n) && SegmentLoaded(a, b, segments[n], data, file)
    ensures forall q: nat {:trigger b.Translated(q)} | q < PAGES && !InSomePages(segments, n + 1, q) ::
      b.Translated(q) == s.Translated(q)
  {
    forall q: nat | q < PAGES && !InSomePages(segments, n + 1, q)
      ensures b.Translated(q) == s.Translated(q)
    {
      assert !InPages(segments[n], q) && !InSomePages(segments, n, q);
      assert a.Translated(q) == s.Translated(q);
    }
  }

  lemma FramesElsewhere(s: Space, a: Space, b: Space, segments: seq<Segment>, data: Word, file: seq<Byte>, n: nat)
    requires n < |segments| && Loads(segments[n])
    requires Loaded(s, a, segments, data, file, n) && SegmentLoaded(a, b, segments[n], data, file)
    ensures forall f: nat {:trigger b.ram[f]} |
      f in s.ram && NoTable(s, b, f) && !InSomeFrames(segments, data, n + 1, f) ::
      b.ram[f] == s.ram[f]
  {
    forall f: nat | f in s.ram && NoTable(s, b, f) && !InSomeFrames(segments, data, n + 1, f)
      ensures b.ram[f] == s.ram[f]
    {
      assert NoTable(s, a, f) && NoTable(a, b, f);
      assert !InFrames(segments[n], data, f) && !InSomeFrames(segments, data, n, f);
      assert a.ram[f] == s.ram[f];
    }
  }

  lemma EarlierStay(s: Space, a: Space, b: Space, segments: seq<Segment>, data: Word, file: seq<Byte>, n: nat)
    requires Loadable(s, segments, data) && n < |segments| && Loads(segments[n])
    requires Loaded(s, a, segments, data, file, n) && SegmentLoaded(a, b, segments[n], data, file)
    ensures AllSeen(b, segments, data, file, n)
  {
    forall i: nat | i < n && Loads(segments[i])
      ensures SegmentSeen(b, segments[i], data, file)
    {
      PlacedSame(s, a, segments[i], data);
      ApartEither(s, segments, data, i, n);
      SeenStays(a, b, segments[i], segments[n], data, file);
    }
  }

  lemma OneMoreSeen(a: Space, b: Space, segments: seq<Segment>, data: Word, file: seq<Byte>, n: nat)
    requires n < |segments| && AllSeen(b, segments, data, file, n) && SegmentLoaded(a, b, segments[n], data, file)
    ensures AllSeen(b, segments, data, file, n + 1)
  {
    assert SegmentSeen(b, segments[n], data, file);
  }

  lemma LaterStay(s: Space, a: Space, b: Space, segments: seq<Segment>, data: Word, file: seq<Byte>, n: nat)
    requires Loadable(s, segments, data) && n < |segments| && Loads(segments[n])
    requires Loaded(s, a, segments, data, file, n) && SegmentLoaded(a, b, segments[n], data, file)
    ensures forall i: nat {:trigger segments[i]} |
      i < |segments| && Loads(segments[i]) && (n + 1 <= i || !UsesLarge(segments[i], data)) :: Clear(b, segments[i])
  {
    forall i: nat | i < |segments| && Loads(segments[i]) && (n + 1 <= i || !UsesLarge(segments[i], data))
      ensures Clear(b, segments[i])
    {
      PlacedSame(s, a, segments[i], data);
      if i != n {
        ApartEither(s, segments, data, i, n);
      }
      ClearStays(a, b, segments[i], segments[n], data, file);
    }
  }

  lemma ApartEither(s: Space, segments: seq<Segment>, data: Word, i: nat, n: nat)
    requires Loadable(s, segments, data) && i < |segments| && n < |segments| && i != n && Loads(segments[i])
             && Loads(segments[n])
    ensures Apart(segments[i], segments[n], data)
  {
    assert i < n ==> Apart(segments[i], segments[n], data);
    assert n < i ==> Apart(segments[n], segments[i], data);
  }

  lemma ClearStays(a: Space, b: Space, g: Segment, g': Segment, data: Word, file: seq<Byte>)
    requires Placed(a, g, data) && Clear(a, g) && SegmentLoaded(a, b, g', data, file)
    requires Apart(g, g', data) || !UsesLarge(g', data)
    ensures Clear(b, g)
  {
    PagesFit(g);
    forall q: nat | InPages(g, q)
      ensures b.Smooth(q, 0)
    {
      assert a.Smooth(q, 0);
    }
  }

  // ----- the memory image

  /** What the processor reads at a virtual address. */
  ghost function VirtualByte(s: Space, va: Word): Option<Byte> {
    if !Canonical(va) then None
    else match s.Translated(PageOf(va))
      case None => None
      case Some(f) => if f in s.ram then Some(PhysicalByte(s.ram, f * 4096 + va % 4096)) else None
  }

  lemma ByteShown(s: Space, va: Word, f: nat, at: nat)
    requires Canonical(va) && s.Translated(PageOf(va)) == Some(f) && f in s.ram && f * 4096 + va % 4096 == at
    ensures VirtualByte(s, va) == Some(PhysicalByte(s.ram, at))
  {
  }

  /** Byte `o` of a segment is seen at its virtual address and lies at its load address, and
      its page has the entry that the mapper writes. */
  ghost predicate ReadsBack(s: Space, g: Segment, data: Word, file: seq<Byte>, o: nat) {
    && g.virt + o < TWO64
    && VirtualByte(s, g.virt + o) == Some(SegmentByte(file, g, o))
    && s.Translated(PageOf(g.virt + o)) == Some((Target(g, data) + o) / 4096)
    && InPages(g, PageOf(g.virt + o)) && s.Walked(PageOf(g.virt + o)) == SegmentLeaf(g, data, PageOf(g.virt + o))
  }

  /** Where byte `o` of a placed segment lies. */
  ghost predicate Spot(s: Space, g: Segment, data: Word, o: nat) {
    var va, f := g.virt + o, (Target(g, data) + o) / 4096;
    && va < TWO64 && Canonical(va) && InPages(g, PageOf(va)) && f in s.ram
    && f == FirstFrame(g, data) + (PageOf(va) - FirstPage(g)) && f * 4096 + va % 4096 == Target(g, data) + o
  }

  lemma SpotOf(s: Space, g: Segment, data: Word, o: nat)
    requires Placed(s, g, data) && o < g.memsz
    ensures Spot(s, g, data, o)
  {
    BytePlace(g, data, o);
    var f := (Target(g, data) + o) / 4096;
    assert InFrames(g, data, f) && f in s.ram;
  }

  lemma SpotReads(s: Space, g: Segment, data: Word, file: seq<Byte>, o: nat)
    requires Spot(s, g, data, o) && SegmentSeen(s, g, data, file) && o < g.memsz
    ensures ReadsBack(s, g, data, file, o)
  {
    ByteShown(s, g.virt + o, (Target(g, data) + o) / 4096, Target(g, data) + o);
  }

  /** The memory image: every byte of every segment reads back through the final page
      tables as the byte of the file or as zero. */
  lemma ImageReadsBack(s: Space, s': Space, segments: seq<Segment>, data: Word, file: seq<Byte>, i: nat, o: nat)
    requires Loadable(s, segments, data) && Loaded(s, s', segments, data, file, |segments|)
    requires i < |segments| && Loads(segments[i]) && o < segments[i].memsz
    ensures ReadsBack(s', segments[i], data, file, o)
  {
    PlacedOf(s, segments, data, i);
    SeenOf(s, s', segments, data, file, |segments|, i);
    PlacedSame(s, s', segments[i], data);
    SpotOf(s', segments[i], data, o);
    SpotReads(s', segments[i], data, file, o);
  }

  lemma PlacedOf(s: Space, segments: seq<Segment>, data: Word, i: nat)
    requires Loadable(s, segments, data) && i < |segments| && Loads(segments[i])
    ensures Placed(s, segments[i], data)
  {
  }

  lemma SeenOf(s: Space, s': Space, segments: seq<Segment>, data: Word, file: seq<Byte>, n: nat, i: nat)
    requires i < n <= |segments| && Loads(segments[i]) && Loaded(s, s', segments, data, file, n)
    ensures SegmentSeen(s', segments[i], data, file) && SamePlace(s, s')
  {
  }
}
