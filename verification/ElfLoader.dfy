/** The bootloader's ELF loader: it reads the file through the FAT driver and fills
    memory that its own mapper has mapped. */
module ElfLoader {
  import opened Bytes
  import opened Words
  import opened Memory
  import opened Windows
  import opened Spaces
  import opened Machines
  import opened BootMemory
  import opened FatLayout
  import opened FatSpec
  import opened FatFiles
  import opened FatCursors
  import opened FatDriver
  import opened FatRuns
  import opened ElfImages
  import opened Loading
  import opened LoadPlans
  import opened ElfFormat

  // ----- the file

  /** Handle `h` is an open regular file: the cursor `f`, at any position. */
  ghost predicate FileIs(driver: Driver, h: nat, f: Cursor)
    reads driver
  {
    && driver.Valid() && h < HANDLES && Regular(driver.files[h])
    && CursorOf(driver.vol, driver.chains, driver.files[h]) == Some(f.(position := driver.files[h].position))
  }

  /** 32-bit file positions suffice. */
  lemma FileBounded(driver: Driver, h: nat, f: Cursor)
    requires FileIs(driver, h, f)
    ensures |f.content| < TWO32
  {
    var fd := driver.files[h];
    assert HandleOk(driver.vol, driver.chains, fd);
    ChainBounded(driver.vol, driver.chains[fd.firstCluster]);
  }

  /** The clusters looked up to seek to a position and read `n` bytes. */
  function AccessLookups(f: Cursor, position: nat, n: nat): seq<nat> {
    Boundaries(f, 0, position) + Boundaries(f, position, Min(position + n, |f.content|))
  }

  /** First come the lookups of the seek. */
  lemma AccessSplit(f: Cursor, position: nat, n: nat, ahead: seq<nat>, cache: nat, final: nat)
    requires Heading(cache, AccessLookups(f, position, n) + ahead, final)
    ensures Untroubled(cache, Boundaries(f, 0, position))
    ensures Heading(PositionAfter(cache, Boundaries(f, 0, position)),
                    Boundaries(f, position, Min(position + n, |f.content|)) + ahead, final)
  {
    var there, back := Boundaries(f, 0, position), Boundaries(f, position, Min(position + n, |f.content|));
    assert there + back + ahead == there + (back + ahead);
    HeadingSplit(cache, there, back + ahead, final);
  }

  /** `seek` and `read`, both with their results ignored and their arguments cut to 32
      bits: up to `n` bytes from a position in the file on. `ahead` are the lookups to
      come, which leave the cache at `final`. */
  method ReadAt(driver: Driver, h: nat, position: nat, n: nat, ghost f: Cursor, ghost ahead: seq<nat>, ghost final: nat)
    returns (bytes: seq<Byte>)
    requires FileIs(driver, h, f) && position <= |f.content| && n < TWO32
    requires Heading(driver.fatCachePosition, AccessLookups(f, position, n) + ahead, final)
    modifies driver`files, driver`fatCache, driver`fatCachePosition
    ensures FileIs(driver, h, f) && bytes == Part(f.content, position, n)
    ensures Heading(driver.fatCachePosition, ahead, final)
  {
    FileBounded(driver, h, f);
    QuotientRemainder(position, 0, TWO32, position);
    QuotientRemainder(n, 0, TWO32, n);
    ghost var back := Boundaries(f, position, Min(position + n, |f.content|));
    AccessSplit(f, position, n, ahead, driver.fatCachePosition, final);
    var sought := Perform(driver, SeekTo(h, position % TWO32));
    HeadingSplit(driver.fatCachePosition, back, ahead, final);
    var answer := Perform(driver, ReadNext(h, n % TWO32));
    bytes := answer.bytes;
  }

  /** Right after `setup_paging` every segment behind the first MiB can be mapped. */
  lemma ClearAfterSetup(s: Space, g: Segment, q: nat)
    requires IsIdentity(s) && s.win == LOW && CanonicalRange(g) && FirstPage(g) >= 256
    ensures Clear(s, g) && (InPages(g, q) ==> OutsideWindow(s.win, q))
  {
    PagesFit(g);
    forall p: nat | InPages(g, p)
      ensures s.Smooth(p, 0)
    {
      assert s.Translated(p) == None;
    }
    forall f: nat | LOW.lo <= f < LOW.hi
      ensures PageFor(LOW, f) < 256
    {
      LowPointer(f);
    }
  }

  // ----- one segment

  /** The mapping step of `readElf`. */
  method MapSegment(b: Machine, g: Segment, data: Word)
    requires b.Valid() && Placed(b.View(), g, data) && Clear(b.View(), g) && b.View().Room(Need(g, data))
    modifies b`ram, b`heap, b`shape
    ensures b.Valid() && SegmentMapped(old(b.View()), b.View(), g, data)
  {
    ghost var s := b.View();
    if UsesLarge(g, data) {
      LargeReady(s, g, data);
      Map2M(b, g.virt, Target(g, data), g.memsz / 0x20_0000);
      LargeMapped(s, b.View(), g, data);
    } else {
      SmallReady(s, g, data);
      PagesFit(g);
      Map4K(b, g.virt, Target(g, data), PageCount(g));
      SmallMapped(s, b.View(), g, data);
    }
  }

  /** The segment is mapped and its bytes can be stored. */
  ghost predicate Storable(s: Space, g: Segment, data: Word) {
    && s.Valid() && Placed(s, g, data)
    && forall q: nat {:trigger s.Translated(q)} | InPages(g, q) ::
         s.Translated(q) == Some(FirstFrame(g, data) + (q - FirstPage(g)))
  }

  lemma MappedStorable(s: Space, m: Space, g: Segment, data: Word)
    requires Placed(s, g, data) && SegmentMapped(s, m, g, data)
    ensures Storable(m, g, data)
  {
    PagesFit(g);
    PlacedSame(s, m, g, data);
    forall q: nat | InPages(g, q)
      ensures m.Translated(q) == Some(FirstFrame(g, data) + (q - FirstPage(g)))
    {
      assert q < PAGES;
    }
  }

  lemma StoredStorable(m: Space, c: Space, g: Segment, data: Word, base: nat, bytes: seq<Byte>)
    requires Storable(m, g, data) && Stored(m, c, base, bytes)
    ensures Storable(c, g, data)
  {
    PagesFit(g);
    PlacedSame(m, c, g, data);
    forall q: nat | InPages(g, q)
      ensures c.Translated(q) == Some(FirstFrame(g, data) + (q - FirstPage(g)))
    {
      assert c.Walked(q) == m.Walked(q);
      assert m.Translated(q) == Some(FirstFrame(g, data) + (q - FirstPage(g)));
    }
  }

  /** The processor reaches physical address `at` through `va`, and that is no table byte. */
  ghost predicate Reached(s: Space, va: nat, at: nat) {
    && va < TWO64 && Canonical(va) && s.Translated(PageOf(va)) == Some(at / 4096)
    && at / 4096 in s.ram && at / 4096 !in s.shape && at / 4096 * 4096 + va % 4096 == at
  }

  lemma FrameReached(s: Space, g: Segment, data: Word, q: nat, f: nat)
    requires Storable(s, g, data) && InPages(g, q) && f == FirstFrame(g, data) + (q - FirstPage(g))
    ensures s.Translated(q) == Some(f) && f in s.ram && f !in s.shape
  {
    assert InFrames(g, data, f) && f in s.ram;
  }

  lemma Rejoined(at: nat, va: nat)
    requires va % 4096 == at % 4096
    ensures at / 4096 * 4096 + va % 4096 == at
  {
  }

  /** Byte `k` of a range of physical memory from `base` on can be stored through `va + k`. */
  ghost predicate Within(s: Space, va: nat, base: nat, k: nat) { Reached(s, va + k, base + k) }

  ghost predicate Writable(s: Space, va: nat, base: nat, n: nat) {
    s.Valid() && forall k: nat {:trigger Within(s, va, base, k)} | k < n :: Within(s, va, base, k)
  }

  lemma ByteReached(s: Space, g: Segment, data: Word, o: nat, va: nat, base: nat, k: nat)
    requires Storable(s, g, data) && o + k < g.memsz && va == g.virt + o && base == Target(g, data) + o
    ensures Within(s, va, base, k)
  {
    BytePlace(g, data, o + k);
    FrameReached(s, g, data, PageOf(va + k), (base + k) / 4096);
    Rejoined(base + k, va + k);
  }

  lemma PartWritable(s: Space, g: Segment, data: Word, o: nat, n: nat)
    requires Storable(s, g, data) && o + n <= g.memsz
    ensures Writable(s, g.virt + o, Target(g, data) + o, n)
  {
    var va, base := g.virt + o, Target(g, data) + o;
    forall k: nat | k < n
      ensures Within(s, va, base, k)
    {
      ByteReached(s, g, data, o, va, base, k);
    }
  }

  /** Storing bytes elsewhere does not get in the way. */
  lemma StillWithin(s: Space, a: Space, va: nat, base: nat, k: nat, at: nat, bytes: seq<Byte>)
    requires Within(s, va, base, k) && Stored(s, a, at, bytes)
    ensures Within(a, va, base, k)
  {
    assert a.Walked(PageOf(va + k)) == s.Walked(PageOf(va + k));
  }

  /** Stores one byte. */
  method StoreOne(b: Machine, va: nat, x: Byte, ghost at: nat)
    requires b.Valid() && Reached(b.View(), va, at)
    modifies b`ram
    ensures b.Valid() && Stored(old(b.View()), b.View(), at, [x])
  {
    ghost var s := b.View();
    b.StoreByte(va, x, at / 4096);
    ByteStored(s, b.View(), at, x);
  }

  /** Stores the byte behind the bytes `done`. */
  method StoreAfter(b: Machine, va: nat, i: nat, x: Byte, ghost s: Space, ghost base: nat, ghost done: seq<Byte>)
    requires b.Valid() && Within(s, va, base, i) && i == |done| && Stored(s, b.View(), base, done)
    modifies b`ram
    ensures b.Valid() && Stored(s, b.View(), base, done + [x])
  {
    ghost var a := b.View();
    StillWithin(s, a, va, base, i, base, done);
    StoreOne(b, va + i, x, base + i);
    StoredTwice(s, a, b.View(), base, done, [x]);
  }

  /** Stores bytes from physical address `base` on. */
  method StoreBytes(b: Machine, va: nat, bytes: seq<Byte>, ghost base: nat)
    requires b.Valid() && Writable(b.View(), va, base, |bytes|)
    modifies b`ram
    ensures b.Valid() && Stored(old(b.View()), b.View(), base, bytes)
  {
    ghost var s := b.View();
    StoredNothing(s, base);
    for i := 0 to |bytes|
      invariant b.Valid() && Stored(s, b.View(), base, bytes[..i])
    {
      assert Within(s, va, base, i);
      StoreAfter(b, va, i, bytes[i], s, base, bytes[..i]);
      Prefix(bytes, i);
    }
    Whole(bytes);
  }

  lemma Prefix(bytes: seq<Byte>, i: nat)
    requires i < |bytes|
    ensures bytes[..i + 1] == bytes[..i] + [bytes[i]]
  {
  }

  lemma Whole(bytes: seq<Byte>)
    ensures bytes[..|bytes|] == bytes
  {
  }

  /** The lookups of the round for a segment, behind its header. */
  function SegmentLookups(f: Cursor, g: Segment): seq<nat> {
    if Loads(g) then AccessLookups(f, g.offset, g.filesz) else []
  }

  /** Copies a mapped segment from the file and clears the rest. */
  method FillSegment(b: Machine, driver: Driver, h: nat, g: Segment,
                     ghost data: Word, ghost f: Cursor, ghost ahead: seq<nat>, ghost final: nat)
    returns (ghost content: seq<Byte>)
    requires b.Valid() && Storable(b.View(), g, data)
    requires FileIs(driver, h, f) && g.offset + g.filesz <= |f.content|
    requires Heading(driver.fatCachePosition, AccessLookups(f, g.offset, g.filesz) + ahead, final)
    modifies b`ram, driver`files, driver`fatCache, driver`fatCachePosition
    ensures b.Valid() && Stored(old(b.View()), b.View(), Target(g, data), content) && BytesOf(f.content, g, content)
    ensures FileIs(driver, h, f) && Heading(driver.fatCachePosition, ahead, final)
  {
    FileBounded(driver, h, f);
    FilePart(b.View(), g, data);
    var bytes := ReadAt(driver, h, g.offset, g.filesz, f, ahead, final);
    FillMemory(b, g, bytes, data);
    content := WithZeros(g, bytes);
    WholeContent(f.content, g, bytes);
  }

  /** Bytes set by `memset`. */
  function Zeros(n: nat): seq<Byte> { seq(n, _ => 0) }

  /** All bytes of a segment: those from the file and zeros behind them. */
  function WithZeros(g: Segment, bytes: seq<Byte>): seq<Byte> {
    if g.memsz > g.filesz then bytes + Zeros(g.memsz - g.filesz) else bytes
  }

  method FillMemory(b: Machine, g: Segment, bytes: seq<Byte>, ghost data: Word)
    requires b.Valid() && Storable(b.View(), g, data) && |bytes| == g.filesz
    modifies b`ram
    ensures b.Valid() && Stored(old(b.View()), b.View(), Target(g, data), WithZeros(g, bytes))
  {
    ghost var m := b.View();
    FilePart(m, g, data);
    StorePart(b, g, 0, bytes, data, Target(g, data));
    ClearRest(b, g, data, m, bytes);
  }

  /** Clears the memory behind the bytes from the file, which were stored since state `m`. */
  method ClearRest(b: Machine, g: Segment, ghost data: Word, ghost m: Space, ghost bytes: seq<Byte>)
    requires b.Valid() && Storable(b.View(), g, data) && Stored(m, b.View(), Target(g, data), bytes)
    requires |bytes| == g.filesz <= g.memsz
    modifies b`ram
    ensures b.Valid() && Stored(m, b.View(), Target(g, data), WithZeros(g, bytes))
  {
    if g.memsz > g.filesz {
      ghost var c := b.View();
      var zeros := Zeros(g.memsz - g.filesz);
      StorePart(b, g, g.filesz, zeros, data, Target(g, data) + |bytes|);
      StoredTwice(m, c, b.View(), Target(g, data), bytes, zeros);
    }
  }

  /** Stores bytes of a mapped segment, starting at byte `o`. */
  method StorePart(b: Machine, g: Segment, o: nat, bytes: seq<Byte>, ghost data: Word, ghost base: nat)
    requires b.Valid() && Storable(b.View(), g, data) && o + |bytes| <= g.memsz && base == Target(g, data) + o
    modifies b`ram
    ensures b.Valid() && Storable(b.View(), g, data)
    ensures Stored(old(b.View()), b.View(), base, bytes)
  {
    ghost var s := b.View();
    PartWritable(s, g, data, o, |bytes|);
    StoreBytes(b, g.virt + o, bytes, base);
    StoredStorable(s, b.View(), g, data, base, bytes);
  }

  lemma FilePart(s: Space, g: Segment, data: Word)
    requires Storable(s, g, data)
    ensures g.filesz <= g.memsz
  {
  }

  lemma WholeContent(file: seq<Byte>, g: Segment, bytes: seq<Byte>)
    requires g.offset + g.filesz <= |file| && bytes == Part(file, g.offset, g.filesz) && g.filesz <= g.memsz
    ensures BytesOf(file, g, WithZeros(g, bytes))
  {
  }

  /** One round for a loadable segment. */
  method LoadSegment(b: Machine, driver: Driver, h: nat, g: Segment, data: Word,
                     ghost f: Cursor, ghost ahead: seq<nat>, ghost final: nat)
    requires b.Valid() && Placed(b.View(), g, data) && Clear(b.View(), g) && b.View().Room(Need(g, data))
    requires FileIs(driver, h, f) && g.offset + g.filesz <= |f.content|
    requires Heading(driver.fatCachePosition, AccessLookups(f, g.offset, g.filesz) + ahead, final)
    modifies b`ram, b`heap, b`shape, driver`files, driver`fatCache, driver`fatCachePosition
    ensures b.Valid() && SegmentLoaded(old(b.View()), b.View(), g, data, f.content)
    ensures FileIs(driver, h, f) && Heading(driver.fatCachePosition, ahead, final)
  {
    ghost var s := b.View();
    MapSegment(b, g, data);
    ghost var m := b.View();
    MappedStorable(s, m, g, data);
    ghost var content := FillSegment(b, driver, h, g, data, f, ahead, final);
    MappedThenStored(s, m, b.View(), g, data, f.content, content);
  }

  // ----- the whole image

  /** What `readElf` needs of a file with the ELF magic. */
  ghost predicate Acceptable(s: Space, file: seq<Byte>, data: Word) {
    && Complete(file) && Loadable(s, Segments(file), data)
    && forall i: nat {:trigger Segments(file)[i]} | i < |Segments(file)| && Loads(Segments(file)[i]) ::
         Segments(file)[i].offset + Segments(file)[i].filesz <= |file|
  }

  /** The program headers of a file and the segments they describe. */
  ghost predicate Describes(file: seq<Byte>, header: Header, segments: seq<Segment>) {
    && |segments| == header.phnum
    && forall i: nat {:trigger segments[i]} | i < |segments| ::
         var at := HeaderAt(header, i);
         && at + PHDR_SIZE <= |file| && ParseSegment(file[at..at + PHDR_SIZE]) == segments[i]
         && (Loads(segments[i]) ==> segments[i].offset + segments[i].filesz <= |file|)
  }

  lemma HeadersDescribe(s: Space, file: seq<Byte>, data: Word)
    requires Acceptable(s, file, data)
    ensures Describes(file, ParseHeader(file[..EHDR_SIZE]), Segments(file)) && Loadable(s, Segments(file), data)
  {
  }

  /** The lookups of one round of `readElf`: for the header and for the segment. */
  datatype Round = Round(header: seq<nat>, segment: seq<nat>)

  function RoundAt(f: Cursor, header: Header, segments: seq<Segment>, i: nat): Round
    requires i < |segments|
  {
    Round(AccessLookups(f, HeaderAt(header, i), PHDR_SIZE), SegmentLookups(f, segments[i]))
  }

  function Rounds(f: Cursor, header: Header, segments: seq<Segment>): seq<Round> {
    seq<Round>(|segments|, i requires 0 <= i < |segments| => RoundAt(f, header, segments, i))
  }

  /** `rounds` are the rounds of `readElf`. */
  ghost predicate RoundsOf(f: Cursor, header: Header, segments: seq<Segment>, rounds: seq<Round>) {
    |rounds| == |segments|
    && forall i: nat {:trigger RoundAt(f, header, segments, i)} | i < |segments| ::
         rounds[i] == RoundAt(f, header, segments, i)
  }

  /** The lookups of the rounds from `i` on. */
  function LookupsFrom(rounds: seq<Round>, i: nat): seq<nat>
    decreases |rounds| - i
  {
    if i >= |rounds| then [] else rounds[i].header + (rounds[i].segment + LookupsFrom(rounds, i + 1))
  }

  /** Reads program header `i`. */
  method ReadHeader(driver: Driver, h: nat, header: Header, i: nat,
                    ghost f: Cursor, ghost segments: seq<Segment>, ghost rounds: seq<Round>, ghost final: nat)
    returns (g: Segment)
    requires FileIs(driver, h, f) && Describes(f.content, header, segments) && i < |segments|
    requires RoundsOf(f, header, segments, rounds) && Heading(driver.fatCachePosition, LookupsFrom(rounds, i), final)
    modifies driver`files, driver`fatCache, driver`fatCachePosition
    ensures FileIs(driver, h, f) && g == segments[i]
    ensures Heading(driver.fatCachePosition, rounds[i].segment + LookupsFrom(rounds, i + 1), final)
    ensures Loads(g) ==> g.offset + g.filesz <= |f.content|
  {
    HeaderDescribes(f.content, header, segments, i);
    ghost var round := RoundAt(f, header, segments, i);
    var phdr := ReadAt(driver, h, HeaderAt(header, i), PHDR_SIZE, f,
                       rounds[i].segment + LookupsFrom(rounds, i + 1), final);
    SameHeader(phdr, f.content[HeaderAt(header, i)..HeaderAt(header, i) + PHDR_SIZE], segments[i]);
    g := ParseSegment(phdr);
  }

  lemma HeaderDescribes(file: seq<Byte>, header: Header, segments: seq<Segment>, i: nat)
    requires Describes(file, header, segments) && i < |segments|
    ensures HeaderAt(header, i) + PHDR_SIZE <= |file|
    ensures ParseSegment(file[HeaderAt(header, i)..HeaderAt(header, i) + PHDR_SIZE]) == segments[i]
    ensures Loads(segments[i]) ==> segments[i].offset + segments[i].filesz <= |file|
  {
    assert segments[i] == segments[i];
  }

  lemma SameHeader(phdr: seq<Byte>, part: seq<Byte>, g: Segment)
    requires |phdr| == PHDR_SIZE && phdr == part && ParseSegment(part) == g
    ensures ParseSegment(phdr) == g
  {
  }

  /** One round of the loop of `readElf`. */
  method LoadNext(b: Machine, driver: Driver, h: nat, header: Header, i: nat, data: Word, low: Word,
                  ghost f: Cursor, ghost s: Space, ghost segments: seq<Segment>, ghost rounds: seq<Round>,
                  ghost final: nat)
    returns (low': Word)
    requires b.Valid() && FileIs(driver, h, f)
    requires Loadable(s, segments, data) && Describes(f.content, header, segments) && i < |segments|
    requires Loaded(s, b.View(), segments, data, f.content, i) && low == Lowest(segments, data, i)
    requires RoundsOf(f, header, segments, rounds) && Heading(driver.fatCachePosition, LookupsFrom(rounds, i), final)
    modifies b`ram, b`heap, b`shape, driver`files, driver`fatCache, driver`fatCachePosition
    ensures b.Valid() && FileIs(driver, h, f)
    ensures Loaded(s, b.View(), segments, data, f.content, i + 1) && low' == Lowest(segments, data, i + 1)
    ensures Heading(driver.fatCachePosition, LookupsFrom(rounds, i + 1), final)
  {
    var g := ReadHeader(driver, h, header, i, f, segments, rounds, final);
    low' := Lower(g, data, low);
    LowestNext(segments, data, i);
    LoadDescribed(b, driver, h, header, g, i, data, f, s, segments, rounds, final);
  }

  /** The same after the header has been read: it describes the segment `g`. */
  method LoadDescribed(b: Machine, driver: Driver, h: nat, header: Header, g: Segment, ghost i: nat, data: Word,
                       ghost f: Cursor, ghost s: Space, ghost segments: seq<Segment>, ghost rounds: seq<Round>,
                       ghost final: nat)
    requires b.Valid() && FileIs(driver, h, f) && Loadable(s, segments, data)
    requires i < |segments| && g == segments[i] && (Loads(g) ==> g.offset + g.filesz <= |f.content|)
    requires Loaded(s, b.View(), segments, data, f.content, i)
    requires RoundsOf(f, header, segments, rounds)
    requires Heading(driver.fatCachePosition, rounds[i].segment + LookupsFrom(rounds, i + 1), final)
    modifies b`ram, b`heap, b`shape, driver`files, driver`fatCache, driver`fatCachePosition
    ensures b.Valid() && FileIs(driver, h, f) && Loaded(s, b.View(), segments, data, f.content, i + 1)
    ensures Heading(driver.fatCachePosition, LookupsFrom(rounds, i + 1), final)
  {
    ghost var ahead, round := LookupsFrom(rounds, i + 1), RoundAt(f, header, segments, i);
    if g.kind != PT_LOAD {
      LoadedSkip(s, b.View(), segments, data, f.content, i);
      HeadingSplit(driver.fatCachePosition, round.segment, ahead, final);
    } else {
      LoadOne(b, driver, h, g, i, data, f, s, segments, ahead, final);
    }
  }

  /** The same for a loadable segment. */
  method LoadOne(b: Machine, driver: Driver, h: nat, g: Segment, ghost i: nat, data: Word,
                 ghost f: Cursor, ghost s: Space, ghost segments: seq<Segment>, ghost ahead: seq<nat>, ghost final: nat)
    requires b.Valid() && FileIs(driver, h, f) && Loadable(s, segments, data)
    requires i < |segments| && g == segments[i] && Loads(g) && g.offset + g.filesz <= |f.content|
    requires Loaded(s, b.View(), segments, data, f.content, i)
    requires Heading(driver.fatCachePosition, AccessLookups(f, g.offset, g.filesz) + ahead, final)
    modifies b`ram, b`heap, b`shape, driver`files, driver`fatCache, driver`fatCachePosition
    ensures b.Valid() && FileIs(driver, h, f) && Loaded(s, b.View(), segments, data, f.content, i + 1)
    ensures Heading(driver.fatCachePosition, ahead, final)
  {
    ghost var a := b.View();
    NextIsReady(s, a, segments, data, f.content, i);
    LoadSegment(b, driver, h, g, data, f, ahead, final);
    LoadedOneMore(s, a, b.View(), segments, data, f.content, i);
  }

  /** The header that `readElf` works on: what a short file lacks stays as it was in
      memory. */
  function HeaderRead(file: seq<Byte>, stale: seq<Byte>): (bytes: seq<Byte>)
    requires |stale| == EHDR_SIZE
    ensures |bytes| == EHDR_SIZE && (|file| >= EHDR_SIZE ==> bytes == file[..EHDR_SIZE])
  {
    var bytes := Part(file, 0, EHDR_SIZE);
    bytes + stale[|bytes|..]
  }

  /** The lookups of `readElf` behind the file header. */
  function ImageLookups(f: Cursor, stale: seq<Byte>): seq<nat>
    requires |stale| == EHDR_SIZE
  {
    if Magic(HeaderRead(f.content, stale)) && Complete(f.content) then
      LookupsFrom(Rounds(f, ParseHeader(f.content[..EHDR_SIZE]), Segments(f.content)), 0)
    else []
  }

  /** The lookups of `readElf`. */
  function ElfLookups(f: Cursor, stale: seq<Byte>): seq<nat>
    requires |stale| == EHDR_SIZE
  {
    AccessLookups(f, 0, EHDR_SIZE) + ImageLookups(f, stale)
  }

  lemma ImageRounds(f: Cursor, stale: seq<Byte>)
    requires |stale| == EHDR_SIZE && Magic(HeaderRead(f.content, stale)) && Complete(f.content)
    ensures var header, segments := ParseHeader(f.content[..EHDR_SIZE]), Segments(f.content);
      && RoundsOf(f, header, segments, Rounds(f, header, segments))
      && ImageLookups(f, stale) == LookupsFrom(Rounds(f, header, segments), 0)
  {
  }

  /** `readElf`: afterwards every segment is in place, as `ImageReadsBack` spells out, and
      the physical base is the running minimum of the load addresses; `LoadedByFields` says
      the same about the fields of the file. `stale` is the uninitialised header. */
  method ReadElf(b: Machine, driver: Driver, h: nat, data: Word, stale: seq<Byte>, ghost f: Cursor)
    returns (entry: Word, physBase: Word)
    requires b.Valid() && FileIs(driver, h, f) && |stale| == EHDR_SIZE
    requires Magic(HeaderRead(f.content, stale)) ==> Acceptable(b.View(), f.content, data)
    requires Untroubled(driver.fatCachePosition, ElfLookups(f, stale))
    modifies b`ram, b`heap, b`shape, driver`files, driver`fatCache, driver`fatCachePosition
    ensures b.Valid() && FileIs(driver, h, f)
    ensures driver.fatCachePosition == PositionAfter(old(driver.fatCachePosition), ElfLookups(f, stale))
    ensures !Magic(HeaderRead(f.content, stale)) ==> entry == 0 && physBase == 0 && b.View() == old(b.View())
    ensures Magic(HeaderRead(f.content, stale)) ==>
      && Complete(f.content)
      && Loaded(old(b.View()), b.View(), Segments(f.content), data, f.content, |Segments(f.content)|)
      && entry == ParseHeader(f.content[..EHDR_SIZE]).entry && physBase == PhysBase(Segments(f.content), data)
      && LoadedByFields(old(b.View()), b.View(), f.content, data, entry, physBase)
  {
    ghost var s := b.View();
    ghost var final := PositionAfter(driver.fatCachePosition, ElfLookups(f, stale));
    var bytes := ReadAt(driver, h, 0, EHDR_SIZE, f, ImageLookups(f, stale), final);
    bytes := bytes + stale[|bytes|..];
    MagicBytes(bytes);
    if !(bytes[0] == 0x7F && bytes[1] == 0x45 && bytes[2] == 0x4C && bytes[3] == 0x46) {
      return 0, 0;
    }
    var header := ParseHeader(bytes);
    HeadersDescribe(b.View(), f.content, data);
    ImageRounds(f, stale);
    physBase := LoadAll(b, driver, h, header, data, f, Segments(f.content),
                        Rounds(f, header, Segments(f.content)), final);
    entry := header.entry;
    FieldsTranslated(s, b.View(), f.content, data);
  }

  lemma MagicBytes(bytes: seq<Byte>)
    requires |bytes| == EHDR_SIZE
    ensures Magic(bytes) <==> bytes[0] == 0x7F && bytes[1] == 0x45 && bytes[2] == 0x4C && bytes[3] == 0x46
  {
  }

  /** The loop of `readElf`, and the physical base that it leaves. */
  method LoadAll(b: Machine, driver: Driver, h: nat, header: Header, data: Word,
                 ghost f: Cursor, ghost segments: seq<Segment>, ghost rounds: seq<Round>, ghost final: nat)
    returns (physBase: Word)
    requires b.Valid() && FileIs(driver, h, f)
    requires Loadable(b.View(), segments, data) && Describes(f.content, header, segments)
    requires RoundsOf(f, header, segments, rounds) && Heading(driver.fatCachePosition, LookupsFrom(rounds, 0), final)
    modifies b`ram, b`heap, b`shape, driver`files, driver`fatCache, driver`fatCachePosition
    ensures b.Valid() && FileIs(driver, h, f) && driver.fatCachePosition == final
    ensures Loaded(old(b.View()), b.View(), segments, data, f.content, |segments|)
    ensures physBase == PhysBase(segments, data)
  {
    ghost var s := b.View();
    LoadedNothing(s, segments, data, f.content);
    var low: Word := TWO64 - 1;
    for i := 0 to header.phnum
      invariant b.Valid() && FileIs(driver, h, f)
      invariant Loaded(s, b.View(), segments, data, f.content, i) && low == Lowest(segments, data, i)
      invariant Heading(driver.fatCachePosition, LookupsFrom(rounds, i), final)
    {
      low := LoadNext(b, driver, h, header, i, data, low, f, s, segments, rounds, final);
    }
    physBase := if low == TWO64 - 1 then data else low;
  }
}
