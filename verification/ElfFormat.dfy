/** ELF-64 headers field by field (System V gABI, chapters 4 and 5), and what the loader
    promises about a file in terms of these fields. */
module ElfFormat {
  import opened Bytes
  import opened Words
  import opened Memory
  import opened Paging
  import opened Encoding
  import opened Spaces
  import opened Rights
  import opened Runs
  import opened ElfImages
  import opened Loading
  import opened LoadPlans
  import opened ImageRights

  /** `Elf64_Phdr` */
  datatype Phdr = Phdr(kind: nat, flags: nat, offset: Word, vaddr: Word, paddr: Word, filesz: Word, memsz: Word,
                       align: Word)
  {
    predicate InWidth() { kind < 0x1_0000_0000 && flags < 0x1_0000_0000 }

    function Fields(): (f: seq<Field>)
      ensures |f| == 8
    {
      [Number(kind, 4), Number(flags, 4), Number(offset, 8), Number(vaddr, 8), Number(paddr, 8), Number(filesz, 8),
       Number(memsz, 8), Number(align, 8)]
    }
  }

  /** `Elf64_Ehdr` */
  datatype Ehdr = Ehdr(ident: seq<Byte>, kind: nat, machine: nat, version: nat, entry: Word, phoff: Word, shoff: Word,
                       flags: nat, ehsize: nat, phentsize: nat, phnum: nat, shentsize: nat, shnum: nat, shstrndx: nat)
  {
    predicate InWidth() {
      && |ident| == 16 && kind < 0x1_0000 && machine < 0x1_0000 && version < 0x1_0000_0000 && flags < 0x1_0000_0000
      && ehsize < 0x1_0000 && phentsize < 0x1_0000 && phnum < 0x1_0000 && shentsize < 0x1_0000 && shnum < 0x1_0000
      && shstrndx < 0x1_0000
    }

    function Fields(): (f: seq<Field>)
      ensures |f| == 14
    {
      [Raw(ident), Number(kind, 2), Number(machine, 2), Number(version, 4), Number(entry, 8), Number(phoff, 8),
       Number(shoff, 8), Number(flags, 4), Number(ehsize, 2), Number(phentsize, 2), Number(phnum, 2),
       Number(shentsize, 2), Number(shnum, 2), Number(shstrndx, 2)]
    }
  }

  // ----- reading the fields back

  lemma WordField(s: seq<Byte>, fields: seq<Field>, k: nat, at: nat, x: Word)
    requires k < |fields| && s == StructBytes(fields) && fields[k] == Number(x, 8) && FieldStart(fields, k) == at
    ensures at + 8 <= |s| && Le64(s, at) == x
  {
    FieldAt(fields, |fields|, k);
    Le64Of(s, at, x);
  }

  lemma HalfField(s: seq<Byte>, fields: seq<Field>, k: nat, at: nat, x: nat)
    requires k < |fields| && s == StructBytes(fields) && fields[k] == Number(x, 2) && FieldStart(fields, k) == at
    requires x < 0x1_0000
    ensures at + 2 <= |s| && Le16(s, at) == x
  {
    FieldAt(fields, |fields|, k);
    Le16Of(s, at, x);
  }

  lemma PhdrStarts(p: Phdr)
    ensures var f := p.Fields();
      && FieldStart(f, 0) == 0 && FieldStart(f, 2) == 8 && FieldStart(f, 3) == 16 && FieldStart(f, 4) == 24
      && FieldStart(f, 5) == 32 && FieldStart(f, 6) == 40 && FieldStart(f, 8) == PHDR_SIZE
  {
    var f := p.Fields();
    assert FieldStart(f, 1) == 4 && FieldStart(f, 2) == 8 && FieldStart(f, 3) == 16 && FieldStart(f, 4) == 24;
    assert FieldStart(f, 5) == 32 && FieldStart(f, 6) == 40 && FieldStart(f, 7) == 48;
  }

  /** The loader reads back each field of a program header that it uses. */
  lemma PhdrParses(s: seq<Byte>, p: Phdr)
    requires p.InWidth() && s == StructBytes(p.Fields())
    ensures |s| == PHDR_SIZE
    ensures ParseSegment(s) == Segment(p.kind, p.offset, p.vaddr, p.paddr, p.filesz, p.memsz)
  {
    var f := p.Fields();
    PhdrStarts(p);
    FieldAt(f, 8, 0);
    Le32Of(s, 0, p.kind);
    WordField(s, f, 2, 8, p.offset);
    WordField(s, f, 3, 16, p.vaddr);
    WordField(s, f, 4, 24, p.paddr);
    WordField(s, f, 5, 32, p.filesz);
    WordField(s, f, 6, 40, p.memsz);
  }

  lemma EhdrStarts(e: Ehdr)
    requires |e.ident| == 16
    ensures var f := e.Fields();
      && FieldStart(f, 0) == 0 && FieldStart(f, 1) == 16 && FieldStart(f, 4) == 24 && FieldStart(f, 5) == 32
      && FieldStart(f, 9) == 54 && FieldStart(f, 10) == 56 && FieldStart(f, 14) == EHDR_SIZE
  {
    var f := e.Fields();
    assert FieldStart(f, 1) == 16 && FieldStart(f, 2) == 18 && FieldStart(f, 3) == 20 && FieldStart(f, 4) == 24;
    assert FieldStart(f, 5) == 32 && FieldStart(f, 6) == 40 && FieldStart(f, 7) == 48 && FieldStart(f, 8) == 52;
    assert FieldStart(f, 9) == 54 && FieldStart(f, 10) == 56 && FieldStart(f, 11) == 58 && FieldStart(f, 12) == 60;
    assert FieldStart(f, 13) == 62;
  }

  /** And each field of the file header. */
  lemma EhdrParses(s: seq<Byte>, e: Ehdr)
    requires e.InWidth() && s == StructBytes(e.Fields())
    ensures |s| == EHDR_SIZE && s[..16] == e.ident
    ensures ParseHeader(s) == Header(e.entry, e.phoff, e.phentsize, e.phnum)
  {
    var f := e.Fields();
    EhdrStarts(e);
    FieldAt(f, 14, 0);
    WordField(s, f, 4, 24, e.entry);
    WordField(s, f, 5, 32, e.phoff);
    HalfField(s, f, 9, 54, e.phentsize);
    HalfField(s, f, 10, 56, e.phnum);
  }

  // ----- files

  /** Program header `i` is where the file header says. */
  predicate PhdrAt(file: seq<Byte>, e: Ehdr, p: Phdr, i: nat) {
    var at := e.phoff + i * e.phentsize;
    p.InWidth() && at + 56 <= |file| && file[at..at + 56] == StructBytes(p.Fields())
  }

  /** A file with this header and these program headers. */
  predicate IsImage(file: seq<Byte>, e: Ehdr, phdrs: seq<Phdr>) {
    && e.InWidth() && |phdrs| == e.phnum && |file| >= 64 && file[..64] == StructBytes(e.Fields())
    && forall i: nat {:trigger phdrs[i]} | i < |phdrs| :: PhdrAt(file, e, phdrs[i], i)
  }

  /** What the loader takes from a program header. */
  function SegmentOf(p: Phdr): Segment { Segment(p.kind, p.offset, p.vaddr, p.paddr, p.filesz, p.memsz) }

  lemma HeaderParses(file: seq<Byte>, e: Ehdr, phdrs: seq<Phdr>)
    requires IsImage(file, e, phdrs)
    ensures ParseHeader(file[..EHDR_SIZE]) == Header(e.entry, e.phoff, e.phentsize, e.phnum)
  {
    EhdrParses(file[..64], e);
  }

  lemma PhdrRead(file: seq<Byte>, e: Ehdr, p: Phdr, i: nat)
    requires PhdrAt(file, e, p, i) && Complete(file) && i < e.phnum
    requires ParseHeader(file[..EHDR_SIZE]) == Header(e.entry, e.phoff, e.phentsize, e.phnum)
    ensures SegmentAt(file, i) == SegmentOf(p)
  {
    var at := HeaderAt(ParseHeader(file[..EHDR_SIZE]), i);
    PhdrParses(file[at..at + 56], p);
  }

  lemma ImageParses(file: seq<Byte>, e: Ehdr, phdrs: seq<Phdr>)
    requires IsImage(file, e, phdrs) && Complete(file)
    ensures ParseHeader(file[..EHDR_SIZE]) == Header(e.entry, e.phoff, e.phentsize, e.phnum)
    ensures |Segments(file)| == |phdrs|
    ensures forall i: nat {:trigger phdrs[i]} | i < |phdrs| :: Segments(file)[i] == SegmentOf(phdrs[i])
  {
    HeaderParses(file, e, phdrs);
    forall i: nat | i < |phdrs|
      ensures Segments(file)[i] == SegmentOf(phdrs[i])
    {
      assert PhdrAt(file, e, phdrs[i], i);
      PhdrRead(file, e, phdrs[i], i);
    }
  }

  // ----- the image in memory

  /** `phys`, in 64 bits */
  function Base(p: Phdr, data: Word): Word { (data + p.paddr) % 0x1_0000_0000_0000_0000 }

  /** The loader uses 2 MiB pages for the segment. */
  predicate InLarge(p: Phdr, data: Word) {
    p.vaddr % 0x20_0000 == 0 && Base(p, data) % 0x20_0000 == 0 && p.memsz % 0x20_0000 == 0
  }

  /** The leaf for a byte at physical address `at`: present and writable, with bit 63 clear; a
      large one names its block of 2 MiB. */
  function LeafFor(at: nat, low: nat, large: bool): Outcome
    requires at < 0x1_0000_0000_0000 && low < 4096
  {
    if large then Leaf(1, at / 0x20_0000 * 0x20_0000 + 0x83)
    else Leaf(0, at / 4096 * 4096 + low / 4 * 4 + 3)
  }

  /** The byte `b` is seen at the virtual address `va` and lies at the physical address `at`. */
  ghost predicate InPlaceAt(s: Space, va: nat, at: nat, b: Byte, low: nat, large: bool)
    requires low < 4096
  {
    && va < TWO64 && at < 0x1_0000_0000_0000 && va % 4096 == at % 4096
    && s.Translated(PageOf(va)) == Some(at / 4096) && VirtualByte(s, va) == Some(b)
    && s.Walked(PageOf(va)) == LeafFor(at, low, large)
  }

  /** Byte `o` of the segment: from the file, then zeros. */
  function ByteFor(p: Phdr, file: seq<Byte>, o: nat): Byte {
    if o < p.filesz && p.offset + o < |file| then file[p.offset + o] else 0
  }

  /** Byte `o` of the segment is in place. */
  ghost predicate ByteLoaded(s: Space, p: Phdr, data: Word, file: seq<Byte>, o: nat) {
    InPlaceAt(s, p.vaddr + o, Base(p, data) + o, ByteFor(p, file, o), Base(p, data) % 4096, InLarge(p, data))
  }

  /** Byte `o` of the segment is on page `q`. */
  predicate OnPage(p: Phdr, o: nat, q: nat) {
    p.kind == 1 && o < p.memsz && p.vaddr + o < TWO64 && PageOf(p.vaddr + o) == q
  }

  ghost predicate InImage(phdrs: seq<Phdr>, q: nat) {
    exists i: nat, o: nat {:trigger OnPage(phdrs[i], o, q)} :: i < |phdrs| && OnPage(phdrs[i], o, q)
  }

  /** Every byte of every loadable segment is in place, and pages without one are as before;
      if the tables so far allowed it, the processor may write to and execute from its pages. */
  ghost predicate ImageInPlace(s: Space, s': Space, phdrs: seq<Phdr>, data: Word, file: seq<Byte>) {
    && (forall i: nat, o: nat {:trigger ByteLoaded(s', phdrs[i], data, file, o)} |
          i < |phdrs| && phdrs[i].kind == 1 && o < phdrs[i].memsz :: ByteLoaded(s', phdrs[i], data, file, o))
    && (forall q: nat {:trigger s'.Walked(q)} | q < PAGES && !InImage(phdrs, q) ::
          Alike(s'.Walked(q), s.Walked(q)) && s'.Translated(q) == s.Translated(q))
    && (TablesOpen(s) ==> forall q: nat {:trigger Granted(s', q)} | q < PAGES && InImage(phdrs, q) :: Granted(s', q))
  }

  /** The least load address, or `data` if nothing is loaded. */
  ghost predicate IsBase(base: Word, phdrs: seq<Phdr>, data: Word) {
    && (forall i: nat {:trigger phdrs[i]} | i < |phdrs| && phdrs[i].kind == 1 && Base(phdrs[i], data) < TWO64 - 1 ::
          base <= Base(phdrs[i], data))
    && if exists i: nat {:trigger phdrs[i]} :: i < |phdrs| && phdrs[i].kind == 1 && Base(phdrs[i], data) < TWO64 - 1
       then exists i: nat {:trigger phdrs[i]} :: i < |phdrs| && phdrs[i].kind == 1 && Base(phdrs[i], data) == base
       else base == data
  }

  /** What `readElf` returns and leaves in memory, in terms of the fields of the file. */
  ghost predicate LoadedByFields(s: Space, s': Space, file: seq<Byte>, data: Word, entry: Word, physBase: Word) {
    forall e: Ehdr, phdrs: seq<Phdr> {:trigger IsImage(file, e, phdrs)} | IsImage(file, e, phdrs) ::
      entry == e.entry && ImageInPlace(s, s', phdrs, data, file) && IsBase(physBase, phdrs, data)
  }

  /** Every byte of a loadable segment is in place, if its frame is neither `r` nor between
      `lo` and `hi`. */
  ghost predicate FieldsKept(s: Space, file: seq<Byte>, data: Word, r: nat, lo: nat, hi: nat) {
    forall e: Ehdr, phdrs: seq<Phdr>, i: nat, o: nat
      {:trigger IsImage(file, e, phdrs), ByteLoaded(s, phdrs[i], data, file, o)} |
      IsImage(file, e, phdrs) && i < |phdrs| && phdrs[i].kind == 1 && o < phdrs[i].memsz
      && var f := (Base(phdrs[i], data) + o) / 4096; f != r && !(lo <= f < hi) ::
      ByteLoaded(s, phdrs[i], data, file, o)
  }

  // ----- the loader's own account, translated

  lemma LeafTranslated(g: Segment, data: Word, o: nat)
    requires FitsPages(g, data) && CanonicalRange(g) && o < g.memsz && FirstFrame(g, data) + PageCount(g) <= PAGES
    ensures g.virt + o < TWO64 && InPages(g, PageOf(g.virt + o)) && (g.virt + o) % 4096 == (Target(g, data) + o) % 4096
    ensures Target(g, data) + o < 0x1_0000_0000_0000
    ensures SegmentLeaf(g, data, PageOf(g.virt + o))
            == LeafFor(Target(g, data) + o, Target(g, data) % 4096, UsesLarge(g, data))
  {
    BytePlace(g, data, o);
    var t, k := Target(g, data), PageOf(g.virt + o) - FirstPage(g);
    if UsesLarge(g, data) {
      WholeBlocks(g, data);
      LargePlace(t, o, k);
      EntryFits(t, 0x83, k / 512 * 512);
    } else {
      EntryFits(t, SmallLow(t), k);
    }
  }

  lemma LargePlace(t: Word, o: nat, k: nat)
    requires t % 0x20_0000 == 0 && (t + o) / 4096 == t / 4096 + k
    ensures (t / 4096 + k / 512 * 512) * 4096 == (t + o) / 0x20_0000 * 0x20_0000
  {
    var b := t / 0x20_0000;
    QuotientRemainder(t, b * 512, 4096, 0);
    NestedQuotient(t + o, 4096, 512);
    QuotientRemainder(b * 512 + k, b + k / 512, 512, k % 512);
  }

  /** The loader's numbers are those of the fields. */
  lemma SameNumbers(g: Segment, p: Phdr, data: Word, file: seq<Byte>, o: nat)
    requires g == SegmentOf(p)
    ensures Base(p, data) == Target(g, data) && InLarge(p, data) == UsesLarge(g, data)
    ensures ByteFor(p, file, o) == SegmentByte(file, g, o)
  {
  }

  lemma SegmentByteSeen(s: Space, g: Segment, data: Word, file: seq<Byte>, o: nat)
    requires FitsPages(g, data) && CanonicalRange(g) && o < g.memsz && FirstFrame(g, data) + PageCount(g) <= PAGES
    requires ReadsBack(s, g, data, file, o)
    ensures InPlaceAt(s, g.virt + o, Target(g, data) + o, SegmentByte(file, g, o), Target(g, data) % 4096,
                      UsesLarge(g, data))
  {
    LeafTranslated(g, data, o);
  }

  lemma ByteRenamed(s: Space, g: Segment, p: Phdr, data: Word, file: seq<Byte>, o: nat)
    requires g == SegmentOf(p)
    requires InPlaceAt(s, g.virt + o, Target(g, data) + o, SegmentByte(file, g, o), Target(g, data) % 4096,
                       UsesLarge(g, data))
    ensures ByteLoaded(s, p, data, file, o)
  {
    SameNumbers(g, p, data, file, o);
  }

  lemma ByteTranslated(s: Space, g: Segment, p: Phdr, data: Word, file: seq<Byte>, o: nat)
    requires g == SegmentOf(p) && FitsPages(g, data) && CanonicalRange(g) && o < g.memsz
    requires FirstFrame(g, data) + PageCount(g) <= PAGES && ReadsBack(s, g, data, file, o)
    ensures ByteLoaded(s, p, data, file, o)
  {
    SegmentByteSeen(s, g, data, file, o);
    ByteRenamed(s, g, p, data, file, o);
  }

  lemma PageTranslated(segments: seq<Segment>, phdrs: seq<Phdr>, q: nat)
    requires |segments| == |phdrs| && q < PAGES
    requires forall i: nat {:trigger phdrs[i]} | i < |phdrs| :: segments[i] == SegmentOf(phdrs[i])
    requires forall i: nat {:trigger segments[i]} | i < |segments| && Loads(segments[i]) :: CanonicalRange(segments[i])
    requires InSomePages(segments, |segments|, q)
    ensures InImage(phdrs, q)
  {
    var i: nat :| i < |segments| && Loads(segments[i]) && InPages(segments[i], q);
    assert segments[i] == SegmentOf(phdrs[i]);
    var o := (q - FirstPage(segments[i])) * 4096;
    PageHasByte(segments[i], q, o);
    assert OnPage(phdrs[i], o, q);
  }

  lemma ImageTranslated(s: Space, s': Space, file: seq<Byte>, e: Ehdr, phdrs: seq<Phdr>, data: Word)
    requires IsImage(file, e, phdrs) && Complete(file) && Loadable(s, Segments(file), data)
    requires Loaded(s, s', Segments(file), data, file, |Segments(file)|)
    ensures ImageInPlace(s, s', phdrs, data, file)
  {
    var segments := Segments(file);
    ImageParses(file, e, phdrs);
    forall i: nat, o: nat | i < |phdrs| && phdrs[i].kind == 1 && o < phdrs[i].memsz
      ensures ByteLoaded(s', phdrs[i], data, file, o)
    {
      assert segments[i] == SegmentOf(phdrs[i]);
      PlacedOf(s, segments, data, i);
      ImageReadsBack(s, s', segments, data, file, i, o);
      ByteTranslated(s', segments[i], phdrs[i], data, file, o);
    }
    forall q: nat | q < PAGES && !InImage(phdrs, q)
      ensures Alike(s'.Walked(q), s.Walked(q)) && s'.Translated(q) == s.Translated(q)
    {
      OtherPage(s, s', segments, phdrs, data, file, q);
    }
    if TablesOpen(s) {
      forall q: nat | q < PAGES && InImage(phdrs, q)
        ensures Granted(s', q)
      {
        PageGranted(s, s', segments, phdrs, data, file, q);
      }
    }
  }

  lemma PageGranted(s: Space, s': Space, segments: seq<Segment>, phdrs: seq<Phdr>, data: Word, file: seq<Byte>, q: nat)
    requires |segments| == |phdrs| && q < PAGES && InImage(phdrs, q) && TablesOpen(s)
    requires forall i: nat {:trigger phdrs[i]} | i < |phdrs| :: segments[i] == SegmentOf(phdrs[i])
    requires Loadable(s, segments, data) && Loaded(s, s', segments, data, file, |segments|)
    ensures Granted(s', q)
  {
    var i: nat, o: nat :| i < |phdrs| && OnPage(phdrs[i], o, q);
    assert segments[i] == SegmentOf(phdrs[i]);
    PlacedOf(s, segments, data, i);
    PageOfSegment(segments[i], phdrs[i], data, o, q);
    SegmentGranted(s, s', segments, data, file, i, q);
  }

  lemma PageOfSegment(g: Segment, p: Phdr, data: Word, o: nat, q: nat)
    requires g == SegmentOf(p) && FitsPages(g, data) && CanonicalRange(g) && OnPage(p, o, q)
    ensures Loads(g) && InPages(g, q)
  {
    BytePlace(g, data, o);
  }

  lemma OtherPage(s: Space, s': Space, segments: seq<Segment>, phdrs: seq<Phdr>, data: Word, file: seq<Byte>, q: nat)
    requires |segments| == |phdrs| && q < PAGES && !InImage(phdrs, q)
    requires forall i: nat {:trigger phdrs[i]} | i < |phdrs| :: segments[i] == SegmentOf(phdrs[i])
    requires Loadable(s, segments, data) && Loaded(s, s', segments, data, file, |segments|)
    ensures Alike(s'.Walked(q), s.Walked(q)) && s'.Translated(q) == s.Translated(q)
  {
    forall i: nat | i < |segments| && Loads(segments[i])
      ensures CanonicalRange(segments[i])
    {
      PlacedOf(s, segments, data, i);
    }
    if InSomePages(segments, |segments|, q) {
      PageTranslated(segments, phdrs, q);
    }
  }

  lemma BaseTranslated(segments: seq<Segment>, phdrs: seq<Phdr>, data: Word)
    requires |segments| == |phdrs|
    requires forall i: nat {:trigger phdrs[i]} | i < |phdrs| :: segments[i] == SegmentOf(phdrs[i])
    ensures IsBase(PhysBase(segments, data), phdrs, data)
  {
    var n := |segments|;
    var low := Lowest(segments, data, n);
    forall i: nat | i < |phdrs| && phdrs[i].kind == 1
      ensures low <= Base(phdrs[i], data)
    {
      assert segments[i] == SegmentOf(phdrs[i]);
      LowestIsLeast(segments, data, n, i);
    }
    if low < TWO64 - 1 {
      var i := LowestIsReached(segments, data, n);
      assert phdrs[i].kind == 1 && Base(phdrs[i], data) == low;
    }
  }

  lemma FieldsTranslated(s: Space, s': Space, file: seq<Byte>, data: Word)
    requires Complete(file) && Loadable(s, Segments(file), data)
    requires Loaded(s, s', Segments(file), data, file, |Segments(file)|)
    ensures LoadedByFields(s, s', file, data, ParseHeader(file[..EHDR_SIZE]).entry, PhysBase(Segments(file), data))
  {
    forall e: Ehdr, phdrs: seq<Phdr> | IsImage(file, e, phdrs)
      ensures ParseHeader(file[..EHDR_SIZE]).entry == e.entry && ImageInPlace(s, s', phdrs, data, file)
      ensures IsBase(PhysBase(Segments(file), data), phdrs, data)
    {
      ImageParses(file, e, phdrs);
      ImageTranslated(s, s', file, e, phdrs, data);
      BaseTranslated(Segments(file), phdrs, data);
    }
  }
}
