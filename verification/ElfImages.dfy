/** ELF-64 images: headers, segments and where they go (System V gABI, chapter 5,
    "Program Header"). */
module ElfImages {
  import opened Bytes
  import opened Words

  const EHDR_SIZE: nat := 64
  const PHDR_SIZE: nat := 56
  const PT_LOAD: nat := 1
  /** The start of the kernel's half of the address space. */
  const KERNEL_BASE: Word := 0xFFFF_8000_0000_0000

  /** The fields of `Elf64_Phdr` that the loader uses. */
  datatype Segment = Segment(kind: nat, offset: Word, virt: Word, paddr: Word, filesz: Word, memsz: Word)

  /** The fields of `Elf64_Ehdr` that the loader uses. */
  datatype Header = Header(entry: Word, phoff: Word, phentsize: nat, phnum: nat)

  function ParseSegment(s: seq<Byte>): Segment
    requires |s| == PHDR_SIZE
  {
    Segment(Le32(s, 0), Le64(s, 8), Le64(s, 16), Le64(s, 24), Le64(s, 32), Le64(s, 40))
  }

  predicate Magic(s: seq<Byte>) { |s| >= 4 && s[..4] == [0x7F, 0x45, 0x4C, 0x46] }

  function ParseHeader(s: seq<Byte>): Header
    requires |s| == EHDR_SIZE
  {
    Header(Le64(s, 24), Le64(s, 32), Le16(s, 54), Le16(s, 56))
  }

  /** The offset of program header `i`. */
  function HeaderAt(h: Header, i: nat): nat { h.phoff + i * h.phentsize }

  /** The headers and the contents of the segments lie in the file. */
  predicate Complete(file: seq<Byte>) {
    && |file| >= EHDR_SIZE && Magic(file)
    && var h := ParseHeader(file[..EHDR_SIZE]);
      forall i: nat {:trigger HeaderAt(h, i)} | i < h.phnum :: HeaderAt(h, i) + PHDR_SIZE <= |file|
  }

  function SegmentAt(file: seq<Byte>, i: nat): Segment
    requires Complete(file) && i < ParseHeader(file[..EHDR_SIZE]).phnum
  {
    var at := HeaderAt(ParseHeader(file[..EHDR_SIZE]), i);
    ParseSegment(file[at..at + PHDR_SIZE])
  }

  function Segments(file: seq<Byte>): seq<Segment>
    requires Complete(file)
  {
    var n := ParseHeader(file[..EHDR_SIZE]).phnum;
    seq<Segment>(n, i requires 0 <= i < n => SegmentAt(file, i))
  }

  predicate Loads(g: Segment) { g.kind == PT_LOAD }

  /** Where a segment goes in physical memory when the image is placed at `data`. */
  function Target(g: Segment, data: Word): Word { Add64(data, g.paddr) }

  /** Byte `o` of a loaded segment: from the file, then zeros. */
  function SegmentByte(file: seq<Byte>, g: Segment, o: nat): Byte {
    if o < g.filesz && g.offset + o < |file| then file[g.offset + o] else 0
  }

  // ----- the running minimum

  /** `physBase` after one more header. */
  function Lower(g: Segment, data: Word, low: Word): Word {
    if Loads(g) && Target(g, data) < low then Target(g, data) else low
  }

  /** `physBase` after the first `n` headers. */
  function Lowest(segments: seq<Segment>, data: Word, n: nat): Word
    requires n <= |segments|
  {
    if n == 0 then TWO64 - 1 else Lower(segments[n - 1], data, Lowest(segments, data, n - 1))
  }

  lemma LowestNext(segments: seq<Segment>, data: Word, n: nat)
    requires n < |segments|
    ensures Lowest(segments, data, n + 1) == Lower(segments[n], data, Lowest(segments, data, n))
  {
  }

  /** `info.phys_base` */
  function PhysBase(segments: seq<Segment>, data: Word): Word {
    var low := Lowest(segments, data, |segments|);
    if low == TWO64 - 1 then data else low
  }

  lemma {:induction false} LowestIsLeast(segments: seq<Segment>, data: Word, n: nat, i: nat)
    requires i < n <= |segments| && Loads(segments[i])
    ensures Lowest(segments, data, n) <= Target(segments[i], data)
  {
    if i < n - 1 {
      LowestIsLeast(segments, data, n - 1, i);
    }
  }

  lemma {:induction false} LowestIsReached(segments: seq<Segment>, data: Word, n: nat) returns (i: nat)
    requires n <= |segments| && Lowest(segments, data, n) < TWO64 - 1
    ensures i < n && Loads(segments[i]) && Target(segments[i], data) == Lowest(segments, data, n)
  {
    if Lowest(segments, data, n) == Lowest(segments, data, n - 1) {
      i := LowestIsReached(segments, data, n - 1);
    } else {
      i := n - 1;
    }
  }

  // ----- the handoff to the kernel

  /** An image linked at `KERNEL_BASE` plus its load addresses, which does not wrap. */
  predicate LinkedHigh(segments: seq<Segment>, data: Word) {
    forall i | 0 <= i < |segments| && Loads(segments[i]) ::
      && segments[i].virt == Add64(KERNEL_BASE, segments[i].paddr)
      && data + segments[i].paddr < TWO64 - 1
  }

  /** The offset at which the loader has mapped a segment. */
  function Offset(g: Segment, data: Word): Word { Sub64(g.virt, Target(g, data)) }

  /** `kernelOffset` in `main` */
  function KernelOffset(physBase: Word): Word { Sub64(KERNEL_BASE, physBase) }

  lemma LinkedOffset(g: Segment, data: Word)
    requires g.virt == Add64(KERNEL_BASE, g.paddr) && data + g.paddr < TWO64
    ensures Target(g, data) == data + g.paddr && Offset(g, data) == Sub64(KERNEL_BASE, data)
  {
    QuotientRemainder(data + g.paddr, 0, TWO64, data + g.paddr);
    var k: nat := KERNEL_BASE;
    var x: int := k + TWO64 - data;
    if k + g.paddr < TWO64 {
      QuotientRemainder(k + g.paddr, 0, TWO64, k + g.paddr);
    } else {
      QuotientRemainder(k + g.paddr, 1, TWO64, k + g.paddr - TWO64);
      assert g.virt + TWO64 - Target(g, data) == x - TWO64;
      QuotientRemainder(x, 1, TWO64, x - TWO64);
      QuotientRemainder(x - TWO64, 0, TWO64, x - TWO64);
    }
  }

  /** Different bases give different offsets. */
  lemma OffsetsDiffer(a: Word, b: Word)
    ensures KernelOffset(a) == KernelOffset(b) <==> a == b
  {
  }

  /** The kernel computes the offset of the mapping it runs in exactly when the lowest
      load address of the image is zero. */
  lemma HandoffExactly(segments: seq<Segment>, data: Word, i: nat)
    requires LinkedHigh(segments, data) && i < |segments| && Loads(segments[i])
    ensures KernelOffset(PhysBase(segments, data)) == Offset(segments[i], data)
            <==> exists k :: 0 <= k < |segments| && Loads(segments[k]) && segments[k].paddr == 0
  {
    var n := |segments|;
    LinkedOffset(segments[i], data);
    LowestIsLeast(segments, data, n, i);
    var least := LowestIsReached(segments, data, n);
    LinkedOffset(segments[least], data);
    assert PhysBase(segments, data) == data + segments[least].paddr;
    OffsetsDiffer(PhysBase(segments, data), data);
    if k :| 0 <= k < n && Loads(segments[k]) && segments[k].paddr == 0 {
      LowestIsLeast(segments, data, n, k);
      LinkedOffset(segments[k], data);
    }
  }
}
