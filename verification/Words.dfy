/** 64-bit machine words, page-table entries and virtual addresses.
    Bit masks of the source are written with division and remainder:
    `x & 0xFFF` is `x % 4096`, `(x >> 39) & 0x1FF` is `x / 2^39 % 512`. */
module Words {
  const TWO64: nat := 0x1_0000_0000_0000_0000
  /** Number of 4 KiB pages in a 48-bit address space. */
  const PAGES: nat := 0x10_0000_0000

  type Word = w: nat | w < TWO64

  /** A table level: 3 is the PML4, 2 a PDPT, 1 a PD and 0 a PT. */
  type Level = l: nat | l <= 3

  predicate Present(w: Word) { w % 2 == 1 }

  /** The PS bit (bit 7). */
  predicate Large(w: Word) { w / 128 % 2 == 1 }

  /** An entry of a PML4, PDPT or PD that refers to a lower table. */
  predicate Pointer(w: Word) { Present(w) && !Large(w) }

  /** Bits 12 to 47, as a frame number. */
  function FrameOf(w: Word): (f: nat)
    ensures f < PAGES
  {
    w / 4096 % PAGES
  }

  /** Bit 63, execute-disable. */
  predicate NoExecute(w: Word) { w >= 0x8000_0000_0000_0000 }

  /** Bits 0 to 11 and bit 63: `w & FLAGS_MASK`. */
  function Flags(w: Word): (r: Word) {
    w % 4096 + if NoExecute(w) then 0x8000_0000_0000_0000 else 0
  }

  /** `w | PAGE_PRESENT | PAGE_RW`. */
  function OrPresentRw(w: Word): (r: Word)
    ensures Present(r) && FrameOf(r) == FrameOf(w)
  {
    var page, low := w / 4096, w % 4096 / 4;
    var r := page * 4096 + low * 4 + 3;
    QuotientRemainder(r, page, 4096, low * 4 + 3);
    QuotientRemainder(r, page * 2048 + low * 2 + 1, 2, 1);
    r
  }

  /** `w | PAGE_PRESENT | PAGE_RW | PAGE_PSE`. */
  function OrLarge(w: Word): (r: Word)
    ensures Present(r) && Large(r) && FrameOf(r) == FrameOf(w)
  {
    var page, mid, low := w / 4096, w % 4096 / 256, w % 128 / 4;
    var r := page * 4096 + mid * 256 + 128 + low * 4 + 3;
    QuotientRemainder(r, page, 4096, mid * 256 + 128 + low * 4 + 3);
    QuotientRemainder(r, page * 2048 + mid * 128 + 64 + low * 2 + 1, 2, 1);
    QuotientRemainder(r, page * 32 + mid * 2 + 1, 128, low * 4 + 3);
    QuotientRemainder(page * 32 + mid * 2 + 1, page * 16 + mid, 2, 1);
    r
  }

  /** The entry written for a table or a page at frame `f`. */
  lemma FrameEntry(f: nat)
    requires f < PAGES
    ensures OrPresentRw(f * 4096) == f * 4096 + 3
    ensures Pointer(f * 4096 + 3) && FrameOf(f * 4096 + 3) == f
  {
    QuotientRemainder(f * 4096, f, 4096, 0);
    QuotientRemainder(f * 4096 + 3, f, 4096, 3);
    QuotientRemainder(f * 4096 + 3, f * 2048 + 1, 2, 1);
    QuotientRemainder(f * 4096 + 3, f * 32, 128, 3);
    QuotientRemainder(f * 32, f * 16, 2, 0);
  }

  /** The 36-bit page number the processor walks for a virtual address. */
  function PageOf(va: Word): (p: nat)
    ensures p < PAGES
  {
    va / 4096 % PAGES
  }

  /** Bits 47 to 63 all equal; any other address faults before the walk. */
  predicate Canonical(va: Word) {
    va < 0x8000_0000_0000 || 0xFFFF_8000_0000_0000 <= va
  }

  function Add64(a: nat, b: nat): Word { (a + b) % TWO64 }

  function Sub64(a: Word, b: Word): Word { (a + TWO64 - b) % TWO64 }

  /** The index of the enclosing region of a page: level 0 is the page itself,
      level 1 its 2 MiB region, level 2 its 1 GiB region, level 3 its 512 GiB region. */
  function Region(p: nat, level: nat): (r: nat)
    requires level <= 4
  {
    if level == 0 then p
    else if level == 1 then p / 0x200
    else if level == 2 then p / 0x4_0000
    else if level == 3 then p / 0x800_0000
    else p / 0x10_0000_0000
  }

  /** The slot used in the table of the given level. */
  function Index(p: nat, level: Level): (i: nat)
    ensures i < 512
  {
    Region(p, level) % 512
  }

  lemma RegionStep(p: nat, level: Level)
    ensures Region(p, level + 1) == Region(p, level) / 512
    ensures Region(p, level) == Region(p, level + 1) * 512 + Index(p, level)
  {
  }

  /** The shifts and masks written in the source pick the slots of the walk. */
  lemma IndicesOfAddress(va: Word)
    ensures Index(PageOf(va), 3) == va / 0x80_0000_0000 % 512
    ensures Index(PageOf(va), 2) == va / 0x4000_0000 % 512
    ensures Index(PageOf(va), 1) == va / 0x20_0000 % 512
    ensures Index(PageOf(va), 0) == va / 0x1000 % 512
  {
    IndexOfAddress(va, 0x800_0000, 512, 1);
    IndexOfAddress(va, 0x4_0000, 0x4_0000, 512);
    IndexOfAddress(va, 0x200, 0x800_0000, 0x4_0000);
    IndexOfAddress(va, 1, 0x10_0000_0000, 0x800_0000);
  }

  /** Slicing the page number and slicing the address give the same slot. */
  lemma IndexOfAddress(va: Word, span: nat, spans: nat, rest: nat)
    requires span > 0 && span * spans == PAGES && spans == rest * 512
    ensures va / 4096 % PAGES / span % 512 == va / (4096 * span) % 512
  {
    var q := va / 4096;
    var h, r := q / PAGES, q % PAGES;
    var d := h * spans + r / span;
    assert d * span == h * PAGES + r / span * span by {
      Distribute(h * spans, r / span, span);
      Associate(h, spans, span);
    }
    QuotientRemainder(q, d, span, r % span);
    NestedQuotient(va, 4096, span);
    assert d == (h * rest) * 512 + r / span by {
      Associate(h, rest, 512);
    }
    QuotientRemainder(d, h * rest + r / span / 512, 512, r / span % 512);
  }

  lemma NestedQuotient(x: nat, a: nat, b: nat)
    requires a > 0 && b > 0
    ensures a * b > 0
    ensures x / a / b == x / (a * b)
  {
    var q, r := x / a / b, x / a % b;
    assert a * b > 0 && r * a + x % a < a * b by {
      LargerProduct(r, b, a);
    }
    assert x == q * (a * b) + (r * a + x % a) by {
      Distribute(q * b, r, a);
      Associate(q, b, a);
    }
    QuotientRemainder(x, q, a * b, r * a + x % a);
  }

  lemma Distribute(x: int, y: int, z: int)
    ensures (x + y) * z == x * z + y * z
  {
  }

  lemma Associate(x: int, y: int, z: int)
    ensures x * y * z == x * (y * z)
  {
  }

  /** Euclidean division is unique. */
  lemma QuotientRemainder(x: nat, q: nat, d: nat, r: nat)
    requires x == q * d + r && r < d
    ensures x / d == q && x % d == r
  {
    UniqueQuotient(x / d, x % d, q, r, d);
  }

  lemma UniqueQuotient(q: nat, r: nat, q': nat, r': nat, d: nat)
    requires q * d + r == q' * d + r' && r < d && r' < d
    ensures q == q' && r == r'
  {
    if q < q' {
      LargerProduct(q, q', d);
    } else if q' < q {
      LargerProduct(q', q, d);
    }
  }

  lemma LargerProduct(a: nat, b: nat, d: nat)
    requires a < b
    ensures a * d + d <= b * d
  {
    Distribute(b - a - 1, a + 1, d);
    Distribute(a, 1, d);
    assert (b - a - 1) * d >= 0;
  }
}
