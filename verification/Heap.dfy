/** The bump allocator of the kernel and of the bootloader. */
module Heap {
  import opened Words
  import opened Memory
  import opened Windows

  /** `heap_base`, `heap_size` and `heap_offset`. */
  datatype Heap = Heap(base: Word, size: Word, offset: Word) {
    function Top(): nat { base + offset }
  }

  predicate PowerOfTwo(a: nat) {
    a == 1 || (a > 1 && a % 2 == 0 && PowerOfTwo(a / 2))
  }

  type Align = a: Word | 0 < a && PowerOfTwo(a) witness 1

  datatype Request = Request(size: Word, align: Align)

  /** `x & ~(align - 1)` for a power of two. */
  function Truncate(x: Word, align: Align): (r: Word) {
    x - x % align
  }

  function AlignedTop(h: Heap, align: Align): Word {
    Truncate(Add64(Add64(h.base, h.offset), align - 1), align)
  }

  /** The value of `heap_offset` that `kmalloc` tests and then stores. */
  function NextOffset(h: Heap, r: Request): Word {
    Add64(Sub64(AlignedTop(h, r.align), h.base), r.size)
  }

  function Allocate(h: Heap, r: Request): (Heap, Option<Word>) {
    if NextOffset(h, r) >= h.size then (h, None)
    else (h.(offset := NextOffset(h, r)), Some(AlignedTop(h, r.align)))
  }

  /** No address of the request exceeds 64 bits. */
  predicate NoOverflow(h: Heap, r: Request) {
    h.base + h.size + r.align + r.size <= TWO64 && h.offset <= h.size
  }

  /** Truncation of `top + align - 1` is the least aligned address from `top` on. */
  lemma LeastAligned(top: nat, align: nat, a: nat)
    requires align > 0 && a == top + align - 1 - (top + align - 1) % align
    ensures a % align == 0 && top <= a < top + align
    ensures forall b: nat | top <= b && b % align == 0 :: a <= b
  {
    var x := top + align - 1;
    var q, r := x / align, x % align;
    assert a == q * align;
    QuotientRemainder(a, q, align, 0);
    forall b: nat | top <= b && b % align == 0
      ensures a <= b
    {
      var k := b / align;
      assert b == k * align;
      if k < q {
        LargerProduct(k, q, align);
      } else if q < k {
        LargerProduct(q, k, align);
      }
    }
  }

  lemma AddsWithoutWrap(a: nat, b: nat)
    requires a + b < TWO64
    ensures Add64(a, b) == a + b
  {
  }

  lemma SubtractsWithoutWrap(a: Word, b: Word)
    requires b <= a
    ensures Sub64(a, b) == a - b
  {
  }

  /** One call: the block is the least aligned one above the top, it lies inside
      the heap, and the call fails exactly when that block does not fit. */
  lemma AllocateBlock(h: Heap, r: Request)
    requires NoOverflow(h, r)
    ensures var a := AlignedTop(h, r.align);
      && a % r.align == 0 && h.Top() <= a
      && (forall b: nat | h.Top() <= b && b % r.align == 0 :: a <= b)
      && (Allocate(h, r) == if a + r.size < h.base + h.size
                            then (h.(offset := a + r.size - h.base), Some(a)) else (h, None))
  {
    var x := h.Top() + r.align - 1;
    AddsWithoutWrap(h.base, h.offset);
    AddsWithoutWrap(h.Top(), r.align - 1);
    var a := AlignedTop(h, r.align);
    LeastAligned(h.Top(), r.align, a);
    SubtractsWithoutWrap(a, h.base);
    AddsWithoutWrap(a - h.base, r.size);
  }

  /** All blocks handed out by a sequence of calls. */
  function Run(h: Heap, rs: seq<Request>): (blocks: seq<Option<Word>>)
    ensures |blocks| == |rs|
    decreases |rs|
  {
    if rs == [] then [] else
      var (h', b) := Allocate(h, rs[0]);
      [b] + Run(h', rs[1..])
  }

  lemma RunStep(h: Heap, rs: seq<Request>, i: nat)
    requires (forall r | r in rs :: NoOverflow(h, r)) && 0 < i < |rs|
    ensures var h' := Allocate(h, rs[0]).0;
      && Run(h, rs)[i] == Run(h', rs[1..])[i - 1] && rs[i] == rs[1..][i - 1]
      && h.Top() <= h'.Top() && h'.base == h.base && h'.size == h.size
      && forall r | r in rs[1..] :: NoOverflow(h', r)
  {
    AllocateBlock(h, rs[0]);
    var h' := Allocate(h, rs[0]).0;
    forall r | r in rs[1..]
      ensures NoOverflow(h', r)
    {
      assert NoOverflow(h, r);
    }
  }

  /** In every run a block is aligned, inside the heap and above the initial top. */
  lemma {:induction false} RunBlock(h: Heap, rs: seq<Request>, i: nat)
    requires forall r | r in rs :: NoOverflow(h, r)
    requires i < |rs| && Run(h, rs)[i].Some?
    ensures var a := Run(h, rs)[i].value;
      h.Top() <= a && a % rs[i].align == 0 && a + rs[i].size < h.base + h.size
    decreases i
  {
    AllocateBlock(h, rs[0]);
    if i > 0 {
      RunStep(h, rs, i);
      RunBlock(Allocate(h, rs[0]).0, rs[1..], i - 1);
    }
  }

  /** In every run a block ends before each later one starts. */
  lemma {:induction false} RunDisjoint(h: Heap, rs: seq<Request>, i: nat, j: nat)
    requires forall r | r in rs :: NoOverflow(h, r)
    requires i < j < |rs|
    requires Run(h, rs)[i].Some? && Run(h, rs)[j].Some?
    ensures Run(h, rs)[i].value + rs[i].size <= Run(h, rs)[j].value
    decreases i
  {
    AllocateBlock(h, rs[0]);
    RunStep(h, rs, j);
    var h' := Allocate(h, rs[0]).0;
    if i == 0 {
      RunBlock(h', rs[1..], j - 1);
    } else {
      RunStep(h, rs, i);
      RunDisjoint(h', rs[1..], i - 1, j - 1);
    }
  }

  /** For any request a successful call keeps its block inside a heap that lies at a
      positive address exactly when neither the rounding nor the sum in `next_offset`
      wraps around. */
  lemma InsideUnlessWrapped(h: Heap, r: Request)
    requires 0 < h.base && h.base + h.size <= TWO64 && h.offset <= h.size
    requires Allocate(h, r).1.Some?
    ensures var a := AlignedTop(h, r.align);
      h.base <= a && a + r.size <= h.base + h.size
      <==> h.Top() + (r.align - 1) < TWO64 && a - h.base + r.size < TWO64
  {
    var a := AlignedTop(h, r.align);
    if h.Top() + (r.align - 1) < TWO64 {
      RoundsUp(h, r.align);
      SubtractsWithoutWrap(a, h.base);
      if a - h.base + r.size < TWO64 {
        AddsWithoutWrap(a - h.base, r.size);
      }
    } else {
      RoundsToZero(h, r.align);
    }
  }

  lemma RoundsUp(h: Heap, align: Align)
    requires h.Top() + (align - 1) < TWO64
    ensures h.Top() <= AlignedTop(h, align)
  {
    AddsWithoutWrap(h.base, h.offset);
    AddsWithoutWrap(h.Top(), align - 1);
    LeastAligned(h.Top(), align, AlignedTop(h, align));
  }

  /** Rounding past the last address gives the null address. */
  lemma RoundsToZero(h: Heap, align: Align)
    requires h.Top() <= TWO64 <= h.Top() + (align - 1)
    ensures AlignedTop(h, align) == 0
  {
    var x := Add64(Add64(h.base, h.offset), align - 1);
    if h.Top() < TWO64 {
      AddsWithoutWrap(h.base, h.offset);
      QuotientRemainder(h.Top() + (align - 1), 1, TWO64, h.Top() + (align - 1) - TWO64);
    } else {
      QuotientRemainder(h.Top(), 1, TWO64, 0);
      AddsWithoutWrap(0, align - 1);
    }
    QuotientRemainder(x, 0, align, x);
  }

  // ----- page tables on the heap

  const TABLE := Request(4096, 4096)

  /** The heap lies in the window; `phys` is its physical start. */
  ghost predicate HeapPlaced(h: Heap, win: Window, phys: nat) {
    && h.base == Add64(phys, win.Offset()) && 0 < h.base && win.Offset() < TWO64
    && NoOverflow(h, TABLE)
    && win.lo * 4096 <= phys && phys + h.size <= win.hi * 4096 && win.hi <= PAGES
  }

  /** The first frame that no block reaches. */
  function FreeFrame(h: Heap, phys: nat): nat { (phys + h.offset + 4095) / 4096 }

  /** `k` more tables fit, alignment slack included. */
  predicate RoomFor(h: Heap, phys: nat, k: nat) {
    k == 0 || FreeFrame(h, phys) * 4096 + k * 4096 < phys + h.size
  }

  /** `k` pages and the alignment slack are enough for `k` tables. */
  lemma EnoughBytes(h: Heap, phys: nat, k: nat)
    requires h.offset + 4095 + k * 4096 < h.size
    ensures RoomFor(h, phys, k)
  {
  }

  /** A table is allocated at the first free frame, and fails only without room. */
  lemma AllocateTable(h: Heap, win: Window, phys: nat)
    requires HeapPlaced(h, win, phys)
    ensures var f := FreeFrame(h, phys);
      if RoomFor(h, phys, 1) then
        && Allocate(h, TABLE) == (h.(offset := f * 4096 + 4096 - phys), Some(Pointer64(win, f)))
        && win.lo <= f < win.hi && Pointer64(win, f) > 0
        && FreeFrame(Allocate(h, TABLE).0, phys) == f + 1
        && HeapPlaced(Allocate(h, TABLE).0, win, phys)
      else Allocate(h, TABLE) == (h, None)
  {
    var f := FreeFrame(h, phys);
    TableBlock(h);
    FreeAddress(h, win, phys);
    TableInWindow(h, win, phys);
    if RoomFor(h, phys, 1) {
      FreeMoves(h, phys, f);
    }
  }

  /** `AllocateBlock` for a table. */
  lemma TableBlock(h: Heap)
    requires NoOverflow(h, TABLE)
    ensures h.Top() <= AlignedTop(h, 4096)
    ensures Allocate(h, TABLE) == if AlignedTop(h, 4096) + 4096 < h.base + h.size
                                  then (h.(offset := AlignedTop(h, 4096) + 4096 - h.base), Some(AlignedTop(h, 4096)))
                                  else (h, None)
  {
    AllocateBlock(h, TABLE);
  }

  lemma TableInWindow(h: Heap, win: Window, phys: nat)
    requires HeapPlaced(h, win, phys)
    ensures win.lo <= FreeFrame(h, phys) && (RoomFor(h, phys, 1) ==> FreeFrame(h, phys) < win.hi)
    ensures h.offset <= FreeFrame(h, phys) * 4096 - phys
  {
  }

  /** The next free frame lies behind the table. */
  lemma FreeMoves(h: Heap, phys: nat, f: nat)
    requires f * 4096 + 4096 - phys >= 0 && f * 4096 + 4096 - phys < TWO64
    ensures FreeFrame(h.(offset := f * 4096 + 4096 - phys), phys) == f + 1
  {
    QuotientRemainder(f * 4096 + 4096 + 4095, f + 1, 4096, 4095);
  }

  /** The first free frame is where the next table goes. */
  lemma FreeAddress(h: Heap, win: Window, phys: nat)
    requires HeapPlaced(h, win, phys)
    ensures AlignedTop(h, 4096) == Pointer64(win, FreeFrame(h, phys))
    ensures AlignedTop(h, 4096) - h.base == FreeFrame(h, phys) * 4096 - phys
  {
    var f := FreeFrame(h, phys);
    PointerValue(win, f);
    TopSum(h);
    TopFrame(h, win, phys);
  }

  /** Rounding the top up in the linear window rounds its physical place up. */
  lemma TopFrame(h: Heap, win: Window, phys: nat)
    requires HeapPlaced(h, win, phys)
    ensures var f, x := FreeFrame(h, phys), h.Top() + 4095;
      x - x % 4096 == h.base + f * 4096 - phys
      && (phys + win.Offset() < TWO64 ==> h.base == phys + win.shift * 4096)
      && (phys + win.Offset() >= TWO64 ==> h.base == phys + win.shift * 4096 - TWO64)
  {
    var f := FreeFrame(h, phys);
    var r := (phys + h.offset + 4095) % 4096;
    var q := if phys + win.Offset() < TWO64 then f + win.shift else f + win.shift - 0x10_0000_0000_0000;
    HeapBase(h, win, phys);
    AlignedAt(h.Top() + 4095, q, r);
  }

  lemma HeapBase(h: Heap, win: Window, phys: nat)
    requires HeapPlaced(h, win, phys)
    ensures h.base == if phys + win.Offset() < TWO64 then phys + win.Offset() else phys + win.Offset() - TWO64
  {
    if phys + win.Offset() < TWO64 {
      AddsWithoutWrap(phys, win.Offset());
    } else {
      QuotientRemainder(phys + win.Offset(), 1, TWO64, phys + win.Offset() - TWO64);
    }
  }

  lemma TopSum(h: Heap)
    requires NoOverflow(h, TABLE)
    ensures Add64(Add64(h.base, h.offset), 4095) == h.Top() + 4095
  {
    AddsWithoutWrap(h.base, h.offset);
    AddsWithoutWrap(h.Top(), 4095);
  }

  lemma AlignedAt(x: nat, q: nat, r: nat)
    requires x == q * 4096 + r && r < 4096
    ensures x - x % 4096 == q * 4096
  {
  }
}
