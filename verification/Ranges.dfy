/** Runs of consecutive pages as the mapper's loops visit them. */
module Ranges {
  import opened Words
  import opened Memory

  /** Page `i` of a run that starts at address `a`; page numbers wrap at 48 bits. */
  function PageAt(a: Word, i: nat): (p: nat)
    ensures p < PAGES
  {
    (a / 4096 + i) % PAGES
  }

  /** The flat page map after `n` updates: page `v + i` goes to frame `f + i`, the
      last update of a page counts, and all other pages keep `before`. */
  function Remapped(q: nat, virt: Word, phys: Word, n: nat, before: Option<nat>): Option<nat> {
    if n == 0 then before
    else if PageAt(virt, n - 1) == q then Some(PageAt(phys, n - 1))
    else Remapped(q, virt, phys, n - 1, before)
  }

  /** The flat page map after `n` removals. */
  function Removed(q: nat, virt: Word, n: nat, before: Option<nat>): Option<nat> {
    if n == 0 then before
    else if PageAt(virt, n - 1) == q then None
    else Removed(q, virt, n - 1, before)
  }

  /** Without wrap-around the updates are one block. */
  lemma {:induction false} RemappedBlock(q: nat, virt: Word, phys: Word, n: nat, before: Option<nat>)
    requires virt / 4096 % PAGES + n <= PAGES && q < PAGES
    ensures var v := virt / 4096 % PAGES;
      Remapped(q, virt, phys, n, before) == if v <= q < v + n then Some(PageAt(phys, q - v)) else before
  {
    if n > 0 {
      PageAtOffset(virt, n - 1);
      RemappedBlock(q, virt, phys, n - 1, before);
    }
  }

  lemma PageAtOffset(a: Word, i: nat)
    requires a / 4096 % PAGES + i < PAGES
    ensures PageAt(a, i) == a / 4096 % PAGES + i
  {
  }

  /** Mapping a run and then removing it leaves every page outside the run as it
      was, and the run itself unmapped. */
  lemma {:induction false} RemovedCovers(q: nat, virt: Word, phys: Word, n: nat, before: Option<nat>)
    ensures Removed(q, virt, n, Remapped(q, virt, phys, n, before)) == Removed(q, virt, n, before)
  {
    RemovedIgnores(q, virt, phys, n, n, before);
  }

  lemma {:induction false} RemovedIgnores(q: nat, virt: Word, phys: Word, n: nat, k: nat, before: Option<nat>)
    requires k <= n
    ensures Removed(q, virt, n, Remapped(q, virt, phys, k, before)) == Removed(q, virt, n, before)
    decreases k
  {
    if k > 0 {
      if PageAt(virt, k - 1) == q {
        RemovedHit(q, virt, n, k - 1, Some(PageAt(phys, k - 1)));
        RemovedHit(q, virt, n, k - 1, before);
      } else {
        RemovedIgnores(q, virt, phys, n, k - 1, before);
      }
    }
  }

  lemma {:induction false} RemovedHit(q: nat, virt: Word, n: nat, i: nat, before: Option<nat>)
    requires i < n && PageAt(virt, i) == q
    ensures Removed(q, virt, n, before) == None
    decreases n
  {
    if i < n - 1 {
      RemovedHit(q, virt, n - 1, i, before);
    }
  }

  /** A page that was unmapped stays so under removal. */
  lemma {:induction false} RemovedHole(q: nat, virt: Word, n: nat)
    ensures Removed(q, virt, n, None) == None
  {
    if n > 0 {
      RemovedHole(q, virt, n - 1);
    }
  }

  lemma {:induction false} RemovedMiss(q: nat, virt: Word, n: nat, before: Option<nat>)
    requires forall i: nat | i < n :: PageAt(virt, i) != q
    ensures Removed(q, virt, n, before) == before
  {
    if n > 0 {
      RemovedMiss(q, virt, n - 1, before);
    }
  }

  lemma {:induction false} RemappedMiss(q: nat, virt: Word, phys: Word, n: nat, before: Option<nat>)
    requires forall i: nat | i < n :: PageAt(virt, i) != q
    ensures Remapped(q, virt, phys, n, before) == before
  {
    if n > 0 {
      RemappedMiss(q, virt, phys, n - 1, before);
    }
  }

  /** The loops' address arithmetic modulo 2^64 visits the pages in order. */
  lemma PageOfStep(a: Word, i: nat)
    ensures PageOf(Add64(a, i * 4096)) == PageAt(a, i)
  {
    var s, r := a / 4096 + i, a % 4096;
    var k, m := s / 0x10_0000_0000_0000, s % 0x10_0000_0000_0000;
    assert a + i * 4096 == k * TWO64 + (m * 4096 + r);
    QuotientRemainder(a + i * 4096, k, TWO64, m * 4096 + r);
    QuotientRemainder(m * 4096 + r, m, 4096, r);
    var h := m / PAGES;
    QuotientRemainder(s, k * 0x1_0000 + h, PAGES, m % PAGES);
  }

  /** `x & ~0xFFF` keeps the page. */
  lemma PageOfTruncated(x: Word)
    ensures PageOf(x - x % 4096) == PageOf(x)
  {
  }

  // ----- how many tables a run can need

  function Starts(u: nat, span: nat): nat
    requires span > 0
  {
    if u % span == 0 then 1 else 0
  }

  /** The number of regions of `span` pages that pages `v` to `v + n` touch. */
  function Spans(v: nat, n: nat, span: nat): nat
    requires span > 0
  {
    if n == 0 then 0
    else SpansPositive(v, n, span); (v + n - 1) / span - v / span + 1
  }

  lemma SpansPositive(v: nat, n: nat, span: nat)
    requires span > 0 && n > 0
    ensures (v + n - 1) / span >= v / span
  {
    if (v + n - 1) / span < v / span {
      LargerProduct((v + n - 1) / span, v / span, span);
    }
  }

  /** The distinct 2 MiB, 1 GiB and 512 GiB regions that a run touches. */
  function Touched(a: Word, n: nat): nat {
    Spans(a / 4096, n, 0x200) + Spans(a / 4096, n, 0x4_0000) + Spans(a / 4096, n, 0x800_0000)
  }

  /** The regions that page `n` of the run opens. */
  function Opened(a: Word, n: nat): nat {
    if n == 0 then 3
    else Starts(a / 4096 + n, 0x200) + Starts(a / 4096 + n, 0x4_0000) + Starts(a / 4096 + n, 0x800_0000)
  }

  lemma NextQuotient(u: nat, span: nat)
    requires span > 0
    ensures (u + 1) / span == u / span + Starts(u + 1, span)
  {
    var q, r := u / span, u % span;
    if r + 1 < span {
      QuotientRemainder(u + 1, q, span, r + 1);
    } else {
      assert u + 1 == (q + 1) * span;
      QuotientRemainder(u + 1, q + 1, span, 0);
    }
  }

  lemma SpansStep(v: nat, n: nat, span: nat)
    requires span > 0
    ensures Spans(v, n + 1, span) == Spans(v, n, span) + if n == 0 then 1 else Starts(v + n, span)
  {
    if n > 0 {
      NextQuotient(v + n - 1, span);
    }
  }

  lemma TouchedStep(a: Word, n: nat)
    ensures Touched(a, n + 1) == Touched(a, n) + Opened(a, n)
  {
    SpansStep(a / 4096, n, 0x200);
    SpansStep(a / 4096, n, 0x4_0000);
    SpansStep(a / 4096, n, 0x800_0000);
  }

  lemma {:induction false} TouchedGrows(a: Word, i: nat, n: nat)
    requires i <= n
    ensures Touched(a, i) <= Touched(a, n)
    decreases n
  {
    if i < n {
      TouchedStep(a, n - 1);
      TouchedGrows(a, i, n - 1);
    }
  }

  /** Two consecutive pages share every region that the second one does not open. */
  lemma SharedRegion(a: Word, n: nat, level: Level)
    requires n > 0 && level > 0
    requires (a / 4096 + n) % (if level == 1 then 0x200 else if level == 2 then 0x4_0000 else 0x800_0000) != 0
    ensures Region(PageAt(a, n), level) == Region(PageAt(a, n - 1), level)
  {
    var u := a / 4096 + n;
    if level == 1 {
      SameQuotient(u, 0x200, 0x800_0000, PAGES);
    } else if level == 2 {
      SameQuotient(u, 0x4_0000, 0x4_0000, PAGES);
    } else {
      SameQuotient(u, 0x800_0000, 0x200, PAGES);
    }
  }

  lemma SameQuotient(u: nat, span: nat, spans: nat, total: nat)
    requires span > 0 && total > 0 && span * spans == total && u > 0 && u % span != 0
    ensures u % total / span == (u - 1) % total / span
  {
    var h, r := u / total, u % total;
    NestedRemainder(u, span, spans, total);
    assert r > 0;
    QuotientRemainder(u - 1, h, total, r - 1);
    NextQuotient(r - 1, span);
  }

  lemma NestedRemainder(u: nat, span: nat, spans: nat, total: nat)
    requires span > 0 && total > 0 && span * spans == total
    ensures u % total % span == u % span
  {
    var h, r := u / total, u % total;
    Regroup(h, spans, span, r / span, r % span);
    QuotientRemainder(u, h * spans + r / span, span, r % span);
  }

  lemma Regroup(h: nat, spans: nat, span: nat, a: nat, b: nat)
    ensures h * (span * spans) + (a * span + b) == (h * spans + a) * span + b
  {
  }
}
