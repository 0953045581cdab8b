/** The bit operations of the source, defined digit by digit, and the arithmetic that the
    model writes for them. */
module Masks {
  import opened Words
  import opened Heap
  import opened KernelSetup

  /** `x & y` */
  function And(x: nat, y: nat): nat {
    if x == 0 || y == 0 then 0
    else (if x % 2 == 1 && y % 2 == 1 then 1 else 0) + 2 * And(x / 2, y / 2)
  }

  /** `x | y` */
  function Or(x: nat, y: nat): nat
    decreases x + y
  {
    if x == 0 && y == 0 then 0
    else (if x % 2 == 1 || y % 2 == 1 then 1 else 0) + 2 * Or(x / 2, y / 2)
  }

  function Two(k: nat): (p: nat)
    ensures p > 0
  {
    if k == 0 then 1 else 2 * Two(k - 1)
  }

  // ----- masks in two parts

  lemma AndStep(x: nat, y: nat)
    ensures And(x, y) == (if x % 2 == 1 && y % 2 == 1 then 1 else 0) + 2 * And(x / 2, y / 2)
  {
  }

  lemma OrStep(x: nat, y: nat)
    ensures Or(x, y) == (if x % 2 == 1 || y % 2 == 1 then 1 else 0) + 2 * Or(x / 2, y / 2)
  {
  }

  lemma {:induction false} OrZero(x: nat)
    ensures Or(x, 0) == x && Or(0, x) == x
  {
    if x > 0 {
      OrStep(x, 0);
      OrStep(0, x);
      OrZero(x / 2);
    }
  }

  /** `x` consists of `high`, which counts `p` times, and `low`. */
  predicate Consists(x: nat, high: nat, low: nat, p: nat) { x == high * p + low && low < p }

  /** The lowest digit of a number in two parts. */
  lemma Halve(x: nat, high: nat, low: nat, p: nat, half: nat)
    requires Consists(x, high, low, p) && p == 2 * half
    ensures x % 2 == low % 2 && Consists(x / 2, high, low / 2, half)
  {
    Doubled(high, half, p);
    QuotientRemainder(x, high * half + low / 2, 2, low % 2);
  }

  lemma Doubled(m: nat, half: nat, p: nat)
    requires p == 2 * half
    ensures m * p == 2 * (m * half)
  {
  }

  /** A mask whose high and low parts are applied apart. */
  lemma {:induction false} AndParts(x: nat, a: nat, b: nat, y: nat, h: nat, l: nat, p: nat, k: nat)
    requires p == Two(k) && Consists(x, a, b, p) && Consists(y, h, l, p)
    ensures And(x, y) == And(a, h) * p + And(b, l)
    decreases k
  {
    if k == 0 {
      assert And(b, l) == 0;
    } else {
      var half, j := Two(k - 1), k - 1;
      Halve(x, a, b, p, half);
      Halve(y, h, l, p, half);
      AndStep(x, y);
      AndStep(b, l);
      AndParts(x / 2, a, b / 2, y / 2, h, l / 2, half, j);
      Doubled(And(a, h), half, p);
    }
  }

  lemma {:induction false} OrParts(x: nat, a: nat, b: nat, y: nat, h: nat, l: nat, p: nat, k: nat)
    requires p == Two(k) && Consists(x, a, b, p) && Consists(y, h, l, p)
    ensures Or(x, y) == Or(a, h) * p + Or(b, l)
    decreases k
  {
    if k == 0 {
      assert Or(b, l) == 0;
    } else {
      var half, j := Two(k - 1), k - 1;
      Halve(x, a, b, p, half);
      Halve(y, h, l, p, half);
      OrStep(x, y);
      OrStep(b, l);
      OrParts(x / 2, a, b / 2, y / 2, h, l / 2, half, j);
      Doubled(Or(a, h), half, p);
    }
  }

  /** A mask of ones. */
  lemma {:induction false} AndOnes(x: nat, k: nat)
    requires x < Two(k)
    ensures And(x, Two(k) - 1) == x
    decreases k
  {
    if k > 0 {
      AndStep(x, Two(k) - 1);
      AndOnes(x / 2, k - 1);
      assert (Two(k) - 1) % 2 == 1 && (Two(k) - 1) / 2 == Two(k - 1) - 1;
    }
  }

  /** `x & (2^n - 1)` */
  lemma AndLow(x: nat, a: nat, b: nat, y: nat, p: nat, k: nat)
    requires p == Two(k) && Consists(x, a, b, p) && y == p - 1
    ensures And(x, y) == b
  {
    AndParts(x, a, b, y, 0, y, p, k);
    AndOnes(b, k);
  }

  /** `x & ((2^n - 1) << k)` */
  lemma AndField(x: nat, a: nat, b: nat, p: nat, k: nat, y: nat, c: nat, r: nat, q: nat, n: nat)
    requires p == Two(k) && Consists(x, a, b, p) && q == Two(n) && Consists(a, c, r, q)
    requires Consists(y, q - 1, 0, p)
    ensures And(x, y) == r * p
  {
    AndParts(x, a, b, y, q - 1, 0, p, k);
    AndLow(a, c, r, q - 1, q, n);
  }

  lemma Powers()
    ensures Two(1) == 2 && Two(2) == 4 && Two(7) == 128 && Two(8) == 256 && Two(9) == 512 && Two(12) == 4096
    ensures Two(36) == PAGES && Two(51) == 0x8_0000_0000_0000 && Two(52) == 0x10_0000_0000_0000
  {
    assert Two(6) == 64;
    TwoSum(6, 6);
    TwoSum(12, 12);
    TwoSum(24, 12);
    TwoSum(36, 12);
    assert Two(48) == 0x1_0000_0000_0000;
    assert Two(51) == 8 * Two(48);
  }

  lemma {:induction false} TwoSum(j: nat, k: nat)
    ensures Two(j + k) == Two(j) * Two(k)
    decreases k
  {
    if k > 0 {
      TwoSum(j, k - 1);
      Doubled(Two(j), Two(k - 1), Two(k));
    }
  }

  // ----- the masks of the page tables

  /** `w & PAGE_PRESENT` and `w & PAGE_PSE` */
  lemma TestedBits(w: Word)
    ensures Present(w) <==> And(w, 0x1) != 0
    ensures Large(w) <==> And(w, 0x80) != 0
  {
    Powers();
    AndLow(w, w / 2, w % 2, 1, 2, 1);
    AndField(w, w / 128, w % 128, 128, 7, 0x80, w / 128 / 2, w / 128 % 2, 2, 1);
  }

  /** `w & ADDR_MASK` */
  lemma AddressBits(w: Word)
    ensures And(w, 0x0000_FFFF_FFFF_F000) == FrameOf(w) * 4096
  {
    Powers();
    var page := w / 4096;
    AndField(w, page, w % 4096, 4096, 12, 0x0000_FFFF_FFFF_F000, page / PAGES, page % PAGES, PAGES, 36);
  }

  /** `w & FLAGS_MASK` */
  lemma FlagBits(w: Word)
    ensures And(w, 0x8000_0000_0000_0FFF) == Flags(w)
  {
    Powers();
    var half := 0x8_0000_0000_0000;
    var page, low, top := w / 4096, w % 4096, if NoExecute(w) then 1 else 0;
    AndParts(w, page, low, 0x8000_0000_0000_0FFF, half, 0xFFF, 4096, 12);
    AndLow(low, 0, low, 0xFFF, 4096, 12);
    AndField(page, top, page - top * half, half, 51, half, 0, top, 2, 1);
  }

  /** `w & ~0xFFF` in 64 bits */
  lemma PageBits(w: Word)
    ensures And(w, 0xFFFF_FFFF_FFFF_F000) == w / 4096 * 4096
  {
    Powers();
    var page := w / 4096;
    AndField(w, page, w % 4096, 4096, 12, 0xFFFF_FFFF_FFFF_F000, 0, page, 0x10_0000_0000_0000, 52);
  }

  /** `(va >> s) & 0x1FF` for the shifted address */
  lemma IndexBits(x: nat)
    ensures And(x, 0x1FF) == x % 512
  {
    Powers();
    AndLow(x, x / 512, x % 512, 0x1FF, 512, 9);
  }

  /** `w | PAGE_PRESENT | PAGE_RW` */
  lemma TableBits(w: Word)
    ensures Or(Or(w, 0x1), 0x2) == w / 4 * 4 + 3 == OrPresentRw(w)
  {
    Powers();
    OrZero(w / 4);
    OrParts(w, w / 4, w % 4, 1, 0, 1, 4, 2);
    SmallOr(w % 4);
    OrParts(Or(w, 1), w / 4, Or(w % 4, 1), 2, 0, 2, 4, 2);
    LowPart(w);
  }

  lemma LowPart(w: Word)
    ensures w / 4 * 4 + 3 == OrPresentRw(w)
  {
    var page, rest := w / 4096, w % 4096;
    assert w == page * 4096 + rest && rest == rest / 4 * 4 + rest % 4;
    QuotientRemainder(w, page * 1024 + rest / 4, 4, rest % 4);
  }

  lemma SmallOr(b: nat)
    requires b < 4
    ensures Or(b, 1) < 4 && Or(Or(b, 1), 2) == 3
  {
    OrStep(b, 1);
    OrStep(Or(b, 1), 2);
    OrStep(Or(b, 1) / 2, 1);
  }

  /** `w | PAGE_PRESENT | PAGE_RW | PAGE_PSE` */
  lemma LargeBits(w: Word)
    ensures Or(Or(Or(w, 0x1), 0x2), 0x80) == w / 256 * 256 + 128 + w % 128 / 4 * 4 + 3 == OrLarge(w)
  {
    Powers();
    TableBits(w);
    var t := OrPresentRw(w);
    OrZero(t % 128);
    OrZero(t / 128 / 2);
    OrParts(t, t / 128, t % 128, 128, 1, 0, 128, 7);
    OrStep(t / 128, 1);
    LargeParts(w, t);
  }

  lemma LargeParts(w: Word, t: Word)
    requires t == w / 4 * 4 + 3
    ensures (t / 128 / 2 * 2 + 1) * 128 + t % 128 == w / 256 * 256 + 128 + w % 128 / 4 * 4 + 3 == OrLarge(w)
  {
    var high, bit, low, last := w / 256, w % 256 / 128, w % 128 / 4, w % 4;
    LargeSplit(w, high, bit, low, last);
    QuotientRemainder(t, high * 2 + bit, 128, low * 4 + 3);
    QuotientRemainder(high * 2 + bit, high, 2, bit);
    QuotientRemainder(w, w / 4096 * 16 + w % 4096 / 256, 256, w % 256);
  }

  lemma LargeSplit(w: Word, high: nat, bit: nat, low: nat, last: nat)
    requires high == w / 256 && bit == w % 256 / 128 && low == w % 128 / 4 && last == w % 4
    ensures w == high * 256 + bit * 128 + low * 4 + last && bit < 2 && low < 32 && w / 4 == high * 64 + bit * 32 + low
  {
    var m := w % 256;
    assert m == bit * 128 + m % 128;
    QuotientRemainder(w, high * 2 + bit, 128, m % 128);
    QuotientRemainder(w, high * 64 + bit * 32 + low, 4, w % 128 % 4);
  }

  /** `phys | flags` */
  lemma FlagsJoined(c: nat, w: Word)
    requires c < PAGES
    ensures Or(c * 4096, Flags(w)) == WithFlags(c * 4096, w)
  {
    Powers();
    var top := if NoExecute(w) then 1 else 0;
    var half := 0x8_0000_0000_0000;
    OrZero(w % 4096);
    OrZero(c);
    OrZero(top);
    OrParts(c * 4096, c, 0, Flags(w), top * half, w % 4096, 4096, 12);
    OrParts(c, 0, c, top * half, top, 0, half, 51);
    assert w / 0x8000_0000_0000_0000 == top;
  }

  /** `x & ~(align - 1)` in 64 bits */
  lemma AlignedBits(x: Word, align: Align)
    ensures And(x, TWO64 - align) == Truncate(x, align)
  {
    var k := AlignIs(align);
    AlignFits(k);
    var q := Two(64 - k);
    SixtyFour();
    TwoSum(64 - k, k);
    AlignedMask(align, q);
    AlignedParts(x, align, q, x / align, x % align);
    AndField(x, x / align, x % align, align, k, TWO64 - align, 0, x / align, q, 64 - k);
  }

  lemma AlignedMask(p: nat, q: nat)
    requires q > 0 && p > 0 && q * p == TWO64
    ensures p <= TWO64 && Consists(TWO64 - p, q - 1, 0, p)
  {
    Distribute(q - 1, 1, p);
  }

  lemma SixtyFour()
    ensures Two(64) == TWO64
  {
    Powers();
    TwoSum(52, 12);
  }

  lemma AlignedParts(x: nat, d: nat, n: nat, a: nat, b: nat)
    requires d > 0 && n * d == TWO64 && x < TWO64 && a == x / d && b == x % d
    ensures Consists(x, a, b, d) && Consists(a, 0, a, n)
  {
    assert x == x / d * d + x % d;
    if n < a {
      LargerProduct(n, a, d);
    }
  }

  lemma {:induction false} AlignIs(a: nat) returns (k: nat)
    requires PowerOfTwo(a)
    ensures a == Two(k)
  {
    if a == 1 {
      k := 0;
    } else {
      var j := AlignIs(a / 2);
      k := j + 1;
    }
  }

  lemma AlignFits(k: nat)
    requires Two(k) < TWO64
    ensures k < 64
  {
    SixtyFour();
    if k >= 64 {
      TwoGrows(64, k);
    }
  }

  lemma {:induction false} TwoGrows(j: nat, k: nat)
    requires j <= k
    ensures Two(j) <= Two(k)
    decreases k
  {
    if j < k {
      TwoGrows(j, k - 1);
    }
  }
}
