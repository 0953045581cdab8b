/** Little-endian numbers and packed structures: the fields one after the other, each in
    its width. */
module Encoding {
  import opened Bytes
  import opened Words

  /** The `n` lowest base-256 digits of a number. */
  function Digits(w: nat, n: nat): (s: seq<Byte>)
    ensures |s| == n
  {
    if n == 0 then [] else [w % 256] + Digits(w / 256, n - 1)
  }

  function Value(s: seq<Byte>): nat {
    if s == [] then 0
    else
      var low: nat := s[0];
      low + 256 * Value(s[1..])
  }

  function Power(n: nat): (p: nat)
    ensures p > 0
  {
    if n == 0 then 1 else 256 * Power(n - 1)
  }

  lemma {:induction false} ValueBound(s: seq<Byte>)
    ensures Value(s) < Power(|s|)
  {
    if s != [] {
      ValueBound(s[1..]);
    }
  }

  /** Eight bytes make a word. */
  function Pack(s: seq<Byte>): Word
    requires |s| == 8
  {
    ValueBound(s);
    assert Power(8) == TWO64 by {
      assert Power(4) == 0x1_0000_0000;
    }
    Value(s)
  }

  lemma {:induction false} DigitsOfValue(s: seq<Byte>)
    ensures Digits(Value(s), |s|) == s
  {
    if s != [] {
      var low: nat := s[0];
      QuotientRemainder(Value(s), Value(s[1..]), 256, low);
      DigitsOfValue(s[1..]);
    }
  }

  /** Digit `k` is the one of weight 256 to the power of `k`. */
  lemma {:induction false} DigitAt(w: nat, n: nat, k: nat)
    requires k < n
    ensures Digits(w, n)[k] == w / Power(k) % 256
    decreases k
  {
    if k > 0 {
      DigitAt(w / 256, n - 1, k - 1);
      NestedQuotient(w, 256, Power(k - 1));
    }
  }

  /** The number that two bytes hold. */
  lemma Le16Of(s: seq<Byte>, i: nat, x: nat)
    requires i + 2 <= |s| && x < 0x1_0000 && s[i..i + 2] == Digits(x, 2)
    ensures Le16(s, i) == x
  {
    assert s[i] == s[i..i + 2][0] && s[i + 1] == s[i..i + 2][1];
    assert Digits(x, 2)[1] == Digits(x / 256, 1)[0];
  }

  /** A number in two parts: the low one comes first. */
  lemma {:induction false} Halves(q: nat, r: nat, m: nat, n: nat)
    requires r < Power(m)
    ensures Digits(q * Power(m) + r, m + n) == Digits(r, m) + Digits(q, n)
    decreases m
  {
    if m > 0 {
      var p := Power(m - 1);
      var w := q * Power(m) + r;
      assert w == (q * p) * 256 + r by {
        Associate(q, p, 256);
      }
      QuotientRemainder(w, q * p + r / 256, 256, r % 256);
      Halves(q, r / 256, m - 1, n);
      assert Digits(w, m + n) == [w % 256] + Digits(w / 256, m - 1 + n);
    }
  }

  lemma Le32Of(s: seq<Byte>, i: nat, x: nat)
    requires i + 4 <= |s| && x < 0x1_0000_0000 && s[i..i + 4] == Digits(x, 4)
    ensures Le32(s, i) == x
  {
    assert Power(2) == 0x1_0000;
    Halves(x / 0x1_0000, x % 0x1_0000, 2, 2);
    HalfOf(s, i, 2, Digits(x % 0x1_0000, 2), Digits(x / 0x1_0000, 2));
    Le16Of(s, i, x % 0x1_0000);
    Le16Of(s, i + 2, x / 0x1_0000);
  }

  lemma Le64Of(s: seq<Byte>, i: nat, x: nat)
    requires i + 8 <= |s| && x < TWO64 && s[i..i + 8] == Digits(x, 8)
    ensures Le64(s, i) == x
  {
    assert Power(4) == 0x1_0000_0000;
    Halves(x / 0x1_0000_0000, x % 0x1_0000_0000, 4, 4);
    HalfOf(s, i, 4, Digits(x % 0x1_0000_0000, 4), Digits(x / 0x1_0000_0000, 4));
    Le32Of(s, i, x % 0x1_0000_0000);
    Le32Of(s, i + 4, x / 0x1_0000_0000);
  }

  lemma HalfOf(s: seq<Byte>, i: nat, n: nat, low: seq<Byte>, high: seq<Byte>)
    requires i + 2 * n <= |s| && |low| == |high| == n && s[i..i + 2 * n] == low + high
    ensures s[i..i + n] == low && s[i + n..i + n + n] == high
  {
    var all := s[i..i + 2 * n];
    assert s[i..i + n] == all[..n] && s[i + n..i + n + n] == all[n..];
  }

  // ----- structures

  datatype Field = Number(value: nat, width: nat) | Raw(bytes: seq<Byte>)
  {
    function Width(): nat { if Number? then width else |bytes| }

    function Bytes(): (s: seq<Byte>)
      ensures |s| == Width()
    {
      if Number? then Digits(value, width) else bytes
    }
  }

  /** Where field `n` begins. */
  function FieldStart(fields: seq<Field>, n: nat): nat
    requires n <= |fields|
  {
    if n == 0 then 0 else FieldStart(fields, n - 1) + fields[n - 1].Width()
  }

  /** The first `n` fields. */
  function Laid(fields: seq<Field>, n: nat): (s: seq<Byte>)
    requires n <= |fields|
    ensures |s| == FieldStart(fields, n)
  {
    if n == 0 then [] else Laid(fields, n - 1) + fields[n - 1].Bytes()
  }

  /** A packed structure. */
  function StructBytes(fields: seq<Field>): (s: seq<Byte>)
    ensures |s| == FieldStart(fields, |fields|)
  {
    Laid(fields, |fields|)
  }

  lemma FrontSlice(front: seq<Byte>, back: seq<Byte>, i: nat, j: nat)
    requires i <= j <= |front|
    ensures (front + back)[i..j] == front[i..j]
  {
  }

  lemma BackSlice(front: seq<Byte>, back: seq<Byte>, i: nat, j: nat)
    requires i == |front| && j == i + |back|
    ensures (front + back)[i..j] == back
  {
  }

  lemma {:induction false} FieldAt(fields: seq<Field>, n: nat, k: nat)
    requires k < n <= |fields|
    ensures FieldStart(fields, k) + fields[k].Width() == FieldStart(fields, k + 1) <= FieldStart(fields, n)
    ensures Laid(fields, n)[FieldStart(fields, k)..FieldStart(fields, k + 1)] == fields[k].Bytes()
    decreases n
  {
    var m := n - 1;
    if k < m {
      FieldAt(fields, m, k);
      FrontSlice(Laid(fields, m), fields[m].Bytes(), FieldStart(fields, k), FieldStart(fields, k + 1));
    } else {
      BackSlice(Laid(fields, m), fields[m].Bytes(), FieldStart(fields, m), FieldStart(fields, n));
    }
  }
}
