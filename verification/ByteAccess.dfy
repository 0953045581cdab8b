/** Bytes of physical memory: a word is its eight little-endian bytes. */
module ByteAccess {
  import opened Bytes
  import opened Words
  import opened Memory
  import opened Encoding

  /** Byte `k` of a frame. */
  function ByteIn(t: Table, k: nat): Byte
    requires k < 4096
  {
    Digits(t[k / 8], 8)[k % 8]
  }

  function WithByte(t: Table, k: nat, b: Byte): Table
    requires k < 4096
  {
    t[k / 8 := Pack(Digits(t[k / 8], 8)[k % 8 := b])]
  }

  /** Writing a byte changes that byte and no other. */
  lemma ByteWritten(t: Table, k: nat, b: Byte, j: nat)
    requires k < 4096 && j < 4096
    ensures ByteIn(WithByte(t, k, b), j) == if j == k then b else ByteIn(t, j)
  {
    DigitsOfValue(Digits(t[k / 8], 8)[k % 8 := b]);
    if j / 8 == k / 8 && j % 8 == k % 8 {
      assert j == j / 8 * 8 + j % 8;
      assert k == k / 8 * 8 + k % 8;
    }
  }

  /** The byte at a physical address; outside RAM it reads as zero. */
  function PhysicalByte(m: Mem, a: nat): Byte {
    if a / 4096 in m then ByteIn(m[a / 4096], a % 4096) else 0
  }

  function SetPhysicalByte(m: Mem, a: nat, b: Byte): Mem
    requires a / 4096 in m
  {
    m[a / 4096 := WithByte(m[a / 4096], a % 4096, b)]
  }

  lemma PhysicalWritten(m: Mem, a: nat, b: Byte, x: nat)
    requires a / 4096 in m
    ensures PhysicalByte(SetPhysicalByte(m, a, b), x) == if x == a then b else PhysicalByte(m, x)
  {
    ByteWritten(m[a / 4096], a % 4096, b, x % 4096);
    if x / 4096 == a / 4096 && x % 4096 == a % 4096 {
      assert x == x / 4096 * 4096 + x % 4096;
      assert a == a / 4096 * 4096 + a % 4096;
    }
  }

  /** A byte of a frame that has not changed. */
  lemma SameByte(m: Mem, m': Mem, f: nat, k: nat)
    requires k < 4096 && f in m && f in m' && m'[f] == m[f]
    ensures PhysicalByte(m', f * 4096 + k) == PhysicalByte(m, f * 4096 + k)
  {
    QuotientRemainder(f * 4096 + k, f, 4096, k);
  }
}
