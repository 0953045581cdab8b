/** Physical memory as 4 KiB frames of 512 words. */
module Memory {
  import opened Words

  datatype Option<+T> = None | Some(value: T)

  type Table = t: seq<Word> | |t| == 512 witness seq(512, _ => 0)
  type Mem = map<nat, Table>

  /** A word of a frame; frames outside RAM read as zero. */
  function Entry(m: Mem, f: nat, i: nat): Word
    requires i < 512
  {
    if f in m then m[f][i] else 0
  }

  function SetEntry(m: Mem, f: nat, i: nat, w: Word): (m': Mem)
    requires f in m && i < 512
    ensures m'.Keys == m.Keys
    ensures Entry(m', f, i) == w
  {
    m[f := m[f][i := w]]
  }

  /** A frame cleared by `memset`. */
  function ZeroTable(): (t: Table)
    ensures forall i | 0 <= i < 512 :: t[i] == 0
  {
    seq(512, _ => 0)
  }
}
