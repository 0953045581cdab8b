/** Linear-address translation with 4-level paging, section 4.5 of the Intel
    64 and IA-32 Software Developer's Manual, Volume 3A. */
module Paging {
  import opened Words
  import opened Memory

  /** Where a walk stops: at a slot that is not present, or at a leaf. */
  datatype Outcome =
    | Hole(level: Level, table: nat)
    | Leaf(level: Level, entry: Word)

  function Walk(m: Mem, table: nat, level: Level, p: nat): Outcome
    decreases level
  {
    var w := Entry(m, table, Index(p, level));
    if !Present(w) then Hole(level, table)
    else if level == 0 || Large(w) then Leaf(level, w)
    else Walk(m, FrameOf(w), level - 1, p)
  }

  /** What a walk picks up: the flags of every table entry it passes, and the leaf. */
  function Trail(m: Mem, table: nat, level: Level, p: nat): seq<Word>
    decreases level
  {
    var w := Entry(m, table, Index(p, level));
    if !Present(w) then []
    else if level == 0 || Large(w) then [w]
    else [Flags(w)] + Trail(m, FrameOf(w), level - 1, p)
  }

  /** The frame a leaf maps a page to. Bits 13 to 20 (13 to 29) of a large leaf
      are reserved and PS is reserved in the PML4: setting them faults. */
  function LeafFrame(level: Level, w: Word, p: nat): Option<nat> {
    if level == 0 then Some(FrameOf(w))
    else if level == 1 then
      if FrameOf(w) % 0x200 < 2 then Some(FrameOf(w) / 0x200 * 0x200 + p % 0x200) else None
    else if level == 2 then
      if FrameOf(w) % 0x4_0000 < 2 then Some(FrameOf(w) / 0x4_0000 * 0x4_0000 + p % 0x4_0000) else None
    else None
  }

  function FrameAt(o: Outcome, p: nat): Option<nat> {
    match o
    case Hole(_, _) => None
    case Leaf(level, w) => LeafFrame(level, w, p)
  }

  /** The frame a page is mapped to by the table tree rooted at `root`. */
  function Translate(m: Mem, root: nat, p: nat): Option<nat> {
    FrameAt(Walk(m, root, 3, p), p)
  }

  /** Two walks find the same leaf, or both find none. */
  predicate Alike(o: Outcome, o': Outcome) { o == o' || (o.Hole? && o'.Hole?) }

  /** No PS bit is met on the way down to a 4 KiB slot. */
  predicate NoLargePage(m: Mem, root: nat, p: nat) {
    var o := Walk(m, root, 3, p);
    o.Leaf? ==> o.level == 0
  }

  /** The table of level `target` on the walk of page `p`, if the walk gets there. */
  function Descend(m: Mem, table: nat, level: Level, p: nat, target: Level): (r: Option<nat>)
    requires target <= level
    decreases level
  {
    if level == target then Some(table)
    else
      var w := Entry(m, table, Index(p, level));
      if Pointer(w) then Descend(m, FrameOf(w), level - 1, p, target) else None
  }

  /** A walk continues from any table it passes. */
  lemma WalkFrom(m: Mem, table: nat, level: Level, p: nat, target: Level)
    requires target <= level
    requires Descend(m, table, level, p, target).Some?
    ensures Walk(m, table, level, p) == Walk(m, Descend(m, table, level, p, target).value, target, p)
    decreases level
  {
  }

  /** One more step down. */
  lemma DescendStep(m: Mem, table: nat, level: Level, p: nat, target: Level)
    requires 0 < target <= level
    requires Descend(m, table, level, p, target).Some?
    ensures var t := Descend(m, table, level, p, target).value;
      var w := Entry(m, t, Index(p, target));
      Descend(m, table, level, p, target - 1) == if Pointer(w) then Some(FrameOf(w)) else None
    decreases level
  {
  }
}
