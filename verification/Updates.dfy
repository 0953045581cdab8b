/** What one write to a table does to the tree and to every translation. */
module Updates {
  import opened Words
  import opened Memory
  import opened Paging
  import opened Trees

  /** The walk of page `p` passes table `t` at the given level. */
  ghost predicate Passes(m: Mem, root: nat, p: nat, level: Level, t: nat) {
    p < PAGES && Descend(m, root, 3, p, level) == Some(t)
  }

  lemma PassesNode(m: Mem, root: nat, shape: Shape, p: nat, level: Level, t: nat)
    requires Tree(m, root, shape) && Passes(m, root, p, level, t)
    ensures t in shape && t in m && shape[t] == Node(level, Region(p, level + 1))
    ensures Walk(m, root, 3, p) == Walk(m, t, level, p)
  {
    DescendNode(m, root, shape, root, 3, p, level);
    WalkFrom(m, root, 3, p, level);
  }

  /** The memory after slot `Index(p, level)` of `t` is set to `w`. */
  ghost predicate SlotSet(m: Mem, m': Mem, p: nat, level: Level, t: nat, w: Word) {
    t in m && m' == SetEntry(m, t, Index(p, level), w)
  }

  /** Writing a leaf or clearing a slot replaces the translation of exactly the
      pages of that slot. */
  lemma SetSlot(m: Mem, m': Mem, root: nat, shape: Shape, p: nat, level: Level, t: nat, w: Word)
    requires Tree(m, root, shape) && Passes(m, root, p, level, t)
    requires SlotSet(m, m', p, level, t, w)
    requires level == 0 || !Pointer(w)
    ensures Tree(m', root, shape)
    ensures forall q: nat | q < PAGES && Region(q, level) == Region(p, level) ::
      Walk(m', root, 3, q) == if Present(w) then Leaf(level, w) else Hole(level, t)
    ensures forall q: nat | q < PAGES && Region(q, level) != Region(p, level) ::
      Walk(m', root, 3, q) == Walk(m, root, 3, q)
  {
    PassesNode(m, root, shape, p, level, t);
    RegionStep(p, level);
    forall s, j | s in shape && shape[s].level > 0 && j < 512
      ensures Linked(m', shape, s, j)
    {
      assert Linked(m, shape, s, j);
    }
    forall q: nat | q < PAGES && Region(q, level) == Region(p, level)
      ensures Walk(m', root, 3, q) == if Present(w) then Leaf(level, w) else Hole(level, t)
    {
      WalkThrough(m, m', root, shape, p, q, level);
    }
    forall q: nat | q < PAGES && Region(q, level) != Region(p, level)
      ensures Walk(m', root, 3, q) == Walk(m, root, 3, q)
    {
      TranslateFrame(m, m', root, shape, t, Index(p, level), q);
    }
  }

  /** The memory after a fresh frame `c` is zeroed and hung into a slot of `t`. */
  ghost predicate TableHung(m: Mem, m': Mem, p: nat, level: Level, t: nat, c: nat) {
    && t in m && c in m && t != c && c < PAGES
    && m' == SetEntry(m[c := ZeroTable()], t, Index(p, level), c * 4096 + 3)
  }

  /** A page is mapped by the same leaf in both memories, or by none in both. */
  ghost predicate SameLeaf(m: Mem, m': Mem, root: nat, q: nat) {
    var o, o' := Walk(m, root, 3, q), Walk(m', root, 3, q);
    o == o' || (o.Hole? && o'.Hole?)
  }

  /** Hanging a zeroed fresh table into a free slot keeps the tree and leaves
      every translation as it was, holes included. */
  lemma HangTable(m: Mem, m': Mem, root: nat, shape: Shape, p: nat, level: Level, t: nat, c: nat)
    requires Tree(m, root, shape) && Passes(m, root, p, level, t) && level > 0
    requires !Present(Entry(m, t, Index(p, level)))
    requires TableHung(m, m', p, level, t, c) && c !in shape
    ensures Tree(m', root, shape[c := Node(level - 1, Region(p, level))])
    ensures Passes(m', root, p, level - 1, c)
    ensures Walk(m', root, 3, p) == Hole(level - 1, c)
    ensures forall q: nat | q < PAGES :: SameLeaf(m, m', root, q)
  {
    PassesNode(m, root, shape, p, level, t);
    var shape' := shape[c := Node(level - 1, Region(p, level))];
    FrameEntry(c);
    QuotientRemainder(c * 4096 + 3, c, 4096, 3);
    RegionStep(p, level);
    forall s, j | s in shape' && shape'[s].level > 0 && j < 512
      ensures Linked(m', shape', s, j)
    {
      if s in shape {
        assert Linked(m, shape, s, j);
      }
    }
    DescendFrame(m, m', root, shape, t, Index(p, level), root, 3, p, level);
    DescendStep(m', root, 3, p, level);
    WalkFrom(m', root, 3, p, level - 1);
    forall q: nat | q < PAGES
      ensures SameLeaf(m, m', root, q)
    {
      HangLeaf(m, m', root, shape, p, level, t, c, q);
    }
  }

  lemma HangLeaf(m: Mem, m': Mem, root: nat, shape: Shape, p: nat, level: Level, t: nat, c: nat, q: nat)
    requires Tree(m, root, shape) && Passes(m, root, p, level, t) && level > 0
    requires !Present(Entry(m, t, Index(p, level)))
    requires TableHung(m, m', p, level, t, c) && c !in shape && q < PAGES
    ensures SameLeaf(m, m', root, q)
  {
    PassesNode(m, root, shape, p, level, t);
    RegionStep(p, level);
    if Region(q, level) == Region(p, level) {
      WalkThrough(m, m', root, shape, p, q, level);
      FrameEntry(c);
      ZeroWalk(m', c, level - 1, q);
    } else {
      TranslateFrame(m, m', root, shape, t, Index(p, level), q);
    }
  }

  lemma ZeroWalk(m: Mem, c: nat, level: Level, q: nat)
    requires c in m && m[c] == ZeroTable()
    ensures Walk(m, c, level, q) == Hole(level, c)
  {
  }

  /** Memory outside the tables does not matter. */
  lemma OutsideTables(m: Mem, m': Mem, root: nat, shape: Shape)
    requires Tree(m, root, shape)
    requires forall t | t in shape :: t in m' && m'[t] == m[t]
    ensures Tree(m', root, shape)
    ensures forall q: nat | q < PAGES :: Walk(m', root, 3, q) == Walk(m, root, 3, q)
  {
    forall s, j | s in shape && shape[s].level > 0 && j < 512
      ensures Linked(m', shape, s, j)
    {
      assert Linked(m, shape, s, j);
    }
    forall q: nat | q < PAGES
      ensures Walk(m', root, 3, q) == Walk(m, root, 3, q)
    {
      WalkFrame(m, m', root, shape, TWO64, 0, root, 3, q);
    }
  }
}
