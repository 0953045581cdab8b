/** The heap shape of the page tables: every table frame serves one region of
    the address space at one level, so tables are never shared and never cyclic. */
module Trees {
  import opened Words
  import opened Memory
  import opened Paging

  /** A table of the given level whose slot `i` serves region `base * 512 + i`. */
  datatype Node = Node(level: Level, base: nat)

  type Shape = map<nat, Node>

  ghost predicate Linked(m: Mem, shape: Shape, t: nat, i: nat)
    requires t in shape && shape[t].level > 0 && i < 512
  {
    var w := Entry(m, t, i);
    Pointer(w) ==>
      && w == FrameOf(w) * 4096 + w % 4096
      && FrameOf(w) in shape
      && shape[FrameOf(w)] == Node(shape[t].level - 1, shape[t].base * 512 + i)
  }

  ghost predicate Tree(m: Mem, root: nat, shape: Shape) {
    && root in shape && shape[root] == Node(3, 0)
    && (forall t {:trigger t in shape} | t in shape :: t in m && t < PAGES)
    && (forall t, i {:trigger Linked(m, shape, t, i)} | t in shape && shape[t].level > 0 && i < 512 ::
          Linked(m, shape, t, i))
  }

  /** The two memories agree on all tables, except perhaps in slot `i` of `t`. */
  ghost predicate SameBut(m: Mem, m': Mem, shape: Shape, t: nat, i: nat) {
    forall s, j {:trigger Entry(m', s, j)} | s in shape && j < 512 && !(s == t && j == i) ::
      Entry(m', s, j) == Entry(m, s, j)
  }

  /** The region served by slot `i` of table `t`. */
  ghost predicate Under(shape: Shape, t: nat, i: nat, p: nat) {
    t in shape && Region(p, shape[t].level) == shape[t].base * 512 + i
  }

  /** Writing one slot changes no walk outside the region of that slot. */
  lemma {:induction false} WalkFrame(m: Mem, m': Mem, root: nat, shape: Shape, t: nat, i: nat,
                                     s: nat, level: Level, p: nat)
    requires Tree(m, root, shape) && SameBut(m, m', shape, t, i) && i < 512
    requires s in shape && shape[s] == Node(level, Region(p, level + 1))
    requires !Under(shape, t, i, p)
    ensures Walk(m', s, level, p) == Walk(m, s, level, p)
    decreases level
  {
    RegionStep(p, level);
    var j := Index(p, level);
    assert Entry(m', s, j) == Entry(m, s, j);
    var w := Entry(m, s, j);
    if level > 0 && Pointer(w) {
      assert Linked(m, shape, s, j);
      WalkFrame(m, m', root, shape, t, i, FrameOf(w), level - 1, p);
    }
  }

  lemma RootRegion(p: nat)
    requires p < PAGES
    ensures Region(p, 4) == 0
  {
  }

  lemma TranslateFrame(m: Mem, m': Mem, root: nat, shape: Shape, t: nat, i: nat, p: nat)
    requires Tree(m, root, shape) && SameBut(m, m', shape, t, i) && i < 512
    requires p < PAGES && !Under(shape, t, i, p)
    ensures Walk(m', root, 3, p) == Walk(m, root, 3, p)
  {
    WalkFrame(m, m', root, shape, t, i, root, 3, p);
  }

  /** A table reached by a walk sits at the place its node says. */
  lemma {:induction false} DescendNode(m: Mem, root: nat, shape: Shape, s: nat, level: Level,
                                       p: nat, target: Level)
    requires Tree(m, root, shape) && target <= level
    requires s in shape && shape[s] == Node(level, Region(p, level + 1))
    requires Descend(m, s, level, p, target).Some?
    ensures var t := Descend(m, s, level, p, target).value;
      t in shape && shape[t] == Node(target, Region(p, target + 1))
    decreases level
  {
    if level != target {
      RegionStep(p, level);
      var w := Entry(m, s, Index(p, level));
      assert Linked(m, shape, s, Index(p, level));
      DescendNode(m, root, shape, FrameOf(w), level - 1, p, target);
    }
  }

  /** Writing a slot of a table does not move the tables of its level or above. */
  lemma {:induction false} DescendFrame(m: Mem, m': Mem, root: nat, shape: Shape, t: nat, i: nat,
                                        s: nat, level: Level, p: nat, target: Level)
    requires Tree(m, root, shape) && SameBut(m, m', shape, t, i) && i < 512
    requires t in shape && shape[t].level <= target <= level
    requires s in shape && shape[s] == Node(level, Region(p, level + 1))
    ensures Descend(m', s, level, p, target) == Descend(m, s, level, p, target)
    decreases level
  {
    if level != target {
      RegionStep(p, level);
      var j := Index(p, level);
      assert Entry(m', s, j) == Entry(m, s, j);
      var w := Entry(m, s, j);
      if Pointer(w) {
        assert Linked(m, shape, s, j);
        DescendFrame(m, m', root, shape, t, i, FrameOf(w), level - 1, p, target);
      }
    }
  }

  /** After a write to slot `Index(p, level)` of the table the walk of `p` passes
      at that level, the walk of every page under the slot goes through it. */
  lemma WalkThrough(m: Mem, m': Mem, root: nat, shape: Shape, p: nat, q: nat, level: Level)
    requires Tree(m, root, shape) && p < PAGES && q < PAGES
    requires Descend(m, root, 3, p, level).Some?
    requires var t := Descend(m, root, 3, p, level).value; SameBut(m, m', shape, t, Index(p, level))
    requires Region(p, level) == Region(q, level)
    ensures var t := Descend(m, root, 3, p, level).value;
      && Walk(m', root, 3, q) == Walk(m', t, level, q)
      && Walk(m, root, 3, q) == Walk(m, t, level, q)
      && Index(q, level) == Index(p, level)
  {
    var t := Descend(m, root, 3, p, level).value;
    DescendNode(m, root, shape, root, 3, p, level);
    RegionStep(p, level);
    RegionStep(q, level);
    DescendSame(m, root, 3, p, q, level);
    DescendFrame(m, m', root, shape, t, Index(p, level), root, 3, q, level);
    WalkFrom(m, root, 3, q, level);
    WalkFrom(m', root, 3, q, level);
  }

  /** Pages of one region share the tables above it. */
  lemma {:induction false} DescendSame(m: Mem, s: nat, level: Level, p: nat, q: nat, target: Level)
    requires target <= level && Region(p, target + 1) == Region(q, target + 1)
    ensures Descend(m, s, level, p, target) == Descend(m, s, level, q, target)
    decreases level
  {
    if level != target {
      RegionUp(p, q, target + 1, level);
      var w := Entry(m, s, Index(p, level));
      if Pointer(w) {
        DescendSame(m, FrameOf(w), level - 1, p, q, target);
      }
    }
  }

  lemma {:induction false} RegionUp(p: nat, q: nat, low: nat, high: nat)
    requires low <= high <= 4 && Region(p, low) == Region(q, low)
    ensures Region(p, high) == Region(q, high)
    decreases high - low
  {
    if low < high {
      RegionStep(p, low);
      RegionStep(q, low);
      RegionUp(p, q, low + 1, high);
    }
  }
}
