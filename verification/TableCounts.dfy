/** How many tables a tree holds below a slot. */
module TableCounts {
  import opened Words
  import opened Memory
  import opened Trees
  import opened Spaces
  import opened DeepCopy

  /** The region of level `high` that contains region `b` of level `low`. */
  function Up(b: nat, low: nat, high: nat): nat
    decreases high
  {
    if high <= low then b else Up(b, low, high - 1) / 512
  }

  lemma {:induction false} UpZero(low: nat, high: nat)
    ensures Up(0, low, high) == 0
    decreases high
  {
    if low < high {
      UpZero(low, high - 1);
    }
  }

  /** The table serves pages under slots `i` to 511 of a table of this level and region. */
  predicate Below(n: Node, level: Level, base: nat, i: nat) {
    n.level < level && base * 512 + i <= Up(n.base, n.level + 1, level) < base * 512 + 512
  }

  function TablesBelow(shape: Shape, level: Level, base: nat, i: nat): set<nat> {
    set t | t in shape && Below(shape[t], level, base, i)
  }

  /** The tables counted by walking the tree are different tables of its shape. */
  lemma {:induction false} CountedTables(m: Mem, root: nat, shape: Shape, t: nat, level: Level, base: nat, i: nat)
    requires Tree(m, root, shape) && t in shape && shape[t] == Node(level, base) && i <= 512
    ensures Count(m, t, level, i) <= |TablesBelow(shape, level, base, i)|
    decreases level, 512 - i
  {
    if level > 0 && i < 512 {
      CountedTables(m, root, shape, t, level, base, i + 1);
      var w := Entry(m, t, i);
      assert Linked(m, shape, t, i);
      if Pointer(w) {
        CountedTables(m, root, shape, FrameOf(w), level - 1, base * 512 + i, 0);
        ChildTables(shape, level, base, i, FrameOf(w));
      } else {
        Contained(TablesBelow(shape, level, base, i + 1), TablesBelow(shape, level, base, i));
      }
    }
  }

  /** A child, the tables below it and the tables below later slots are different. */
  lemma ChildTables(shape: Shape, level: Level, base: nat, i: nat, c: nat)
    requires level > 0 && i < 512 && c in shape && shape[c] == Node(level - 1, base * 512 + i)
    ensures |TablesBelow(shape, level, base, i)|
            >= 1 + |TablesBelow(shape, level - 1, base * 512 + i, 0)| + |TablesBelow(shape, level, base, i + 1)|
  {
    var below, later := TablesBelow(shape, level - 1, base * 512 + i, 0), TablesBelow(shape, level, base, i + 1);
    forall t | t in below
      ensures t in TablesBelow(shape, level, base, i) && t !in later && t != c
    {
      var n := shape[t];
      QuotientRemainder(Up(n.base, n.level + 1, level - 1), base * 512 + i, 512,
                        Up(n.base, n.level + 1, level - 1) - (base * 512 + i) * 512);
    }
    Contained({c} + below + later, TablesBelow(shape, level, base, i));
  }

  lemma {:induction false} Contained(a: set<nat>, b: set<nat>)
    requires a <= b
    ensures |a| <= |b|
  {
    assert |b| == |a| + |b - a| by {
      assert b == a + (b - a);
    }
  }

  /** No table serves the higher half yet. */
  ghost predicate NoUpperTables(s: Space) {
    forall t {:trigger t in s.shape} | t in s.shape :: !Below(s.shape[t], 3, 0, 256)
  }

  /** The numbers from `lo` to `hi`. */
  function Interval(lo: nat, hi: nat): (s: set<nat>)
    ensures forall x: nat :: x in s <==> lo <= x < hi
    ensures |s| == if lo <= hi then hi - lo else 0
    decreases hi
  {
    if lo < hi then Interval(lo, hi - 1) + {hi - 1} else {}
  }

  /** Tables of the higher half are new if there were none. */
  lemma UpperAreNew(shape: Shape, shape': Shape, lo: nat, hi: nat)
    requires forall t {:trigger t in shape} | t in shape :: !Below(shape[t], 3, 0, 256)
    requires shape.Keys <= shape'.Keys
    requires forall t {:trigger t in shape'} | t in shape' :: t in shape || lo <= t < hi
    requires forall t {:trigger shape'[t]} | t in shape :: shape'[t] == shape[t]
    ensures TablesBelow(shape', 3, 0, 256) <= Interval(lo, hi)
  {
    forall t | t in shape' && !(lo <= t < hi)
      ensures !Below(shape'[t], 3, 0, 256)
    {
      assert t in shape;
    }
  }

  /** The tables of the higher half are at most those created since there were none. */
  lemma UpperTables(s: Space, s': Space)
    requires s'.Valid() && s.Free() <= s'.Free() && NoUpperTables(s) && s.shape.Keys <= s'.shape.Keys
    requires forall t {:trigger t in s'.shape} | t in s'.shape :: t in s.shape || s.Free() <= t < s'.Free()
    requires forall t {:trigger s'.shape[t]} | t in s.shape :: s'.shape[t] == s.shape[t]
    ensures Count(s'.ram, s'.root, 3, 256) <= s'.Free() - s.Free()
  {
    CountedTables(s'.ram, s'.root, s'.shape, s'.root, 3, 0, 256);
    UpperAreNew(s.shape, s'.shape, s.Free(), s'.Free());
    Contained(TablesBelow(s'.shape, 3, 0, 256), Interval(s.Free(), s'.Free()));
  }
}
