/** Copying a table tree into fresh frames: the mathematics of the kernel's `setup_paging`. */
module DeepCopy {
  import opened Words
  import opened Memory
  import opened Paging
  import opened Trees
  import opened Windows

  /** The bootloader's tables as the kernel finds them: every table below `t` lies
      outside the kernel's window and is mapped to its own address, and the entries
      that point to tables have bits 48 to 62 clear. */
  ghost predicate OldTables(m: Mem, root: nat, win: Window, t: nat, level: Level)
    decreases level, 1
  {
    && t in m && t < 0x8_0000_0000 && !(win.lo <= t < win.hi)
    && Translate(m, root, t) == Some(t)
    && (level > 0 ==> forall i {:trigger OldSlot(m, root, win, t, level, i)} | 0 <= i < 512 ::
          OldSlot(m, root, win, t, level, i))
  }

  ghost predicate OldSlot(m: Mem, root: nat, win: Window, t: nat, level: Level, i: nat)
    requires level > 0 && i < 512
    decreases level, 0
  {
    var w := Entry(m, t, i);
    Pointer(w) ==> w == FrameOf(w) * 4096 + Flags(w) && OldTables(m, root, win, FrameOf(w), level - 1)
  }

  /** Only frames of the window may differ. */
  ghost predicate SameOutside(m: Mem, m': Mem, win: Window) {
    && m'.Keys == m.Keys
    && forall f {:trigger m'[f]} | f in m && !(win.lo <= f < win.hi) :: m'[f] == m[f]
  }

  /** Writing inside the window does not disturb the old walks. */
  lemma {:induction false} OldWalk(m: Mem, m': Mem, root: nat, win: Window, t: nat, level: Level, p: nat)
    requires OldTables(m, root, win, t, level) && SameOutside(m, m', win)
    ensures Walk(m', t, level, p) == Walk(m, t, level, p)
    decreases level
  {
    assert m'[t] == m[t];
    var w := Entry(m, t, Index(p, level));
    assert Entry(m', t, Index(p, level)) == w;
    if level > 0 && Pointer(w) {
      assert OldSlot(m, root, win, t, level, Index(p, level));
      OldWalk(m, m', root, win, FrameOf(w), level - 1, p);
    }
  }

  /** The number of tables below slots `i` to 511 of table `t`. */
  function Count(m: Mem, t: nat, level: Level, i: nat): nat
    requires i <= 512
    decreases level, 512 - i
  {
    if level == 0 || i == 512 then 0
    else (if Pointer(Entry(m, t, i)) then 1 + Count(m, FrameOf(Entry(m, t, i)), level - 1, 0) else 0)
         + Count(m, t, level, i + 1)
  }

  lemma LowFlags(w: Word)
    ensures Large(w % 4096) == Large(w) && Present(w % 4096) == Present(w)
  {
    var q, r := w / 4096, w % 4096;
    QuotientRemainder(w, q * 32 + r / 128, 128, r % 128);
    QuotientRemainder(q * 32 + r / 128, q * 16 + r / 128 / 2, 2, r / 128 % 2);
    QuotientRemainder(w, q * 2048 + r / 2, 2, r % 2);
  }

  /** The flags alone tell whether an entry points to a table. */
  lemma FlagsTell(w: Word)
    ensures Large(Flags(w)) == Large(w) && Present(Flags(w)) == Present(w) && NoExecute(Flags(w)) == NoExecute(w)
  {
    var top := if NoExecute(w) then 0x8_0000_0000_0000 else 0;
    QuotientRemainder(Flags(w), top, 4096, w % 4096);
    LowFlags(w);
    LowFlags(Flags(w));
  }

  /** Walks with the same trail find the same leaf. */
  lemma {:induction false} TrailWalk(m: Mem, t: nat, m': Mem, t': nat, level: Level, p: nat)
    requires Trail(m, t, level, p) == Trail(m', t', level, p)
    ensures Alike(Walk(m, t, level, p), Walk(m', t', level, p))
    decreases level
  {
    var w, w' := Entry(m, t, Index(p, level)), Entry(m', t', Index(p, level));
    FlagsTell(w);
    FlagsTell(w');
    if Present(w) {
      assert Trail(m, t, level, p)[0] == Trail(m', t', level, p)[0];
      if level > 0 && !Large(w) {
        assert !Large(w');
        assert Trail(m, t, level, p)[1..] == Trail(m', t', level, p)[1..];
        TrailWalk(m, FrameOf(w), m', FrameOf(w'), level - 1, p);
      }
    }
  }

  /** Slot `i` points to the table of its region, whatever bits 48 to 63 are. */
  ghost predicate Hangs(m: Mem, shape: Shape, t: nat, i: nat)
    requires t in shape && shape[t].level > 0 && i < 512
  {
    var w := Entry(m, t, i);
    Pointer(w) ==> FrameOf(w) in shape && shape[FrameOf(w)] == Node(shape[t].level - 1, shape[t].base * 512 + i)
  }

  /** The new tables are the frames from `lo` on; links between them stay there, and
      in a `clean` copy they have bits 48 to 63 clear. */
  ghost predicate NewLink(m: Mem, shape: Shape, t: nat, i: nat, lo: nat, hi: nat, clean: bool)
    requires t in shape && shape[t].level > 0 && i < 512
  {
    var w := Entry(m, t, i);
    && Hangs(m, shape, t, i)
    && (Pointer(w) ==> lo <= FrameOf(w) < hi && (clean ==> w == FrameOf(w) * 4096 + w % 4096))
  }

  /** No entry below slots `first` to 511 that points to a table has bit 63 set. */
  ghost predicate Executable(m: Mem, t: nat, level: Level, first: nat)
    decreases level, 1
  {
    level > 0 ==> forall i {:trigger ExecutableSlot(m, t, level, i)} | first <= i < 512 ::
                    ExecutableSlot(m, t, level, i)
  }

  ghost predicate ExecutableSlot(m: Mem, t: nat, level: Level, i: nat)
    requires level > 0 && i < 512
    decreases level, 0
  {
    var w := Entry(m, t, i);
    Pointer(w) ==> !NoExecute(w) && Executable(m, FrameOf(w), level - 1, 0)
  }

  /** The frames `lo` to `hi` are new tables, all their links are in place. */
  ghost predicate Closed(m: Mem, shape: Shape, lo: nat, hi: nat, clean: bool) {
    && (forall t {:trigger t in shape} | lo <= t < hi :: t in shape && t in m)
    && (forall t, i {:trigger NewLink(m, shape, t, i, lo, hi, clean)} |
          lo <= t < hi && t in shape && shape[t].level > 0 && i < 512 :: NewLink(m, shape, t, i, lo, hi, clean))
  }

  /** Trails below finished new tables do not change any more. */
  lemma {:induction false} NewTrail(m: Mem, m': Mem, shape: Shape, lo: nat, hi: nat, t: nat, level: Level, p: nat,
                                    clean: bool)
    requires Closed(m, shape, lo, hi, clean) && lo <= t < hi && t in shape
    requires shape[t] == Node(level, Region(p, level + 1))
    requires m'.Keys == m.Keys && forall g {:trigger m'[g]} | lo <= g < hi && g in m :: m'[g] == m[g]
    ensures Trail(m', t, level, p) == Trail(m, t, level, p)
    decreases level
  {
    var i := Index(p, level);
    assert m'[t] == m[t];
    var w := Entry(m, t, i);
    if level > 0 && Pointer(w) {
      RegionStep(p, level);
      assert NewLink(m, shape, t, i, lo, hi, clean);
      NewTrail(m, m', shape, lo, hi, FrameOf(w), level - 1, p, clean);
    }
  }

  /** Slots `first` to `done` of table `f` are copies of those of old table `s`. */
  ghost predicate Copied(m0: Mem, m: Mem, s: nat, f: nat, level: Level, base: nat, first: nat, done: nat) {
    forall p: nat {:trigger Trail(m, f, level, p)} |
      Region(p, level + 1) == base && first <= Index(p, level) < done ::
      Trail(m, f, level, p) == Trail(m0, s, level, p)
  }

  /** Slots from `i` on are still verbatim. */
  ghost predicate Verbatim(m0: Mem, m: Mem, s: nat, f: nat, i: nat) {
    && f in m && i <= 512
    && forall j {:trigger Entry(m, f, j)} | i <= j < 512 :: Entry(m, f, j) == Entry(m0, s, j)
  }

  /** The state of the copy of old table `s` at frame `f`: slots `first` to `i` are
      done, and their new tables are the frames `lo` to `hi`. */
  ghost predicate Progress(m0: Mem, m: Mem, shape: Shape, s: nat, f: nat, level: Level, base: nat,
                           first: nat, i: nat, lo: nat, hi: nat, clean: bool)
  {
    && first <= i && Verbatim(m0, m, s, f, i)
    && f in shape && shape[f] == Node(level, base) && level > 0
    && lo <= hi && !(lo <= f < hi)
    && Closed(m, shape, lo, hi, clean)
    && (forall j {:trigger NewLink(m, shape, f, j, lo, hi, clean)} | first <= j < i ::
          NewLink(m, shape, f, j, lo, hi, clean))
    && Copied(m0, m, s, f, level, base, first, i)
  }

  /** A slot without a pointer is done as it stands. */
  lemma KeepSlot(m0: Mem, m: Mem, shape: Shape, s: nat, f: nat, level: Level, base: nat,
                 first: nat, i: nat, lo: nat, hi: nat, clean: bool)
    requires Progress(m0, m, shape, s, f, level, base, first, i, lo, hi, clean) && i < 512
    requires !Pointer(Entry(m, f, i))
    ensures Progress(m0, m, shape, s, f, level, base, first, i + 1, lo, hi, clean)
  {
  }

  /** Table `c` and the new tables behind it, up to `hi`, are a finished copy of
      old table `o`. */
  ghost predicate ChildDone(m0: Mem, m: Mem, shape: Shape, o: nat, c: nat, level: Level, base: nat, hi: nat,
                            clean: bool) {
    && c < hi && c in shape && shape[c] == Node(level, base)
    && Closed(m, shape, c, hi, clean)
    && forall p: nat {:trigger Trail(m, c, level, p)} | Region(p, level + 1) == base ::
         Trail(m, c, level, p) == Trail(m0, o, level, p)
  }

  /** A page table is copied verbatim. */
  lemma PageTableDone(m0: Mem, m: Mem, shape: Shape, o: nat, c: nat, base: nat, clean: bool)
    requires c in m && o in m0 && m[c] == m0[o] && c in shape && shape[c] == Node(0, base)
    ensures ChildDone(m0, m, shape, o, c, 0, base, c + 1, clean)
  {
  }

  /** A directory is done when all its slots are. */
  lemma DirectoryDone(m0: Mem, m: Mem, shape: Shape, o: nat, c: nat, level: Level, base: nat,
                      first: nat, lo: nat, hi: nat, clean: bool)
    requires first == 0 && lo == c + 1
    requires Progress(m0, m, shape, o, c, level, base, first, 512, lo, hi, clean)
    ensures ChildDone(m0, m, shape, o, c, level, base, hi, clean)
  {
    forall t, i | c <= t < hi && t in shape && shape[t].level > 0 && i < 512
      ensures NewLink(m, shape, t, i, c, hi, clean)
    {
      if t == c {
        assert NewLink(m, shape, c, i, c + 1, hi, clean);
      } else {
        assert NewLink(m, shape, t, i, c + 1, hi, clean);
      }
    }
  }

  /** The change from `m` to `m'` while slot `i` of `f` gets its finished child. */
  ghost predicate SlotFilled(m: Mem, m': Mem, shape: Shape, shape': Shape, f: nat, i: nat, w: Word, hi: nat, hi': nat)
  {
    && m'.Keys == m.Keys && f in m && i < 512
    && m'[f] == m[f][i := w]
    && (forall g {:trigger m'[g]} | g in m && g != f && !(hi <= g < hi') :: m'[g] == m[g])
    && (forall t {:trigger t in shape'} | t in shape :: t in shape' && shape'[t] == shape[t])
  }

  lemma LinkStays(m: Mem, m': Mem, shape: Shape, shape': Shape, t: nat, j: nat, lo: nat, hi: nat, hi': nat,
                  clean: bool)
    requires t in shape && shape[t].level > 0 && j < 512 && NewLink(m, shape, t, j, lo, hi, clean) && hi <= hi'
    requires forall t {:trigger t in shape'} | t in shape :: t in shape' && shape'[t] == shape[t]
    requires Entry(m', t, j) == Entry(m, t, j)
    ensures t in shape' && NewLink(m', shape', t, j, lo, hi', clean)
  {
    var w := Entry(m, t, j);
    assert t in shape' && Hangs(m, shape, t, j);
    if Pointer(w) {
      assert FrameOf(w) in shape && FrameOf(w) in shape';
    }
  }

  lemma SlotCloses(m0: Mem, m: Mem, m': Mem, shape: Shape, shape': Shape, s: nat, o: nat, f: nat,
                   level: Level, base: nat, first: nat, i: nat, w: Word, lo: nat, hi: nat, hi': nat,
                   clean: bool)
    requires Progress(m0, m, shape, s, f, level, base, first, i, lo, hi, clean) && i < 512
    requires SlotFilled(m, m', shape, shape', f, i, w, hi, hi') && !(lo <= f < hi')
    requires ChildDone(m0, m', shape', o, hi, level - 1, base * 512 + i, hi', clean)
    ensures Closed(m', shape', lo, hi', clean)
  {
    forall t | lo <= t < hi'
      ensures t in shape' && t in m'
    {
      if t < hi {
        assert t in shape && t in m;
      }
      assert t in shape';
    }
    forall t, j | lo <= t < hi' && t in shape' && shape'[t].level > 0 && j < 512
      ensures NewLink(m', shape', t, j, lo, hi', clean)
    {
      if t < hi {
        assert t in shape && t in m;
        assert NewLink(m, shape, t, j, lo, hi, clean);
        assert m'[t] == m[t];
        LinkStays(m, m', shape, shape', t, j, lo, hi, hi', clean);
      } else {
        assert NewLink(m', shape', t, j, hi, hi', clean);
      }
    }
  }

  lemma SlotLinks(m0: Mem, m: Mem, m': Mem, shape: Shape, shape': Shape, s: nat, o: nat, f: nat,
                  level: Level, base: nat, first: nat, i: nat, w: Word, lo: nat, hi: nat, hi': nat,
                  clean: bool, j: nat)
    requires Progress(m0, m, shape, s, f, level, base, first, i, lo, hi, clean) && i < 512
    requires SlotFilled(m, m', shape, shape', f, i, w, hi, hi') && !(lo <= f < hi')
    requires ChildDone(m0, m', shape', o, hi, level - 1, base * 512 + i, hi', clean)
    requires Pointer(w) && FrameOf(w) == hi && (clean ==> w == hi * 4096 + w % 4096)
    requires first <= j <= i
    ensures f in shape' && NewLink(m', shape', f, j, lo, hi', clean)
  {
    assert f in shape';
    if j < i {
      assert NewLink(m, shape, f, j, lo, hi, clean);
      LinkStays(m, m', shape, shape', f, j, lo, hi, hi', clean);
    }
  }

  lemma SlotCopies(m0: Mem, m: Mem, m': Mem, shape: Shape, shape': Shape, s: nat, o: nat, f: nat,
                   level: Level, base: nat, first: nat, i: nat, w: Word, lo: nat, hi: nat, hi': nat,
                   clean: bool, p: nat)
    requires Progress(m0, m, shape, s, f, level, base, first, i, lo, hi, clean) && i < 512
    requires SlotFilled(m, m', shape, shape', f, i, w, hi, hi') && !(lo <= f < hi')
    requires ChildDone(m0, m', shape', o, hi, level - 1, base * 512 + i, hi', clean)
    requires Pointer(w) && FrameOf(w) == hi && Flags(w) == Flags(Entry(m0, s, i))
    requires Pointer(Entry(m0, s, i)) && FrameOf(Entry(m0, s, i)) == o
    requires Region(p, level + 1) == base && first <= Index(p, level) <= i
    ensures Trail(m', f, level, p) == Trail(m0, s, level, p)
  {
    var j := Index(p, level);
    RegionStep(p, level);
    if j == i {
      assert Trail(m', hi, level - 1, p) == Trail(m0, o, level - 1, p);
    } else {
      assert Trail(m, f, level, p) == Trail(m0, s, level, p);
      var e := Entry(m, f, j);
      assert Entry(m', f, j) == e;
      if Pointer(e) {
        assert NewLink(m, shape, f, j, lo, hi, clean);
        NewTrail(m, m', shape, lo, hi, FrameOf(e), level - 1, p, clean);
      }
    }
  }

  /** Filling slot `i` with a finished copy of its old table extends the copy by one slot. */
  lemma FillSlot(m0: Mem, m: Mem, m': Mem, shape: Shape, shape': Shape, s: nat, o: nat, f: nat,
                 level: Level, base: nat, first: nat, i: nat, w: Word, lo: nat, hi: nat, hi': nat,
                   clean: bool, below: Level, inner: nat, next: nat)
    requires Progress(m0, m, shape, s, f, level, base, first, i, lo, hi, clean) && i < 512
    requires below == level - 1 && inner == base * 512 + i && next == i + 1
    requires SlotFilled(m, m', shape, shape', f, i, w, hi, hi') && !(lo <= f < hi')
    requires ChildDone(m0, m', shape', o, hi, below, inner, hi', clean)
    requires Pointer(w) && FrameOf(w) == hi && Flags(w) == Flags(Entry(m0, s, i))
    requires clean ==> w == hi * 4096 + w % 4096
    requires Pointer(Entry(m0, s, i)) && FrameOf(Entry(m0, s, i)) == o
    ensures Progress(m0, m', shape', s, f, level, base, first, next, lo, hi', clean)
  {
    SlotCloses(m0, m, m', shape, shape', s, o, f, level, base, first, i, w, lo, hi, hi', clean);
    assert f in shape';
    forall j | i + 1 <= j < 512
      ensures Entry(m', f, j) == Entry(m0, s, j)
    {
      assert Entry(m, f, j) == Entry(m0, s, j);
    }
    forall j | first <= j < i + 1
      ensures NewLink(m', shape', f, j, lo, hi', clean)
    {
      SlotLinks(m0, m, m', shape, shape', s, o, f, level, base, first, i, w, lo, hi, hi', clean, j);
    }
    forall p: nat | Region(p, level + 1) == base && first <= Index(p, level) < i + 1
      ensures Trail(m', f, level, p) == Trail(m0, s, level, p)
    {
      SlotCopies(m0, m, m', shape, shape', s, o, f, level, base, first, i, w, lo, hi, hi', clean, p);
    }
  }
}
