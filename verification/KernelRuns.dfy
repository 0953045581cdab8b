/** Whole runs of the kernel's mapper. */
module KernelRuns {
  import opened Words
  import opened Memory
  import opened Paging
  import opened Updates
  import opened Windows
  import opened Ranges
  import opened Spaces
  import opened Runs
  import opened Machines
  import opened KernelMemory

  datatype Order = Map(virt: Word, phys: Word, count: Word) | Unmap(virt: Word, count: Word)

  /** The flat page map after the first `n` orders. */
  function Flat(q: nat, orders: seq<Order>, n: nat, before: Option<nat>): Option<nat>
    requires n <= |orders|
  {
    if n == 0 then before
    else match orders[n - 1]
      case Map(virt, phys, count) => Remapped(q, virt, phys, count, Flat(q, orders, n - 1, before))
      case Unmap(virt, count) => Removed(q, virt, count, Flat(q, orders, n - 1, before))
  }

  /** Where the walk of page `q` ends after the first `n` orders. */
  ghost function FlatLeaf(q: nat, orders: seq<Order>, n: nat, before: Outcome): Outcome
    requires n <= |orders|
  {
    if n == 0 then before
    else match orders[n - 1]
      case Map(virt, phys, count) => LeafAfter(q, virt, phys, 3, count, FlatLeaf(q, orders, n - 1, before))
      case Unmap(virt, count) => if InRun(q, virt, count) then Hole(0, 0) else FlatLeaf(q, orders, n - 1, before)
  }

  /** After `n` orders every page has the entry that the orders give it, or none. */
  ghost predicate PlayedLeaves(s: Space, s': Space, orders: seq<Order>, n: nat)
    requires n <= |orders|
  {
    forall q: nat {:trigger s'.Walked(q)} | q < PAGES ::
      Alike(s'.Walked(q), FlatLeaf(q, orders, n, s.Walked(q)))
  }

  lemma LeavesStart(s: Space, orders: seq<Order>)
    ensures PlayedLeaves(s, s, orders, 0)
  {
  }

  lemma LeavesMap(s: Space, a: Space, b: Space, orders: seq<Order>, n: nat)
    requires n < |orders| && orders[n].Map? && PlayedLeaves(s, a, orders, n)
    requires LeavesRun(a, b, orders[n].virt, orders[n].phys, 3, orders[n].count)
    ensures PlayedLeaves(s, b, orders, n + 1)
  {
    var order := orders[n];
    forall q: nat | q < PAGES
      ensures Alike(b.Walked(q), FlatLeaf(q, orders, n + 1, s.Walked(q)))
    {
      var o := FlatLeaf(q, orders, n, s.Walked(q));
      assert Alike(a.Walked(q), o);
      assert Alike(b.Walked(q), LeafAfter(q, order.virt, order.phys, 3, order.count, a.Walked(q)));
      LeafOfAlike(q, order.virt, order.phys, 3, order.count, a.Walked(q), o);
    }
  }

  lemma {:induction false} LeafOfAlike(q: nat, virt: Word, phys: Word, low: nat, n: nat, o: Outcome, o': Outcome)
    requires low < 4096 && Alike(o, o')
    ensures Alike(LeafAfter(q, virt, phys, low, n, o), LeafAfter(q, virt, phys, low, n, o'))
  {
    if n > 0 {
      LeafOfAlike(q, virt, phys, low, n - 1, o, o');
    }
  }

  lemma LeavesUnmap(s: Space, a: Space, b: Space, orders: seq<Order>, n: nat)
    requires n < |orders| && orders[n].Unmap? && PlayedLeaves(s, a, orders, n)
    requires LeavesGone(a, b, orders[n].virt, orders[n].count)
    ensures PlayedLeaves(s, b, orders, n + 1)
  {
    var order := orders[n];
    forall q: nat | q < PAGES
      ensures Alike(b.Walked(q), FlatLeaf(q, orders, n + 1, s.Walked(q)))
    {
      assert Alike(a.Walked(q), FlatLeaf(q, orders, n, s.Walked(q)));
      if InRun(q, order.virt, order.count) {
        var i: nat :| i < order.count && PageAt(order.virt, i) == q;
        assert b.Walked(PageAt(order.virt, i)).Hole?;
      } else {
        assert Alike(b.Walked(q), a.Walked(q));
      }
    }
  }

  /** A bound on the tables that a run can need. */
  function Cost(orders: seq<Order>, n: nat): nat
    requires n <= |orders|
  {
    if n == 0 then 0
    else Cost(orders, n - 1) + if orders[n - 1].Map? then Touched(orders[n - 1].virt, orders[n - 1].count) else 0
  }

  lemma {:induction false} CostGrows(orders: seq<Order>, n: nat, m: nat)
    requires n <= m <= |orders|
    ensures Cost(orders, n) <= Cost(orders, m)
    decreases m
  {
    if n < m {
      CostGrows(orders, n, m - 1);
    }
  }

  ghost predicate Ready(s: Space, orders: seq<Order>) {
    && s.Valid() && s.Room(Cost(orders, |orders|))
    && forall i: nat {:trigger orders[i]} | i < |orders| :: PagesFree(s, orders[i].virt, orders[i].count)
  }

  /** After `n` orders: the invariant holds and the translation is the flat page map. */
  ghost predicate Played(s: Space, s': Space, orders: seq<Order>, n: nat)
    requires n <= |orders|
  {
    && Kept(s, s') && s'.Free() <= s.Free() + Cost(orders, n)
    && (forall q: nat {:trigger s'.Translated(q)} | q < PAGES ::
          s'.Translated(q) == Flat(q, orders, n, s.Translated(q)))
    && (forall q: nat {:trigger s'.Smooth(q, 0)} | q < PAGES && s.Smooth(q, 0) :: s'.Smooth(q, 0))
  }

  lemma PlayedNothing(s: Space, orders: seq<Order>)
    requires s.Valid()
    ensures Played(s, s, orders, 0)
  {
  }

  lemma OrderReady(s: Space, a: Space, orders: seq<Order>, n: nat)
    requires Ready(s, orders) && n < |orders| && Played(s, a, orders, n)
    ensures PagesFree(a, orders[n].virt, orders[n].count)
    ensures orders[n].Map? ==> ReadyToMap(a, orders[n].virt, orders[n].count)
  {
    CostGrows(orders, n + 1, |orders|);
    var order := orders[n];
    assert PagesFree(s, order.virt, order.count);
    forall i: nat | i < order.count
      ensures OutsideWindow(a.win, PageAt(order.virt, i)) && a.Smooth(PageAt(order.virt, i), 0)
    {
      assert s.Smooth(PageAt(order.virt, i), 0);
    }
  }

  lemma PlayedMap(s: Space, a: Space, b: Space, orders: seq<Order>, n: nat)
    requires n < |orders| && orders[n].Map? && Played(s, a, orders, n)
    requires MapsRun(a, b, orders[n].virt, orders[n].phys, orders[n].count)
    ensures Played(s, b, orders, n + 1)
  {
    KeptTransitive(s, a, b);
    forall q: nat | q < PAGES
      ensures b.Translated(q) == Flat(q, orders, n + 1, s.Translated(q))
      ensures s.Smooth(q, 0) ==> b.Smooth(q, 0)
    {
      assert a.Translated(q) == Flat(q, orders, n, s.Translated(q));
      assert s.Smooth(q, 0) ==> a.Smooth(q, 0);
    }
  }

  lemma PlayedUnmap(s: Space, a: Space, b: Space, orders: seq<Order>, n: nat)
    requires n < |orders| && orders[n].Unmap? && Played(s, a, orders, n)
    requires UnmapsRun(a, b, orders[n].virt, orders[n].count)
    ensures Played(s, b, orders, n + 1)
  {
    KeptTransitive(s, a, b);
    forall q: nat | q < PAGES
      ensures b.Translated(q) == Flat(q, orders, n + 1, s.Translated(q))
      ensures s.Smooth(q, 0) ==> b.Smooth(q, 0)
    {
      assert a.Translated(q) == Flat(q, orders, n, s.Translated(q));
      assert s.Smooth(q, 0) ==> a.Smooth(q, 0);
    }
  }

  /** In every run the self-mapping invariant holds throughout and the translation is
      the flat page map. */
  method Replay(k: Machine, orders: seq<Order>)
    requires k.Valid() && Ready(k.View(), orders)
    modifies k`ram, k`heap, k`shape
    ensures k.Valid() && Played(old(k.View()), k.View(), orders, |orders|)
    ensures PlayedLeaves(old(k.View()), k.View(), orders, |orders|)
  {
    ghost var s := k.View();
    PlayedNothing(s, orders);
    LeavesStart(s, orders);
    for n := 0 to |orders|
      invariant k.Valid() && Played(s, k.View(), orders, n) && PlayedLeaves(s, k.View(), orders, n)
    {
      Obey(k, orders, s, n);
    }
  }

  /** Carries out order `n`. */
  method Obey(k: Machine, orders: seq<Order>, ghost s: Space, n: nat)
    requires k.Valid() && Ready(s, orders) && n < |orders|
    requires Played(s, k.View(), orders, n) && PlayedLeaves(s, k.View(), orders, n)
    modifies k`ram, k`heap, k`shape
    ensures k.Valid() && Played(s, k.View(), orders, n + 1) && PlayedLeaves(s, k.View(), orders, n + 1)
  {
    ghost var a := k.View();
    OrderReady(s, a, orders, n);
    match orders[n] {
      case Map(virt, phys, count) =>
        Map4K(k, virt, phys, count);
        PlayedMap(s, a, k.View(), orders, n);
        LeavesMap(s, a, k.View(), orders, n);
      case Unmap(virt, count) =>
        Unmap4K(k, virt, count);
        PlayedUnmap(s, a, k.View(), orders, n);
        LeavesUnmap(s, a, k.View(), orders, n);
    }
  }

  /** The invariant means: every table that a walk passes is seen at its physical
      address plus `KERNEL_OFFSET`, whatever page is walked. */
  lemma TablesVisible(s: Space, p: nat, level: Level, t: nat)
    requires s.Valid() && Passes(s.ram, s.root, p, level, t)
    ensures s.Translated(PageOf(Add64(t * 4096, s.win.Offset()))) == Some(t)
    ensures Canonical(Add64(t * 4096, s.win.Offset()))
  {
    PassesNode(s.ram, s.root, s.shape, p, level, t);
    InWindow(s.ram, s.root, s.win, t);
    assert Canonical(Pointer64(s.win, t));
  }
}
