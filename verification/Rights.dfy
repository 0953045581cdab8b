/** What the entries on a walk let the processor do, section 4.6 of the Intel 64 and
    IA-32 Software Developer's Manual, Volume 3A: writing needs bit 1 in every one of them,
    and fetching instructions needs bit 63 clear in every one. */
module Rights {
  import opened Words
  import opened Memory
  import opened Paging
  import opened Trees
  import opened Spaces

  /** Present and writable, with bit 63 clear. */
  predicate Grants(w: Word) { w % 4 == 3 && w < 0x8000_0000_0000_0000 }

  predicate AllGrant(trail: seq<Word>) {
    forall k: nat {:trigger trail[k]} | k < |trail| :: Grants(trail[k])
  }

  /** The page is mapped, and every entry on its walk lets the processor write to it and
      execute from it. */
  ghost predicate Granted(s: Space, p: nat) {
    s.Walked(p).Leaf? && AllGrant(Trail(s.ram, s.root, 3, p))
  }

  /** Every entry that points to a table is its address with bits 0 and 1 set. */
  ghost predicate OpenLink(s: Space, t: nat, i: nat)
    requires i < 512
  {
    var w := Entry(s.ram, t, i);
    Pointer(w) ==> w == FrameOf(w) * 4096 + 3
  }

  ghost predicate TablesOpen(s: Space) {
    forall t: nat, i: nat {:trigger OpenLink(s, t, i)} | t in s.shape && s.shape[t].level > 0 && i < 512 ::
      OpenLink(s, t, i)
  }

  /** The mapper keeps that. */
  lemma StaysOpen(s: Space, s': Space)
    requires TablesOpen(s) && LinksKept(s, s')
    requires forall t {:trigger s'.shape[t]} | t in s.shape && t in s'.shape :: s'.shape[t] == s.shape[t]
    ensures TablesOpen(s')
  {
    forall t: nat, i: nat | t in s'.shape && s'.shape[t].level > 0 && i < 512
      ensures OpenLink(s', t, i)
    {
      assert LinkKept(s, s', t, i);
      if t in s.shape {
        assert OpenLink(s, t, i);
      }
    }
  }

  lemma OpenFlags(f: nat)
    requires f < PAGES
    ensures Flags(f * 4096 + 3) == 3
  {
    QuotientRemainder(f * 4096 + 3, f, 4096, 3);
  }

  lemma {:induction false} OpenTrail(s: Space, t: nat, level: Level, p: nat)
    requires TablesOpen(s) && Tree(s.ram, s.root, s.shape)
    requires t in s.shape && s.shape[t] == Node(level, Region(p, level + 1))
    requires Walk(s.ram, t, level, p).Leaf?
    ensures AllGrant(Trail(s.ram, t, level, p)) <==> Grants(Walk(s.ram, t, level, p).entry)
    decreases level
  {
    var i := Index(p, level);
    var w := Entry(s.ram, t, i);
    if level > 0 && Pointer(w) {
      var below := level - 1;
      RegionStep(p, level);
      assert Linked(s.ram, s.shape, t, i) && OpenLink(s, t, i);
      OpenFlags(FrameOf(w));
      OpenTrail(s, FrameOf(w), below, p);
      OneMoreGrants(3, Trail(s.ram, FrameOf(w), below, p));
    } else {
      assert Trail(s.ram, t, level, p)[0] == w;
    }
  }

  lemma OneMoreGrants(w: Word, trail: seq<Word>)
    requires Grants(w)
    ensures AllGrant([w] + trail) <==> AllGrant(trail)
  {
    if AllGrant([w] + trail) {
      forall k: nat | k < |trail|
        ensures Grants(trail[k])
      {
        assert ([w] + trail)[k + 1] == trail[k];
      }
    }
  }

  /** With such tables the leaf alone decides. */
  lemma LeafDecides(s: Space, p: nat)
    requires s.Valid() && TablesOpen(s) && p < PAGES && s.Walked(p).Leaf?
    ensures Granted(s, p) <==> Grants(s.Walked(p).entry)
  {
    RootRegion(p);
    OpenTrail(s, s.root, 3, p);
  }

  /** The two walks of a page that keeps its leaf pass the same tables. */
  lemma {:induction false} SameTrailFrom(s: Space, s': Space, t: nat, level: Level, p: nat)
    requires Kept(s, s') && s.Valid() && t in s.shape && s.shape[t] == Node(level, Region(p, level + 1))
    requires Walk(s.ram, t, level, p).Leaf? && Walk(s'.ram, t, level, p) == Walk(s.ram, t, level, p)
    ensures Trail(s'.ram, t, level, p) == Trail(s.ram, t, level, p)
    decreases level
  {
    if level > 0 {
      var i, below := Index(p, level), level - 1;
      var w, w' := Entry(s.ram, t, i), Entry(s'.ram, t, i);
      assert LinkKept(s, s', t, i);
      StopsBelow(s.ram, FrameOf(w), below, p);
      StopsBelow(s'.ram, FrameOf(w'), below, p);
      if Pointer(w) {
        RegionStep(p, level);
        assert Linked(s.ram, s.shape, t, i);
        SameTrailFrom(s, s', FrameOf(w), below, p);
      }
    }
  }

  /** Whatever the mapper does, a page that keeps its leaf keeps its rights. */
  lemma RightsStay(s: Space, s': Space, p: nat)
    requires Kept(s, s') && s.Valid() && p < PAGES && s.Walked(p).Leaf? && s'.Walked(p) == s.Walked(p)
    ensures Trail(s'.ram, s'.root, 3, p) == Trail(s.ram, s.root, 3, p)
    ensures Granted(s', p) <==> Granted(s, p)
  {
    RootRegion(p);
    SameTrailFrom(s, s', s.root, 3, p);
  }
}
