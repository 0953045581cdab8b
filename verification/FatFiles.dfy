/** Cluster chains and the bytes of files. */
module FatFiles {
  import opened Bytes
  import opened Words
  import opened FatSpec
  import opened FatLayout

  type Chain = seq<nat>

  /** A cluster that the driver can follow and read. */
  ghost predicate Readable(v: Volume, c: nat)
    requires WellFormed(v)
  {
    && 2 <= c < 0xFF8 && InFat(v, c)
    && v.dataLba + (c - 2) * v.spc + v.spc <= |v.disk|
  }

  /** Cluster `i` is followed by the next one, or by an end mark if it is the last. */
  ghost predicate Follows(v: Volume, chain: Chain, i: nat)
    requires WellFormed(v) && i < |chain|
  {
    && Readable(v, chain[i])
    && if i + 1 < |chain| then FatEntry(v, chain[i]) == chain[i + 1] else FatEntry(v, chain[i]) >= 0xFF8
  }

  ghost predicate IsChain(v: Volume, chain: Chain) {
    && WellFormed(v) && |chain| > 0
    && forall i: nat {:trigger Follows(v, chain, i)} | i < |chain| :: Follows(v, chain, i)
  }

  /** A chain that came back to a cluster would never end. */
  lemma {:induction false} ChainInjective(v: Volume, chain: Chain, i: nat, j: nat)
    requires IsChain(v, chain) && i < j < |chain|
    ensures chain[i] != chain[j]
    decreases |chain| - j
  {
    assert Follows(v, chain, i) && Follows(v, chain, i + 1) && Follows(v, chain, j);
    if j + 1 < |chain| {
      ChainInjective(v, chain, i + 1, j + 1);
    }
  }

  /** Hence it is shorter than the table, and no byte position in it needs 32 bits. */
  lemma ChainBounded(v: Volume, chain: Chain)
    requires IsChain(v, chain)
    ensures |chain| <= 4086 && |chain| * v.spc * 512 < TWO32
  {
    forall i: nat, j: nat | i < j < |chain|
      ensures chain[i] != chain[j]
    {
      ChainInjective(v, chain, i, j);
    }
    forall i: nat | i < |chain|
      ensures chain[i] < 4088 && chain[i] >= 2
    {
      assert Follows(v, chain, i);
    }
    DistinctBelow(chain, 2, 4088);
    ProductAtMost(|chain|, v.spc);
  }

  lemma ProductAtMost(n: nat, s: nat)
    requires n <= 4086 && s < 0x100
    ensures n * s <= 4086 * 255
  {
  }

  /** Distinct numbers from `lo` to `hi` are at most `hi - lo` many. */
  lemma {:induction false} DistinctBelow(s: seq<nat>, lo: nat, hi: nat)
    requires lo <= hi && forall i: nat, j: nat | i < j < |s| :: s[i] != s[j]
    requires forall i: nat | i < |s| :: lo <= s[i] < hi
    ensures |s| <= hi - lo
    decreases hi
  {
    assert |s| == 0 || lo <= s[0] < hi;
    if lo == hi {
    } else if k: nat :| k < |s| && s[k] == hi - 1 {
      DistinctBelow(s[..k] + s[k + 1..], lo, hi - 1);
    } else {
      DistinctBelow(s, lo, hi - 1);
    }
  }

  // ----- contents

  function Sectors(v: Volume, chain: Chain): nat { |chain| * v.spc }

  function ByteCount(v: Volume, chain: Chain): nat { Sectors(v, chain) * 512 }

  lemma SectorInChain(v: Volume, chain: Chain, s: nat)
    requires v.spc > 0 && s < Sectors(v, chain)
    ensures s / v.spc < |chain| && s % v.spc < v.spc
  {
  }

  function ClusterIndex(v: Volume, chain: Chain, s: nat): (i: nat)
    requires v.spc > 0 && s < Sectors(v, chain)
    ensures i == s / v.spc && i < |chain|
  {
    SectorInChain(v, chain, s);
    s / v.spc
  }

  /** The cluster that holds sector `s` of a chain. */
  ghost function ClusterOf(v: Volume, chain: Chain, s: nat): nat
    requires IsChain(v, chain) && s < Sectors(v, chain)
  {
    chain[ClusterIndex(v, chain, s)]
  }

  lemma ClusterReadable(v: Volume, chain: Chain, s: nat)
    requires IsChain(v, chain) && s < Sectors(v, chain)
    ensures Readable(v, ClusterOf(v, chain, s)) && s % v.spc < v.spc
  {
    assert Follows(v, chain, s / v.spc);
  }

  /** Sector `r` of cluster `c`. */
  function ClusterSector(v: Volume, c: nat, r: nat): Sector
    requires 2 <= c && r < v.spc && v.dataLba + (c - 2) * v.spc + v.spc <= |v.disk|
  {
    v.disk[v.dataLba + (c - 2) * v.spc + r]
  }

  /** Sector `s` of the concatenated clusters. */
  ghost function SectorAt(v: Volume, chain: Chain, s: nat): Sector
    requires IsChain(v, chain) && s < Sectors(v, chain)
  {
    ClusterReadable(v, chain, s);
    ClusterSector(v, ClusterOf(v, chain, s), s % v.spc)
  }

  ghost function ByteAt(v: Volume, chain: Chain, k: nat): Byte
    requires IsChain(v, chain) && k < ByteCount(v, chain)
  {
    SectorAt(v, chain, k / 512)[k % 512]
  }

  /** Bytes `a` to `b` of the concatenated clusters. */
  ghost function Slice(v: Volume, chain: Chain, a: nat, b: nat): (s: seq<Byte>)
    requires IsChain(v, chain) && a <= b <= ByteCount(v, chain)
    ensures |s| == b - a
    ensures forall k: nat {:trigger s[k]} | k < b - a :: s[k] == ByteAt(v, chain, a + k)
  {
    seq<Byte>(b - a, k requires 0 <= k < b - a => ByteAt(v, chain, a + k))
  }

  /** Byte `r` of sector `s`. */
  lemma ByteInSector(v: Volume, chain: Chain, s: nat, r: nat)
    requires IsChain(v, chain) && s < Sectors(v, chain) && r < 512
    ensures s * 512 + r < ByteCount(v, chain) && ByteAt(v, chain, s * 512 + r) == SectorAt(v, chain, s)[r]
  {
    QuotientRemainder(s * 512 + r, s, 512, r);
  }

  /** A slice inside one sector is a slice of that sector. */
  lemma SliceInSector(v: Volume, chain: Chain, a: nat, n: nat)
    requires IsChain(v, chain) && a < ByteCount(v, chain) && a % 512 + n <= 512
    ensures a / 512 < Sectors(v, chain) && a + n <= ByteCount(v, chain)
    ensures Slice(v, chain, a, a + n) == SectorAt(v, chain, a / 512)[a % 512..a % 512 + n]
  {
    var s, r := a / 512, a % 512;
    var slice, sector := Slice(v, chain, a, a + n), SectorAt(v, chain, s);
    forall k: nat | k < n
      ensures slice[k] == sector[r..r + n][k]
    {
      ByteInSector(v, chain, s, r + k);
    }
  }

  lemma SliceJoin(v: Volume, chain: Chain, a: nat, b: nat, c: nat)
    requires IsChain(v, chain) && a <= b <= c <= ByteCount(v, chain)
    ensures Slice(v, chain, a, b) + Slice(v, chain, b, c) == Slice(v, chain, a, c)
  {
  }

  /** One sector further: the sector counter and the cluster move as in `read`. */
  lemma NextSector(v: Volume, s: nat)
    requires v.spc > 0
    ensures (s + 1) / v.spc == if s % v.spc + 1 >= v.spc then s / v.spc + 1 else s / v.spc
    ensures (s + 1) % v.spc == if s % v.spc + 1 >= v.spc then 0 else s % v.spc + 1
  {
    if s % v.spc + 1 >= v.spc {
      assert s + 1 == (s / v.spc + 1) * v.spc;
      QuotientRemainder(s + 1, s / v.spc + 1, v.spc, 0);
    } else {
      QuotientRemainder(s + 1, s / v.spc, v.spc, s % v.spc + 1);
    }
  }

  // ----- the lookups of a read

  /** Clusters behind which a reader goes on from byte `a` to byte `b`: those whose entry
      `NextCluster` looks up. */
  function Crossed(v: Volume, chain: Chain, a: nat, b: nat): seq<nat>
    requires v.spc > 0
  {
    if a / 512 / v.spc <= b / 512 / v.spc <= |chain| then chain[a / 512 / v.spc..b / 512 / v.spc] else []
  }

  /** The lookups from byte `a` to byte `b` are untroubled and leave the cache at `final`. */
  predicate CacheRuns(v: Volume, chain: Chain, a: nat, b: nat, position: nat, final: nat)
    requires v.spc > 0
  {
    Untroubled(position, Crossed(v, chain, a, b)) && PositionAfter(position, Crossed(v, chain, a, b)) == final
  }

  lemma WholeClusters(v: Volume, chain: Chain, s: nat)
    requires v.spc > 0 && s <= Sectors(v, chain)
    ensures s / v.spc <= |chain|
  {
    assert s == s / v.spc * v.spc + s % v.spc;
    if |chain| < s / v.spc {
      LargerProduct(|chain|, s / v.spc, v.spc);
    }
  }

  lemma LaterCluster(s: nat, t: nat, d: nat)
    requires d > 0 && s <= t
    ensures s / d <= t / d
  {
    assert s == s / d * d + s % d && t == t / d * d + t % d;
    if t / d < s / d {
      LargerProduct(t / d, s / d, d);
    }
  }

  /** Using up sector `s` on the way to byte `b` looks its cluster up if it was the last
      sector of that cluster. */
  lemma CrossedStep(v: Volume, chain: Chain, a: nat, s: nat, b: nat)
    requires v.spc > 0 && a / 512 == s && (s + 1) * 512 <= b <= ByteCount(v, chain)
    ensures s < Sectors(v, chain) && s / v.spc < |chain|
    ensures Crossed(v, chain, a, b) ==
      (if s % v.spc + 1 >= v.spc then [chain[s / v.spc]] else []) + Crossed(v, chain, (s + 1) * 512, b)
  {
    SectorInChain(v, chain, s);
    NextSector(v, s);
    WholeClusters(v, chain, b / 512);
    LaterCluster(s + 1, b / 512, v.spc);
    QuotientRemainder((s + 1) * 512, s + 1, 512, 0);
  }

  lemma RunsStep(v: Volume, chain: Chain, a: nat, s: nat, b: nat, position: nat, final: nat)
    requires v.spc > 0 && a / 512 == s && (s + 1) * 512 <= b <= ByteCount(v, chain)
    requires CacheRuns(v, chain, a, b, position, final)
    ensures s < Sectors(v, chain) && s / v.spc < |chain|
    ensures s % v.spc + 1 >= v.spc ==> !StraddlingHit(position, chain[s / v.spc])
    ensures CacheRuns(v, chain, (s + 1) * 512, b,
                      if s % v.spc + 1 >= v.spc then NextPosition(position, chain[s / v.spc]) else position, final)
  {
    CrossedStep(v, chain, a, s, b);
    var rest := Crossed(v, chain, (s + 1) * 512, b);
    if s % v.spc + 1 >= v.spc {
      assert Crossed(v, chain, a, b)[1..] == rest;
    } else {
      assert Crossed(v, chain, a, b) == rest;
    }
  }

  /** Two runs of lookups one after the other. */
  lemma {:induction false} UntroubledTwice(position: nat, x: seq<nat>, y: seq<nat>)
    ensures Untroubled(position, x + y) <==> Untroubled(position, x) && Untroubled(PositionAfter(position, x), y)
    ensures PositionAfter(position, x + y) == PositionAfter(PositionAfter(position, x), y)
    decreases |x|
  {
    if x == [] {
      assert x + y == y;
    } else {
      assert (x + y)[0] == x[0] && (x + y)[1..] == x[1..] + y;
      UntroubledTwice(NextPosition(position, x[0]), x[1..], y);
    }
  }

  /** The lookups are untroubled and leave the cache at `final`. */
  predicate Heading(position: nat, lookups: seq<nat>, final: nat) {
    Untroubled(position, lookups) && PositionAfter(position, lookups) == final
  }

  lemma HeadingSplit(position: nat, x: seq<nat>, y: seq<nat>, final: nat)
    requires Heading(position, x + y, final)
    ensures Untroubled(position, x) && Heading(PositionAfter(position, x), y, final)
  {
    UntroubledTwice(position, x, y);
  }

  lemma CrossedTwice(v: Volume, chain: Chain, a: nat, b: nat, c: nat)
    requires v.spc > 0 && a <= b <= c <= ByteCount(v, chain)
    ensures Crossed(v, chain, a, b) + Crossed(v, chain, b, c) == Crossed(v, chain, a, c)
  {
    LaterByte(v, a, b);
    LaterByte(v, b, c);
    WholeClusters(v, chain, c / 512);
    SlicesJoin(chain, a / 512 / v.spc, b / 512 / v.spc, c / 512 / v.spc);
  }

  lemma SlicesJoin(s: seq<nat>, i: nat, j: nat, k: nat)
    requires i <= j <= k <= |s|
    ensures s[i..j] + s[j..k] == s[i..k]
  {
  }

  lemma LaterByte(v: Volume, a: nat, b: nat)
    requires v.spc > 0 && a <= b
    ensures a / 512 / v.spc <= b / 512 / v.spc
  {
    LaterCluster(a, b, 512);
    LaterCluster(a / 512, b / 512, v.spc);
  }

  /** A run of lookups up to byte `c` begins with the one up to byte `b`. */
  lemma RunsSplit(v: Volume, chain: Chain, a: nat, b: nat, c: nat, position: nat, final: nat)
    requires v.spc > 0 && a <= b <= c <= ByteCount(v, chain) && CacheRuns(v, chain, a, c, position, final)
    ensures Untroubled(position, Crossed(v, chain, a, b))
    ensures CacheRuns(v, chain, b, c, PositionAfter(position, Crossed(v, chain, a, b)), final)
  {
    CrossedTwice(v, chain, a, b, c);
    UntroubledTwice(position, Crossed(v, chain, a, b), Crossed(v, chain, b, c));
  }

  /** Within one sector nothing is looked up. */
  lemma RunsStay(v: Volume, chain: Chain, a: nat, a': nat, b: nat, position: nat, final: nat)
    requires v.spc > 0 && a / 512 == a' / 512 && CacheRuns(v, chain, a, b, position, final)
    ensures CacheRuns(v, chain, a', b, position, final)
    ensures a' == b ==> position == final
  {
  }

  lemma RunsDone(v: Volume, chain: Chain, b: nat, position: nat, final: nat)
    requires v.spc > 0 && CacheRuns(v, chain, b, b, position, final)
    ensures position == final
  {
  }
}
