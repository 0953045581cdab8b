/** A FAT12 volume as a value: its table of 12-bit entries, its cluster chains and
    the files they hold. The on-disk format is that of the Microsoft FAT
    specification, version 1.03. */
module FatSpec {
  import opened Bytes

  /** `disk` and the numbers `initialize` takes from the boot sector. */
  datatype Volume = Volume(disk: seq<Sector>, reserved: nat, fatSize: nat, spc: nat,
                           rootLba: nat, rootEntries: nat, dataLba: nat)

  const CACHE: nat := 5           // FAT_CACHE_SIZE
  const NO_CACHE: nat := 0xFFFF_FFFF

  /** The volume lies on the disk, and so do the five sectors a FAT read can ask for. */
  ghost predicate WellFormed(v: Volume) {
    && 0 < v.spc < 0x100 && 0 < v.rootEntries < 0x1_0000 && v.fatSize < 0x1_0000
    && v.reserved + v.fatSize + CACHE <= |v.disk|
    && v.rootLba < |v.disk| < 0x1000_0000
  }

  /** Byte `k` of the first FAT. */
  function FatByte(v: Volume, k: nat): Byte
    requires v.reserved + k / 512 < |v.disk|
  {
    v.disk[v.reserved + k / 512][k % 512]
  }

  /** Where the entry of a cluster starts. */
  function FatIndex(c: nat): nat { c * 3 / 2 }

  /** Both bytes of the entry lie in the FAT. */
  predicate InFat(v: Volume, c: nat) { FatIndex(c) + 1 < v.fatSize * 512 }

  /** A cache refill for the entry of this cluster stays on the disk. */
  predicate Fetchable(v: Volume, c: nat) { v.reserved + FatIndex(c) / 512 + CACHE <= |v.disk| }

  /** A 12-bit entry from the two bytes that hold it. */
  function Unpack(c: nat, low: Byte, high: Byte): (e: nat)
    ensures e < 0x1000
  {
    var l: nat, h: nat := low, high;
    if c % 2 == 0 then l + h % 16 * 256 else l / 16 + h * 16
  }

  function FatEntry(v: Volume, c: nat): nat
    requires WellFormed(v) && InFat(v, c)
  {
    Unpack(c, FatByte(v, FatIndex(c)), FatByte(v, FatIndex(c) + 1))
  }

  /** End marks come back sign-extended to 32 bits. */
  function Extended(e: nat): nat { if e >= 0xFF8 then e + 0xFFFF_F000 else e }

  // ----- the FAT cache

  /** A hit on an entry whose second byte is the one behind the cache. */
  predicate Straddles(position: nat, c: nat) { FatIndex(c) == 512 * (position + CACHE) - 1 }

  predicate Hit(position: nat, c: nat) {
    position <= FatIndex(c) / 512 < position + CACHE
  }

  /** Where the cache is after a lookup. */
  function NextPosition(position: nat, c: nat): nat {
    if Hit(position, c) then position else FatIndex(c) / 512
  }

  /** The cache position and the value that `NextCluster` produces. On a straddling
      hit the second byte is the low byte of the cache position, which is stored
      right behind the cache. */
  function Lookup(v: Volume, position: nat, c: nat): (nat, nat)
    requires Fetchable(v, c)
  {
    var position' := NextPosition(position, c);
    var high: Byte := if Straddles(position', c) then position' % 256 else FatByte(v, FatIndex(c) + 1);
    (position', Extended(Unpack(c, FatByte(v, FatIndex(c)), high)))
  }

  /** The clusters whose entry some cache position can misread. */
  predicate Risky(c: nat) { c in {1706, 2389, 2730, 3413, 3754} }

  lemma RiskyExactly(c: nat)
    requires c < 0xFF8
    ensures Risky(c) <==> exists position: nat :: Straddles(position, c)
  {
    var i := FatIndex(c);
    if position: nat :| Straddles(position, c) {
      assert i == 512 * (position + CACHE) - 1;
      assert position <= 6;
      assert position == 0 || position == 1 || position == 2 || position == 3 || position == 4 || position == 5
             || position == 6;
    }
    if Risky(c) {
      var position := (i + 1) / 512 - CACHE;
      assert Straddles(position, c);
    }
  }

  /** With a FAT of at most five sectors no entry can be misread. */
  lemma SmallFatNeverRisky(v: Volume, c: nat)
    requires v.fatSize <= 5 && InFat(v, c)
    ensures !Risky(c)
  {
  }

  /** Transparency: except on a straddling hit the cache is invisible. */
  lemma CacheTransparent(v: Volume, position: nat, c: nat)
    requires WellFormed(v) && InFat(v, c)
    requires !StraddlingHit(position, c)
    ensures Lookup(v, position, c).1 == Extended(FatEntry(v, c))
  {
  }

  // ----- runs of lookups

  /** A hit that misreads its entry. */
  predicate StraddlingHit(position: nat, c: nat) { Hit(position, c) && Straddles(position, c) }

  /** No lookup of a run is a straddling hit. */
  predicate Untroubled(position: nat, clusters: seq<nat>)
    decreases |clusters|
  {
    clusters == []
    || (!StraddlingHit(position, clusters[0]) && Untroubled(NextPosition(position, clusters[0]), clusters[1..]))
  }

  /** Where the cache is after a run of lookups. */
  function PositionAfter(position: nat, clusters: seq<nat>): nat
    decreases |clusters|
  {
    if clusters == [] then position else PositionAfter(NextPosition(position, clusters[0]), clusters[1..])
  }

  /** Clusters that no cache position misreads. */
  predicate Calm(clusters: seq<nat>) {
    forall i: nat {:trigger clusters[i]} | i < |clusters| :: clusters[i] < 0xFF8 && !Risky(clusters[i])
  }

  /** Runs over such clusters are untroubled wherever the cache is. */
  lemma {:induction false} CalmIsUntroubled(position: nat, clusters: seq<nat>)
    requires Calm(clusters)
    ensures Untroubled(position, clusters)
    decreases |clusters|
  {
    if clusters != [] {
      RiskyExactly(clusters[0]);
      CalmIsUntroubled(NextPosition(position, clusters[0]), clusters[1..]);
    }
  }

  /** The disk with one byte of the FAT replaced. */
  function WithFatByte(v: Volume, k: nat, b: Byte): Volume
    requires v.reserved + k / 512 < |v.disk|
  {
    var lba := v.reserved + k / 512;
    v.(disk := v.disk[lba := v.disk[lba][k % 512 := b]])
  }

  /** On a straddling hit the answer is wrong for some content of the FAT. */
  lemma StraddleMisreads(v: Volume, position: nat, c: nat) returns (v': Volume)
    requires WellFormed(v) && InFat(v, c) && StraddlingHit(position, c)
    ensures WellFormed(v') && InFat(v', c) && v' == v.(disk := v'.disk) && |v'.disk| == |v.disk|
    ensures Lookup(v', position, c).1 != Extended(FatEntry(v', c))
  {
    var wrong: nat := position % 256;
    var right: Byte := if wrong == 255 then 0 else wrong + 1;
    v' := WithFatByte(v, FatIndex(c) + 1, right);
    v' := WithFatByte(v', FatIndex(c), 0);
  }

  /** The cache returns the true entry for every content of the FAT exactly when the
      lookup is not a straddling hit. */
  lemma CacheExactlyTransparent(v: Volume, position: nat, c: nat)
    requires WellFormed(v) && InFat(v, c)
    ensures (forall disk: seq<Sector> | |disk| == |v.disk| ::
               Lookup(v.(disk := disk), position, c).1 == Extended(FatEntry(v.(disk := disk), c)))
            <==> !StraddlingHit(position, c)
  {
    if StraddlingHit(position, c) {
      var v' := StraddleMisreads(v, position, c);
      assert |v'.disk| == |v.disk| && v.(disk := v'.disk) == v';
    } else {
      forall disk: seq<Sector> | |disk| == |v.disk|
        ensures Lookup(v.(disk := disk), position, c).1 == Extended(FatEntry(v.(disk := disk), c))
      {
        CacheTransparent(v.(disk := disk), position, c);
      }
    }
  }
}
