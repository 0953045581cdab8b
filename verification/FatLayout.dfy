/** Recognising a FAT12 volume and laying it out: `detect` and `initialize`. */
module FatLayout {
  import opened Bytes
  import opened Words

  const TWO32: nat := 0x1_0000_0000

  /** The fields of the BIOS parameter block that the driver reads. */
  datatype Bpb = Bpb(bytesPerSector: nat, sectorsPerCluster: nat, reserved: nat, fats: nat,
                     rootEntries: nat, sectors16: nat, fatSize: nat, sectors32: nat)
  {
    /** The widths of the fields on disk. */
    predicate InRange() {
      && bytesPerSector < 0x1_0000 && sectorsPerCluster < 0x100 && reserved < 0x1_0000 && fats < 0x100
      && rootEntries < 0x1_0000 && sectors16 < 0x1_0000 && fatSize < 0x1_0000 && sectors32 < TWO32
    }
  }

  function ParseBpb(sector: Sector): (b: Bpb)
    ensures b.InRange()
  {
    Bpb(Le16(sector, 0x0B), sector[0x0D], Le16(sector, 0x0E), sector[0x10],
        Le16(sector, 0x11), Le16(sector, 0x13), Le16(sector, 0x16), Le32(sector, 0x20))
  }

  /** `x != 0 && (x & (x - 1)) == 0` for a field of at most 16 bits. */
  predicate PowerOfTwoField(x: nat) {
    x in {1, 2, 4, 8, 16, 32, 64, 128, 256, 512, 1024, 2048, 4096, 8192, 16384, 32768}
  }

  lemma PowerOfTwoMask(x: bv16)
    ensures x != 0 && x & (x - 1) == 0 <==> PowerOfTwoField(x as nat)
  {
    SixteenPowers(x);
  }

  lemma SixteenPowers(x: bv16)
    ensures x != 0 && x & (x - 1) == 0 <==>
            x in {1, 2, 4, 8, 16, 32, 64, 128, 256, 512, 1024, 2048, 4096, 8192, 16384, 32768}
  {
  }

  function TotalSectors(b: Bpb): nat { if b.sectors16 != 0 then b.sectors16 else b.sectors32 }

  /** Sectors of the root directory; the sums stay below 2^32. */
  function RootSectors(b: Bpb): nat
    requires b.bytesPerSector > 0
  {
    (b.rootEntries * 32 + (b.bytesPerSector - 1)) / b.bytesPerSector
  }

  /** Reserved area, FATs and root directory. */
  function MetaSectors(b: Bpb): nat
    requires b.bytesPerSector > 0
  {
    b.reserved + b.fats * b.fatSize + RootSectors(b)
  }

  /** The cluster count of `detect`, computed modulo 2^32. */
  function Clusters(b: Bpb): nat
    requires b.bytesPerSector > 0 && b.sectorsPerCluster > 0 && b.InRange()
  {
    (TotalSectors(b) - MetaSectors(b)) % TWO32 / b.sectorsPerCluster
  }

  /** `detect`, from the boot sector to the decision. */
  predicate Detect(sector: Sector) {
    var b := ParseBpb(sector);
    && sector[510] == 0x55 && sector[511] == 0xAA
    && PowerOfTwoField(b.bytesPerSector) && PowerOfTwoField(b.sectorsPerCluster)
    && b.fatSize != 0
    && Clusters(b) < 4085
  }

  lemma MetaBound(b: Bpb)
    requires b.InRange() && b.bytesPerSector > 0
    ensures MetaSectors(b) < 0x200_0000
  {
    ProductBelow(b.fats, b.fatSize);
    QuotientBelow(b.rootEntries * 32 + (b.bytesPerSector - 1), b.bytesPerSector);
  }

  lemma ProductBelow(x: nat, y: nat)
    requires x < 0x100 && y < 0x1_0000
    ensures x * y < 0x100_0000
  {
    if y > 0 {
      LargerProduct(x, 0x100, y);
    }
  }

  lemma QuotientBelow(x: nat, d: nat)
    requires d > 0
    ensures x / d <= x
  {
    var q := x / d;
    assert x == q * d + x % d;
    if q > 0 && d > 1 {
      LargerProduct(1, d, q);
    }
  }

  /** A layout whose metadata exceeds the volume is never accepted: the wrapped
      difference is too large for any cluster size. */
  lemma WrappedLayoutRejected(sector: Sector)
    requires var b := ParseBpb(sector);
      PowerOfTwoField(b.bytesPerSector) && PowerOfTwoField(b.sectorsPerCluster) && TotalSectors(b) < MetaSectors(b)
    ensures !Detect(sector)
  {
    var b := ParseBpb(sector);
    MetaBound(b);
    assert (TotalSectors(b) - MetaSectors(b)) % TWO32 == TotalSectors(b) - MetaSectors(b) + TWO32;
  }

  // ----- what `initialize` derives

  function RootLba(b: Bpb): nat { b.reserved + b.fats * b.fatSize }

  /** `_dataSectionLba` */
  function DataLba(b: Bpb): nat
    requires b.bytesPerSector > 0
  {
    RootLba(b) + RootSectors(b)
  }

  /** `clusterToLba`, in 32 bits */
  function ClusterToLba(dataLba: nat, sectorsPerCluster: nat, cluster: nat): nat {
    (dataLba + (cluster - 2) % TWO32 * sectorsPerCluster) % TWO32
  }

  /** Sectors `from` to `to` of the volume. */
  datatype Area = Area(from: nat, to: nat) {
    predicate Apart(other: Area) { to <= other.from || other.to <= from }
  }

  function ReservedArea(b: Bpb): Area { Area(0, b.reserved) }

  function FatArea(b: Bpb, i: nat): Area { Area(b.reserved + i * b.fatSize, b.reserved + i * b.fatSize + b.fatSize) }

  function RootArea(b: Bpb): Area
    requires b.bytesPerSector > 0
  {
    Area(RootLba(b), DataLba(b))
  }

  function ClusterArea(b: Bpb, c: nat): Area
    requires b.bytesPerSector > 0
  {
    var from := ClusterToLba(DataLba(b), b.sectorsPerCluster, c);
    Area(from, from + b.sectorsPerCluster)
  }

  /** The data clusters of an accepted volume, numbered from 2. */
  predicate IsCluster(b: Bpb, c: nat)
    requires b.bytesPerSector > 0 && b.sectorsPerCluster > 0 && b.InRange()
  {
    2 <= c < Clusters(b) + 2
  }

  /** The metadata fits the volume and the cluster count is exact. */
  predicate Sane(b: Bpb) {
    && b.InRange() && b.bytesPerSector > 0 && b.sectorsPerCluster > 0
    && MetaSectors(b) <= TotalSectors(b)
    && Clusters(b) == (TotalSectors(b) - MetaSectors(b)) / b.sectorsPerCluster < 4085
  }

  lemma DetectedIsSane(sector: Sector)
    requires Detect(sector)
    ensures Sane(ParseBpb(sector))
  {
    var b := ParseBpb(sector);
    if TotalSectors(b) < MetaSectors(b) {
      WrappedLayoutRejected(sector);
    } else {
      QuotientRemainder(TotalSectors(b) - MetaSectors(b), 0, TWO32, TotalSectors(b) - MetaSectors(b));
    }
  }

  /** On an accepted volume each cluster begins where plain arithmetic says, behind
      the metadata and inside the volume. */
  lemma ClusterPlace(b: Bpb, c: nat)
    requires Sane(b) && IsCluster(b, c)
    ensures ClusterArea(b, c).from == DataLba(b) + (c - 2) * b.sectorsPerCluster
    ensures DataLba(b) <= ClusterArea(b, c).from && ClusterArea(b, c).to <= TotalSectors(b)
  {
    Fits(c - 2, TotalSectors(b) - MetaSectors(b), b.sectorsPerCluster);
    NoWrap(DataLba(b), c, b.sectorsPerCluster);
  }

  lemma Fits(k: nat, d: nat, s: nat)
    requires s > 0 && k < d / s
    ensures k * s + s <= d
  {
    LargerProduct(k, d / s, s);
    assert d == d / s * s + d % s;
  }

  lemma NoWrap(dataLba: nat, c: nat, s: nat)
    requires 2 <= c < TWO32 && dataLba + (c - 2) * s < TWO32
    ensures ClusterToLba(dataLba, s, c) == dataLba + (c - 2) * s
  {
  }

  lemma FatPlace(b: Bpb, i: nat, i': nat)
    requires i < i' <= b.fats
    ensures b.reserved <= FatArea(b, i).from && FatArea(b, i).to <= b.reserved + i' * b.fatSize <= RootLba(b)
  {
    LargerProduct(i, i', b.fatSize);
    if i' < b.fats {
      LargerProduct(i', b.fats, b.fatSize);
    }
  }

  /** The metadata areas of an accepted volume are pairwise disjoint. */
  lemma MetadataApart(b: Bpb, i: nat, i': nat)
    requires Sane(b) && i < b.fats
    ensures ReservedArea(b).Apart(RootArea(b))
    ensures ReservedArea(b).Apart(FatArea(b, i)) && FatArea(b, i).Apart(RootArea(b))
    ensures i < i' < b.fats ==> FatArea(b, i).Apart(FatArea(b, i'))
  {
    FatPlace(b, i, b.fats);
    if i < i' < b.fats {
      FatPlace(b, i, i');
    }
  }

  /** A cluster of an accepted volume touches no metadata and lies inside the volume. */
  lemma ClusterApart(b: Bpb, c: nat, i: nat)
    requires Sane(b) && IsCluster(b, c) && i < b.fats
    ensures ReservedArea(b).Apart(ClusterArea(b, c)) && RootArea(b).Apart(ClusterArea(b, c))
    ensures FatArea(b, i).Apart(ClusterArea(b, c))
    ensures ClusterArea(b, c).to <= TotalSectors(b)
  {
    ClusterPlace(b, c);
    FatPlace(b, i, b.fats);
  }

  /** No two clusters of an accepted volume overlap. */
  lemma ClustersApart(b: Bpb, c: nat, c': nat)
    requires Sane(b) && IsCluster(b, c) && IsCluster(b, c') && c < c'
    ensures ClusterArea(b, c).Apart(ClusterArea(b, c'))
  {
    ClusterPlace(b, c);
    ClusterPlace(b, c');
    LargerProduct(c - 2, c' - 2, b.sectorsPerCluster);
  }
}
