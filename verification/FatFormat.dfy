/** The on-disk structures of FAT12, written field by field: boot sector, directory entry
    and file allocation table, as in the Microsoft FAT specification, version 1.03. */
module FatFormat {
  import opened Bytes
  import opened Words
  import opened Encoding
  import opened FatLayout
  import opened FatSpec
  import opened FatFiles
  import opened FatDirectory
  import opened FatCursors
  import opened FatPaths

  // ----- the boot sector

  datatype BootRecord = BootRecord(jump: seq<Byte>, oem: seq<Byte>, bpb: Bpb, media: nat, trackSectors: nat,
                                   heads: nat, hidden: nat, rest: seq<Byte>)
  {
    predicate InWidth() {
      && |jump| == 3 && |oem| == 8 && bpb.InRange() && media < 0x100 && trackSectors < 0x1_0000
      && heads < 0x1_0000 && hidden < 0x1_0000_0000 && |rest| == 476
    }

    function Fields(): (f: seq<Field>)
      ensures |f| == 15
    {
      [Raw(jump), Raw(oem), Number(bpb.bytesPerSector, 2), Number(bpb.sectorsPerCluster, 1), Number(bpb.reserved, 2),
       Number(bpb.fats, 1), Number(bpb.rootEntries, 2), Number(bpb.sectors16, 2), Number(media, 1),
       Number(bpb.fatSize, 2), Number(trackSectors, 2), Number(heads, 2), Number(hidden, 4), Number(bpb.sectors32, 4),
       Raw(rest)]
    }
  }

  /** The sector holds the record, field after field. */
  predicate IsBoot(sector: Sector, r: BootRecord) { r.InWidth() && sector == StructBytes(r.Fields()) }

  lemma BootOffsets(r: BootRecord)
    requires r.InWidth()
    ensures var f := r.Fields();
      && FieldStart(f, 2) == 0x0B && FieldStart(f, 3) == 0x0D && FieldStart(f, 4) == 0x0E && FieldStart(f, 5) == 0x10
      && FieldStart(f, 6) == 0x11 && FieldStart(f, 7) == 0x13 && FieldStart(f, 8) == 0x15 && FieldStart(f, 9) == 0x16
      && FieldStart(f, 10) == 0x18 && FieldStart(f, 13) == 0x20 && FieldStart(f, 14) == 0x24 && FieldStart(f, 15) == 512
  {
    var f := r.Fields();
    assert FieldStart(f, 1) == 3 && FieldStart(f, 2) == 11;
    assert FieldStart(f, 3) == 13 && FieldStart(f, 4) == 14 && FieldStart(f, 5) == 16 && FieldStart(f, 6) == 17;
    assert FieldStart(f, 7) == 19 && FieldStart(f, 8) == 21 && FieldStart(f, 9) == 22 && FieldStart(f, 10) == 24;
    assert FieldStart(f, 11) == 26 && FieldStart(f, 12) == 28 && FieldStart(f, 13) == 32 && FieldStart(f, 14) == 36;
  }

  /** A field of a laid-out sector. */
  lemma NumberAt(s: seq<Byte>, fields: seq<Field>, k: nat, at: nat, x: nat, w: nat)
    requires k < |fields| && s == StructBytes(fields) && fields[k] == Number(x, w) && FieldStart(fields, k) == at
    ensures at + w <= |s| && s[at..at + w] == Digits(x, w)
  {
    FieldAt(fields, |fields|, k);
  }

  lemma ByteNumber(s: seq<Byte>, at: nat, x: nat)
    requires at + 1 <= |s| && s[at..at + 1] == Digits(x, 1) && x < 256
    ensures s[at] == x
  {
    assert s[at] == s[at..at + 1][0];
  }

  /** The driver reads back each field of the parameter block. */
  lemma BootParses(sector: Sector, r: BootRecord)
    requires IsBoot(sector, r)
    ensures ParseBpb(sector) == r.bpb
    ensures sector[510] == r.rest[474] && sector[511] == r.rest[475]
  {
    var f, b := r.Fields(), r.bpb;
    BootOffsets(r);
    BootWords(sector, r);
    NumberAt(sector, f, 3, 0x0D, b.sectorsPerCluster, 1);
    ByteNumber(sector, 0x0D, b.sectorsPerCluster);
    NumberAt(sector, f, 5, 0x10, b.fats, 1);
    ByteNumber(sector, 0x10, b.fats);
    FieldAt(f, 15, 14);
    assert sector[0x24..512] == r.rest && sector[510] == sector[0x24..512][474];
    assert sector[511] == sector[0x24..512][475];
  }

  lemma BootWords(sector: Sector, r: BootRecord)
    requires IsBoot(sector, r)
    ensures Le16(sector, 0x0B) == r.bpb.bytesPerSector && Le16(sector, 0x0E) == r.bpb.reserved
    ensures Le16(sector, 0x11) == r.bpb.rootEntries && Le16(sector, 0x13) == r.bpb.sectors16
    ensures Le16(sector, 0x16) == r.bpb.fatSize && Le32(sector, 0x20) == r.bpb.sectors32
  {
    var f, b := r.Fields(), r.bpb;
    BootOffsets(r);
    BootWord(sector, f, 2, 0x0B, b.bytesPerSector);
    BootWord(sector, f, 4, 0x0E, b.reserved);
    BootWord(sector, f, 6, 0x11, b.rootEntries);
    BootWord(sector, f, 7, 0x13, b.sectors16);
    BootWord(sector, f, 9, 0x16, b.fatSize);
    NumberAt(sector, f, 13, 0x20, b.sectors32, 4);
    Le32Of(sector, 0x20, b.sectors32);
  }

  lemma BootWord(s: seq<Byte>, fields: seq<Field>, k: nat, at: nat, x: nat)
    requires k < |fields| && s == StructBytes(fields) && fields[k] == Number(x, 2)
    requires FieldStart(fields, k) == at && x < 0x1_0000
    ensures at + 2 <= |s| && Le16(s, at) == x
  {
    NumberAt(s, fields, k, at, x, 2);
    Le16Of(s, at, x);
  }

  // ----- what follows from the numbers in it

  /** `n` is the number of sectors of the given size that `size` bytes take up. */
  predicate SectorsOf(n: nat, size: nat, bytesPerSector: nat) {
    n * bytesPerSector >= size && (n > 0 ==> (n - 1) * bytesPerSector < size)
  }

  /** The root directory takes up exactly the sectors it needs. */
  lemma RootTakes(b: Bpb)
    requires b.bytesPerSector > 0
    ensures SectorsOf(RootSectors(b), 32 * b.rootEntries, b.bytesPerSector)
  {
    var size, d, n := 32 * b.rootEntries, b.bytesPerSector, RootSectors(b);
    assert size + (d - 1) == n * d + (size + (d - 1)) % d;
    if n > 0 {
      Distribute(n - 1, 1, d);
    }
  }

  /** There is one such number only. */
  lemma SectorsOnce(n: nat, m: nat, size: nat, d: nat)
    requires SectorsOf(n, size, d) && SectorsOf(m, size, d) && d > 0
    ensures n == m
  {
    if n < m {
      LargerProduct(n, m, d);
      Distribute(m - 1, 1, d);
    } else if m < n {
      LargerProduct(m, n, d);
      Distribute(n - 1, 1, d);
    }
  }

  /** The volume that a mounted driver works on, in terms of the fields. */
  predicate LaidOutAs(v: Volume, disk: seq<Sector>, b: Bpb) {
    && v.disk == disk && v.reserved == b.reserved && v.fatSize == b.fatSize && v.spc == b.sectorsPerCluster
    && v.rootEntries == b.rootEntries && v.rootLba == b.reserved + b.fats * b.fatSize <= v.dataLba
    && SectorsOf(v.dataLba - v.rootLba, 32 * b.rootEntries, b.bytesPerSector)
  }

  /** The data area begins exactly behind the root directory. */
  lemma MountedLaidOut(disk: seq<Sector>, r: BootRecord)
    requires |disk| > 0 && IsBoot(disk[0], r) && ParseBpb(disk[0]).bytesPerSector > 0
    ensures r.bpb.bytesPerSector > 0 && LaidOutAs(Mounted(disk, ParseBpb(disk[0])), disk, r.bpb)
  {
    BootParses(disk[0], r);
    RootTakes(r.bpb);
  }

  /** The same for whatever record the boot sector holds. */
  lemma FieldsMounted(disk: seq<Sector>)
    requires |disk| > 0 && ParseBpb(disk[0]).bytesPerSector > 0
    ensures forall r: BootRecord {:trigger IsBoot(disk[0], r)} | IsBoot(disk[0], r) ::
      ParseBpb(disk[0]) == r.bpb && LaidOutAs(Mounted(disk, ParseBpb(disk[0])), disk, r.bpb)
  {
    forall r: BootRecord | IsBoot(disk[0], r)
      ensures ParseBpb(disk[0]) == r.bpb && LaidOutAs(Mounted(disk, ParseBpb(disk[0])), disk, r.bpb)
    {
      BootParses(disk[0], r);
      MountedLaidOut(disk, r);
    }
  }

  /** A power of two. */
  predicate TwoToThe(x: nat, k: nat)
    decreases k
  {
    if k == 0 then x == 1 else x % 2 == 0 && TwoToThe(x / 2, k - 1)
  }

  ghost predicate IsPower(x: nat) { exists k: nat :: TwoToThe(x, k) }

  /** The sixteen values are the powers of two of a 16-bit field. */
  lemma PowersListed(x: nat)
    requires x < 0x1_0000
    ensures PowerOfTwoField(x) <==> IsPower(x)
  {
    if PowerOfTwoField(x) {
      PowerFound(x);
    }
    if k: nat :| TwoToThe(x, k) {
      PowerIsListed(x, k);
    }
  }

  lemma PowerFound(x: nat)
    requires PowerOfTwoField(x)
    ensures IsPower(x)
  {
    PowerUp(1, 0);
    PowerUp(2, 1);
    PowerUp(4, 2);
    PowerUp(8, 3);
    PowerUp(16, 4);
    PowerUp(32, 5);
    PowerUp(64, 6);
    PowerUp(128, 7);
    PowerUp(256, 8);
    PowerUp(512, 9);
    PowerUp(1024, 10);
    PowerUp(2048, 11);
    PowerUp(4096, 12);
    PowerUp(8192, 13);
    PowerUp(16384, 14);
    assert TwoToThe(1, 0);
  }

  lemma PowerUp(x: nat, k: nat)
    requires TwoToThe(x, k)
    ensures TwoToThe(2 * x, k + 1)
  {
    assert 2 * x % 2 == 0 && 2 * x / 2 == x;
  }

  lemma {:induction false} PowerIsListed(x: nat, k: nat)
    requires TwoToThe(x, k) && x < 0x1_0000
    ensures PowerOfTwoField(x)
    decreases k
  {
    if k > 0 {
      PowerIsListed(x / 2, k - 1);
    }
  }

  /** The layout is that of a FAT12 volume: power-of-two sizes, a FAT, metadata of
      `root` sectors for the root directory inside the volume, and fewer than 4085 clusters. */
  ghost predicate IsFat12(b: Bpb, root: nat) {
    var total := if b.sectors16 != 0 then b.sectors16 else b.sectors32;
    var meta := b.reserved + b.fats * b.fatSize + root;
    && IsPower(b.bytesPerSector) && IsPower(b.sectorsPerCluster) && b.fatSize != 0
    && meta <= total && total - meta < 4085 * b.sectorsPerCluster
  }

  /** `detect` accepts exactly the signed boot sectors of such volumes. */
  lemma DetectExactly(sector: Sector, r: BootRecord, root: nat)
    requires IsBoot(sector, r)
    requires r.bpb.bytesPerSector > 0 ==> SectorsOf(root, 32 * r.bpb.rootEntries, r.bpb.bytesPerSector)
    ensures Detect(sector) <==> r.rest[474] == 0x55 && r.rest[475] == 0xAA && IsFat12(r.bpb, root)
  {
    var b := r.bpb;
    BootParses(sector, r);
    PowersListed(b.bytesPerSector);
    PowersListed(b.sectorsPerCluster);
    if PowerOfTwoField(b.bytesPerSector) && PowerOfTwoField(b.sectorsPerCluster) {
      RootTakes(b);
      SectorsOnce(RootSectors(b), root, 32 * b.rootEntries, b.bytesPerSector);
      ClustersFit(sector, b);
    }
  }

  lemma ClustersFit(sector: Sector, b: Bpb)
    requires b == ParseBpb(sector) && PowerOfTwoField(b.bytesPerSector) && PowerOfTwoField(b.sectorsPerCluster)
    ensures Clusters(b) < 4085
            <==> MetaSectors(b) <= TotalSectors(b) && TotalSectors(b) - MetaSectors(b) < 4085 * b.sectorsPerCluster
  {
    MetaBound(b);
    if MetaSectors(b) <= TotalSectors(b) {
      var d := TotalSectors(b) - MetaSectors(b);
      QuotientRemainder(d, 0, TWO32, d);
      FewerThan(d, b.sectorsPerCluster, 4085);
    } else {
      assert (TotalSectors(b) - MetaSectors(b)) % TWO32 == TotalSectors(b) - MetaSectors(b) + TWO32;
    }
  }

  lemma FewerThan(x: nat, d: nat, n: nat)
    requires d > 0
    ensures x / d < n <==> x < n * d
  {
    assert x == x / d * d + x % d;
    if x / d < n {
      LargerProduct(x / d, n, d);
    } else if n < x / d {
      LargerProduct(n, x / d, d);
    }
  }

  // ----- directory entries

  /** Of the attributes bit 4 marks a directory. */
  datatype EntryRecord = EntryRecord(name: Name, low: nat, directory: bool, high: nat, reserved: nat, tenths: nat,
                                     created: nat, createdOn: nat, accessedOn: nat, clusterHigh: nat, modified: nat,
                                     modifiedOn: nat, clusterLow: nat, size: nat)
  {
    predicate InWidth() {
      && low < 16 && high < 8 && reserved < 0x100 && tenths < 0x100 && created < 0x1_0000 && createdOn < 0x1_0000
      && accessedOn < 0x1_0000 && clusterHigh < 0x1_0000 && modified < 0x1_0000 && modifiedOn < 0x1_0000
      && clusterLow < 0x1_0000 && size < 0x1_0000_0000
    }

    function Attributes(): nat { low + (if directory then 16 else 0) + 32 * high }

    function Fields(): (f: seq<Field>)
      ensures |f| == 12
    {
      [Raw(name), Number(Attributes(), 1), Number(reserved, 1), Number(tenths, 1), Number(created, 2),
       Number(createdOn, 2), Number(accessedOn, 2), Number(clusterHigh, 2), Number(modified, 2), Number(modifiedOn, 2),
       Number(clusterLow, 2), Number(size, 4)]
    }
  }

  predicate IsEntry(e: DirEntry, r: EntryRecord) { r.InWidth() && e == StructBytes(r.Fields()) }

  lemma EntryOffsets(r: EntryRecord)
    requires r.InWidth()
    ensures var f := r.Fields();
      && FieldStart(f, 1) == 11 && FieldStart(f, 7) == 20 && FieldStart(f, 10) == 26 && FieldStart(f, 11) == 28
      && FieldStart(f, 12) == 32
  {
    var f := r.Fields();
    assert FieldStart(f, 1) == 11 && FieldStart(f, 2) == 12 && FieldStart(f, 3) == 13 && FieldStart(f, 4) == 14;
    assert FieldStart(f, 5) == 16 && FieldStart(f, 6) == 18 && FieldStart(f, 7) == 20 && FieldStart(f, 8) == 22;
    assert FieldStart(f, 9) == 24 && FieldStart(f, 10) == 26;
  }

  /** The driver reads back name, kind, first cluster and size of an entry. */
  lemma EntryParses(e: DirEntry, r: EntryRecord)
    requires IsEntry(e, r)
    ensures e[..11] == r.name && IsDirectory(e) == r.directory
    ensures FirstCluster(e) == r.clusterLow + r.clusterHigh * 0x1_0000 && EntrySize(e) == r.size
  {
    var f := r.Fields();
    EntryOffsets(r);
    FieldAt(f, 12, 0);
    NumberAt(e, f, 1, 11, r.Attributes(), 1);
    ByteNumber(e, 11, r.Attributes());
    DirectoryBit(r.low, r.directory, r.high);
    BootWord(e, f, 7, 20, r.clusterHigh);
    BootWord(e, f, 10, 26, r.clusterLow);
    NumberAt(e, f, 11, 28, r.size, 4);
    Le32Of(e, 28, r.size);
  }

  /** A cursor at the start of the file or directory that the record describes. */
  predicate StartsAt(fd: FileData, r: EntryRecord) {
    && fd.isOpen && fd.position == 0 && fd.currentSector == 0 && fd.isDirectory == r.directory && fd.size == r.size
    && fd.firstCluster == fd.currentCluster == r.clusterLow + r.clusterHigh * 0x1_0000
  }

  /** Opening an entry uses the fields of whatever record it holds. */
  lemma OpensRecord(v: Volume, e: DirEntry, fd: FileData)
    requires OpensAs(v, e, fd)
    ensures forall r: EntryRecord {:trigger IsEntry(e, r)} | IsEntry(e, r) :: StartsAt(fd, r)
  {
    forall r: EntryRecord | IsEntry(e, r)
      ensures StartsAt(fd, r)
    {
      EntryParses(e, r);
    }
  }

  lemma DirectoryBit(low: nat, directory: bool, high: nat)
    requires low < 16
    ensures (low + (if directory then 16 else 0) + 32 * high) / 16 % 2 == 1 <==> directory
  {
    var d := if directory then 1 else 0;
    QuotientRemainder(low + 16 * d + 32 * high, d + 2 * high, 16, low);
    QuotientRemainder(d + 2 * high, high, 2, d);
  }

  // ----- the file allocation table

  /** Pair `j` of the 12-bit entries, as a number of 24 bits. */
  function Pair(entries: seq<nat>, j: nat): nat
    requires 2 * j < |entries|
  {
    entries[2 * j] + 4096 * if 2 * j + 1 < |entries| then entries[2 * j + 1] else 0
  }

  /** The table: each pair in three bytes, the low byte first. */
  function Packed(entries: seq<nat>): (s: seq<Byte>)
    ensures |s| == (3 * |entries| + 1) / 2
  {
    seq<Byte>((3 * |entries| + 1) / 2, k requires 0 <= k < (3 * |entries| + 1) / 2 =>
      Digits(Pair(entries, k / 3), 3)[k % 3])
  }

  predicate TwelveBits(entries: seq<nat>) {
    forall i: nat {:trigger entries[i]} | i < |entries| :: entries[i] < 4096
  }

  /** The first FAT of the volume begins with these entries. */
  predicate FatHolds(v: Volume, entries: seq<nat>) {
    && TwelveBits(entries)
    && v.reserved + v.fatSize <= |v.disk| && |Packed(entries)| <= v.fatSize * 512
    && Flatten(v.disk[v.reserved..v.reserved + v.fatSize])[..|Packed(entries)|] == Packed(entries)
  }

  /** Bytes `i` and `i + 1` hold the twelve bits `e`, from the low or from the high nibble on. */
  predicate HoldsAt(s: seq<Byte>, i: nat, even: bool, e: nat) {
    && i + 1 < |s|
    && if even then s[i] == e % 256 && s[i + 1] % 16 == e / 256 else s[i] / 16 == e % 16 && s[i + 1] == e / 16
  }

  /** Where entry `c` lies: twelve bits from byte 3 * c / 2 on. */
  lemma PackedAt(entries: seq<nat>, c: nat)
    requires TwelveBits(entries) && c < |entries|
    ensures HoldsAt(Packed(entries), 3 * c / 2, c % 2 == 0, entries[c])
  {
    var j, i := c / 2, 3 * c / 2;
    var b := if 2 * j + 1 < |entries| then entries[2 * j + 1] else 0;
    PairHolds(entries[2 * j], b);
    ThreeBytes(i, j, c);
    assert Packed(entries)[i] == Digits(Pair(entries, j), 3)[i % 3];
    assert Packed(entries)[i + 1] == Digits(Pair(entries, j), 3)[(i + 1) % 3];
  }

  lemma ThreeBytes(i: nat, j: nat, c: nat)
    requires j == c / 2 && i == 3 * c / 2
    ensures i / 3 == (i + 1) / 3 == j && i % 3 == c % 2 && (i + 1) % 3 == c % 2 + 1
    ensures c == 2 * j + c % 2
  {
  }

  lemma PairHolds(a: nat, b: nat)
    requires a < 4096 && b < 4096
    ensures HoldsAt(Digits(a + 4096 * b, 3), 0, true, a) && HoldsAt(Digits(a + 4096 * b, 3), 1, false, b)
  {
    PairBytes(a, b);
  }

  lemma PairBytes(a: nat, b: nat)
    requires a < 4096 && b < 4096
    ensures var s := Digits(a + 4096 * b, 3);
      s[0] == a % 256 && s[1] % 16 == a / 256 && s[1] / 16 == b % 16 && s[2] == b / 16
  {
    var w := a + 4096 * b;
    QuotientRemainder(w, a / 256 + 16 * b, 256, a % 256);
    QuotientRemainder(a / 256 + 16 * b, b / 16, 256, a / 256 + 16 * (b % 16));
    assert Digits(w, 3) == [w % 256] + Digits(w / 256, 2);
    assert Digits(w / 256, 2) == [w / 256 % 256] + Digits(w / 256 / 256, 1);
    var m := a / 256 + 16 * (b % 16);
    QuotientRemainder(m, b % 16, 16, a / 256);
  }

  /** A byte of the table on disk. */
  lemma TableByte(v: Volume, entries: seq<nat>, k: nat)
    requires FatHolds(v, entries) && k < |Packed(entries)|
    ensures v.reserved + k / 512 < |v.disk| && FatByte(v, k) == Packed(entries)[k]
  {
    var sectors := v.disk[v.reserved..v.reserved + v.fatSize];
    FlattenAt(sectors, k);
    assert Packed(entries)[k] == Flatten(sectors)[k];
  }

  /** The value of an entry: end marks are sign-extended to 32 bits. */
  predicate EntryIs(entries: seq<nat>, c: nat, next: nat)
    requires c < |entries|
  {
    next == if entries[c] >= 0xFF8 then entries[c] + 0xFFFF_F000 else entries[c]
  }

  /** Of a packed table every entry is unpacked as it was. */
  lemma EntryUnpacked(v: Volume, entries: seq<nat>, c: nat)
    requires WellFormed(v) && FatHolds(v, entries) && c < |entries|
    ensures InFat(v, c) && FatEntry(v, c) == entries[c]
  {
    PackedAt(entries, c);
    assert c * 3 / 2 == 3 * c / 2;
    TableByte(v, entries, 3 * c / 2);
    TableByte(v, entries, 3 * c / 2 + 1);
    UnpackHeld(Packed(entries), 3 * c / 2, c, entries[c]);
  }

  lemma UnpackHeld(s: seq<Byte>, i: nat, c: nat, e: nat)
    requires HoldsAt(s, i, c % 2 == 0, e) && e < 4096
    ensures Unpack(c, s[i], s[i + 1]) == e
  {
    Rejoined(e, if c % 2 == 0 then 256 else 16);
  }

  lemma Rejoined(x: nat, d: nat)
    requires d > 0
    ensures x == x % d + x / d * d
  {
  }

  /** So a lookup that is no straddling hit gives the entry. */
  lemma LookupGives(v: Volume, entries: seq<nat>, position: nat, c: nat)
    requires WellFormed(v) && FatHolds(v, entries) && c < |entries| && !StraddlingHit(position, c)
    ensures Fetchable(v, c) && EntryIs(entries, c, Lookup(v, position, c).1)
  {
    EntryUnpacked(v, entries, c);
    CacheTransparent(v, position, c);
  }

  /** The same for whatever entries the table holds. */
  lemma PackedLookup(v: Volume, position: nat, c: nat)
    requires WellFormed(v) && Fetchable(v, c)
    ensures forall entries: seq<nat> {:trigger FatHolds(v, entries)} |
      FatHolds(v, entries) && c < |entries| && !StraddlingHit(position, c) ::
      EntryIs(entries, c, Lookup(v, position, c).1)
  {
    forall entries: seq<nat> | FatHolds(v, entries) && c < |entries| && !StraddlingHit(position, c)
      ensures EntryIs(entries, c, Lookup(v, position, c).1)
    {
      LookupGives(v, entries, position, c);
    }
  }

  /** Cluster `i` of a chain lies in the data area, and its entry links to the next cluster
      or ends the chain. */
  predicate LinkedAt(v: Volume, entries: seq<nat>, chain: Chain, i: nat)
    requires i < |chain| && chain[i] < |entries|
  {
    && 2 <= chain[i] < 0xFF8 && v.dataLba + (chain[i] - 2) * v.spc + v.spc <= |v.disk|
    && if i + 1 < |chain| then entries[chain[i]] == chain[i + 1] else entries[chain[i]] >= 0xFF8
  }

  /** The chains of a packed table are those that its entries link. */
  lemma ChainsLinked(v: Volume, entries: seq<nat>, chain: Chain)
    requires WellFormed(v) && FatHolds(v, entries) && |chain| > 0
    requires forall i: nat {:trigger chain[i]} | i < |chain| :: chain[i] < |entries|
    ensures IsChain(v, chain)
            <==> forall i: nat {:trigger LinkedAt(v, entries, chain, i)} | i < |chain| :: LinkedAt(v, entries, chain, i)
  {
    forall i: nat | i < |chain|
      ensures LinkedAt(v, entries, chain, i) <==> Follows(v, chain, i)
    {
      EntryUnpacked(v, entries, chain[i]);
    }
    if IsChain(v, chain) {
      forall i: nat | i < |chain|
        ensures LinkedAt(v, entries, chain, i)
      {
        assert Follows(v, chain, i);
      }
    } else {
      var i: nat :| i < |chain| && !Follows(v, chain, i);
      assert !LinkedAt(v, entries, chain, i);
    }
  }

  // ----- contents

  /** The first sector of a cluster. */
  function Start(v: Volume, c: nat): nat
    requires 2 <= c
  {
    v.dataLba + (c - 2) * v.spc
  }

  /** The sectors of the clusters lie on the disk. */
  predicate OnDisk(v: Volume, chain: Chain) {
    forall i: nat {:trigger chain[i]} | i < |chain| :: 2 <= chain[i] && Start(v, chain[i]) + v.spc <= |v.disk|
  }

  /** The sectors of the clusters of a chain, in order. */
  function ChainSectors(v: Volume, chain: Chain): (sectors: seq<Sector>)
    requires OnDisk(v, chain)
  {
    if chain == [] then []
    else v.disk[Start(v, chain[0])..Start(v, chain[0]) + v.spc] + ChainSectors(v, chain[1..])
  }

  lemma {:induction false} SectorsInOrder(v: Volume, chain: Chain, i: nat, r: nat, s: nat)
    requires OnDisk(v, chain) && i < |chain| && r < v.spc && s == i * v.spc + r
    ensures s < |ChainSectors(v, chain)|
    ensures ChainSectors(v, chain)[s] == v.disk[Start(v, chain[i]) + r]
  {
    if i > 0 {
      var j := i - 1;
      Distribute(j, 1, v.spc);
      SectorsInOrder(v, chain[1..], j, r, s - v.spc);
    }
  }

  lemma {:induction false} SectorsCounted(v: Volume, chain: Chain)
    requires OnDisk(v, chain)
    ensures |ChainSectors(v, chain)| == Sectors(v, chain)
  {
    if chain != [] {
      var n := |chain| - 1;
      SectorsCounted(v, chain[1..]);
      Distribute(n, 1, v.spc);
    }
  }

  /** What `read` and `seek` go by is what the clusters hold on disk, one after another. */
  lemma ContentOnDisk(v: Volume, chain: Chain, n: nat)
    requires IsChain(v, chain) && n <= ByteCount(v, chain)
    ensures OnDisk(v, chain) && n <= |Flatten(ChainSectors(v, chain))|
    ensures Slice(v, chain, 0, n) == Flatten(ChainSectors(v, chain))[..n]
  {
    forall i: nat | i < |chain|
      ensures 2 <= chain[i] && Start(v, chain[i]) + v.spc <= |v.disk|
    {
      assert Follows(v, chain, i);
    }
    SectorsCounted(v, chain);
    forall k: nat | k < n
      ensures Slice(v, chain, 0, n)[k] == Flatten(ChainSectors(v, chain))[k]
    {
      ByteOnDisk(v, chain, k);
    }
  }

  lemma ByteOnDisk(v: Volume, chain: Chain, k: nat)
    requires IsChain(v, chain) && OnDisk(v, chain) && k < ByteCount(v, chain)
    requires |ChainSectors(v, chain)| == Sectors(v, chain)
    ensures ByteAt(v, chain, k) == Flatten(ChainSectors(v, chain))[k]
  {
    FlattenAt(ChainSectors(v, chain), k);
    SectorOnDisk(v, chain, k / 512);
  }

  lemma SectorOnDisk(v: Volume, chain: Chain, s: nat)
    requires IsChain(v, chain) && OnDisk(v, chain) && s < Sectors(v, chain) == |ChainSectors(v, chain)|
    ensures SectorAt(v, chain, s) == ChainSectors(v, chain)[s]
  {
    var i, r := ClusterIndex(v, chain, s), s % v.spc;
    ClusterReadable(v, chain, s);
    Rejoined(s, v.spc);
    SectorsInOrder(v, chain, i, r, s);
    SectorPlace(v, chain[i], r);
  }

  lemma SectorPlace(v: Volume, c: nat, r: nat)
    requires 2 <= c && r < v.spc && v.dataLba + (c - 2) * v.spc + v.spc <= |v.disk|
    ensures ClusterSector(v, c, r) == v.disk[Start(v, c) + r]
  {
  }
}
