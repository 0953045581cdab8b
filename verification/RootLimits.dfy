/** How far the root directory can be searched: the exact conditions, over all contents
    that a disk may have. */
module RootLimits {
  import opened Bytes
  import opened Words
  import opened Memory
  import opened FatLayout
  import opened FatSpec
  import opened FatDirectory
  import opened FatCursors
  import opened FatRoot
  import opened FatPaths

  /** The usual order of the areas: the FATs, which hold the entry that the code takes for
      the root's, then the root directory, then the data. As a cluster number the root's
      LBA stands for sectors behind the metadata. */
  ghost predicate RootLayout(v: Volume) {
    && WellFormed(v) && RefillsFit(v) && 2 <= v.rootLba
    && v.reserved + (FatIndex(v.rootLba) + 1) / 512 < v.rootLba
    && v.rootLba + RootSpan(v) <= v.dataLba < |v.disk|
    && forall s: nat {:trigger SectorLba(v, v.rootLba, s)} | s < v.spc :: v.dataLba <= SectorLba(v, v.rootLba, s)
  }

  // ----- disks that lead the search astray

  function ZeroSector(): Sector { seq(512, _ => 0) }

  /** A sector that begins with an entry of the given name. */
  function KeySector(key: Name): Sector { key + seq<Byte>(501, _ => 0) }

  /** A sector of the FAT that is empty but for the entry of the root's LBA. */
  function FatSector(v: Volume, i: nat, low: Byte, high: Byte): Sector {
    seq<Byte>(512, k requires 0 <= k < 512 =>
      if i * 512 + k == FatIndex(v.rootLba) then low
      else if i * 512 + k == FatIndex(v.rootLba) + 1 then high else 0)
  }

  function AstraySector(v: Volume, second: Sector, low: Byte, high: Byte, i: nat): Sector
    requires v.rootLba < |v.disk|
  {
    if i == v.rootLba then v.disk[v.rootLba]
    else if i == v.rootLba + 1 then second
    else if v.reserved <= i < v.rootLba then FatSector(v, i - v.reserved, low, high)
    else ZeroSector()
  }

  /** The same first sector of the root directory, the given second one, and a FAT in which
      the entry of the root's LBA has the given bytes; all else is zero. */
  function Astray(v: Volume, second: Sector, low: Byte, high: Byte): Volume
    requires v.rootLba < |v.disk|
  {
    v.(disk := seq(|v.disk|, i requires 0 <= i < |v.disk| => AstraySector(v, second, low, high, i)))
  }

  /** All that the proofs use of such a disk. */
  ghost predicate IsAstray(v: Volume, w: Volume, second: Sector, low: Byte, high: Byte) {
    && |w.disk| == |v.disk| && w == v.(disk := w.disk) && RootLayout(w)
    && w.disk[v.rootLba] == v.disk[v.rootLba] && w.disk[v.rootLba + 1] == second
    && FatByte(w, FatIndex(w.rootLba)) == low && FatByte(w, FatIndex(w.rootLba) + 1) == high
    && forall i: nat {:trigger w.disk[i]} | w.rootLba + 1 < i < |w.disk| :: w.disk[i] == ZeroSector()
  }

  lemma SameLayout(v: Volume, w: Volume)
    requires RootLayout(v) && |w.disk| == |v.disk| && w == v.(disk := w.disk)
    ensures RootLayout(w)
  {
    forall s: nat | s < w.spc
      ensures w.dataLba <= SectorLba(w, w.rootLba, s)
    {
      assert SectorLba(w, w.rootLba, s) == SectorLba(v, v.rootLba, s);
    }
  }

  lemma AstrayFacts(v: Volume, second: Sector, low: Byte, high: Byte)
    requires RootLayout(v)
    ensures IsAstray(v, Astray(v, second, low, high), second, low, high)
  {
    SameLayout(v, Astray(v, second, low, high));
    var k := FatIndex(v.rootLba);
    AstrayByte(v, second, low, high, k);
    AstrayByte(v, second, low, high, k + 1);
  }

  lemma AstrayByte(v: Volume, second: Sector, low: Byte, high: Byte, k: nat)
    requires RootLayout(v) && FatIndex(v.rootLba) <= k <= FatIndex(v.rootLba) + 1
    ensures v.reserved + k / 512 < v.rootLba
    ensures FatByte(Astray(v, second, low, high), k) == if k == FatIndex(v.rootLba) then low else high
  {
    var i := v.reserved + k / 512;
    assert Astray(v, second, low, high).disk[i] == FatSector(v, k / 512, low, high);
  }

  /** What `NextCluster` answers for the root's LBA on such a disk. */
  lemma AstrayLookup(v: Volume, w: Volume, second: Sector, low: Byte, high: Byte, cache: nat)
    requires IsAstray(v, w, second, low, high) && !StraddlingHit(cache, v.rootLba)
    ensures Lookup(w, cache, w.rootLba).1 == Extended(Unpack(v.rootLba, low, high))
  {
  }

  /** So it is unless the sum wraps around. */
  lemma RootIsData(v: Volume, s: nat)
    requires 2 <= v.rootLba < TWO32 && s < v.spc && v.dataLba + (v.rootLba - 2) * v.spc + v.spc <= TWO32
    ensures v.dataLba <= SectorLba(v, v.rootLba, s)
  {
    DataPlace(v.dataLba, v.rootLba - 2, v.spc, s);
  }

  lemma DataPlace(dataLba: nat, c: nat, spc: nat, s: nat)
    requires dataLba + c * spc + s < TWO32 && c + 2 < TWO32
    ensures dataLba <= (ClusterToLba(dataLba, spc, c + 2) + s) % TWO32 == dataLba + c * spc + s
  {
    assert c * spc >= 0;
    NoWrap(dataLba, c + 2, spc);
  }

  /** A volume that `detect` accepts has this layout once it has 512-byte sectors, data
      behind the root directory, FATs that hold the entry of the root's LBA, and a disk
      that holds the sectors of the refills. */
  lemma AcceptedLayout(disk: seq<Sector>)
    requires 0 < |disk| < 0x1000_0000 && Detect(disk[0])
    requires var b := ParseBpb(disk[0]);
      && b.bytesPerSector == 512 && b.rootEntries > 0 && b.fats > 0 && b.reserved > 0
      && TotalSectors(b) <= |disk| && b.reserved + b.fatSize + CACHE <= |disk| && DataLba(b) < |disk|
      && RefillsFit(Mounted(disk, b)) && (FatIndex(RootLba(b)) + 1) / 512 < b.fats * b.fatSize
    ensures RootLayout(Mounted(disk, ParseBpb(disk[0])))
  {
    var b := ParseBpb(disk[0]);
    var v := Mounted(disk, b);
    AcceptedVolume(disk, 2);
    forall s: nat | s < v.spc
      ensures v.dataLba <= SectorLba(v, v.rootLba, s)
    {
      MetaBound(b);
      ProductBelow(b.fats, b.fatSize);
      NoWrapBound(v.rootLba, v.spc);
      RootIsData(v, s);
    }
  }

  lemma NoWrapBound(rootLba: nat, spc: nat)
    requires 2 <= rootLba < 0x101_0000 && spc <= 128
    ensures (rootLba - 2) * spc + spc <= 0x8080_0000
  {
    LargerProduct(rootLba - 2, 0x101_0000, spc);
  }

  // ----- a search that finds nothing

  /** None of the 16 entries of the first sector ends the search. */
  ghost predicate AllGoBy(v: Volume, key: Name)
    requires v.rootLba < |v.disk|
  {
    forall i: nat {:trigger GoesBy(v, key, i)} | i < 16 :: GoesBy(v, key, i)
  }

  /** The end mark is at the root's LBA, and the data area is zero. */
  ghost predicate Trap(v: Volume, cache: nat) {
    && RootLayout(v) && Lookup(v, cache, v.rootLba).1 >= 0xFFFF_FFF8
    && forall i: nat {:trigger v.disk[i]} | v.dataLba <= i < |v.disk| :: v.disk[i] == ZeroSector()
  }

  /** The handle is in the first sector, at the zero sector or at the end. */
  ghost predicate InTrap(v: Volume, fd: FileData) {
    && v.rootLba < |v.disk| && RootSane(v, fd) && fd.position % 32 == 0 && fd.size % 32 == 0
    && (fd.position < fd.size ==> fd.currentCluster == v.rootLba)
    && (fd.buffer == RootSector(v) || (fd.position % 512 == 0 && fd.buffer == ZeroSector()))
  }

  /** In the middle of a cluster the code goes to the data area, or stays if that is not on
      the disk. */
  lemma RefillInside(v: Volume, cache: nat, fd: FileData)
    requires Trap(v, cache) && fd.currentCluster == v.rootLba && fd.currentSector + 1 < v.spc
    ensures var r := Refilled(v, cache, fd);
      && r.cache == cache && (r.fd.buffer == fd.buffer || r.fd.buffer == ZeroSector())
      && r.fd == fd.(currentSector := fd.currentSector + 1, buffer := r.fd.buffer)
  {
    assert v.dataLba <= SectorLba(v, v.rootLba, fd.currentSector + 1);
  }

  /** At the end of a cluster it meets the end mark. */
  lemma RefillEnds(v: Volume, cache: nat, fd: FileData)
    requires Trap(v, cache) && fd.currentCluster == v.rootLba && fd.currentSector + 1 >= v.spc
    ensures var r := Refilled(v, cache, fd);
      r.fd.size == fd.position && r.fd.position == fd.position && r.fd.buffer == fd.buffer
  {
  }

  lemma TrapRefill(v: Volume, cache: nat, fd: FileData)
    requires Trap(v, cache) && fd.position % 512 == 0 && fd.position > 0 && fd.size % 32 == 0
    requires fd.isOpen && fd.isDirectory && fd.firstCluster == v.rootLba && fd.position <= fd.size <= 32 * v.rootEntries
    requires fd.currentCluster == v.rootLba && fd.buffer == RootSector(v)
    ensures var r := Refilled(v, cache, fd);
      InTrap(v, r.fd) && r.fd.position == fd.position && (r.fd.position < r.fd.size ==> r.cache == cache)
  {
    RefilledSane(v, cache, fd);
    WholeSector(fd.position);
    if fd.currentSector + 1 < v.spc {
      RefillInside(v, cache, fd);
    } else {
      RefillEnds(v, cache, fd);
    }
  }

  lemma WholeSector(p: nat)
    requires p % 512 == 0
    ensures p % 32 == 0
  {
  }

  lemma NextEntry(p: nat)
    requires p % 32 == 0
    ensures (p + 32) % 32 == 0 && (p % 512 / 32 == 15 ==> (p + 32) % 512 == 0)
  {
    EntryOffset(p);
    QuotientRemainder(p + 32, p / 32 + 1, 32, 0);
    if p % 512 / 32 == 15 {
      QuotientRemainder(p + 32, p / 512 + 1, 512, 0);
    }
  }

  /** Entry `k` of the first sector as the bytes that are read. */
  lemma ReadGoesBy(v: Volume, key: Name, k: nat)
    requires v.rootLba < |v.disk| && k < 16 && AllGoBy(v, key)
    ensures var data := RootSector(v)[32 * k..32 * k + 32]; data[0] != 0 && data[..11] != key
  {
    assert GoesBy(v, key, k);
    assert RootSector(v)[32 * k..32 * k + 32][..11] == RootSector(v)[32 * k..32 * k + 11];
  }

  lemma TrapStays(v: Volume, fd: FileData)
    requires InTrap(v, fd) && fd.buffer == RootSector(v) && fd.position + 32 <= fd.size
    ensures InTrap(v, fd.(position := fd.position + 32))
  {
    NextEntry(fd.position);
  }

  /** An entry that goes by leads on inside the trap. */
  lemma TrapStep(v: Volume, cache: nat, fd: FileData, key: Name) returns (cache': nat, fd': FileData)
    requires Trap(v, cache) && InTrap(v, fd) && fd.position < fd.size && fd.buffer == RootSector(v)
    requires AllGoBy(v, key)
    ensures InTrap(v, fd') && fd'.position == fd.position + 32 && (fd'.position < fd'.size ==> cache' == cache)
    ensures RootFind(v, cache, fd, key) == RootFind(v, cache', fd', key)
  {
    var k := fd.position % 512 / 32;
    EntryLeft(fd.position, fd.size);
    EntryOffset(fd.position);
    ReadGoesBy(v, key, k);
    EntryPassed(v, cache, fd, key, k);
    if k < 15 {
      TrapStays(v, fd);
      cache', fd' := cache, fd.(position := fd.position + 32);
    } else {
      TrapLast(v, cache, fd);
      var next := Refilled(v, cache, fd.(position := fd.position + 32));
      cache', fd' := next.cache, next.fd;
    }
  }

  lemma TrapLast(v: Volume, cache: nat, fd: FileData)
    requires Trap(v, cache) && InTrap(v, fd) && fd.buffer == RootSector(v)
    requires fd.position % 512 / 32 == 15 && fd.position + 32 <= fd.size
    ensures Fetchable(v, fd.currentCluster)
    ensures var next := Refilled(v, cache, fd.(position := fd.position + 32));
      InTrap(v, next.fd) && next.fd.position == fd.position + 32
      && (next.fd.position < next.fd.size ==> next.cache == cache)
  {
    NextEntry(fd.position);
    TrapRefill(v, cache, fd.(position := fd.position + 32));
  }

  /** A zero sector is a terminator. */
  lemma ZeroEnds(v: Volume, cache: nat, fd: FileData, key: Name)
    requires RefillsFit(v) && RootSane(v, fd) && fd.position % 512 == 0 && fd.size % 32 == 0 && fd.position < fd.size
    requires fd.buffer[0] == 0
    ensures RootFind(v, cache, fd, key) == Found(None, cache, fd.(position := fd.position + 32))
  {
    WholeSector(fd.position);
    EntryTaken(v, cache, fd);
    EntryLeft(fd.position, fd.size);
  }

  lemma {:induction false} Trapped(v: Volume, cache: nat, fd: FileData, key: Name)
    requires RefillsFit(v) && InTrap(v, fd) && AllGoBy(v, key) && (fd.position < fd.size ==> Trap(v, cache))
    ensures RootFind(v, cache, fd, key).entry == None
    decreases 32 * v.rootEntries - fd.position
  {
    if fd.position == fd.size {
      RootEnds(v, cache, fd, key);
    } else if fd.buffer == RootSector(v) {
      var cache', fd' := TrapStep(v, cache, fd, key);
      Trapped(v, cache', fd', key);
    } else {
      ZeroEnds(v, cache, fd, key);
    }
  }

  lemma {:induction false} PassedBy(v: Volume, cache: nat, fd: FileData, key: Name, i: nat, n: nat)
    requires RefillsFit(v) && RootAt(v, fd, i) && i <= n <= 15 && n <= v.rootEntries
    requires forall m: nat {:trigger GoesBy(v, key, m)} | i <= m < n :: GoesBy(v, key, m)
    ensures RootAt(v, fd.(position := 32 * n), n)
    ensures RootFind(v, cache, fd, key) == RootFind(v, cache, fd.(position := 32 * n), key)
    decreases n - i
  {
    if i < n {
      EntryInside(v, cache, fd, key, i);
      assert GoesBy(v, key, i);
      PassedBy(v, cache, fd.(position := 32 * (i + 1)), key, i + 1, n);
    } else {
      assert fd == fd.(position := 32 * n);
    }
  }

  // ----- which searches are right

  /** Another content of the disk with the same first sector of the root directory. */
  predicate SameRoot(v: Volume, disk: seq<Sector>) {
    |disk| == |v.disk| && v.rootLba < |disk| && disk[v.rootLba] == v.disk[v.rootLba]
  }

  ghost predicate FindsRight(v: Volume, disk: seq<Sector>, cache: nat, fd: FileData, key: Name)
    requires RootLayout(v) && FreshRoot(v, fd) && SameRoot(v, disk)
  {
    var w := v.(disk := disk);
    RootFind(w, cache, fd, key).entry == Find(RootDirectory(w), key, 0)
  }

  /** An undecided search passes all 16 entries by. */
  lemma UndecidedGoesBy(v: Volume, key: Name)
    requires v.rootLba < |v.disk| && !RootDecides(v, key)
    ensures AllGoBy(v, key)
  {
    forall i: nat | i < 16
      ensures GoesBy(v, key, i)
    {
      assert !StopsAt(RootSector(v), key, i);
    }
  }

  lemma AstrayTrap(v: Volume, w: Volume, key: Name, cache: nat)
    requires IsAstray(v, w, KeySector(key), 0xFF, 0xFF) && v.rootEntries > 16 && !StraddlingHit(cache, v.rootLba)
    ensures Trap(w, cache)
  {
    AstrayLookup(v, w, KeySector(key), 0xFF, 0xFF, cache);
  }

  /** In such a directory the entry is the seventeenth. */
  lemma KeyInSecond(v: Volume, key: Name)
    requires RootLayout(v) && v.rootEntries > 16 && AllGoBy(v, key) && key[0] != 0
    requires v.disk[v.rootLba + 1] == KeySector(key)
    ensures Find(RootDirectory(v), key, 0).Some?
  {
    var dir := RootDirectory(v);
    FirstOfAll(v);
    assert dir[..512] == RootSector(v);
    SeventeenthIsKey(v, key);
    forall m: nat | m < 16
      ensures InUse(dir, m) && !Named(dir, key, m)
    {
      assert GoesBy(v, key, m);
      SameEntry(RootSector(v), dir, key, m);
    }
    FindFirst(dir, key, 0, 16);
  }

  lemma SeventeenthIsKey(v: Volume, key: Name)
    requires RootLayout(v) && v.rootEntries > 16 && key[0] != 0 && v.disk[v.rootLba + 1] == KeySector(key)
    ensures InUse(RootDirectory(v), 16) && Named(RootDirectory(v), key, 16)
  {
    var dir := RootDirectory(v);
    SecondOfAll(v);
    var entry := KeySector(key)[..32];
    assert entry[0] == key[0] && entry[..11] == key;
    assert dir[512] == dir[512..544][0] && dir[512..523] == dir[512..544][..11];
  }

  lemma SecondOfAll(v: Volume)
    requires RootOnDisk(v) && v.rootLba + 1 < |v.disk| && v.rootEntries > 16
    ensures |RootDirectory(v)| >= 544 && RootDirectory(v)[512..544] == v.disk[v.rootLba + 1][..32]
  {
    var sectors := v.disk[v.rootLba..v.rootLba + RootSpan(v)];
    forall k: nat | 512 <= k < 544
      ensures Flatten(sectors)[k] == v.disk[v.rootLba + 1][k - 512]
    {
      FlattenAt(sectors, k);
      QuotientRemainder(k, 1, 512, k - 512);
    }
    assert RootDirectory(v)[512..544] == Flatten(sectors)[512..544];
  }

  /** A search of the root directory is right for every content of the rest of the disk if
      and only if it ends within the first 16 entries. */
  lemma RootRightExactly(v: Volume, cache: nat, fd: FileData, key: Name)
    requires RootLayout(v) && FreshRoot(v, fd) && !StraddlingHit(cache, v.rootLba) && key[0] != 0
    ensures (forall disk: seq<Sector> | SameRoot(v, disk) :: FindsRight(v, disk, cache, fd, key))
            <==> RootDecides(v, key)
  {
    if RootDecides(v, key) {
      forall disk: seq<Sector> | SameRoot(v, disk)
        ensures FindsRight(v, disk, cache, fd, key)
      {
        RootSearch(v.(disk := disk), cache, fd, key);
      }
    } else {
      var w := Astray(v, KeySector(key), 0xFF, 0xFF);
      AstrayFacts(v, KeySector(key), 0xFF, 0xFF);
      RootMissed(v, w, cache, fd, key);
      assert SameRoot(v, w.disk) && !FindsRight(v, w.disk, cache, fd, key);
    }
  }

  /** A disk on which an undecided search misses its entry. */
  lemma RootMissed(v: Volume, w: Volume, cache: nat, fd: FileData, key: Name)
    requires FreshRoot(v, fd) && !StraddlingHit(cache, v.rootLba) && key[0] != 0 && !RootDecides(v, key)
    requires RootLayout(v) && IsAstray(v, w, KeySector(key), 0xFF, 0xFF)
    ensures RootFind(w, cache, fd, key).entry == None && Find(RootDirectory(w), key, 0).Some?
  {
    AstrayTrap(v, w, key, cache);
    UndecidedGoesBy(v, key);
    SameFirst(v, w, fd, key);
    KeyInSecond(w, key);
    Trapped(w, cache, fd, key);
  }

  /** What depends on the first sector alone. */
  lemma SameFirst(v: Volume, w: Volume, fd: FileData, key: Name)
    requires RootLayout(w) && v.rootLba < |v.disk| && w == v.(disk := w.disk) && RootSector(w) == RootSector(v)
    requires FreshRoot(v, fd)
    ensures FreshRoot(w, fd) && InTrap(w, fd)
    ensures forall i: nat {:trigger GoesBy(w, key, i)} | i < 16 && GoesBy(v, key, i) :: GoesBy(w, key, i)
  {
    QuotientRemainder(fd.size, w.rootEntries, 32, 0);
  }

  // ----- which searches spare the handle

  ghost predicate StaysFresh(v: Volume, disk: seq<Sector>, cache: nat, fd: FileData, key: Name)
    requires RootLayout(v) && FreshRoot(v, fd) && SameRoot(v, disk)
  {
    var w := v.(disk := disk);
    FreshRoot(w, Rewound(RootFind(w, cache, fd, key).fd))
  }

  /** The sector that the code goes to when it stays in the cluster is on the disk. */
  ghost predicate NextOnDisk(v: Volume, fd: FileData) {
    fd.currentSector + 1 < v.spc ==> SectorLba(v, v.rootLba, fd.currentSector + 1) < |v.disk|
  }

  /** The byte that makes cluster 2 follow the root's LBA. */
  function Two(v: Volume): Byte { if v.rootLba % 2 == 0 then 2 else 0x20 }

  lemma SpoilingRefill(v: Volume, w: Volume, cache: nat, fd: FileData)
    requires IsAstray(v, w, ZeroSector(), Two(v), 0)
    requires !StraddlingHit(cache, v.rootLba) && fd.currentCluster == v.rootLba && NextOnDisk(w, fd)
    ensures Fetchable(w, w.rootLba)
    ensures Refilled(w, cache, fd).fd.buffer == ZeroSector() && Refilled(w, cache, fd).fd.size == fd.size
  {
    var (_, cluster, sector) := PlaceAfter(w, cache, fd);
    SpoilingPlace(v, w, cache, fd);
    assert w.disk[SectorLba(w, cluster, sector)] == ZeroSector();
  }

  lemma SpoilingPlace(v: Volume, w: Volume, cache: nat, fd: FileData)
    requires IsAstray(v, w, ZeroSector(), Two(v), 0)
    requires !StraddlingHit(cache, v.rootLba) && fd.currentCluster == v.rootLba && NextOnDisk(w, fd)
    ensures Fetchable(w, w.rootLba)
    ensures var (_, cluster, sector) := PlaceAfter(w, cache, fd);
      cluster < 0xFFFF_FFF8 && w.rootLba < SectorLba(w, cluster, sector) < |w.disk|
  {
    if fd.currentSector + 1 >= w.spc {
      AstrayLookup(v, w, ZeroSector(), Two(v), 0, cache);
      TwoUnpacked(v);
      DataPlace(w.dataLba, 0, w.spc, 0);
    }
  }

  lemma TwoUnpacked(v: Volume)
    ensures Extended(Unpack(v.rootLba, Two(v), 0)) == 2
  {
  }

  lemma UnsparedGoesBy(v: Volume, key: Name, i: nat)
    requires v.rootLba < |v.disk| && !RootSpares(v, key) && i < 15
    ensures GoesBy(v, key, i)
  {
    assert !StopsAt(RootSector(v)[..480], key, i);
    SameEntry(RootSector(v)[..480], RootSector(v), key, i);
  }

  /** A disk on which a search that reads the sixteenth entry leaves another sector in the
      buffer. */
  lemma RootSpoiled(v: Volume, w: Volume, cache: nat, fd: FileData, key: Name)
    requires FreshRoot(v, fd) && !StraddlingHit(cache, v.rootLba) && NextOnDisk(v, fd) && !RootSpares(v, key)
    requires RootLayout(v) && IsAstray(v, w, ZeroSector(), Two(v), 0)
    ensures RootFind(w, cache, fd, key).fd.buffer == ZeroSector() && RootSector(w)[0] != 0
    ensures RootFind(w, cache, fd, key).fd.size == fd.size
  {
    UnsparedReaches(v, w, cache, fd, key);
    SameNext(v, w, fd);
    SpoiledAtLast(v, w, cache, fd.(position := 480), key);
  }

  /** The search gets to the sixteenth entry. */
  lemma UnsparedReaches(v: Volume, w: Volume, cache: nat, fd: FileData, key: Name)
    requires RootLayout(w) && v.rootLba < |v.disk| && w == v.(disk := w.disk) && RootSector(w) == RootSector(v)
    requires FreshRoot(v, fd) && !RootSpares(v, key)
    ensures RootAt(w, fd.(position := 480), 15) && w.rootEntries >= 16 && RootSector(w)[0] != 0
    ensures RootFind(w, cache, fd, key) == RootFind(w, cache, fd.(position := 480), key)
  {
    SameFirst(v, w, fd, key);
    forall i: nat | i < 15
      ensures GoesBy(w, key, i)
    {
      UnsparedGoesBy(v, key, i);
    }
    FirstInUse(w, key);
    PassedBy(w, cache, fd, key, 0, 15);
  }

  lemma SameNext(v: Volume, w: Volume, fd: FileData)
    requires |w.disk| == |v.disk| && w == v.(disk := w.disk) && NextOnDisk(v, fd)
    ensures NextOnDisk(w, fd.(position := 480))
  {
    assert SectorLba(w, w.rootLba, fd.currentSector + 1) == SectorLba(v, v.rootLba, fd.currentSector + 1);
  }

  lemma FirstInUse(v: Volume, key: Name)
    requires v.rootLba < |v.disk| && GoesBy(v, key, 0)
    ensures RootSector(v)[0] != 0
  {
  }

  lemma SpoiledAtLast(v: Volume, w: Volume, cache: nat, fd: FileData, key: Name)
    requires IsAstray(v, w, ZeroSector(), Two(v), 0) && RootAt(w, fd, 15) && w.rootEntries >= 16
    requires !StraddlingHit(cache, v.rootLba) && NextOnDisk(w, fd)
    ensures RootFind(w, cache, fd, key).fd.buffer == ZeroSector() && RootFind(w, cache, fd, key).fd.size == fd.size
  {
    SpoilingRefill(v, w, cache, fd.(position := 512));
    LastIsZero(w, cache, fd, key);
  }

  lemma LastIsZero(v: Volume, cache: nat, fd: FileData, key: Name)
    requires RefillsFit(v) && RootAt(v, fd, 15) && v.rootEntries >= 16 && Fetchable(v, fd.currentCluster)
    requires var next := Refilled(v, cache, fd.(position := 512)).fd;
      next.buffer == ZeroSector() && next.size == fd.size
    ensures RootFind(v, cache, fd, key).fd.buffer == ZeroSector() && RootFind(v, cache, fd, key).fd.size == fd.size
  {
    EntryLast(v, cache, fd, key);
    var next := Refilled(v, cache, fd.(position := 512));
    TestedZero(v, next.cache, next.fd, key, fd.size);
  }

  lemma TestedZero(v: Volume, cache: nat, fd: FileData, key: Name, size: nat)
    requires RefillsFit(v) && RootSane(v, fd) && v.rootLba < |v.disk|
    requires fd.position == 512 && fd.size == size == 32 * v.rootEntries && fd.buffer == ZeroSector()
    ensures Tested(v, key, 15, cache, fd).fd.buffer == ZeroSector() && Tested(v, key, 15, cache, fd).fd.size == size
  {
    QuotientRemainder(size, v.rootEntries, 32, 0);
    ZeroStays(v, cache, fd, key);
  }

  /** From a zero sector on the search does not touch the buffer any more. */
  lemma ZeroStays(v: Volume, cache: nat, fd: FileData, key: Name)
    requires RefillsFit(v) && RootSane(v, fd) && fd.position % 512 == 0 && fd.size % 32 == 0
    requires fd.buffer == ZeroSector()
    ensures RootFind(v, cache, fd, key).fd.buffer == fd.buffer && RootFind(v, cache, fd, key).fd.size == fd.size
  {
    if fd.position < fd.size {
      ZeroEnds(v, cache, fd, key);
    } else {
      RootEnds(v, cache, fd, key);
    }
  }

  /** On that disk every later search finds nothing, whatever it looks for. */
  lemma LaterSearchesMiss(v: Volume, w: Volume, cache: nat, fd: FileData, key: Name, later: nat, other: Name)
    requires FreshRoot(v, fd) && !StraddlingHit(cache, v.rootLba) && NextOnDisk(v, fd) && !RootSpares(v, key)
    requires RootLayout(v) && IsAstray(v, w, ZeroSector(), Two(v), 0)
    ensures RootSane(w, fd) && RootSane(w, Rewound(RootFind(w, cache, fd, key).fd))
    ensures RootFind(w, later, Rewound(RootFind(w, cache, fd, key).fd), other).entry == None
  {
    SameFirst(v, w, fd, key);
    RootSpoiled(v, w, cache, fd, key);
    var again := Rewound(RootFind(w, cache, fd, key).fd);
    QuotientRemainder(again.size, w.rootEntries, 32, 0);
    ZeroEnds(w, later, again, other);
  }

  /** After a search and `close` the root's handle is as fresh as before for every content
      of the rest of the disk if and only if the search spares the sixteenth entry. */
  lemma RootAgainExactly(v: Volume, cache: nat, fd: FileData, key: Name)
    requires RootLayout(v) && FreshRoot(v, fd) && !StraddlingHit(cache, v.rootLba) && NextOnDisk(v, fd)
    ensures (forall disk: seq<Sector> | SameRoot(v, disk) :: StaysFresh(v, disk, cache, fd, key))
            <==> RootSpares(v, key)
  {
    if RootSpares(v, key) {
      forall disk: seq<Sector> | SameRoot(v, disk)
        ensures StaysFresh(v, disk, cache, fd, key)
      {
        RootStays(v.(disk := disk), cache, fd, key);
      }
    } else {
      var w := Astray(v, ZeroSector(), Two(v), 0);
      AstrayFacts(v, ZeroSector(), Two(v), 0);
      RootSpoiled(v, w, cache, fd, key);
      assert SameRoot(v, w.disk) && !StaysFresh(v, w.disk, cache, fd, key);
    }
  }
}
