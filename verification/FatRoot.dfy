/** The root directory. `read` takes its LBA for a cluster number when it goes behind the
    first sector; what its handle does then, and which searches are right nevertheless. */
module FatRoot {
  import opened Bytes
  import opened Words
  import opened Memory
  import opened FatLayout
  import opened FatSpec
  import opened FatDirectory
  import opened FatCursors

  /** The lookups that reading the root can lead to stay on the disk. */
  predicate RefillsFit(v: Volume) { Fetchable(v, v.rootLba) && Fetchable(v, 0xFF7) }

  lemma Refillable(v: Volume, c: nat)
    requires RefillsFit(v) && (c == v.rootLba || c < 0xFF8)
    ensures Fetchable(v, c)
  {
  }

  // ----- reading

  /** The cache position and the handle after a step, and whether the loop stops. */
  datatype Refill = Refill(cache: nat, fd: FileData, stop: bool)

  /** The cluster and the sector in it that `read` goes on with, and the cache position. */
  function PlaceAfter(v: Volume, cache: nat, fd: FileData): (nat, nat, nat)
    requires Fetchable(v, fd.currentCluster)
  {
    if fd.currentSector + 1 >= v.spc then
      var (cache', cluster) := Lookup(v, cache, fd.currentCluster);
      (cache', cluster, 0)
    else (cache, fd.currentCluster, fd.currentSector + 1)
  }

  /** `clusterToLba(cluster) + sector`, in 32 bits */
  function SectorLba(v: Volume, cluster: nat, sector: nat): nat {
    (ClusterToLba(v.dataLba, v.spc, cluster) + sector) % TWO32
  }

  /** The end of a sector has been reached: go to the next one, or stop at an end mark or
      a failing read. */
  function Refilled(v: Volume, cache: nat, fd: FileData): Refill
    requires Fetchable(v, fd.currentCluster)
  {
    var (cache', cluster, sector) := PlaceAfter(v, cache, fd);
    var next := fd.(currentCluster := cluster, currentSector := sector);
    if cluster >= 0xFFFF_FFF8 then Refill(cache', next.(size := fd.position), true)
    else
      var lba := SectorLba(v, cluster, sector);
      if lba < |v.disk| then Refill(cache', next.(buffer := v.disk[lba]), false) else Refill(cache', next, true)
  }

  lemma RefilledSane(v: Volume, cache: nat, fd: FileData)
    requires Fetchable(v, fd.currentCluster) && fd.position > 0
    requires fd.isOpen && fd.isDirectory && fd.firstCluster == v.rootLba
    requires fd.position <= fd.size <= 32 * v.rootEntries
    requires fd.currentCluster == v.rootLba || fd.currentCluster < 0xFF8
    ensures var r := Refilled(v, cache, fd);
      RootSane(v, r.fd) && r.fd.position == fd.position && (!r.stop ==> r.fd.size == fd.size)
  {
  }

  datatype Readout = Readout(data: seq<Byte>, cache: nat, fd: FileData)

  /** The loop of `read` on the root's handle with `left` bytes to go. */
  function RootRead(v: Volume, cache: nat, fd: FileData, left: nat): (r: Readout)
    requires RefillsFit(v) && RootSane(v, fd) && left <= fd.size - fd.position
    ensures RootSane(v, r.fd) && |r.data| <= left && r.fd.position == fd.position + |r.data|
    decreases left
  {
    if left == 0 then Readout([], cache, fd)
    else
      var p := fd.position % 512;
      if left < 512 - p then Readout(fd.buffer[p..p + left], cache, fd.(position := fd.position + left))
      else
        var mid := fd.(position := fd.position + (512 - p));
        Refillable(v, fd.currentCluster);
        RefilledSane(v, cache, mid);
        var next := Refilled(v, cache, mid);
        if next.stop then Readout(fd.buffer[p..], next.cache, next.fd)
        else
          var rest := RootRead(v, next.cache, next.fd, left - (512 - p));
          Readout(fd.buffer[p..] + rest.data, rest.cache, rest.fd)
  }

  /** Within the buffered sector `read` takes plain bytes. */
  lemma RootInside(v: Volume, cache: nat, fd: FileData, left: nat)
    requires RefillsFit(v) && RootSane(v, fd) && left <= fd.size - fd.position && fd.position % 512 + left < 512
    ensures RootRead(v, cache, fd, left) ==
      Readout(fd.buffer[fd.position % 512..fd.position % 512 + left], cache, fd.(position := fd.position + left))
  {
  }

  /** The loop between two rounds: with what is still to be read it will be `whole`. */
  predicate RootReading(v: Volume, cache: nat, fd: FileData, data: seq<Byte>, left: nat, whole: Readout) {
    && RefillsFit(v) && RootSane(v, fd) && left <= fd.size - fd.position
    && var rest := RootRead(v, cache, fd, left);
      whole == Readout(data + rest.data, rest.cache, rest.fd)
  }

  /** A round that stays in the sector is the last one. */
  lemma RootRest(v: Volume, cache: nat, fd: FileData, fd': FileData, data: seq<Byte>, left: nat, chunk: seq<Byte>,
                 whole: Readout)
    requires RootReading(v, cache, fd, data, left, whole) && left > 0 && Taken(fd, fd', left, chunk, false)
    ensures RootReading(v, cache, fd', data + chunk, left - |chunk|, whole)
  {
    assert data + chunk + [] == data + chunk;
  }

  /** A round that uses up the sector goes on with the next one, or stops. */
  lemma RootFull(v: Volume, cache: nat, fd: FileData, mid: FileData, data: seq<Byte>, left: nat, chunk: seq<Byte>,
                 whole: Readout)
    requires RootReading(v, cache, fd, data, left, whole) && left > 0 && Taken(fd, mid, left, chunk, true)
    ensures Fetchable(v, mid.currentCluster)
    ensures var next := Refilled(v, cache, mid);
      if next.stop then whole == Readout(data + chunk, next.cache, next.fd)
      else RootReading(v, next.cache, next.fd, data + chunk, left - |chunk|, whole)
  {
    FullRound(v, cache, fd, mid, left, chunk);
    var next := Refilled(v, cache, mid);
    if !next.stop {
      Associative(data, chunk, RootRead(v, next.cache, next.fd, left - |chunk|).data);
    }
  }

  lemma FullRound(v: Volume, cache: nat, fd: FileData, mid: FileData, left: nat, chunk: seq<Byte>)
    requires RefillsFit(v) && RootSane(v, fd) && 0 < left <= fd.size - fd.position && Taken(fd, mid, left, chunk, true)
    ensures Fetchable(v, mid.currentCluster)
    ensures var next := Refilled(v, cache, mid);
      if next.stop then RootRead(v, cache, fd, left) == Readout(chunk, next.cache, next.fd)
      else
        && RootSane(v, next.fd) && left - |chunk| <= next.fd.size - next.fd.position
        && var rest := RootRead(v, next.cache, next.fd, left - |chunk|);
           RootRead(v, cache, fd, left) == Readout(chunk + rest.data, rest.cache, rest.fd)
  {
    assert chunk == fd.buffer[fd.position % 512..];
    Refillable(v, fd.currentCluster);
    RefilledSane(v, cache, mid);
  }

  lemma Associative(x: seq<Byte>, y: seq<Byte>, z: seq<Byte>)
    ensures x + (y + z) == x + y + z
  {
  }

  // ----- searching

  datatype Found = Found(entry: Option<DirEntry>, cache: nat, fd: FileData)

  /** `FindFile` on the root's handle. */
  function RootFind(v: Volume, cache: nat, fd: FileData, key: Name): (r: Found)
    requires RefillsFit(v) && RootSane(v, fd)
    ensures RootSane(v, r.fd)
    decreases 32 * v.rootEntries - fd.position
  {
    var read := RootRead(v, cache, fd, Min(32, fd.size - fd.position));
    if Mismatch(EntryOf(read.data), key) then RootFind(v, read.cache, read.fd, key)
    else Found(EntryOf(read.data), read.cache, read.fd)
  }

  /** `close` on the root's handle. */
  function Rewound(fd: FileData): FileData { fd.(position := 0, currentCluster := fd.firstCluster) }

  // ----- searches that are right

  /** The handle as `initialize` sets it up, after reading `i` entries of the first sector. */
  predicate RootAt(v: Volume, fd: FileData, i: nat) {
    && RootSane(v, fd) && v.rootLba < |v.disk|
    && fd.size == 32 * v.rootEntries && fd.position == 32 * i && fd.currentCluster == v.rootLba
    && fd.buffer == v.disk[v.rootLba]
  }

  predicate FreshRoot(v: Volume, fd: FileData) { RootAt(v, fd, 0) }

  function RootSpan(v: Volume): nat { (v.rootEntries * 32 + 511) / 512 }

  predicate RootOnDisk(v: Volume) { v.rootLba + RootSpan(v) <= |v.disk| }

  function RootDirectory(v: Volume): seq<Byte>
    requires RootOnDisk(v)
  {
    Flatten(v.disk[v.rootLba..v.rootLba + RootSpan(v)])[..32 * v.rootEntries]
  }

  /** The first sector of the root directory. */
  function RootSector(v: Volume): Sector
    requires v.rootLba < |v.disk|
  {
    v.disk[v.rootLba]
  }

  /** A search ends within the first sector, which holds 16 entries. */
  ghost predicate RootDecides(v: Volume, key: Name)
    requires v.rootLba < |v.disk|
  {
    v.rootEntries <= 16 || Decided(RootSector(v), key)
  }

  /** It ends before the sixteenth entry is read. */
  ghost predicate RootSpares(v: Volume, key: Name)
    requires v.rootLba < |v.disk|
  {
    v.rootEntries <= 15 || Decided(RootSector(v)[..480], key)
  }

  /** What the search makes of entry `i` of the first sector, if `next` is the state after reading it. */
  function Tested(v: Volume, key: Name, i: nat, cache: nat, next: FileData): Found
    requires v.rootLba < |v.disk| && i < 16 && RefillsFit(v) && RootSane(v, next)
  {
    var dir := RootSector(v);
    if !InUse(dir, i) then Found(None, cache, next)
    else if Named(dir, key, i) then Found(Some(dir[32 * i..32 * i + 32]), cache, next)
    else RootFind(v, cache, next, key)
  }

  /** One round of a search whose position is at an entry. */
  lemma EntryTaken(v: Volume, cache: nat, fd: FileData)
    requires RefillsFit(v) && RootSane(v, fd) && fd.position % 32 == 0 && fd.size % 32 == 0 && fd.position < fd.size
    ensures var k, mid := fd.position % 512 / 32, fd.(position := fd.position + 32);
      && k < 16 && Fetchable(v, mid.currentCluster)
      && RootRead(v, cache, fd, 32) ==
         if k < 15 then Readout(fd.buffer[32 * k..32 * k + 32], cache, mid)
         else Readout(fd.buffer[32 * k..32 * k + 32], Refilled(v, cache, mid).cache, Refilled(v, cache, mid).fd)
  {
    EntryOffset(fd.position);
    EntryLeft(fd.position, fd.size);
    Refillable(v, fd.currentCluster);
    if fd.position % 512 / 32 < 15 {
      RootInside(v, cache, fd, 32);
    } else {
      SectorUsedUp(v, cache, fd);
    }
  }

  /** Reading the last entry of the buffered sector. */
  lemma SectorUsedUp(v: Volume, cache: nat, fd: FileData)
    requires RefillsFit(v) && RootSane(v, fd) && fd.position % 512 == 480 && fd.position + 32 <= fd.size
    ensures Fetchable(v, fd.currentCluster)
    ensures var next := Refilled(v, cache, fd.(position := fd.position + 32));
      RootRead(v, cache, fd, 32) == Readout(fd.buffer[480..512], next.cache, next.fd)
  {
    var mid := fd.(position := fd.position + 32);
    Refillable(v, fd.currentCluster);
    RefilledSane(v, cache, mid);
    var next := Refilled(v, cache, mid);
    if !next.stop {
      NothingRead(v, next.cache, next.fd);
    }
    assert fd.buffer[480..] == fd.buffer[480..512] && fd.buffer[480..] + [] == fd.buffer[480..];
  }

  lemma NothingRead(v: Volume, cache: nat, fd: FileData)
    requires RefillsFit(v) && RootSane(v, fd)
    ensures RootRead(v, cache, fd, 0) == Readout([], cache, fd)
  {
  }

  /** An entry of another name: the search goes on with the state after reading it. */
  lemma EntryPassed(v: Volume, cache: nat, fd: FileData, key: Name, k: nat)
    requires RefillsFit(v) && RootSane(v, fd) && fd.position % 32 == 0 && fd.size % 32 == 0 && fd.position < fd.size
    requires k == fd.position % 512 / 32 && k < 16
    requires var data := fd.buffer[32 * k..32 * k + 32]; data[0] != 0 && data[..11] != key
    ensures var mid := fd.(position := fd.position + 32);
      && Fetchable(v, mid.currentCluster)
      && if k < 15 then RootSane(v, mid) && RootFind(v, cache, fd, key) == RootFind(v, cache, mid, key)
         else var next := Refilled(v, cache, mid);
           RootSane(v, next.fd) && RootFind(v, cache, fd, key) == RootFind(v, next.cache, next.fd, key)
  {
    EntryTaken(v, cache, fd);
    EntryLeft(fd.position, fd.size);
  }

  lemma EntryOffset(p: nat)
    requires p % 32 == 0
    ensures p % 512 == p % 512 / 32 * 32 && p % 512 / 32 < 16
  {
    QuotientRemainder(p % 512, p / 32 % 16, 32, 0);
  }

  lemma EntryLeft(p: nat, size: nat)
    requires p % 32 == 0 && size % 32 == 0 && p < size
    ensures p + 32 <= size
  {
  }

  lemma EntryInside(v: Volume, cache: nat, fd: FileData, key: Name, i: nat)
    requires RefillsFit(v) && RootAt(v, fd, i) && i < 15 && i < v.rootEntries
    ensures var next := fd.(position := 32 * (i + 1));
      RootAt(v, next, i + 1) && RootFind(v, cache, fd, key) == Tested(v, key, i, cache, next)
  {
    QuotientRemainder(32 * i, 0, 512, 32 * i);
    RootInside(v, cache, fd, 32);
    var read := RootRead(v, cache, fd, 32);
    var dir := RootSector(v);
    assert read.data == dir[32 * i..32 * i + 32] && read.data[..11] == dir[32 * i..32 * i + 11];
  }

  /** Reading the sixteenth entry uses the sector up. */
  lemma EntryLast(v: Volume, cache: nat, fd: FileData, key: Name)
    requires RefillsFit(v) && RootAt(v, fd, 15) && 16 <= v.rootEntries
    ensures var next := Refilled(v, cache, fd.(position := 512));
      && RootSane(v, next.fd) && next.fd.position == 512
      && RootFind(v, cache, fd, key) == Tested(v, key, 15, next.cache, next.fd)
  {
    RefilledSane(v, cache, fd.(position := 512));
    SectorUsedUp(v, cache, fd);
    assert RootSector(v)[480..512][..11] == RootSector(v)[480..491];
  }

  /** At the end of the directory there is nothing more to read. */
  lemma RootEnds(v: Volume, cache: nat, fd: FileData, key: Name)
    requires RefillsFit(v) && RootSane(v, fd) && fd.position == fd.size
    ensures RootFind(v, cache, fd, key) == Found(None, cache, fd)
  {
  }

  /** The entries of the first sector. */
  function FirstEntries(v: Volume): seq<Byte>
    requires v.rootLba < |v.disk|
  {
    RootSector(v)[..Min(512, 32 * v.rootEntries)]
  }

  /** The search from entry `i` on ends within the first sector, or the directory does. */
  ghost predicate DecidesFrom(v: Volume, key: Name, i: nat)
    requires v.rootLba < |v.disk|
  {
    v.rootEntries <= 16 || exists k: nat :: i <= k && StopsAt(RootSector(v), key, k)
  }

  /** The search goes on behind entry `i`. */
  predicate GoesBy(v: Volume, key: Name, i: nat)
    requires v.rootLba < |v.disk| && i < 16
  {
    InUse(RootSector(v), i) && !Named(RootSector(v), key, i)
  }

  lemma DecidesNext(v: Volume, key: Name, i: nat)
    requires v.rootLba < |v.disk| && i < 16 && DecidesFrom(v, key, i) && GoesBy(v, key, i)
    ensures DecidesFrom(v, key, i + 1) && (i == 15 ==> v.rootEntries <= 16)
  {
    if v.rootEntries > 16 {
      var k: nat :| i <= k && StopsAt(RootSector(v), key, k);
      assert k != i;
    }
  }

  lemma FindHere(v: Volume, key: Name, i: nat)
    requires v.rootLba < |v.disk| && i < 16 && i < v.rootEntries
    ensures var dir := RootSector(v);
      Find(FirstEntries(v), key, i) ==
      if !InUse(dir, i) then None
      else if Named(dir, key, i) then Some(dir[32 * i..32 * i + 32]) else Find(FirstEntries(v), key, i + 1)
  {
    SameEntry(FirstEntries(v), RootSector(v), key, i);
  }

  lemma FindNowhere(v: Volume, key: Name, i: nat)
    requires v.rootLba < |v.disk| && 32 * i >= |FirstEntries(v)|
    ensures Find(FirstEntries(v), key, i) == None
  {
  }

  /** From entry `i` on the search is that of the first sector, if it ends there. */
  lemma {:induction false} FirstSearch(v: Volume, cache: nat, fd: FileData, key: Name, i: nat)
    requires RefillsFit(v) && RootAt(v, fd, i) && i < 16 && i <= v.rootEntries && DecidesFrom(v, key, i)
    ensures RootFind(v, cache, fd, key).entry == Find(FirstEntries(v), key, i)
    decreases 16 - i
  {
    if i == v.rootEntries {
      RootEnds(v, cache, fd, key);
      FindNowhere(v, key, i);
    } else {
      FindHere(v, key, i);
      if i < 15 {
        EntryInside(v, cache, fd, key, i);
        if GoesBy(v, key, i) {
          DecidesNext(v, key, i);
          FirstSearch(v, cache, fd.(position := 32 * (i + 1)), key, i + 1);
        }
      } else {
        EntryLast(v, cache, fd, key);
        if GoesBy(v, key, 15) {
          DecidesNext(v, key, 15);
          var next := Refilled(v, cache, fd.(position := 512));
          RootEnds(v, next.cache, next.fd, key);
          FindNowhere(v, key, 16);
        }
      }
    }
  }

  /** A search that ends within the first sector is that of the whole root directory. */
  lemma RootSearch(v: Volume, cache: nat, fd: FileData, key: Name)
    requires RefillsFit(v) && FreshRoot(v, fd) && RootOnDisk(v) && RootDecides(v, key)
    ensures RootFind(v, cache, fd, key).entry == Find(RootDirectory(v), key, 0)
  {
    FirstSearch(v, cache, fd, key, 0);
    FirstOfAll(v);
    if v.rootEntries <= 16 {
      assert RootDirectory(v) == FirstEntries(v);
    } else {
      var all := RootDirectory(v);
      assert all == RootSector(v) + all[512..];
      var k: nat :| StopsAt(RootSector(v), key, k);
      DecidedEarly(RootSector(v), all[512..], key, 0, k);
      assert FirstEntries(v) == RootSector(v);
    }
  }

  /** The root directory begins with its first sector. */
  lemma FirstOfAll(v: Volume)
    requires RootOnDisk(v) && v.rootLba < |v.disk| && v.rootEntries > 0
    ensures |RootDirectory(v)| == 32 * v.rootEntries
    ensures RootDirectory(v)[..|FirstEntries(v)|] == FirstEntries(v)
  {
    var sectors := v.disk[v.rootLba..v.rootLba + RootSpan(v)];
    assert sectors[0] == v.disk[v.rootLba];
    assert Flatten(sectors)[..512] == v.disk[v.rootLba];
  }

  // ----- the handle afterwards

  lemma {:induction false} SparedSearch(v: Volume, cache: nat, fd: FileData, key: Name, i: nat)
    requires RefillsFit(v) && RootAt(v, fd, i) && i <= 15 && i <= v.rootEntries
    requires v.rootEntries <= 15 || exists k: nat :: i <= k < 15 && StopsAt(RootSector(v), key, k)
    ensures var r := RootFind(v, cache, fd, key);
      r.cache == cache && r.fd == fd.(position := r.fd.position)
    decreases 16 - i
  {
    if i == v.rootEntries {
      RootEnds(v, cache, fd, key);
    } else {
      EntryInside(v, cache, fd, key, i);
      if GoesBy(v, key, i) {
        SparedNext(v, key, i);
        SparedSearch(v, cache, fd.(position := 32 * (i + 1)), key, i + 1);
      }
    }
  }

  lemma SparedNext(v: Volume, key: Name, i: nat)
    requires v.rootLba < |v.disk| && i < 15 && GoesBy(v, key, i)
    requires v.rootEntries <= 15 || exists k: nat :: i <= k < 15 && StopsAt(RootSector(v), key, k)
    ensures v.rootEntries <= 15 || exists k: nat :: i + 1 <= k < 15 && StopsAt(RootSector(v), key, k)
  {
    if v.rootEntries > 15 {
      var k: nat :| i <= k < 15 && StopsAt(RootSector(v), key, k);
      assert k != i;
    }
  }

  /** A search that spares the sixteenth entry leaves cache and handle as they were. */
  lemma RootStays(v: Volume, cache: nat, fd: FileData, key: Name)
    requires RefillsFit(v) && FreshRoot(v, fd) && RootSpares(v, key)
    ensures RootFind(v, cache, fd, key).cache == cache
    ensures Rewound(RootFind(v, cache, fd, key).fd) == fd
  {
    if v.rootEntries > 15 {
      var k: nat :| StopsAt(RootSector(v)[..480], key, k);
      SameEntry(RootSector(v)[..480], RootSector(v), key, k);
    }
    SparedSearch(v, cache, fd, key, 0);
  }
}
