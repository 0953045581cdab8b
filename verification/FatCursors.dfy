/** The state of an open file in the FAT12 driver and the invariant that couples it
    to the file it stands for. */
module FatCursors {
  import opened Bytes
  import opened Words
  import opened Memory
  import opened FatSpec
  import opened FatFiles

  const HANDLES: nat := 10        // MAX_FILE_HANDLES
  const ROOT: nat := 11           // ROOT_DIRECTORY_HANDLE

  /** `FAT_FileData`; its handle is its index in the table. */
  datatype FileData = FileData(buffer: Sector, isDirectory: bool, size: nat, position: nat, isOpen: bool,
                               firstCluster: nat, currentCluster: nat, currentSector: nat)

  /** The bytes of consecutive sectors. */
  function Flatten(sectors: seq<Sector>): (s: seq<Byte>)
    ensures |s| == |sectors| * 512
  {
    if sectors == [] then [] else sectors[0] + Flatten(sectors[1..])
  }

  lemma {:induction false} FlattenAt(sectors: seq<Sector>, k: nat)
    requires k < |sectors| * 512
    ensures Flatten(sectors)[k] == sectors[k / 512][k % 512]
  {
    if k >= 512 {
      FlattenAt(sectors[1..], k - 512);
      QuotientRemainder(k, (k - 512) / 512 + 1, 512, (k - 512) % 512);
    }
  }

  /** `read_sectors`: an in-range read succeeds. */
  function ReadSectors(disk: seq<Sector>, lba: nat, count: nat): Option<seq<Byte>> {
    if lba + count <= |disk| then Some(Flatten(disk[lba..lba + count])) else None
  }

  lemma ReadOne(disk: seq<Sector>, lba: nat)
    requires lba < |disk|
    ensures ReadSectors(disk, lba, 1) == Some(disk[lba])
  {
    var one := disk[lba..lba + 1];
    assert one == [disk[lba]] && one[1..] == [];
    assert Flatten(one) == disk[lba] + Flatten(one[1..]);
    assert Flatten(one) == disk[lba];
  }

  /** The cursor of an open handle on the file or directory `chain`. The cluster, the
      sector in it and the buffer belong to the position, as long as the position
      has not reached the end of the chain. */
  ghost predicate Coupled(v: Volume, fd: FileData, chain: Chain) {
    && IsChain(v, chain)
    && fd.firstCluster == chain[0]
    && fd.position <= Limit(v, fd, chain) <= ByteCount(v, chain)
    && (fd.isDirectory && fd.size == 0 ==> fd.position < ByteCount(v, chain))
    && (fd.position < ByteCount(v, chain) ==> AtSector(v, fd, chain, fd.position / 512))
  }

  /** A directory is as long as its chain until `read` has found the end. */
  ghost function Limit(v: Volume, fd: FileData, chain: Chain): nat {
    if fd.isDirectory && fd.size == 0 then ByteCount(v, chain) else fd.size
  }

  ghost predicate AtSector(v: Volume, fd: FileData, chain: Chain, s: nat)
    requires IsChain(v, chain)
  {
    && s < Sectors(v, chain)
    && fd.currentCluster == ClusterOf(v, chain, s)
    && fd.currentSector == s % v.spc
    && fd.buffer == SectorAt(v, chain, s)
  }

  /** `read` only clamps to the size if it knows one. */
  predicate Clamped(fd: FileData) { !fd.isDirectory || fd.size != 0 }

  /** The position a `read` of `n` bytes ends at. */
  ghost function Goal(v: Volume, fd: FileData, chain: Chain, n: nat): nat {
    Min(fd.position + n, Limit(v, fd, chain))
  }

  /** The fields that identify an open file. */
  predicate SameFile(fd: FileData, fd': FileData) {
    fd'.isDirectory == fd.isDirectory && fd'.isOpen == fd.isOpen && fd'.firstCluster == fd.firstCluster
  }

  /** `read` between two rounds: from the cursor `fd0` the bytes `data` were taken,
      `left` more were asked for. */
  ghost predicate Reading(v: Volume, fd0: FileData, fd: FileData, chain: Chain, data: seq<Byte>, left: nat, n: nat) {
    && Coupled(v, fd, chain) && SameFile(fd0, fd) && fd.size == fd0.size
    && fd0.position <= fd.position && data == Slice(v, chain, fd0.position, fd.position)
    && fd.position + left == (if Clamped(fd0) then Min(fd0.position + n, fd0.size) else fd0.position + n)
  }

  /** `read` when it is finished. */
  ghost predicate ReadDone(v: Volume, fd0: FileData, fd: FileData, chain: Chain, data: seq<Byte>, n: nat) {
    && Coupled(v, fd0, chain) && Coupled(v, fd, chain) && SameFile(fd0, fd)
    && fd0.position <= Goal(v, fd0, chain, n)
    && fd.position == Goal(v, fd0, chain, n)
    && data == Slice(v, chain, fd0.position, Goal(v, fd0, chain, n))
    && Limit(v, fd, chain) == Limit(v, fd0, chain)
    && (!fd0.isDirectory ==> fd.size == fd0.size)
  }

  /** The same with the cache: its position will be `final` once the read is done. */
  ghost predicate InRound(v: Volume, fd0: FileData, fd: FileData, chain: Chain, data: seq<Byte>, left: nat, n: nat,
                          position: nat, final: nat)
  {
    && Reading(v, fd0, fd, chain, data, left, n)
    && CacheRuns(v, chain, fd.position, Goal(v, fd0, chain, n), position, final)
  }

  /** After a round: the read goes on, or the end of the chain has finished it. */
  ghost predicate RoundDone(v: Volume, fd0: FileData, fd: FileData, chain: Chain, data: seq<Byte>, left: nat, n: nat,
                            position: nat, final: nat, ended: bool)
  {
    if ended then ReadDone(v, fd0, fd, chain, data, n) && position == final
    else InRound(v, fd0, fd, chain, data, left, n, position, final)
  }

  lemma ReadStarts(v: Volume, fd: FileData, chain: Chain, n: nat)
    requires Coupled(v, fd, chain)
    ensures Clamped(fd) ==> fd.position <= fd.size
    ensures Reading(v, fd, fd, chain, [], if Clamped(fd) then Min(n, fd.size - fd.position) else n, n)
  {
  }

  /** The bytes `chunk` were taken from the buffer, up to `left` of them; `full` if that
      uses up the sector. */
  predicate Taken(fd: FileData, fd': FileData, left: nat, chunk: seq<Byte>, full: bool) {
    && (full <==> left >= 512 - fd.position % 512)
    && |chunk| == Min(left, 512 - fd.position % 512)
    && chunk == fd.buffer[fd.position % 512..fd.position % 512 + |chunk|]
    && fd' == fd.(position := fd.position + |chunk|)
  }

  /** A round that stays in the buffered sector. */
  lemma ChunkStays(v: Volume, fd0: FileData, fd: FileData, fd': FileData, chain: Chain,
                   data: seq<Byte>, left: nat, chunk: seq<Byte>, n: nat, position: nat, final: nat)
    requires InRound(v, fd0, fd, chain, data, left, n, position, final) && left > 0
             && Taken(fd, fd', left, chunk, false)
    ensures InRound(v, fd0, fd', chain, data + chunk, left - |chunk|, n, position, final)
  {
    var p := fd.position;
    SliceInSector(v, chain, p, left);
    SliceJoin(v, chain, fd0.position, p, p + left);
    SameSector(p, left);
    RunsStay(v, chain, p, p + left, Goal(v, fd0, chain, n), position, final);
  }

  /** The bytes taken in a round that uses up the buffered sector. */
  lemma ChunkTaken(v: Volume, fd0: FileData, fd: FileData, mid: FileData, chain: Chain,
                   data: seq<Byte>, left: nat, chunk: seq<Byte>, n: nat)
    requires Coupled(v, fd0, chain) && Reading(v, fd0, fd, chain, data, left, n) && Taken(fd, mid, left, chunk, true)
    ensures (fd.position / 512 + 1) * 512 <= Goal(v, fd0, chain, n) <= ByteCount(v, chain)
    ensures var s := fd.position / 512;
      && mid.position == (s + 1) * 512 <= ByteCount(v, chain)
      && AtSector(v, fd, chain, s)
      && data + chunk == Slice(v, chain, fd0.position, (s + 1) * 512)
  {
    var p, take := fd.position, 512 - fd.position % 512;
    SliceInSector(v, chain, p, take);
    SliceJoin(v, chain, fd0.position, p, p + take);
  }

  /** Going on with the next sector. */
  lemma ChunkCrosses(v: Volume, fd0: FileData, fd: FileData, fd': FileData, chain: Chain,
                     data: seq<Byte>, left: nat, chunk: seq<Byte>, n: nat)
    requires Coupled(v, fd0, chain) && Reading(v, fd0, fd, chain, data, left, n)
    requires Taken(fd, fd.(position := fd.position + |chunk|), left, chunk, true)
    requires SameFile(fd, fd') && fd'.size == fd.size && fd'.position == (fd.position / 512 + 1) * 512
    requires AtSector(v, fd', chain, fd.position / 512 + 1)
    ensures Reading(v, fd0, fd', chain, data + chunk, left - |chunk|, n)
  {
    ChunkTaken(v, fd0, fd, fd.(position := fd.position + |chunk|), chain, data, left, chunk, n);
    QuotientRemainder(fd'.position, fd.position / 512 + 1, 512, 0);
  }

  /** Reaching the end of the chain. */
  lemma ChunkEnds(v: Volume, fd0: FileData, fd: FileData, fd': FileData, chain: Chain,
                  data: seq<Byte>, left: nat, chunk: seq<Byte>, n: nat)
    requires Coupled(v, fd0, chain) && Reading(v, fd0, fd, chain, data, left, n)
    requires Taken(fd, fd.(position := fd.position + |chunk|), left, chunk, true)
    requires SameFile(fd, fd') && fd'.size == fd'.position == (fd.position / 512 + 1) * 512
    requires fd.position / 512 + 1 == Sectors(v, chain)
    ensures ReadDone(v, fd0, fd', chain, data + chunk, n)
  {
    ChunkTaken(v, fd0, fd, fd.(position := fd.position + |chunk|), chain, data, left, chunk, n);
  }

  lemma NothingLeft(v: Volume, fd0: FileData, fd: FileData, chain: Chain, data: seq<Byte>, n: nat,
                    position: nat, final: nat)
    requires Coupled(v, fd0, chain) && InRound(v, fd0, fd, chain, data, 0, n, position, final)
    ensures ReadDone(v, fd0, fd, chain, data, n) && position == final
  {
    RunsDone(v, chain, Goal(v, fd0, chain, n), position, final);
  }

  /** Following a chain through the cache gives the next cluster, or an end mark. */
  lemma NextLink(v: Volume, chain: Chain, i: nat, position: nat)
    requires IsChain(v, chain) && i < |chain|
    ensures InFat(v, chain[i])
    ensures !StraddlingHit(position, chain[i]) ==> var next := Lookup(v, position, chain[i]).1;
      if i + 1 < |chain| then next == chain[i + 1] && next < 0xFF8 else next >= 0xFFFF_FFF8
  {
    assert Follows(v, chain, i);
    if !StraddlingHit(position, chain[i]) {
      CacheTransparent(v, position, chain[i]);
    }
    if i + 1 < |chain| {
      assert Follows(v, chain, i + 1);
    }
  }

  /** The last sector of a chain is the last one of its last cluster. */
  lemma SectorsLeft(v: Volume, chain: Chain, s: nat)
    requires IsChain(v, chain) && s < Sectors(v, chain)
    ensures s + 1 == Sectors(v, chain) <==> s % v.spc + 1 >= v.spc && s / v.spc + 1 == |chain|
  {
    SectorInChain(v, chain, s);
    var q, r := s / v.spc, s % v.spc;
    assert s == q * v.spc + r;
    if q + 1 == |chain| {
      assert Sectors(v, chain) == q * v.spc + v.spc;
    } else {
      LargerProduct(q + 1, |chain|, v.spc);
    }
  }

  /** The bytes of an entry in the cache; only on a straddling hit the second one is missing. */
  lemma CachedEntry(v: Volume, cache: seq<Byte>, position: nat, c: nat)
    requires |cache| == CACHE * 512 && CacheHolds(v, cache, position) && Hit(position, c)
    requires Fetchable(v, c)
    ensures var i := FatIndex(c) - position * 512;
      && 0 <= i < CACHE * 512 && cache[i] == FatByte(v, FatIndex(c))
      && (i + 1 == CACHE * 512 <==> Straddles(position, c))
      && (i + 1 < CACHE * 512 ==> cache[i + 1] == FatByte(v, FatIndex(c) + 1))
  {
  }

  /** The cache is a copy of five sectors of the FAT. */
  ghost predicate CacheHolds(v: Volume, cache: seq<Byte>, position: nat)
    requires |cache| == CACHE * 512
  {
    && v.reserved + position + CACHE <= |v.disk|
    && forall k: nat {:trigger cache[k]} | k < CACHE * 512 ::
         v.reserved + (position * 512 + k) / 512 < |v.disk| && cache[k] == FatByte(v, position * 512 + k)
  }

  // ----- the handle table

  /** The chain behind each first cluster that the directories mention. */
  type Catalog = map<nat, Chain>

  ghost predicate Catalogued(v: Volume, chains: Catalog) {
    forall c: nat {:trigger chains[c]} | c in chains :: IsChain(v, chains[c]) && chains[c][0] == c
  }

  /** The invariant of one handle. */
  ghost predicate HandleOk(v: Volume, chains: Catalog, fd: FileData) {
    fd.isOpen ==> fd.firstCluster in chains && Coupled(v, fd, chains[fd.firstCluster])
  }

  /** What every operation keeps of the root directory's handle. Its buffer may hold
      anything once `read` has gone behind the first sector. */
  predicate RootSane(v: Volume, fd: FileData) {
    && fd.isOpen && fd.isDirectory && fd.firstCluster == v.rootLba
    && fd.position <= fd.size && 0 < fd.size <= 32 * v.rootEntries
    && (fd.position < fd.size ==> fd.currentCluster == v.rootLba || fd.currentCluster < 0xFF8)
  }

  ghost predicate HandlesOk(v: Volume, chains: Catalog, files: seq<FileData>) {
    && WellFormed(v) && |files| == 12 && Catalogued(v, chains) && RootSane(v, files[ROOT])
    && forall h: nat {:trigger files[h]} | h < HANDLES :: HandleOk(v, chains, files[h])
  }

  lemma HandlesStayOk(v: Volume, chains: Catalog, files: seq<FileData>, h: nat, fd: FileData)
    requires HandlesOk(v, chains, files) && h < HANDLES && HandleOk(v, chains, fd)
    ensures HandlesOk(v, chains, files[h := fd])
  {
  }

  /** An open handle: its chain and its cursor. */
  lemma OpenHandle(v: Volume, chains: Catalog, files: seq<FileData>, h: nat)
    requires HandlesOk(v, chains, files) && h < HANDLES && files[h].isOpen
    ensures files[h].firstCluster in chains && Coupled(v, files[h], chains[files[h].firstCluster])
  {
  }

  // ----- seek

  /** `seek` checks no bound for directories; inside the directory the handle stays
      sound. */
  ghost predicate SeekInside(v: Volume, chains: Catalog, fd: FileData, position: nat) {
    fd.isOpen && fd.isDirectory && fd.firstCluster in chains ==>
      var chain := chains[fd.firstCluster];
      position <= Limit(v, fd, chain) && (fd.size == 0 ==> position < ByteCount(v, chain))
  }

  /** Nothing is done on a closed handle or behind the size of a regular file. */
  predicate SeekRefused(fd: FileData, position: nat) { !fd.isOpen || (!fd.isDirectory && position > fd.size) }

  /** `seek`: it fails without effect where it is refused; it also fails at the end of
      the chain, but has moved the position then. */
  ghost predicate Sought(v: Volume, chains: Catalog, fd: FileData, fd': FileData, position: nat, ok: bool)
    requires fd.isOpen ==> fd.firstCluster in chains
  {
    if SeekRefused(fd, position) then !ok && fd' == fd
    else
      && SameFile(fd, fd') && fd'.size == fd.size && fd'.position == position
      && (ok <==> position < ByteCount(v, chains[fd.firstCluster]))
  }

  /** Counting off whole clusters leads to the sector of the position. */
  lemma SeekPlace(v: Volume, chain: Chain, position: nat, i: nat, offset: nat)
    requires IsChain(v, chain) && i < |chain|
    requires position == i * (v.spc * 512) + offset && offset < v.spc * 512
    ensures position < ByteCount(v, chain) && position / 512 < Sectors(v, chain)
    ensures (position / 512) / v.spc == i && (position / 512) % v.spc == offset / 512
  {
    var q, r := offset / 512, offset % 512;
    assert i * (v.spc * 512) == i * v.spc * 512 by {
      Associate(i, v.spc, 512);
    }
    assert position == (i * v.spc + q) * 512 + r;
    QuotientRemainder(position, i * v.spc + q, 512, r);
    QuotientRemainder(i * v.spc + q, i, v.spc, q);
    LargerProduct(i, |chain|, v.spc);
  }

  lemma SeekBehind(v: Volume, chain: Chain, position: nat, i: nat, offset: nat)
    requires IsChain(v, chain) && i + 1 == |chain|
    requires position == i * (v.spc * 512) + offset && offset >= v.spc * 512
    ensures position >= ByteCount(v, chain)
  {
  }

  // ----- lookups

  lemma SameSector(p: nat, left: nat)
    requires left < 512 - p % 512
    ensures (p + left) / 512 == p / 512
  {
    QuotientRemainder(p + left, p / 512, 512, p % 512 + left);
  }

  /** The clusters whose entries `read` looks up. */
  ghost function ReadLookups(v: Volume, chains: Catalog, files: seq<FileData>, h: nat, n: nat): seq<nat>
    requires HandlesOk(v, chains, files) && (h < HANDLES || h == ROOT)
  {
    if h == ROOT || !files[h].isOpen then []
    else
      OpenHandle(v, chains, files, h);
      var fd := files[h];
      Crossed(v, chains[fd.firstCluster], fd.position, Goal(v, fd, chains[fd.firstCluster], n))
  }

  /** The clusters whose entries `seek` looks up. */
  ghost function SeekLookups(v: Volume, chains: Catalog, files: seq<FileData>, h: nat, position: nat): seq<nat>
    requires HandlesOk(v, chains, files) && h < HANDLES
  {
    if SeekRefused(files[h], position) then []
    else
      OpenHandle(v, chains, files, h);
      Crossed(v, chains[files[h].firstCluster], 0, position)
  }

  /** `seek` after counting off `i` clusters. */
  ghost predicate SeekRuns(v: Volume, chain: Chain, i: nat, position: nat, cache: nat, final: nat)
    requires v.spc > 0
  {
    var last := position / 512 / v.spc;
    && i <= last <= |chain|
    && Untroubled(cache, chain[i..last]) && PositionAfter(cache, chain[i..last]) == final
  }

  lemma SeekStep(v: Volume, chain: Chain, position: nat, i: nat, offset: nat, cache: nat, final: nat)
    requires v.spc > 0 && i < |chain| && SeekRuns(v, chain, i, position, cache, final)
    requires position == i * (v.spc * 512) + offset && offset >= v.spc * 512
    ensures !StraddlingHit(cache, chain[i])
    ensures SeekRuns(v, chain, i + 1, position, NextPosition(cache, chain[i]), final)
  {
    var last := position / 512 / v.spc;
    ClustersBehind(v, position, i + 1);
    assert chain[i..last][0] == chain[i] && chain[i..last][1..] == chain[i + 1..last];
  }

  lemma ClustersBehind(v: Volume, position: nat, i: nat)
    requires v.spc > 0 && position >= i * (v.spc * 512)
    ensures i <= position / 512 / v.spc
  {
    Associate(i, v.spc, 512);
    LaterCluster(i * v.spc * 512, position, 512);
    QuotientRemainder(i * v.spc * 512, i * v.spc, 512, 0);
    LaterCluster(i * v.spc, position / 512, v.spc);
    QuotientRemainder(i * v.spc, i, v.spc, 0);
  }

  lemma SeekRunsStart(v: Volume, chain: Chain, position: nat, cache: nat)
    requires v.spc > 0 && position <= ByteCount(v, chain) && Untroubled(cache, Crossed(v, chain, 0, position))
    ensures SeekRuns(v, chain, 0, position, cache, PositionAfter(cache, Crossed(v, chain, 0, position)))
  {
    WholeClusters(v, chain, position / 512);
    QuotientRemainder(0, 0, v.spc, 0);
  }

  lemma SeekRunsHere(v: Volume, chain: Chain, i: nat, position: nat, cache: nat, final: nat)
    requires v.spc > 0 && SeekRuns(v, chain, i, position, cache, final) && position / 512 / v.spc == i
    ensures cache == final
  {
  }

  lemma CalmCrossed(v: Volume, chain: Chain, a: nat, b: nat, position: nat)
    requires v.spc > 0 && Calm(chain)
    ensures Untroubled(position, Crossed(v, chain, a, b))
  {
    var clusters := Crossed(v, chain, a, b);
    forall i: nat | i < |clusters|
      ensures clusters[i] < 0xFF8 && !Risky(clusters[i])
    {
      assert clusters[i] == chain[a / 512 / v.spc + i];
    }
    CalmIsUntroubled(position, clusters);
  }

  /** Reading a file whose clusters are calm is untroubled wherever the cache is. */
  lemma CalmReads(v: Volume, chains: Catalog, files: seq<FileData>, h: nat, n: nat, position: nat)
    requires HandlesOk(v, chains, files) && (h < HANDLES || h == ROOT)
    requires h < HANDLES && files[h].isOpen ==> files[h].firstCluster in chains && Calm(chains[files[h].firstCluster])
    ensures Untroubled(position, ReadLookups(v, chains, files, h, n))
  {
    if h < HANDLES && files[h].isOpen {
      var fd := files[h];
      CalmCrossed(v, chains[fd.firstCluster], fd.position, Goal(v, fd, chains[fd.firstCluster], n), position);
    }
  }

  lemma CalmSeeks(v: Volume, chains: Catalog, files: seq<FileData>, h: nat, to: nat, position: nat)
    requires HandlesOk(v, chains, files) && h < HANDLES
    requires files[h].isOpen ==> files[h].firstCluster in chains && Calm(chains[files[h].firstCluster])
    ensures Untroubled(position, SeekLookups(v, chains, files, h, to))
  {
    if files[h].isOpen {
      CalmCrossed(v, chains[files[h].firstCluster], 0, to, position);
    }
  }

  lemma SeekRunsOut(v: Volume, chain: Chain, position: nat, cache: nat, final: nat)
    requires v.spc > 0 && SeekRuns(v, chain, |chain|, position, cache, final)
    ensures cache == final
  {
  }
}
