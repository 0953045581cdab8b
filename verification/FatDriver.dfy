/** The FAT12 driver: a table of handles, each with a cursor and one buffered
    sector, and a cache of five FAT sectors shared by all of them. */
module FatDriver {
  import opened Bytes
  import opened Words
  import opened Memory
  import opened FatLayout
  import opened FatSpec
  import opened FatFiles
  import opened FatDirectory
  import opened FatCursors
  import opened FatRoot
  import opened FatPaths
  import opened FatNames
  import opened FatComponents
  import opened FatFormat

  class Driver {
    var vol: Volume
    var fatCache: seq<Byte>
    var fatCachePosition: nat
    /** Handles 0 to 9 are files, 10 is never used and 11 is the root directory. */
    var files: seq<FileData>

    ghost var chains: Catalog

    ghost predicate CacheValid()
      reads this
    {
      && |fatCache| == CACHE * 512
      && (fatCachePosition == NO_CACHE || CacheHolds(vol, fatCache, fatCachePosition))
    }

    /** `NextCluster` */
    method NextCluster(cluster: nat) returns (next: nat)
      requires WellFormed(vol) && Fetchable(vol, cluster) && CacheValid()
      modifies this`fatCache, this`fatCachePosition
      ensures CacheValid()
      ensures (fatCachePosition, next) == Lookup(vol, old(fatCachePosition), cluster)
      ensures forall entries: seq<nat> {:trigger FatHolds(vol, entries)} |
        FatHolds(vol, entries) && cluster < |entries| && !StraddlingHit(old(fatCachePosition), cluster) ::
        EntryIs(entries, cluster, next)
    {
      PackedLookup(vol, fatCachePosition, cluster);
      var fatIndex := cluster * 3 / 2;
      var sector := fatIndex / 512;
      if sector < fatCachePosition || sector >= fatCachePosition + CACHE {
        ReadFat(sector);
        fatCachePosition := sector;
      }
      var low, high := CachedWord(cluster);
      next := Unpack(cluster, low, high);
      if next >= 0xFF8 {
        next := next + 0xFFFF_F000;
      }
    }

    /** The two bytes read through a 16-bit pointer into `FatCache`; behind its end
        lies `FatCachePosition`. */
    method CachedWord(cluster: nat) returns (low: Byte, high: Byte)
      requires Fetchable(vol, cluster) && |fatCache| == CACHE * 512
      requires CacheHolds(vol, fatCache, fatCachePosition) && Hit(fatCachePosition, cluster)
      ensures low == FatByte(vol, FatIndex(cluster))
      ensures high == if Straddles(fatCachePosition, cluster) then fatCachePosition % 256
                      else FatByte(vol, FatIndex(cluster) + 1)
    {
      CachedEntry(vol, fatCache, fatCachePosition, cluster);
      var i := cluster * 3 / 2 - fatCachePosition * 512;
      low := fatCache[i];
      high := if i + 1 < |fatCache| then fatCache[i + 1] else fatCachePosition % 256;
    }

    /** `read` on an open file or subdirectory: exactly the bytes from the position
        up to the goal, and the cursor moves there. */
    method ReadChain(h: nat, n: nat, ghost chain: Chain) returns (data: seq<Byte>)
      requires |files| == 12 && h < HANDLES && CacheValid() && Coupled(vol, files[h], chain)
      requires Untroubled(fatCachePosition, Crossed(vol, chain, files[h].position, Goal(vol, files[h], chain, n)))
      modifies this`files, this`fatCache, this`fatCachePosition
      ensures CacheValid() && |files| == 12 && files == old(files)[h := files[h]]
      ensures ReadDone(vol, old(files)[h], files[h], chain, data, n)
      ensures var fd := old(files)[h];
        fatCachePosition
        == PositionAfter(old(fatCachePosition), Crossed(vol, chain, fd.position, Goal(vol, fd, chain, n)))
    {
      ghost var fd0, goal := files[h], Goal(vol, files[h], chain, n);
      ghost var final := PositionAfter(fatCachePosition, Crossed(vol, chain, fd0.position, goal));
      data := [];
      ReadStarts(vol, fd0, chain, n);
      var left: nat := if Clamped(files[h]) then Min(n, files[h].size - files[h].position) else n;
      while left > 0
        invariant CacheValid() && |files| == 12 && files == old(files)[h := files[h]]
        invariant InRound(vol, fd0, files[h], chain, data, left, n, fatCachePosition, final)
        decreases left
      {
        var ended;
        data, left, ended := ReadChunk(h, data, left, chain, fd0, n, final);
        if ended {
          return;
        }
      }
      NothingLeft(vol, fd0, files[h], chain, data, n, fatCachePosition, final);
    }

    /** One round of the loop of `read`: the new data, what is left, and whether the
        end of the chain stopped the loop. */
    method ReadChunk(h: nat, data: seq<Byte>, left: nat,
                     ghost chain: Chain, ghost fd0: FileData, ghost n: nat, ghost final: nat)
      returns (data': seq<Byte>, left': nat, ended: bool)
      requires |files| == 12 && h < HANDLES && CacheValid() && left > 0 && Coupled(vol, fd0, chain)
      requires InRound(vol, fd0, files[h], chain, data, left, n, fatCachePosition, final)
      modifies this`files, this`fatCache, this`fatCachePosition
      ensures CacheValid() && |files| == 12 && files == old(files)[h := files[h]]
      ensures left' < left
      ensures RoundDone(vol, fd0, files[h], chain, data', left', n, fatCachePosition, final, ended)
    {
      ghost var fd := files[h];
      var chunk, full := TakeBuffered(h, left);
      data', left' := data + chunk, left - |chunk|;
      if full {
        ghost var mid := files;
        ended := RefillBuffer(h, chain, fd0, fd, data, left, chunk, n, final);
        OneHandle(old(files), mid, files, h);
      } else {
        ChunkStays(vol, fd0, fd, files[h], chain, data, left, chunk, n, fatCachePosition, final);
        ended := false;
      }
    }

    /** Take up to `left` bytes from the buffer; `full` if that uses up the sector. */
    method TakeBuffered(h: nat, left: nat) returns (chunk: seq<Byte>, full: bool)
      requires |files| == 12 && h < 12 && left > 0
      modifies this`files
      ensures |files| == 12 && files == old(files)[h := files[h]]
      ensures Taken(old(files)[h], files[h], left, chunk, full)
    {
      var fd := files[h];
      var leftInBuffer := 512 - fd.position % 512;
      var take := Min(left, leftInBuffer);
      chunk := fd.buffer[fd.position % 512..fd.position % 512 + take];
      files := files[h := fd.(position := fd.position + take)];
      full := leftInBuffer == take;
    }

    /** The buffered sector is used up: `fd` is the cursor before its last bytes were taken. */
    method RefillBuffer(h: nat, ghost chain: Chain, ghost fd0: FileData, ghost fd: FileData,
                        ghost data: seq<Byte>, ghost left: nat, ghost chunk: seq<Byte>, ghost n: nat, ghost final: nat)
      returns (ended: bool)
      requires |files| == 12 && h < HANDLES && CacheValid()
      requires Coupled(vol, fd0, chain) && Taken(fd, files[h], left, chunk, true)
      requires InRound(vol, fd0, fd, chain, data, left, n, fatCachePosition, final)
      modifies this`files, this`fatCache, this`fatCachePosition
      ensures CacheValid() && |files| == 12 && files == old(files)[h := files[h]]
      ensures RoundDone(vol, fd0, files[h], chain, data + chunk, left - |chunk|, n, fatCachePosition, final, ended)
    {
      ChunkTaken(vol, fd0, fd, files[h], chain, data, left, chunk, n);
      ghost var s, goal := fd.position / 512, Goal(vol, fd0, chain, n);
      RunsStep(vol, chain, fd.position, s, goal, fatCachePosition, final);
      ended := Advance(h, chain, s);
      if ended {
        RunsDone(vol, chain, goal, fatCachePosition, final);
        ChunkEnds(vol, fd0, fd, files[h], chain, data, left, chunk, n);
      } else {
        ChunkCrosses(vol, fd0, fd, files[h], chain, data, left, chunk, n);
      }
    }

    /** The end of the loop body of `read`: sector `s` is used up, go to the next. */
    method Advance(h: nat, ghost chain: Chain, ghost s: nat) returns (ended: bool)
      requires |files| == 12 && h < HANDLES && CacheValid() && IsChain(vol, chain) && s < Sectors(vol, chain)
      requires files[h].position == (s + 1) * 512
      requires files[h].currentCluster == ClusterOf(vol, chain, s) && files[h].currentSector == s % vol.spc
      requires s % vol.spc + 1 >= vol.spc ==> !StraddlingHit(fatCachePosition, ClusterOf(vol, chain, s))
      modifies this`files, this`fatCache, this`fatCachePosition
      ensures CacheValid() && |files| == 12
      ensures fatCachePosition
              == if s % vol.spc + 1 >= vol.spc then NextPosition(old(fatCachePosition), ClusterOf(vol, chain, s))
                                  else old(fatCachePosition)
      ensures ended <==> s + 1 == Sectors(vol, chain)
      ensures var fd := old(files)[h];
        && files == old(files)[h := files[h]]
        && files[h].firstCluster == fd.firstCluster && files[h].isDirectory == fd.isDirectory
        && files[h].isOpen == fd.isOpen && files[h].position == fd.position
        && files[h].size == if ended then fd.position else fd.size
      ensures !ended ==> AtSector(vol, files[h], chain, s + 1)
    {
      var fd := files[h];
      var cluster, sector := NextPlace(fd.currentCluster, fd.currentSector, chain, s);
      fd := fd.(currentCluster := cluster, currentSector := sector);
      if fd.currentCluster >= 0xFFFF_FFF8 {
        files := files[h := fd.(size := fd.position)];
        return true;
      }
      ClusterReadable(vol, chain, s + 1);
      var data := ReadCluster(cluster, sector);
      files := files[h := fd.(buffer := data)];
      return false;
    }

    /** The cluster and the sector in it that follow sector `s` of a chain. */
    method NextPlace(current: nat, currentSector: nat, ghost chain: Chain, ghost s: nat)
      returns (cluster: nat, sector: nat)
      requires CacheValid() && IsChain(vol, chain) && s < Sectors(vol, chain)
      requires current == ClusterOf(vol, chain, s) && currentSector == s % vol.spc
      requires currentSector + 1 >= vol.spc ==> !StraddlingHit(fatCachePosition, current)
      modifies this`fatCache, this`fatCachePosition
      ensures CacheValid()
      ensures fatCachePosition == if currentSector + 1 >= vol.spc then NextPosition(old(fatCachePosition), current)
                                  else old(fatCachePosition)
      ensures if s + 1 < Sectors(vol, chain)
              then cluster == ClusterOf(vol, chain, s + 1) && sector == (s + 1) % vol.spc && cluster < 0xFF8
              else cluster >= 0xFFFF_FFF8
    {
      cluster, sector := current, currentSector + 1;
      ClusterReadable(vol, chain, s);
      NextLink(vol, chain, s / vol.spc, fatCachePosition);
      NextSector(vol, s);
      SectorsLeft(vol, chain, s);
      if sector >= vol.spc {
        sector := 0;
        cluster := NextCluster(cluster);
      }
      if s + 1 < Sectors(vol, chain) {
        ClusterReadable(vol, chain, s + 1);
      }
    }

    /** `read_sectors(clusterToLba(cluster) + sector, 1, buffer)` */
    method ReadCluster(cluster: nat, sector: nat) returns (data: Sector)
      requires WellFormed(vol) && Readable(vol, cluster) && sector < vol.spc
      ensures data == ClusterSector(vol, cluster, sector)
    {
      NoWrap(vol.dataLba, cluster, vol.spc);
      var lba := ClusterToLba(vol.dataLba, vol.spc, cluster) + sector;
      ReadOne(vol.disk, lba);
      data := ReadSectors(vol.disk, lba, 1).value;
    }

    /** `ReadFat` */
    method ReadFat(sector: nat)
      requires vol.reserved + sector + CACHE <= |vol.disk| && |fatCache| == CACHE * 512
      modifies this`fatCache
      ensures |fatCache| == CACHE * 512 && CacheHolds(vol, fatCache, sector)
    {
      var data := ReadSectors(vol.disk, vol.reserved + sector, CACHE);
      fatCache := data.value;
      forall k: nat | k < CACHE * 512
        ensures fatCache[k] == FatByte(vol, sector * 512 + k)
      {
        FlattenAt(vol.disk[vol.reserved + sector..vol.reserved + sector + CACHE], k);
        QuotientRemainder(sector * 512 + k, sector + k / 512, 512, k % 512);
      }
    }

    ghost predicate Valid()
      reads this
    {
      HandlesOk(vol, chains, files) && CacheValid()
    }

    /** `read` */
    method Read(h: nat, n: nat) returns (data: seq<Byte>)
      requires Valid() && (h < HANDLES || h == ROOT) && (h == ROOT ==> RefillsFit(vol))
      requires Untroubled(fatCachePosition, ReadLookups(vol, chains, files, h, n))
      modifies this`files, this`fatCache, this`fatCachePosition
      ensures Valid() && files == old(files)[h := files[h]]
      ensures var fd, fd' := old(files)[h], files[h];
        if h == ROOT then
          Readout(data, fatCachePosition, fd')
          == RootRead(vol, old(fatCachePosition), fd, Min(n, fd.size - fd.position))
        else
          && fatCachePosition == PositionAfter(old(fatCachePosition), ReadLookups(vol, chains, old(files), h, n))
          && if !fd.isOpen then data == [] && fd' == fd else ReadDone(vol, fd, fd', chains[fd.firstCluster], data, n)
    {
      if !files[h].isOpen {
        return [];
      }
      if h == ROOT {
        data := ReadRoot(n);
      } else {
        OpenHandle(vol, chains, files, h);
        data := ReadChain(h, n, chains[files[h].firstCluster]);
        HandlesStayOk(vol, chains, old(files), h, files[h]);
      }
    }

    /** `read` on the root directory, with its LBA taken for a cluster number. */
    method ReadRoot(n: nat) returns (data: seq<Byte>)
      requires Valid() && RefillsFit(vol)
      modifies this`files, this`fatCache, this`fatCachePosition
      ensures Valid() && files == old(files)[ROOT := files[ROOT]]
      ensures var fd := old(files)[ROOT];
        Readout(data, fatCachePosition, files[ROOT])
        == RootRead(vol, old(fatCachePosition), fd, Min(n, fd.size - fd.position))
    {
      var left := Min(n, files[ROOT].size - files[ROOT].position);
      ghost var whole := RootRead(vol, fatCachePosition, files[ROOT], left);
      data := [];
      while left > 0
        invariant CacheValid() && |files| == 12 && files == old(files)[ROOT := files[ROOT]]
        invariant RootReading(vol, fatCachePosition, files[ROOT], data, left, whole)
        decreases left
      {
        var stop;
        data, left, stop := RootChunk(data, left, whole);
        if stop {
          return;
        }
      }
    }

    /** One round of the loop of `read` on the root directory. */
    method RootChunk(data: seq<Byte>, left: nat, ghost whole: Readout)
      returns (data': seq<Byte>, left': nat, stop: bool)
      requires CacheValid() && WellFormed(vol) && |files| == 12 && left > 0
      requires RootReading(vol, fatCachePosition, files[ROOT], data, left, whole)
      modifies this`files, this`fatCache, this`fatCachePosition
      ensures CacheValid() && |files| == 12 && files == old(files)[ROOT := files[ROOT]] && left' < left
      ensures if stop then Readout(data', fatCachePosition, files[ROOT]) == whole
              else RootReading(vol, fatCachePosition, files[ROOT], data', left', whole)
    {
      ghost var fd, cache := files[ROOT], fatCachePosition;
      var chunk, full := TakeBuffered(ROOT, left);
      data', left' := data + chunk, left - |chunk|;
      stop := false;
      if full {
        ghost var mid := files;
        RootFull(vol, cache, fd, files[ROOT], data, left, chunk, whole);
        stop := Refill();
        OneHandle(old(files), mid, files, ROOT);
      } else {
        RootRest(vol, cache, fd, files[ROOT], data, left, chunk, whole);
      }
    }

    /** The end of the loop body of `read` on the root directory. */
    method Refill() returns (stop: bool)
      requires CacheValid() && WellFormed(vol) && |files| == 12 && Fetchable(vol, files[ROOT].currentCluster)
      modifies this`files, this`fatCache, this`fatCachePosition
      ensures CacheValid() && |files| == 12 && files == old(files)[ROOT := files[ROOT]]
      ensures FatRoot.Refill(fatCachePosition, files[ROOT], stop)
              == Refilled(vol, old(fatCachePosition), old(files)[ROOT])
    {
      var fd := files[ROOT];
      var cluster, sector := fd.currentCluster, fd.currentSector + 1;
      if sector >= vol.spc {
        sector := 0;
        cluster := NextCluster(cluster);
      }
      fd := fd.(currentCluster := cluster, currentSector := sector);
      if cluster >= 0xFFFF_FFF8 {
        files := files[ROOT := fd.(size := fd.position)];
        return true;
      }
      var lba := SectorLba(vol, cluster, sector);
      var data := ReadSectors(vol.disk, lba, 1);
      if data == None {
        files := files[ROOT := fd];
        return true;
      }
      ReadOne(vol.disk, lba);
      files := files[ROOT := fd.(buffer := data.value)];
      return false;
    }

    /** `seek` on a file, or inside a directory. */
    method Seek(h: nat, position: nat) returns (ok: bool)
      requires Valid() && h < HANDLES && SeekInside(vol, chains, files[h], position)
      requires Untroubled(fatCachePosition, SeekLookups(vol, chains, files, h, position))
      modifies this`files, this`fatCache, this`fatCachePosition
      ensures Valid() && files == old(files)[h := files[h]]
      ensures fatCachePosition
              == PositionAfter(old(fatCachePosition), SeekLookups(vol, chains, old(files), h, position))
      ensures Sought(vol, chains, old(files)[h], files[h], position, ok)
    {
      var fd := files[h];
      if (!fd.isDirectory && position > fd.size) || !fd.isOpen {
        return false;
      }
      OpenHandle(vol, chains, files, h);
      ghost var chain := chains[fd.firstCluster];
      fd := fd.(position := position);
      files := files[h := fd];
      var cluster, offset;
      ok, cluster, offset := FindCluster(fd.firstCluster, position, chain);
      if ok {
        ClusterReadable(vol, chain, position / 512);
        var buffer := ReadCluster(cluster, offset / 512);
        fd := fd.(currentCluster := cluster, currentSector := offset / 512, buffer := buffer);
        files := files[h := fd];
      }
      HandlesStayOk(vol, chains, old(files), h, fd);
    }

    /** The loop of `seek`: count off whole clusters along the chain. */
    method FindCluster(first: nat, position: nat, ghost chain: Chain)
      returns (found: bool, cluster: nat, offset: nat)
      requires CacheValid() && IsChain(vol, chain) && first == chain[0] && position <= ByteCount(vol, chain)
      requires Untroubled(fatCachePosition, Crossed(vol, chain, 0, position))
      modifies this`fatCache, this`fatCachePosition
      ensures CacheValid()
      ensures fatCachePosition == PositionAfter(old(fatCachePosition), Crossed(vol, chain, 0, position))
      ensures found <==> position < ByteCount(vol, chain)
      ensures found ==>
        && position / 512 < Sectors(vol, chain)
        && cluster == ClusterOf(vol, chain, position / 512) && offset / 512 == position / 512 % vol.spc
    {
      found, cluster, offset := true, first, position;
      var clusterSize := vol.spc * 512;
      ghost var final := PositionAfter(fatCachePosition, Crossed(vol, chain, 0, position));
      ghost var i: nat := 0;
      SeekRunsStart(vol, chain, position, fatCachePosition);
      while offset >= clusterSize
        invariant CacheValid() && i < |chain| && cluster == chain[i]
        invariant position == i * clusterSize + offset
        invariant SeekRuns(vol, chain, i, position, fatCachePosition, final)
      {
        SeekStep(vol, chain, position, i, offset, fatCachePosition, final);
        NextLink(vol, chain, i, fatCachePosition);
        cluster := NextCluster(cluster);
        if cluster >= 0xFFFF_FFF8 {
          SeekBehind(vol, chain, position, i, offset);
          SeekRunsOut(vol, chain, position, fatCachePosition, final);
          return false, cluster, offset;
        }
        Distribute(i, 1, clusterSize);
        offset := offset - clusterSize;
        i := i + 1;
      }
      SeekPlace(vol, chain, position, i, offset);
      SeekRunsHere(vol, chain, i, position, fatCachePosition, final);
    }

    /** `close` */
    method Close(h: nat)
      requires Valid() && (h < HANDLES || h == ROOT)
      modifies this`files
      ensures Valid() && files == old(files)[h := files[h]]
      ensures var fd := old(files)[h];
        files[h] == if h == ROOT then fd.(position := 0, currentCluster := fd.firstCluster) else fd.(isOpen := false)
    {
      var fd := files[h];
      if h == ROOT {
        files := files[h := fd.(position := 0, currentCluster := fd.firstCluster)];
      } else {
        files := files[h := fd.(isOpen := false)];
      }
    }

    // ----- directories

    /** `OpenEntry`: the first free handle gets a cursor at the start of the file. With
        an unusable first cluster the handle is written, too, but stays closed. */
    method OpenEntry(entry: DirEntry, ghost dirs: set<nat>) returns (r: Option<nat>)
      requires Valid() && GoodEntry(vol, chains, dirs, entry)
      modifies this`files
      ensures Valid()
      ensures var h := FirstClosed(old(files), 0);
        if h == HANDLES then r == None && files == old(files)
        else
          && files == old(files)[h := files[h]]
          && if Openable(entry) then r == Some(h) && OpensAs(vol, entry, files[h])
             else r == None && !files[h].isOpen
      ensures r.Some? ==>
        forall e: EntryRecord {:trigger IsEntry(entry, e)} | IsEntry(entry, e) :: StartsAt(files[r.value], e)
    {
      var i, handle := 0, -1;
      while i < HANDLES && handle < 0
        invariant i <= HANDLES
        invariant if handle < 0 then FirstClosed(files, 0) == FirstClosed(files, i)
                  else handle < HANDLES && FirstClosed(files, 0) == handle
      {
        if !files[i].isOpen {
          handle := i;
        }
        i := i + 1;
      }
      if handle < 0 {
        return None;
      }
      var cluster := FirstCluster(entry);
      var fd := FileData(files[handle].buffer, IsDirectory(entry), EntrySize(entry), 0, files[handle].isOpen,
                         cluster, cluster, 0);
      if cluster < 2 || cluster >= 0xFF8 {
        files := files[handle := fd];
        return None;
      }
      StartsCoupled(vol, chains, dirs, entry);
      var buffer := ReadCluster(cluster, 0);
      files := files[handle := fd.(buffer := buffer, isOpen := true)];
      OpensRecord(vol, entry, files[handle]);
      return Some(handle);
    }

    /** `ReadEntry` */
    method ReadEntry(h: nat, ghost key: Name, ghost i: nat, ghost final: nat) returns (entry: Option<DirEntry>)
      requires Valid() && (h < HANDLES || h == ROOT)
      requires EntryReady(vol, chains, h, files[h], fatCachePosition, final, key, i)
      modifies this`files, this`fatCache, this`fatCachePosition
      ensures Valid() && files == old(files)[h := files[h]]
      ensures var fd, fd' := old(files)[h], files[h];
        if h == ROOT then
          var r := RootRead(vol, old(fatCachePosition), fd, Min(32, fd.size - fd.position));
          entry == EntryOf(r.data) && fatCachePosition == r.cache && fd' == r.fd
        else
          && fd'.firstCluster == fd.firstCluster
          && Searching(vol, chains, fd.firstCluster, fd', fatCachePosition, final, key, i, entry)
    {
      ghost var fd, cache := files[h], fatCachePosition;
      if h < HANDLES {
        SearchReads(vol, chains, fd.firstCluster, fd, key, i, cache, final);
      }
      var data := Read(h, 32);
      if h < HANDLES {
        EntryRead(vol, chains, fd.firstCluster, fd, files[h], i, data);
      }
      entry := if |data| == 32 && data[0] != 0 then Some(data) else None;
    }

    /** `FindFile`: in a subdirectory at its start the first entry of that name before the
        terminator or the end; in the root directory what its handle makes of it. */
    method FindFile(h: nat, name: seq<Byte>) returns (found: Option<DirEntry>)
      requires Valid() && (h < HANDLES || h == ROOT) && (h == ROOT ==> RefillsFit(vol))
      requires h != ROOT ==> Scanning(vol, chains, files[h].firstCluster, files[h], 0)
      requires h != ROOT ==>
        Untroubled(fatCachePosition, SearchLookups(vol, chains, files[h].firstCluster, FatName(name)))
      modifies this`files, this`fatCache, this`fatCachePosition
      ensures Valid() && files == old(files)[h := files[h]]
      ensures FoundIn(vol, chains, h, old(files)[h], FatName(name), old(fatCachePosition), found, fatCachePosition)
      ensures h == ROOT ==> files[h] == RootFind(vol, old(fatCachePosition), old(files)[h], FatName(name)).fd
      ensures forall key: Name {:trigger ShortName(name, key)} | ShortName(name, key) ::
        && FoundIn(vol, chains, h, old(files)[h], key, old(fatCachePosition), found, fatCachePosition)
        && (h != ROOT ==> FirstFound(DirBytes(vol, chains, old(files)[h].firstCluster), key, found))
    {
      ghost var fd, cache := files[h], fatCachePosition;
      var fatName := FatName(name);
      ghost var final := PositionAfter(cache, SearchLookups(vol, chains, fd.firstCluster, fatName));
      if h != ROOT {
        SearchStarts(vol, chains, fd.firstCluster, fatName, cache);
      }
      var first := ReadEntry(h, fatName, 0, final);
      ghost var mid, i := files, 0;
      found, i := SearchAll(h, fatName, first, fd, cache, final);
      OneHandle(old(files), mid, files, h);
      PursuitEnds(vol, chains, h, fd, cache, files[h], fatCachePosition, final, fatName, i, found);
      FoundByName(vol, chains, h, fd, name, cache, found, fatCachePosition);
    }

    /** The loop of `FindFile`, after the first entry has been read. */
    method SearchAll(h: nat, fatName: Name, first: Option<DirEntry>,
                     ghost start: FileData, ghost cache: nat, ghost final: nat)
      returns (found: Option<DirEntry>, ghost i: nat)
      requires Valid() && (h < HANDLES || h == ROOT) && (h == ROOT ==> RefillsFit(vol) && RootSane(vol, start))
      requires Pursued(vol, chains, h, start, cache, files[h], fatCachePosition, final, fatName, 0, first)
      requires files[h].position <= Bound(vol, chains, h, start.firstCluster)
      modifies this`files, this`fatCache, this`fatCachePosition
      ensures Valid() && files == old(files)[h := files[h]]
      ensures Pursued(vol, chains, h, start, cache, files[h], fatCachePosition, final, fatName, i, found)
      ensures !Mismatch(found, fatName)
    {
      found, i := first, 0;
      ghost var bound := Bound(vol, chains, h, start.firstCluster);
      while Mismatch(found, fatName)
        invariant Valid() && files == old(files)[h := files[h]] && files[h].position <= bound
        invariant Pursued(vol, chains, h, start, cache, files[h], fatCachePosition, final, fatName, i, found)
        decreases if Mismatch(found, fatName) then 1 + bound - files[h].position else 0
      {
        found := SearchOn(h, fatName, found, old(files), start, cache, final, i, bound);
        i := i + 1;
      }
    }

    /** An entry of another name: read the next one. */
    method SearchOn(h: nat, fatName: Name, found: Option<DirEntry>, ghost was: seq<FileData>,
                    ghost start: FileData, ghost cache: nat, ghost final: nat, ghost i: nat, ghost bound: nat)
      returns (next: Option<DirEntry>)
      requires Valid() && (h < HANDLES || h == ROOT) && (h == ROOT ==> RefillsFit(vol) && RootSane(vol, start))
      requires |was| == 12 && files == was[h := files[h]] && bound == Bound(vol, chains, h, start.firstCluster)
      requires Pursued(vol, chains, h, start, cache, files[h], fatCachePosition, final, fatName, i, found)
      requires Mismatch(found, fatName) && files[h].position <= bound
      modifies this`files, this`fatCache, this`fatCachePosition
      ensures Valid() && files == was[h := files[h]] && files[h].position <= bound
      ensures Pursued(vol, chains, h, start, cache, files[h], fatCachePosition, final, fatName, i + 1, next)
      ensures Mismatch(next, fatName) ==> files[h].position > old(files)[h].position
    {
      ghost var mid, position := files, fatCachePosition;
      if h != ROOT {
        SearchMisses(vol, chains, start.firstCluster, files[h], position, final, fatName, i, found);
      }
      next := ReadEntry(h, fatName, i + 1, final);
      OneHandle(was, mid, files, h);
    }

    /** One round of the loop of `open`: look the component up in directory `h`, close
        that directory and open the entry found. */
    method OpenComponent(h: nat, name: seq<Byte>, isLast: bool, ghost was: seq<FileData>, ghost dirs: set<nat>)
      returns (found: bool, next: Option<nat>)
      requires Valid() && GoodTree(vol, chains, dirs) && RefillsFit(vol) && Holding(was, files, Some(h))
      requires FitsBuffer(name) && InDirectory(vol, chains, dirs, files, h)
      requires h == ROOT ==> FreshRoot(vol, files[ROOT]) && RootDecides(vol, FatName(name))
      requires h != ROOT ==>
        Untroubled(fatCachePosition, SearchLookups(vol, chains, files[h].firstCluster, FatName(name)))
      modifies this`files, this`fatCache, this`fatCachePosition
      ensures Valid()
      ensures files[ROOT] == if h == ROOT
                             then Rewound(RootFind(vol, old(fatCachePosition), old(files)[h], FatName(name)).fd)
                             else old(files)[ROOT]
      ensures var entry := Find(Listing(vol, chains, h, old(files)[h]), FatName(name), 0);
        && FoundIn(vol, chains, h, old(files)[h], FatName(name), old(fatCachePosition), entry, fatCachePosition)
        && (found <==> entry.Some? && (isLast || IsDirectory(entry.value)))
        && (found ==> Entered(vol, files, HasFree(was), entry.value, next))
      ensures Holding(was, files, if found then next else None)
    {
      ghost var fd, cache := files[h], fatCachePosition;
      if h == ROOT {
        RootSearch(vol, cache, fd, FatName(name));
      }
      var entry := FindFile(h, name);
      ghost var mid := files;
      Close(h);
      OneHandle(old(files), mid, files, h);
      HoldingCloses(was, old(files), h, files[h]);
      if entry == None || (!isLast && !IsDirectory(entry.value)) {
        return false, None;
      }
      if h < HANDLES {
        HeldIsFree(was, old(files), h);
      }
      FoundGood(vol, chains, dirs, old(files), h, name);
      found := true;
      next := EnterEntry(entry.value, was, dirs);
    }

    /** `OpenEntry` after the directory has been closed. */
    method EnterEntry(entry: DirEntry, ghost was: seq<FileData>, ghost dirs: set<nat>) returns (next: Option<nat>)
      requires Valid() && GoodEntry(vol, chains, dirs, entry) && Holding(was, files, None)
      modifies this`files
      ensures Valid() && files[ROOT] == old(files)[ROOT]
      ensures Holding(was, files, next) && Entered(vol, files, HasFree(was), entry, next)
    {
      SameFirstClosed(was, files, 0);
      next := OpenEntry(entry, dirs);
      ghost var h := FirstClosed(was, 0);
      if h < HANDLES {
        HoldingOpens(was, old(files), h, files[h]);
      }
    }

    /** `open` */
    method Open(path: seq<Byte>, ghost dirs: set<nat>) returns (r: Opening)
      requires Valid() && GoodTree(vol, chains, dirs) && RefillsFit(vol) && FreshRoot(vol, files[ROOT])
      requires RootDecidesPath(vol, Relative(path)) && PathFits(Relative(path))
      requires Relative(path) != [] ==>
        OpenUntroubled(vol, chains, files[ROOT], Relative(path), fatCachePosition, HasFree(files))
      modifies this`files, this`fatCache, this`fatCachePosition
      ensures Valid()
      ensures var rest, root, cache := Relative(path), old(files)[ROOT], old(fatCachePosition);
        if rest == [] then r == Opened(ROOT) && files == old(files) && fatCachePosition == cache
        else
          && OpenedAs(vol, chains, old(files), files, rest, r)
          && files[ROOT] == Rewound(RootFind(vol, cache, root, FatName(First(rest))).fd)
          && fatCachePosition == OpenPosition(vol, chains, root, rest, cache, HasFree(old(files)))
      ensures forall parts: seq<seq<Byte>>, keys: seq<Name> {:trigger Names(path, parts, keys)} |
        Names(path, parts, keys) ::
        OpenedTo(vol, old(files), files, Along(vol, chains, RootListing(vol), keys, HasFree(old(files))), r)
    {
      var rest := Relative(path);
      if rest != [] {
        r := OpenPath(rest, dirs);
      } else {
        r := Opened(ROOT);
      }
      OpenedByName(vol, chains, old(files), files, path, r);
    }

    /** The loop of `open`, for a path that names at least one component. */
    method OpenPath(path: seq<Byte>, ghost dirs: set<nat>) returns (r: Opening)
      requires Valid() && GoodTree(vol, chains, dirs) && RefillsFit(vol) && FreshRoot(vol, files[ROOT])
      requires path != [] && RootDecidesPath(vol, path) && PathFits(path)
      requires OpenUntroubled(vol, chains, files[ROOT], path, fatCachePosition, HasFree(files))
      modifies this`files, this`fatCache, this`fatCachePosition
      ensures Valid() && OpenedAs(vol, chains, old(files), files, path, r)
      ensures files[ROOT] == Rewound(RootFind(vol, old(fatCachePosition), old(files)[ROOT], FatName(First(path))).fd)
      ensures fatCachePosition
              == OpenPosition(vol, chains, old(files)[ROOT], path, old(fatCachePosition), HasFree(old(files)))
    {
      var rest := path;
      var current: Option<nat> := Some(ROOT);
      ghost var t := Trip(path, old(files), fatCachePosition,
                          OpenPosition(vol, chains, files[ROOT], path, fatCachePosition, HasFree(files)));
      while rest != []
        invariant Valid() && PathFits(rest) && RootSane(vol, t.was[ROOT])
        invariant OnTheWay(vol, chains, dirs, t, files, fatCachePosition, current, rest)
        decreases |rest|
      {
        if current == None {
          return NullUsed;
        }
        var found;
        found, current, rest := OpenNext(current.value, rest, t, dirs);
        if !found {
          return NotFound;
        }
      }
      return if current == None then NotFound else Opened(current.value);
    }

    /** One round of the loop of `open` on the trip `t` along a path. */
    method OpenNext(h: nat, rest: seq<Byte>, ghost t: Trip, ghost dirs: set<nat>)
      returns (found: bool, next: Option<nat>, rest': seq<Byte>)
      requires Valid() && GoodTree(vol, chains, dirs) && RefillsFit(vol) && PathFits(rest) && rest != []
      requires OnTheWay(vol, chains, dirs, t, files, fatCachePosition, Some(h), rest)
      requires FreshRoot(vol, t.was[ROOT]) && RootDecidesPath(vol, t.path)
      modifies this`files, this`fatCache, this`fatCachePosition
      ensures Valid() && PathFits(rest') && |rest'| < |rest|
      ensures if found then OnTheWay(vol, chains, dirs, t, files, fatCachePosition, next, rest')
              else OpenedAs(vol, chains, t.was, files, t.path, NotFound) && fatCachePosition == t.final
                   && files[ROOT] == Rewound(RootFind(vol, t.cache, t.was[ROOT], FatName(First(t.path))).fd)
    {
      ghost var mid, cache, free := files, fatCachePosition, HasFree(t.was);
      FollowingIn(vol, chains, dirs, t.was, mid, t.path, h, rest);
      found, next := OpenComponent(h, First(rest), Last(rest), t.was, dirs);
      rest' := Rest(rest);
      ghost var entry := Find(Listing(vol, chains, h, mid[h]), FatName(First(rest)), 0);
      LookedUp(vol, chains, mid, files, h, rest, cache, fatCachePosition, free, t.final, entry, next);
      if found {
        FollowingEnters(vol, chains, dirs, t.was, mid, files, t.path, h, rest, next);
      }
    }

    // ----- mounting

    /** `initialize`. The cluster chains of the volume are a ghost argument. */
    method Initialize(disk: seq<Sector>, ghost catalog: Catalog) returns (ok: bool)
      requires |files| == 12 && |fatCache| == CACHE * 512
      requires |disk| > 0 && ParseBpb(disk[0]).bytesPerSector > 0
      modifies this
      ensures |files| == 12 && |fatCache| == CACHE * 512
      ensures var b := ParseBpb(disk[0]);
        && (ok <==> b.sectors16 != 0 && b.fatSize != 0 && RootLba(b) < |disk|)
        && (ok ==> vol == Mounted(disk, b) && CacheValid() && OpenSet(files) == {} && files[ROOT].position == 0)
        && (ok && WellFormed(vol) && Catalogued(vol, catalog) ==>
              Valid() && FreshRoot(vol, files[ROOT]) && chains == catalog)
      ensures forall r: BootRecord {:trigger IsBoot(disk[0], r)} | IsBoot(disk[0], r) ::
        && (ok <==> r.bpb.sectors16 != 0 && r.bpb.fatSize != 0 && r.bpb.reserved + r.bpb.fats * r.bpb.fatSize < |disk|)
        && (ok ==> LaidOutAs(vol, disk, r.bpb))
    {
      FieldsMounted(disk);
      var b := ParseBpb(disk[0]);
      fatCachePosition := NO_CACHE;
      if b.sectors16 == 0 || b.fatSize == 0 {
        return false;
      }
      vol, chains := Mounted(disk, b), catalog;
      var data := ReadSectors(disk, vol.rootLba, 1);
      files := files[ROOT := FileData(files[ROOT].buffer, true, 32 * b.rootEntries, 0, true, vol.rootLba,
                                      vol.rootLba, 0)];
      if data == None {
        return false;
      }
      ReadOne(disk, vol.rootLba);
      files := files[ROOT := files[ROOT].(buffer := data.value)];
      CloseAll();
      MountedHandles(vol, catalog, files, b, disk);
      return true;
    }

    method CloseAll()
      requires |files| == 12
      modifies this`files
      ensures |files| == 12 && files[ROOT] == old(files)[ROOT] && AllClosed(files)
    {
      for i := 0 to HANDLES
        invariant |files| == 12 && files[ROOT] == old(files)[ROOT]
        invariant forall h: nat {:trigger files[h]} | h < i :: !files[h].isOpen
      {
        files := files[i := files[i].(isOpen := false)];
      }
    }
  }
}
