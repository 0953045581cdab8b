/** `stage2_main`: open the kernel's file and load it. */
module Stage2 {
  import opened Bytes
  import opened Words
  import opened Memory
  import opened Spaces
  import opened Machines
  import opened FatSpec
  import opened FatFiles
  import opened FatDirectory
  import opened FatCursors
  import opened FatRoot
  import opened FatPaths
  import opened FatDriver
  import opened FatRuns
  import opened ElfImages
  import opened LoadPlans
  import opened ElfFormat
  import opened ElfLoader

  /** The content of a file that a well-formed directory lists. */
  ghost function FileContent(v: Volume, chains: Catalog, e: DirEntry): seq<Byte> {
    if FirstCluster(e) in chains && IsChain(v, chains[FirstCluster(e)])
       && EntrySize(e) <= ByteCount(v, chains[FirstCluster(e)])
    then Slice(v, chains[FirstCluster(e)], 0, EntrySize(e))
    else []
  }

  /** The file as a cursor at its start. */
  ghost function FileCursor(v: Volume, chains: Catalog, e: DirEntry): Cursor {
    Cursor(FileContent(v, chains, e), if FirstCluster(e) in chains then chains[FirstCluster(e)] else [], v.spc, 0)
  }

  /** A regular file that the loader accepts and reads, with the cache at `cache`, without a straddling hit. */
  ghost predicate KernelFile(s: Space, v: Volume, chains: Catalog, e: DirEntry, cache: nat, data: Word,
                             stale: seq<Byte>)
    requires |stale| == EHDR_SIZE
  {
    && Openable(e) && !IsDirectory(e) && FirstCluster(e) in chains
    && EntrySize(e) <= ByteCount(v, chains[FirstCluster(e)])
    && (Magic(HeaderRead(FileContent(v, chains, e), stale)) ==> Acceptable(s, FileContent(v, chains, e), data))
    && Untroubled(cache, ElfLookups(FileCursor(v, chains, e), stale))
  }

  /** A handle that `open` returned for such a file stands for its content. */
  lemma OpenedFileIs(driver: Driver, s: Space, e: DirEntry, cache: nat, data: Word, stale: seq<Byte>, h: nat)
    requires |stale| == EHDR_SIZE && driver.Valid() && h < HANDLES && OpensAs(driver.vol, e, driver.files[h])
    requires KernelFile(s, driver.vol, driver.chains, e, cache, data, stale)
    ensures FileIs(driver, h, FileCursor(driver.vol, driver.chains, e))
  {
    assert HandleOk(driver.vol, driver.chains, driver.files[h]);
  }

  /** Where the path of the kernel leads. */
  ghost function TargetOf(v: Volume, chains: Catalog, files: seq<FileData>, path: seq<Byte>): FatPaths.Target
    requires |files| == 12 && Relative(path) != []
  {
    Resolve(v, chains, RootListing(v), Relative(path), HasFree(files))
  }

  /** The content of the file that the path leads to. */
  ghost function KernelBytes(driver: Driver, path: seq<Byte>): seq<Byte>
    requires |driver.files| == 12 && Relative(path) != []
    reads driver
  {
    match TargetOf(driver.vol, driver.chains, driver.files, path)
    case Leads(e) => FileContent(driver.vol, driver.chains, e)
    case _ => []
  }

  /** The driver is ready to open the path, as `initialize` leaves it on a sound volume. */
  ghost predicate ReadyToOpen(driver: Driver, path: seq<Byte>, dirs: set<nat>)
    reads driver
  {
    && driver.Valid() && GoodTree(driver.vol, driver.chains, dirs) && RefillsFit(driver.vol)
    && FreshRoot(driver.vol, driver.files[ROOT])
    && Relative(path) != [] && RootDecidesPath(driver.vol, Relative(path)) && PathFits(Relative(path))
    && OpenUntroubled(driver.vol, driver.chains, driver.files[ROOT], Relative(path), driver.fatCachePosition,
                      HasFree(driver.files))
  }

  /** The path leads to a kernel file, or nowhere. */
  ghost predicate ReadyToLoad(s: Space, driver: Driver, path: seq<Byte>, dirs: set<nat>, data: Word, stale: seq<Byte>)
    requires |stale| == EHDR_SIZE
    reads driver
  {
    && ReadyToOpen(driver, path, dirs)
    && var target := TargetOf(driver.vol, driver.chains, driver.files, path);
    && target != ThroughNull
    && (target.Leads? ==>
          KernelFile(s, driver.vol, driver.chains, target.entry, CacheOnceOpen(driver, path), data, stale))
  }

  /** Where the lookups of `open` leave the cache. */
  ghost function CacheOnceOpen(driver: Driver, path: seq<Byte>): nat
    requires driver.Valid() && Relative(path) != [] && RefillsFit(driver.vol)
    reads driver
  {
    OpenPosition(driver.vol, driver.chains, driver.files[ROOT], Relative(path), driver.fatCachePosition,
                 HasFree(driver.files))
  }

  /** Opens a path and loads the file as an ELF image at `data`; without such a file the
      bootloader stops. `stale` is the uninitialised header of `readElf`. */
  method LoadKernel(b: Machine, driver: Driver, path: seq<Byte>, data: Word, stale: seq<Byte>,
                    ghost dirs: set<nat>)
    returns (loaded: Option<(Word, Word)>)
    requires |stale| == EHDR_SIZE && b.Valid() && ReadyToLoad(b.View(), driver, path, dirs, data, stale)
    modifies b`ram, b`heap, b`shape, driver`files, driver`fatCache, driver`fatCachePosition
    ensures b.Valid() && driver.Valid()
    ensures var target := old(TargetOf(driver.vol, driver.chains, driver.files, path));
      if !target.Leads? then
        loaded == None && b.View() == old(b.View()) && driver.fatCachePosition == old(CacheOnceOpen(driver, path))
      else
        var f := FileCursor(driver.vol, driver.chains, target.entry);
        && loaded.Some? && LoadedFrom(old(b.View()), b.View(), f.content, data, stale, loaded.value)
        && driver.fatCachePosition == PositionAfter(old(CacheOnceOpen(driver, path)), ElfLookups(f, stale))
  {
    ghost var target, cache := TargetOf(driver.vol, driver.chains, driver.files, path), CacheOnceOpen(driver, path);
    var r := driver.Open(path, dirs);
    if !r.Opened? {
      return None;
    }
    ghost var f := FileCursor(driver.vol, driver.chains, target.entry);
    OpenedFileIs(driver, b.View(), target.entry, cache, data, stale, r.handle);
    var entry, physBase := ReadElf(b, driver, r.handle, data, stale, f);
    return Some((entry, physBase));
  }

  /** What `readElf` returns and leaves in memory for a file. */
  ghost predicate LoadedFrom(s: Space, s': Space, file: seq<Byte>, data: Word, stale: seq<Byte>, info: (Word, Word))
    requires |stale| == EHDR_SIZE
  {
    if !Magic(HeaderRead(file, stale)) then info == (0, 0) && s' == s
    else
      && Complete(file) && Loaded(s, s', Segments(file), data, file, |Segments(file)|)
      && info == (ParseHeader(file[..EHDR_SIZE]).entry, PhysBase(Segments(file), data))
      && LoadedByFields(s, s', file, data, info.0, info.1)
  }
}
