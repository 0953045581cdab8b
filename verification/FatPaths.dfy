/** Path lookup as a function of the volume. */
module FatPaths {
  import opened Bytes
  import opened Words
  import opened Memory
  import opened FatLayout
  import opened FatSpec
  import opened FatFiles
  import opened FatDirectory
  import opened FatCursors
  import opened FatRoot

  /** The root directory, if all of it is on the disk. */
  function RootListing(v: Volume): seq<Byte> { if RootOnDisk(v) then RootDirectory(v) else [] }

  /** A subdirectory is its whole chain. */
  ghost function DirBytes(v: Volume, chains: Catalog, c: nat): seq<Byte> {
    if c in chains && IsChain(v, chains[c]) then Slice(v, chains[c], 0, ByteCount(v, chains[c])) else []
  }

  /** The directory a handle stands for. */
  ghost function Listing(v: Volume, chains: Catalog, h: nat, fd: FileData): seq<Byte> {
    if h == ROOT then RootListing(v) else DirBytes(v, chains, fd.firstCluster)
  }

  // ----- well-formed directories

  /** What a well-formed volume promises of an entry that can be opened. A directory
      has size 0 on disk. */
  ghost predicate GoodEntry(v: Volume, chains: Catalog, dirs: set<nat>, e: DirEntry) {
    Openable(e) ==>
      && FirstCluster(e) in chains
      && if IsDirectory(e) then FirstCluster(e) in dirs && EntrySize(e) == 0
         else EntrySize(e) <= ByteCount(v, chains[FirstCluster(e)])
  }

  /** Deleted entries may hold anything. */
  ghost predicate GoodDirectory(v: Volume, chains: Catalog, dirs: set<nat>, dir: seq<Byte>) {
    forall key: Name {:trigger Find(dir, key, 0)} ::
      key[0] != DELETED && Find(dir, key, 0).Some? ==> GoodEntry(v, chains, dirs, Find(dir, key, 0).value)
  }

  /** `chains` and `dirs` are closed under following directory entries. */
  ghost predicate GoodTree(v: Volume, chains: Catalog, dirs: set<nat>) {
    && WellFormed(v) && RootOnDisk(v)
    && GoodDirectory(v, chains, dirs, RootListing(v))
    && forall c: nat {:trigger DirBytes(v, chains, c)} | c in dirs ::
         GoodDirectory(v, chains, dirs, DirBytes(v, chains, c))
  }

  // ----- opening

  /** The cursor that `OpenEntry` sets up. */
  ghost function AtStart(v: Volume, e: DirEntry): FileData
    requires WellFormed(v) && Openable(e) && Readable(v, FirstCluster(e))
  {
    FileData(ClusterSector(v, FirstCluster(e), 0), IsDirectory(e), EntrySize(e), 0, true,
             FirstCluster(e), FirstCluster(e), 0)
  }

  ghost predicate OpensAs(v: Volume, e: DirEntry, fd: FileData) {
    WellFormed(v) && Openable(e) && Readable(v, FirstCluster(e)) && fd == AtStart(v, e)
  }

  lemma StartsCoupled(v: Volume, chains: Catalog, dirs: set<nat>, e: DirEntry)
    requires WellFormed(v) && Catalogued(v, chains) && GoodEntry(v, chains, dirs, e) && Openable(e)
    ensures Readable(v, FirstCluster(e)) && HandleOk(v, chains, AtStart(v, e))
  {
    FirstSector(v, chains[FirstCluster(e)]);
  }

  lemma FirstSector(v: Volume, chain: Chain)
    requires IsChain(v, chain)
    ensures Sectors(v, chain) > 0 && Readable(v, chain[0])
    ensures ClusterOf(v, chain, 0) == chain[0] && SectorAt(v, chain, 0) == ClusterSector(v, chain[0], 0)
  {
    assert Follows(v, chain, 0);
    assert Sectors(v, chain) >= v.spc by {
      LargerProduct(0, |chain|, v.spc);
    }
    QuotientRemainder(0, 0, v.spc, 0);
  }

  /** The first free handle, or 10. */
  function FirstClosed(files: seq<FileData>, i: nat): (h: nat)
    requires i <= HANDLES <= |files|
    ensures i <= h <= HANDLES && (h < HANDLES ==> !files[h].isOpen)
    ensures forall k: nat | i <= k < h :: files[k].isOpen
    decreases HANDLES - i
  {
    if i == HANDLES || !files[i].isOpen then i else FirstClosed(files, i + 1)
  }

  ghost function OpenSet(files: seq<FileData>): set<nat>
    requires |files| == 12
  {
    set h: nat | h < HANDLES && files[h].isOpen
  }

  /** Where a path leads: to an entry that is opened, nowhere, or through a directory
      that cannot be opened, when the driver goes on with a null directory. */
  datatype Target = Leads(entry: DirEntry) | Nowhere | ThroughNull

  /** The lookup of a path in a directory; `free` says whether a handle is left for its
      first component. For the others one is left, the one just closed. */
  ghost function Resolve(v: Volume, chains: Catalog, dir: seq<Byte>, path: seq<Byte>, free: bool): Target
    requires path != []
    decreases |path|, 0
  {
    match Find(dir, FatName(First(path)), 0)
    case None => Nowhere
    case Some(e) =>
      if !Last(path) && !IsDirectory(e) then Nowhere
      else Onward(v, chains, e, Rest(path), free)
  }

  /** Where the rest of a path leads from the entry of its first component. */
  ghost function Onward(v: Volume, chains: Catalog, e: DirEntry, rest: seq<Byte>, free: bool): Target
    decreases |rest|, 1
  {
    if rest == [] then if Openable(e) && free then Leads(e) else Nowhere
    else if !(Openable(e) && free) then ThroughNull
    else Resolve(v, chains, DirBytes(v, chains, FirstCluster(e)), rest, free)
  }

  function First(path: seq<Byte>): seq<Byte> { path[..IndexOf(path, SLASH)] }

  /** No slash follows the first component. */
  predicate Last(path: seq<Byte>) { IndexOf(path, SLASH) == |path| }

  /** All components fit the name buffer. */
  predicate PathFits(path: seq<Byte>)
    decreases |path|
  {
    path != [] ==> FitsBuffer(First(path)) && PathFits(Rest(path))
  }

  /** What is left of a path behind its first component. */
  function Rest(path: seq<Byte>): (rest: seq<Byte>)
    ensures path != [] ==> |rest| < |path|
  {
    var i := IndexOf(path, SLASH);
    if i < |path| then path[i + 1..] else []
  }

  /** `open` skips one leading slash. */
  function Relative(path: seq<Byte>): seq<Byte> {
    if path != [] && path[0] == SLASH then path[1..] else path
  }

  // ----- searching a subdirectory

  /** The handle of the subdirectory at cluster `c` has read its entries up to `i`. */
  ghost predicate Scanning(v: Volume, chains: Catalog, c: nat, fd: FileData, i: nat) {
    && fd.isOpen && fd.isDirectory && fd.firstCluster == c && c in chains
    && Coupled(v, fd, chains[c]) && Limit(v, fd, chains[c]) == ByteCount(v, chains[c])
    && fd.position == 32 * i
  }

  /** The answer of `ReadEntry` for entry `i`. */
  ghost predicate ReadAs(v: Volume, chains: Catalog, c: nat, fd: FileData, i: nat, entry: Option<DirEntry>) {
    var dir := DirBytes(v, chains, c);
    && fd.position == Min(32 * i + 32, |dir|)
    && if InUse(dir, i) then entry == Some(dir[32 * i..32 * i + 32]) && Scanning(v, chains, c, fd, i + 1)
       else entry == None
  }

  /** Reading 32 bytes more gives the next entry, or nothing at the end. */
  lemma EntryRead(v: Volume, chains: Catalog, c: nat, fd: FileData, fd': FileData, i: nat, data: seq<Byte>)
    requires Scanning(v, chains, c, fd, i) && ReadDone(v, fd, fd', chains[c], data, 32)
    ensures ReadAs(v, chains, c, fd', i, EntryOf(data))
  {
    var chain := chains[c];
    assert ByteCount(v, chain) == 32 * (16 * Sectors(v, chain));
    var dir := DirBytes(v, chains, c);
    if 32 * i + 32 <= |dir| {
      assert data == dir[32 * i..32 * i + 32];
    }
  }

  /** The clusters whose entries a search of the subdirectory at cluster `c` looks up. */
  ghost function SearchLookups(v: Volume, chains: Catalog, c: nat, key: Name): seq<nat> {
    if c in chains && IsChain(v, chains[c]) then Crossed(v, chains[c], 0, SearchEnd(DirBytes(v, chains, c), key, 0))
    else []
  }

  /** The lookups from byte `a` to the end of the search are untroubled and leave the
      cache at `final`. */
  ghost predicate SearchRuns(v: Volume, chains: Catalog, c: nat, key: Name, a: nat, cache: nat, final: nat) {
    && c in chains && IsChain(v, chains[c])
    && CacheRuns(v, chains[c], a, SearchEnd(DirBytes(v, chains, c), key, 0), cache, final)
  }

  lemma SearchStarts(v: Volume, chains: Catalog, c: nat, key: Name, cache: nat)
    requires c in chains && IsChain(v, chains[c]) && Untroubled(cache, SearchLookups(v, chains, c, key))
    ensures SearchRuns(v, chains, c, key, 0, cache, PositionAfter(cache, SearchLookups(v, chains, c, key)))
  {
  }

  /** Reading entry `i` is part of that. */
  lemma SearchReads(v: Volume, chains: Catalog, c: nat, fd: FileData, key: Name, i: nat, cache: nat, final: nat)
    requires Scanning(v, chains, c, fd, i) && NoneBefore(DirBytes(v, chains, c), key, i)
    requires SearchRuns(v, chains, c, key, 32 * i, cache, final)
    ensures var lookups := Crossed(v, chains[c], fd.position, Goal(v, fd, chains[c], 32));
      && Untroubled(cache, lookups)
      && SearchRuns(v, chains, c, key, Min(32 * i + 32, |DirBytes(v, chains, c)|), PositionAfter(cache, lookups), final)
  {
    var dir := DirBytes(v, chains, c);
    SearchEndFrom(dir, key, 0, i);
    SearchEndBounds(dir, key, i);
    RunsSplit(v, chains[c], 32 * i, Min(32 * i + 32, |dir|), SearchEnd(dir, key, 0), cache, final);
  }

  /** `FindFile` after reading entry `i` of a subdirectory. */
  ghost predicate Searching(v: Volume, chains: Catalog, c: nat, fd: FileData, cache: nat, final: nat,
                            key: Name, i: nat, entry: Option<DirEntry>)
  {
    && NoneBefore(DirBytes(v, chains, c), key, i)
    && ReadAs(v, chains, c, fd, i, entry)
    && SearchRuns(v, chains, c, key, fd.position, cache, final)
  }

  lemma SearchMisses(v: Volume, chains: Catalog, c: nat, fd: FileData, cache: nat, final: nat,
                     key: Name, i: nat, entry: Option<DirEntry>)
    requires Searching(v, chains, c, fd, cache, final, key, i, entry) && Mismatch(entry, key)
    ensures NoneBefore(DirBytes(v, chains, c), key, i + 1)
    ensures Scanning(v, chains, c, fd, i + 1)
  {
    EntryNamed(DirBytes(v, chains, c), key, i, entry);
    NoneBeforeNext(DirBytes(v, chains, c), key, i);
  }

  lemma EntryNamed(dir: seq<Byte>, key: Name, i: nat, entry: Option<DirEntry>)
    requires InUse(dir, i) && entry == Some(dir[32 * i..32 * i + 32])
    ensures Named(dir, key, i) <==> entry.value[..11] == key
  {
    assert entry.value[..11] == dir[32 * i..32 * i + 11];
  }

  lemma NoneBeforeNext(dir: seq<Byte>, key: Name, i: nat)
    requires NoneBefore(dir, key, i) && InUse(dir, i) && !Named(dir, key, i)
    ensures NoneBefore(dir, key, i + 1)
  {
  }

  lemma SearchEnds(v: Volume, chains: Catalog, c: nat, fd: FileData, cache: nat, final: nat,
                   key: Name, i: nat, entry: Option<DirEntry>)
    requires Searching(v, chains, c, fd, cache, final, key, i, entry) && !Mismatch(entry, key)
    ensures entry == Find(DirBytes(v, chains, c), key, 0) && cache == final
  {
    var dir := DirBytes(v, chains, c);
    FindFrom(dir, key, 0, i);
    SearchEndFrom(dir, key, 0, i);
    if entry.Some? {
      assert entry.value[..11] == dir[32 * i..32 * i + 11];
    }
    RunsDone(v, chains[c], fd.position, cache, final);
  }

  // ----- searching with any handle

  /** `FindFile`, begun with handle `start` and the cache at `cache0`, after reading a
      further entry. */
  ghost predicate Pursued(v: Volume, chains: Catalog, h: nat, start: FileData, cache0: nat, fd: FileData, cache: nat,
                          final: nat, key: Name, i: nat, entry: Option<DirEntry>)
    requires h == ROOT ==> RefillsFit(v) && RootSane(v, start) && RootSane(v, fd)
  {
    if h == ROOT then
      RootFind(v, cache0, start, key) ==
      if Mismatch(entry, key) then RootFind(v, cache, fd, key) else Found(entry, cache, fd)
    else
      && fd.firstCluster == start.firstCluster
      && Searching(v, chains, start.firstCluster, fd, cache, final, key, i, entry)
  }

  /** What `ReadEntry` needs for entry `i`. */
  ghost predicate EntryReady(v: Volume, chains: Catalog, h: nat, fd: FileData, cache: nat, final: nat, key: Name,
                             i: nat)
  {
    if h == ROOT then RefillsFit(v)
    else
      && Scanning(v, chains, fd.firstCluster, fd, i)
      && NoneBefore(DirBytes(v, chains, fd.firstCluster), key, i)
      && SearchRuns(v, chains, fd.firstCluster, key, 32 * i, cache, final)
  }

  lemma PursuitEnds(v: Volume, chains: Catalog, h: nat, start: FileData, cache0: nat, fd: FileData, cache: nat,
                    final: nat, key: Name, i: nat, entry: Option<DirEntry>)
    requires h == ROOT ==> RefillsFit(v) && RootSane(v, start) && RootSane(v, fd)
    requires Pursued(v, chains, h, start, cache0, fd, cache, final, key, i, entry) && !Mismatch(entry, key)
    requires final == PositionAfter(cache0, SearchLookups(v, chains, start.firstCluster, key))
    ensures FoundIn(v, chains, h, start, key, cache0, entry, cache)
    ensures h == ROOT ==> fd == RootFind(v, cache0, start, key).fd
  {
    if h != ROOT {
      SearchEnds(v, chains, start.firstCluster, fd, cache, final, key, i, entry);
    }
  }

  /** The end of a directory. */
  ghost function Bound(v: Volume, chains: Catalog, h: nat, c: nat): nat {
    if h == ROOT then 32 * v.rootEntries else |DirBytes(v, chains, c)|
  }

  /** Two changes of one handle are one change. */
  lemma OneHandle(was: seq<FileData>, mid: seq<FileData>, files: seq<FileData>, h: nat)
    requires h < |was| && h < |mid| && h < |files|
    requires mid == was[h := mid[h]] && files == mid[h := files[h]]
    ensures files == was[h := files[h]]
  {
  }

  // ----- handles while a path is followed

  /** Compared with `was`, the handle `current` is open in addition, and all other open
      handles are the same. */
  ghost predicate Holding(was: seq<FileData>, files: seq<FileData>, current: Option<nat>) {
    && |was| == |files| == 12
    && forall k: nat {:trigger files[k]} | k < HANDLES ::
         if current == Some(k) then !was[k].isOpen && files[k].isOpen
         else files[k].isOpen == was[k].isOpen && (was[k].isOpen ==> files[k] == was[k])
  }

  predicate HasFree(files: seq<FileData>)
    requires |files| == 12
  {
    FirstClosed(files, 0) < HANDLES
  }

  lemma HeldIsFree(was: seq<FileData>, files: seq<FileData>, h: nat)
    requires Holding(was, files, Some(h)) && h < HANDLES
    ensures HasFree(was) && !was[h].isOpen
  {
    assert files[h].isOpen;
  }

  lemma HoldingCloses(was: seq<FileData>, files: seq<FileData>, h: nat, fd: FileData)
    requires Holding(was, files, Some(h)) && (h < HANDLES || h == ROOT) && (h < HANDLES ==> !fd.isOpen)
    ensures Holding(was, files[h := fd], None)
  {
    var after := files[h := fd];
    forall k: nat | k < HANDLES
      ensures after[k].isOpen == was[k].isOpen && (was[k].isOpen ==> after[k] == was[k])
    {
      assert k != h ==> after[k] == files[k];
      assert k == h ==> files[k].isOpen;
    }
  }

  /** A path component has been found, or not. */
  ghost predicate Entered(v: Volume, files: seq<FileData>, free: bool, entry: DirEntry, next: Option<nat>)
    requires |files| == 12
  {
    && (next.Some? <==> Openable(entry) && free)
    && (next.Some? ==> next.value < HANDLES && OpensAs(v, entry, files[next.value]))
  }

  lemma {:induction false} SameFirstClosed(was: seq<FileData>, files: seq<FileData>, i: nat)
    requires Holding(was, files, None) && i <= HANDLES
    ensures FirstClosed(files, i) == FirstClosed(was, i)
    decreases HANDLES - i
  {
    if i < HANDLES {
      assert files[i].isOpen == was[i].isOpen;
      SameFirstClosed(was, files, i + 1);
    }
  }

  lemma HoldingOpens(was: seq<FileData>, files: seq<FileData>, h: nat, fd: FileData)
    requires Holding(was, files, None) && h == FirstClosed(was, 0) < HANDLES
    ensures Holding(was, files[h := fd], if fd.isOpen then Some(h) else None)
  {
  }

  // ----- the lookups of a path

  /** The subdirectory that the lookup of a path goes on in, if it does. */
  function NextDirectory(found: Option<DirEntry>, path: seq<Byte>, free: bool): Option<nat> {
    match found
    case None => None
    case Some(e) =>
      if !Last(path) && IsDirectory(e) && Rest(path) != [] && Openable(e) && free then Some(FirstCluster(e)) else None
  }

  /** No lookup on the way along `path` from the subdirectory at cluster `c` on is a
      straddling hit. */
  ghost predicate PathUntroubled(v: Volume, chains: Catalog, c: nat, path: seq<Byte>, cache: nat)
    requires path != []
    decreases |path|
  {
    var key := FatName(First(path));
    var lookups := SearchLookups(v, chains, c, key);
    && Untroubled(cache, lookups)
    && match NextDirectory(Find(DirBytes(v, chains, c), key, 0), path, true)
       case None => true
       case Some(d) => PathUntroubled(v, chains, d, Rest(path), PositionAfter(cache, lookups))
  }

  /** Where these lookups leave the cache. */
  ghost function PathPosition(v: Volume, chains: Catalog, c: nat, path: seq<Byte>, cache: nat): nat
    requires path != []
    decreases |path|
  {
    var key := FatName(First(path));
    var cache' := PositionAfter(cache, SearchLookups(v, chains, c, key));
    match NextDirectory(Find(DirBytes(v, chains, c), key, 0), path, true)
    case None => cache'
    case Some(d) => PathPosition(v, chains, d, Rest(path), cache')
  }

  /** The same from the root directory on, with its handle `fd`. */
  ghost predicate OpenUntroubled(v: Volume, chains: Catalog, fd: FileData, path: seq<Byte>, cache: nat, free: bool)
    requires path != [] && RefillsFit(v) && RootSane(v, fd)
  {
    var r := RootFind(v, cache, fd, FatName(First(path)));
    match NextDirectory(r.entry, path, free)
    case None => true
    case Some(d) => PathUntroubled(v, chains, d, Rest(path), r.cache)
  }

  ghost function OpenPosition(v: Volume, chains: Catalog, fd: FileData, path: seq<Byte>, cache: nat, free: bool): nat
    requires path != [] && RefillsFit(v) && RootSane(v, fd)
  {
    var r := RootFind(v, cache, fd, FatName(First(path)));
    match NextDirectory(r.entry, path, free)
    case None => r.cache
    case Some(d) => PathPosition(v, chains, d, Rest(path), r.cache)
  }

  /** `open` between two components: the lookups to come are untroubled and leave the
      cache at `final`. */
  ghost predicate LookingUp(v: Volume, chains: Catalog, files: seq<FileData>, current: Option<nat>, rest: seq<Byte>,
                            cache: nat, free: bool, final: nat)
    requires |files| == 12 && (current.Some? ==> current.value < 12) && RefillsFit(v) && RootSane(v, files[ROOT])
  {
    if current == None || rest == [] then cache == final
    else if current == Some(ROOT) then
      && OpenUntroubled(v, chains, files[ROOT], rest, cache, free)
      && OpenPosition(v, chains, files[ROOT], rest, cache, free) == final
    else
      && PathUntroubled(v, chains, files[current.value].firstCluster, rest, cache)
      && PathPosition(v, chains, files[current.value].firstCluster, rest, cache) == final
  }

  /** What a search in directory `h` finds, and where it leaves the cache. */
  ghost predicate FoundIn(v: Volume, chains: Catalog, h: nat, fd: FileData, key: Name, cache: nat,
                         found: Option<DirEntry>, cache': nat)
    requires h == ROOT ==> RefillsFit(v) && RootSane(v, fd)
  {
    if h == ROOT then
      RootFind(v, cache, fd, key).entry == found && RootFind(v, cache, fd, key).cache == cache'
    else
      && found == Find(DirBytes(v, chains, fd.firstCluster), key, 0)
      && cache' == PositionAfter(cache, SearchLookups(v, chains, fd.firstCluster, key))
  }

  // ----- open

  /** What `open` does: it returns a handle or null, or it passes a null directory on. */
  datatype Opening = Opened(handle: nat) | NotFound | NullUsed

  /** `open` between two components: `current` stands for the directory in which `rest`
      is looked up next, or for the result if nothing is left. */
  ghost predicate Following(v: Volume, chains: Catalog, dirs: set<nat>, was: seq<FileData>, files: seq<FileData>,
                            path: seq<Byte>, current: Option<nat>, rest: seq<Byte>)
    requires WellFormed(v) && path != []
  {
    && Holding(was, files, current)
    && (current == Some(ROOT) && rest != [] ==> rest == path)
    && StandsFor(v, chains, dirs, files, HasFree(was), current, rest,
                 Resolve(v, chains, RootListing(v), path, HasFree(was)))
  }

  /** `current` and `rest` still lead to the target of the whole path. */
  ghost predicate StandsFor(v: Volume, chains: Catalog, dirs: set<nat>, files: seq<FileData>, free: bool,
                            current: Option<nat>, rest: seq<Byte>, target: Target)
    requires WellFormed(v) && |files| == 12
  {
    if current == None then (if rest == [] then target == Nowhere else target == ThroughNull)
    else if rest == [] then
      current.value < HANDLES && target.Leads? && OpensAs(v, target.entry, files[current.value])
    else
      && InDirectory(v, chains, dirs, files, current.value)
      && target == Resolve(v, chains, Listing(v, chains, current.value, files[current.value]), rest,
                           current.value < HANDLES || free)
  }

  /** Handle `h` is the root directory or a subdirectory at its start. */
  ghost predicate InDirectory(v: Volume, chains: Catalog, dirs: set<nat>, files: seq<FileData>, h: nat)
    requires |files| == 12
  {
    || h == ROOT
    || (h < HANDLES && Scanning(v, chains, files[h].firstCluster, files[h], 0) && files[h].firstCluster in dirs)
  }

  lemma FollowingEnters(v: Volume, chains: Catalog, dirs: set<nat>, was: seq<FileData>, mid: seq<FileData>,
                        files: seq<FileData>, path: seq<Byte>, h: nat, rest: seq<Byte>, next: Option<nat>)
    requires GoodTree(v, chains, dirs) && HandlesOk(v, chains, files) && path != [] && rest != [] && PathFits(rest)
    requires Following(v, chains, dirs, was, mid, path, Some(h), rest)
    requires Holding(was, files, next)
    requires var entry := Find(Listing(v, chains, h, mid[h]), FatName(First(rest)), 0);
      && entry.Some? && (Last(rest) || IsDirectory(entry.value))
      && Entered(v, files, HasFree(was), entry.value, next)
    ensures Following(v, chains, dirs, was, files, path, next, Rest(rest))
  {
    FollowingIn(v, chains, dirs, was, mid, path, h, rest);
    EntersTarget(v, chains, dirs, mid, files, h, rest, next, HasFree(was));
  }

  /** The root's handle while a path is followed: not used yet, or searched once. */
  ghost predicate RootFollowed(v: Volume, path: seq<Byte>, rest: seq<Byte>, current: Option<nat>, was: seq<FileData>,
                               cache0: nat, files: seq<FileData>, cache: nat)
    requires path != [] && |was| == |files| == 12 && RefillsFit(v) && RootSane(v, was[ROOT])
  {
    if current == Some(ROOT) then rest == path && files[ROOT] == was[ROOT] && cache == cache0
    else files[ROOT] == Rewound(RootFind(v, cache0, was[ROOT], FatName(First(path))).fd)
  }

  /** A path, handles and cache position before it is followed, and cache position afterwards. */
  datatype Trip = Trip(path: seq<Byte>, was: seq<FileData>, cache: nat, final: nat)

  /** `open` between two components. */
  ghost predicate OnTheWay(v: Volume, chains: Catalog, dirs: set<nat>, t: Trip, files: seq<FileData>, cache: nat,
                           current: Option<nat>, rest: seq<Byte>)
  {
    && t.path != [] && |t.was| == |files| == 12 && WellFormed(v) && RefillsFit(v)
    && RootSane(v, t.was[ROOT]) && RootSane(v, files[ROOT])
    && Following(v, chains, dirs, t.was, files, t.path, current, rest)
    && (current.Some? ==> current.value < 12)
    && LookingUp(v, chains, files, current, rest, cache, HasFree(t.was), t.final)
    && RootFollowed(v, t.path, rest, current, t.was, t.cache, files, cache)
  }

  /** After one round of `open`: the lookups to come are untroubled still, or there are none. */
  lemma LookedUp(v: Volume, chains: Catalog, mid: seq<FileData>, files: seq<FileData>, h: nat, rest: seq<Byte>,
                 cache: nat, cache': nat, free: bool, final: nat, found: Option<DirEntry>, next: Option<nat>)
    requires |mid| == |files| == 12 && (h < HANDLES || h == ROOT) && rest != [] && (h < HANDLES ==> free)
    requires RefillsFit(v) && RootSane(v, mid[ROOT]) && RootSane(v, files[ROOT])
    requires LookingUp(v, chains, mid, Some(h), rest, cache, free, final)
    requires FoundIn(v, chains, h, mid[h], FatName(First(rest)), cache, found, cache')
    ensures NextDirectory(found, rest, free) == None ==> cache' == final
    ensures found.Some? && (Last(rest) || IsDirectory(found.value)) && Entered(v, files, free, found.value, next) ==>
      LookingUp(v, chains, files, next, Rest(rest), cache', free, final)
  {
    var d := NextDirectory(found, rest, free);
    if d.Some? {
      assert PathUntroubled(v, chains, d.value, Rest(rest), cache');
      assert PathPosition(v, chains, d.value, Rest(rest), cache') == final;
    }
  }

  lemma FollowingIn(v: Volume, chains: Catalog, dirs: set<nat>, was: seq<FileData>, mid: seq<FileData>,
                    path: seq<Byte>, h: nat, rest: seq<Byte>)
    requires WellFormed(v) && path != [] && rest != [] && Following(v, chains, dirs, was, mid, path, Some(h), rest)
    ensures InDirectory(v, chains, dirs, mid, h) && (h < HANDLES ==> HasFree(was))
    ensures Resolve(v, chains, Listing(v, chains, h, mid[h]), rest, HasFree(was))
            == Resolve(v, chains, RootListing(v), path, HasFree(was))
  {
    if h < HANDLES {
      HeldIsFree(was, mid, h);
    }
  }

  lemma EntersTarget(v: Volume, chains: Catalog, dirs: set<nat>, mid: seq<FileData>, files: seq<FileData>,
                     h: nat, rest: seq<Byte>, next: Option<nat>, free: bool)
    requires GoodTree(v, chains, dirs) && HandlesOk(v, chains, files) && rest != [] && PathFits(rest)
    requires |mid| == 12 && InDirectory(v, chains, dirs, mid, h)
    requires var entry := Find(Listing(v, chains, h, mid[h]), FatName(First(rest)), 0);
      && entry.Some? && (Last(rest) || IsDirectory(entry.value)) && Entered(v, files, free, entry.value, next)
    ensures StandsFor(v, chains, dirs, files, free, next, Rest(rest),
                      Resolve(v, chains, Listing(v, chains, h, mid[h]), rest, free))
  {
    var entry := Find(Listing(v, chains, h, mid[h]), FatName(First(rest)), 0).value;
    FoundGood(v, chains, dirs, mid, h, First(rest));
    ResolveStep(v, chains, Listing(v, chains, h, mid[h]), rest, entry, free);
    EnteredStands(v, chains, dirs, files, free, entry, next, Rest(rest));
  }

  lemma EnteredStands(v: Volume, chains: Catalog, dirs: set<nat>, files: seq<FileData>, free: bool,
                      entry: DirEntry, next: Option<nat>, rest: seq<Byte>)
    requires HandlesOk(v, chains, files) && GoodEntry(v, chains, dirs, entry) && (rest != [] ==> IsDirectory(entry))
    requires Entered(v, files, free, entry, next)
    ensures StandsFor(v, chains, dirs, files, free, next, rest, Onward(v, chains, entry, rest, free))
  {
    if next.Some? && rest != [] {
      StartsScanning(v, chains, dirs, files, entry, next.value);
    }
  }

  lemma FoundGood(v: Volume, chains: Catalog, dirs: set<nat>, files: seq<FileData>, h: nat, name: seq<Byte>)
    requires GoodTree(v, chains, dirs) && |files| == 12 && InDirectory(v, chains, dirs, files, h) && FitsBuffer(name)
    requires Find(Listing(v, chains, h, files[h]), FatName(name), 0).Some?
    ensures GoodEntry(v, chains, dirs, Find(Listing(v, chains, h, files[h]), FatName(name), 0).value)
  {
    NeverDeleted(name);
    assert GoodDirectory(v, chains, dirs, Listing(v, chains, h, files[h]));
  }

  lemma ResolveStep(v: Volume, chains: Catalog, dir: seq<Byte>, path: seq<Byte>, entry: DirEntry, free: bool)
    requires path != []
    requires Find(dir, FatName(First(path)), 0) == Some(entry) && (Last(path) || IsDirectory(entry))
    ensures Resolve(v, chains, dir, path, free) == Onward(v, chains, entry, Rest(path), free)
    ensures Rest(path) != [] ==> IsDirectory(entry)
  {
  }

  /** A directory that was just opened is at its start. */
  lemma StartsScanning(v: Volume, chains: Catalog, dirs: set<nat>, files: seq<FileData>, entry: DirEntry, h: nat)
    requires HandlesOk(v, chains, files) && h < HANDLES && GoodEntry(v, chains, dirs, entry) && IsDirectory(entry)
    requires OpensAs(v, entry, files[h])
    ensures InDirectory(v, chains, dirs, files, h)
    ensures Listing(v, chains, h, files[h]) == DirBytes(v, chains, FirstCluster(entry))
  {
    OpenHandle(v, chains, files, h);
  }

  /** What `open` does for a target: the outcome, and the handles afterwards. */
  ghost predicate OpenedTo(v: Volume, was: seq<FileData>, files: seq<FileData>, target: Target, r: Opening)
    requires WellFormed(v)
  {
    match r
    case Opened(h) =>
      h < HANDLES && target.Leads? && Holding(was, files, Some(h)) && OpensAs(v, target.entry, files[h])
    case NotFound => target == Nowhere && Holding(was, files, None)
    case NullUsed => target == ThroughNull && Holding(was, files, None)
  }

  /** What a path promises when it names at least one component: the lookup decides what
      `open` does, whatever handles are open. */
  ghost predicate OpenedAs(v: Volume, chains: Catalog, was: seq<FileData>, files: seq<FileData>, path: seq<Byte>,
                           r: Opening)
    requires WellFormed(v) && path != []
  {
    |was| == 12 && OpenedTo(v, was, files, Resolve(v, chains, RootListing(v), path, HasFree(was)), r)
  }

  /** Component `k` is found as a directory and is not the last one, but it cannot be
      opened: its first cluster is unusable, or no handle is free. All components
      before it are directories that are opened. */
  ghost predicate StuckAt(v: Volume, chains: Catalog, dir: seq<Byte>, path: seq<Byte>, free: bool, k: nat)
    requires path != []
    decreases k
  {
    var e := Find(dir, FatName(First(path)), 0);
    && e.Some? && !Last(path) && IsDirectory(e.value) && Rest(path) != []
    && if k == 0 then !(Openable(e.value) && free)
       else (
         && Openable(e.value) && free
         && StuckAt(v, chains, DirBytes(v, chains, FirstCluster(e.value)), Rest(path), free, k - 1))
  }

  /** Entry `e` of the first component is a directory that is opened and searched. */
  ghost predicate GoesOn(dir: seq<Byte>, path: seq<Byte>, free: bool, e: DirEntry)
    requires path != []
  {
    && Find(dir, FatName(First(path)), 0) == Some(e)
    && !Last(path) && IsDirectory(e) && Openable(e) && free && Rest(path) != []
  }

  /** The lookup goes on in that directory. */
  lemma ResolveFurther(v: Volume, chains: Catalog, dir: seq<Byte>, path: seq<Byte>, free: bool, e: DirEntry)
    requires path != [] && GoesOn(dir, path, free, e)
    ensures Resolve(v, chains, dir, path, free)
            == Resolve(v, chains, DirBytes(v, chains, FirstCluster(e)), Rest(path), free)
  {
    ResolveStep(v, chains, dir, path, e, free);
  }

  lemma StuckHere(v: Volume, chains: Catalog, dir: seq<Byte>, path: seq<Byte>, free: bool)
    requires path != [] && StuckAt(v, chains, dir, path, free, 0)
    ensures Resolve(v, chains, dir, path, free) == ThroughNull
  {
  }

  lemma {:induction false} StuckIsNull(v: Volume, chains: Catalog, dir: seq<Byte>, path: seq<Byte>, free: bool, k: nat)
    requires path != [] && StuckAt(v, chains, dir, path, free, k)
    ensures Resolve(v, chains, dir, path, free) == ThroughNull
    decreases k
  {
    if k > 0 {
      var j := k - 1;
      var e, next, rest := StuckFurther(v, chains, dir, path, free, k, j);
      StuckIsNull(v, chains, next, rest, free, j);
      NullBehind(v, chains, dir, path, next, rest, free, e);
    } else {
      StuckHere(v, chains, dir, path, free);
    }
  }

  /** Where a lookup goes on that is stuck behind the first component. */
  lemma StuckFurther(v: Volume, chains: Catalog, dir: seq<Byte>, path: seq<Byte>, free: bool, k: nat, j: nat)
    returns (e: DirEntry, next: seq<Byte>, rest: seq<Byte>)
    requires path != [] && k > 0 && j == k - 1 && StuckAt(v, chains, dir, path, free, k)
    ensures GoesOn(dir, path, free, e) && rest == Rest(path) && next == DirBytes(v, chains, FirstCluster(e))
    ensures StuckAt(v, chains, next, rest, free, j)
  {
    e := Find(dir, FatName(First(path)), 0).value;
    next, rest := DirBytes(v, chains, FirstCluster(e)), Rest(path);
  }

  lemma NullBehind(v: Volume, chains: Catalog, dir: seq<Byte>, path: seq<Byte>, next: seq<Byte>, rest: seq<Byte>,
                   free: bool, e: DirEntry)
    requires path != [] && GoesOn(dir, path, free, e) && rest == Rest(path)
    requires next == DirBytes(v, chains, FirstCluster(e)) && Resolve(v, chains, next, rest, free) == ThroughNull
    ensures Resolve(v, chains, dir, path, free) == ThroughNull
  {
    ResolveFurther(v, chains, dir, path, free, e);
  }

  /** The path is stuck somewhere. */
  ghost predicate Stuck(v: Volume, chains: Catalog, dir: seq<Byte>, path: seq<Byte>, free: bool)
    requires path != []
  {
    exists k: nat :: StuckAt(v, chains, dir, path, free, k)
  }

  lemma NullFirst(v: Volume, chains: Catalog, dir: seq<Byte>, path: seq<Byte>, free: bool) returns (e: DirEntry)
    requires path != [] && Resolve(v, chains, dir, path, free) == ThroughNull
    ensures Stuck(v, chains, dir, path, free) || GoesOn(dir, path, free, e)
  {
    e := Find(dir, FatName(First(path)), 0).value;
    if !(Openable(e) && free) {
      assert StuckAt(v, chains, dir, path, free, 0);
    }
  }

  lemma StuckLater(v: Volume, chains: Catalog, dir: seq<Byte>, path: seq<Byte>, free: bool, e: DirEntry)
    requires path != [] && GoesOn(dir, path, free, e)
    requires Stuck(v, chains, DirBytes(v, chains, FirstCluster(e)), Rest(path), free)
    ensures Stuck(v, chains, dir, path, free)
  {
    var k: nat :| StuckAt(v, chains, DirBytes(v, chains, FirstCluster(e)), Rest(path), free, k);
    assert StuckAt(v, chains, dir, path, free, k + 1);
  }

  lemma {:induction false} NullIsStuck(v: Volume, chains: Catalog, dir: seq<Byte>, path: seq<Byte>, free: bool)
    requires path != [] && Resolve(v, chains, dir, path, free) == ThroughNull
    ensures Stuck(v, chains, dir, path, free)
    decreases |path|
  {
    var e := NullFirst(v, chains, dir, path, free);
    if GoesOn(dir, path, free, e) {
      ResolveFurther(v, chains, dir, path, free, e);
      NullIsStuck(v, chains, DirBytes(v, chains, FirstCluster(e)), Rest(path), free);
      StuckLater(v, chains, dir, path, free, e);
    }
  }

  /** A full handle table only turns success into failure. */
  lemma FreeDecides(v: Volume, chains: Catalog, dir: seq<Byte>, path: seq<Byte>, free: bool)
    requires path != []
    ensures Resolve(v, chains, dir, path, free).Leads? <==> Resolve(v, chains, dir, path, true).Leads? && free
  {
  }

  /** The outcome of `open`, exactly: a null directory is used if and only if some
      component before the last is found as a directory that cannot be opened, and the
      call succeeds if and only if the path leads to an entry and a handle is free. */
  lemma OpenExactly(v: Volume, chains: Catalog, was: seq<FileData>, files: seq<FileData>, path: seq<Byte>, r: Opening)
    requires WellFormed(v) && path != [] && OpenedAs(v, chains, was, files, path, r)
    ensures r == NullUsed <==> Stuck(v, chains, RootListing(v), path, HasFree(was))
    ensures r.Opened? <==> Resolve(v, chains, RootListing(v), path, true).Leads? && HasFree(was)
  {
    OutcomeOfTarget(v, chains, was, files, path, r);
    FreeDecides(v, chains, RootListing(v), path, HasFree(was));
    if r == NullUsed {
      NullIsStuck(v, chains, RootListing(v), path, HasFree(was));
    }
    forall k: nat | StuckAt(v, chains, RootListing(v), path, HasFree(was), k)
      ensures r == NullUsed
    {
      StuckIsNull(v, chains, RootListing(v), path, HasFree(was), k);
    }
  }

  lemma OutcomeOfTarget(v: Volume, chains: Catalog, was: seq<FileData>, files: seq<FileData>, path: seq<Byte>,
                        r: Opening)
    requires WellFormed(v) && path != [] && OpenedAs(v, chains, was, files, path, r)
    ensures var target := Resolve(v, chains, RootListing(v), path, HasFree(was));
      && (r == NullUsed <==> target == ThroughNull) && (r.Opened? <==> target.Leads?)
  {
  }

  /** Handle conservation: one open handle more on success, the same ones on failure,
      and the other open handles untouched. */
  lemma HandlesConserved(v: Volume, chains: Catalog, was: seq<FileData>, files: seq<FileData>, path: seq<Byte>,
                         r: Opening)
    requires WellFormed(v) && path != [] && OpenedAs(v, chains, was, files, path, r)
    ensures r.Opened? ==> r.handle !in OpenSet(was) && OpenSet(files) == OpenSet(was) + {r.handle}
    ensures !r.Opened? ==> OpenSet(files) == OpenSet(was)
    ensures forall h: nat | h in OpenSet(was) :: files[h] == was[h]
    ensures |OpenSet(files)| == |OpenSet(was)| + if r.Opened? then 1 else 0
  {
    if r.Opened? {
      assert files[r.handle].isOpen;
    }
    forall h: nat | h < HANDLES
      ensures h in OpenSet(files) <==> h in OpenSet(was) || r == Opened(h)
      ensures h in OpenSet(was) ==> files[h] == was[h]
    {
      assert files[h] == files[h];
    }
  }

  /** The search of the first component ends in the first sector of the root. */
  ghost predicate RootDecidesPath(v: Volume, path: seq<Byte>)
    requires v.rootLba < |v.disk|
  {
    path != [] ==> RootDecides(v, FatName(First(path)))
  }

  // ----- mounting

  /** The volume that `initialize` derives from the boot sector. */
  function Mounted(disk: seq<Sector>, b: Bpb): Volume
    requires b.bytesPerSector > 0
  {
    Volume(disk, b.reserved, b.fatSize, b.sectorsPerCluster, RootLba(b), b.rootEntries, DataLba(b))
  }

  predicate RootMounted(fd: FileData, b: Bpb, disk: seq<Sector>) {
    && RootLba(b) < |disk| && fd.isOpen && fd.isDirectory && fd.size == 32 * b.rootEntries
    && fd.position == 0 && fd.buffer == disk[RootLba(b)]
    && fd.firstCluster == fd.currentCluster == RootLba(b)
  }

  predicate AllClosed(files: seq<FileData>)
    requires |files| == 12
  {
    forall h: nat {:trigger files[h]} | h < HANDLES :: !files[h].isOpen
  }

  lemma MountedHandles(v: Volume, chains: Catalog, files: seq<FileData>, b: Bpb, disk: seq<Sector>)
    requires |files| == 12 && b.bytesPerSector > 0 && v == Mounted(disk, b)
    requires RootMounted(files[ROOT], b, disk) && AllClosed(files)
    ensures OpenSet(files) == {}
    ensures WellFormed(v) && Catalogued(v, chains) ==> HandlesOk(v, chains, files) && FreshRoot(v, files[ROOT])
  {
  }

  /** A volume that `detect` accepts is well-formed once it has 512-byte sectors, a root
      directory and, behind the first FAT, the sectors that a cache refill may touch;
      its data clusters lie on the disk. */
  lemma AcceptedVolume(disk: seq<Sector>, c: nat)
    requires 0 < |disk| < 0x1000_0000 && Detect(disk[0])
    requires var b := ParseBpb(disk[0]);
      && b.bytesPerSector == 512 && b.rootEntries > 0 && b.fats > 0
      && TotalSectors(b) <= |disk| && b.reserved + b.fatSize + CACHE <= |disk|
    ensures var b, v := ParseBpb(disk[0]), Mounted(disk, ParseBpb(disk[0]));
      && WellFormed(v)
      && (IsCluster(b, c) && c < 0xFF8 && InFat(v, c) ==> Readable(v, c))
  {
    var b := ParseBpb(disk[0]);
    DetectedIsSane(disk[0]);
    if IsCluster(b, c) {
      ClusterPlace(b, c);
    }
    assert RootSectors(b) > 0;
  }
}
