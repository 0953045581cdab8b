/** Paths as lists of components: what `open` makes of a path, said of the components and of
    their 8.3 names. */
module FatComponents {
  import opened Bytes
  import opened Memory
  import opened FatSpec
  import opened FatDirectory
  import opened FatNames
  import opened FatCursors
  import FatRoot
  import opened FatPaths

  /** A component is not empty and has no slash. */
  predicate Component(s: seq<Byte>) { s != [] && forall i: nat {:trigger s[i]} | i < |s| :: s[i] != 47 }

  /** The components with slashes between them. */
  function Joined(parts: seq<seq<Byte>>): seq<Byte>
    requires parts != []
  {
    if |parts| == 1 then parts[0] else parts[0] + [47] + Joined(parts[1..])
  }

  /** The path names these components, with or without a slash in front, and these are
      their 8.3 names. */
  ghost predicate Names(path: seq<Byte>, parts: seq<seq<Byte>>, keys: seq<Name>) {
    && parts != [] && |keys| == |parts|
    && (path == Joined(parts) || path == [47] + Joined(parts))
    && AllShort(parts, keys)
  }

  ghost predicate AllShort(parts: seq<seq<Byte>>, keys: seq<Name>)
    requires |keys| == |parts|
  {
    forall i: nat {:trigger parts[i]} {:trigger keys[i]} | i < |parts| ::
      Component(parts[i]) && ShortName(parts[i], keys[i])
  }

  lemma {:induction false} SlashBehind(s: seq<Byte>, rest: seq<Byte>)
    requires forall i: nat {:trigger s[i]} | i < |s| :: s[i] != 47
    ensures IndexOf(s, SLASH) == |s| && IndexOf(s + [47] + rest, SLASH) == |s|
  {
    var all := s + [47] + rest;
    if s == [] {
      assert all[0] == 47;
    } else {
      assert s[0] != 47 && all[0] == s[0] && all[1..] == s[1..] + [47] + rest;
      forall i: nat | i < |s[1..]|
        ensures s[1..][i] != 47
      {
        assert s[1..][i] == s[i + 1];
      }
      SlashBehind(s[1..], rest);
    }
  }

  /** Splitting gives the components back. */
  lemma JoinedSplits(parts: seq<seq<Byte>>)
    requires parts != [] && Component(parts[0])
    ensures Joined(parts) != [] && First(Joined(parts)) == parts[0]
    ensures Last(Joined(parts)) <==> |parts| == 1
    ensures Rest(Joined(parts)) == if |parts| == 1 then [] else Joined(parts[1..])
  {
    var s := parts[0];
    if |parts| == 1 {
      SlashBehind(s, []);
    } else {
      var rest := Joined(parts[1..]);
      SlashBehind(s, rest);
      assert (s + [47] + rest)[|s| + 1..] == rest;
    }
  }

  lemma RelativeOf(path: seq<Byte>, parts: seq<seq<Byte>>)
    requires parts != [] && Component(parts[0]) && (path == Joined(parts) || path == [47] + Joined(parts))
    ensures Relative(path) == Joined(parts)
  {
    assert parts[0][0] != 47 && Joined(parts)[0] == parts[0][0];
  }

  /** The lookup along a list of names. */
  ghost function Along(v: Volume, chains: Catalog, dir: seq<Byte>, keys: seq<Name>, free: bool): Target
    requires keys != []
    decreases |keys|
  {
    match Find(dir, keys[0], 0)
    case None => Nowhere
    case Some(e) =>
      if |keys| == 1 then (if Openable(e) && free then Leads(e) else Nowhere)
      else if !IsDirectory(e) then Nowhere
      else if !(Openable(e) && free) then ThroughNull
      else Along(v, chains, DirBytes(v, chains, FirstCluster(e)), keys[1..], free)
  }

  lemma {:induction false} ResolvesAlong(v: Volume, chains: Catalog, dir: seq<Byte>, parts: seq<seq<Byte>>,
                                         keys: seq<Name>, free: bool)
    requires parts != [] && |keys| == |parts| && AllShort(parts, keys)
    ensures Joined(parts) != []
    ensures Resolve(v, chains, dir, Joined(parts), free) == Along(v, chains, dir, keys, free)
    decreases |parts|
  {
    var key, path := keys[0], Joined(parts);
    assert Component(parts[0]) && ShortName(parts[0], key);
    JoinedSplits(parts);
    ShortNameExactly(parts[0], key);
    var found := Find(dir, key, 0);
    if |parts| > 1 {
      RestShort(parts, keys);
      if found.Some? {
        var next := DirBytes(v, chains, FirstCluster(found.value));
        ResolvesAlong(v, chains, next, parts[1..], keys[1..], free);
        Onwards(v, chains, dir, path, keys, found.value, next, free);
      }
    }
  }

  lemma RestShort(parts: seq<seq<Byte>>, keys: seq<Name>)
    requires |parts| > 1 && |keys| == |parts| && AllShort(parts, keys)
    ensures AllShort(parts[1..], keys[1..])
  {
    forall i: nat | i < |parts[1..]|
      ensures Component(parts[1..][i]) && ShortName(parts[1..][i], keys[1..][i])
    {
      assert parts[1..][i] == parts[i + 1] && keys[1..][i] == keys[i + 1];
    }
  }

  /** One step of both lookups. */
  lemma Onwards(v: Volume, chains: Catalog, dir: seq<Byte>, path: seq<Byte>, keys: seq<Name>, e: DirEntry,
                next: seq<Byte>, free: bool)
    requires path != [] && |keys| > 1 && FatName(First(path)) == keys[0] && !Last(path) && Rest(path) != []
    requires Find(dir, keys[0], 0) == Some(e) && next == DirBytes(v, chains, FirstCluster(e))
    requires Resolve(v, chains, next, Rest(path), free) == Along(v, chains, next, keys[1..], free)
    ensures Resolve(v, chains, dir, path, free) == Along(v, chains, dir, keys, free)
  {
  }

  /** What `open` does for a path that names these components. */
  lemma OpenedAlong(v: Volume, chains: Catalog, was: seq<FileData>, files: seq<FileData>, path: seq<Byte>,
                    parts: seq<seq<Byte>>, keys: seq<Name>, r: Opening)
    requires WellFormed(v) && Names(path, parts, keys)
    requires Relative(path) != [] ==> OpenedAs(v, chains, was, files, Relative(path), r)
    ensures |was| == 12 && OpenedTo(v, was, files, Along(v, chains, RootListing(v), keys, HasFree(was)), r)
  {
    assert Component(parts[0]);
    RelativeOf(path, parts);
    JoinedSplits(parts);
    ResolvesAlong(v, chains, RootListing(v), parts, keys, HasFree(was));
  }

  /** The same for whatever components the path names. */
  lemma OpenedByName(v: Volume, chains: Catalog, was: seq<FileData>, files: seq<FileData>, path: seq<Byte>, r: Opening)
    requires WellFormed(v) && |was| == 12
    requires Relative(path) != [] ==> OpenedAs(v, chains, was, files, Relative(path), r)
    ensures forall parts: seq<seq<Byte>>, keys: seq<Name> {:trigger Names(path, parts, keys)} |
      Names(path, parts, keys) ::
      OpenedTo(v, was, files, Along(v, chains, RootListing(v), keys, HasFree(was)), r)
  {
    forall parts: seq<seq<Byte>>, keys: seq<Name> | Names(path, parts, keys)
      ensures OpenedTo(v, was, files, Along(v, chains, RootListing(v), keys, HasFree(was)), r)
    {
      OpenedAlong(v, chains, was, files, path, parts, keys, r);
    }
  }

  /** What a search finds, said of the 8.3 name of the component. */
  lemma FoundByName(v: Volume, chains: Catalog, h: nat, fd: FileData, name: seq<Byte>, cache: nat,
                    found: Option<DirEntry>, cache': nat)
    requires h == ROOT ==> FatRoot.RefillsFit(v) && RootSane(v, fd)
    requires FoundIn(v, chains, h, fd, FatName(name), cache, found, cache')
    ensures forall key: Name {:trigger ShortName(name, key)} | ShortName(name, key) ::
      && FoundIn(v, chains, h, fd, key, cache, found, cache')
      && (h != ROOT ==> FirstFound(DirBytes(v, chains, fd.firstCluster), key, found))
  {
    forall key: Name | ShortName(name, key)
      ensures key == FatName(name)
    {
      ShortNameExactly(name, key);
    }
    FindIsFirst(DirBytes(v, chains, fd.firstCluster), FatName(name));
  }
}
