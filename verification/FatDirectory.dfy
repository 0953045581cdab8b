/** Directory entries, names and path lookup as pure functions. */
module FatDirectory {
  import opened Bytes
  import opened Memory

  type DirEntry = e: seq<Byte> | |e| == 32 witness seq(32, _ => 0)
  type Name = n: seq<Byte> | |n| == 11 witness seq(11, _ => 0)

  const SLASH: Byte := 47
  const DOT: Byte := 46
  const SPACE: Byte := 32

  /** The first byte of the name of a deleted entry. */
  const DELETED: Byte := 0xE5

  predicate IsDirectory(e: DirEntry) { e[11] / 16 % 2 == 1 }

  function FirstCluster(e: DirEntry): nat { Le16(e, 26) + Le16(e, 20) * 0x1_0000 }

  function EntrySize(e: DirEntry): nat { Le32(e, 28) }

  /** What `ReadEntry` makes of the bytes it has read. */
  function EntryOf(data: seq<Byte>): Option<DirEntry> {
    if |data| == 32 && data[0] != 0 then Some(data) else None
  }

  /** An entry was read, but it has another name. */
  predicate Mismatch(entry: Option<DirEntry>, key: Name) { entry.Some? && entry.value[..11] != key }

  /** `OpenEntry` refuses other first clusters. */
  predicate Openable(e: DirEntry) { 2 <= FirstCluster(e) < 0xFF8 }

  /** `strchr`: the first position of a byte, or the length. */
  function IndexOf(s: seq<Byte>, b: Byte): (i: nat)
    ensures i <= |s|
  {
    if s == [] || s[0] == b then 0 else 1 + IndexOf(s[1..], b)
  }

  lemma {:induction false} IndexOfFirst(s: seq<Byte>, b: Byte)
    ensures IndexOf(s, b) < |s| ==> s[IndexOf(s, b)] == b
    ensures forall k | 0 <= k < IndexOf(s, b) :: s[k] != b
  {
    if s != [] && s[0] != b {
      IndexOfFirst(s[1..], b);
    }
  }

  function ToUpper(b: Byte): Byte {
    var x: nat := b;
    if 97 <= x <= 122 then x - 32 else x
  }

  /** Where the extension of a name starts, if it has one. A dot at index 11 is not
      recognised, because the code marks a missing extension by that address. */
  function Dot(name: seq<Byte>): nat {
    var i := IndexOf(name, DOT);
    if i == |name| then 11 else i
  }

  /** Byte `i` of the 8.3 form in which `FindFile` looks a name up. */
  function NameByte(name: seq<Byte>, i: nat): Byte
    requires i < 11
  {
    var dot := Dot(name);
    if i < 8 then
      if i < |name| && i < dot then ToUpper(name[i]) else SPACE
    else
      if dot != 11 && dot + 1 + (i - 8) < |name| then ToUpper(name[dot + 1 + (i - 8)]) else SPACE
  }

  function FatName(name: seq<Byte>): Name {
    seq<Byte>(11, i requires 0 <= i < 11 => NameByte(name, i))
  }

  const MAX_PATH_SIZE: nat := 256

  /** A path component that fits the name buffer with its terminator and does not begin
      with the byte that marks deleted entries. */
  predicate FitsBuffer(name: seq<Byte>) { |name| < MAX_PATH_SIZE && (name == [] || name[0] != DELETED) }

  /** Such a component never asks for a deleted entry. */
  lemma NeverDeleted(name: seq<Byte>)
    requires FitsBuffer(name)
    ensures FatName(name)[0] != DELETED
  {
    assert FatName(name)[0] == NameByte(name, 0);
  }

  /** The search of `FindFile` from entry `i` on: the first entry of that name before
      the zero terminator or the end. */
  function Find(dir: seq<Byte>, key: Name, i: nat): Option<DirEntry>
    decreases |dir| - 32 * i
  {
    if 32 * i + 32 > |dir| || dir[32 * i] == 0 then None
    else if dir[32 * i..32 * i + 11] == key then Some(dir[32 * i..32 * i + 32])
    else Find(dir, key, i + 1)
  }

  /** The search ends at entry `k` at the latest: the terminator or the name is there. */
  predicate StopsAt(dir: seq<Byte>, key: Name, k: nat) {
    32 * k + 32 <= |dir| && (!InUse(dir, k) || Named(dir, key, k))
  }

  /** The search is decided before the end of `dir`. */
  ghost predicate Decided(dir: seq<Byte>, key: Name) { exists k: nat :: StopsAt(dir, key, k) }

  /** The entries before `i` are in use and have other names. */
  predicate NoneBefore(dir: seq<Byte>, key: Name, i: nat) {
    forall m: nat {:trigger InUse(dir, m)} | m < i :: InUse(dir, m) && !Named(dir, key, m)
  }

  /** Entry `k` has the name; entries `i` to `k` are in use and have other names. */
  predicate FirstMatch(dir: seq<Byte>, key: Name, i: nat, k: nat) {
    && i <= k && 32 * k + 32 <= |dir| && InUse(dir, k) && Named(dir, key, k)
    && forall m: nat {:trigger InUse(dir, m)} | i <= m < k :: InUse(dir, m) && !Named(dir, key, m)
  }

  predicate InUse(dir: seq<Byte>, k: nat) { 32 * k + 32 <= |dir| && dir[32 * k] != 0 }

  predicate Named(dir: seq<Byte>, key: Name, k: nat) {
    32 * k + 32 <= |dir| && dir[32 * k..32 * k + 11] == key
  }

  /** An entry is the same in every longer directory. */
  lemma SameEntry(dir: seq<Byte>, all: seq<Byte>, key: Name, k: nat)
    requires |dir| <= |all| && dir == all[..|dir|] && 32 * k + 32 <= |dir|
    ensures InUse(dir, k) == InUse(all, k) && Named(dir, key, k) == Named(all, key, k)
    ensures StopsAt(dir, key, k) == StopsAt(all, key, k)
    ensures dir[32 * k..32 * k + 32] == all[32 * k..32 * k + 32]
  {
    var a, b := 32 * k, 32 * k + 11;
    assert forall i | a <= i < b + 21 :: dir[i] == all[i];
    assert dir[a..b] == all[a..b] && dir[a..b + 21] == all[a..b + 21];
  }

  /** What the search means: it finds the entry exactly if that is the first one of
      its name and all entries before it are in use. */
  lemma {:induction false} FindFirst(dir: seq<Byte>, key: Name, i: nat, k: nat)
    requires FirstMatch(dir, key, i, k)
    ensures Find(dir, key, i) == Some(dir[32 * k..32 * k + 32])
    decreases |dir| - 32 * i
  {
    assert InUse(dir, i);
    if k > i {
      FindFirst(dir, key, i + 1, k);
    }
  }

  lemma {:induction false} FoundFirst(dir: seq<Byte>, key: Name, i: nat) returns (k: nat)
    requires Find(dir, key, i).Some?
    ensures FirstMatch(dir, key, i, k)
    decreases |dir| - 32 * i
  {
    k := i;
    if !Named(dir, key, i) {
      k := FoundFirst(dir, key, i + 1);
    }
  }

  /** `found` is the first entry of that name, or nothing if there is none. */
  ghost predicate FirstFound(dir: seq<Byte>, key: Name, found: Option<DirEntry>) {
    && (found.Some? <==> exists k: nat :: FirstMatch(dir, key, 0, k))
    && forall k: nat {:trigger FirstMatch(dir, key, 0, k)} | FirstMatch(dir, key, 0, k) ::
         found == Some(dir[32 * k..32 * k + 32])
  }

  lemma FindIsFirst(dir: seq<Byte>, key: Name)
    ensures FirstFound(dir, key, Find(dir, key, 0))
  {
    forall k: nat | FirstMatch(dir, key, 0, k)
      ensures Find(dir, key, 0) == Some(dir[32 * k..32 * k + 32])
    {
      FindFirst(dir, key, 0, k);
    }
    if Find(dir, key, 0).Some? {
      var k := FoundFirst(dir, key, 0);
    }
  }

  /** After entries that do not match, the search is what is found from there on. */
  lemma {:induction false} FindFrom(dir: seq<Byte>, key: Name, j: nat, i: nat)
    requires NoneBefore(dir, key, i) && j <= i
    ensures Find(dir, key, j) == Find(dir, key, i)
    decreases i - j
  {
    if j < i {
      assert InUse(dir, j);
      FindFrom(dir, key, j + 1, i);
    }
  }

  /** The position at which the search from entry `i` on has read enough. */
  function SearchEnd(dir: seq<Byte>, key: Name, i: nat): nat
    decreases |dir| - 32 * i
  {
    if 32 * i + 32 > |dir| then |dir|
    else if StopsAt(dir, key, i) then 32 * i + 32
    else SearchEnd(dir, key, i + 1)
  }

  lemma {:induction false} SearchEndFrom(dir: seq<Byte>, key: Name, j: nat, i: nat)
    requires NoneBefore(dir, key, i) && j <= i
    ensures SearchEnd(dir, key, j) == SearchEnd(dir, key, i)
    decreases i - j
  {
    if j < i {
      assert InUse(dir, j);
      SearchEndFrom(dir, key, j + 1, i);
    }
  }

  /** Every entry that is read lies before that. */
  lemma {:induction false} SearchEndBounds(dir: seq<Byte>, key: Name, i: nat)
    requires 32 * i <= |dir|
    ensures Min(32 * i + 32, |dir|) <= SearchEnd(dir, key, i) <= |dir|
    decreases |dir| - 32 * i
  {
    if 32 * i + 32 <= |dir| && !StopsAt(dir, key, i) {
      SearchEndBounds(dir, key, i + 1);
    }
  }

  /** A search that is decided early does not look further. */
  lemma {:induction false} DecidedEarly(dir: seq<Byte>, more: seq<Byte>, key: Name, i: nat, k: nat)
    requires StopsAt(dir, key, k) && i <= k
    ensures Find(dir + more, key, i) == Find(dir, key, i)
    decreases k - i
  {
    var all := dir + more;
    assert all[32 * i..32 * i + 11] == dir[32 * i..32 * i + 11];
    assert all[32 * i..32 * i + 32] == dir[32 * i..32 * i + 32];
    if i < k {
      DecidedEarly(dir, more, key, i + 1, k);
    }
  }
}
