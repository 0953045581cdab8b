/** File names in 8.3 form: what the name that `FindFile` looks up is, said of the parts of
    a path component. */
module FatNames {
  import opened Bytes
  import opened FatDirectory

  /** The same letters as capitals; no other byte changes. */
  predicate Capitals(s: seq<Byte>, u: seq<Byte>) {
    && |u| == |s|
    && forall i: nat {:trigger u[i]} | i < |s| ::
         var b: nat, c: nat := s[i], u[i];
         if 97 <= b <= 122 then c == b - 32 else c == b
  }

  predicate DotFree(s: seq<Byte>) { forall i: nat {:trigger s[i]} | i < |s| :: s[i] != 46 }

  /** At most the first `n` bytes. */
  function Cut(s: seq<Byte>, n: nat): seq<Byte> { s[..Min(|s|, n)] }

  /** Filled up with spaces to `n` bytes. */
  function Padded(s: seq<Byte>, n: nat): (p: seq<Byte>)
    requires |s| <= n
    ensures |p| == n
  {
    s + seq<Byte>(n - |s|, _ => 32)
  }

  /** Eight bytes of the base and three of the extension, in capitals, padded. */
  predicate IsShort(base: seq<Byte>, ext: seq<Byte>, u: seq<Byte>, x: seq<Byte>, key: Name) {
    && Capitals(Cut(base, 8), u) && Capitals(Cut(ext, 3), x)
    && key == Padded(u, 8) + Padded(x, 3)
  }

  /** The name is a base without a dot, or such a base, a dot and an extension. The code
      does not see a dot behind eleven bytes. */
  predicate Parts(name: seq<Byte>, base: seq<Byte>, ext: seq<Byte>) {
    && DotFree(base)
    && if |base| == 11 && name != base then ext == [] && |name| > 11 && name[..12] == base + [46]
       else (name == base && ext == []) || name == base + [46] + ext
  }

  ghost predicate ShortName(name: seq<Byte>, key: Name) {
    exists base: seq<Byte>, ext: seq<Byte>, u: seq<Byte>, x: seq<Byte> ::
      Parts(name, base, ext) && IsShort(base, ext, u, x, key)
  }

  // ----- the name that is looked up

  lemma {:induction false} NoDotIn(s: seq<Byte>)
    requires DotFree(s)
    ensures IndexOf(s, DOT) == |s|
  {
    if s != [] {
      assert s[0] != 46;
      forall i: nat | i < |s[1..]|
        ensures s[1..][i] != 46
      {
        assert s[1..][i] == s[i + 1];
      }
      NoDotIn(s[1..]);
    }
  }

  lemma {:induction false} DotBehind(base: seq<Byte>, rest: seq<Byte>)
    requires DotFree(base)
    ensures IndexOf(base + [46] + rest, DOT) == |base|
  {
    var s := base + [46] + rest;
    if base == [] {
      assert s[0] == 46;
    } else {
      assert base[0] != 46 && s[0] == base[0];
      assert s[1..] == base[1..] + [46] + rest;
      forall i: nat | i < |base[1..]|
        ensures base[1..][i] != 46
      {
        assert base[1..][i] == base[i + 1];
      }
      DotBehind(base[1..], rest);
    }
  }

  lemma PartsDot(name: seq<Byte>, base: seq<Byte>, ext: seq<Byte>)
    requires Parts(name, base, ext)
    ensures |base| <= |name| && name[..|base|] == base
    ensures if name == base || |base| == 11 then Dot(name) == 11 && ext == []
            else Dot(name) == |base| < |name| && name[|base| + 1..] == ext
  {
    if name == base {
      NoDotIn(base);
      DotsDiffer(base, ext);
    } else if |base| == 11 {
      assert name == base + [46] + name[12..];
      DotBehind(base, name[12..]);
    } else {
      DotBehind(base, ext);
    }
  }

  lemma DotsDiffer(base: seq<Byte>, ext: seq<Byte>)
    ensures base != base + [46] + ext
  {
    assert |base| != |base + [46] + ext|;
  }

  /** One byte of it. */
  lemma ByteOfName(name: seq<Byte>, base: seq<Byte>, ext: seq<Byte>, u: seq<Byte>, x: seq<Byte>, key: Name, i: nat)
    requires Parts(name, base, ext) && IsShort(base, ext, u, x, key) && i < 11
    ensures NameByte(name, i) == key[i]
  {
    PartsDot(name, base, ext);
    if i < 8 {
      assert key[i] == Padded(u, 8)[i];
      if i < |base| {
        assert Cut(base, 8)[i] == base[i] == name[i] && u[i] == u[i];
      }
    } else {
      assert key[i] == Padded(x, 3)[i - 8];
      if i - 8 < |ext| {
        assert Cut(ext, 3)[i - 8] == ext[i - 8] == name[|base| + 1 + (i - 8)] && x[i - 8] == x[i - 8];
      }
    }
  }

  lemma ShortIsFatName(name: seq<Byte>, base: seq<Byte>, ext: seq<Byte>, u: seq<Byte>, x: seq<Byte>, key: Name)
    requires Parts(name, base, ext) && IsShort(base, ext, u, x, key)
    ensures FatName(name) == key
  {
    forall i: nat | i < 11
      ensures FatName(name)[i] == key[i]
    {
      ByteOfName(name, base, ext, u, x, key, i);
    }
  }

  /** Every name has parts. */
  lemma PartsFound(name: seq<Byte>) returns (base: seq<Byte>, ext: seq<Byte>)
    ensures Parts(name, base, ext)
  {
    var i := IndexOf(name, DOT);
    IndexOfFirst(name, DOT);
    base := name[..i];
    if i == |name| {
      ext := [];
    } else {
      ext := if i == 11 then [] else name[i + 1..];
      assert name == base + [46] + name[i + 1..];
    }
  }

  function Upper(s: seq<Byte>): (u: seq<Byte>)
    ensures Capitals(s, u)
  {
    seq<Byte>(|s|, i requires 0 <= i < |s| => ToUpper(s[i]))
  }

  /** The name that `FindFile` looks up is the 8.3 form of the component, which is unique. */
  lemma ShortNameExactly(name: seq<Byte>, key: Name)
    ensures ShortName(name, key) <==> key == FatName(name)
  {
    if ShortName(name, key) {
      var base: seq<Byte>, ext: seq<Byte>, u: seq<Byte>, x: seq<Byte> :|
        Parts(name, base, ext) && IsShort(base, ext, u, x, key);
      ShortIsFatName(name, base, ext, u, x, key);
    }
    var base, ext := PartsFound(name);
    var u, x := Upper(Cut(base, 8)), Upper(Cut(ext, 3));
    var short: Name := Padded(u, 8) + Padded(x, 3);
    assert IsShort(base, ext, u, x, short);
    ShortIsFatName(name, base, ext, u, x, short);
  }
}
