/** Copying the ACPI root pointer: the client of `map_4k` and `unmap_4k`. */
module Acpi {
  import opened Bytes
  import opened Words
  import opened Memory
  import opened Ranges
  import opened Spaces
  import opened Runs
  import opened Machines
  import opened KernelMemory
  import opened ByteAccess

  const RSDP_SIZE: nat := 40      // sizeof(AcpiRsdp), padded to a multiple of eight

  /** The page behind the root pointer's, which `parseRSDP` does not map. */
  function NextPage(rsdp: Word): nat { rsdp / 4096 + 1 }

  /** The structure ends in the page it begins in. */
  predicate OnePage(rsdp: Word) { rsdp % 4096 + RSDP_SIZE <= 4096 }

  /** The next page happens to be mapped to RAM. */
  predicate NextMapped(s: Space, rsdp: Word) {
    s.Translated(NextPage(rsdp)).Some? && s.Translated(NextPage(rsdp)).value in s.ram
  }

  /** A 32-bit address of RAM. */
  predicate RsdpAddress(s: Space, rsdp: Word) { rsdp < 0x1_0000_0000 && rsdp / 4096 in s.ram }

  /** The processor can read a byte at this address. */
  predicate Readable(s: Space, va: nat) {
    && va < TWO64 && Canonical(va)
    && s.Translated(PageOf(va)).Some? && s.Translated(PageOf(va)).value in s.ram
  }

  lemma RsdpPage(rsdp: Word)
    requires rsdp < 0x1_0000_0000
    ensures PageAt(rsdp, 0) == PageOf(rsdp) == rsdp / 4096
  {
  }

  /** The page of byte `i`. */
  lemma PageOfByte(rsdp: Word, i: nat)
    requires rsdp < 0x1_0000_0000 && i < RSDP_SIZE
    ensures rsdp + i < TWO64 && Canonical(rsdp + i)
    ensures PageOf(rsdp + i) == if rsdp % 4096 + i < 4096 then rsdp / 4096 else NextPage(rsdp)
  {
    if rsdp % 4096 + i < 4096 {
      QuotientRemainder(rsdp + i, rsdp / 4096, 4096, rsdp % 4096 + i);
    } else {
      QuotientRemainder(rsdp + i, rsdp / 4096 + 1, 4096, rsdp % 4096 + i - 4096);
    }
    QuotientRemainder((rsdp + i) / 4096, 0, PAGES, (rsdp + i) / 4096);
  }

  /** Where the two pages lead in state `a`, in which the first one is mapped to itself. */
  ghost predicate FirstMapped(s: Space, a: Space, rsdp: Word) {
    && a.Translated(rsdp / 4096) == Some(rsdp / 4096)
    && a.Translated(NextPage(rsdp)) == s.Translated(NextPage(rsdp))
    && a.ram.Keys == s.ram.Keys
  }

  lemma PagesMapped(s: Space, a: Space, rsdp: Word)
    requires rsdp < 0x1_0000_0000 && MapsRun(s, a, rsdp, rsdp, 1)
    ensures FirstMapped(s, a, rsdp)
  {
    RsdpPage(rsdp);
    MappedAt(s, a, rsdp, rsdp, 1, NextPage(rsdp));
    MappedAt(s, a, rsdp, rsdp, 1, rsdp / 4096);
    OnePageMapped(rsdp, rsdp / 4096, s.Translated(rsdp / 4096));
    OnePageMapped(rsdp, NextPage(rsdp), s.Translated(NextPage(rsdp)));
  }

  lemma OnePageMapped(rsdp: Word, q: nat, before: Option<nat>)
    requires PageAt(rsdp, 0) == rsdp / 4096
    ensures Remapped(q, rsdp, rsdp, 1, before) == if q == rsdp / 4096 then Some(q) else before
  {
    assert Remapped(q, rsdp, rsdp, 0, before) == before;
  }

  predicate ByteReadable(a: Space, rsdp: Word, i: nat) { Readable(a, rsdp + i) }

  lemma ReadableByte(s: Space, a: Space, rsdp: Word, i: nat)
    requires RsdpAddress(s, rsdp) && FirstMapped(s, a, rsdp) && i < RSDP_SIZE
    ensures ByteReadable(a, rsdp, i) <==> rsdp % 4096 + i < 4096 || NextMapped(s, rsdp)
  {
    PageOfByte(rsdp, i);
  }

  /** The copy does not fault exactly if the structure lies in one page or the next page
      happens to be mapped, since only one page is mapped for it. */
  lemma NoFaultExactly(s: Space, a: Space, rsdp: Word)
    requires RsdpAddress(s, rsdp) && MapsRun(s, a, rsdp, rsdp, 1)
    ensures (forall i: nat {:trigger ByteReadable(a, rsdp, i)} | i < RSDP_SIZE :: ByteReadable(a, rsdp, i))
            <==> OnePage(rsdp) || NextMapped(s, rsdp)
  {
    PagesMapped(s, a, rsdp);
    forall i: nat | i < RSDP_SIZE
      ensures ByteReadable(a, rsdp, i) <==> rsdp % 4096 + i < 4096 || NextMapped(s, rsdp)
    {
      ReadableByte(s, a, rsdp, i);
    }
    assert ByteReadable(a, rsdp, RSDP_SIZE - 1) <==> OnePage(rsdp) || NextMapped(s, rsdp);
  }

  /** The copy reads no page table: the frames of the structure lie outside the window. */
  ghost predicate RsdpPlaced(s: Space, rsdp: Word) {
    && RsdpAddress(s, rsdp) && !(s.win.lo <= rsdp / 4096 < s.win.hi)
    && (OnePage(rsdp) || (NextMapped(s, rsdp) && !(s.win.lo <= s.Translated(NextPage(rsdp)).value < s.win.hi)))
  }

  /** The frame that holds byte `i`. */
  function ByteFrame(s: Space, rsdp: Word, i: nat): nat {
    if rsdp % 4096 + i < 4096 then rsdp / 4096
    else match s.Translated(NextPage(rsdp))
      case Some(f) => f
      case None => 0
  }

  /** The physical address of byte `i`. */
  function ByteAddress(s: Space, rsdp: Word, i: nat): nat { ByteFrame(s, rsdp, i) * 4096 + (rsdp + i) % 4096 }

  /** The first `n` bytes of the structure in physical memory. */
  function RsdpBytes(s: Space, rsdp: Word, n: nat): (bytes: seq<Byte>)
    ensures |bytes| == n && forall i: nat | i < n :: bytes[i] == PhysicalByte(s.ram, ByteAddress(s, rsdp, i))
  {
    seq<Byte>(n, i requires 0 <= i < n => PhysicalByte(s.ram, ByteAddress(s, rsdp, i)))
  }

  /** `n` bytes from a physical address on. */
  function PhysicalBytes(m: Mem, at: nat, n: nat): seq<Byte> {
    seq<Byte>(n, i requires 0 <= i < n => PhysicalByte(m, at + i))
  }

  /** Of a structure in one page these are the bytes at its own address, and no later state
      has other ones there. */
  lemma InPlace(s: Space, s': Space, rsdp: Word)
    requires s.Valid() && RsdpPlaced(s, rsdp) && OnePage(rsdp) && Kept(s, s')
    ensures RsdpBytes(s, rsdp, RSDP_SIZE) == PhysicalBytes(s'.ram, rsdp, RSDP_SIZE)
  {
    assert rsdp / 4096 !in s'.shape;
    forall i: nat | i < RSDP_SIZE
      ensures PhysicalByte(s'.ram, rsdp + i) == PhysicalByte(s.ram, ByteAddress(s, rsdp, i))
    {
      ByteInPlace(s, s', rsdp, i);
    }
  }

  lemma ByteInPlace(s: Space, s': Space, rsdp: Word, i: nat)
    requires rsdp % 4096 + i < 4096
    requires var f := rsdp / 4096; f in s.ram && f in s'.ram && s'.ram[f] == s.ram[f]
    ensures PhysicalByte(s'.ram, rsdp + i) == PhysicalByte(s.ram, ByteAddress(s, rsdp, i))
  {
    var f, k := rsdp / 4096, rsdp % 4096 + i;
    QuotientRemainder(rsdp + i, f, 4096, k);
    SameByte(s.ram, s'.ram, f, k);
  }

  /** Byte `i` is read through frame `f` as it was before the mapping. */
  ghost predicate ByteSeen(s: Space, a: Space, rsdp: Word, i: nat, f: nat) {
    && rsdp + i < TWO64 && Canonical(rsdp + i) && a.Translated(PageOf(rsdp + i)) == Some(f) && f in a.ram
    && PhysicalByte(a.ram, f * 4096 + (rsdp + i) % 4096) == PhysicalByte(s.ram, ByteAddress(s, rsdp, i))
  }

  lemma RsdpSeen(s: Space, a: Space, rsdp: Word, i: nat)
    requires RsdpPlaced(s, rsdp) && MapsRun(s, a, rsdp, rsdp, 1) && i < RSDP_SIZE
    ensures ByteSeen(s, a, rsdp, i, ByteFrame(s, rsdp, i))
  {
    PagesMapped(s, a, rsdp);
    FrameUntouched(s, a, rsdp, ByteFrame(s, rsdp, i));
    SeenThrough(s, a, rsdp, i, ByteFrame(s, rsdp, i));
  }

  lemma SeenThrough(s: Space, a: Space, rsdp: Word, i: nat, f: nat)
    requires RsdpAddress(s, rsdp) && FirstMapped(s, a, rsdp) && i < RSDP_SIZE
    requires OnePage(rsdp) || NextMapped(s, rsdp)
    requires f == ByteFrame(s, rsdp, i) && f in s.ram && f in a.ram && a.ram[f] == s.ram[f]
    ensures ByteSeen(s, a, rsdp, i, f)
  {
    PageSeen(s, a, rsdp, i);
    BytesAgree(s, a, rsdp, i, f);
  }

  lemma BytesAgree(s: Space, a: Space, rsdp: Word, i: nat, f: nat)
    requires f == ByteFrame(s, rsdp, i) && f in s.ram && f in a.ram && a.ram[f] == s.ram[f]
    ensures PhysicalByte(a.ram, f * 4096 + (rsdp + i) % 4096) == PhysicalByte(s.ram, ByteAddress(s, rsdp, i))
  {
    var k := (rsdp + i) % 4096;
    SameByte(s.ram, a.ram, f, k);
  }

  lemma PageSeen(s: Space, a: Space, rsdp: Word, i: nat)
    requires RsdpAddress(s, rsdp) && FirstMapped(s, a, rsdp) && i < RSDP_SIZE
    requires OnePage(rsdp) || NextMapped(s, rsdp)
    ensures rsdp + i < TWO64 && Canonical(rsdp + i)
    ensures a.Translated(PageOf(rsdp + i)) == Some(ByteFrame(s, rsdp, i))
  {
    PageOfByte(rsdp, i);
  }

  lemma FrameUntouched(s: Space, a: Space, rsdp: Word, f: nat)
    requires MapsRun(s, a, rsdp, rsdp, 1) && f in s.ram && !(s.win.lo <= f < s.win.hi)
    ensures f in a.ram && a.ram[f] == s.ram[f]
  {
    assert f !in a.shape;
  }

  /** The sandwich restores the translation exactly when the page was unmapped before. */
  lemma Restores(s: Space, a: Space, b: Space, rsdp: Word)
    requires MapsRun(s, a, rsdp, rsdp, 1) && UnmapsRun(a, b, rsdp, 1) && rsdp < 0x1_0000_0000
    ensures SameTranslation(s, b) <==> s.Translated(PageOf(rsdp)) == None
    ensures b.Translated(PageOf(rsdp)) == None
  {
    RsdpPage(rsdp);
    OneHole(s, rsdp);
    MapThenUnmap(s, a, b, rsdp, rsdp, 1);
    UnmappedAt(a, b, rsdp, 1, 0);
  }

  /** `parseRSDP`: the copy holds the bytes in physical memory, and the page is mapped
      no longer than that. */
  method ParseRsdp(k: Machine, rsdp: Word) returns (copy: seq<Byte>)
    requires k.Valid() && ReadyToMap(k.View(), rsdp, 1) && RsdpPlaced(k.View(), rsdp)
    modifies k`ram, k`heap, k`shape
    ensures k.Valid() && Kept(old(k.View()), k.View()) && copy == RsdpBytes(old(k.View()), rsdp, RSDP_SIZE)
    ensures SameTranslation(old(k.View()), k.View()) <==> old(k.View()).Translated(PageOf(rsdp)) == None
    ensures k.View().Translated(PageOf(rsdp)) == None
    ensures SameLeaves(old(k.View()), k.View()) <==> old(k.View()).Walked(PageOf(rsdp)).Hole?
  {
    ghost var s := k.View();
    Map4K(k, rsdp, rsdp, 1);
    ghost var a := k.View();
    forall i: nat | i < RSDP_SIZE
      ensures ByteSeen(s, a, rsdp, i, ByteFrame(s, rsdp, i))
    {
      RsdpSeen(s, a, rsdp, i);
    }
    copy := CopyRsdp(k, rsdp, s);
    StillReady(s, a, rsdp);
    Unmap4K(k, rsdp, 1);
    Restores(s, a, k.View(), rsdp);
    RsdpPage(rsdp);
    OneLeaf(s, rsdp);
    LeavesRestored(s, a, k.View(), rsdp, rsdp, 3, 1);
    KeptTransitive(s, a, k.View());
  }

  /** `memcpy(&_rsdp, RSDP, sizeof(AcpiRsdp))` */
  method CopyRsdp(k: Machine, rsdp: Word, ghost s: Space) returns (copy: seq<Byte>)
    requires forall i: nat {:trigger ByteFrame(s, rsdp, i)} | i < RSDP_SIZE ::
      ByteSeen(s, k.View(), rsdp, i, ByteFrame(s, rsdp, i))
    ensures copy == RsdpBytes(s, rsdp, RSDP_SIZE)
  {
    copy := [];
    for i := 0 to RSDP_SIZE
      invariant copy == RsdpBytes(s, rsdp, i)
    {
      ghost var f := ByteFrame(s, rsdp, i);
      var x := k.LoadByte(rsdp + i, f);
      OneByteMore(s, rsdp, i);
      copy := copy + [x];
    }
  }

  lemma OneByteMore(s: Space, rsdp: Word, n: nat)
    ensures RsdpBytes(s, rsdp, n + 1) == RsdpBytes(s, rsdp, n) + [PhysicalByte(s.ram, ByteAddress(s, rsdp, n))]
  {
  }

  lemma StillReady(s: Space, a: Space, rsdp: Word)
    requires ReadyToMap(s, rsdp, 1) && MapsRun(s, a, rsdp, rsdp, 1)
    ensures PagesFree(a, rsdp, 1)
  {
    assert s.Smooth(PageAt(rsdp, 0), 0);
  }
}
