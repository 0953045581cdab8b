/** The kernel's mapper. */
module KernelMemory {
  import opened Words
  import opened Heap
  import opened Ranges
  import opened Spaces
  import opened Runs
  import opened Machines

  /** `map_4k`: the translation becomes the flat map after `count` updates, no
      access faults, and `kmalloc` never fails on the way. */
  method Map4K(k: Machine, virt: Word, phys: Word, count: Word)
    requires k.Valid() && ReadyToMap(k.View(), virt, count)
    modifies k`ram, k`heap, k`shape
    ensures k.Valid() && MapsRun(old(k.View()), k.View(), virt, phys, count)
    ensures LeavesRun(old(k.View()), k.View(), virt, phys, 3, count)
  {
    ghost var s := k.View();
    MapsNothing(s, virt, phys);
    LeavesNothing(s, virt, phys, 3);
    var i := 0;
    while i < count
      invariant 0 <= i <= count
      invariant k.Valid() && MapsRun(s, k.View(), virt, phys, i) && LeavesRun(s, k.View(), virt, phys, 3, i)
    {
      MapNext(k, virt, phys, i, s, count);
      i := i + 1;
    }
  }

  /** One round of the loop. */
  method MapNext(k: Machine, virt: Word, phys: Word, i: nat, ghost s: Space, ghost count: nat)
    requires k.Valid() && ReadyToMap(s, virt, count) && i < count
    requires MapsRun(s, k.View(), virt, phys, i) && LeavesRun(s, k.View(), virt, phys, 3, i)
    modifies k`ram, k`heap, k`shape
    ensures k.Valid() && MapsRun(s, k.View(), virt, phys, i + 1) && LeavesRun(s, k.View(), virt, phys, 3, i + 1)
  {
    ghost var a, p := k.View(), PageAt(virt, i);
    var va := Truncate(Add64(virt, i * 4096), 4096);
    var pa := Truncate(Add64(phys, i * 4096), 4096);
    RunAddress(virt, i);
    RunAddress(phys, i);
    RoomForNext(s, a, virt, phys, i, count);
    k.MapPage(va, OrPresentRw(pa), p);
    MapsOneMore(s, a, k.View(), virt, phys, i, OrPresentRw(pa));
    RoundEntry(phys, i);
    LeavesOneMore(s, a, k.View(), virt, phys, 3, i, OrPresentRw(pa));
  }

  /** `unmap_4k`: the pages of the run become unmapped, holes are skipped, and no
      other page changes. */
  method Unmap4K(k: Machine, virt: Word, count: Word)
    requires k.Valid() && PagesFree(k.View(), virt, count)
    modifies k`ram
    ensures k.Valid() && UnmapsRun(old(k.View()), k.View(), virt, count)
    ensures LeavesGone(old(k.View()), k.View(), virt, count)
  {
    ghost var s := k.View();
    UnmapsNothing(s, virt);
    GoneNothing(s, virt);
    var i := 0;
    while i < count
      invariant 0 <= i <= count
      invariant k.Valid() && UnmapsRun(s, k.View(), virt, i) && LeavesGone(s, k.View(), virt, i)
    {
      var va := Truncate(Add64(virt, i * 4096), 4096);
      ghost var a := k.View();
      ghost var p := PageAt(virt, i);
      RunAddress(virt, i);
      assert s.Smooth(p, 0);
      k.UnmapPage(va, p);
      UnmapsOneMore(s, a, k.View(), virt, i);
      GoneOneMore(s, a, k.View(), virt, i);
      i := i + 1;
    }
  }
}
