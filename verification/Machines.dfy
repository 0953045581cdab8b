/** A running program: physical memory seen through its own page tables. */
module Machines {
  import opened Words
  import opened Memory
  import opened Paging
  import opened Trees
  import opened Updates
  import opened Windows
  import opened Heap
  import opened Spaces
  import opened LargeRuns
  import opened Bytes
  import opened ByteAccess

  /** The state of the bootloader or of the kernel while it manages its tables. */
  class Machine {
    var ram: Mem
    /** The frame of the PML4 in use. */
    var cr3: nat
    var heap: Heap
    /** `KERNEL_OFFSET`; zero in the bootloader. */
    var kernelOffset: Word
    /** The address of the static `pml4`. */
    var pml4: Word

    ghost var shape: Shape
    ghost var win: Window
    ghost var heapPhys: nat

    ghost function View(): Space
      reads this
    {
      Space(ram, cr3, shape, win, heap, heapPhys)
    }

    ghost predicate Valid()
      reads this
    {
      View().Valid() && kernelOffset == win.Offset() && pml4 == Pointer64(win, cr3)
    }

    /** The frame the processor reaches through a pointer to a table. */
    function Behind(table: Word): Option<nat>
      reads this
    {
      if Canonical(table) && table % 4096 == 0 then Translate(ram, cr3, PageOf(table)) else None
    }

    /** The access does not fault and hits frame `f` of RAM. */
    predicate Reaches(table: Word, f: nat)
      reads this
    {
      Behind(table) == Some(f) && f in ram
    }

    /** `(*table)[i]` */
    method Load(table: Word, i: nat, ghost f: nat) returns (w: Word)
      requires Reaches(table, f) && i < 512
      ensures w == Entry(ram, f, i)
    {
      w := ram[Behind(table).value][i];
    }

    /** `(*table)[i] = w` */
    method Store(table: Word, i: nat, w: Word, ghost f: nat)
      requires Reaches(table, f) && i < 512
      modifies this`ram
      ensures ram == SetEntry(old(ram), f, i, w)
    {
      var frame := Behind(table).value;
      ram := ram[frame := ram[frame][i := w]];
    }

    /** `memset(table, 0, 4096)` */
    method Clear(table: Word, ghost f: nat)
      requires Reaches(table, f)
      modifies this`ram
      ensures ram == old(ram)[f := ZeroTable()]
    {
      ram := ram[Behind(table).value := ZeroTable()];
    }

    /** `memcpy(to, from, 4096)` for two page-aligned addresses */
    method CopyFrame(to: Word, from: Word, ghost c: nat, ghost s: nat)
      requires Reaches(to, c) && Reaches(from, s)
      modifies this`ram
      ensures ram == old(ram)[c := old(ram)[s]]
    {
      ram := ram[Behind(to).value := ram[Behind(from).value]];
    }

    /** A store of one byte. */
    method StoreByte(va: Word, x: Byte, ghost f: nat)
      requires Canonical(va) && Translate(ram, cr3, PageOf(va)) == Some(f) && f in ram
      modifies this`ram
      ensures ram == SetPhysicalByte(old(ram), f * 4096 + va % 4096, x)
    {
      var frame := Translate(ram, cr3, PageOf(va)).value;
      QuotientRemainder(frame * 4096 + va % 4096, frame, 4096, va % 4096);
      ram := SetPhysicalByte(ram, frame * 4096 + va % 4096, x);
    }

    /** A load of one byte. */
    method LoadByte(va: Word, ghost f: nat) returns (x: Byte)
      requires Canonical(va) && Translate(ram, cr3, PageOf(va)) == Some(f) && f in ram
      ensures x == PhysicalByte(ram, f * 4096 + va % 4096)
    {
      var frame := Translate(ram, cr3, PageOf(va)).value;
      QuotientRemainder(frame * 4096 + va % 4096, frame, 4096, va % 4096);
      x := PhysicalByte(ram, frame * 4096 + va % 4096);
    }

    /** `load_cr3` on freshly built tables. */
    method Install(m: Mem, root: nat, address: Word, offset: Word, ghost s: Space)
      requires s.ram == m && s.root == root && s.heap == heap
      modifies this
      ensures View() == s && heap == old(heap) && pml4 == address && kernelOffset == offset
    {
      ram, cr3, pml4, kernelOffset := m, root, address, offset;
      shape, win, heapPhys := s.shape, s.win, s.phys;
    }

    method Kmalloc(size: Word, align: Align) returns (block: Word)
      modifies this`heap
      ensures heap == Allocate(old(heap), Request(size, align)).0
      ensures block == match Allocate(old(heap), Request(size, align)).1
                       case Some(a) => a
                       case None => 0
    {
      var current := Add64(heap.base, heap.offset);
      var aligned := Truncate(Add64(current, align - 1), align);
      var next := Add64(Sub64(aligned, heap.base), size);
      if next >= heap.size {
        return 0;
      }
      heap := heap.(offset := next);
      return aligned;
    }

    /** A pointer into the window reaches its frame. */
    lemma WindowReachable(f: nat)
      requires WellPlaced(win) && LinearlyMapped(ram, cr3, win) && win.lo <= f < win.hi
      ensures Reaches(Pointer64(win, f), f)
    {
      PointerValue(win, f);
      InWindow(ram, cr3, win, f);
    }

    /** `get_or_create_table` on the way down to page `p`, at the table `t` its walk
        passes. It never faults, hands back the address of the next table, creates
        one only when it is missing, and fails only when the heap is full. */
    method GetOrCreateTable(parent: Word, index: nat, ghost p: nat, ghost level: Level, ghost t: nat)
      returns (table: Word, ghost c: nat)
      requires Valid() && level > 0
      requires parent == Pointer64(win, t) && Passes(ram, cr3, p, level, t)
      requires index == Index(p, level)
      requires !(Present(Entry(ram, t, index)) && Large(Entry(ram, t, index)))
      modifies this`ram, this`heap, this`shape
      ensures Valid() && Grown(old(View()), View())
      ensures old(!Present(Entry(ram, t, index)) && !View().Room(1)) ==>
        table == 0 && View() == old(View())
      ensures old(Present(Entry(ram, t, index)) || View().Room(1)) ==>
        table == Pointer64(win, c) && Passes(ram, cr3, p, level - 1, c)
      ensures old(!Present(Entry(ram, t, index)) && View().Room(1)) ==>
        c == old(View().Free()) && View().Free() == c + 1
      ensures forall k: Level | k < level :: Paid(old(View()), View(), p, k)
    {
      PassesNode(ram, cr3, shape, p, level, t);
      WindowReachable(t);
      var w := Load(parent, index, t);
      if !Present(w) {
        table, c := CreateTable(parent, index, p, level, t);
      } else {
        c := FrameOf(w);
        FollowEntry(View(), p, level, t, w);
        table := Add64(w / 4096 * 4096, kernelOffset);
      }
    }

    /** The branch of `get_or_create_table` for a slot that is not present. */
    method CreateTable(parent: Word, index: nat, ghost p: nat, ghost level: Level, ghost t: nat)
      returns (table: Word, ghost c: nat)
      requires Valid() && level > 0
      requires parent == Pointer64(win, t) && Passes(ram, cr3, p, level, t)
      requires index == Index(p, level) && !Present(Entry(ram, t, index))
      modifies this`ram, this`heap, this`shape
      ensures Valid() && Grown(old(View()), View())
      ensures !old(View().Room(1)) ==> table == 0 && View() == old(View())
      ensures old(View().Room(1)) ==> table == Pointer64(win, c) && Passes(ram, cr3, p, level - 1, c)
      ensures old(View().Room(1)) ==> c == old(View().Free()) && View().Free() == c + 1
      ensures forall k: Level | k < level :: Paid(old(View()), View(), p, k)
    {
      ghost var s := View();
      c := s.Free();
      AllocateTable(heap, win, heapPhys);
      table := Kmalloc(4096, 4096);
      if table == 0 {
        GrownSame(s);
        return;
      }
      AttachTable(parent, index, table, s, p, level, t);
    }

    /** Clears a table just allocated in state `s` and hangs it into its slot. */
    method AttachTable(parent: Word, index: nat, table: Word, ghost s: Space, ghost p: nat, ghost level: Level,
                       ghost t: nat)
      requires s.Valid() && s.Room(1) && View() == s.(heap := Allocate(s.heap, TABLE).0)
      requires kernelOffset == win.Offset() && table == Pointer64(win, s.Free())
      requires level > 0 && parent == Pointer64(win, t) && Passes(s.ram, s.root, p, level, t)
      requires index == Index(p, level) && !Present(Entry(s.ram, t, index))
      modifies this`ram, this`shape
      ensures Grown(s, View()) && Passes(ram, cr3, p, level - 1, s.Free()) && View().Free() == s.Free() + 1
      ensures forall k: Level | k < level :: Paid(s, View(), p, k)
    {
      AttachReady(s, p, level, t);
      HangNewTable(parent, index, table, t, s.Free(), Node(level - 1, Region(p, level)));
      CreateKeeps(s, p, level, t, View());
    }

    /** The two upper steps of `map_4k` and `map_2m`: the page directory of page `p`. */
    method PageDirectory(va: Word, ghost p: nat) returns (pd: Word, ghost t: nat)
      requires Valid() && p == PageOf(va) && View().Smooth(p, 1) && View().Room(View().Missing(p, 1))
      modifies this`ram, this`heap, this`shape
      ensures Valid() && Grown(old(View()), View())
      ensures pd == Pointer64(win, t) && Passes(ram, cr3, p, 1, t)
      ensures Paid(old(View()), View(), p, 0) && Paid(old(View()), View(), p, 1)
    {
      IndicesOfAddress(va);
      SlotOnTheWay(View(), p, 3, cr3, 1);
      var pdpt, t2 := GetOrCreateTable(pml4, va / 0x80_0000_0000 % 512, p, 3, cr3);
      ghost var middle := View();
      SmoothKept(old(View()), middle, p, 1);
      RoomPaid(old(View()), middle, p, 1);
      SlotOnTheWay(middle, p, 2, t2, 1);
      pd, t := GetOrCreateTable(pdpt, va / 0x4000_0000 % 512, p, 2, t2);
      GrownTransitive(old(View()), middle, View());
      PaidTransitive(old(View()), middle, View(), p, 0);
      PaidTransitive(old(View()), middle, View(), p, 1);
    }

    /** One round of `map_4k`: three steps down, then the entry of page `p`. */
    method MapPage(va: Word, w: Word, ghost p: nat)
      requires Valid() && p == PageOf(va) && Present(w)
      requires View().Smooth(p, 0) && View().Room(View().Missing(p, 0)) && OutsideWindow(win, p)
      modifies this`ram, this`heap, this`shape
      ensures Valid() && PageSet(old(View()), View(), p, w)
      ensures View().Free() == old(View().Free() + View().Missing(p, 0))
    {
      IndicesOfAddress(va);
      var table, t := PageTableOf(va, p);
      SetPage(table, va / 0x1000 % 512, w, old(View()), p, t);
    }

    /** The last step of `map_4k`, after the page table has been found in state `s`. */
    method SetPage(table: Word, i: nat, w: Word, ghost s: Space, ghost p: nat, ghost t: nat)
      requires Valid() && Grown(s, View()) && OutsideWindow(win, p) && Present(w)
      requires table == Pointer64(win, t) && Passes(ram, cr3, p, 0, t) && i == Index(p, 0)
      modifies this`ram
      ensures Valid() && PageSet(s, View(), p, w) && heap == old(heap)
    {
      StoreEntry(table, i, w, p, 0, t);
      GrownThenSet(s, old(View()), View(), p, t, w);
    }

    /** One round of `map_2m`: two steps down, then the entry of the block of `p`. */
    method MapBlock(va: Word, w: Word, ghost p: nat)
      requires Valid() && p == PageOf(va) && Present(w) && Large(w)
      requires View().Smooth(p, 1) && View().Room(View().Missing(p, 1))
      requires forall q: nat | q < PAGES && Region(q, 1) == Region(p, 1) :: OutsideWindow(win, q)
      modifies this`ram, this`heap, this`shape
      ensures Valid() && BlockSet(old(View()), View(), p, w)
      ensures View().Free() == old(View().Free() + View().Missing(p, 1))
    {
      IndicesOfAddress(va);
      var table, t := PageDirectory(va, p);
      NothingMissing(View(), p, 1, t);
      SetBlock(table, va / 0x20_0000 % 512, w, old(View()), p, t);
    }

    /** The last step of `map_2m`, after the page directory has been found in state `s`. */
    method SetBlock(table: Word, i: nat, w: Word, ghost s: Space, ghost p: nat, ghost t: nat)
      requires Valid() && Grown(s, View()) && Present(w) && Large(w)
      requires forall q: nat | q < PAGES && Region(q, 1) == Region(p, 1) :: OutsideWindow(win, q)
      requires table == Pointer64(win, t) && Passes(ram, cr3, p, 1, t) && i == Index(p, 1)
      modifies this`ram
      ensures Valid() && BlockSet(s, View(), p, w) && heap == old(heap)
    {
      StoreEntry(table, i, w, p, 1, t);
      GrownThenBlock(s, old(View()), View(), p, t, w);
    }

    /** A store into the table `t` that the walk of page `p` passes. */
    method StoreEntry(table: Word, i: nat, w: Word, ghost p: nat, ghost level: Level, ghost t: nat)
      requires Valid() && table == Pointer64(win, t) && Passes(ram, cr3, p, level, t) && i < 512
      modifies this`ram
      ensures t in old(ram) && View() == Write(old(View()), i, t, w)
    {
      PassesNode(ram, cr3, shape, p, level, t);
      WindowReachable(t);
      Store(table, i, w, t);
    }

    method PageTableOf(va: Word, ghost p: nat) returns (table: Word, ghost t: nat)
      requires Valid() && p == PageOf(va)
      requires View().Smooth(p, 0) && View().Room(View().Missing(p, 0))
      modifies this`ram, this`heap, this`shape
      ensures Valid() && Grown(old(View()), View())
      ensures table == Pointer64(win, t) && Passes(ram, cr3, p, 0, t)
      ensures View().Free() == old(View().Free() + View().Missing(p, 0))
    {
      IndicesOfAddress(va);
      var pd, t1 := PageDirectory(va, p);
      ghost var s := View();
      SmoothKept(old(View()), s, p, 0);
      RoomPaid(old(View()), s, p, 0);
      SlotOnTheWay(s, p, 1, t1, 0);
      table, t := GetOrCreateTable(pd, va / 0x20_0000 % 512, p, 1, t1);
      GrownTransitive(old(View()), s, View());
      PaidTransitive(old(View()), s, View(), p, 0);
      NothingMissing(View(), p, 0, t);
    }

    /** `get_table_if_exists` on the way down to page `p`: null exactly for a hole. */
    method GetTableIfExists(parent: Word, index: nat, ghost p: nat, ghost level: Level, ghost t: nat)
      returns (table: Word, ghost c: nat)
      requires Valid() && level > 0 && View().Smooth(p, 0)
      requires parent == Pointer64(win, t) && Passes(ram, cr3, p, level, t)
      requires index == Index(p, level)
      ensures table == 0 <==> View().Walked(p) == Hole(level, t)
      ensures table != 0 ==> table == Pointer64(win, c) && Passes(ram, cr3, p, level - 1, c)
    {
      PassesNode(ram, cr3, shape, p, level, t);
      SlotOnTheWay(View(), p, level, t, 0);
      WindowReachable(t);
      var w := Load(parent, index, t);
      if !Present(w) {
        return 0, 0;
      }
      c := FrameOf(w);
      FollowEntry(View(), p, level, t, w);
      TableNotNull(View(), p, level - 1, c);
      table := Add64(w / 4096 * 4096, kernelOffset);
    }

    /** One round of `unmap_4k`. */
    method UnmapPage(va: Word, ghost p: nat)
      requires Valid() && p == PageOf(va) && View().Smooth(p, 0) && OutsideWindow(win, p)
      modifies this`ram
      ensures Valid() && PageCleared(old(View()), View(), p)
    {
      IndicesOfAddress(va);
      KeptSame(View());
      var pdpt, t2 := GetTableIfExists(pml4, va / 0x80_0000_0000 % 512, p, 3, cr3);
      if pdpt == 0 {
        return;
      }
      var pd, t1 := GetTableIfExists(pdpt, va / 0x4000_0000 % 512, p, 2, t2);
      if pd == 0 {
        return;
      }
      var pt, t0 := GetTableIfExists(pd, va / 0x20_0000 % 512, p, 1, t1);
      if pt == 0 {
        return;
      }
      StoreEntry(pt, va / 0x1000 % 512, 0, p, 0, t0);
      ClearPage(old(View()), View(), p, t0);
    }

    /** `((uint64_t)table - KERNEL_OFFSET) | PAGE_PRESENT | PAGE_RW` */
    method EntryFor(table: Word, ghost f: nat) returns (w: Word)
      requires kernelOffset == win.Offset() && table == Pointer64(win, f) && f < PAGES
      ensures w == f * 4096 + 3
    {
      NewEntry(win, f);
      w := OrPresentRw(Sub64(table, kernelOffset));
    }

    /** Clears the new table and stores its physical address in the parent. */
    method HangNewTable(parent: Word, index: nat, table: Word, ghost t: nat, ghost c: nat, ghost node: Node)
      requires WellPlaced(win) && kernelOffset == win.Offset() && index < 512
      requires LinearlyMapped(ram, cr3, win) && LinearlyMapped(ram[c := ZeroTable()], cr3, win)
      requires win.lo <= t < win.hi && win.lo <= c < win.hi && t in ram && c in ram
      requires parent == Pointer64(win, t) && table == Pointer64(win, c)
      modifies this`ram, this`shape
      ensures ram == SetEntry(old(ram)[c := ZeroTable()], t, index, c * 4096 + 3)
      ensures shape == old(shape)[c := node]
    {
      WindowReachable(c);
      Clear(table, c);
      WindowReachable(t);
      var w := EntryFor(table, c);
      Store(parent, index, w, t);
      shape := shape[c := node];
    }
  }
}
