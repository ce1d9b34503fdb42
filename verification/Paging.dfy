/**
 The paging code as it runs: the frame stack is an array with a pointer, tables and directories are
 written in place.
 */
module Paging {
  import opened Words
  import opened PagingSpec
  import opened PageRanges
  import opened Sequences

  class Mmu {
    var pageStack: array<nat>
    var pagePtr: nat
    var tables: map<nat, Table>
    var dirs: seq<Slots>
    var placement: nat

    ghost function Abs(): State
      requires pagePtr <= pageStack.Length
      reads this, pageStack
    {
      State(tables, dirs, pageStack[..pagePtr], placement)
    }

    ghost predicate Valid()
      reads this, pageStack
    {
      pagePtr <= pageStack.Length && Shape(Abs())
    }

    /** kmalloc_e. */
    method KmallocE(size: nat, align: bool) returns (addr: nat)
      modifies this`placement
      ensures (addr, placement) == PagingSpec.KmallocE(old(placement), size, align)
    {
      if align && placement % PAGE != 0 {
        placement := placement - placement % PAGE;
        placement := placement + PAGE;
      }
      addr := placement;
      placement := placement + size;
    }

    /** push_page; the stack array must have room. */
    method PushPage(address: nat)
      requires pagePtr < pageStack.Length
      modifies this`pagePtr, pageStack
      ensures pagePtr == old(pagePtr) + 1
      ensures pageStack[..pagePtr] == old(pageStack[..pagePtr]) + [PageBase(address)]
    {
      pageStack[pagePtr] := PageBase(address);
      pagePtr := pagePtr + 1;
    }

    /** pop_page; false where the kernel panics. */
    method PopPage() returns (ok: bool, frame: nat)
      requires pagePtr <= pageStack.Length
      modifies this`pagePtr
      ensures ok <==> old(pagePtr) > 0
      ensures ok ==> pagePtr == old(pagePtr) - 1 && frame == pageStack[pagePtr]
      ensures !ok ==> pagePtr == old(pagePtr)
    {
      if pagePtr > 0 {
        pagePtr := pagePtr - 1;
        return true, pageStack[pagePtr];
      }
      return false, 0;
    }

    /** The table part of map_page. */
    method EnsureTable(d: nat, address: nat)
      requires Valid() && d < |dirs| && address < WORD
      modifies this`tables, this`dirs, this`placement
      ensures Valid() && Abs() == WithTable(old(Abs()), d, address)
    {
      WithTableKeeps(Abs(), d, address);
      var low := Low(address);
      if dirs[d][low] == EMPTY {
        var at := KmallocE(PAGE, true);
        tables := tables[at := Table(NoSlots(), low)];
        dirs := dirs[d := dirs[d][low := Entry(at, 0)]];
      }
    }

    /** map_page; false where pop_page panics. */
    method MapPage(address: nat, perm: bv12, d: nat) returns (ok: bool)
      requires Valid() && d < |dirs| && address < WORD
      modifies this`tables, this`dirs, this`placement, this`pagePtr
      ensures Valid()
      ensures ok <==> CanMap(old(Abs()), d, address)
      ensures ok ==> Abs() == PagingSpec.MapPage(old(Abs()), d, address, perm)
    {
      ghost var m := Abs();
      WithTableKeeps(m, d, address);
      EnsureTable(d, address);
      ok := FillSlot(address, perm, d);
    }

    /** One entry: pop a frame if it is empty, then set the permission bits. */
    method FillEntryOf(slots: Slots, high: nat, perm: bv12) returns (ok: bool, filled: Slots)
      requires pagePtr <= pageStack.Length && high < |slots|
      modifies this`pagePtr
      ensures pagePtr <= pageStack.Length
      ensures ok <==> slots[high] != EMPTY || old(pagePtr) > 0
      ensures !ok ==> pagePtr == old(pagePtr)
      ensures ok ==> filled == slots[high := Mapped(slots[high], TopOf(old(pageStack[..pagePtr])), perm)]
      ensures ok ==> pageStack[..pagePtr] ==
                       if slots[high] == EMPTY then Popped(old(pageStack[..pagePtr])) else old(pageStack[..pagePtr])
    {
      filled := slots;
      if slots[high] == EMPTY {
        var frame;
        ok, frame := PopPage();
        if !ok { return; }
        filled := filled[high := Entry(frame, 0)];
      }
      assert 0 | perm == perm;
      filled := filled[high := Entry(filled[high].frame, filled[high].flags | perm)];
      ok := true;
    }

    /** The entry part of map_page. */
    method FillSlot(address: nat, perm: bv12, d: nat) returns (ok: bool)
      requires Valid() && d < |dirs| && address < WORD && dirs[d][Low(address)].frame != 0
      modifies this`tables, this`dirs, this`pagePtr
      ensures Valid()
      ensures ok <==> CanMap(old(Abs()), d, address)
      ensures ok ==> Abs() == FillEntry(old(Abs()), d, address, perm)
    {
      ghost var m := Abs();
      var low, high := Low(address), High(address);
      var t := dirs[d][low].frame;
      var slots;
      ok, slots := FillEntryOf(tables[t].slots, high, perm);
      if !ok { return; }
      FillEntryKeeps(m, d, address, perm);
      tables := tables[t := tables[t].(slots := slots)];
      dirs := dirs[d := dirs[d][low := Entry(t, perm)]];
    }

    /** map_pages: a loop over 32-bit addresses, on the ranges for which LoopEndsIff says it ends. */
    method MapPages(start: nat, end: nat, perm: bv12, d: nat) returns (ok: bool)
      requires Valid() && d < |dirs| && start < WORD && Ends(start, end)
      modifies this`tables, this`dirs, this`placement, this`pagePtr
      ensures Valid()
      ensures ok <==> PageRanges.MapPages(old(Abs()), d, start, end, perm).Some?
      ensures ok ==> PageRanges.MapPages(old(Abs()), d, start, end, perm) == Some(Abs())
    {
      var address: nat := start;
      ok := true;
      ghost var m := Abs();
      while address < end
        invariant Valid() && d < |dirs| && ok && m == Abs() && address < WORD && Ends(address, end)
        invariant PageRanges.MapPages(m, d, address, end, perm) == PageRanges.MapPages(old(Abs()), d, start, end, perm)
        decreases end - address
      {
        MapPagesStep(m, d, address, end, perm);
        ok := MapPage(address, perm, d);
        if !ok { return; }
        m := Abs();
        address := Next32(address);
      }
      MapPagesStep(m, d, address, end, perm);
    }

    /** get_page. */
    method GetPage(address: nat, d: nat) returns (e: Entry)
      requires Valid() && d < |dirs| && address < WORD
      ensures e == PagingSpec.GetPage(Abs(), d, address)
    {
      var low, high := Low(address), High(address);
      var t := dirs[d][low].frame;
      if t == 0 {
        return EMPTY;
      }
      e := tables[t].slots[high];
    }

    /** clone_page_dir: copy the 1024 table pointers one by one. */
    method ClonePageDir(d: nat) returns (c: nat)
      requires Valid() && d < |dirs|
      modifies this`dirs, this`placement
      ensures Abs() == Clone(old(Abs()), d) && c == |old(dirs)|
    {
      var _ := KmallocE(0x2004, true);
      var src, copy := dirs[d], NoSlots();
      for i := 0 to 1024
        invariant |copy| == SLOTS
        invariant forall j | 0 <= j < i :: copy[j] == src[j]
        invariant forall j | i <= j < SLOTS :: copy[j] == EMPTY
      {
        if src[i].frame != 0 {
          copy := copy[i := src[i]];
        } else {
          assert dirs[d][i] == EMPTY;
        }
      }
      assert copy == src;
      c := |dirs|;
      dirs := dirs + [copy];
    }

    /** The fill loop of init_paging from the memory size down, in 32-bit arithmetic. */
    method FillStack(memory: nat)
      requires memory % PAGE == 0 && memory < WORD - PAGE
      requires pagePtr == 0 && pageStack.Length >= |Fill(memory)|
      modifies this`pagePtr, pageStack
      ensures pagePtr <= pageStack.Length && pageStack[..pagePtr] == Fill(memory)
    {
      ghost var goal := Fill(memory);
      var i: nat := memory;
      while Next32(i) > 0
        invariant i < WORD && i % PAGE == 0
        invariant pagePtr + |Fill(i)| == |goal|
        invariant pageStack[..pagePtr] + Fill(i) == goal
        decreases |Fill(i)|
      {
        FillStep(i);
        ConcatAssoc(pageStack[..pagePtr], [i], Fill(Prev32(i)));
        PushPage(i);
        i := Prev32(i);
      }
      assert Fill(i) == [];
    }
  }
}
