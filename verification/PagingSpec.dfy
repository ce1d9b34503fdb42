/**
 Two-level 32-bit page tables, the free-frame stack and directory cloning (paging.c) as functions
 of a state.  Tables live at page-aligned addresses handed out by the early kernel allocator and
 may be shared between directories.
 */
module PagingSpec {
  import opened Words

  const PAGE: nat := 0x1000
  const SLOTS: nat := 1024

  /** A page-aligned address with flag bits in its low twelve bits; zero as a whole means absent. */
  datatype Entry = Entry(frame: nat, flags: bv12)

  const EMPTY := Entry(0, 0)

  /** A table or a directory: 1024 entries. */
  type Slots = seq<Entry>

  function NoSlots(): (s: Slots)
    ensures |s| == SLOTS && forall i | 0 <= i < SLOTS :: s[i] == EMPTY
  {
    seq(SLOTS, i => EMPTY)
  }

  /** A page table and (as bookkeeping of the model) the directory index it was made for. */
  datatype Table = Table(slots: Slots, home: nat)

  /** Tables by address, directories, the frame stack with its top at the end, and the early allocator. */
  datatype State = State(tables: map<nat, Table>, dirs: seq<Slots>, stack: seq<nat>, placement: nat)

  // ---- Address split ----

  function Low(address: nat): (i: nat)
    requires address < WORD
    ensures i < SLOTS
  {
    address / 0x40_0000
  }

  function High(address: nat): (i: nat)
    ensures i < SLOTS
  {
    address / PAGE % SLOTS
  }

  predicate SamePage(a: nat, b: nat) { a / PAGE == b / PAGE }

  /**
   An address is its directory index in units of 4 MiB, its table index in units of a page and its
   offset, which determines all three.
   */
  lemma SplitAddress(address: nat)
    requires address < WORD
    ensures address == Low(address) * 0x40_0000 + High(address) * PAGE + address % PAGE
  {
    assert address == address / PAGE * PAGE + address % PAGE;
    assert address / PAGE == address / 0x40_0000 * SLOTS + High(address);
  }

  /** The two indices name exactly the page. */
  lemma SplitIsPage(a: nat, b: nat)
    requires a < WORD && b < WORD
    ensures Low(a) == Low(b) && High(a) == High(b) <==> SamePage(a, b)
  {
    assert Low(a) == a / PAGE / SLOTS && Low(b) == b / PAGE / SLOTS;
  }

  // ---- Early allocator ----

  function AlignUp(p: nat): (r: nat)
    ensures r % PAGE == 0 && p <= r < p + PAGE
  {
    if p % PAGE == 0 then p else p - p % PAGE + PAGE
  }

  /** Page-aligned part of an address. */
  function PageBase(address: nat): (r: nat)
    ensures r % PAGE == 0 && r <= address < r + PAGE
    ensures address % PAGE == 0 ==> r == address
  {
    address - address % PAGE
  }

  /** kmalloc_e: address of the block and the new placement. */
  function KmallocE(placement: nat, size: nat, align: bool): (nat, nat) {
    var at := if align then AlignUp(placement) else placement;
    (at, at + size)
  }

  // ---- Operations ----

  /** Table pointers are null or point to tables below the allocator's mark. */
  ghost predicate Shape(m: State) {
    && m.placement > 0
    && (forall t | t in m.tables :: 0 < t && t % PAGE == 0 && t + PAGE <= m.placement && |m.tables[t].slots| == SLOTS)
    && (forall d | 0 <= d < |m.dirs| :: |m.dirs[d]| == SLOTS)
    && (forall d, i | 0 <= d < |m.dirs| && 0 <= i < SLOTS ::
          if m.dirs[d][i].frame == 0 then m.dirs[d][i] == EMPTY
          else m.dirs[d][i].frame in m.tables && m.tables[m.dirs[d][i].frame].home == i)
  }

  /** get_page: the raw entry of an address, empty if its table is absent. */
  ghost function GetPage(m: State, d: nat, address: nat): Entry
    requires Shape(m) && d < |m.dirs| && address < WORD
  {
    var slot := m.dirs[d][Low(address)];
    if slot.frame == 0 then EMPTY else m.tables[slot.frame].slots[High(address)]
  }

  /** First step of map_page: a directory slot without a table gets a zeroed one. */
  ghost function WithTable(m: State, d: nat, address: nat): State
    requires Shape(m) && d < |m.dirs| && address < WORD
  {
    if m.dirs[d][Low(address)] != EMPTY then m
    else
      var (at, placement) := KmallocE(m.placement, PAGE, true);
      m.(tables := m.tables[at := Table(NoSlots(), Low(address))],
         dirs := m.dirs[d := m.dirs[d][Low(address) := Entry(at, 0)]],
         placement := placement)
  }

  /** What a mapping makes of an entry, given the frame on top of the stack. */
  function Mapped(e: Entry, top: nat, perm: bv12): Entry {
    if e == EMPTY then Entry(top, perm) else Entry(e.frame, e.flags | perm)
  }

  function TopOf(stack: seq<nat>): nat {
    if stack == [] then 0 else stack[|stack| - 1]
  }

  function Top(m: State): nat { TopOf(m.stack) }

  function Popped(stack: seq<nat>): seq<nat> {
    if stack == [] then [] else stack[..|stack| - 1]
  }

  /** Second step: an empty entry takes the top frame, then the permissions are set. */
  ghost function FillEntry(m: State, d: nat, address: nat, perm: bv12): State
    requires Shape(m) && d < |m.dirs| && address < WORD && m.dirs[d][Low(address)].frame != 0
    requires GetPage(m, d, address) == EMPTY ==> |m.stack| > 0
  {
    var low, high, t := Low(address), High(address), m.dirs[d][Low(address)].frame;
    var slots := m.tables[t].slots;
    m.(tables := m.tables[t := m.tables[t].(slots := slots[high := Mapped(slots[high], Top(m), perm)])],
       dirs := m.dirs[d := m.dirs[d][low := Entry(t, perm)]],
       stack := if slots[high] == EMPTY then Popped(m.stack) else m.stack)
  }

  /** A mapping needs a frame unless the address already has one; without any left the kernel panics. */
  ghost predicate CanMap(m: State, d: nat, address: nat)
    requires Shape(m) && d < |m.dirs| && address < WORD
  {
    GetPage(m, d, address) != EMPTY || |m.stack| > 0
  }

  ghost function MapPage(m: State, d: nat, address: nat, perm: bv12): (n: State)
    requires Shape(m) && d < |m.dirs| && address < WORD && CanMap(m, d, address)
    ensures Shape(n) && |n.dirs| == |m.dirs|
  {
    WithTableKeeps(m, d, address);
    FillEntryKeeps(WithTable(m, d, address), d, address, perm);
    FillEntry(WithTable(m, d, address), d, address, perm)
  }

  /** clone_page_dir: a new directory with the same table pointers. */
  function Clone(m: State, d: nat): State
    requires d < |m.dirs|
  {
    m.(dirs := m.dirs + [m.dirs[d]], placement := KmallocE(m.placement, 0x2004, true).1)
  }

  // ---- Shape ----

  lemma WithTableKeeps(m: State, d: nat, address: nat)
    requires d < |m.dirs| && address < WORD && Shape(m)
    ensures var n := WithTable(m, d, address);
            && Shape(n) && |n.dirs| == |m.dirs| && n.stack == m.stack
            && n.dirs[d][Low(address)].frame != 0
            && (forall e, b | 0 <= e < |m.dirs| && 0 <= b < WORD :: GetPage(n, e, b) == GetPage(m, e, b))
  {
    var n := WithTable(m, d, address);
    forall e, b | 0 <= e < |m.dirs| && 0 <= b < WORD ensures GetPage(n, e, b) == GetPage(m, e, b) {
      var slot := m.dirs[e][Low(b)];
      assert slot.frame != 0 ==> slot.frame in m.tables;
    }
  }

  lemma FillEntryKeeps(m: State, d: nat, address: nat, perm: bv12)
    requires d < |m.dirs| && address < WORD && Shape(m) && m.dirs[d][Low(address)].frame != 0
    requires GetPage(m, d, address) == EMPTY ==> |m.stack| > 0
    ensures Shape(FillEntry(m, d, address, perm)) && |FillEntry(m, d, address, perm).dirs| == |m.dirs|
  {}

  /** Two early blocks never overlap, whether aligned or not, and none is longer than asked. */
  lemma EarlyBlocksDisjoint(placement: nat, size: nat, align: bool, size': nat, align': bool)
    ensures var (at, next) := KmallocE(placement, size, align);
            var (at', next') := KmallocE(next, size', align');
            && placement <= at && next == at + size <= at' && next' == at' + size'
            && (align ==> at % PAGE == 0 && at < placement + PAGE) && (!align ==> at == placement)
  {}

  /** Do two directories hold the same table for an address? */
  ghost predicate Share(m: State, d: nat, e: nat, address: nat)
    requires Shape(m) && d < |m.dirs| && e < |m.dirs| && address < WORD
  {
    m.dirs[d][Low(address)].frame == m.dirs[e][Low(address)].frame != 0
  }

  lemma FillEntryFlat(m: State, d: nat, address: nat, perm: bv12, e: nat, b: nat)
    requires Shape(m) && d < |m.dirs| && address < WORD && m.dirs[d][Low(address)].frame != 0
    requires GetPage(m, d, address) == EMPTY ==> |m.stack| > 0
    requires e < |m.dirs| && b < WORD
    ensures var n := FillEntry(m, d, address, perm);
            && Shape(n) && |n.dirs| == |m.dirs|
            && (Share(n, d, e, b) <==> Share(m, d, e, b))
            && GetPage(n, e, b) ==
               (if SamePage(address, b) && Share(m, d, e, b)
                then Mapped(GetPage(m, d, address), Top(m), perm) else GetPage(m, e, b))
  {
    FillEntryKeeps(m, d, address, perm);
    SplitIsPage(address, b);
    FillEntryPointers(m, d, address, perm, e, b);
    FillEntryPointers(m, d, address, perm, d, b);
  }

  lemma FillEntryPointers(m: State, d: nat, address: nat, perm: bv12, e: nat, b: nat)
    requires Shape(m) && d < |m.dirs| && address < WORD && m.dirs[d][Low(address)].frame != 0
    requires GetPage(m, d, address) == EMPTY ==> |m.stack| > 0
    requires e < |m.dirs| && b < WORD
    ensures FillEntry(m, d, address, perm).dirs[e][Low(b)].frame == m.dirs[e][Low(b)].frame
  {}

  /**
   The flat view of a mapping: in every directory, exactly the entries of that page reached through
   the same table change; an existing frame is kept, a missing one is the top of the stack.
   */
  lemma MapPageFlat(m: State, d: nat, address: nat, perm: bv12, e: nat, b: nat)
    requires Shape(m) && d < |m.dirs| && address < WORD && CanMap(m, d, address)
    requires e < |m.dirs| && b < WORD
    ensures var n := MapPage(m, d, address, perm);
            && GetPage(n, e, b) ==
               (if SamePage(address, b) && Share(n, d, e, b)
                then Mapped(GetPage(m, d, address), Top(m), perm) else GetPage(m, e, b))
            && n.stack == (if GetPage(m, d, address) == EMPTY then m.stack[..|m.stack| - 1] else m.stack)
  {
    WithTableKeeps(m, d, address);
    var w := WithTable(m, d, address);
    assert GetPage(w, e, b) == GetPage(m, e, b) && GetPage(w, d, address) == GetPage(m, d, address);
    FillEntryFlat(w, d, address, perm, e, b);
  }

  /**
   What a mapping does to the directories: the slot of the address's 4 MiB holds a table with the
   permissions, a table that was there stays, and every other slot is as before.
   */
  lemma MapPageDirs(m: State, d: nat, address: nat, perm: bv12, e: nat, i: nat)
    requires Shape(m) && d < |m.dirs| && address < WORD && CanMap(m, d, address) && e < |m.dirs| && i < SLOTS
    ensures var n, at := MapPage(m, d, address, perm), address / 0x40_0000;
            && at < SLOTS && n.dirs[d][at].frame != 0 && n.dirs[d][at].flags == perm
            && (m.dirs[d][at].frame != 0 ==> n.dirs[d][at].frame == m.dirs[d][at].frame)
            && ((e, i) != (d, at) ==> n.dirs[e][i] == m.dirs[e][i])
  {
    SplitAddress(address);
    WithTableKeeps(m, d, address);
  }

  /** Addresses use one table if and only if they lie in the same 4 MiB. */
  lemma SameTableIff(m: State, d: nat, a: nat, b: nat)
    requires Shape(m) && d < |m.dirs| && a < WORD && b < WORD && m.dirs[d][Low(a)].frame != 0
    ensures m.dirs[d][Low(a)].frame == m.dirs[d][Low(b)].frame <==> a / 0x40_0000 == b / 0x40_0000
  {
    SplitAddress(a);
    SplitAddress(b);
  }

  /** The entry of a mapped page: the frame it had or the one on top, and its old permissions with the new ones. */
  lemma MapPageEntry(m: State, d: nat, address: nat, perm: bv12)
    requires Shape(m) && d < |m.dirs| && address < WORD && CanMap(m, d, address)
    ensures var e, e' := GetPage(m, d, address), GetPage(MapPage(m, d, address, perm), d, address);
            && e'.flags == e.flags | perm
            && e'.frame == if e == EMPTY then m.stack[|m.stack| - 1] else e.frame
  {
    MapPageDirs(m, d, address, perm, d, 0);
    MapPageFlat(m, d, address, perm, d, address);
    SplitAddress(address);
    MappedBits(GetPage(m, d, address), Top(m), perm);
  }

  lemma MappedBits(e: Entry, top: nat, perm: bv12)
    ensures Mapped(e, top, perm) == Entry(if e == EMPTY then top else e.frame, e.flags | perm)
  {
    if e == EMPTY { OrZero(e.flags, perm); }
  }

  lemma OrZero(x: bv12, y: bv12)
    requires x == 0
    ensures x | y == y
  {}
}
