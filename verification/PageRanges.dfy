/** Mapping a range of addresses, and the page arithmetic of booting. */
module PageRanges {
  import opened Words
  import opened PagingSpec
  import opened PagingRuns

  datatype Option<T> = None | Some(value: T)

  /** 32-bit step to the next page: past the top it wraps to the bottom. */
  function Next32(address: nat): (r: nat)
    requires address < WORD
    ensures r < WORD
  {
    if address + PAGE < WORD then address + PAGE else address + PAGE - WORD
  }

  /** 32-bit step to the page before: below 0 it wraps to the top. */
  function Prev32(address: nat): (r: nat)
    requires address < WORD
    ensures r < WORD
  {
    if address >= PAGE then address - PAGE else address + WORD - PAGE
  }

  // ---- When the range loop ends ----

  /** The loop address after n steps. */
  function Steps32(address: nat, n: nat): (r: nat)
    requires address < WORD
    ensures r < WORD
    decreases n
  {
    if n == 0 then address else Steps32(Next32(address), n - 1)
  }

  /** The end of the range is not above the last address the loop visits before it wraps. */
  predicate Ends(start: nat, end: nat) {
    start >= end || end <= WORD - PAGE + start % PAGE
  }

  lemma EndsStep(address: nat, end: nat)
    requires address < WORD && address < end && Ends(address, end)
    ensures address + PAGE < WORD && Next32(address) == address + PAGE && Ends(address + PAGE, end)
  {
    assert (address + PAGE) % PAGE == address % PAGE;
    assert address / PAGE <= 0xf_fffe;
  }

  lemma {:induction false} ReachesEnd(address: nat, end: nat) returns (n: nat)
    requires address < WORD && Ends(address, end)
    ensures Steps32(address, n) >= end
    decreases end - address
  {
    n := 0;
    if address < end {
      EndsStep(address, end);
      n := ReachesEnd(address + PAGE, end);
      n := n + 1;
    }
  }

  lemma {:induction false} NeverReachesEnd(address: nat, end: nat, n: nat)
    requires address < WORD && WORD - PAGE + address % PAGE < end
    ensures Steps32(address, n) < end
    decreases n
  {
    assert address / PAGE <= 0xf_ffff;
    if n > 0 {
      assert Next32(address) % PAGE == address % PAGE;
      NeverReachesEnd(Next32(address), end, n - 1);
    }
  }

  /**
   The address loop of map_pages, in 32-bit arithmetic, ends if and only if the range does not reach
   into the last step before the wrap.
   */
  lemma LoopEndsIff(start: nat, end: nat)
    requires start < WORD
    ensures (exists n: nat :: Steps32(start, n) >= end) <==> Ends(start, end)
  {
    if Ends(start, end) {
      var n := ReachesEnd(start, end);
      assert Steps32(start, n) >= end;
    } else {
      forall n: nat ensures Steps32(start, n) < end { NeverReachesEnd(start, end, n); }
    }
  }

  // ---- Mapping a list of addresses ----

  ghost predicate Addresses(addrs: seq<nat>) {
    forall i | 0 <= i < |addrs| :: addrs[i] < WORD
  }

  ghost predicate DistinctPages(addrs: seq<nat>) {
    forall i, j | 0 <= i < j < |addrs| :: !SamePage(addrs[i], addrs[j])
  }

  /** map_page on each address in turn; None where the kernel panics for lack of frames. */
  ghost function MapAll(m: State, d: nat, addrs: seq<nat>, perm: bv12): (r: Option<State>)
    requires Shape(m) && d < |m.dirs| && Addresses(addrs)
    ensures r.Some? ==> Shape(r.value) && |r.value.dirs| == |m.dirs|
    decreases |addrs|
  {
    if addrs == [] then Some(m)
    else if !CanMap(m, d, addrs[0]) then None
    else MapAll(MapPage(m, d, addrs[0], perm), d, addrs[1..], perm)
  }

  /** Addresses whose page has no frame. */
  ghost function Unmapped(m: State, d: nat, addrs: seq<nat>): nat
    requires Shape(m) && d < |m.dirs| && Addresses(addrs)
    decreases |addrs|
  {
    if addrs == [] then 0
    else (if GetPage(m, d, addrs[0]) == EMPTY then 1 else 0) + Unmapped(m, d, addrs[1..])
  }

  lemma {:induction false} UnmappedSame(m: State, k: State, d: nat, addrs: seq<nat>)
    requires Shape(m) && Shape(k) && d < |m.dirs| && d < |k.dirs| && Addresses(addrs)
    requires forall i | 0 <= i < |addrs| :: GetPage(k, d, addrs[i]) == GetPage(m, d, addrs[i])
    ensures Unmapped(k, d, addrs) == Unmapped(m, d, addrs)
    decreases |addrs|
  {
    if addrs != [] { UnmappedSame(m, k, d, addrs[1..]); }
  }

  /** A mapping leaves the entries of all other pages alone. */
  lemma OthersStay(m: State, d: nat, addrs: seq<nat>, perm: bv12)
    requires Shape(m) && d < |m.dirs| && addrs != [] && Addresses(addrs) && DistinctPages(addrs)
    requires CanMap(m, d, addrs[0])
    ensures var k, rest := MapPage(m, d, addrs[0], perm), addrs[1..];
            && DistinctPages(rest)
            && (forall i | 0 <= i < |rest| :: GetPage(k, d, rest[i]) == GetPage(m, d, rest[i]))
            && Unmapped(k, d, rest) == Unmapped(m, d, rest)
  {
    var k, rest := MapPage(m, d, addrs[0], perm), addrs[1..];
    forall i | 0 <= i < |rest| ensures GetPage(k, d, rest[i]) == GetPage(m, d, rest[i]) {
      assert rest[i] == addrs[i + 1] && !SamePage(addrs[0], addrs[i + 1]);
      MapPageFlat(m, d, addrs[0], perm, d, rest[i]);
    }
    UnmappedSame(m, k, d, rest);
  }

  lemma MapPageStack(m: State, d: nat, address: nat, perm: bv12)
    requires Shape(m) && d < |m.dirs| && address < WORD && CanMap(m, d, address)
    ensures MapPage(m, d, address, perm).stack == if GetPage(m, d, address) == EMPTY then Popped(m.stack) else m.stack
  {
    MapPageFlat(m, d, address, perm, d, address);
  }

  // ---- Frames a list takes ----

  /** The top u frames of a stack, and the frames below them. */
  function TopPart(stack: seq<nat>, u: nat): seq<nat>
    requires u <= |stack|
  {
    stack[|stack| - u..]
  }

  function Below(stack: seq<nat>, u: nat): seq<nat>
    requires u <= |stack|
  {
    stack[..|stack| - u]
  }

  lemma PopOne(stack: seq<nat>, u: nat)
    requires u < |stack|
    ensures Below(stack, u + 1) == Below(Popped(stack), u)
    ensures TopPart(stack, u + 1) == TopPart(Popped(stack), u) + [TopOf(stack)]
  {}

  /** Outcome r of a mapping that needs u frames of a stack: a panic for lack of them, or just those popped. */
  ghost predicate Pops(r: Option<State>, stack: seq<nat>, u: nat) {
    if u <= |stack| then r.Some? && r.value.stack == Below(stack, u) else r.None?
  }

  /**
   Mapping distinct pages runs out of frames if and only if more of them lack a frame than are on
   the stack; else it pops just those.
   */
  lemma {:induction false} MapAllFrames(m: State, d: nat, addrs: seq<nat>, perm: bv12)
    requires Shape(m) && d < |m.dirs| && Addresses(addrs) && DistinctPages(addrs)
    ensures Pops(MapAll(m, d, addrs, perm), m.stack, Unmapped(m, d, addrs))
    decreases |addrs|
  {
    if addrs != [] && CanMap(m, d, addrs[0]) {
      OthersStay(m, d, addrs, perm);
      MapPageStack(m, d, addrs[0], perm);
      MapAllFrames(MapPage(m, d, addrs[0], perm), d, addrs[1..], perm);
      var u := Unmapped(m, d, addrs[1..]);
      if GetPage(m, d, addrs[0]) == EMPTY && u < |m.stack| { PopOne(m.stack, u); }
    }
  }

  /** The mapping sets permission bits or does not take frame 0. */
  ghost predicate KeepsFrames(m: State, d: nat, addrs: seq<nat>, perm: bv12)
    requires Shape(m) && d < |m.dirs| && Addresses(addrs) && Unmapped(m, d, addrs) <= |m.stack|
  {
    perm != 0 || 0 !in TopPart(m.stack, Unmapped(m, d, addrs))
  }

  lemma KeepsFramesStep(m: State, d: nat, addrs: seq<nat>, perm: bv12)
    requires Shape(m) && d < |m.dirs| && addrs != [] && Addresses(addrs) && DistinctPages(addrs)
    requires Unmapped(m, d, addrs) <= |m.stack|
    ensures CanMap(m, d, addrs[0])
    ensures var k := MapPage(m, d, addrs[0], perm);
            && Unmapped(k, d, addrs[1..]) <= |k.stack|
            && (KeepsFrames(m, d, addrs, perm) <==> Fills(m, d, addrs[0], perm) && KeepsFrames(k, d, addrs[1..], perm))
  {
    OthersStay(m, d, addrs, perm);
    MapPageStack(m, d, addrs[0], perm);
    if GetPage(m, d, addrs[0]) == EMPTY { PopOne(m.stack, Unmapped(m, d, addrs[1..])); }
  }

  // ---- What a list maps ----

  predicate Touches(addrs: seq<nat>, b: nat) {
    exists i :: 0 <= i < |addrs| && SamePage(addrs[i], b)
  }

  lemma TouchesStep(addrs: seq<nat>, b: nat)
    requires addrs != []
    ensures Touches(addrs, b) <==> SamePage(addrs[0], b) || Touches(addrs[1..], b)
  {
    if Touches(addrs, b) && !SamePage(addrs[0], b) {
      var i :| 0 <= i < |addrs| && SamePage(addrs[i], b);
      assert addrs[1..][i - 1] == addrs[i];
    }
    if Touches(addrs[1..], b) {
      var i :| 0 <= i < |addrs[1..]| && SamePage(addrs[1..][i], b);
      assert addrs[i + 1] == addrs[1..][i];
    }
  }

  /** In outcome r the page of b is mapped iff it was, or the mapping touched it; a frame it had is kept. */
  ghost predicate MapsAt(m: State, d: nat, b: nat, touched: bool, r: Option<State>)
    requires Shape(m) && d < |m.dirs| && b < WORD
  {
    r.Some? ==>
      && Shape(r.value) && d < |r.value.dirs|
      && var e, e' := GetPage(m, d, b), GetPage(r.value, d, b);
      && (e' != EMPTY <==> e != EMPTY || touched)
      && (e != EMPTY ==> e'.frame == e.frame)
  }

  lemma {:induction false} MapAllExact(m: State, d: nat, addrs: seq<nat>, perm: bv12, b: nat)
    requires Shape(m) && d < |m.dirs| && Addresses(addrs) && DistinctPages(addrs) && b < WORD
    requires Unmapped(m, d, addrs) <= |m.stack| && KeepsFrames(m, d, addrs, perm)
    ensures MapsAt(m, d, b, Touches(addrs, b), MapAll(m, d, addrs, perm))
    decreases |addrs|
  {
    if addrs != [] {
      KeepsFramesStep(m, d, addrs, perm);
      OthersStay(m, d, addrs, perm);
      OneMapping(m, d, addrs[0], perm, b);
      MapAllExact(MapPage(m, d, addrs[0], perm), d, addrs[1..], perm, b);
      TouchesStep(addrs, b);
    }
  }

  lemma OneMapping(m: State, d: nat, a: nat, perm: bv12, b: nat)
    requires Shape(m) && d < |m.dirs| && a < WORD && b < WORD && CanMap(m, d, a)
    requires Fills(m, d, a, perm)
    ensures var k := MapPage(m, d, a, perm);
            && (GetPage(k, d, b) != EMPTY <==> GetPage(m, d, b) != EMPTY || SamePage(a, b))
            && (GetPage(m, d, b) != EMPTY ==> GetPage(k, d, b).frame == GetPage(m, d, b).frame)
            && (!SamePage(a, b) ==> GetPage(k, d, b) == GetPage(m, d, b))
            && (SamePage(a, b) ==> GetPage(k, d, b) == Mapped(GetPage(m, d, a), Top(m), perm))
  {
    MapPageFlat(m, d, a, perm, d, b);
    SplitIsPage(a, b);
    WithTableKeeps(m, d, a);
    var e := GetPage(m, d, a);
    if perm != 0 { OrKeepsBits(e.flags, perm); } else { assert e.flags | 0 == e.flags; }
  }

  // ---- Conservation ----

  /** Mapping a list is a run of single mappings, so everything that holds over runs holds for it. */
  lemma {:induction false} MapAllIsRun(m: State, d: nat, addrs: seq<nat>, perm: bv12) returns (ops: seq<Op>)
    requires Shape(m) && d < |m.dirs| && Addresses(addrs) && DistinctPages(addrs)
    requires Unmapped(m, d, addrs) <= |m.stack|
    ensures var r := MapAll(m, d, addrs, perm);
            r.Some? && IsRun(m, ops, r.value) && (AllFill(m, ops, r.value) <==> KeepsFrames(m, d, addrs, perm))
    decreases |addrs|
  {
    ops := [];
    if addrs != [] {
      KeepsFramesStep(m, d, addrs, perm);
      OthersStay(m, d, addrs, perm);
      var k := MapPage(m, d, addrs[0], perm);
      ops := MapAllIsRun(k, d, addrs[1..], perm);
      RunCons(m, Map(d, addrs[0], perm), k, ops, MapAll(k, d, addrs[1..], perm).value);
      ops := [Map(d, addrs[0], perm)] + ops;
    }
  }

  // ---- Ranges ----

  /** Turns of the loop: pages stepped over from start until end is reached. */
  function Turns(start: nat, end: nat): nat {
    if start >= end then 0 else (end - start + PAGE - 1) / PAGE
  }

  /** The addresses the loop visits. */
  function Range(start: nat, end: nat): (r: seq<nat>)
    ensures |r| == Turns(start, end) && forall i | 0 <= i < |r| :: r[i] == start + i * PAGE
  {
    seq(Turns(start, end), (i: nat) => start + i * PAGE)
  }

  lemma RangeGood(start: nat, end: nat)
    requires start < WORD && Ends(start, end)
    ensures Addresses(Range(start, end)) && DistinctPages(Range(start, end))
  {
    var r := Range(start, end);
    forall i | 0 <= i < |r| ensures r[i] < WORD && r[i] / PAGE == start / PAGE + i {
      assert i * PAGE <= end - start - 1;
    }
  }

  lemma RangeStep(address: nat, end: nat)
    requires address < WORD && Ends(address, end)
    ensures address >= end ==> Range(address, end) == []
    ensures address < end ==> && address < Next32(address) < WORD && Ends(Next32(address), end)
                              && Range(address, end) == [address] + Range(Next32(address), end)
  {
    if address < end {
      EndsStep(address, end);
      assert end - address + PAGE - 1 == (end - (address + PAGE) + PAGE - 1) + PAGE;
      assert Turns(address, end) == 1 + Turns(address + PAGE, end);
    }
  }

  /** map_pages on the ranges whose loop ends. */
  ghost function MapPages(m: State, d: nat, start: nat, end: nat, perm: bv12): (r: Option<State>)
    requires Shape(m) && d < |m.dirs| && start < WORD && Ends(start, end)
    ensures r.Some? ==> Shape(r.value) && |r.value.dirs| == |m.dirs|
  {
    RangeGood(start, end);
    MapAll(m, d, Range(start, end), perm)
  }

  /** One turn of the loop. */
  lemma MapPagesStep(m: State, d: nat, address: nat, end: nat, perm: bv12)
    requires Shape(m) && d < |m.dirs| && address < WORD && Ends(address, end)
    ensures address >= end ==> MapPages(m, d, address, end, perm) == Some(m)
    ensures address < end ==> address < Next32(address) < WORD && Ends(Next32(address), end)
    ensures address < end && !CanMap(m, d, address) ==> MapPages(m, d, address, end, perm).None?
    ensures address < end && CanMap(m, d, address) ==>
              MapPages(m, d, address, end, perm)
              == MapPages(MapPage(m, d, address, perm), d, Next32(address), end, perm)
  {
    RangeStep(address, end);
    RangeGood(address, end);
    if address < end {
      RangeGood(Next32(address), end);
      assert Range(address, end)[1..] == Range(Next32(address), end);
    }
  }

  /** Does the loop from start below end touch the page of b? */
  predicate Visited(start: nat, end: nat, b: nat) {
    b / PAGE >= start / PAGE && start + (b / PAGE - start / PAGE) * PAGE < end
  }

  lemma VisitedIsTouched(start: nat, end: nat, b: nat)
    requires start < WORD && Ends(start, end)
    ensures Visited(start, end, b) <==> Touches(Range(start, end), b)
  {
    var r := Range(start, end);
    assert forall i | 0 <= i < |r| :: r[i] / PAGE == start / PAGE + i;
    if Visited(start, end, b) {
      assert SamePage(r[b / PAGE - start / PAGE], b);
    }
  }

  /**
   A range mapping covers all its addresses if and only if the start is not further into its page
   than the last address.
   */
  lemma CoverageIff(start: nat, end: nat)
    requires start < end
    ensures (forall b | start <= b < end :: Visited(start, end, b)) <==> start % PAGE <= (end - 1) % PAGE
  {
    if start % PAGE > (end - 1) % PAGE {
      assert !Visited(start, end, end - 1);
    }
  }

  /** Frames map_pages needs. */
  ghost function Needed(m: State, d: nat, start: nat, end: nat): nat
    requires Shape(m) && d < |m.dirs| && start < WORD && Ends(start, end)
  {
    RangeGood(start, end);
    Unmapped(m, d, Range(start, end))
  }

  /** map_pages panics if and only if it needs more frames than there are; else exactly those leave the stack. */
  lemma MapPagesFrames(m: State, d: nat, start: nat, end: nat, perm: bv12)
    requires Shape(m) && d < |m.dirs| && start < WORD && Ends(start, end)
    ensures MapPages(m, d, start, end, perm).Some? <==> Needed(m, d, start, end) <= |m.stack|
    ensures MapPages(m, d, start, end, perm).Some? ==>
              MapPages(m, d, start, end, perm).value.stack == Below(m.stack, Needed(m, d, start, end))
  {
    RangeGood(start, end);
    MapAllFrames(m, d, Range(start, end), perm);
  }

  /**
   After a successful range mapping exactly the visited pages are mapped in addition to those
   mapped before, and no existing frame was replaced; without permission bits this needs that
   frame 0 is not among the frames taken.
   */
  lemma MapPagesExact(m: State, d: nat, start: nat, end: nat, perm: bv12, b: nat)
    requires Shape(m) && d < |m.dirs| && start < WORD && Ends(start, end) && b < WORD
    requires Needed(m, d, start, end) <= |m.stack|
    requires perm != 0 || 0 !in TopPart(m.stack, Needed(m, d, start, end))
    ensures MapPages(m, d, start, end, perm).Some?
    ensures var k := MapPages(m, d, start, end, perm).value;
            && (GetPage(k, d, b) != EMPTY <==> GetPage(m, d, b) != EMPTY || Visited(start, end, b))
            && (GetPage(m, d, b) != EMPTY ==> GetPage(k, d, b).frame == GetPage(m, d, b).frame)
  {
    RangeGood(start, end);
    MapAllFrames(m, d, Range(start, end), perm);
    MapAllExact(m, d, Range(start, end), perm, b);
    VisitedIsTouched(start, end, b);
  }

  /** A range mapping conserves frames if and only if it sets permission bits or frame 0 is not among those it takes. */
  lemma MapPagesConserves(m: State, d: nat, start: nat, end: nat, perm: bv12, pool: set<nat>)
    requires Shape(m) && d < |m.dirs| && start < WORD && Ends(start, end)
    requires Conserved(m, pool) && Needed(m, d, start, end) <= |m.stack|
    ensures MapPages(m, d, start, end, perm).Some?
    ensures Conserved(MapPages(m, d, start, end, perm).value, pool) <==>
              perm != 0 || 0 !in TopPart(m.stack, Needed(m, d, start, end))
  {
    RangeGood(start, end);
    var ops := MapAllIsRun(m, d, Range(start, end), perm);
    RunConserves(m, ops, MapPages(m, d, start, end, perm).value, pool);
  }

  // ---- Booting ----

  /** The fill loop of init_paging in 32-bit arithmetic: push i, step a page down, stop when i + PAGE wraps to 0. */
  function Fill(i: nat): seq<nat>
    requires i < WORD && i % PAGE == 0
    decreases if i == WORD - PAGE then 0 else i + 1
  {
    if Next32(i) == 0 then [] else [i] + Fill(Prev32(i))
  }

  lemma FillStep(i: nat)
    requires i < WORD && i % PAGE == 0 && Next32(i) > 0
    ensures var next := Prev32(i);
            && next % PAGE == 0 && Fill(i) == [i] + Fill(next) && |Fill(i)| == 1 + |Fill(next)|
            && (next == WORD - PAGE || next < i)
  {
    assert i == 0 || i >= PAGE;
  }

  /** The stack holds frames k..n, the lowest on top. */
  ghost predicate Descending(stack: seq<nat>, n: nat, k: nat) {
    && |stack| == n + 1 - k
    && forall i | 0 <= i < |stack| :: stack[i] == (n - i) * PAGE
  }

  lemma {:induction false} FillExact(n: nat)
    requires n * PAGE < WORD - PAGE
    ensures Descending(Fill(n * PAGE), n, 0)
  {
    FillStep(n * PAGE);
    if n == 0 {
      assert Fill(WORD - PAGE) == [];
    } else {
      FillExact(n - 1);
      assert Prev32(n * PAGE) == (n - 1) * PAGE;
    }
  }

  /** Frames in a memory of q units of 4 MiB; init_paging rounds the memory size down to such units. */
  function NPages(q: nat): nat { q * 1024 }

  /** The block init_paging takes for the stack: one byte after npages entries. */
  function StackBlock(placement: nat, npages: nat): (nat, nat) { KmallocE(placement, npages * 4 + 1, true) }

  /**
   For memory below 4 GiB the fill loop, started at the memory size, ends by wrap-around after exactly
   npages + 1 pushes, and all of them lie below the next page-aligned block of the early allocator.
   */
  lemma BootPushes(q: nat, placement: nat)
    requires q < 1024
    ensures q * 0x1000 * 1024 == NPages(q) * PAGE < WORD - PAGE
    ensures |Fill(NPages(q) * PAGE)| == NPages(q) + 1
    ensures StackBlock(placement, NPages(q)).0 + 4 * (NPages(q) + 1)
            <= KmallocE(StackBlock(placement, NPages(q)).1, PAGE, true).0
  {
    FillExact(NPages(q));
    StackFits(q, AlignUp(placement));
  }

  lemma StackFits(q: nat, at: nat)
    requires at % PAGE == 0
    ensures at + 4 * (q * 1024 + 1) <= AlignUp(at + q * 1024 * 4 + 1)
  {
    assert (at + q * PAGE) % PAGE == 0;
  }

  /** The frames on top of a stack, from the top down, are the addresses of a list. */
  ghost predicate OnTop(stack: seq<nat>, addrs: seq<nat>) {
    |addrs| <= |stack| && forall i | 0 <= i < |addrs| :: stack[|stack| - 1 - i] == addrs[i]
  }

  /** The mapping succeeded and leaves entry e at address a. */
  ghost predicate Shows(r: Option<State>, d: nat, a: nat, e: Entry) {
    r.Some? && Shape(r.value) && d < |r.value.dirs| && a < WORD && GetPage(r.value, d, a) == e
  }

  /** Mapping other pages does not change the page of a. */
  lemma {:induction false} UntouchedStays(m: State, d: nat, addrs: seq<nat>, perm: bv12, a: nat)
    requires Shape(m) && d < |m.dirs| && Addresses(addrs) && a < WORD && !Touches(addrs, a)
    ensures MapAll(m, d, addrs, perm).Some? ==> Shows(MapAll(m, d, addrs, perm), d, a, GetPage(m, d, a))
    decreases |addrs|
  {
    if addrs != [] && CanMap(m, d, addrs[0]) {
      TouchesStep(addrs, a);
      MapPageFlat(m, d, addrs[0], perm, d, a);
      UntouchedStays(MapPage(m, d, addrs[0], perm), d, addrs[1..], perm, a);
    }
  }

  /** Unmapped distinct pages whose own frames are on top of the stack in order. */
  ghost predicate Ready(m: State, d: nat, addrs: seq<nat>)
    requires Shape(m) && d < |m.dirs|
  {
    && Addresses(addrs) && DistinctPages(addrs) && OnTop(m.stack, addrs)
    && forall j | 0 <= j < |addrs| :: GetPage(m, d, addrs[j]) == EMPTY
  }

  lemma ReadyStep(m: State, d: nat, addrs: seq<nat>, perm: bv12)
    requires Shape(m) && d < |m.dirs| && addrs != [] && Ready(m, d, addrs)
    ensures Ready(MapPage(m, d, addrs[0], perm), d, addrs[1..])
    ensures GetPage(MapPage(m, d, addrs[0], perm), d, addrs[0]) == Entry(addrs[0], perm)
  {
    var k, rest := MapPage(m, d, addrs[0], perm), addrs[1..];
    assert GetPage(m, d, addrs[0]) == EMPTY;
    OnTopStep(m.stack, addrs);
    OthersStay(m, d, addrs, perm);
    MapPageStack(m, d, addrs[0], perm);
    MapPageFlat(m, d, addrs[0], perm, d, addrs[0]);
    forall j | 0 <= j < |rest| ensures GetPage(k, d, rest[j]) == EMPTY {
      assert rest[j] == addrs[j + 1];
    }
  }

  lemma OnTopStep(stack: seq<nat>, addrs: seq<nat>)
    requires addrs != [] && OnTop(stack, addrs)
    ensures TopOf(stack) == addrs[0] && OnTop(Popped(stack), addrs[1..])
  {
    var s, rest := Popped(stack), addrs[1..];
    forall j | 0 <= j < |rest| ensures s[|s| - 1 - j] == rest[j] {
      assert rest[j] == addrs[j + 1];
    }
  }

  /** Identity mapping: such pages are mapped to themselves. */
  lemma {:induction false} IdentityMap(m: State, d: nat, addrs: seq<nat>, perm: bv12, i: nat)
    requires Shape(m) && d < |m.dirs| && Ready(m, d, addrs) && i < |addrs|
    ensures Shows(MapAll(m, d, addrs, perm), d, addrs[i], Entry(addrs[i], perm))
    decreases |addrs|
  {
    ReadyStep(m, d, addrs, perm);
    var k, rest := MapPage(m, d, addrs[0], perm), addrs[1..];
    if i > 0 {
      IdentityMap(k, d, rest, perm, i - 1);
    } else {
      AllUnmapped(k, d, rest);
      MapAllFrames(k, d, rest, perm);
      NotAgain(addrs);
      UntouchedStays(k, d, rest, perm, addrs[0]);
    }
  }

  lemma NotAgain(addrs: seq<nat>)
    requires addrs != [] && DistinctPages(addrs)
    ensures !Touches(addrs[1..], addrs[0])
  {
    forall i | 0 <= i < |addrs[1..]| ensures !SamePage(addrs[1..][i], addrs[0]) {
      assert addrs[1..][i] == addrs[i + 1];
    }
  }

  lemma {:induction false} AllUnmapped(m: State, d: nat, addrs: seq<nat>)
    requires Shape(m) && d < |m.dirs| && Addresses(addrs)
    ensures Unmapped(m, d, addrs) <= |addrs|
    decreases |addrs|
  {
    if addrs != [] { AllUnmapped(m, d, addrs[1..]); }
  }

  /**
   The first map_pages call of init_paging, on an empty directory over the stack the fill loop left,
   maps every page to itself.
   */
  lemma BootIdentity(m: State, d: nat, npages: nat, end: nat, perm: bv12, b: nat)
    requires Shape(m) && d < |m.dirs| && perm != 0 && m.dirs[d] == NoSlots()
    requires npages * PAGE < WORD - PAGE && m.stack == Fill(npages * PAGE) && end <= (npages + 1) * PAGE
    requires b < end
    ensures Ends(0, end)
    ensures var r := MapPages(m, d, 0, end, perm);
            r.Some? && GetPage(r.value, d, b) == Entry(b / PAGE * PAGE, perm)
  {
    FillExact(npages);
    RangeGood(0, end);
    FillOnTop(npages, end);
    assert Ready(m, d, Range(0, end));
    IdentityMap(m, d, Range(0, end), perm, b / PAGE);
    SplitIsPage(b, b / PAGE * PAGE);
  }

  lemma FillOnTop(npages: nat, end: nat)
    requires npages * PAGE < WORD - PAGE && end <= (npages + 1) * PAGE
    ensures OnTop(Fill(npages * PAGE), Range(0, end))
  {
    FillExact(npages);
    assert Turns(0, end) <= npages + 1;
  }

  /** The frames of a memory of npages pages and the one the fill loop starts with. */
  function Pool(npages: nat): set<nat> { set p | 0 <= p <= npages :: p * PAGE }

  /**
   With no table yet, the stack the fill loop leaves holds each frame of the pool once, so runs from
   there conserve it.
   */
  lemma BootConserved(m: State, npages: nat)
    requires m.tables == map[] && npages * PAGE < WORD - PAGE && m.stack == Fill(npages * PAGE)
    ensures Conserved(m, Pool(npages))
  {
    FillExact(npages);
    forall f | f in Pool(npages) ensures f in m.stack {
      var p :| 0 <= p <= npages && f == p * PAGE;
      assert m.stack[npages - p] == f;
    }
    forall i | 0 <= i < |m.stack| ensures m.stack[i] in Pool(npages) {
      assert 0 <= npages - i <= npages;
    }
  }

  /**
   From boot on, over every run whose mappings fill their entries, each frame of the machine is in
   exactly one place.
   */
  lemma BootRunConserves(m: State, npages: nat, ops: seq<Op>, n: State)
    requires Shape(m) && m.tables == map[] && npages * PAGE < WORD - PAGE && m.stack == Fill(npages * PAGE)
    requires IsRun(m, ops, n)
    ensures Conserved(n, Pool(npages)) <==> AllFill(m, ops, n)
  {
    BootConserved(m, npages);
    RunConserves(m, ops, n, Pool(npages));
  }
}
