/** The mapping branch of the page-fault handler, and why a fault on a process's heap always takes it. */
module PageFault {
  import opened Words
  import Process
  import UserHeapSpec
  import UserHeapRuns
  import opened PagingSpec
  import opened PagingRuns
  import Paging

  /** Present, writeable, user. */
  const USER_PAGE: bv12 := 7

  datatype Outcome = PageMapped | OutOfFrames | BadAddress

  method Handle(task: Process.Task, mmu: Paging.Mmu, d: nat, address: nat) returns (r: Outcome)
    requires mmu.Valid() && d < |mmu.dirs| && address < WORD
    modifies mmu`tables, mmu`dirs, mmu`placement, mmu`pagePtr
    ensures mmu.Valid()
    ensures r == BadAddress <==>
              || (forall i | 0 <= i < |task.maps| :: !Process.MapHolds(task.maps[i], address))
              || GetPage(old(mmu.Abs()), d, address) != EMPTY
    ensures r == BadAddress ==> mmu.Abs() == old(mmu.Abs())
    ensures r == PageMapped ==> CanMap(old(mmu.Abs()), d, address)
    ensures r == PageMapped ==> mmu.Abs() == MapPage(old(mmu.Abs()), d, address, USER_PAGE)
    ensures r == OutOfFrames ==> old(mmu.Abs()).stack == []
  {
    var i := task.MemmapsCheck(address);
    var e := mmu.GetPage(address, d);
    if i < |task.maps| && e == EMPTY {
      var ok := mmu.MapPage(address, USER_PAGE, d);
      return if ok then PageMapped else OutOfFrames;
    }
    return BadAddress;
  }

  lemma SevenSet(x: bv12)
    ensures (x | USER_PAGE) & 7 == 7
  {}

  /**
   After the mapping branch the address is mapped, present, writeable and for users, so the retried
   access does not fault.
   */
  lemma FaultIsCured(m: State, d: nat, address: nat)
    requires Shape(m) && d < |m.dirs| && address < WORD && CanMap(m, d, address)
    ensures GetPage(MapPage(m, d, address, USER_PAGE), d, address) != EMPTY
    ensures GetPage(MapPage(m, d, address, USER_PAGE), d, address).flags & 7 == 7
  {
    MapPageEntry(m, d, address, USER_PAGE);
    SevenSet(GetPage(m, d, address).flags);
    MapPageFlat(m, d, address, USER_PAGE, d, address);
    OrKeepsBits(GetPage(m, d, address).flags, USER_PAGE);
    WithTableKeeps(m, d, address);
  }

  /**
   Over every run of malloc and free that keeps the heap sound and below 4 GiB: a fault on an
   unmapped heap address takes the mapping branch.
   */
  lemma HeapFaultTakesMapping(u: UserHeapSpec.State, ops: seq<UserHeapRuns.Op>, m: State, d: nat, address: nat)
    requires UserHeapRuns.Initial(u) && UserHeapRuns.Sound(u, ops) && UserHeapRuns.Run(u, ops).Running?
    requires var v := UserHeapRuns.Run(u, ops).state;
             UserHeapRuns.Below4G(v) && v.space.pos <= address < v.space.pos + v.heap.size
    requires Shape(m) && d < |m.dirs| && address < WORD && GetPage(m, d, address) == EMPTY
    ensures var maps := UserHeapRuns.Run(u, ops).state.space.maps;
            exists i :: 0 <= i < |maps| && Process.MapHolds(maps[i], address)
  {
    UserHeapRuns.HeapAddressesMapped(u, ops, address);
    UserHeapRuns.RunTheorem(u, ops);
    UserHeapRuns.RunPlacedIff(u, ops);
    assert Process.MapHolds(UserHeapRuns.Run(u, ops).state.space.maps[0], address);
  }
}
