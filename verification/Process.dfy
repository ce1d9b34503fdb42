/** The address-space maps and the break of a task (memmap.c and sbrk). */
module Process {
  import opened Sequences
  import opened Words

  /** One mapped range; both ends are inside it. */
  datatype MemMap = MemMap(start: nat, end: nat)

  predicate MapHolds(m: MemMap, address: nat) {
    m.start <= address <= m.end
  }

  ghost predicate IsFirstMap(maps: seq<MemMap>, address: nat, i: nat) {
    && i <= |maps| && (i < |maps| ==> MapHolds(maps[i], address))
    && forall j | 0 <= j < i :: !MapHolds(maps[j], address)
  }

  /** Index of the first map holding an address, or the number of maps. */
  ghost function FirstMap(maps: seq<MemMap>, address: nat): (i: nat)
    ensures IsFirstMap(maps, address, i)
  {
    assert IsFirstMap(maps, address, FirstIndex(maps, (m: MemMap) => MapHolds(m, address)));
    var i: nat :| IsFirstMap(maps, address, i);
    i
  }

  /** 32-bit addition of a signed increment. */
  function Add32(x: nat, inc: int): (r: nat)
    ensures r < WORD
    ensures 0 <= x + inc < WORD ==> r == x + inc
  {
    (x + inc) % WORD
  }

  /** The maps after sbrk: the end of the map the break lies in moves along, if there is one. */
  ghost function SbrkMaps(maps: seq<MemMap>, brk: nat, inc: int): seq<MemMap> {
    var i := FirstMap(maps, brk);
    if i < |maps| then maps[i := maps[i].(end := Add32(maps[i].end, inc))] else maps
  }

  class Task {
    var maps: seq<MemMap>
    var brk: nat

    /** create_process: one map covering the image, the break at its end. */
    constructor (startAddr: nat, endAddr: nat)
      ensures maps == [MemMap(startAddr, endAddr)] && brk == endAddr
    {
      maps := [MemMap(startAddr, endAddr)];
      brk := endAddr;
    }

    /** memmaps_check: the list loop. */
    method MemmapsCheck(address: nat) returns (i: nat)
      ensures i == FirstMap(maps, address)
      ensures i <= |maps| && (i < |maps| ==> maps[i].start <= address <= maps[i].end)
      ensures forall j | 0 <= j < i :: address < maps[j].start || maps[j].end < address
    {
      i := 0;
      while i < |maps|
        invariant i <= |maps|
        invariant forall j | 0 <= j < i :: !MapHolds(maps[j], address)
      {
        if MapHolds(maps[i], address) {
          return;
        }
        i := i + 1;
      }
    }

    /**
     sbrk moves the break and the end of the map the break lies in; fault where there is no such map
     and the source, having moved the break, writes through a null pointer.
     */
    method Sbrk(inc: int) returns (ret: nat, fault: bool)
      modifies this
      ensures ret == old(brk) && brk == Add32(old(brk), inc)
      ensures fault <==> forall i | 0 <= i < |old(maps)| :: !MapHolds(old(maps)[i], old(brk))
      ensures maps == SbrkMaps(old(maps), old(brk), inc)
      ensures forall i | && 0 <= i < |old(maps)| && MapHolds(old(maps)[i], old(brk))
                         && (forall j | 0 <= j < i :: !MapHolds(old(maps)[j], old(brk))) ::
                maps == old(maps)[i := MemMap(old(maps)[i].start, (old(maps)[i].end + inc) % WORD)]
    {
      var i := MemmapsCheck(brk);
      ret := brk;
      brk := Add32(brk, inc);
      fault := i == |maps|;
      if !fault {
        maps := maps[i := maps[i].(end := Add32(maps[i].end, inc))];
      }
    }
  }
}
