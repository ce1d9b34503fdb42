/** The per-task descriptor table: a fixed array of slots and a count that isgoodfd compares descriptors with. */
module Descriptors {
  import opened Sequences

  const MAX_FILES: nat := 32

  function Bit(b: bool): nat { if b then 1 else 0 }

  function Count(s: seq<bool>): nat { SumOf(s, Bit) }

  /** isgoodfd: below the count, and occupied. */
  predicate IsGood(files: seq<bool>, count: nat, fd: int) {
    0 <= fd < count && fd < |files| && files[fd]
  }

  /** Occupied slots come first. */
  ghost predicate Prefix(files: seq<bool>) {
    forall i | 0 <= i < |files| :: files[i] <==> i < Count(files)
  }

  /** n leading occupied slots give a count of at least n; n slots in front of only free ones at most n. */
  lemma {:induction false} CountBounds(s: seq<bool>, n: nat)
    requires n <= |s|
    ensures (forall i | 0 <= i < n :: s[i]) ==> Count(s) >= n
    ensures (forall i | n <= i < |s| :: !s[i]) ==> Count(s) <= n
    ensures (forall i | n <= i < |s| :: !s[i]) && Count(s) == n ==> forall i | 0 <= i < n :: s[i]
  {
    if s != [] {
      var t := s[1..];
      assert forall i | 0 <= i < |t| :: t[i] == s[i + 1];
      CountBounds(t, if n == 0 then 0 else n - 1);
    }
  }

  /** Every open descriptor is usable if and only if the open ones form a prefix of the table. */
  lemma AllGoodIffPrefix(files: seq<bool>)
    ensures (forall fd | 0 <= fd < |files| && files[fd] :: IsGood(files, Count(files), fd)) <==> Prefix(files)
  {
    CountBounds(files, |files|);
    CountBounds(files, Count(files));
  }

  /** From a prefix table, closing a descriptor leaves all others usable if and only if it was the highest. */
  lemma CloseKeepsPrefixIff(files: seq<bool>, fd: nat)
    requires Prefix(files) && fd < Count(files) && fd < |files|
    ensures Prefix(files[fd := false]) <==> fd == Count(files) - 1
  {
    SumUpdate(files, fd, false, Bit);
    assert !files[fd := false][fd];
  }

  class Table {
    const files: array<bool>
    var fileCount: nat

    ghost predicate Valid()
      reads this, files
    {
      files.Length == MAX_FILES && fileCount == Count(files[..])
    }

    constructor ()
      ensures Valid() && fresh(files) && fileCount == 0 && Prefix(files[..])
    {
      files := new bool[MAX_FILES](i => false);
      fileCount := 0;
      new;
      CountBounds(files[..], 0);
    }

    /** Slot part of open: the lowest free slot, or -1 for a full table; the new descriptor is usable at once. */
    method Open() returns (fd: int)
      requires Valid()
      modifies this, files
      ensures Valid()
      ensures fd < 0 <==> old(fileCount) >= MAX_FILES
      ensures fd < 0 ==> files[..] == old(files[..])
      ensures fd >= 0 ==> && fd < MAX_FILES && !old(files[fd]) && files[..] == old(files[..])[fd := true]
                          && (forall i | 0 <= i < fd :: old(files[i]))
                          && IsGood(files[..], fileCount, fd)
    {
      if fileCount >= MAX_FILES {
        return -1;
      }
      var i := 0;
      while i < MAX_FILES && files[i]
        invariant i <= MAX_FILES && forall j | 0 <= j < i :: files[j]
      {
        i := i + 1;
      }
      CountBounds(files[..], i);
      SumUpdate(files[..], i, true, Bit);
      files[i] := true;
      assert files[..] == old(files[..])[i := true];
      fileCount := fileCount + 1;
      fd := i;
    }

    /** close: refused unless isgoodfd accepts the descriptor. */
    method Close(fd: int) returns (ok: bool)
      requires Valid()
      modifies this, files
      ensures Valid()
      ensures ok <==> IsGood(old(files[..]), old(fileCount), fd)
      ensures files[..] == if ok then old(files[..])[fd := false] else old(files[..])
    {
      ok := 0 <= fd < fileCount && fd < MAX_FILES && files[fd];
      if ok {
        SumUpdate(files[..], fd, false, Bit);
        files[fd] := false;
        assert files[..] == old(files[..])[fd := false];
        fileCount := fileCount - 1;
      }
    }
  }
}
