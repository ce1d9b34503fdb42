/**
 What every run of mappings and clonings keeps: frames are conserved, shared tables stay shared,
 private ones private.
 */
module PagingRuns {
  import opened Words
  import opened PagingSpec

  ghost predicate Used(m: State, t: nat, j: nat) {
    t in m.tables && j < |m.tables[t].slots| && m.tables[t].slots[j] != EMPTY
  }

  ghost function FrameAt(m: State, t: nat, j: nat): nat
    requires Used(m, t, j)
  {
    m.tables[t].slots[j].frame
  }

  /** Every frame of the pool is in exactly one place: one stack position or one table slot. */
  ghost predicate Conserved(m: State, pool: set<nat>) {
    && (forall i, j | 0 <= i < j < |m.stack| :: m.stack[i] != m.stack[j])
    && (forall i | 0 <= i < |m.stack| :: m.stack[i] in pool)
    && (forall t: nat, j: nat | Used(m, t, j) :: FrameAt(m, t, j) in pool && FrameAt(m, t, j) !in m.stack)
    && (forall t: nat, j: nat, t': nat, j': nat | Used(m, t, j) && Used(m, t', j') && (t, j) != (t', j') ::
          FrameAt(m, t, j) != FrameAt(m, t', j'))
    && (forall f | f in pool :: f in m.stack || exists t: nat, j: nat :: Used(m, t, j) && FrameAt(m, t, j) == f)
  }

  /** Setting permission bits never empties an entry. */
  lemma OrKeepsBits(x: bv12, y: bv12)
    requires y != 0
    ensures x | y != 0
  {}

  /** The same frames in the same places. */
  ghost predicate SameFrames(m: State, n: State) {
    && n.stack == m.stack
    && (forall t: nat, j: nat :: Used(n, t, j) <==> Used(m, t, j))
    && (forall t: nat, j: nat | Used(n, t, j) :: FrameAt(n, t, j) == FrameAt(m, t, j))
  }

  lemma WithTableSameFrames(m: State, d: nat, address: nat)
    requires Shape(m) && d < |m.dirs| && address < WORD
    ensures SameFrames(m, WithTable(m, d, address))
  {
    assert AlignUp(m.placement) !in m.tables;
  }

  lemma SameFramesConserve(m: State, n: State, pool: set<nat>)
    requires SameFrames(m, n) && Conserved(m, pool)
    ensures Conserved(n, pool)
  {
    forall f | f in pool ensures f in n.stack || exists t: nat, j: nat :: Used(n, t, j) && FrameAt(n, t, j) == f {
      if f !in m.stack {
        var t: nat, j: nat :| Used(m, t, j) && FrameAt(m, t, j) == f;
        assert Used(n, t, j) && FrameAt(n, t, j) == f;
      }
    }
  }

  /** All used slots but one are the same in two states. */
  ghost predicate SameBut(m: State, n: State, t0: nat, j0: nat) {
    forall t: nat, j: nat | (t, j) != (t0, j0) ::
      && (Used(n, t, j) <==> Used(m, t, j))
      && (Used(n, t, j) ==> FrameAt(n, t, j) == FrameAt(m, t, j))
  }

  /** A slot rewritten with its own frame. */
  lemma KeptSlotConserves(m: State, n: State, t0: nat, j0: nat, pool: set<nat>)
    requires Conserved(m, pool) && SameBut(m, n, t0, j0) && n.stack == m.stack
    requires Used(m, t0, j0) && Used(n, t0, j0) && FrameAt(n, t0, j0) == FrameAt(m, t0, j0)
    ensures Conserved(n, pool)
  {
    forall g | g in pool ensures g in n.stack || exists t: nat, j: nat :: Used(n, t, j) && FrameAt(n, t, j) == g {
      if g !in m.stack {
        var t: nat, j: nat :| Used(m, t, j) && FrameAt(m, t, j) == g;
        assert Used(n, t, j) && FrameAt(n, t, j) == g;
      }
    }
  }

  /** An unused slot takes the top frame. */
  lemma TakenSlotConserves(m: State, n: State, t0: nat, j0: nat, f: nat, pool: set<nat>)
    requires Conserved(m, pool) && SameBut(m, n, t0, j0) && n.stack + [f] == m.stack
    requires !Used(m, t0, j0) && Used(n, t0, j0) && FrameAt(n, t0, j0) == f
    ensures Conserved(n, pool)
  {
    assert m.stack[|n.stack|] == f;
    assert forall i | 0 <= i < |n.stack| :: n.stack[i] == m.stack[i];
    forall g | g in pool ensures g in n.stack || exists t: nat, j: nat :: Used(n, t, j) && FrameAt(n, t, j) == g {
      if g !in m.stack {
        var t: nat, j: nat :| Used(m, t, j) && FrameAt(m, t, j) == g;
        assert Used(n, t, j) && FrameAt(n, t, j) == g;
      }
    }
  }

  /** The top frame is popped but no slot holds it afterwards. */
  lemma LostSlotBreaks(m: State, n: State, t0: nat, j0: nat, f: nat, pool: set<nat>)
    requires Conserved(m, pool) && SameBut(m, n, t0, j0) && n.stack + [f] == m.stack
    requires !Used(m, t0, j0) && !Used(n, t0, j0)
    ensures !Conserved(n, pool)
  {
    assert m.stack[|n.stack|] == f;
    assert forall i | 0 <= i < |n.stack| :: n.stack[i] == m.stack[i];
    assert forall t: nat, j: nat | Used(n, t, j) :: Used(m, t, j) && FrameAt(n, t, j) == FrameAt(m, t, j) != f;
  }

  /**
   Does a mapping leave its entry non-empty?  Only an empty entry given frame 0 without permission
   bits stays empty.
   */
  ghost predicate Fills(m: State, d: nat, address: nat, perm: bv12)
    requires Shape(m) && d < |m.dirs| && address < WORD
  {
    perm != 0 || GetPage(m, d, address) != EMPTY || Top(m) != 0
  }

  lemma FillEntrySlots(m: State, d: nat, address: nat, perm: bv12)
    requires Shape(m) && d < |m.dirs| && address < WORD && m.dirs[d][Low(address)].frame != 0
    requires GetPage(m, d, address) == EMPTY ==> |m.stack| > 0
    ensures var n := FillEntry(m, d, address, perm);
            var t, j, e := m.dirs[d][Low(address)].frame, High(address), GetPage(m, d, address);
            && SameBut(m, n, t, j)
            && (Used(m, t, j) <==> e != EMPTY)
            && (Used(n, t, j) <==> Fills(m, d, address, perm))
            && (e != EMPTY ==> FrameAt(n, t, j) == FrameAt(m, t, j) && n.stack == m.stack)
            && (e == EMPTY ==> n.stack + [Top(m)] == m.stack && (Used(n, t, j) ==> FrameAt(n, t, j) == Top(m)))
  {
    var e := GetPage(m, d, address);
    if perm != 0 { OrKeepsBits(e.flags, perm); } else { assert e.flags | 0 == e.flags; }
  }

  lemma FillEntryConserves(m: State, d: nat, address: nat, perm: bv12, pool: set<nat>)
    requires Shape(m) && d < |m.dirs| && address < WORD && m.dirs[d][Low(address)].frame != 0
    requires GetPage(m, d, address) == EMPTY ==> |m.stack| > 0
    requires Conserved(m, pool)
    ensures Conserved(FillEntry(m, d, address, perm), pool) <==> Fills(m, d, address, perm)
  {
    FillEntrySlots(m, d, address, perm);
    var n := FillEntry(m, d, address, perm);
    var t0, j0 := m.dirs[d][Low(address)].frame, High(address);
    if GetPage(m, d, address) != EMPTY {
      KeptSlotConserves(m, n, t0, j0, pool);
    } else if Fills(m, d, address, perm) {
      TakenSlotConserves(m, n, t0, j0, Top(m), pool);
    } else {
      LostSlotBreaks(m, n, t0, j0, Top(m), pool);
    }
  }

  /**
   A mapping conserves frames if and only if it has permission bits, or the page has a frame
   already, or the frame it takes is not frame 0.
   */
  lemma MapPageConserves(m: State, d: nat, address: nat, perm: bv12, pool: set<nat>)
    requires Shape(m) && d < |m.dirs| && address < WORD && CanMap(m, d, address)
    requires Conserved(m, pool)
    ensures Conserved(MapPage(m, d, address, perm), pool) <==>
              perm != 0 || GetPage(m, d, address) != EMPTY || Top(m) != 0
  {
    WithTableKeeps(m, d, address);
    WithTableSameFrames(m, d, address);
    var w := WithTable(m, d, address);
    SameFramesConserve(m, w, pool);
    assert GetPage(w, d, address) == GetPage(m, d, address);
    FillEntryConserves(w, d, address, perm, pool);
  }

  /** With no permission bits, mapping onto frame 0 leaves the entry empty and loses the frame. */
  lemma ZeroPermissionLosesFrame(m: State, d: nat, address: nat)
    requires Shape(m) && d < |m.dirs| && address < WORD
    requires GetPage(m, d, address) == EMPTY && |m.stack| > 0 && Top(m) == 0
    ensures var n := MapPage(m, d, address, 0);
            GetPage(n, d, address) == EMPTY && |n.stack| == |m.stack| - 1
  {
    MapPageFlat(m, d, address, 0, d, address);
  }

  // ---- Runs ----

  datatype Op = Map(dir: nat, address: nat, perm: bv12) | CloneDir(dir: nat)

  /** Mappings that find a frame, and clonings. */
  ghost predicate Enabled(m: State, op: Op) {
    && Shape(m) && op.dir < |m.dirs|
    && (op.Map? ==> op.address < WORD && CanMap(m, op.dir, op.address))
  }

  ghost function Step(m: State, op: Op): State
    requires Enabled(m, op)
  {
    match op
    case Map(d, address, perm) => MapPage(m, d, address, perm)
    case CloneDir(d) => Clone(m, d)
  }

  ghost predicate IsRun(m: State, ops: seq<Op>, n: State)
    decreases |ops|
  {
    if ops == [] then m == n else Enabled(m, ops[0]) && IsRun(Step(m, ops[0]), ops[1..], n)
  }

  /** Two directories hold different tables at an index, or one of them none. */
  ghost predicate Apart(m: State, d: nat, e: nat, i: nat)
    requires Shape(m) && d < |m.dirs| && e < |m.dirs| && i < SLOTS
  {
    m.dirs[d][i].frame == 0 || m.dirs[e][i].frame == 0 || m.dirs[d][i].frame != m.dirs[e][i].frame
  }

  /** Table pointers once set never change; new tables are at addresses nobody holds. */
  lemma StepPointers(m: State, op: Op, d: nat, e: nat, i: nat)
    requires Enabled(m, op) && d < |m.dirs| && e < |m.dirs| && i < SLOTS
    ensures var n := Step(m, op);
            && Shape(n) && |n.dirs| >= |m.dirs|
            && (m.dirs[d][i].frame != 0 ==> n.dirs[d][i].frame == m.dirs[d][i].frame)
            && (d != e && Apart(m, d, e, i) ==> Apart(n, d, e, i))
  {
    match op
    case CloneDir(_) =>
      var n := Clone(m, op.dir);
      assert forall k | 0 <= k < |m.dirs| :: n.dirs[k] == m.dirs[k];
    case Map(x, address, perm) =>
      WithTableKeeps(m, x, address);
      FillEntryKeeps(WithTable(m, x, address), x, address, perm);
      assert AlignUp(m.placement) !in m.tables;
      assert forall k | 0 <= k < |m.dirs| && m.dirs[k][i].frame != 0 :: m.dirs[k][i].frame in m.tables;
  }

  /** A frame that is nowhere any more. */
  ghost predicate Lost(m: State, f: nat) {
    f !in m.stack && forall t: nat, j: nat | Used(m, t, j) :: FrameAt(m, t, j) != f
  }

  lemma MapPageKeepsLost(m: State, d: nat, address: nat, perm: bv12, f: nat)
    requires Shape(m) && d < |m.dirs| && address < WORD && CanMap(m, d, address) && Lost(m, f)
    ensures Lost(MapPage(m, d, address, perm), f)
  {
    WithTableKeeps(m, d, address);
    WithTableSameFrames(m, d, address);
    var w := WithTable(m, d, address);
    FillEntrySlots(w, d, address, perm);
    var n := MapPage(m, d, address, perm);
    assert forall i | 0 <= i < |n.stack| :: n.stack[i] == w.stack[i];
    assert |w.stack| > 0 ==> w.stack[|w.stack| - 1] != f;
  }

  /** A mapping that does not fill its entry loses frame 0. */
  lemma UnfilledIsLost(m: State, d: nat, address: nat, perm: bv12, pool: set<nat>)
    requires Shape(m) && d < |m.dirs| && address < WORD && CanMap(m, d, address)
    requires Conserved(m, pool) && !Fills(m, d, address, perm)
    ensures 0 in pool && Lost(MapPage(m, d, address, perm), 0)
  {
    WithTableKeeps(m, d, address);
    WithTableSameFrames(m, d, address);
    var w := WithTable(m, d, address);
    assert GetPage(w, d, address) == GetPage(m, d, address);
    SameFramesConserve(m, w, pool);
    FillEntrySlots(w, d, address, perm);
    var n := MapPage(m, d, address, perm);
    assert w.stack[|n.stack|] == 0;
    assert forall i | 0 <= i < |n.stack| :: n.stack[i] == w.stack[i];
  }

  lemma {:induction false} RunKeepsLost(m: State, ops: seq<Op>, n: State, f: nat)
    requires Lost(m, f) && IsRun(m, ops, n)
    ensures Lost(n, f)
    decreases |ops|
  {
    if ops != [] {
      match ops[0] {
        case Map(d, address, perm) => MapPageKeepsLost(m, d, address, perm, f);
        case CloneDir(d) => CloneSameFrames(m, d);
      }
      RunKeepsLost(Step(m, ops[0]), ops[1..], n, f);
    }
  }

  lemma CloneSameFrames(m: State, d: nat)
    requires d < |m.dirs|
    ensures SameFrames(m, Clone(m, d))
  {}

  /** Every mapping of a run fills its entry. */
  ghost predicate AllFill(m: State, ops: seq<Op>, n: State)
    requires IsRun(m, ops, n)
    decreases |ops|
  {
    ops == [] || ((ops[0].Map? ==> Fills(m, ops[0].dir, ops[0].address, ops[0].perm))
                  && AllFill(Step(m, ops[0]), ops[1..], n))
  }

  lemma RunCons(m: State, op: Op, k: State, ops: seq<Op>, n: State)
    requires Enabled(m, op) && Step(m, op) == k && IsRun(k, ops, n)
    ensures IsRun(m, [op] + ops, n)
    ensures AllFill(m, [op] + ops, n) <==> (op.Map? ==> Fills(m, op.dir, op.address, op.perm)) && AllFill(k, ops, n)
  {
    assert ([op] + ops)[1..] == ops;
  }

  /** A run conserves frames if and only if each of its mappings fills its entry; a frame lost once is lost for good. */
  lemma {:induction false} RunConserves(m: State, ops: seq<Op>, n: State, pool: set<nat>)
    requires Shape(m) && Conserved(m, pool) && IsRun(m, ops, n)
    ensures Shape(n) && |n.dirs| >= |m.dirs|
    ensures Conserved(n, pool) <==> AllFill(m, ops, n)
    decreases |ops|
  {
    if ops != [] {
      var k := Step(m, ops[0]);
      RunPointers(m, ops, n, ops[0].dir, ops[0].dir, 0);
      StepPointers(m, ops[0], ops[0].dir, ops[0].dir, 0);
      match ops[0] {
        case Map(d, address, perm) =>
          MapPageConserves(m, d, address, perm, pool);
          if !Fills(m, d, address, perm) {
            UnfilledIsLost(m, d, address, perm, pool);
            RunKeepsLost(k, ops[1..], n, 0);
            assert 0 in pool && Lost(n, 0);
            return;
          }
        case CloneDir(d) =>
          CloneSameFrames(m, d);
          SameFramesConserve(m, k, pool);
      }
      RunConserves(k, ops[1..], n, pool);
    }
  }

  /** A shared table stays shared and separate tables stay separate, whatever is mapped or cloned. */
  lemma {:induction false} RunPointers(m: State, ops: seq<Op>, n: State, d: nat, e: nat, i: nat)
    requires Shape(m) && IsRun(m, ops, n) && d < |m.dirs| && e < |m.dirs| && i < SLOTS
    ensures Shape(n) && |n.dirs| >= |m.dirs|
    ensures m.dirs[d][i].frame != 0 ==> n.dirs[d][i].frame == m.dirs[d][i].frame
    ensures m.dirs[e][i].frame != 0 ==> n.dirs[e][i].frame == m.dirs[e][i].frame
    ensures d != e && Apart(m, d, e, i) ==> Apart(n, d, e, i)
    decreases |ops|
  {
    if ops != [] {
      StepPointers(m, ops[0], d, e, i);
      StepPointers(m, ops[0], e, d, i);
      RunPointers(Step(m, ops[0]), ops[1..], n, d, e, i);
    }
  }

  lemma CloneShape(m: State, d: nat)
    requires Shape(m) && d < |m.dirs|
    ensures Shape(Clone(m, d)) && |Clone(m, d).dirs| == |m.dirs| + 1
    ensures Clone(m, d).dirs[|m.dirs|] == m.dirs[d]
    ensures forall k | 0 <= k < |m.dirs| :: Clone(m, d).dirs[k] == m.dirs[k]
  {}

  /** Right after cloning, original and clone give the same page everywhere. */
  lemma CloneSameView(m: State, d: nat, address: nat)
    requires Shape(m) && d < |m.dirs| && address < WORD
    ensures Shape(Clone(m, d)) && |Clone(m, d).dirs| == |m.dirs| + 1
    ensures GetPage(Clone(m, d), |m.dirs|, address) == GetPage(Clone(m, d), d, address) == GetPage(m, d, address)
  {
    CloneShape(m, d);
  }

  /**
   Over every later run: where the original had a table at cloning time, both directories see the
   same entries forever; where it had none, a mapping through either is never seen through the other.
   */
  lemma CloneViewsForever(m: State, d: nat, ops: seq<Op>, n: State, address: nat)
    requires Shape(m) && d < |m.dirs| && address < WORD && IsRun(Clone(m, d), ops, n)
    ensures Shape(n) && |n.dirs| > |m.dirs|
    ensures m.dirs[d][Low(address)].frame != 0 ==>
              GetPage(n, d, address) == GetPage(n, |m.dirs|, address)
    ensures m.dirs[d][Low(address)].frame == 0 ==> !Share(n, d, |m.dirs|, address)
  {
    CloneShape(m, d);
    RunPointers(Clone(m, d), ops, n, d, |m.dirs|, Low(address));
  }

  /** A mapping is seen through another directory exactly if both hold the same table for the address. */
  lemma MappingSeenIff(m: State, d: nat, e: nat, address: nat, perm: bv12)
    requires Shape(m) && d < |m.dirs| && e < |m.dirs| && address < WORD && perm != 0
    requires GetPage(m, d, address) == EMPTY && |m.stack| > 0 && d != e
    ensures var n := MapPage(m, d, address, perm);
            GetPage(n, e, address) == GetPage(n, d, address) != GetPage(m, e, address) <==> Share(m, d, e, address)
  {
    MapPageFlat(m, d, address, perm, e, address);
    MapPageFlat(m, d, address, perm, d, address);
    StepPointers(m, Map(d, address, perm), d, e, Low(address));
    StepPointers(m, Map(d, address, perm), e, d, Low(address));
  }

  /**
   Cloning shares whole tables of 4 MiB: with one page mapped before the cloning, a page mapped
   afterwards through the original is seen through the clone if it lies in the same 4 MiB, and is not
   if the original had no table for its 4 MiB.
   */
  lemma CloneSharesFourMegabytes(m: State, d: nat, a: nat, b: nat, perm: bv12)
    requires Shape(m) && d < |m.dirs| && a < WORD && b < WORD && perm != 0 && CanMap(m, d, a)
    requires var c := Clone(MapPage(m, d, a, perm), d);
             Shape(c) && |c.dirs| == |m.dirs| + 1 && CanMap(c, d, b)
    ensures var n, e := MapPage(Clone(MapPage(m, d, a, perm), d), d, b, perm), |m.dirs|;
            && GetPage(n, d, b) != EMPTY
            && (a / 0x40_0000 == b / 0x40_0000 ==> GetPage(n, e, b) == GetPage(n, d, b))
            && (a / 0x40_0000 != b / 0x40_0000 && m.dirs[d][b / 0x40_0000].frame == 0 ==> GetPage(n, e, b) == EMPTY)
  {
    var at := b / 0x40_0000;
    var k := MapPage(m, d, a, perm);
    MapPageDirs(m, d, a, perm, d, at);
    CloneShape(k, d);
    var c := Clone(k, d);
    MapPageDirs(c, d, b, perm, |m.dirs|, at);
    MapPageEntry(c, d, b, perm);
    OrKeepsBits(GetPage(c, d, b).flags, perm);
    MapPageFlat(c, d, b, perm, |m.dirs|, b);
    SplitAddress(b);
    SplitAddress(a);
  }
}
