/**
 What malloc and free keep over whole runs, in 32-bit arithmetic.  malloc serves a request as
 promised exactly for requests up to 2^30 on a heap that is not an exhausted one of 2^31 bytes; on
 that one the heap size wraps to 0 and the request is answered from the start of the heap.
 */
module UserHeapRuns {
  import opened Words
  import opened HalvingSearch
  import opened BlockHeap
  import opened Process
  import opened UserHeapSpec

  // ---- Invariants ----

  /** The break is where the heap ends, modulo 2^32; before the first resize there is no heap. */
  ghost predicate BreakInv(p: Space, size: nat) {
    && p.brk < WORD
    && if p.pos == 0 then size == 0 && p.brk > 0 else p.brk == (p.pos + size) % WORD
  }

  ghost predicate Inv(u: State) {
    HeapInv(u.heap) && BreakInv(u.space, u.heap.size) && (u.heap.size == 0 ==> u.space.pos == 0)
  }

  /** Break and map end together; the only map is the one made at creation, and the heap lies in it. */
  ghost predicate Placed(p: Space, size: nat) {
    && |p.maps| == 1 && p.brk == p.maps[0].end && p.maps[0].start <= p.brk
    && (p.pos != 0 ==> p.maps[0].start <= p.pos && p.pos + size == p.brk)
  }

  // ---- The break ----

  lemma AdvanceBreak(p: Space, size: nat)
    requires BreakInv(p, size) && size < WORD
    ensures BreakInv(Advance(p, size), Resized32(size)) && Advance(p, size).pos == Base(p) > 0
  {
    if p.pos != 0 {
      if size == 0 { BreakStep(p.pos, 0, 8); } else { DoubledBreak(p.pos, size); }
    }
  }

  lemma BreakStep(pos: nat, size: nat, inc: nat)
    ensures ((pos + size) % WORD + inc) % WORD == (pos + size + inc) % WORD
  {
    var q := (pos + size) / WORD;
    assert pos + size + inc == q * WORD + ((pos + size) % WORD + inc);
    AddMultiple((pos + size) % WORD + inc, q);
  }

  lemma DoubledBreak(pos: nat, size: nat)
    ensures ((pos + size) % WORD + size) % WORD == (pos + (2 * size) % WORD) % WORD
  {
    BreakStep(pos, size, size);
    BreakStep(2 * size, 0, pos);
  }

  lemma {:induction false} TimesBreak(p: Space, size: nat, n: nat)
    requires BreakInv(p, size) && HeapSize(size)
    ensures var r := AdvanceTimes(p, size, n);
            && BreakInv(r, ResizedTimes(size, n)) && Base(r) == Base(p) > 0
            && (r.pos == if n == 0 then p.pos else Base(p))
    decreases n
  {
    if n > 0 {
      TimesBreak(p, size, n - 1);
      TimesKeep(size, n - 1);
      AdvanceBreak(AdvanceTimes(p, size, n - 1), ResizedTimes(size, n - 1));
    }
  }

  /** The sizes before the last of n resizes are not the largest one, so none of them wraps. */
  ghost predicate NoWrap(size: nat, n: nat) {
    forall m: nat | m < n :: ResizedTimes(size, m) != LARGEST
  }

  /** The last of n such resizes doubles. */
  lemma NoWrapDoubles(size: nat, n: nat)
    requires HeapSize(size) && n > 0 && NoWrap(size, n)
    ensures var s := ResizedTimes(size, n - 1);
            HeapSize(s) && s != LARGEST && ResizedTimes(size, n) == Bigger(s) && 2 * s < WORD
  {
    var s := ResizedTimes(size, n - 1);
    TimesKeep(size, n - 1);
    ResizedKeeps(s);
  }

  /** Heap, break and map end together, above a given base. */
  ghost predicate PlacedAt(p: Space, size: nat, base: nat) {
    BreakInv(p, size) && Placed(p, size) && Base(p) == base
  }

  lemma AdvancePlaced(p: Space, size: nat, base: nat)
    requires PlacedAt(p, size, base) && base + Bigger(size) < WORD && 2 * size < WORD
    ensures PlacedAt(Advance(p, size), Resized32(size), base)
  {
    AdvanceBreak(p, size);
  }

  /** The m-th resize from a size leaves the heap below 4 GiB from some base. */
  ghost predicate StaysBelow(base: nat, size: nat, m: nat) {
    2 * ResizedTimes(size, m) < WORD && base + Bigger(ResizedTimes(size, m)) < WORD
  }

  lemma {:induction false} AllStayBelow(base: nat, size: nat, n: nat)
    requires HeapSize(size) && NoWrap(size, n) && (n > 0 ==> base + ResizedTimes(size, n) < WORD)
    ensures forall m: nat | m < n :: StaysBelow(base, size, m)
    decreases n
  {
    if n > 0 {
      NoWrapDoubles(size, n);
      AllStayBelow(base, size, n - 1);
    }
  }

  /** While the heap ends below 4 GiB, heap, break and map end together. */
  lemma {:induction false} TimesPlaced(p: Space, size: nat, n: nat, base: nat)
    requires PlacedAt(p, size, base) && forall m: nat | m < n :: StaysBelow(base, size, m)
    ensures PlacedAt(AdvanceTimes(p, size, n), ResizedTimes(size, n), base)
    decreases n
  {
    if n > 0 {
      TimesPlaced(p, size, n - 1, base);
      assert StaysBelow(base, size, n - 1);
      AdvancePlaced(AdvanceTimes(p, size, n - 1), ResizedTimes(size, n - 1), base);
    }
  }

  // ---- One malloc ----

  /** Heap size after a malloc that is served as promised: one more resize when the search misses. */
  function NewSize(h: Heap, request: nat): nat {
    var s := GrowFor(h.size, request);
    if Find(USER, h.(size := s), request).Miss? then Bigger(s) else s
  }

  /** The heap of the second loop is not exhausted, and not full if it was grown. */
  lemma MidHeap(h: Heap, request: nat)
    requires HeapInv(h) && request <= LIMIT && !Exhausted(h)
    ensures var m := h.(size := GrowFor(h.size, request));
            && HeapInv(m) && !Exhausted(m) && request <= m.size / 2
            && (m.size != h.size ==> m.size != 0 && !Full(USER, m.mem, 0, m.size) && m.size / 2 >= h.size)
  {
    GrowForFits(h.size, request);
    var s := GrowFor(h.size, request);
    if s == h.size { assert h.(size := s) == h; } else { GrowKeepsInv(USER, h, s); }
  }

  /** The second loop from there ends at once or after one resize, which does not wrap. */
  lemma SecondLoop(h: Heap, request: nat, n: nat) returns (j: nat)
    requires HeapInv(HeapAfter(h, n)) && !Exhausted(HeapAfter(h, n))
    ensures SecondEnds(h, request, n, j) && HeapInv(HeapAfter(h, j))
    ensures var s, m := HeapAfter(h, j).size, HeapAfter(h, n);
            && s != 0 && !Full(USER, h.mem, 0, s)
            && if Find(USER, m, request).Miss? then j == n + 1 && s == Bigger(m.size) && m.size != LARGEST
               else j == n && s == m.size
  {
    var m := HeapAfter(h, n);
    MissIff(m.mem, m.live, m.size, request);
    j := n;
    if Find(USER, m, request).Miss? {
      j := n + 1;
      MissCured(m, request);
      assert HeapAfter(h, j) == m.(size := Resized32(m.size));
    }
  }

  /** malloc, once both its loops are known to end after n and j resizes. */
  lemma MallocIs(u: State, size: int, n: nat, j: nat)
    requires MallocEnds(u.heap, Request(size), n, j)
    ensures var g := ResizeTimes(u, j);
            Find(USER, g.heap, Request(size)).Hit? && Malloc(u, size) == Answer(g, Request(size))
  {
    forall n': nat, j': nat | MallocEnds(u.heap, Request(size), n', j') ensures j' == j {
      assert n' == n;
    }
  }

  /** A search in state g hit, marked its header and returned ret, which leaves state v. */
  ghost predicate Found(g: State, v: State, request: nat, ret: nat) {
    var o := Find(USER, g.heap, request);
    o.Hit? && ret == PtrOf(g.space.pos, o.at) != 0 && v == g.(heap := g.heap.(mem := MarkHit(USER, g.heap.mem, o)))
  }

  /** The block a search finds after j resizes has a pointer other than 0. */
  ghost predicate HasPointer(u: State, j: nat, request: nat) {
    var o := Find(USER, HeapAfter(u.heap, j), request);
    o.Hit? && PtrOf(ResizeTimes(u, j).space.pos, o.at) != 0
  }

  /** What both loops found is what malloc specifies, once the new block is entered as live. */
  lemma FoundIsMalloc(u: State, size: int, n: nat, j: nat, v: State, ret: nat)
    requires MallocEnds(u.heap, Request(size), n, j) && Found(ResizeTimes(u, j), v, Request(size), ret)
    ensures var o := Find(USER, HeapAfter(u.heap, j), Request(size));
            && o.Hit?
            && Malloc(u, size) ==
               Served(v.(heap := v.heap.(live := v.heap.live[o.at := Block(Request(size), o.half)])), ret)
  {
    MallocIs(u, size, n, j);
  }

  /** If malloc returns, its first loop ends, and wherever that is, its second loop ends from there. */
  lemma LoopsEnd(u: State, size: int)
    requires Malloc(u, size).Served?
    ensures exists n: nat :: FirstEnds(u.heap.size, Request(size), n)
    ensures forall n: nat | FirstEnds(u.heap.size, Request(size), n) ::
              exists j: nat :: SecondEnds(u.heap, Request(size), n, j) && HasPointer(u, j, Request(size))
  {
    var n: nat, j: nat :| MallocEnds(u.heap, Request(size), n, j);
    MallocIs(u, size, n, j);
    forall n': nat | FirstEnds(u.heap.size, Request(size), n')
      ensures exists j: nat :: SecondEnds(u.heap, Request(size), n', j) && HasPointer(u, j, Request(size))
    {
      assert n' == n;
      assert SecondEnds(u.heap, Request(size), n', j);
    }
  }

  /** The state malloc searches in last: j resizes on, none of which wraps. */
  lemma Growth(u: State, size: int) returns (j: nat)
    requires HeapInv(u.heap) && Request(size) <= LIMIT && !Exhausted(u.heap)
    ensures var g, req := ResizeTimes(u, j), Request(size);
            && Find(USER, g.heap, req).Hit? && Malloc(u, size) == Answer(g, req)
            && g.heap == u.heap.(size := NewSize(u.heap, req)) && HeapInv(g.heap)
            && g.heap.size != 0 && !Full(USER, g.heap.mem, 0, g.heap.size) && req <= g.heap.size / 2
            && NoWrap(u.heap.size, j)
  {
    var h, req := u.heap, Request(size);
    MidHeap(h, req);
    var n := FirstLoopReaches(h.size, req);
    j := SecondLoop(h, req, n);
    MallocIs(u, size, n, j);
    NoWrapBoth(h.size, req, n, j);
  }

  lemma NoWrapBoth(size: nat, request: nat, n: nat, j: nat)
    requires FirstEnds(size, request, n) && request <= LIMIT && n <= j <= n + 1
    requires j == n + 1 ==> ResizedTimes(size, n) != LARGEST
    ensures NoWrap(size, j)
  {
    forall m: nat | m < j ensures ResizedTimes(size, m) != LARGEST {
      if m < n { TooSmall(ResizedTimes(size, m), request); }
    }
  }

  lemma TooSmall(size: nat, request: nat)
    requires request > size / 2 && request <= LIMIT
    ensures size != LARGEST
  {}

  /** From u to v one block was handed out behind ptr: fresh, holding its request, every other block untouched. */
  ghost predicate HandedOut(u: State, v: State, ptr: nat, request: nat) {
    && ptr != 0
    && var at := PositionOf(v.space.pos, ptr);
    && at !in u.heap.live && at in v.heap.live
    && v.heap.live == u.heap.live[at := v.heap.live[at]]
    && v.heap.live[at].request == request <= v.heap.live[at].size
  }

  /** The growth of a heap from one size to another by malloc. */
  ghost predicate GrowthBound(before: nat, after: nat, request: nat) {
    && after >= 8 && after >= before && request <= after / 2
    && (after == before || after / 2 >= before)
    && (after <= 8 || after <= 2 * before || after < 4 * request)
  }

  lemma NewSizeBound(h: Heap, request: nat)
    requires HeapInv(h) && request <= LIMIT && !Exhausted(h)
    ensures GrowthBound(h.size, NewSize(h, request), request)
    ensures GrowFor(h.size, request) != h.size ==> NewSize(h, request) == GrowFor(h.size, request)
  {
    GrowForFits(h.size, request);
    MidHeap(h, request);
    var m := h.(size := GrowFor(h.size, request));
    MissIff(m.mem, m.live, m.size, request);
    if m.size == 0 || m.size == h.size { BiggerIsPow2(h.size); }
  }

  /** A search in a heap that fits the request and is not full. */
  lemma AnswerKeepsInv(g: State, request: nat)
    requires HeapInv(g.heap) && BreakInv(g.space, g.heap.size) && g.heap.size != 0
    requires !Full(USER, g.heap.mem, 0, g.heap.size) && request <= g.heap.size / 2
    requires g.space.pos != 0
    ensures Find(USER, g.heap, request).Hit?
    ensures var o := Answer(g, request); o.Served? ==> Inv(o.state) && HandedOut(g, o.state, o.ptr, request)
  {
    AllocateKeepsInv(USER, g.heap, request);
    BlockSizeBounds(USER, g.heap.size, request);
    SearchExact(USER, g.heap.mem, 0, g.heap.size, request);
    PointerRoundTrip(g.space.pos, Find(USER, g.heap, request).at);
  }

  lemma PointerRoundTrip(base: nat, at: nat)
    requires at < WORD
    ensures PositionOf(base, PtrOf(base, at)) == at
  {
    var x := base + at + HEADER;
    assert x % WORD - HEADER - base == at - x / WORD * WORD;
    AddMultiple(at, -(x / WORD));
  }

  /** The block malloc would hand out has the pointer 0. */
  ghost predicate NullHit(u: State, request: nat) {
    var o := Find(USER, u.heap.(size := NewSize(u.heap, request)), request);
    o.Hit? && PtrOf(Base(u.space), o.at) == 0
  }

  /** That takes a heap that ends at or above 4 GiB. */
  lemma NullNeedsHighHeap(u: State, request: nat)
    requires Inv(u) && request <= LIMIT && !Exhausted(u.heap) && Base(u.space) + NewSize(u.heap, request) < WORD
    ensures !NullHit(u, request)
  {
    var h := u.heap.(size := NewSize(u.heap, request));
    NewSizeBound(u.heap, request);
    if h.size == u.heap.size { assert h == u.heap; }
    MidHeap(u.heap, request);
    NewSizeIsSize(u.heap, request);
    SearchExact(USER, h.mem, 0, h.size, request);
    BlockSizeBounds(USER, h.size, request);
  }

  lemma NewSizeIsSize(h: Heap, request: nat)
    requires HeapInv(h) && request <= LIMIT && !Exhausted(h)
    ensures HeapSize(NewSize(h, request)) && NewSize(h, request) != 0
  {
    MidHeap(h, request);
    var m := h.(size := GrowFor(h.size, request));
    MissIff(m.mem, m.live, m.size, request);
    if Find(USER, m, request).Miss? { MissCured(m, request); }
  }

  /** malloc of a request up to 2^30 on a heap that is not exhausted, to a block that has a pointer. */
  lemma MallocServes(u: State, size: int)
    requires Inv(u) && Request(size) <= LIMIT && !Exhausted(u.heap) && !NullHit(u, Request(size))
    ensures var o := Malloc(u, size);
            && o.Served? && Inv(o.state) && HandedOut(u, o.state, o.ptr, Request(size))
            && GrowthBound(u.heap.size, o.state.heap.size, Request(size)) && o.state.space.pos == Base(u.space) > 0
            && (Placed(u.space, u.heap.size) && Base(u.space) + o.state.heap.size < WORD ==>
                  Placed(o.state.space, o.state.heap.size))
  {
    var j := Growth(u, size);
    TimesBreak(u.space, u.heap.size, j);
    AnswerKeepsInv(ResizeTimes(u, j), Request(size));
    NewSizeBound(u.heap, Request(size));
    if Placed(u.space, u.heap.size) && Base(u.space) + ResizedTimes(u.heap.size, j) < WORD {
      AllStayBelow(Base(u.space), u.heap.size, j);
      TimesPlaced(u.space, u.heap.size, j, Base(u.space));
    }
  }

  /** An answer from a smaller part of the exhausted heap leaves a live block outside the heap. */
  lemma SpoiltHeap(h: Heap, s: nat, request: nat)
    requires HeapInv(h) && Exhausted(h) && HeapSize(s) && 0 < s <= LIMIT && !Full(USER, h.mem, 0, s)
    ensures !HeapInv(Allocate(USER, h.(size := s), request))
  {
    SearchExact(USER, h.mem, 0, s, request);
    var o := Find(USER, h.(size := s), request);
    assert Marked(USER, h.mem, LIMIT) && o.at != LIMIT;
    var g := Allocate(USER, h.(size := s), request);
    assert GoodBlock(LIMIT, h.live[LIMIT], h.size);
    assert g.live[LIMIT] == h.live[LIMIT] && !GoodBlock(LIMIT, g.live[LIMIT], g.size);
  }

  /** The first loop does nothing on the largest heap, so all that happens is in the second. */
  lemma LargestMalloc(u: State, size: int, k: nat)
    requires u.heap.size == LARGEST && Request(size) <= LIMIT && SecondEnds(u.heap, Request(size), 0, k)
    ensures Find(USER, ResizeTimes(u, k).heap, Request(size)).Hit?
    ensures Malloc(u, size) == Answer(ResizeTimes(u, k), Request(size))
  {
    assert FirstEnds(LARGEST, Request(size), 0);
    MallocIs(u, size, 0, k);
  }

  lemma LargestReturns(u: State, size: int) returns (k: nat)
    requires u.heap.size == LARGEST && Malloc(u, size) != NeverReturns
    ensures Request(size) <= LIMIT && SecondEnds(u.heap, Request(size), 0, k)
  {
    LargestIsSize();
    FirstLoopEndsIff(LARGEST, Request(size));
    assert FirstEnds(LARGEST, Request(size), 0);
    var n: nat, j: nat :| MallocEnds(u.heap, Request(size), n, j);
    assert n == 0;
    k := j;
  }

  /** Wherever a malloc on the exhausted heap ends, a live block lies outside the heap. */
  lemma ExhaustedBreaks(u: State, size: int)
    requires HeapInv(u.heap) && Exhausted(u.heap)
    ensures Malloc(u, size).Served? ==> !HeapInv(Malloc(u, size).state.heap)
  {
    if Malloc(u, size).Served? {
      var k := LargestReturns(u, size);
      LargestMalloc(u, size, k);
      ExhaustedShrinks(u.heap, Request(size), k);
      SpoiltHeap(u.heap, ResizedTimes(LARGEST, k), Request(size));
    }
  }

  /**
   On an exhausted heap a malloc that gets past its first loop returns exactly if a smaller size has
   a free top header.
   */
  lemma ExhaustedReturnsIff(u: State, size: int)
    requires Exhausted(u.heap) && Request(size) <= LIMIT
    ensures Malloc(u, size) != NeverReturns <==>
              exists s: nat :: HeapSize(s) && 0 < s <= LIMIT && !Full(USER, u.heap.mem, 0, s)
  {
    ExhaustedEndsIff(u.heap, Request(size));
    if Malloc(u, size) != NeverReturns { var k := LargestReturns(u, size); }
    if k: nat :| SecondEnds(u.heap, Request(size), 0, k) { LargestMalloc(u, size, k); }
  }

  /**
   malloc exactly: it returns and hands out one fresh block that holds the request, keeping the heap
   invariant, if and only if the request is at most 2^30, the heap is not an exhausted one of 2^31 bytes,
   and the block's pointer does not wrap to 0, which only a heap past 4 GiB can make it do.
   */
  lemma MallocExact(u: State, size: int)
    requires Inv(u)
    ensures var o := Malloc(u, size);
            o.Served? && Inv(o.state) && HandedOut(u, o.state, o.ptr, Request(size)) <==>
              Request(size) <= LIMIT && !Exhausted(u.heap) && !NullHit(u, Request(size))
    ensures Request(size) > LIMIT ==> Malloc(u, size) == NeverReturns
  {
    FirstLoopEndsIff(u.heap.size, Request(size));
    if Request(size) <= LIMIT {
      if Exhausted(u.heap) {
        if Malloc(u, size).Served? { ExhaustedBreaks(u, size); }
      } else if NullHit(u, Request(size)) {
        NullIsReported(u, size);
      } else {
        MallocServes(u, size);
      }
    }
  }

  lemma NullIsReported(u: State, size: int)
    requires Inv(u) && Request(size) <= LIMIT && !Exhausted(u.heap) && NullHit(u, Request(size))
    ensures Malloc(u, size) == NullPointer
  {
    var j := Growth(u, size);
    TimesBreak(u.space, u.heap.size, j);
  }

  /** A malloc that returns keeps the invariant if and only if the heap was not exhausted. */
  lemma ServedInvIff(u: State, size: int)
    requires Inv(u) && Malloc(u, size).Served?
    ensures Inv(Malloc(u, size).state) <==> !Exhausted(u.heap)
  {
    MallocExact(u, size);
    if Exhausted(u.heap) { ExhaustedBreaks(u, size); }
    else if NullHit(u, Request(size)) { NullIsReported(u, size); }
  }

  /** free succeeds exactly on live pointers and ends exactly that block's life; a bad free changes nothing. */
  lemma FreeKeepsInv(u: State, ptr: nat)
    requires Inv(u)
    ensures Inv(Free(u, ptr).0)
    ensures Free(u, ptr).1 <==> IsLive(u, ptr)
    ensures IsLive(u, ptr) ==> Free(u, ptr).0.heap.live == u.heap.live - {PositionOf(u.space.pos, ptr)}
    ensures !IsLive(u, ptr) ==> Free(u, ptr).0 == u
    ensures !IsLive(Free(u, ptr).0, ptr)
  {
    var v := Free(u, ptr).0;
    ReleaseKeepsInv(USER, u.heap, PositionOf(u.space.pos, ptr));
    forall a | a in v.heap.live ensures v.heap.live[a].request <= v.heap.live[a].size {
      assert a in u.heap.live;
    }
  }

  // ---- Runs ----

  datatype Op = Alloc(size: int) | Dispose(ptr: nat)

  datatype Result = Running(state: State) | Spoilt | Ended

  /**
   A library call: a malloc may not return, and a bad free exits the process.  Where a block is marked
   whose pointer is 0, no pointer to it exists, and the run is not followed any further.
   */
  ghost function Apply(u: State, op: Op): Result {
    match op
    case Alloc(size) =>
      var o := Malloc(u, size);
      if o.Served? then Running(o.state) else if o.NullPointer? then Spoilt else Ended
    case Dispose(ptr) =>
      var (v, ok) := Free(u, ptr);
      if ok then Running(v) else Ended
  }

  ghost function Run(u: State, ops: seq<Op>): Result
    decreases |ops|
  {
    if ops == [] then Running(u)
    else
      var r := Apply(u, ops[0]);
      if r.Running? then Run(r.state, ops[1..]) else r
  }

  /**
   The calls that spoil the heap: a malloc that finds something in an exhausted heap, or a block
   without a pointer.
   */
  ghost predicate Spoils(u: State, op: Op) {
    && op.Alloc? && Request(op.size) <= LIMIT
    && if Exhausted(u.heap) then exists s: nat :: HeapSize(s) && 0 < s <= LIMIT && !Full(USER, u.heap.mem, 0, s)
       else NullHit(u, Request(op.size))
  }

  /** A call leads from the invariant out of it exactly if it spoils the heap. */
  lemma ApplyKeepsInvIff(u: State, op: Op)
    requires Inv(u)
    ensures Apply(u, op).Running? ==> (Inv(Apply(u, op).state) <==> !Spoils(u, op))
    ensures Apply(u, op).Spoilt? ==> Spoils(u, op)
    ensures Spoils(u, op) ==> !Apply(u, op).Ended?
  {
    match op
    case Alloc(size) =>
      MallocExact(u, size);
      if Request(size) <= LIMIT {
        if Exhausted(u.heap) {
          ExhaustedReturnsIff(u, size);
          if Malloc(u, size).Served? { ExhaustedBreaks(u, size); }
        } else if NullHit(u, Request(size)) {
          NullIsReported(u, size);
        } else {
          MallocServes(u, size);
        }
      }
    case Dispose(ptr) => FreeKeepsInv(u, ptr);
  }

  /** No call of the run spoils the heap. */
  ghost predicate Sound(u: State, ops: seq<Op>)
    decreases |ops|
  {
    ops == [] || (!Spoils(u, ops[0]) && (Apply(u, ops[0]).Running? ==> Sound(Apply(u, ops[0]).state, ops[1..])))
  }

  /** The invariant holds in every state of the run. */
  ghost predicate AlwaysInv(u: State, ops: seq<Op>)
    decreases |ops|
  {
    && Inv(u)
    && (ops != [] ==> var r := Apply(u, ops[0]);
                      !r.Spoilt? && (r.Running? ==> AlwaysInv(r.state, ops[1..])))
  }

  /** Over every run: the invariant holds throughout if and only if no call spoils the heap. */
  lemma {:induction false} RunKeepsInvIff(u: State, ops: seq<Op>)
    requires Inv(u)
    ensures AlwaysInv(u, ops) <==> Sound(u, ops)
    decreases |ops|
  {
    if ops != [] {
      ApplyKeepsInvIff(u, ops[0]);
      var r := Apply(u, ops[0]);
      if r.Running? {
        if Spoils(u, ops[0]) { assert !AlwaysInv(r.state, ops[1..]); } else { RunKeepsInvIff(r.state, ops[1..]); }
      }
    }
  }

  function AtLeastHeader(request: nat): nat { if request < HEADER then HEADER else request }

  /** A block of b bytes at a: a power of two between its request and twice that, aligned, inside the heap. */
  ghost predicate Fitting(h: Heap, a: nat)
    requires a in h.live
  {
    var b, request := h.live[a].size, h.live[a].request;
    && IsPow2(b) && b / 2 <= AtLeastHeader(request) && request <= b
    && a % b == 0 && a + b <= h.size
  }

  lemma InvSpelledOut(u: State)
    requires Inv(u)
    ensures forall a: nat :: a in u.heap.live <==> Marked(USER, u.heap.mem, a)
    ensures forall a | a in u.heap.live :: Fitting(u.heap, a)
    ensures forall a, b |
              a in u.heap.live && b in u.heap.live && a != b && u.heap.live[a].size == u.heap.live[b].size ::
              Disjoint(a, u.heap.live[a].size, b, u.heap.live[b].size)
  {
    forall a | a in u.heap.live ensures Fitting(u.heap, a) {
      assert GoodBlock(a, u.heap.live[a], u.heap.size);
    }
    forall a, b | a in u.heap.live && b in u.heap.live && a != b && u.heap.live[a].size == u.heap.live[b].size
      ensures Disjoint(a, u.heap.live[a].size, b, u.heap.live[b].size)
    {
      LiveBlocksLaminar(USER, u.heap, a, b);
    }
  }

  /**
   Over every run of malloc and free in which no call spoils the heap: live pointers are exactly the
   marked headers; every live block is a power of two b with b/2 <= request <= b (a request below one
   header, from a negative size, counts as a header in the first bound), starts at a multiple of b
   and lies inside the heap; blocks of one size are disjoint; and the break is the end of the heap modulo 2^32.
   */
  lemma {:induction false} RunTheorem(u: State, ops: seq<Op>)
    requires Inv(u) && Sound(u, ops) && Run(u, ops).Running?
    ensures var v := Run(u, ops).state; var h := v.heap;
            && Inv(v)
            && (forall a: nat :: a in h.live <==> Marked(USER, h.mem, a))
            && (forall a | a in h.live :: Fitting(h, a))
            && (forall a, b | a in h.live && b in h.live && a != b && h.live[a].size == h.live[b].size ::
                  Disjoint(a, h.live[a].size, b, h.live[b].size))
            && (v.space.pos != 0 ==> v.space.brk == (v.space.pos + h.size) % WORD)
    decreases |ops|
  {
    if ops == [] {
      InvSpelledOut(u);
    } else {
      ApplyKeepsInvIff(u, ops[0]);
      RunTheorem(Apply(u, ops[0]).state, ops[1..]);
    }
  }

  // ---- Heap, break and map ----

  /** The heap, if there is one, ends below 4 GiB. */
  ghost predicate Below4G(u: State) {
    u.space.pos + u.heap.size < WORD
  }

  /** Heap end, break and map end coincide. */
  ghost predicate InPlace(u: State) {
    Placed(u.space, u.heap.size)
  }

  lemma ApplyPlaced(u: State, op: Op)
    requires Inv(u) && !Spoils(u, op)
    ensures Apply(u, op).Running? ==>
              var v := Apply(u, op).state;
              Inv(v) && (Below4G(v) ==> Below4G(u)) && (InPlace(u) && Below4G(v) ==> InPlace(v))
  {
    ApplyKeepsInvIff(u, op);
    match op
    case Alloc(size) =>
      MallocExact(u, size);
      if Request(size) <= LIMIT {
        if Exhausted(u.heap) { ExhaustedReturnsIff(u, size); } else { MallocServes(u, size); }
      }
    case Dispose(ptr) => FreeKeepsInv(u, ptr);
  }

  lemma {:induction false} RunBelow4G(u: State, ops: seq<Op>)
    requires Inv(u) && Sound(u, ops) && Run(u, ops).Running? && Below4G(Run(u, ops).state)
    ensures Below4G(u)
    decreases |ops|
  {
    if ops != [] {
      ApplyPlaced(u, ops[0]);
      RunBelow4G(Apply(u, ops[0]).state, ops[1..]);
    }
  }

  /** Over every such run heap end, break and map end coincide if and only if the heap ends below 4 GiB. */
  lemma {:induction false} RunPlacedIff(u: State, ops: seq<Op>)
    requires Inv(u) && InPlace(u) && Sound(u, ops) && Run(u, ops).Running?
    ensures InPlace(Run(u, ops).state) <==> Below4G(Run(u, ops).state)
    decreases |ops|
  {
    if ops != [] {
      var m := Apply(u, ops[0]).state;
      ApplyPlaced(u, ops[0]);
      if Below4G(Run(u, ops).state) {
        RunBelow4G(m, ops[1..]);
        RunPlacedIff(m, ops[1..]);
      } else {
        RunTheorem(u, ops);
      }
    }
  }

  /** A process as create_process leaves it, over memory holding no marker. */
  ghost predicate Initial(u: State)
    ensures Initial(u) ==> Inv(u) && InPlace(u)
  {
    && u.heap.size == 0 && u.heap.live == map[] && u.space.pos == 0
    && (forall a: nat :: !Marked(USER, u.heap.mem, a))
    && |u.space.maps| == 1 && 0 < u.space.brk == u.space.maps[0].end < WORD && u.space.maps[0].start <= u.space.brk
  }

  /** Every heap address of every state reached this way lies in the process's map. */
  lemma HeapAddressesMapped(u: State, ops: seq<Op>, address: nat)
    requires Initial(u) && Sound(u, ops) && Run(u, ops).Running? && Below4G(Run(u, ops).state)
    requires var v := Run(u, ops).state; v.space.pos <= address < v.space.pos + v.heap.size
    ensures FirstMap(Run(u, ops).state.space.maps, address) == 0
  {
    RunTheorem(u, ops);
    RunPlacedIff(u, ops);
  }

  // ---- What goes wrong ----

  /**
   Blocks of different sizes may overlap: after malloc(28), malloc(4) on a 64-byte heap returns
   a block inside the first one.
   */
  lemma OverlapAcrossSizes(h: Heap)
    requires h == Heap(map[], 64, map[])
    ensures var h1 := Allocate(USER, h, 32); var h2 := Allocate(USER, h1, 8);
            && BlockInv(USER, h)
            && h2.live == map[32 := Block(32, 32), 48 := Block(8, 16)]
            && !Disjoint(32, 32, 48, 16)
  {
    assert IsPow2(64) by { assert IsPow2(16) by { assert IsPow2(4); } }
    assert Find(USER, h, 32) == Hit(32, 32);
    var h1 := Allocate(USER, h, 32);
    assert Search(USER, h1.mem, 32, 32, 8) == Hit(48, 16);
    assert Find(USER, h1, 8) == Hit(48, 16);
  }

  /** The argument of malloc that asks for half of the largest heap. */
  const HALF: int := 0x3fff_fffc

  lemma HalfSearch(h: Heap)
    requires h.size == LARGEST && !Full(USER, h.mem, 0, LARGEST)
    ensures Find(USER, h, LIMIT) == if Marked(USER, h.mem, LIMIT) then Hit(0, LIMIT) else Hit(LIMIT, LIMIT)
  {}

  /** A malloc of that half, on any heap that is not exhausted, takes a half of the largest heap. */
  lemma HalfTaken(u: State)
    requires Inv(u) && !Exhausted(u.heap) && Base(u.space) + LARGEST < WORD
    ensures var o := Malloc(u, HALF); var at := if Marked(USER, u.heap.mem, LIMIT) then 0 else LIMIT;
            && o.Served? && Inv(o.state) && o.state.space.pos == Base(u.space)
            && o.state.heap == Heap(u.heap.mem[at := USER.magic], LARGEST, u.heap.live[at := Block(LIMIT, LIMIT)])
  {
    NewSizeIsSize(u.heap, LIMIT);
    NullNeedsHighHeap(u, LIMIT);
    MallocServes(u, HALF);
    var j := Growth(u, HALF);
    HalfSearch(ResizeTimes(u, j).heap);
  }

  /** The wrapped search finds the second word of the heap, if that is free. */
  lemma WrapAnswers(u: State)
    requires Exhausted(u.heap) && !Marked(USER, u.heap.mem, 4) && 0 < u.space.pos && u.space.pos + LARGEST < WORD
    ensures var o := Malloc(u, HALF);
            && o.Served? && o.ptr == u.space.pos + 4 + HEADER
            && o.state.heap == Heap(u.heap.mem[4 := USER.magic], 8, u.heap.live[4 := Block(LIMIT, 4)])
  {
    WrapSizes();
    WrapSearch(u.heap);
    LargestMalloc(u, HALF, 2);
    assert AdvanceTimes(u.space, LARGEST, 1).pos == u.space.pos;
  }

  lemma WrapSizes()
    ensures ResizedTimes(LARGEST, 0) == LARGEST && ResizedTimes(LARGEST, 1) == 0 && ResizedTimes(LARGEST, 2) == 8
  {
    LargestIsSize();
    ResizedKeeps(LARGEST);
  }

  lemma WrapSearch(h: Heap)
    requires Exhausted(h) && !Marked(USER, h.mem, 4)
    ensures SecondEnds(h, LIMIT, 0, 2) && Find(USER, HeapAfter(h, 2), LIMIT) == Hit(4, 4)
  {
    WrapSizes();
    LargestIsSize();
    MissIff(h.mem, h.live, LARGEST, LIMIT);
    assert HeapAfter(h, 0) == h;
    assert Find(USER, HeapAfter(h, 1), LIMIT).Miss?;
  }

  /**
   Three calls malloc(2^30 - 4) in a new process: the first two fill a heap of 2^31 bytes, on the third
   the heap size wraps to 0 and then 8, and the request for 2^30 bytes is answered with the four bytes at
   position 4, inside the block at position 0.
   */
  lemma ThirdHalfOverlaps(u: State)
    requires Initial(u) && u.space.brk + LARGEST < WORD
    ensures Run(u, [Alloc(HALF), Alloc(HALF)]).Running?
    ensures var v := Run(u, [Alloc(HALF), Alloc(HALF)]).state;
            && Inv(v) && v.heap.live == map[LIMIT := Block(LIMIT, LIMIT), 0 := Block(LIMIT, LIMIT)]
            && Exhausted(v.heap) && Spoils(v, Alloc(HALF))
            && var o := Malloc(v, HALF);
            && o.Served? && o.ptr == u.space.brk + 4 + HEADER && o.state.heap.size == 8
            && o.state.heap.live == v.heap.live[4 := Block(LIMIT, 4)]
  {
    var v := TwoHalves(u);
    WrapAnswers(v);
    assert HeapSize(8) by { assert IsPow2(4); }
    assert !Full(USER, v.heap.mem, 0, 8);
  }

  lemma FirstHalf(u: State) returns (v: State)
    requires Initial(u) && u.space.brk + LARGEST < WORD
    ensures Apply(u, Alloc(HALF)) == Running(v) && Inv(v) && v.space.pos == u.space.brk && !Exhausted(v.heap)
    ensures v.heap == Heap(u.heap.mem[LIMIT := USER.magic], LARGEST, map[LIMIT := Block(LIMIT, LIMIT)])
  {
    HalfTaken(u);
    v := Malloc(u, HALF).state;
  }

  lemma SecondHalf(u: State) returns (v: State)
    requires Base(u.space) + LARGEST < WORD && Inv(u) && u.heap.size == LARGEST
    requires Marked(USER, u.heap.mem, LIMIT) && !Exhausted(u.heap)
    ensures Apply(u, Alloc(HALF)) == Running(v) && Inv(v) && v.space.pos == Base(u.space) && Exhausted(v.heap)
    ensures v.heap == Heap(u.heap.mem[0 := USER.magic], LARGEST, u.heap.live[0 := Block(LIMIT, LIMIT)])
  {
    HalfTaken(u);
    v := Malloc(u, HALF).state;
  }

  lemma TwoHalves(u: State) returns (v: State)
    requires Initial(u) && u.space.brk + LARGEST < WORD
    ensures Run(u, [Alloc(HALF), Alloc(HALF)]) == Running(v)
    ensures Inv(v) && v.space.pos == u.space.brk && Exhausted(v.heap)
    ensures v.heap.live == map[LIMIT := Block(LIMIT, LIMIT), 0 := Block(LIMIT, LIMIT)]
    ensures !Marked(USER, v.heap.mem, 4)
  {
    var u1 := FirstHalf(u);
    v := SecondHalf(u1);
    TwoCalls(u, u1, v);
  }

  /** With the break at 0xbffffffc the first malloc of that half marks a block whose pointer is 0. */
  lemma FirstHalfNull(u: State)
    requires Initial(u) && u.space.brk == 0xbfff_fffc
    ensures Malloc(u, HALF) == NullPointer && Apply(u, Alloc(HALF)) == Spoilt
  {
    NewSizeIsSize(u.heap, LIMIT);
    NewSizeBound(u.heap, LIMIT);
    HalfSearch(u.heap.(size := LARGEST));
    NullIsReported(u, HALF);
  }

  lemma TwoCalls(u: State, u1: State, v: State)
    ensures Apply(u, Alloc(HALF)) == Running(u1) && Apply(u1, Alloc(HALF)) == Running(v) ==>
              Run(u, [Alloc(HALF), Alloc(HALF)]) == Running(v)
  {
    var ops := [Alloc(HALF), Alloc(HALF)];
    assert ops[1..] == [Alloc(HALF)] && [Alloc(HALF)][1..] == [];
    assert Run(u1, [Alloc(HALF)]) == if Apply(u1, Alloc(HALF)).Running? then Run(Apply(u1, Alloc(HALF)).state, [])
                                     else Apply(u1, Alloc(HALF));
  }

  /** free of the pointer malloc returned frees just that block. */
  lemma MallocThenFree(u: State, size: int)
    requires Inv(u) && Request(size) <= LIMIT && !Exhausted(u.heap) && !NullHit(u, Request(size))
    ensures Malloc(u, size).Served?
    ensures var o := Malloc(u, size); var (v, ok) := Free(o.state, o.ptr);
            ok && v.heap.live == u.heap.live && v.heap.size == o.state.heap.size && v.space == o.state.space
  {
    MallocServes(u, size);
    var o := Malloc(u, size);
    FreeKeepsInv(o.state, o.ptr);
  }
}
