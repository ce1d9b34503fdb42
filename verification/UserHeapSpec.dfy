/**
 malloc and free of the user library as functions of a process state, in the 32-bit arithmetic of
 the source: both loops of malloc run over resizes whose heap size wraps to 0 after 2^31 bytes.  The
 loops that compute these functions are in UserHeap, what runs of them keep is in UserHeapRuns.
 */
module UserHeapSpec {
  import opened Words
  import opened HalvingSearch
  import opened BlockHeap
  import opened Process

  /** Heap base (0 until the first resize), break and maps of the process. */
  datatype Space = Space(pos: nat, brk: nat, maps: seq<MemMap>)

  datatype State = State(heap: Heap, space: Space)

  /** The largest heap size, and its half: the largest request malloc returns from. */
  const LARGEST: nat := 0x8000_0000
  const LIMIT: nat := 0x4000_0000

  /** Bytes malloc(int) asks the search for: sizes from -4 up get their header, lower ones turn huge. */
  function Request(size: int): (r: nat)
    ensures 0 <= size + HEADER < WORD ==> r == size + HEADER
  {
    (size + HEADER) % WORD
  }

  // ---- Resizing ----

  function Bigger(size: nat): nat { if size == 0 then 8 else 2 * size }

  /** The heap size after a resize: doubling wraps to 0, from where the next resize starts again at 8. */
  function Resized32(size: nat): (r: nat)
    ensures 2 * size < WORD ==> r == Bigger(size)
  {
    if size == 0 then 8 else (2 * size) % WORD
  }

  function ResizedTimes(size: nat, n: nat): nat
    decreases n
  {
    if n == 0 then size else Resized32(ResizedTimes(size, n - 1))
  }

  /** Where the heap starts once there is one: the first resize takes it from the break. */
  function Base(p: Space): nat { if p.pos == 0 then p.brk else p.pos }

  /** resize of a heap of some size, on the space: the first call asks for the break, every call moves it. */
  ghost function Advance(p: Space, size: nat): Space {
    var first := p.pos == 0;
    var brk := if first then Add32(p.brk, 0) else p.brk;
    var maps := if first then SbrkMaps(p.maps, p.brk, 0) else p.maps;
    var inc := if size == 0 then 8 else size;
    Space(Base(p), Add32(brk, inc), SbrkMaps(maps, brk, inc))
  }

  ghost function AdvanceTimes(p: Space, size: nat, n: nat): Space
    decreases n
  {
    if n == 0 then p else Advance(AdvanceTimes(p, size, n - 1), ResizedTimes(size, n - 1))
  }

  /** The state after n resizes. */
  ghost function ResizeTimes(u: State, n: nat): State {
    State(HeapAfter(u.heap, n), AdvanceTimes(u.space, u.heap.size, n))
  }

  /** Its heap. */
  function HeapAfter(h: Heap, n: nat): Heap { h.(size := ResizedTimes(h.size, n)) }

  lemma {:induction false} SizesCons(size: nat, n: nat)
    ensures ResizedTimes(size, n + 1) == ResizedTimes(Resized32(size), n)
    decreases n
  {
    if n > 0 { SizesCons(size, n - 1); }
  }

  // ---- malloc and free ----

  /** The first loop ends after n resizes: then for the first time the request is at most half the heap. */
  ghost predicate FirstEnds(size: nat, request: nat, n: nat) {
    && request <= ResizedTimes(size, n) / 2
    && forall m: nat | m < n :: request > ResizedTimes(size, m) / 2
  }

  /** The second loop, entered after n resizes, ends after j: then for the first time its search hits. */
  ghost predicate SecondEnds(h: Heap, request: nat, n: nat, j: nat) {
    && n <= j && Find(USER, HeapAfter(h, j), request).Hit?
    && forall m: nat | n <= m < j :: Find(USER, HeapAfter(h, m), request).Miss?
  }

  /** Both loops of malloc end, after n and after j resizes. */
  ghost predicate MallocEnds(h: Heap, request: nat, n: nat, j: nat) {
    FirstEnds(h.size, request, n) && SecondEnds(h, request, n, j)
  }

  /** The pointer to the block at a position, and the position of a pointer's header, in 32-bit arithmetic. */
  function PtrOf(base: nat, at: nat): (ptr: nat)
    ensures base + at + HEADER < WORD ==> ptr == base + at + HEADER
  {
    (base + at + HEADER) % WORD
  }

  function PositionOf(base: nat, ptr: nat): nat { (ptr - HEADER - base) % WORD }

  /**
   malloc returns a pointer; or a search marked a header whose pointer is 0, which is taken for a
   miss; or it loops for ever.
   */
  datatype Outcome = Served(state: State, ptr: nat) | NullPointer | NeverReturns

  /** The search in a state and the pointer it gives. */
  function Answer(g: State, request: nat): Outcome
    requires Find(USER, g.heap, request).Hit?
  {
    var ptr := PtrOf(g.space.pos, Find(USER, g.heap, request).at);
    if ptr == 0 then NullPointer else Served(g.(heap := Allocate(USER, g.heap, request)), ptr)
  }

  /** malloc: its two loops, if they end, and the answer of the last search. */
  ghost function Malloc(u: State, size: int): Outcome {
    var request := Request(size);
    if n: nat, j: nat :| MallocEnds(u.heap, request, n, j) then Answer(ResizeTimes(u, j), request)
    else NeverReturns
  }

  /** The header position a pointer stands for is live. */
  ghost predicate IsLive(u: State, ptr: nat) {
    PositionOf(u.space.pos, ptr) in u.heap.live
  }

  /** free of any pointer; the flag is false where the library reports a bad pointer and exits. */
  function Free(u: State, ptr: nat): (State, bool) {
    var at := PositionOf(u.space.pos, ptr);
    if Marked(USER, u.heap.mem, at) then (u.(heap := Release(USER, u.heap, at)), true) else (u, false)
  }

  // ---- Sizes ----

  /** A size the heap can have: none yet, or a power of two from 8 up to 2^31. */
  ghost predicate HeapSize(size: nat) {
    size == 0 || (8 <= size <= LARGEST && IsPow2(size))
  }

  lemma BiggerIsPow2(size: nat)
    requires HeapSize(size)
    ensures var b := Bigger(size); b >= 8 && IsPow2(b) && b / 2 >= size && size < b
  {
    if size == 0 { assert IsPow2(4); assert IsPow2(8); } else { assert (2 * size) / 2 == size; }
  }

  /** A resize doubles every size but the largest, which wraps. */
  lemma ResizedKeeps(size: nat)
    requires HeapSize(size)
    ensures HeapSize(Resized32(size))
    ensures Resized32(size) == if size == LARGEST then 0 else Bigger(size)
  {
    if 0 < size < LARGEST {
      Exp2Values();
      assert Exp2(31) == 2 * Exp2(30);
      Pow2Word(size, 30);
    }
    BiggerIsPow2(size);
  }

  lemma {:induction false} TimesKeep(size: nat, n: nat)
    requires HeapSize(size)
    ensures HeapSize(ResizedTimes(size, n))
    decreases n
  {
    if n > 0 {
      TimesKeep(size, n - 1);
      ResizedKeeps(ResizedTimes(size, n - 1));
    }
  }

  // ---- The first loop ----

  /** What the first loop reaches: the smallest size from here whose half holds the request. */
  function GrowFor(size: nat, request: nat): nat
    decreases 2 * request - size
  {
    if request > size / 2 then GrowFor(Bigger(size), request) else size
  }

  /** For requests up to 2^30 that is a size of the heap, below four times the request if it grew. */
  lemma {:induction false} GrowForFits(size: nat, request: nat)
    requires HeapSize(size) && request <= LIMIT
    ensures var s := GrowFor(size, request);
            && HeapSize(s) && (s == 0 ==> size == request == 0) && request <= s / 2
            && (s == size || s / 2 >= size)
            && (s == size || s == 8 || s < 4 * request)
            && (s != size ==> request > size / 2)
    decreases 2 * request - size
  {
    if request > size / 2 {
      ResizedKeeps(size);
      BiggerIsPow2(size);
      GrowForFits(Bigger(size), request);
    }
  }

  /** The first loop reaches that size. */
  lemma {:induction false} FirstLoopReaches(size: nat, request: nat) returns (n: nat)
    requires HeapSize(size) && request <= LIMIT
    ensures FirstEnds(size, request, n) && ResizedTimes(size, n) == GrowFor(size, request)
    decreases 2 * request - size
  {
    n := 0;
    if request > size / 2 {
      ResizedKeeps(size);
      n := FirstLoopReaches(Bigger(size), request);
      FirstEndsCons(size, request, n);
      SizesCons(size, n);
      n := n + 1;
    }
  }

  lemma FirstEndsCons(size: nat, request: nat, n: nat)
    requires request > size / 2 && FirstEnds(Resized32(size), request, n)
    ensures FirstEnds(size, request, n + 1)
  {
    SizesCons(size, n);
    forall m: nat | m < n + 1 ensures request > ResizedTimes(size, m) / 2 {
      if m > 0 {
        SizesCons(size, m - 1);
        assert request > ResizedTimes(Resized32(size), m - 1) / 2;
      }
    }
  }

  /** The first loop of malloc ends if and only if the request is at most 2^30, and then at the size GrowFor. */
  lemma FirstLoopEndsIff(size: nat, request: nat)
    requires HeapSize(size)
    ensures (exists n: nat :: FirstEnds(size, request, n)) <==> request <= LIMIT
    ensures forall n: nat | FirstEnds(size, request, n) :: ResizedTimes(size, n) == GrowFor(size, request)
  {
    if request <= LIMIT {
      var k := FirstLoopReaches(size, request);
      forall n: nat | FirstEnds(size, request, n) ensures ResizedTimes(size, n) == GrowFor(size, request) {
        assert n == k;
      }
    } else {
      forall n: nat ensures !FirstEnds(size, request, n) { TimesKeep(size, n); }
    }
  }

  /** In terms of malloc's argument, a C int: it ends exactly for -4 up to 2^30 - 4. */
  lemma MallocEndsIff(heapSize: nat, size: int)
    requires HeapSize(heapSize) && -0x8000_0000 <= size < 0x8000_0000
    ensures (exists n: nat :: FirstEnds(heapSize, Request(size), n)) <==> -4 <= size <= 0x3fff_fffc
  {
    FirstLoopEndsIff(heapSize, Request(size));
  }

  // ---- The second loop ----

  /** The heap of a process: the block invariant, and every block holds its request. */
  ghost predicate HeapInv(h: Heap) {
    && BlockInv(USER, h) && HeapSize(h.size)
    && forall a | a in h.live :: h.live[a].request <= h.live[a].size
  }

  /** Both top headers of the largest heap are taken. */
  ghost predicate Exhausted(h: Heap) {
    h.size == LARGEST && Full(USER, h.mem, 0, LARGEST)
  }

  /** A miss of the search means no heap yet or a full one. */
  lemma MissIff(mem: Memory, live: map<nat, Block>, size: nat, request: nat)
    requires HeapSize(size)
    ensures Find(USER, Heap(mem, size, live), request).Miss? <==> size == 0 || Full(USER, mem, 0, size)
  {
    if size != 0 { SearchExact(USER, mem, 0, size, request); }
  }

  /** One resize cures a miss, except on the exhausted heap. */
  lemma MissCured(h: Heap, request: nat)
    requires HeapInv(h) && !Exhausted(h) && Find(USER, h, request).Miss?
    ensures var g := h.(size := Resized32(h.size));
            && g.size == Bigger(h.size) && HeapInv(g) && !Full(USER, g.mem, 0, g.size)
            && Find(USER, g, request).Hit? && h.size != LARGEST
  {
    MissIff(h.mem, h.live, h.size, request);
    ResizedKeeps(h.size);
    BiggerIsPow2(h.size);
    GrowKeepsInv(USER, h, Bigger(h.size));
    MissIff(h.mem, h.live, Bigger(h.size), request);
  }

  /** Wherever the second loop ends from the exhausted heap, it is on a heap of at most half the size. */
  lemma ExhaustedShrinks(h: Heap, request: nat, n: nat)
    requires Exhausted(h) && SecondEnds(h, request, 0, n)
    ensures var s := ResizedTimes(h.size, n); HeapSize(s) && 0 < s <= LIMIT && !Full(USER, h.mem, 0, s)
  {
    LargestIsSize();
    TimesKeep(h.size, n);
    var s := ResizedTimes(h.size, n);
    MissIff(h.mem, h.live, s, request);
    Exp2Values();
    assert Exp2(31) == 2 * Exp2(30);
    Pow2Word(s, 30);
  }

  lemma LargestIsSize()
    ensures HeapSize(LARGEST) && IsPow2(LIMIT)
  {
    Exp2Values();
    Exp2IsPow2(31);
  }

  /**
   From the exhausted heap the second loop starts over at 0 and 8 bytes, and ends if and only if some
   smaller size has a free top header.
   */
  lemma ExhaustedEndsIff(h: Heap, request: nat)
    requires Exhausted(h)
    ensures (exists n: nat :: SecondEnds(h, request, 0, n)) <==>
              exists s: nat :: HeapSize(s) && 0 < s <= LIMIT && !Full(USER, h.mem, 0, s)
  {
    if n: nat :| SecondEnds(h, request, 0, n) {
      ExhaustedShrinks(h, request, n);
      assert !Full(USER, h.mem, 0, ResizedTimes(h.size, n));
    }
    if s: nat :| HeapSize(s) && 0 < s <= LIMIT && !Full(USER, h.mem, 0, s) {
      var n := Visits(s);
      assert ResizedTimes(h.size, n) == s;
      MissIff(h.mem, h.live, s, request);
      var m := FirstHit(h, request, n);
    }
  }

  /** Every size is visited after the wrap. */
  lemma {:induction false} Visits(s: nat) returns (n: nat)
    requires HeapSize(s) && 0 < s <= LIMIT
    ensures ResizedTimes(LARGEST, n) == s
    decreases s
  {
    LargestIsSize();
    ResizedKeeps(LARGEST);
    if s == 8 {
      assert ResizedTimes(LARGEST, 1) == 0;
      n := 2;
    } else {
      assert IsPow2(8) by { assert IsPow2(4); }
      Pow2Below(8, s);
      n := Visits(s / 2);
      n := n + 1;
    }
  }

  lemma {:induction false} FirstHit(h: Heap, request: nat, n: nat) returns (m: nat)
    requires Find(USER, HeapAfter(h, n), request).Hit?
    ensures m <= n && SecondEnds(h, request, 0, m)
    decreases n
  {
    m := n;
    if k: nat :| k < n && Find(USER, HeapAfter(h, k), request).Hit? {
      m := FirstHit(h, request, k);
    }
  }
}
