/** The user allocator as it runs: globals h_size and h_pos, marker words written in place, loops over resize. */
module UserHeap {
  import opened Words
  import opened HalvingSearch
  import opened BlockHeap
  import opened Process
  import opened UserHeapSpec
  import opened UserHeapRuns

  class Allocator {
    const task: Task
    var mem: Memory
    var hSize: nat
    var hPos: nat
    ghost var live: map<nat, Block>

    ghost function Abs(): State
      reads this, task
    {
      State(Heap(mem, hSize, live), Space(hPos, task.brk, task.maps))
    }

    ghost predicate Valid()
      reads this, task
    {
      UserHeapRuns.Inv(Abs())
    }

    /** Marker words of a new heap area are arbitrary except that none is set. */
    constructor (task: Task, words: Memory)
      requires |task.maps| == 1 && 0 < task.brk == task.maps[0].end < WORD && task.maps[0].start <= task.brk
      requires forall a: nat :: !Marked(USER, words, a)
      ensures Valid() && Initial(Abs()) && this.task == task && mem == words
    {
      this.task := task;
      mem, hSize, hPos, live := words, 0, 0, map[];
    }

    /** resize, in 32-bit arithmetic: the first call fixes the heap base, every call doubles the heap through sbrk. */
    method Resize()
      modifies this`hSize, this`hPos, task
      ensures hSize == Resized32(old(hSize))
      ensures Abs().space == Advance(old(Abs()).space, old(hSize))
    {
      var previous, fault;
      if hPos == 0 {
        hPos, fault := task.Sbrk(0);
      }
      if hSize != 0 {
        previous, fault := task.Sbrk(hSize);
        hSize := hSize * 2 % WORD;
      } else {
        previous, fault := task.Sbrk(8);
        hSize := 8;
      }
    }

    /**
     find_free on the node at a position: 0 for a miss, else the pointer behind the one header it marked.
     If that pointer is 0 the callers go on as after a miss, and all that is promised is the mark.
     */
    method FindFree(node: nat, nodeSize: nat, size: nat) returns (ret: nat)
      modifies this`mem
      ensures var o := Search(USER, old(mem), node, nodeSize, size);
              if o.Hit? && PtrOf(hPos, o.at) == 0 then Marked(USER, mem, o.at)
              else mem == MarkHit(USER, old(mem), o) && ret == if o.Hit? then PtrOf(hPos, o.at) else 0
      ensures forall a | Marked(USER, old(mem), a) :: Marked(USER, mem, a)
      decreases nodeSize
    {
      ret := 0;
      var s := nodeSize / 2;
      var temp := node + s;
      if s < USER.minHalf || (Marked(USER, mem, temp) && Marked(USER, mem, node)) {
        return;
      }
      if size < s / 2 {
        ret := FindFree(temp, s, size);
        if ret != 0 { return; }
        ret := FindFree(node, s, size);
        if ret != 0 { return; }
      }
      ret := PickHalf(node, s);
    }

    /** The end of find_free: the right half if its header is free, else the left one. */
    method PickHalf(node: nat, s: nat) returns (ret: nat)
      modifies this`mem
      ensures var o := Pick(USER, old(mem), node, s);
              mem == MarkHit(USER, old(mem), o) && ret == if o.Hit? then PtrOf(hPos, o.at) else 0
      ensures forall a | Marked(USER, old(mem), a) :: Marked(USER, mem, a)
    {
      var temp := node + s;
      ret := 0;
      if !Marked(USER, mem, temp) {
        mem := mem[temp := USER.magic];
        return PtrOf(hPos, temp);
      } else if !Marked(USER, mem, node) {
        mem := mem[node := USER.magic];
        return PtrOf(hPos, node);
      }
    }

    /** The n-th resize of a malloc that started in state u. */
    method ResizeAgain(ghost u: State, ghost n: nat)
      requires Abs() == ResizeTimes(u, n)
      modifies this`hSize, this`hPos, task
      ensures Abs() == ResizeTimes(u, n + 1)
    {
      Resize();
      assert ResizedTimes(u.heap.size, n + 1) == Resized32(ResizedTimes(u.heap.size, n));
    }

    /** First loop of malloc: resize until the request is at most half the heap.  FirstLoopEndsIff says when it ends. */
    method GrowToFit(request: nat) returns (ghost n: nat)
      requires exists n: nat :: FirstEnds(hSize, request, n)
      modifies this`hSize, this`hPos, task
      ensures FirstEnds(old(hSize), request, n) && Abs() == ResizeTimes(old(Abs()), n)
    {
      ghost var u := Abs();
      ghost var last: nat :| FirstEnds(hSize, request, last);
      n := 0;
      while request > hSize / 2
        invariant n <= last && Abs() == ResizeTimes(u, n)
        decreases last - n
      {
        ResizeAgain(u, n);
        n := n + 1;
      }
    }

    /** The search of malloc over the whole heap, after j of the resizes its second loop makes between n and last. */
    method SearchHeap(request: nat, ghost u: State, ghost n: nat, ghost j: nat, ghost last: nat) returns (ret: nat)
      requires Abs() == ResizeTimes(u, j) && SecondEnds(u.heap, request, n, last) && n <= j <= last
      requires HasPointer(u, last, request)
      modifies this`mem
      ensures ret == 0 <==> j < last
      ensures if ret == 0 then Abs() == ResizeTimes(u, j) else Found(ResizeTimes(u, j), Abs(), request, ret)
    {
      ret := FindFree(0, hSize, request);
    }

    /** One more resize, and the search after it. */
    method SearchAgain(request: nat, ghost u: State, ghost n: nat, ghost j: nat, ghost last: nat) returns (ret: nat)
      requires Abs() == ResizeTimes(u, j) && SecondEnds(u.heap, request, n, last) && n <= j < last
      requires HasPointer(u, last, request)
      modifies this`hSize, this`hPos, this`mem, task
      ensures ret == 0 <==> j + 1 < last
      ensures if ret == 0 then Abs() == ResizeTimes(u, j + 1)
              else j + 1 == last && Found(ResizeTimes(u, last), Abs(), request, ret)
    {
      ResizeAgain(u, j);
      ret := SearchHeap(request, u, n, j + 1, last);
    }

    /** Second loop of malloc: search, resize, search again, until a search hits. */
    method FindOrGrow(request: nat, ghost u: State, ghost n: nat, ghost last: nat) returns (ret: nat)
      requires Abs() == ResizeTimes(u, n) && SecondEnds(u.heap, request, n, last) && HasPointer(u, last, request)
      modifies this`hSize, this`hPos, this`mem, task
      ensures ret != 0 && Found(ResizeTimes(u, last), Abs(), request, ret)
    {
      ghost var j := n;
      ret := SearchHeap(request, u, n, j, last);
      while ret == 0
        invariant n <= j <= last && (ret == 0 <==> j < last)
        invariant ret == 0 ==> Abs() == ResizeTimes(u, j)
        invariant ret != 0 ==> Found(ResizeTimes(u, last), Abs(), request, ret)
        decreases last - j
      {
        ret := SearchAgain(request, u, n, j, last);
        j := j + 1;
      }
    }

    /** Both loops of malloc, and the new block entered as live. */
    method Serve(size: int) returns (ret: nat)
      requires UserHeapSpec.Malloc(Abs(), size).Served?
      modifies this, task
      ensures Served(Abs(), ret) == UserHeapSpec.Malloc(old(Abs()), size) && ret != 0
    {
      ghost var u := Abs();
      var request := (size + HEADER) % WORD;
      LoopsEnd(u, size);
      ghost var n := GrowToFit(request);
      ghost var j: nat :| SecondEnds(u.heap, request, n, j) && HasPointer(u, j, request);
      ret := FindOrGrow(request, u, n, j);
      FoundIsMalloc(u, size, n, j, Abs(), ret);
      ghost var o := Find(USER, HeapAfter(u.heap, j), request);
      live := live[o.at := Block(request, o.half)];
    }

    /** malloc of a C int, whenever both its loops end, at a block that has a pointer. */
    method Malloc(size: int) returns (ret: nat)
      requires UserHeapSpec.Malloc(Abs(), size).Served?
      modifies this, task
      ensures Served(Abs(), ret) == UserHeapSpec.Malloc(old(Abs()), size) && ret != 0
      ensures old(Valid()) ==> (Valid() <==> !Exhausted(old(Abs()).heap))
    {
      ghost var u := Abs();
      ret := Serve(size);
      if Inv(u) { ServedInvIff(u, size); }
    }

    /** free: true if the block was released, false where the library prints a warning and exits. */
    method Free(ptr: nat) returns (ok: bool)
      requires Valid()
      modifies this
      ensures (Abs(), ok) == UserHeapSpec.Free(old(Abs()), ptr)
      ensures Valid()
    {
      FreeKeepsInv(Abs(), ptr);
      ok := false;
      var p := PositionOf(hPos, ptr);
      if Marked(USER, mem, p) {
        mem := mem[p := USER.freed];
        live := live - {p};
        ok := true;
      }
    }
  }
}
