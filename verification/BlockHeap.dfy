/**
 The heap both allocators keep: marker words, a size that only doubles, and (as bookkeeping of
 the model) the live blocks with the request each one answered.
 */
module BlockHeap {
  import opened HalvingSearch

  /** A live block: the requested bytes including the header, and the block size in units. */
  datatype Block = Block(request: nat, size: nat)

  datatype Heap = Heap(mem: Memory, size: nat, live: map<nat, Block>)

  ghost predicate GoodBlock(at: nat, b: Block, heapSize: nat) {
    && IsPow2(b.size)
    && (b.size / 2 <= b.request || b.size <= 2 * HEADER)
    && at % b.size == 0
    && at + b.size <= heapSize
  }

  /** What every allocator step keeps. */
  ghost predicate BlockInv(l: Layout, h: Heap) {
    && ValidLayout(l)
    && (h.size != 0 ==> IsPow2(h.size) && h.size / 2 >= l.minHalf && h.size >= 2)
    && (forall a: nat :: Marked(l, h.mem, a) <==> a in h.live)
    && (forall a | a in h.live :: GoodBlock(a, h.live[a], h.size))
  }

  function Find(l: Layout, h: Heap, request: nat): Outcome
    requires l.minHalf >= 1
  {
    Search(l, h.mem, 0, h.size, request)
  }

  /** Answer a request: the search marks one header, which becomes live. */
  function Allocate(l: Layout, h: Heap, request: nat): Heap
    requires l.minHalf >= 1
  {
    var o := Find(l, h, request);
    if o.Miss? then h
    else h.(mem := MarkHit(l, h.mem, o), live := h.live[o.at := Block(request, o.half)])
  }

  /** free: a marked header turns into the freed marker, anything else is an error. */
  function Release(l: Layout, h: Heap, at: nat): Heap {
    if Marked(l, h.mem, at) then h.(mem := h.mem[at := l.freed], live := h.live - {at}) else h
  }

  lemma AllocateKeepsInv(l: Layout, h: Heap, request: nat)
    requires BlockInv(l, h) && h.size != 0 && !Full(l, h.mem, 0, h.size)
    ensures BlockInv(l, Allocate(l, h, request))
    ensures var o := Find(l, h, request);
            && o.Hit? && o.at !in h.live && o.half == BlockSize(l, h.size, request)
            && Allocate(l, h, request).live == h.live[o.at := Block(request, BlockSize(l, h.size, request))]
  {
    SearchExact(l, h.mem, 0, h.size, request);
    BlockSizeBounds(l, h.size, request);
    var h' := Allocate(l, h, request);
    var o := Find(l, h, request);
    assert GoodBlock(o.at, Block(request, o.half), h'.size);
    forall a: nat ensures Marked(l, h'.mem, a) <==> a in h'.live {
      if a != o.at { assert Marked(l, h'.mem, a) <==> Marked(l, h.mem, a); }
    }
  }

  /** A release succeeds exactly on live positions and ends exactly that life. */
  lemma ReleaseKeepsInv(l: Layout, h: Heap, at: nat)
    requires BlockInv(l, h)
    ensures BlockInv(l, Release(l, h, at))
    ensures Marked(l, h.mem, at) <==> at in h.live
    ensures Release(l, h, at).live == h.live - {at}
    ensures !Marked(l, Release(l, h, at).mem, at)
  {
    var h' := Release(l, h, at);
    forall a: nat ensures Marked(l, h'.mem, a) <==> a in h'.live {
      if a != at { assert Marked(l, h'.mem, a) <==> Marked(l, h.mem, a); }
    }
    forall a | a in h'.live ensures GoodBlock(a, h'.live[a], h'.size) {
      assert a in h.live;
    }
  }

  /** Any growth to a larger power of two keeps the blocks and leaves the new right header unmarked. */
  lemma GrowKeepsInv(l: Layout, h: Heap, bigger: nat)
    requires BlockInv(l, h) && IsPow2(bigger) && bigger >= 2 && bigger / 2 >= l.minHalf && bigger / 2 >= h.size
    ensures BlockInv(l, h.(size := bigger)) && !Full(l, h.mem, 0, bigger)
  {
    forall a | a in h.live ensures GoodBlock(a, h.live[a], bigger) {
      assert GoodBlock(a, h.live[a], h.size);
    }
    assert forall a | a in h.live :: GoodBlock(a, h.live[a], h.size) && a < h.size;
  }

  /** Two live blocks of one size never overlap; any two are nested or disjoint. */
  lemma LiveBlocksLaminar(l: Layout, h: Heap, a: nat, b: nat)
    requires BlockInv(l, h) && a in h.live && b in h.live && a != b
    requires h.live[a].size <= h.live[b].size
    ensures h.live[a].size == h.live[b].size ==> Disjoint(a, h.live[a].size, b, h.live[b].size)
    ensures || Disjoint(a, h.live[a].size, b, h.live[b].size)
            || (b <= a && a + h.live[a].size <= b + h.live[b].size)
  {
    assert GoodBlock(a, h.live[a], h.size) && GoodBlock(b, h.live[b], h.size);
    NestedOrDisjoint(a, h.live[a].size, b, h.live[b].size);
  }

  /**
   A new block overlaps no live one if and only if no live header lies strictly inside it and no
   strictly larger live block lies around it; blocks of its own size are never in the way.
   */
  lemma NewBlockDisjointIff(l: Layout, h: Heap, request: nat)
    requires BlockInv(l, h) && h.size != 0 && !Full(l, h.mem, 0, h.size)
    ensures var o := Find(l, h, request);
            && o.Hit?
            && ((forall a | a in h.live :: Disjoint(o.at, o.half, a, h.live[a].size)) <==>
                (forall a | a in h.live ::
                   && !(o.at < a < o.at + o.half)
                   && !(h.live[a].size > o.half && a <= o.at && o.at + o.half <= a + h.live[a].size)))
  {
    AllocateKeepsInv(l, h, request);
    var g, o := Allocate(l, h, request), Find(l, h, request);
    forall a | a in h.live
      ensures Disjoint(o.at, o.half, a, h.live[a].size) <==>
              && !(o.at < a < o.at + o.half)
              && !(h.live[a].size > o.half && a <= o.at && o.at + o.half <= a + h.live[a].size)
    {
      assert g.live[a] == h.live[a] && GoodBlock(a, g.live[a], g.size) && GoodBlock(o.at, g.live[o.at], g.size);
      if h.live[a].size <= o.half { LiveBlocksLaminar(l, g, a, o.at); } else { LiveBlocksLaminar(l, g, o.at, a); }
    }
  }
}
