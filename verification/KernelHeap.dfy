/** The kernel heap: positions and sizes in 4-byte words, requests in bytes. */
module KernelHeap {
  import opened Words
  import opened HalvingSearch
  import opened BlockHeap

  const KHEAP_SIZE: nat := 0x40_0000

  /** Bytes malloc_f asks the search for, in 32-bit arithmetic. */
  function Request(bytes: nat): (r: nat)
    ensures bytes + HEADER < WORD ==> r == bytes + HEADER
  {
    (bytes + HEADER) % WORD
  }

  /** expand on the size in words: through bytes, in 32-bit arithmetic. */
  function Expanded(size: nat): (r: nat)
    ensures 8 * size < WORD ==> r == 2 * size
    ensures size == 0 || size == 0x2000_0000 ==> r == 0
  {
    (size * 4 % WORD) * 2 % WORD / 4
  }

  datatype Outcome = Served(heap: Heap) | Panic

  /** The retry loop after a miss: expand and search again, until the count of retries panics. */
  function Retry(h: Heap, request: nat, count: nat): Outcome
    decreases 4 - count
  {
    var g := h.(size := Expanded(h.size));
    if count > 3 then Panic
    else if Find(KERNEL, g, request).Hit? then Served(Allocate(KERNEL, g, request))
    else Retry(g, request, count + 1)
  }

  function Malloc(h: Heap, bytes: nat): Outcome {
    if Find(KERNEL, h, Request(bytes)).Hit? then Served(Allocate(KERNEL, h, Request(bytes)))
    else Retry(h, Request(bytes), 0)
  }

  /** Heap size in words a served request was found in. */
  function NewSize(h: Heap): nat {
    if Full(KERNEL, h.mem, 0, h.size) then 2 * h.size else h.size
  }

  /** The block invariant of a heap whose bytes can be counted in 32 bits. */
  ghost predicate KernelInv(h: Heap) {
    BlockInv(KERNEL, h) && 0 < 4 * h.size < WORD
  }

  /** Such a heap can be doubled, or it is the 2 GiB one. */
  lemma DoublesOrLargest(h: Heap)
    requires KernelInv(h)
    ensures 8 * h.size < WORD || h.size == 0x2000_0000
  {
    if 8 * h.size >= WORD { LargestSize(h.size); }
  }

  lemma LargestSize(size: nat)
    requires IsPow2(size) && 4 * size < WORD <= 8 * size
    ensures size == 0x2000_0000
  {
    Exp2Values();
    assert Exp2(30) == 2 * Exp2(29);
    Pow2Word(size, 29);
  }

  /** A heap that wrapped to size 0 never serves anything again. */
  lemma {:induction false} RetryEmpty(h: Heap, request: nat, count: nat)
    requires Expanded(h.size) == 0
    ensures Retry(h, request, count) == Panic
    decreases 4 - count
  {
    if count <= 3 { RetryEmpty(h.(size := 0), request, count + 1); }
  }

  /**
   The retry loop exactly: malloc_f panics if and only if both top headers of a 2 GiB heap are
   taken, whose doubling wraps to 0; in every other case one expansion suffices and the request is
   answered with a fresh block in the grown heap.
   */
  lemma MallocExact(h: Heap, bytes: nat)
    requires KernelInv(h)
    ensures Malloc(h, bytes).Panic? <==> Full(KERNEL, h.mem, 0, h.size) && 8 * h.size >= WORD
    ensures Malloc(h, bytes).Served? ==>
              var g, req := h.(size := NewSize(h)), Request(bytes);
              var o := Find(KERNEL, g, req);
              && KernelInv(g) && o.Hit? && o.at !in h.live && o.half == BlockSize(KERNEL, g.size, req)
              && Malloc(h, bytes) == Served(Allocate(KERNEL, g, req))
              && KernelInv(Malloc(h, bytes).heap)
              && Malloc(h, bytes).heap.live == h.live[o.at := Block(req, o.half)]
  {
    var req := Request(bytes);
    SearchExact(KERNEL, h.mem, 0, h.size, req);
    DoublesOrLargest(h);
    if !Full(KERNEL, h.mem, 0, h.size) {
      assert h.(size := NewSize(h)) == h;
      AllocateKeepsInv(KERNEL, h, req);
    } else if 8 * h.size < WORD {
      assert (2 * h.size) / 2 == h.size && IsPow2(2 * h.size);
      GrowKeepsInv(KERNEL, h, 2 * h.size);
      AllocateKeepsInv(KERNEL, h.(size := 2 * h.size), req);
    } else {
      RetryEmpty(h, req, 0);
    }
  }

  /**
   malloc_f has no size check.  The block it returns, counted in bytes, holds the request if and
   only if the request including its header is at most half of the heap's bytes.
   */
  lemma BlockHoldsRequestIff(h: Heap, bytes: nat)
    requires KernelInv(h) && bytes < WORD && Malloc(h, bytes).Served?
    ensures var n := NewSize(h);
            bytes + HEADER <= 4 * BlockSize(KERNEL, n, Request(bytes)) <==> bytes + HEADER <= 2 * n
  {
    MallocExact(h, bytes);
    SizeHoldsIff(NewSize(h), bytes);
  }

  lemma SizeHoldsIff(n: nat, bytes: nat)
    requires IsPow2(n) && n / 2 >= KERNEL.minHalf && 4 * n < WORD && bytes < WORD
    ensures bytes + HEADER <= 4 * BlockSize(KERNEL, n, Request(bytes)) <==> bytes + HEADER <= 2 * n
  {
    var r := Request(bytes);
    assert r == if bytes + HEADER < WORD then bytes + HEADER else bytes + HEADER - WORD;
    BlockSizeBounds(KERNEL, n, r);
    assert n % 2 == 0;
  }

  /** A first kmalloc of 2 MiB is answered with a block four bytes too small. */
  lemma TwoMegabytesOverrun(h: Heap)
    requires h == Heap(map[], KHEAP_SIZE / 4, map[])
    ensures KernelInv(h)
    ensures var o := Find(KERNEL, h, 0x20_0000 + HEADER);
            o == Hit(0x8_0000, 0x8_0000) && 4 * o.half < 0x20_0000 + HEADER
  {
    MegawordIsPow2();
    assert BlockInv(KERNEL, h);
  }

  lemma MegawordIsPow2()
    ensures IsPow2(0x10_0000)
  {
    Exp2Values();
    Exp2IsPow2(20);
  }

  datatype Op = Alloc(size: nat) | Dispose(at: nat)

  function Apply(h: Heap, op: Op): Outcome {
    match op
    case Alloc(size) => Malloc(h, size)
    case Dispose(at) => Served(Release(KERNEL, h, at))
  }

  /** A run of the allocator; nothing runs after a panic. */
  function Run(h: Heap, ops: seq<Op>): Outcome
    decreases |ops|
  {
    if ops == [] then Served(h)
    else
      var o := Apply(h, ops[0]);
      if o.Panic? then Panic else Run(o.heap, ops[1..])
  }

  lemma ApplyKeepsInv(h: Heap, op: Op)
    requires KernelInv(h)
    ensures Apply(h, op).Panic? <==> op.Alloc? && Full(KERNEL, h.mem, 0, h.size) && h.size == 0x2000_0000
    ensures Apply(h, op).Served? ==> KernelInv(Apply(h, op).heap)
  {
    DoublesOrLargest(h);
    match op
    case Alloc(size) => MallocExact(h, size);
    case Dispose(at) => ReleaseKeepsInv(KERNEL, h, at);
  }

  /**
   Over every run that does not panic: live blocks are the marked headers, aligned powers of two
   inside the heap, disjoint per size.  ApplyKeepsInv says which step panics.
   */
  lemma {:induction false} RunTheorem(h: Heap, ops: seq<Op>)
    requires KernelInv(h)
    ensures Run(h, ops).Served? ==>
              var k := Run(h, ops).heap;
              && KernelInv(k)
              && (forall a: nat :: a in k.live <==> Marked(KERNEL, k.mem, a))
              && (forall a | a in k.live ::
                    var b := k.live[a].size;
                    IsPow2(b) && (b / 2 <= k.live[a].request || b <= 2 * HEADER) && a % b == 0 && a + b <= k.size)
              && (forall a, b | a in k.live && b in k.live && a != b && k.live[a].size == k.live[b].size ::
                    Disjoint(a, k.live[a].size, b, k.live[b].size))
    decreases |ops|
  {
    if ops == [] {
      assert forall a | a in h.live :: GoodBlock(a, h.live[a], h.size);
      forall a, b | a in h.live && b in h.live && a != b && h.live[a].size == h.live[b].size
        ensures Disjoint(a, h.live[a].size, b, h.live[b].size)
      {
        LiveBlocksLaminar(KERNEL, h, a, b);
      }
    } else {
      ApplyKeepsInv(h, ops[0]);
      var o := Apply(h, ops[0]);
      if o.Served? { RunTheorem(o.heap, ops[1..]); }
    }
  }

  /** A run panics only with both top headers of a 2 GiB heap taken, right before an allocation. */
  lemma {:induction false} PanicNeedsFullHeap(h: Heap, ops: seq<Op>) returns (n: nat)
    requires KernelInv(h) && Run(h, ops).Panic?
    ensures n < |ops| && ops[n].Alloc? && Run(h, ops[..n]).Served?
    ensures var k := Run(h, ops[..n]).heap; k.size == 0x2000_0000 && Full(KERNEL, k.mem, 0, k.size)
    decreases |ops|
  {
    ApplyKeepsInv(h, ops[0]);
    var o := Apply(h, ops[0]);
    n := 0;
    if o.Served? {
      n := PanicNeedsFullHeap(o.heap, ops[1..]);
      n := n + 1;
      assert ops[..n][1..] == ops[1..][..n - 1];
    }
  }

  /** A request that no level of the search passes on: its argument and its bytes with the header. */
  const HUGE: nat := 0x7fff_fffc

  /** Such a request takes the right top header if that is free, else the left one. */
  lemma HugeTakesTop(h: Heap)
    requires KernelInv(h) && !Full(KERNEL, h.mem, 0, h.size)
    ensures Find(KERNEL, h, Request(HUGE)) == Pick(KERNEL, h.mem, 0, h.size / 2)
  {}

  /** What it does to a heap that can answer it: the top headers of the new size fill up. */
  lemma HugeStep(h: Heap)
    requires KernelInv(h) && Apply(h, Alloc(HUGE)).Served?
    ensures var g := Apply(h, Alloc(HUGE)).heap;
            && KernelInv(g) && g.size == NewSize(h)
            && g.mem == MarkHit(KERNEL, h.mem, Pick(KERNEL, h.mem, 0, g.size / 2))
  {
    MallocExact(h, HUGE);
    var g := h.(size := NewSize(h));
    SearchExact(KERNEL, g.mem, 0, g.size, Request(HUGE));
    HugeTakesTop(g);
  }

  /** How many more such requests a heap of one size takes. */
  function FreeTops(h: Heap): nat {
    (if Marked(KERNEL, h.mem, h.size / 2) then 0 else 1) + (if Marked(KERNEL, h.mem, 0) then 0 else 1)
  }

  /**
   The panic is reached: from every heap, enough requests of this kind fill it, double it to 2 GiB
   and then panic.
   */
  lemma {:induction false} SomeRunPanics(h: Heap) returns (ops: seq<Op>)
    requires KernelInv(h)
    ensures Run(h, ops) == Panic && forall op | op in ops :: op == Alloc(HUGE)
    decreases 0x2000_0000 - h.size, FreeTops(h)
  {
    DoublesOrLargest(h);
    ops := [Alloc(HUGE)];
    var o := Apply(h, ops[0]);
    if o.Served? {
      ApplyKeepsInv(h, ops[0]);
      HugeStep(h);
      DoublesOrLargest(o.heap);
      var rest := SomeRunPanics(o.heap);
      ops := [Alloc(HUGE)] + rest;
      assert ops[1..] == rest;
    }
  }

  /** Sizes the retry loop meets. */
  ghost predicate Countable(size: nat) {
    size == 0 || (IsPow2(size) && 4 * size < WORD)
  }

  lemma ExpandedCountable(size: nat)
    requires Countable(size)
    ensures Countable(Expanded(size))
  {
    if 0 < 8 * size < WORD {
      assert (2 * size) / 2 == size;
    } else if size > 0 {
      LargestSize(size);
    }
  }

  /** Pointer to the block at a word position, in 32-bit arithmetic. */
  function Address(root: nat, at: nat): nat { (root + 4 * at + HEADER) % WORD }

  /** The word position of a pointer's header. */
  function PositionOf(root: nat, ptr: nat): nat { (ptr - HEADER - root) % WORD / 4 }

  /** Its header lies at a whole number of words from the heap root. */
  predicate OnWord(root: nat, ptr: nat) { (ptr - HEADER - root) % WORD % 4 == 0 }

  /** A pointer less its header and the root is four times its position, modulo 2^32. */
  lemma AddressRoundTrip(root: nat, at: nat)
    requires 4 * at < WORD
    ensures (Address(root, at) - HEADER - root) % WORD == 4 * at
    ensures OnWord(root, Address(root, at)) && PositionOf(root, Address(root, at)) == at
  {
    var x := root + 4 * at + HEADER;
    assert x % WORD - HEADER - root == 4 * at - x / WORD * WORD;
    AddMultiple(4 * at, -(x / WORD));
  }

  /** free_f of the pointer malloc_f returned frees just that block. */
  lemma MallocThenFree(h: Heap, bytes: nat, root: nat)
    requires KernelInv(h) && Malloc(h, bytes).Served?
    ensures var g := Malloc(h, bytes).heap;
            var ptr := Address(root, Find(KERNEL, h.(size := g.size), Request(bytes)).at);
            && PositionOf(root, ptr) in g.live && PositionOf(root, ptr) !in h.live
            && Release(KERNEL, g, PositionOf(root, ptr)).live == h.live
  {
    MallocExact(h, bytes);
    var g := Malloc(h, bytes).heap;
    var at := Find(KERNEL, h.(size := g.size), Request(bytes)).at;
    assert GoodBlock(at, g.live[at], g.size);
    AddressRoundTrip(root, at);
    ReleaseKeepsInv(KERNEL, g, at);
  }

  /** Blocks start at even words, so no pointer is ever null, even past the end of the address space. */
  lemma AddressNotNull(root: nat, at: nat)
    requires root % 8 == 0 && at % 2 == 0
    ensures Address(root, at) != 0
  {
    var x := root + 4 * at + HEADER;
    var q, k := x / WORD, root / 8 + at / 2;
    assert x == 8 * k + 4;
    assert x % WORD == 8 * (k - 0x2000_0000 * q) + 4;
  }

  class KHeap {
    const root: nat
    var mem: Memory
    var size: nat
    var full: bool
    ghost var live: map<nat, Block>

    ghost function Abs(): Heap
      reads this
    {
      Heap(mem, size, live)
    }

    /** init_heap: the size argument is in bytes, the field in words. */
    constructor (start: nat, bytes: nat, words: Memory)
      ensures Abs() == Heap(words, bytes / 4, map[]) && root == start && !full
      ensures (forall a: nat :: !Marked(KERNEL, words, a)) && IsPow2(bytes / 4) && 40 <= bytes < WORD ==>
                KernelInv(Abs())
    {
      root, mem, size, full, live := start, words, bytes / 4, false, map[];
    }

    /** find_free_node; the alignment argument has no effect in the source and is dropped. */
    method FindFreeNode(node: nat, nodeSize: nat, request: nat) returns (ret: nat)
      requires root % 8 == 0 && node % 2 == 0 && (nodeSize == 0 || IsPow2(nodeSize))
      modifies this`mem
      ensures var o := Search(KERNEL, old(mem), node, nodeSize, request);
              && mem == MarkHit(KERNEL, old(mem), o)
              && ret == (if o.Hit? then Address(root, o.at) else 0)
              && (ret == 0 <==> o.Miss?)
      decreases nodeSize
    {
      ret := 0;
      var s := nodeSize / 2;
      var temp := node + s;
      if s <= 4 || (Marked(KERNEL, mem, temp) && Marked(KERNEL, mem, node)) {
        return;
      }
      AddressNotNull(root, temp);
      AddressNotNull(root, node);
      if request < s / 2 {
        ret := FindFreeNode(temp, s, request);
        if ret != 0 { return; }
        ret := FindFreeNode(node, s, request);
        if ret != 0 { return; }
      }
      if !Marked(KERNEL, mem, temp) {
        mem := mem[temp := KERNEL.magic];
        return Address(root, temp);
      } else if !Marked(KERNEL, mem, node) {
        mem := mem[node := KERNEL.magic];
        return Address(root, node);
      }
    }

    /** expand: sizes go through bytes in 32-bit arithmetic. */
    method Expand()
      modifies this`size, this`full
      ensures !full && size == Expanded(old(size))
    {
      var oldSize := size * 4 % WORD;
      var newSize := oldSize * 2 % WORD;
      full := true;
      size := newSize / 4;
      full := false;
    }

    /**
     malloc_f with its retry loop, up to the panic after several failed retries.  It panics exactly
     when both top headers of a heap are taken whose doubled byte size leaves 32 bits.
     */
    method MallocF(bytes: nat) returns (ret: nat, panicked: bool)
      requires KernelInv(Abs()) && root % 8 == 0
      modifies this
      ensures panicked <==> old(Full(KERNEL, mem, 0, size)) && 8 * old(size) >= WORD
      ensures panicked <==> Malloc(old(Abs()), bytes) == Panic
      ensures !panicked ==> && Malloc(old(Abs()), bytes) == Served(Abs()) && KernelInv(Abs())
                            && ret == Address(root, Find(KERNEL, old(Abs()).(size := size), Request(bytes)).at) != 0
    {
      ghost var h := Abs();
      MallocExact(h, bytes);
      panicked := false;
      var request := (bytes + HEADER) % WORD;
      var rCount := 0;
      ret := FindFreeNode(0, size, request);
      while ret == 0
        invariant !panicked && live == h.live && rCount <= 4
        invariant ret == 0 ==> mem == h.mem && Countable(size)
        invariant ret == 0 ==> Malloc(h, bytes) == Retry(Abs(), request, rCount)
        invariant ret != 0 ==> var o := Find(KERNEL, h.(size := size), request);
                               && o.Hit? && ret == Address(root, o.at) && mem == MarkHit(KERNEL, h.mem, o)
                               && Malloc(h, bytes) == Served(Allocate(KERNEL, h.(size := size), request))
        decreases ret == 0, 5 - rCount
      {
        ExpandedCountable(size);
        Expand();
        ret := FindFreeNode(0, size, request);
        if rCount > 3 {
          panicked := true;
          return;
        }
        rCount := rCount + 1;
      }
      ghost var o := Find(KERNEL, h.(size := size), request);
      live := live[o.at := Block(request, o.half)];
    }

    /** free_f of a pointer whose header lies on a word; false where the kernel panics. */
    method FreeF(ptr: nat) returns (ok: bool)
      requires KernelInv(Abs()) && OnWord(root, ptr)
      modifies this
      ensures Abs() == Release(KERNEL, old(Abs()), PositionOf(root, ptr)) && KernelInv(Abs())
      ensures ok <==> PositionOf(root, ptr) in old(live)
    {
      var at := PositionOf(root, ptr);
      ReleaseKeepsInv(KERNEL, Abs(), at);
      ok := Marked(KERNEL, mem, at);
      if ok {
        mem := mem[at := KERNEL.freed];
        live := live - {at};
      }
    }
  }
}
