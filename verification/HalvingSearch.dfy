/**
 The recursive halving search shared by the user allocator (find_free) and the kernel
 allocator (find_free_node).  Positions are counted in the allocator's own unit: bytes in
 user space, 4-byte words in the kernel.  The only metadata is one marker word at each
 possible block start, and a block shares that word with every ancestor on its left edge.
 */
module HalvingSearch {
  import opened Words

  /** Marker words by position relative to the heap root; a missing position holds no marker. */
  type Memory = map<nat, nat>

  /** What differs between the two allocators: marker values and the smallest usable half. */
  datatype Layout = Layout(magic: nat, freed: nat, minHalf: nat)

  const USER := Layout(0xdeadbabe, 0xfee1dead, 4)
  const KERNEL := Layout(0xfee1dead, 0xbadc0de, 5)

  /** Size of a header in bytes, which malloc adds to every request. */
  const HEADER: nat := 4

  ghost predicate ValidLayout(l: Layout) {
    1 <= l.minHalf <= HEADER + 1 && l.magic != l.freed
  }

  predicate Marked(l: Layout, mem: Memory, at: nat) {
    at in mem && mem[at] == l.magic
  }

  predicate IsPow2(n: nat) {
    n == 1 || (n > 1 && n % 2 == 0 && IsPow2(n / 2))
  }

  datatype Outcome = Miss | Hit(at: nat, half: nat)

  /** The two tests after the recursive calls: right half first, then left half. */
  function Pick(l: Layout, mem: Memory, node: nat, s: nat): Outcome {
    if !Marked(l, mem, node + s) then Hit(node + s, s)
    else if !Marked(l, mem, node) then Hit(node, s)
    else Miss
  }

  /** The search, branch by branch, on an unchanged memory. */
  function Search(l: Layout, mem: Memory, node: nat, nodeSize: nat, size: nat): Outcome
    requires l.minHalf >= 1
    decreases nodeSize
  {
    var s := nodeSize / 2;
    if s < l.minHalf || (Marked(l, mem, node + s) && Marked(l, mem, node)) then Miss
    else if size < s / 2 then
      var right := Search(l, mem, node + s, s, size);
      if right.Hit? then right else
      var left := Search(l, mem, node, s, size);
      if left.Hit? then left else Pick(l, mem, node, s)
    else Pick(l, mem, node, s)
  }

  /** Memory after the search: a hit marks its header, a miss writes nothing. */
  function MarkHit(l: Layout, mem: Memory, o: Outcome): Memory {
    if o.Hit? then mem[o.at := l.magic] else mem
  }

  /** Both headers the top level of the search looks at are marked. */
  predicate Full(l: Layout, mem: Memory, node: nat, nodeSize: nat) {
    Marked(l, mem, node + nodeSize / 2) && Marked(l, mem, node)
  }

  /** Block size handed out for a request: a function of node size and request alone. */
  function BlockSize(l: Layout, nodeSize: nat, size: nat): nat
    requires l.minHalf >= 1
    decreases nodeSize
  {
    if size < nodeSize / 2 / 2 && l.minHalf <= nodeSize / 2 / 2 then BlockSize(l, nodeSize / 2, size) else nodeSize / 2
  }

  lemma HalfOfMultiple(a: nat, n: nat)
    requires n > 0 && n % 2 == 0 && a % n == 0
    ensures a % (n / 2) == 0 && (a + n / 2) % (n / 2) == 0
  {
    var k, h := a / n, n / 2;
    assert a == k * n && n == 2 * h;
    assert a == (2 * k) * h;
    MultipleMod(2 * k, h);
    MultipleMod(2 * k + 1, h);
    assert a + h == (2 * k + 1) * h;
  }

  lemma MultipleMod(k: nat, h: nat)
    requires h > 0
    ensures (k * h) % h == 0
  {
    var q, r := (k * h) / h, (k * h) % h;
    assert k * h == q * h + r;
    if k > q {
      MulMono(q + 1, k, h);
    } else {
      MulMono(k, q, h);
    }
  }

  /**
   Exact success condition, for any contents of memory and any request: the search fails if and
   only if both half-block headers at its top level are marked.  On success exactly one unmarked header is
   returned, its block is aligned inside the node, and the block size does not depend on memory.
   */
  lemma {:induction false} SearchExact(l: Layout, mem: Memory, node: nat, nodeSize: nat, size: nat)
    requires ValidLayout(l) && IsPow2(nodeSize) && nodeSize / 2 >= l.minHalf && nodeSize >= 2
    ensures Search(l, mem, node, nodeSize, size).Miss? <==> Full(l, mem, node, nodeSize)
    ensures var o := Search(l, mem, node, nodeSize, size);
            o.Hit? ==> && !Marked(l, mem, o.at)
                       && o.half == BlockSize(l, nodeSize, size)
                       && node <= o.at && o.at + o.half <= node + nodeSize
                       && (node % nodeSize == 0 ==> o.half > 0 && o.at % o.half == 0)
    decreases nodeSize
  {
    var s := nodeSize / 2;
    if node % nodeSize == 0 { HalfOfMultiple(node, nodeSize); }
    if !Full(l, mem, node, nodeSize) && size < s / 2 && l.minHalf <= s / 2 {
      SearchExact(l, mem, node + s, s, size);
      SearchExact(l, mem, node, s, size);
    }
  }

  /**
   A level that recurses is answered by one of its recursive calls if and only if the quarters are
   still usable as halves; a request that carries its header never gets below that.  So the code
   after two failed recursive calls is dead for every request of at least one header.
   */
  lemma FallThroughNeverAllocates(l: Layout, mem: Memory, node: nat, nodeSize: nat, size: nat)
    requires ValidLayout(l) && IsPow2(nodeSize) && nodeSize / 2 >= l.minHalf && nodeSize >= 2
    requires size < nodeSize / 2 / 2 && !Full(l, mem, node, nodeSize)
    ensures var s := nodeSize / 2;
            (Search(l, mem, node + s, s, size).Hit? || Search(l, mem, node, s, size).Hit?) <==> l.minHalf <= s / 2
    ensures size >= HEADER ==> l.minHalf <= nodeSize / 2 / 2
  {
    var s := nodeSize / 2;
    if l.minHalf <= s / 2 {
      SearchExact(l, mem, node + s, s, size);
      SearchExact(l, mem, node, s, size);
    }
  }

  /**
   Size bounds of a block: a power of two, at most twice the request or the smallest block, and
   above the request unless it is a whole half.
   */
  lemma {:induction false} BlockSizeBounds(l: Layout, nodeSize: nat, size: nat)
    requires ValidLayout(l) && IsPow2(nodeSize) && nodeSize >= 2 && nodeSize / 2 >= l.minHalf
    ensures var b := BlockSize(l, nodeSize, size);
            && l.minHalf <= b <= nodeSize / 2 && IsPow2(b)
            && (b / 2 <= size || b / 2 < l.minHalf)
            && (size < b || b == nodeSize / 2)
    decreases nodeSize
  {
    if size < nodeSize / 2 / 2 && l.minHalf <= nodeSize / 2 / 2 { BlockSizeBounds(l, nodeSize / 2, size); }
  }

  /** The smallest blocks: four bytes in user space, eight words in the kernel. */
  lemma {:induction false} SmallestBlock(nodeSize: nat, size: nat)
    requires IsPow2(nodeSize)
    ensures nodeSize >= 8 ==> BlockSize(USER, nodeSize, size) >= 4 && BlockSize(USER, nodeSize, 0) == 4
    ensures nodeSize >= 16 ==> BlockSize(KERNEL, nodeSize, size) >= 8 && BlockSize(KERNEL, nodeSize, 0) == 8
    decreases nodeSize
  {
    assert IsPow2(8) by { assert IsPow2(4); }
    if nodeSize > 8 {
      Pow2Below(8, nodeSize);
      SmallestBlock(nodeSize / 2, size);
    }
  }

  lemma {:induction false} Pow2Divides(a: nat, b: nat)
    requires IsPow2(a) && IsPow2(b) && a <= b
    ensures b % a == 0
    decreases b
  {
    if a < b {
      Pow2Below(a, b);
      Pow2Divides(a, b / 2);
      var k := (b / 2) / a;
      assert b / 2 == k * a;
      assert b == (2 * k) * a;
      MultipleMod(2 * k, a);
    } else {
      MultipleMod(1, a);
    }
  }

  lemma {:induction false} Pow2Below(a: nat, b: nat)
    requires IsPow2(a) && IsPow2(b) && a < b
    ensures a <= b / 2
    decreases b
  {
    if a > 1 && b > 2 { Pow2Below(a / 2, b / 2); }
  }

  ghost predicate Disjoint(a: nat, m: nat, b: nat, n: nat) {
    a + m <= b || b + n <= a
  }

  /** Aligned power-of-two blocks are nested or disjoint. */
  lemma NestedOrDisjoint(a: nat, m: nat, b: nat, n: nat)
    requires IsPow2(m) && IsPow2(n) && m <= n && a % m == 0 && b % n == 0
    ensures Disjoint(a, m, b, n) || (b <= a && a + m <= b + n)
    ensures m == n && a != b ==> Disjoint(a, m, b, n)
  {
    Pow2Divides(m, n);
    var i := Quotient(a, m);
    var j := Quotient(b, n);
    var q := Quotient(n, m);
    OnGrid(a, m, b, n, i, j, q);
  }

  lemma Quotient(a: nat, m: nat) returns (k: nat)
    requires m > 0 && a % m == 0
    ensures a == k * m
  {
    k := a / m;
  }

  lemma OnGrid(a: nat, m: nat, b: nat, n: nat, i: nat, j: nat, q: nat)
    requires a == i * m && b == j * n && n == q * m && m > 0
    ensures Disjoint(a, m, b, n) || (b <= a && a + m <= b + n)
    ensures m == n && a != b ==> Disjoint(a, m, b, n)
  {
    Assoc(j, q, m);
    GridCases(i, j * q, q, m);
    if m == n { GridCases(i, j, 1, m); }
  }

  /** Cells i and [u, u+q) of a grid with step m. */
  lemma GridCases(i: nat, u: nat, q: nat, m: nat)
    ensures Disjoint(i * m, m, u * m, q * m) || (u * m <= i * m && i * m + m <= u * m + q * m)
    ensures q == 1 && i != u ==> Disjoint(i * m, m, u * m, m)
  {
    Distribute(i, 1, m);
    Distribute(u, q, m);
    if i < u {
      MulMono(i + 1, u, m);
    } else if i >= u + q {
      MulMono(u + q, i, m);
    } else {
      MulMono(u, i, m);
      MulMono(i + 1, u + q, m);
    }
  }

  lemma Distribute(x: nat, y: nat, m: nat)
    ensures (x + y) * m == x * m + y * m
  {}

  lemma Assoc(j: nat, q: nat, m: nat)
    ensures j * (q * m) == (j * q) * m
  {}

  lemma MulMono(x: nat, y: nat, m: nat)
    requires x <= y
    ensures x * m <= y * m
  {}

  // ---- Powers of two in 32 bits ----

  lemma {:induction false} Exp2IsPow2(k: nat)
    ensures IsPow2(Exp2(k)) && Exp2(k) >= 1
  {
    if k > 0 {
      Exp2IsPow2(k - 1);
      assert Exp2(k) / 2 == Exp2(k - 1);
    }
  }

  /** Powers of two below 2^(k+1) are at most 2^k. */
  lemma {:induction false} Pow2Word(n: nat, k: nat)
    requires IsPow2(n) && n < 2 * Exp2(k)
    ensures n <= Exp2(k)
  {
    if n > 1 && k > 0 { Pow2Word(n / 2, k - 1); }
  }
}
