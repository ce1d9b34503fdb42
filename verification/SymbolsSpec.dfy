/** The kernel symbol table: a chained hash index keyed by a 32-bit hash of the name. */
module SymbolsSpec {
  import opened Sequences
  import opened Words

  /** A C string: signed characters, without the terminating zero. */
  type Name = seq<int>

  /** Bitwise exclusive or of two numbers. */
  function Xor(a: nat, b: nat): nat
    decreases a + b
  {
    if a == 0 then b
    else if b == 0 then a
    else 2 * Xor(a / 2, b / 2) + (if a % 2 != b % 2 then 1 else 0)
  }

  /** One round of hash_symbol on the character at index i, in 32-bit arithmetic. */
  function Round(ret: nat, c: int, i: nat): nat {
    Xor(ret, c * (i + 1) % WORD) * c % WORD
  }

  /** hash_symbol as a left fold. */
  function HashPrefix(s: Name, n: nat): nat
    requires n <= |s|
  {
    if n == 0 then 0 else Round(HashPrefix(s, n - 1), s[n - 1], n - 1)
  }

  function Hash(s: Name): nat { HashPrefix(s, |s|) }

  datatype Symbol = Symbol(hash: nat, address: nat)

  datatype Bucket = Bucket(entries: nat, chain: seq<Symbol>)

  datatype Table = Table(used: nat, buckets: seq<Bucket>)

  /** init_symbol_bin. */
  function Init(size: nat): Table { Table(0, seq(size, i => Bucket(0, []))) }

  /** Position of a hash in a chain, or the chain's length. */
  function Find(chain: seq<Symbol>, hash: nat): (k: nat)
    ensures k <= |chain| && (k < |chain| ==> chain[k].hash == hash)
    ensures forall j | 0 <= j < k :: chain[j].hash != hash
  {
    FirstIndex(chain, (x: Symbol) => x.hash == hash)
  }

  /** export_symbol on one bucket. */
  function ExportIn(b: Bucket, hash: nat, address: nat): Bucket {
    if b.entries == 0 then Bucket(1, [Symbol(hash, address)])
    else
      var k := Find(b.chain, hash);
      if k < |b.chain| then b.(chain := b.chain[k := b.chain[k].(address := address)])
      else Bucket(b.entries + 1, b.chain + [Symbol(hash, address)])
  }

  function Export(t: Table, hash: nat, address: nat): Table
    requires |t.buckets| > 0
  {
    var i := hash % |t.buckets|;
    Table(if t.buckets[i].entries == 0 then t.used + 1 else t.used,
          t.buckets[i := ExportIn(t.buckets[i], hash, address)])
  }

  /** get_symbol: 0 if the hash is not there. */
  function LookupIn(b: Bucket, hash: nat): nat {
    if b.entries == 0 then 0
    else
      var k := Find(b.chain, hash);
      if k < |b.chain| then b.chain[k].address else 0
  }

  function Lookup(t: Table, hash: nat): nat
    requires |t.buckets| > 0
  {
    LookupIn(t.buckets[hash % |t.buckets|], hash)
  }

  // ---- Invariant ----

  /** A chain has distinct hashes, all congruent to its bucket, and its counter is its length. */
  ghost predicate GoodBucket(b: Bucket, i: nat, n: nat)
    requires n > 0
  {
    && b.entries == |b.chain|
    && (forall j, k | 0 <= j < k < |b.chain| :: b.chain[j].hash != b.chain[k].hash)
    && (forall j | 0 <= j < |b.chain| :: b.chain[j].hash % n == i)
  }

  function InUse(b: Bucket): nat { if b.chain != [] then 1 else 0 }

  /** Number of non-empty buckets. */
  function CountUsed(buckets: seq<Bucket>): nat { SumOf(buckets, InUse) }

  ghost predicate Inv(t: Table) {
    && |t.buckets| > 0
    && (forall i | 0 <= i < |t.buckets| :: GoodBucket(t.buckets[i], i, |t.buckets|))
    && t.used == CountUsed(t.buckets)
  }

  lemma {:induction false} CountUsedEmpty(buckets: seq<Bucket>)
    requires forall i | 0 <= i < |buckets| :: buckets[i].chain == []
    ensures CountUsed(buckets) == 0
  {
    if buckets != [] { CountUsedEmpty(buckets[1..]); }
  }

  lemma InitInv(size: nat)
    requires size > 0
    ensures Inv(Init(size)) && forall h: nat :: Lookup(Init(size), h) == 0
  {
    CountUsedEmpty(Init(size).buckets);
    forall h: nat ensures Lookup(Init(size), h) == 0 {
      assert Init(size).buckets[h % size].entries == 0;
    }
  }

  /** The symbol an export leaves in a bucket: where the hash was, or behind the last one. */
  lemma ExportChain(b: Bucket, hash: nat, address: nat)
    requires b.entries == |b.chain|
    ensures var k, b' := Find(b.chain, hash), ExportIn(b, hash, address);
            && b'.entries == |b'.chain| == (if k < |b.chain| then |b.chain| else |b.chain| + 1)
            && b'.chain[k] == Symbol(hash, address)
            && (forall j | 0 <= j < |b.chain| && j != k :: b'.chain[j] == b.chain[j])
  {}

  /** A chain position holding a hash is where the search ends, if hashes are distinct. */
  lemma FoundAt(chain: seq<Symbol>, hash: nat, k: nat)
    requires k < |chain| && chain[k].hash == hash && forall j | 0 <= j < k :: chain[j].hash != hash
    ensures Find(chain, hash) == k
  {}

  lemma ExportKeepsGood(b: Bucket, i: nat, n: nat, hash: nat, address: nat)
    requires n > 0 && GoodBucket(b, i, n) && hash % n == i
    ensures GoodBucket(ExportIn(b, hash, address), i, n) && ExportIn(b, hash, address).chain != []
  {
    ExportChain(b, hash, address);
  }

  /** One export changes a bucket's answer for its own hash alone. */
  lemma ExportInBucket(b: Bucket, hash: nat, address: nat, h: nat)
    requires b.entries == |b.chain|
    ensures LookupIn(ExportIn(b, hash, address), h) == if h == hash then address else LookupIn(b, h)
  {
    ExportChain(b, hash, address);
    var b' := ExportIn(b, hash, address);
    if h == hash {
      FoundAt(b'.chain, hash, Find(b.chain, hash));
    } else if Find(b.chain, h) < |b.chain| {
      FoundAt(b'.chain, h, Find(b.chain, h));
    } else {
      assert forall j | 0 <= j < |b'.chain| :: b'.chain[j].hash != h;
    }
  }

  /** Exporting keeps the invariant; the table answers like a map written at one key. */
  lemma ExportRefines(t: Table, hash: nat, address: nat, h: nat)
    requires Inv(t)
    ensures Inv(Export(t, hash, address))
    ensures Lookup(Export(t, hash, address), h) == if h == hash then address else Lookup(t, h)
  {
    var n := |t.buckets|;
    var i := hash % n;
    ExportKeepsGood(t.buckets[i], i, n, hash, address);
    ExportInBucket(t.buckets[i], hash, address, h);
    SumUpdate(t.buckets, i, ExportIn(t.buckets[i], hash, address), InUse);
  }

  // ---- Runs ----

  datatype Entry = Entry(name: Name, address: nat)

  function ExportAll(t: Table, es: seq<Entry>): (r: Table)
    requires |t.buckets| > 0
    ensures |r.buckets| == |t.buckets|
    decreases |es|
  {
    if es == [] then t else ExportAll(Export(t, Hash(es[0].name), es[0].address), es[1..])
  }

  /** The latest address exported for a hash, or a default. */
  function Latest(es: seq<Entry>, hash: nat, otherwise: nat): nat
    decreases |es|
  {
    if es == [] then otherwise
    else Latest(es[1..], hash, if Hash(es[0].name) == hash then es[0].address else otherwise)
  }

  lemma {:induction false} ExportAllRefines(t: Table, es: seq<Entry>, h: nat)
    requires Inv(t)
    ensures Inv(ExportAll(t, es)) && Lookup(ExportAll(t, es), h) == Latest(es, h, Lookup(t, h))
    decreases |es|
  {
    if es != [] {
      ExportRefines(t, Hash(es[0].name), es[0].address, h);
      ExportAllRefines(Export(t, Hash(es[0].name), es[0].address), es[1..], h);
    }
  }

  /** After any exports into a fresh table, a lookup gives the latest address for the name's hash, or 0. */
  lemma SymbolTableIsMap(size: nat, es: seq<Entry>, name: Name)
    requires size > 0
    ensures Inv(ExportAll(Init(size), es))
    ensures Lookup(ExportAll(Init(size), es), Hash(name)) == Latest(es, Hash(name), 0)
  {
    InitInv(size);
    ExportAllRefines(Init(size), es, Hash(name));
  }

  /** The latest address exported under exactly this name. */
  function LatestByName(es: seq<Entry>, name: Name, otherwise: nat): nat
    decreases |es|
  {
    if es == [] then otherwise
    else LatestByName(es[1..], name, if es[0].name == name then es[0].address else otherwise)
  }

  /** Position of the last export under a name of this hash, or the number of exports. */
  function LastOfHash(es: seq<Entry>, hash: nat): (k: nat)
    ensures k <= |es|
    ensures k < |es| ==> Hash(es[k].name) == hash && forall j | k < j < |es| :: Hash(es[j].name) != hash
    ensures k == |es| ==> forall j | 0 <= j < |es| :: Hash(es[j].name) != hash
  {
    LastOfHashIn(es, hash, |es|)
  }

  function LastOfHashIn(es: seq<Entry>, hash: nat, n: nat): (k: nat)
    requires n <= |es| && forall j | n <= j < |es| :: Hash(es[j].name) != hash
    ensures k <= |es|
    ensures k < |es| ==> Hash(es[k].name) == hash && forall j | k < j < |es| :: Hash(es[j].name) != hash
    ensures k == |es| ==> forall j | 0 <= j < |es| :: Hash(es[j].name) != hash
  {
    if n == 0 then |es| else if Hash(es[n - 1].name) == hash then n - 1 else LastOfHashIn(es, hash, n - 1)
  }

  /** The latest address of a hash is that of the last export under it. */
  lemma {:induction false} LatestIsLast(es: seq<Entry>, hash: nat, otherwise: nat, k: nat)
    requires k < |es| && Hash(es[k].name) == hash && forall j | k < j < |es| :: Hash(es[j].name) != hash
    ensures Latest(es, hash, otherwise) == es[k].address
    decreases |es|
  {
    var next := if Hash(es[0].name) == hash then es[0].address else otherwise;
    if k == 0 {
      NoneLatest(es[1..], hash, next);
    } else {
      assert es[1..][k - 1] == es[k];
      LatestIsLast(es[1..], hash, next, k - 1);
    }
  }

  lemma {:induction false} NoneLatest(es: seq<Entry>, hash: nat, otherwise: nat)
    requires forall j | 0 <= j < |es| :: Hash(es[j].name) != hash
    ensures Latest(es, hash, otherwise) == otherwise
    decreases |es|
  {
    if es != [] { NoneLatest(es[1..], hash, otherwise); }
  }

  lemma {:induction false} LatestByNameIsLast(es: seq<Entry>, name: Name, otherwise: nat, k: nat)
    requires k < |es| && es[k].name == name && forall j | k < j < |es| :: es[j].name != name
    ensures LatestByName(es, name, otherwise) == es[k].address
    decreases |es|
  {
    var next := if es[0].name == name then es[0].address else otherwise;
    if k == 0 {
      NoneLatestByName(es[1..], name, next);
    } else {
      assert es[1..][k - 1] == es[k];
      LatestByNameIsLast(es[1..], name, next, k - 1);
    }
  }

  lemma {:induction false} NoneLatestByName(es: seq<Entry>, name: Name, otherwise: nat)
    requires forall j | 0 <= j < |es| :: es[j].name != name
    ensures LatestByName(es, name, otherwise) == otherwise
    decreases |es|
  {
    if es != [] { NoneLatestByName(es[1..], name, otherwise); }
  }

  /**
   When the table answers like a map by name: after any exports a lookup gives the address last
   exported under the name, or 0, if and only if the last export under a name of the same hash, if
   there is any, was under this very name or at that same address.
   */
  lemma LookupByNameIff(size: nat, es: seq<Entry>, name: Name)
    requires size > 0
    ensures var k := LastOfHash(es, Hash(name));
            Lookup(ExportAll(Init(size), es), Hash(name)) == LatestByName(es, name, 0) <==>
              k == |es| || es[k].name == name || es[k].address == LatestByName(es, name, 0)
  {
    SymbolTableIsMap(size, es, name);
    var k := LastOfHash(es, Hash(name));
    if k == |es| {
      NoneLatest(es, Hash(name), 0);
      NoneLatestByName(es, name, 0);
    } else {
      LatestIsLast(es, Hash(name), 0, k);
      if es[k].name == name { LatestByNameIsLast(es, name, 0, k); }
    }
  }

  /**
   Keyed by hash, not by name: every one-character name collides with the name of the negated
   (signed) character, so exporting one overwrites the other.
   */
  lemma NamesCollide(c: int)
    requires 0 < c < 128
    ensures Hash([c]) == Hash([-c]) == c * c
  {
    HashOne(c);
    HashOne(-c);
    SquareFits(c);
    NegatedSquare(c);
  }

  /** So exporting [c] and then [-c] answers a lookup of [c] with the address of [-c]. */
  lemma LookupFindsOtherName(size: nat, c: int, address: nat, other: nat)
    requires size > 0 && 0 < c < 128 && address != other
    ensures var es := [Entry([c], address), Entry([-c], other)];
            && Lookup(ExportAll(Init(size), es), Hash([c])) == other
            && LatestByName(es, [c], 0) == address
  {
    var es := [Entry([c], address), Entry([-c], other)];
    NamesCollide(c);
    SymbolTableIsMap(size, es, [c]);
    LatestIsLast(es, Hash([c]), 0, 1);
    assert es[1].name[0] != es[0].name[0];
    LatestByNameIsLast(es, [c], 0, 0);
  }

  lemma SquareFits(c: int)
    requires 0 < c < 128
    ensures c * c < WORD && c * c % WORD == c * c
  {
    assert c * c <= 127 * c;
  }

  lemma NegatedSquare(c: int)
    requires 0 < c < 128
    ensures (WORD - c) * (-c) % WORD == c * c
  {
    assert (WORD - c) * (-c) == c * c - c * WORD;
    SquareFits(c);
    AddMultiple(c * c, -c);
  }

  lemma HashOne(c: int)
    requires -128 < c < 128
    ensures Hash([c]) == (if c >= 0 then c else c + WORD) * c % WORD
  {
    var s: Name := [c];
    assert c % WORD == if c >= 0 then c else c + WORD;
    assert HashPrefix(s, 1) == Round(HashPrefix(s, 0), c, 0);
  }

  // ---- What the hash is ----

  /** The k-th binary digit of a number. */
  function Bit(n: nat, k: nat): nat
    decreases k
  {
    if k == 0 then n % 2 else Bit(n / 2, k - 1)
  }

  /** The digits of an exclusive or are those in which the two numbers differ. */
  lemma {:induction false} XorBit(a: nat, b: nat, k: nat)
    ensures Bit(Xor(a, b), k) == if Bit(a, k) != Bit(b, k) then 1 else 0
    decreases k
  {
    if a == 0 { ZeroBit(k); BitRange(b, k); }
    else if b == 0 { ZeroBit(k); BitRange(a, k); }
    else {
      XorHalf(a, b);
      if k > 0 { XorBit(a / 2, b / 2, k - 1); }
    }
  }

  lemma {:induction false} ZeroBit(k: nat)
    ensures Bit(0, k) == 0
  {
    if k > 0 { ZeroBit(k - 1); }
  }

  lemma {:induction false} BitRange(n: nat, k: nat)
    ensures Bit(n, k) < 2
    decreases k
  {
    if k > 0 { BitRange(n / 2, k - 1); }
  }

  lemma XorHalf(a: nat, b: nat)
    ensures Xor(a, b) / 2 == Xor(a / 2, b / 2)
    ensures Xor(a, b) % 2 == if a % 2 != b % 2 then 1 else 0
  {}

  /** Exclusive or with the same number twice gives back the first. */
  lemma {:induction false} XorTwice(a: nat, b: nat)
    ensures Xor(Xor(a, b), b) == a
    decreases a + b
  {
    if b > 0 {
      XorHalf(a, b);
      XorHalf(Xor(a, b), b);
      XorTwice(a / 2, b / 2);
    }
  }

  lemma {:induction false} XorBound(a: nat, b: nat, k: nat)
    requires a < Exp2(k) && b < Exp2(k)
    ensures Xor(a, b) < Exp2(k)
    decreases k
  {
    if k > 0 && a > 0 && b > 0 { XorBound(a / 2, b / 2, k - 1); }
  }

  lemma {:induction false} PrefixAgrees(s: Name, t: Name, n: nat)
    requires n <= |s| && n <= |t| && s[..n] == t[..n]
    ensures HashPrefix(s, n) == HashPrefix(t, n)
  {
    if n > 0 {
      assert s[..n - 1] == s[..n][..n - 1] && t[..n - 1] == t[..n][..n - 1];
      assert s[n - 1] == s[..n][n - 1] && t[n - 1] == t[..n][n - 1];
      PrefixAgrees(s, t, n - 1);
    }
  }

  /** The hash of the empty name, and of a name with one more character: it depends on every character and its place. */
  lemma HashAppend(s: Name, c: int)
    ensures Hash([]) == 0
    ensures Hash(s + [c]) == Xor(Hash(s), c * (|s| + 1) % WORD) * c % WORD
  {
    PrefixAgrees(s, s + [c], |s|);
  }

  // ---- What the hash separates ----

  /** An odd factor can be cancelled modulo a power of two. */
  lemma {:induction false} OddCancels(z: int, c: int, k: nat, q: int) returns (p: int)
    requires c % 2 == 1 && z * c == q * Exp2(k)
    ensures z == p * Exp2(k)
    decreases k
  {
    if k == 0 {
      p := z;
    } else {
      Regroup(q, Exp2(k - 1));
      EvenFactor(z, c, q * Exp2(k - 1));
      var w := z / 2;
      Regroup(c, w);
      assert w * c == q * Exp2(k - 1);
      p := OddCancels(w, c, k - 1, q);
      Regroup(p, Exp2(k - 1));
    }
  }

  lemma Regroup(x: int, y: int)
    ensures x * (2 * y) == 2 * (x * y) && x * y == y * x
  {}

  lemma EvenFactor(z: int, c: int, h: int)
    requires c % 2 == 1 && z * c == 2 * h
    ensures z % 2 == 0
  {
    var m := c / 2;
    assert z * c == 2 * (z * m) + z;
  }

  /** Products of two words with an odd number agree modulo 2^32 only if the words agree. */
  lemma OddFactorSeparates(x: nat, y: nat, c: int)
    requires x < WORD && y < WORD && c % 2 == 1 && x * c % WORD == y * c % WORD
    ensures x == y
  {
    var q := x * c / WORD - y * c / WORD;
    assert (x - y) * c == x * c - y * c == q * WORD;
    Exp2Values();
    var p := OddCancels(x - y, c, 32, q);
    SmallMultiple(x - y, p);
  }

  lemma SmallMultiple(z: int, p: int)
    requires z == p * WORD && 0 - WORD < z < WORD
    ensures z == 0
  {}

  /**
   Names of one length with the same odd last character collide if and only if they collide without
   it: the last round loses nothing.
   */
  lemma OddLastSeparates(s: Name, t: Name, c: int)
    requires |s| == |t| && c % 2 == 1
    ensures Hash(s + [c]) == Hash(t + [c]) <==> Hash(s) == Hash(t)
  {
    HashAppend(s, c);
    HashAppend(t, c);
    if Hash(s + [c]) == Hash(t + [c]) {
      var b := c * (|s| + 1) % WORD;
      Exp2Values();
      XorBound(Hash(s), b, 32);
      XorBound(Hash(t), b, 32);
      OddFactorSeparates(Xor(Hash(s), b), Xor(Hash(t), b), c);
      XorTwice(Hash(s), b);
      XorTwice(Hash(t), b);
    }
  }

  /** Names of different hashes keep their own addresses. */
  lemma DifferentHashes(size: nat, n1: Name, a1: nat, n2: Name, a2: nat)
    requires size > 0 && Hash(n1) != Hash(n2)
    ensures var t := ExportAll(Init(size), [Entry(n1, a1), Entry(n2, a2)]);
            Lookup(t, Hash(n1)) == a1 && Lookup(t, Hash(n2)) == a2
  {
    var es := [Entry(n1, a1), Entry(n2, a2)];
    SymbolTableIsMap(size, es, n1);
    SymbolTableIsMap(size, es, n2);
    LatestIsLast(es, Hash(n1), 0, 0);
    LatestIsLast(es, Hash(n2), 0, 1);
  }

  /** "ab" and "ac", which share their first character, have their own hashes and keep their own addresses. */
  lemma AbAndAc(size: nat, ab: Name, ac: Name, x: nat, y: nat)
    requires size > 0 && |ab| == |ac| == 2 && ab[0] == ac[0] == 97 && ab[1] == 98 && ac[1] == 99
    ensures Hash(ab) == 903658 && Hash(ac) == 913077
    ensures Lookup(ExportAll(Init(size), [Entry(ab, x), Entry(ac, y)]), Hash(ab)) == x
  {
    XorValues();
    HashOfTwo(ab, 9409, 196, 9221, 903658);
    HashOfTwo(ac, 9409, 198, 9223, 913077);
    DifferentHashes(size, ab, x, ac, y);
  }

  lemma HashOfTwo(s: Name, h: nat, w: nat, x: nat, r: nat)
    requires |s| == 2 && 0 <= s[0] < WORD && s[0] * s[0] % WORD == h
    requires s[1] * 2 % WORD == w && Xor(h, w) == x && x * s[1] % WORD == r
    ensures Hash(s) == r
  {
    var a, c, e, p := s[0], s[1], s[..0], s[..1];
    assert e + [a] == p && p + [c] == s;
    assert a * (|e| + 1) == a && c * (|p| + 1) == c * 2;
    HashNext(e, a, 0, a, a, h);
    HashNext(p, c, h, w, x, r);
  }

  /** One round worked out: the hash so far, the weighted character, their exclusive or and the new hash. */
  lemma HashNext(s: Name, c: int, h: nat, w: nat, x: nat, r: nat)
    requires Hash(s) == h && c * (|s| + 1) % WORD == w && Xor(h, w) == x && x * c % WORD == r
    ensures Hash(s + [c]) == r
  {
    HashAppend(s, c);
  }

  lemma XorValues()
    ensures Xor(9409, 196) == 9221 && Xor(9409, 198) == 9223
  {
    assert Xor(73, 1) == 72;
    assert Xor(147, 3) == 144;
    assert Xor(294, 6) == 288;
    assert Xor(588, 12) == 576;
    assert Xor(1176, 24) == 1152;
    assert Xor(2352, 49) == 2305;
    assert Xor(4704, 98) == 4610 && Xor(4704, 99) == 4611;
  }
}
