/** The symbol table as it runs: an array of buckets written in place, list loops over a chain. */
module Symbols {
  import opened Words
  import opened SymbolsSpec

  /** hash_symbol: the character loop. */
  method HashSymbol(s: Name) returns (ret: nat)
    ensures ret == Hash(s)
  {
    ret := 0;
    for i := 0 to |s|
      invariant ret == HashPrefix(s, i)
    {
      ret := Xor(ret, s[i] * (i + 1) % WORD);
      ret := ret * s[i] % WORD;
    }
  }

  class SymbolBin {
    var used: nat
    const buckets: array<Bucket>

    ghost function Abs(): Table
      reads this, buckets
    {
      Table(used, buckets[..])
    }

    /** init_symbol_bin: all buckets zeroed. */
    constructor (size: nat)
      ensures Abs() == SymbolsSpec.Init(size) && buckets.Length == size && fresh(buckets)
    {
      used := 0;
      buckets := new Bucket[size](i => Bucket(0, []));
      new;
      assert buckets[..] == SymbolsSpec.Init(size).buckets;
    }

    /** get_symbol. */
    method GetSymbol(name: Name) returns (address: nat)
      requires buckets.Length > 0
      ensures address == Lookup(Abs(), Hash(name))
    {
      var hash := HashSymbol(name);
      var b := buckets[hash % buckets.Length];
      if b.entries == 0 {
        return 0;
      }
      var k := 0;
      while k < |b.chain|
        invariant k <= |b.chain| && k <= Find(b.chain, hash)
      {
        if b.chain[k].hash == hash {
          return b.chain[k].address;
        }
        k := k + 1;
      }
      return 0;
    }

    /** export_symbol: a new root, an overwritten node, or a node behind the last one. */
    method ExportSymbol(name: Name, address: nat)
      requires buckets.Length > 0
      modifies this, buckets
      ensures Abs() == Export(old(Abs()), Hash(name), address)
    {
      var hash := HashSymbol(name);
      var i := hash % buckets.Length;
      var b := buckets[i];
      if b.entries == 0 {
        used := used + 1;
        buckets[i] := Bucket(b.entries + 1, [Symbol(hash, address)]);
      } else {
        var k := 0;
        while k < |b.chain| && b.chain[k].hash != hash
          invariant k <= |b.chain| && k <= Find(b.chain, hash)
        {
          k := k + 1;
        }
        if k < |b.chain| {
          buckets[i] := b.(chain := b.chain[k := b.chain[k].(address := address)]);
        } else {
          buckets[i] := Bucket(b.entries + 1, b.chain + [Symbol(hash, address)]);
        }
      }
    }
  }
}
