/**
  Symbol lookup in the dynamic symbol table of an ELF file, through the GNU hash table (both in xDL
  and in ElfImg) and through the SysV one, against a plain scan of the table.
 */
module SymbolTables {
  import opened Words
  import opened Bits
  import opened SymbolHashes

  datatype Sym = Sym(name: Name, value: u64, size: u64, tls: bool, shndx: nat)

  /** The first symbol from i on with the name. */
  function Scan(syms: seq<Sym>, name: Name, i: nat): (r: Option<nat>)
    requires i <= |syms|
    ensures r.Some? ==> i <= r.value < |syms| && syms[r.value].name == name
    ensures r.Some? ==> forall k :: i <= k < r.value ==> syms[k].name != name
    ensures r.None? ==> forall k :: i <= k < |syms| ==> syms[k].name != name
    decreases |syms| - i
  {
    if i == |syms| then None else if syms[i].name == name then Some(i) else Scan(syms, name, i + 1)
  }

  // ----- the GNU hash table

  /**
    words: the buckets, then the chains. The words of the bloom filter have classBits bits: 32 or 64, as
    addresses do.
   */
  datatype GnuTable = GnuTable(words: seq<u32>, nbuckets: nat, symoffset: nat, bloom: seq<u64>, shift: nat,
      classBits: nat)
  {
    function Bucket(b: nat): nat
      requires b < |words|
    {
      words[b]
    }

    /** The chain entry of symbol i; xDL finds it in the chains behind the buckets, counted from symoffset. */
    function Chain(i: nat): u32
      requires symoffset <= i && nbuckets + (i - symoffset) < |words|
    {
      words[nbuckets + (i - symoffset)]
    }

    /** Where ElfImg and xdl_sym_by_addr let the chain pointer point: symoffset entries before the chains. */
    function BiasedChain(): int { nbuckets - symoffset }
  }

  /** The two bits of the bloom filter word that stand for a hash. */
  function BloomMask(t: GnuTable, hash: u32): nat
    requires t.classBits > 0
  {
    Or(Pow2(hash % t.classBits), Pow2(hash / Pow2(t.shift) % t.classBits))
  }

  function BloomWord(t: GnuTable, hash: u32): u64
    requires |t.bloom| > 0 && t.classBits > 0
  {
    t.bloom[hash / t.classBits % |t.bloom|]
  }

  /** chain | 1 */
  function WithoutLowest(hash: u32): u32 { hash - hash % 2 + 1 }

  /** Sizes fit, and buckets point at symbols. */
  predicate Sized(t: GnuTable, syms: seq<Sym>)
  {
    && 0 < t.nbuckets && 0 < |t.bloom| && t.shift < 32 && (t.classBits == 32 || t.classBits == 64)
    && (forall w <- t.bloom :: w < Pow2(t.classBits))
    && t.symoffset <= |syms| && |t.words| == t.nbuckets + (|syms| - t.symoffset)
    && forall b :: 0 <= b < t.nbuckets ==> t.words[b] < t.symoffset || t.words[b] < |syms|
  }

  function SymSlot(t: GnuTable, syms: seq<Sym>, i: nat): nat
    requires t.nbuckets > 0 && i < |syms|
  {
    GnuHash(syms[i].name) % t.nbuckets
  }

  /** Symbol i is entered in the table: in the chain of its bucket, and in the bloom filter. */
  predicate Entered(t: GnuTable, syms: seq<Sym>, i: nat)
    requires Sized(t, syms) && t.symoffset <= i < |syms|
  {
    var hash := GnuHash(syms[i].name);
    var start, word := t.words[hash % t.nbuckets], t.bloom[hash / t.classBits % |t.bloom|];
    && t.Chain(i) / 2 == hash / 2
    && t.symoffset <= start <= i && (forall k :: start <= k < i ==> t.Chain(k) % 2 == 0)
    && Bit(word, hash % t.classBits) && Bit(word, hash / Pow2(t.shift) % t.classBits)
  }

  /**
    The table the linker makes for the symbols from symoffset on: each of them is entered, and each
    chain holds the symbols of one bucket.
   */
  ghost predicate WellFormed(t: GnuTable, syms: seq<Sym>)
  {
    && Sized(t, syms)
    && (forall i :: t.symoffset <= i < |syms| ==> Entered(t, syms, i))
    && (t.symoffset < |syms| ==> t.Chain(|syms| - 1) % 2 == 1)
    && (forall b :: 0 <= b < t.nbuckets && t.symoffset <= t.words[b] ==> SymSlot(t, syms, t.words[b]) == b)
    && (forall k :: t.symoffset <= k < |syms| - 1 && t.Chain(k) % 2 == 0 ==>
         SymSlot(t, syms, k + 1) == SymSlot(t, syms, k))
  }

  /** The filter lets a name pass exactly if the word of its hash has both of its bits. */
  lemma BloomPassesExactly(t: GnuTable, name: Name)
    requires |t.bloom| > 0 && t.classBits > 0
    ensures var h := GnuHash(name);
            var word := t.bloom[h / t.classBits % |t.bloom|];
            And(BloomWord(t, h), BloomMask(t, h)) == BloomMask(t, h) <==>
              Bit(word, h % t.classBits) && Bit(word, h / Pow2(t.shift) % t.classBits)
  {
    hide GnuHash, Bit, And, Or, Pow2;
    TwoBits(BloomWord(t, GnuHash(name)), GnuHash(name) % t.classBits, GnuHash(name) / Pow2(t.shift) % t.classBits);
  }

  /** So it never rejects one that is in the table. */
  lemma BloomKeepsPresent(t: GnuTable, syms: seq<Sym>, name: Name)
    requires WellFormed(t, syms) && Scan(syms, name, t.symoffset).Some?
    ensures And(BloomWord(t, GnuHash(name)), BloomMask(t, GnuHash(name))) == BloomMask(t, GnuHash(name))
  {
    hide GnuHash, Bit, BloomWord, BloomMask, And, Or, Pow2;
    var i := Scan(syms, name, t.symoffset).value;
    assert Entered(t, syms, i);
    BloomPassesExactly(t, name);
  }

  /** A symbol with the name can only stand at or behind the start of the bucket of the name. */
  lemma NotBefore(t: GnuTable, syms: seq<Sym>, name: Name, k: nat)
    requires WellFormed(t, syms) && t.symoffset <= k < |syms| && syms[k].name == name
    ensures var start := t.words[GnuHash(name) % t.nbuckets];
            && t.symoffset <= start <= k && t.Chain(k) / 2 == GnuHash(name) / 2
            && forall j :: start <= j < k ==> t.Chain(j) % 2 == 0
  {
    hide GnuHash, Bit, BloomWord, WithoutLowest;
    assert Entered(t, syms, k);
  }

  lemma NameAt(t: GnuTable, syms: seq<Sym>, name: Name)
    requires WellFormed(t, syms)
    ensures forall k :: t.symoffset <= k < |syms| && syms[k].name == name ==>
              var start := t.words[GnuHash(name) % t.nbuckets];
              && t.symoffset <= start <= k && t.Chain(k) / 2 == GnuHash(name) / 2
              && forall j :: start <= j < k ==> t.Chain(j) % 2 == 0
  {
    hide GnuHash, WithoutLowest, WellFormed;
    assert Sized(t, syms) by { GnuSized(t, syms); }
    forall k | t.symoffset <= k < |syms| && syms[k].name == name
      ensures var start := t.words[GnuHash(name) % t.nbuckets];
              && t.symoffset <= start <= k && t.Chain(k) / 2 == GnuHash(name) / 2
              && forall j :: start <= j < k ==> t.Chain(j) % 2 == 0
    {
      NotBefore(t, syms, name, k);
    }
  }

  lemma GnuSized(t: GnuTable, syms: seq<Sym>)
    requires WellFormed(t, syms)
    ensures Sized(t, syms) && (t.symoffset < |syms| ==> t.Chain(|syms| - 1) % 2 == 1)
  {
    hide Pow2, Entered;
  }

  /** The two ways to compare hashes but for the lowest bit. */
  lemma SameButLowest(a: u32, b: u32)
    ensures WithoutLowest(a) == WithoutLowest(b) <==> a / 2 == b / 2
    ensures Xor(a, b) / 2 == 0 <==> a / 2 == b / 2
  {
    hide Xor;
    XorStep(a, b);
    XorZero(a / 2, b / 2);
  }

  /** xdl_dynsym_find_symbol_use_gnu_hash: the plain scan from symoffset. */
  method XdlGnuLookup(t: GnuTable, syms: seq<Sym>, name: Name) returns (r: Option<nat>)
    requires WellFormed(t, syms)
    ensures r == Scan(syms, name, t.symoffset)
  {
    hide GnuHash, BloomWord, BloomMask, WellFormed, And, WithoutLowest;
    GnuSized(t, syms);
    NameAt(t, syms, name);
    var hash := ComputeGnuHash(name);
    var mask := BloomMask(t, hash);
    if Scan(syms, name, t.symoffset).Some? {
      BloomKeepsPresent(t, syms, name);
    }
    if And(BloomWord(t, hash), mask) != mask {
      return None;
    }
    var i := t.Bucket(hash % t.nbuckets);
    if i < t.symoffset {
      return None;
    }
    while true
      invariant t.symoffset <= i < |syms|
      invariant forall k :: t.symoffset <= k < i ==> syms[k].name != name
      decreases |syms| - i
    {
      var symHash := t.Chain(i);
      SameButLowest(hash, symHash);
      if WithoutLowest(hash) == WithoutLowest(symHash) {
        if syms[i].name == name {
          return Some(i);
        }
      }
      if symHash % 2 == 1 {
        return None;
      }
      i := i + 1;
    }
  }

  /** ElfImg::GnuLookup: the value of the symbol the plain scan finds, or 0. */
  method ElfImgGnuLookup(t: GnuTable, syms: seq<Sym>, name: Name, hash: u32) returns (value: u64)
    requires hash == GnuHash(name) && (t.classBits == 32 || t.classBits == 64)
    requires t.nbuckets != 0 && |t.bloom| != 0 ==> WellFormed(t, syms)
    ensures value == if t.nbuckets == 0 || |t.bloom| == 0 || Scan(syms, name, t.symoffset).None? then 0
                     else syms[Scan(syms, name, t.symoffset).value].value
  {
    hide GnuHash, BloomWord, BloomMask, WellFormed, And, WithoutLowest, Xor;
    if t.nbuckets == 0 || |t.bloom| == 0 {
      return 0;
    }
    GnuSized(t, syms);
    NameAt(t, syms, name);
    var mask := BloomMask(t, hash);
    if Scan(syms, name, t.symoffset).Some? {
      BloomKeepsPresent(t, syms, name);
    }
    AndCommutes(mask, BloomWord(t, hash));
    if And(mask, BloomWord(t, hash)) == mask {
      var symIndex := t.Bucket(hash % t.nbuckets);
      if symIndex >= t.symoffset {
        var chain := t.BiasedChain();
        while true
          invariant t.symoffset <= symIndex < |syms|
          invariant forall k :: t.symoffset <= k < symIndex ==> syms[k].name != name
          decreases |syms| - symIndex
        {
          var entry := t.words[chain + symIndex];
          assert entry == t.Chain(symIndex);
          SameButLowest(entry, hash);
          if Xor(entry, hash) / 2 == 0 && syms[symIndex].name == name {
            return syms[symIndex].value;
          }
          symIndex := symIndex + 1;
          if entry % 2 == 1 {
            break;
          }
        }
      }
    }
    return 0;
  }

  /** Such tables exist, of either class: one bucket, and one symbol behind symbol 0. */
  lemma OneSymbolTable(syms: seq<Sym>, classBits: nat)
    requires |syms| == 2 && (classBits == 32 || classBits == 64)
    ensures 0 < Pow2(classBits) <= TWO64
    ensures WellFormed(GnuTable([1, WithoutLowest(GnuHash(syms[1].name))], 1, 1, [Pow2(classBits) - 1], 5,
            classBits), syms)
  {
    hide GnuHash, Bit, Pow2;
    Pow2Of64();
    var hash := GnuHash(syms[1].name);
    AllOnes(classBits, hash % classBits);
    AllOnes(classBits, hash / Pow2(5) % classBits);
    LowestSet(hash);
  }

  lemma LowestSet(hash: u32)
    ensures WithoutLowest(hash) / 2 == hash / 2 && WithoutLowest(hash) % 2 == 1
  {
  }

  // ----- the SysV hash table

  /** Symbol 0 stands for the end of a chain. */
  datatype SysvTable = SysvTable(buckets: seq<u32>, chains: seq<u32>)

  /** Chains stay inside the table and end: rank falls along them. */
  ghost predicate Chains(t: SysvTable, rank: seq<nat>)
  {
    && |t.chains| == |rank|
    && forall i :: 0 <= i < |rank| ==> t.chains[i] < |rank| && (t.chains[i] != 0 ==> rank[t.chains[i]] < rank[i])
  }

  /** The symbols on the chain from symbol i on. */
  ghost function SysvChain(t: SysvTable, rank: seq<nat>, i: nat): seq<nat>
    requires Chains(t, rank) && i < |rank|
    decreases if i == 0 then 0 else rank[i] + 1
  {
    if i == 0 then [] else [i] + SysvChain(t, rank, t.chains[i])
  }

  ghost predicate SysvWellFormed(t: SysvTable, syms: seq<Sym>, rank: seq<nat>)
  {
    && Chains(t, rank) && |t.buckets| > 0 && |rank| == |syms|
    && (forall b :: 0 <= b < |t.buckets| ==> t.buckets[b] < |syms|)
    && forall i :: 1 <= i < |syms| ==> i in SysvChain(t, rank, t.buckets[ElfHash(syms[i].name) % |t.buckets|])
  }

  /** The loop of both SysV lookups: some symbol with the name, if there is one behind symbol 0. */
  method SysvLookup(t: SysvTable, syms: seq<Sym>, name: Name, hash: u32, ghost rank: seq<nat>) returns (r: Option<nat>)
    requires SysvWellFormed(t, syms, rank) && hash == ElfHash(name)
    ensures |syms| >= 1 && (r.None? <==> Scan(syms, name, 1).None?)
    ensures r.Some? ==> 1 <= r.value < |syms| && syms[r.value].name == name
  {
    hide ElfHash, Scan;
    var i: nat := t.buckets[hash % |t.buckets|];
    ghost var start := i;
    while i != 0
      invariant i < |syms|
      invariant forall k <- SysvChain(t, rank, start) :: 1 <= k < |syms| && syms[k].name == name ==>
                  k in SysvChain(t, rank, i)
      decreases if i == 0 then 0 else rank[i] + 1
    {
      if syms[i].name == name {
        return Some(i);
      }
      i := t.chains[i];
    }
    return None;
  }

  /** ElfImg::ElfLookup */
  method ElfImgElfLookup(t: SysvTable, syms: seq<Sym>, name: Name, hash: u32, ghost rank: seq<nat>) returns (value: u64)
    requires hash == ElfHash(name) && (t.buckets != [] ==> SysvWellFormed(t, syms, rank))
    ensures value != 0 ==> exists k :: 1 <= k < |syms| && syms[k].name == name && syms[k].value == value
    ensures t.buckets != [] && (forall k :: 1 <= k < |syms| && syms[k].name == name ==> syms[k].value != 0) ==>
              (value == 0 <==> forall k :: 1 <= k < |syms| ==> syms[k].name != name)
  {
    if t.buckets == [] {
      return 0;
    }
    var r := SysvLookup(t, syms, name, hash, rank);
    return if r.Some? then syms[r.value].value else 0;
  }
}
