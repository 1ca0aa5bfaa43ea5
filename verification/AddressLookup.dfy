/**
  From an address to a symbol and to a module: the walk over all chains of a GNU hash table, the SysV
  hash chains, and the cache of module handles of xdl_addr.
 */
module AddressLookup {
  import opened Words
  import opened Bits
  import opened SymbolHashes
  import opened SymbolTables

  // ----- every hashed symbol

  /** The chain that starts at symbol n. */
  function Chained(t: GnuTable, syms: seq<Sym>, n: nat): (r: seq<nat>)
    requires Sized(t, syms) && t.symoffset <= n < |syms|
    decreases |syms| - n
  {
    if n == |syms| - 1 || t.Chain(n) % 2 == 1 then [n] else [n] + Chained(t, syms, n + 1)
  }

  /** The order in which the buckets from b on are walked. */
  function Visits(t: GnuTable, syms: seq<Sym>, b: nat): seq<nat>
    requires Sized(t, syms) && b <= t.nbuckets
    decreases t.nbuckets - b
  {
    if b == t.nbuckets then []
    else OfBucket(t, syms, b) + Visits(t, syms, b + 1)
  }

  /** A chain holds the symbols behind its start up to its end, in order, and all of one bucket. */
  lemma {:induction false} ChainedExactly(t: GnuTable, syms: seq<Sym>, n: nat)
    requires WellFormed(t, syms) && t.symoffset <= n < |syms|
    ensures forall i, j :: 0 <= i < j < |Chained(t, syms, n)| ==> Chained(t, syms, n)[i] < Chained(t, syms, n)[j]
    ensures forall k <- Chained(t, syms, n) :: n <= k < |syms| && SymSlot(t, syms, k) == SymSlot(t, syms, n)
    ensures forall k :: n <= k < |syms| && (forall j :: n <= j < k ==> t.Chain(j) % 2 == 0) ==>
              k in Chained(t, syms, n)
    decreases |syms| - n
  {
    hide SymSlot, Entered;
    if !(n == |syms| - 1 || t.Chain(n) % 2 == 1) {
      ChainedExactly(t, syms, n + 1);
      var rest := Chained(t, syms, n + 1);
      forall i | 0 <= i < |rest|
        ensures n < rest[i]
      {
        assert rest[i] in rest;
      }
      assert SymSlot(t, syms, n + 1) == SymSlot(t, syms, n);
    }
  }

  /** The symbols that are visited for one bucket. */
  function OfBucket(t: GnuTable, syms: seq<Sym>, b: nat): seq<nat>
    requires Sized(t, syms) && b < t.nbuckets
  {
    if t.Bucket(b) < t.symoffset then [] else Chained(t, syms, t.Bucket(b))
  }

  lemma OfBucketExactly(t: GnuTable, syms: seq<Sym>, b: nat)
    requires WellFormed(t, syms) && b < t.nbuckets
    ensures forall i, j :: 0 <= i < j < |OfBucket(t, syms, b)| ==> OfBucket(t, syms, b)[i] < OfBucket(t, syms, b)[j]
    ensures forall k :: k in OfBucket(t, syms, b) <==> t.symoffset <= k < |syms| && SymSlot(t, syms, k) == b
  {
    hide SymSlot, Chained, Entered;
    forall k | t.symoffset <= k < |syms| && SymSlot(t, syms, k) == b
      ensures t.symoffset <= t.Bucket(b) <= k && forall j :: t.Bucket(b) <= j < k ==> t.Chain(j) % 2 == 0
    {
      EnteredBehind(t, syms, k);
    }
    if t.Bucket(b) >= t.symoffset {
      ChainedExactly(t, syms, t.Bucket(b));
    }
  }

  lemma EnteredBehind(t: GnuTable, syms: seq<Sym>, k: nat)
    requires WellFormed(t, syms) && t.symoffset <= k < |syms|
    ensures var start := t.words[SymSlot(t, syms, k)];
            t.symoffset <= start <= k && forall j :: start <= j < k ==> t.Chain(j) % 2 == 0
  {
    hide GnuHash, Bit, Pow2;
    assert Entered(t, syms, k);
  }

  /** The order of the walk: by bucket, and within a bucket by index. */
  predicate Sooner(t: GnuTable, syms: seq<Sym>, j: nat, k: nat)
    requires t.nbuckets > 0
  {
    && j < |syms| && k < |syms|
    && var a, b := GnuHash(syms[j].name) % t.nbuckets, GnuHash(syms[k].name) % t.nbuckets;
       a < b || (a == b && j < k)
  }

  ghost predicate InOrder(t: GnuTable, syms: seq<Sym>, order: seq<nat>)
    requires t.nbuckets > 0
  {
    && (forall k <- order :: k < |syms|)
    && forall i, j :: 0 <= i < j < |order| ==> Sooner(t, syms, order[i], order[j])
  }

  lemma SoonerSlots(t: GnuTable, syms: seq<Sym>, j: nat, k: nat)
    requires t.nbuckets > 0 && j < |syms| && k < |syms|
    ensures Sooner(t, syms, j, k) <==>
              SymSlot(t, syms, j) < SymSlot(t, syms, k) || (SymSlot(t, syms, j) == SymSlot(t, syms, k) && j < k)
  {
    hide GnuHash;
  }

  lemma OrderConcat(t: GnuTable, syms: seq<Sym>, b: nat, here: seq<nat>, rest: seq<nat>)
    requires t.nbuckets > 0 && (forall i, j :: 0 <= i < j < |here| ==> here[i] < here[j])
    requires forall k <- here :: k < |syms| && SymSlot(t, syms, k) == b
    requires InOrder(t, syms, rest) && forall k <- rest :: SymSlot(t, syms, k) > b
    ensures InOrder(t, syms, here + rest)
  {
    hide SymSlot, Sooner;
    var all := here + rest;
    forall i, j | 0 <= i < j < |all|
      ensures Sooner(t, syms, all[i], all[j])
    {
      assert i < |here| ==> all[i] in here;
      assert j < |here| ==> all[j] in here;
      assert j >= |here| ==> all[j] in rest;
      if i < |here| {
        SoonerSlots(t, syms, all[i], all[j]);
      }
    }
  }

  /** The walk meets every hashed symbol exactly once, bucket by bucket and in the order of the table. */
  lemma {:induction false} VisitsEachOnce(t: GnuTable, syms: seq<Sym>, b: nat)
    requires WellFormed(t, syms) && b <= t.nbuckets
    ensures t.nbuckets > 0 && InOrder(t, syms, Visits(t, syms, b))
    ensures forall k :: k in Visits(t, syms, b) <==> t.symoffset <= k < |syms| && SymSlot(t, syms, k) >= b
    decreases t.nbuckets - b
  {
    hide WellFormed, InOrder, SymSlot, OfBucket;
    GnuSized(t, syms);
    SlotBelow(t, syms);
    if b < t.nbuckets {
      OfBucketExactly(t, syms, b);
      VisitsEachOnce(t, syms, b + 1);
      var here, rest := OfBucket(t, syms, b), Visits(t, syms, b + 1);
      OrderConcat(t, syms, b, here, rest);
      assert forall k :: k in here + rest <==> k in here || k in rest;
    } else {
      NoneInOrder(t, syms);
    }
  }

  lemma NoneInOrder(t: GnuTable, syms: seq<Sym>)
    requires t.nbuckets > 0
    ensures InOrder(t, syms, [])
  {
  }

  lemma SlotBelow(t: GnuTable, syms: seq<Sym>)
    requires t.nbuckets > 0
    ensures forall k :: 0 <= k < |syms| ==> SymSlot(t, syms, k) < t.nbuckets
  {
  }

  /** xdl_sym_is_match; it means to leave out undefined symbols, but the statement for that has no effect. */
  predicate SymIsMatch(sym: Sym, offset: u64)
  {
    !sym.tls && offset >= sym.value && offset < Wrap(sym.value + sym.size)
  }

  /** r is the first symbol of the order that the offset lies in, if any. */
  ghost predicate FirstMatch(order: seq<nat>, syms: seq<Sym>, offset: u64, r: Option<nat>)
  {
    match r
    case None => forall i :: 0 <= i < |order| ==> order[i] < |syms| && !SymIsMatch(syms[order[i]], offset)
    case Some(k) =>
      k < |syms| && SymIsMatch(syms[k], offset) &&
      exists p :: 0 <= p < |order| && order[p] == k
                  && forall i :: 0 <= i < p ==> order[i] < |syms| && !SymIsMatch(syms[order[i]], offset)
  }

  /** What has been walked over, and what is ahead. */
  ghost predicate Walked(order: seq<nat>, seen: seq<nat>, ahead: seq<nat>, syms: seq<Sym>, offset: u64)
  {
    order == seen + ahead && FirstMatch(seen, syms, offset, None)
  }

  lemma WalkOn(order: seq<nat>, seen: seq<nat>, ahead: seq<nat>, syms: seq<Sym>, offset: u64)
    requires Walked(order, seen, ahead, syms, offset) && ahead != [] && ahead[0] < |syms|
    ensures if SymIsMatch(syms[ahead[0]], offset) then FirstMatch(order, syms, offset, Some(ahead[0]))
            else Walked(order, seen + [ahead[0]], ahead[1..], syms, offset)
  {
    hide SymIsMatch;
    assert order[|seen|] == ahead[0];
    assert order == (seen + [ahead[0]]) + ahead[1..];
  }

  /**
    The offset lies in the extent of a symbol that is not thread-local: value <= offset < value + size. An extent
    that reaches the end of the address space holds nothing.
   */
  predicate LiesIn(offset: u64, sym: Sym)
  {
    !sym.tls && sym.value <= offset < sym.value + sym.size < TWO64
  }

  /**
    xdl_sym_by_addr, over a GNU hash table: of the hashed symbols the offset lies in, the one of the first
    bucket and in it the first one; none exactly if there is none.
   */
  method XdlSymByAddrGnu(t: GnuTable, syms: seq<Sym>, offset: u64) returns (r: Option<nat>)
    requires WellFormed(t, syms)
    ensures t.nbuckets > 0 && Soonest(t, syms, offset, r)
    ensures r.None? <==> forall k :: t.symoffset <= k < |syms| ==>
              syms[k].tls || offset < syms[k].value || offset >= (syms[k].value + syms[k].size) % TWO64
  {
    hide WellFormed, SymIsMatch, FirstMatch, Walked, Soonest, OfBucket, Chained;
    GnuSized(t, syms);
    ghost var order := Visits(t, syms, 0);
    FirstIsSoonest(t, syms, offset);
    FieldsExactly(t, syms, offset);
    NothingWalked(order, syms, offset);
    ghost var seen: seq<nat> := [];
    for i := 0 to t.nbuckets
      invariant Walked(order, seen, Visits(t, syms, i), syms, offset)
    {
      var n := t.Bucket(i);
      VisitsBucket(t, syms, i);
      if n < t.symoffset {
        continue;
      }
      r, seen := WalkChain(t, syms, offset, n, order, seen, Visits(t, syms, i + 1));
      if r.Some? {
        return;
      }
    }
    AllWalked(order, seen, syms, offset);
    return None;
  }

  /** The inner loop, over one chain. */
  method WalkChain(t: GnuTable, syms: seq<Sym>, offset: u64, start: nat, ghost order: seq<nat>, ghost before: seq<nat>,
                   ghost rest: seq<nat>)
    returns (r: Option<nat>, ghost seen: seq<nat>)
    requires WellFormed(t, syms) && Sized(t, syms) && t.symoffset <= start < |syms|
    requires Walked(order, before, Chained(t, syms, start) + rest, syms, offset)
    ensures if r.Some? then FirstMatch(order, syms, offset, r) else Walked(order, seen, rest, syms, offset)
  {
    hide WellFormed, SymIsMatch, FirstMatch, Walked;
    GnuSized(t, syms);
    var chain, n := t.BiasedChain(), start;
    seen := before;
    while true
      invariant t.symoffset <= n < |syms|
      invariant Walked(order, seen, Chained(t, syms, n) + rest, syms, offset)
      decreases |syms| - n
    {
      WalkOn(order, seen, Chained(t, syms, n) + rest, syms, offset);
      if SymIsMatch(syms[n], offset) {
        return Some(n), seen;
      }
      seen := seen + [n];
      var entry := t.words[chain + n];
      assert entry == t.Chain(n);
      if entry % 2 != 0 {
        assert ([n] + rest)[1..] == rest;
        return None, seen;
      }
      assert ([n] + Chained(t, syms, n + 1) + rest)[1..] == Chained(t, syms, n + 1) + rest;
      n := n + 1;
    }
  }

  lemma VisitsBucket(t: GnuTable, syms: seq<Sym>, b: nat)
    requires Sized(t, syms) && b < t.nbuckets
    ensures Visits(t, syms, b)
            == if t.Bucket(b) < t.symoffset then Visits(t, syms, b + 1)
               else Chained(t, syms, t.Bucket(b)) + Visits(t, syms, b + 1)
  {
    assert [] + Visits(t, syms, b + 1) == Visits(t, syms, b + 1);
  }

  lemma NothingWalked(order: seq<nat>, syms: seq<Sym>, offset: u64)
    ensures Walked(order, [], order, syms, offset)
  {
  }

  lemma AllWalked(order: seq<nat>, seen: seq<nat>, syms: seq<Sym>, offset: u64)
    requires Walked(order, seen, [], syms, offset)
    ensures FirstMatch(order, syms, offset, None)
  {
    assert order == seen;
  }

  lemma MatchIsIn(sym: Sym, offset: u64)
    ensures SymIsMatch(sym, offset) <==> LiesIn(offset, sym)
  {
  }

  /** r is a hashed symbol the offset lies in, and the soonest of them; or there is none. */
  ghost predicate Soonest(t: GnuTable, syms: seq<Sym>, offset: u64, r: Option<nat>)
    requires t.nbuckets > 0
  {
    match r
    case None => forall k :: t.symoffset <= k < |syms| ==> !LiesIn(offset, syms[k])
    case Some(n) =>
      && t.symoffset <= n < |syms| && LiesIn(offset, syms[n])
      && forall k :: t.symoffset <= k < |syms| && LiesIn(offset, syms[k]) && k != n ==> Sooner(t, syms, n, k)
  }

  lemma FieldsExactly(t: GnuTable, syms: seq<Sym>, offset: u64)
    requires t.nbuckets > 0
    ensures Soonest(t, syms, offset, None) <==> forall k :: t.symoffset <= k < |syms| ==>
              syms[k].tls || offset < syms[k].value || offset >= (syms[k].value + syms[k].size) % TWO64
    ensures forall n :: Soonest(t, syms, offset, Some(n)) ==> !Soonest(t, syms, offset, None)
  {
  }

  lemma FirstIsSoonest(t: GnuTable, syms: seq<Sym>, offset: u64)
    requires WellFormed(t, syms)
    ensures t.nbuckets > 0 && |t.words| >= t.nbuckets && Sized(t, syms)
    ensures forall r: Option<nat> :: FirstMatch(Visits(t, syms, 0), syms, offset, r) ==> Soonest(t, syms, offset, r)
  {
    hide SymIsMatch, WellFormed, SymSlot, Visits, Sooner, LiesIn, GnuHash;
    GnuSized(t, syms);
    VisitsEachOnce(t, syms, 0);
    var order := Visits(t, syms, 0);
    forall r: Option<nat> | FirstMatch(order, syms, offset, r)
      ensures Soonest(t, syms, offset, r)
    {
      forall k | t.symoffset <= k < |syms| && LiesIn(offset, syms[k])
        ensures r.Some? && (k == r.value || Sooner(t, syms, r.value, k))
      {
        MatchIsIn(syms[k], offset);
        assert k in order;
        var i :| 0 <= i < |order| && order[i] == k;
      }
      if r.Some? {
        MatchIsIn(syms[r.value], offset);
        assert r.value in order;
      }
    }
  }

  /** If the extents of hashed symbols are disjoint, the answer is the one whose extent holds the offset. */
  lemma DisjointExtents(t: GnuTable, syms: seq<Sym>, offset: u64, r: Option<nat>, n: nat)
    requires t.nbuckets > 0 && Soonest(t, syms, offset, r)
    requires forall i, j :: t.symoffset <= i < j < |syms| && !syms[i].tls && !syms[j].tls ==>
               Disjoint(syms[i].value, syms[i].size, syms[j].value, syms[j].size)
    requires forall i :: t.symoffset <= i < |syms| ==> syms[i].value + syms[i].size < TWO64
    requires t.symoffset <= n < |syms| && !syms[n].tls && syms[n].value <= offset < syms[n].value + syms[n].size
    ensures r == Some(n)
  {
    hide Sooner;
    assert LiesIn(offset, syms[n]);
  }

  // ----- modules and their cache

  /** A program header: the segment is loaded if it is a PT_LOAD. */
  datatype Phdr = Phdr(load: bool, vaddr: u64, memsz: u64)

  /** A module as dl_iterate_phdr reports it. */
  datatype Module = Module(bias: u64, named: bool, phdrs: seq<Phdr>)

  /** xdl_elf_is_match, as a statement about the loaded segments */
  predicate InModule(m: Module, addr: u64)
  {
    addr >= m.bias &&
    exists i :: 0 <= i < |m.phdrs| && m.phdrs[i].load
                && m.phdrs[i].vaddr <= addr - m.bias < Wrap(m.phdrs[i].vaddr + m.phdrs[i].memsz)
  }

  /** Those the search looks at. */
  predicate Eligible(m: Module) { m.bias != 0 && m.named }

  method XdlElfIsMatch(m: Module, addr: u64) returns (r: bool)
    ensures r == InModule(m, addr)
    ensures r <==> addr >= m.bias && exists p <- m.phdrs ::
              p.load && p.vaddr <= addr - m.bias < (p.vaddr + p.memsz) % TWO64
  {
    if addr < m.bias {
      return false;
    }
    var vaddr := addr - m.bias;
    for i := 0 to |m.phdrs|
      invariant forall k :: 0 <= k < i && m.phdrs[k].load ==>
                  !(m.phdrs[k].vaddr <= vaddr < Wrap(m.phdrs[k].vaddr + m.phdrs[k].memsz))
    {
      var phdr := m.phdrs[i];
      if !phdr.load {
        continue;
      }
      if phdr.vaddr <= vaddr && vaddr < Wrap(phdr.vaddr + phdr.memsz) {
        return true;
      }
    }
    return false;
  }

  /** The first eligible module the address is in. */
  function Open(modules: seq<Module>, addr: u64): (r: Option<Module>)
    ensures r.Some? ==> r.value in modules && Eligible(r.value) && InModule(r.value, addr)
    ensures r.None? ==> forall m <- modules :: !(Eligible(m) && InModule(m, addr))
  {
    if modules == [] then None
    else if Eligible(modules[0]) && InModule(modules[0], addr) then Some(modules[0])
    else Open(modules[1..], addr)
  }

  /** The first handle in the cache that the address is in. */
  function Cached(cache: seq<Module>, addr: u64): (r: Option<Module>)
    ensures r.Some? ==> r.value in cache && InModule(r.value, addr)
    ensures r.None? ==> forall h <- cache :: !InModule(h, addr)
  {
    if cache == [] then None else if InModule(cache[0], addr) then Some(cache[0]) else Cached(cache[1..], addr)
  }

  /** A lookup's answer and the cache after it. */
  function Lookup(cache: seq<Module>, modules: seq<Module>, addr: u64): (Option<Module>, seq<Module>)
  {
    match Cached(cache, addr)
    case Some(h) => (Some(h), cache)
    case None =>
      match Open(modules, addr)
      case None => (None, cache)
      case Some(m) => (Some(m), [m] + cache)
  }

  /** The cache after a sequence of lookups. */
  function After(cache: seq<Module>, modules: seq<Module>, addrs: seq<u64>): seq<Module>
    decreases |addrs|
  {
    if addrs == [] then cache else After(Lookup(cache, modules, addrs[0]).1, modules, addrs[1..])
  }

  /** What every reachable cache is: handles the search has opened, no two of them the same. */
  ghost predicate CacheOk(cache: seq<Module>, modules: seq<Module>)
  {
    && (forall h <- cache :: Opened(h, modules))
    && forall i, j :: 0 <= i < j < |cache| ==> cache[i] != cache[j]
  }

  ghost predicate Opened(h: Module, modules: seq<Module>)
  {
    exists x: u64 :: Open(modules, x) == Some(h)
  }

  lemma LookupKeeps(cache: seq<Module>, modules: seq<Module>, addr: u64)
    requires CacheOk(cache, modules)
    ensures CacheOk(Lookup(cache, modules, addr).1, modules)
  {
    hide InModule, Eligible;
    assert Open(modules, addr).Some? ==> Opened(Open(modules, addr).value, modules);
  }

  /** A cache never holds two handles for one module, whatever the modules are. */
  lemma {:induction false} ReachableCache(cache: seq<Module>, modules: seq<Module>, addrs: seq<u64>)
    requires CacheOk(cache, modules)
    ensures CacheOk(After(cache, modules, addrs), modules)
    decreases |addrs|
  {
    hide Lookup, CacheOk;
    if addrs != [] {
      LookupKeeps(cache, modules, addrs[0]);
      ReachableCache(Lookup(cache, modules, addrs[0]).1, modules, addrs[1..]);
    }
  }

  /** Every reachable cache gives the answers that no cache gives. */
  ghost predicate Transparent(modules: seq<Module>)
  {
    forall addrs: seq<u64>, addr: u64 :: Lookup(After([], modules, addrs), modules, addr).0 == Open(modules, addr)
  }

  /** The search opens the same module for all addresses in a module it opens for one of them. */
  ghost predicate Consistent(modules: seq<Module>)
  {
    forall x: u64, y: u64 :: Open(modules, x).Some? && InModule(Open(modules, x).value, y) ==>
          Open(modules, y) == Open(modules, x)
  }

  /** Module j is the first eligible one the address is in. */
  predicate FirstIn(modules: seq<Module>, addr: u64, j: nat)
  {
    && j < |modules| && Eligible(modules[j]) && InModule(modules[j], addr)
    && forall i :: 0 <= i < j && Eligible(modules[i]) ==> !InModule(modules[i], addr)
  }

  lemma {:induction false} FirstIsOpened(modules: seq<Module>, addr: u64, j: nat)
    requires FirstIn(modules, addr, j)
    ensures Open(modules, addr) == Some(modules[j])
  {
    hide InModule, Eligible;
    if j > 0 {
      assert forall i :: 0 <= i < j - 1 ==> modules[1..][i] == modules[i + 1];
      FirstIsOpened(modules[1..], addr, j - 1);
    }
  }

  lemma {:induction false} OpenedIsFirst(modules: seq<Module>, addr: u64) returns (j: nat)
    requires Open(modules, addr).Some?
    ensures FirstIn(modules, addr, j) && Open(modules, addr) == Some(modules[j])
  {
    hide InModule, Eligible;
    if Eligible(modules[0]) && InModule(modules[0], addr) {
      return 0;
    }
    var k := OpenedIsFirst(modules[1..], addr);
    j := k + 1;
    assert forall i :: 0 < i < j ==> modules[i] == modules[1..][i - 1];
  }

  /** No module the search can open shares an address with an eligible one in front of it. */
  ghost predicate NoOverlap(modules: seq<Module>)
  {
    forall i, j, x: u64, y: u64 ::
      0 <= i < j < |modules| && Eligible(modules[i]) && FirstIn(modules, x, j) && InModule(modules[i], y)
      ==> !InModule(modules[j], y)
  }

  lemma ConsistentExactly(modules: seq<Module>)
    ensures Consistent(modules) <==> NoOverlap(modules)
  {
    hide InModule, Eligible, Open;
    if NoOverlap(modules) {
      forall x: u64, y: u64 | Open(modules, x).Some? && InModule(Open(modules, x).value, y)
        ensures Open(modules, y) == Open(modules, x)
      {
        var j := OpenedIsFirst(modules, x);
        FirstIsOpened(modules, y, j);
      }
    }
    if Consistent(modules) {
      forall i, j, x: u64, y: u64 |
        0 <= i < j < |modules| && Eligible(modules[i]) && FirstIn(modules, x, j) && InModule(modules[i], y)
        ensures !InModule(modules[j], y)
      {
        FirstIsOpened(modules, x, j);
        if InModule(modules[j], y) {
          var _ := OpenedIsFirst(modules, y);
        }
      }
    }
  }

  /** The cache never changes an answer exactly if no module it can hold overlaps an eligible one in front of it. */
  lemma CacheIsTransparentExactly(modules: seq<Module>)
    ensures Transparent(modules) <==> NoOverlap(modules)
  {
    hide InModule, Eligible, Open, NoOverlap, FirstIn;
    ConsistentExactly(modules);
    if Transparent(modules) {
      forall x: u64, y: u64 | Open(modules, x).Some? && InModule(Open(modules, x).value, y)
        ensures Open(modules, y) == Open(modules, x)
      {
        var m := Open(modules, x).value;
        assert After([m], modules, []) == [m] + [] == [m];
        assert After([], modules, [x]) == [m];
        assert Lookup(After([], modules, [x]), modules, y).0 == Open(modules, y);
      }
    }
    if Consistent(modules) {
      forall addrs: seq<u64>, addr: u64
        ensures Lookup(After([], modules, addrs), modules, addr).0 == Open(modules, addr)
      {
        ReachableCache([], modules, addrs);
        var cache := After([], modules, addrs);
        if Cached(cache, addr).Some? {
          assert Opened(Cached(cache, addr).value, modules);
          var x: u64 :| Open(modules, x) == Some(Cached(cache, addr).value);
        }
      }
    }
  }

  /** No address is in two of the modules. */
  ghost predicate ModulesDisjoint(modules: seq<Module>)
  {
    forall m <- modules, n <- modules, addr: u64 :: InModule(m, addr) && InModule(n, addr) ==> m == n
  }

  /** So it is over modules whose loaded segments are disjoint. */
  lemma DisjointModulesTransparent(modules: seq<Module>)
    requires ModulesDisjoint(modules)
    ensures Transparent(modules)
  {
    hide InModule, Eligible, Transparent;
    assert NoOverlap(modules) by {
      forall i, j, x: u64, y: u64 |
        0 <= i < j < |modules| && Eligible(modules[i]) && FirstIn(modules, x, j) && InModule(modules[i], y)
        ensures !InModule(modules[j], y)
      {
        assert modules[i] in modules && modules[j] in modules;
        assert InModule(modules[j], x);
      }
    }
    CacheIsTransparentExactly(modules);
  }

  /** Over modules that share an address, a cache can change the answer. */
  lemma CacheMatters()
    ensures var a := Module(0x1000, true, [Phdr(true, 0, 0x2000)]);
            var b := Module(0x1800, true, [Phdr(true, 0, 0x2000)]);
            && Open([a, b], 0x1800) == Some(a)
            && Lookup(After([], [a, b], [0x3000]), [a, b], 0x1800).0 == Some(b)
  {
    var a := Module(0x1000, true, [Phdr(true, 0, 0x2000)]);
    var b := Module(0x1800, true, [Phdr(true, 0, 0x2000)]);
    assert !InModule(a, 0x3000) && InModule(b, 0x3000) by {
      assert b.phdrs[0].vaddr <= 0x1800;
    }
    assert InModule(a, 0x1800) && InModule(b, 0x1800) by {
      assert a.phdrs[0].load && b.phdrs[0].load;
    }
    assert [a, b][1..] == [b];
    assert Open([a, b], 0x3000) == Some(b);
    assert Lookup([], [a, b], 0x3000).1 == [b] + [];
    assert After([], [a, b], [0x3000]) == [b];
  }

  /** The caller's cache, to which xdl_addr prepends the handles it opens. */
  class AddrCache {
    var handles: seq<Module>

    constructor ()
      ensures handles == []
    {
      handles := [];
    }

    /** The part of xdl_addr that finds the module of an address. */
    method Find(modules: seq<Module>, addr: u64) returns (handle: Option<Module>)
      modifies this
      ensures (handle, handles) == Lookup(old(handles), modules, addr)
    {
      for i := 0 to |handles|
        invariant handles == old(handles)
        invariant Cached(handles, addr) == Cached(handles[i..], addr)
      {
        var hit := XdlElfIsMatch(handles[i], addr);
        if hit {
          return Some(handles[i]);
        }
      }
      handle := OpenByAddr(modules, addr);
      if handle.None? {
        return;
      }
      handles := [handle.value] + handles;
    }

    /** xdl_open_by_addr: dl_iterate_phdr with the callback that stops at the first match */
    method OpenByAddr(modules: seq<Module>, addr: u64) returns (handle: Option<Module>)
      ensures handle == Open(modules, addr)
      ensures handle.Some? ==> exists i ::
          && 0 <= i < |modules| && modules[i] == handle.value
          && modules[i].bias != 0 && modules[i].named && InModule(modules[i], addr)
          && forall k :: 0 <= k < i && modules[k].bias != 0 && modules[k].named ==> !InModule(modules[k], addr)
      ensures handle.None? ==> forall m <- modules :: m.bias != 0 && m.named ==> !InModule(m, addr)
    {
      hide InModule;
      for i := 0 to |modules|
        invariant Open(modules, addr) == Open(modules[i..], addr)
        invariant forall k :: 0 <= k < i && modules[k].bias != 0 && modules[k].named ==> !InModule(modules[k], addr)
      {
        if modules[i].bias == 0 || !modules[i].named {
          continue;
        }
        var hit := XdlElfIsMatch(modules[i], addr);
        if hit {
          return Some(modules[i]);
        }
      }
      return None;
    }
  }
}
