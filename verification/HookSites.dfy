/**
  Hooks with the trampolines and relocators they are made with. The window that is saved is the one
  the relocator takes for the size of the trampoline, so it covers the trampoline; what a live hook
  leaves in memory is a trampoline that runs to the replacement; and its relocation runs as the code it
  was made from.
 */
module HookSites {
  import opened Words
  import opened Hooks
  import A64 = Arm64Isa
  import Arm64Installation
  import Arm64Relocation
  import Arm64Simulation
  import Arm64Trampoline
  import X64Isa
  import X64Relocation
  import X64Relocator
  import X64Simulation

  /**
    How a function is hooked: the replacement (A64), or the forward stub and what the decoder makes of the
    code (x86-64).
   */
  datatype Site =
    | Arm64(replacement: u64)
    | X64(stub: u64, stream: seq<X64Isa.Insn>)

  function WordBytes(ws: seq<u32>): (r: seq<u8>)
    ensures |r| == 4 * |ws|
    decreases |ws|
  {
    if ws == [] then [] else LE32(ws[0]) + WordBytes(ws[1..])
  }

  /** The word at index x of the code. */
  function WordAt(code: seq<u8>, x: nat): u32
    requires x + 4 <= |code|
  {
    Read32(code[x..x + 4])
  }

  function WordsAt(code: seq<u8>, x: nat, n: nat): (r: seq<u32>)
    requires x + 4 * n <= |code|
    ensures |r| == n
  {
    seq(n, k requires 0 <= k < n => WordAt(code, x + 4 * k))
  }

  /** The trampoline buffer for a hook at addr. */
  function TrampolineFor(site: Site, addr: u64): (r: seq<u8>)
    ensures site.Arm64? ==> |r| % 4 == 0
  {
    match site
    case Arm64(replacement) =>
      var ws := Arm64Trampoline.Trampoline(addr, replacement);
      MultipleMod(|ws|, 4);
      WordBytes(ws)
    case X64(stub, _) => X64Relocator.JmpNearIndirect(stub, addr)
  }

  /** How many words the A64 relocator takes for size bytes: until they are covered. */
  function WordsFor(size: nat): nat { (size + 3) / 4 }

  /** The instructions the x86-64 relocator takes for size bytes. */
  function InsnsFor(stream: seq<X64Isa.Insn>, size: nat): seq<X64Isa.Insn>
  {
    stream[..X64Relocator.Covering(stream, size, 0)]
  }

  /**
    The window of the relocation of the code at addr, if it succeeds; granted says whether the x86-64
    relocator is given its blocks.
   */
  function WindowFor(code: seq<u8>, addr: u64, site: Site, granted: bool): Option<nat>
  {
    var size := |TrampolineFor(site, addr)|;
    match site
    case Arm64(_) =>
      var n := WordsFor(size);
      if addr + 4 * n <= |code| && Arm64Relocation.RelocatedCode(WordsAt(code, addr, n), addr, true).Some?
          then Some(4 * n)
      else None
    case X64(_, stream) =>
      var ds := InsnsFor(stream, size);
      if granted && forall d <- ds :: X64Relocation.Relocatable(d) then Some(X64Relocation.OrigOffset(ds, |ds|))
          else None
  }

  /** The first c instructions of the stream are the bytes of the code at addr, one after the other. */
  predicate Decodes(code: seq<u8>, addr: nat, stream: seq<X64Isa.Insn>, c: nat)
    requires c <= |stream|
  {
    forall i :: 0 <= i < c ==>
      var at := addr + X64Relocation.OrigOffset(stream, i);
      at + stream[i].Length() <= |code| && code[at..at + stream[i].Length()] == stream[i].bytes
  }

  /** The decoder reads the code at addr, and goes on for as long as the relocator asks it to. */
  predicate DecodedFor(code: seq<u8>, addr: nat, site: Site, size: nat)
  {
    match site
    case Arm64(_) => true
    case X64(_, stream) =>
      && X64Relocation.OrigOffset(stream, |stream|) >= size
      && Decodes(code, addr, stream, X64Relocator.Covering(stream, size, 0))
  }

  lemma {:induction false} OffsetOfPrefix(ds: seq<X64Isa.Insn>, c: nat, n: nat)
    requires n <= c <= |ds|
    ensures X64Relocation.OrigOffset(ds[..c], n) == X64Relocation.OrigOffset(ds, n)
  {
    if n > 0 {
      OffsetOfPrefix(ds, c, n - 1);
    }
  }

  /** The instructions taken for size bytes: as many as begin below it, whole ones that cover it. */
  ghost predicate TakenFor(stream: seq<X64Isa.Insn>, size: nat, window: nat)
  {
    exists c :: 0 <= c <= |stream| && window == X64Relocation.OrigOffset(stream, c)
                && forall k :: 0 <= k < c ==> X64Relocation.OrigOffset(stream, k) < size
  }

  lemma InsnsCover(stream: seq<X64Isa.Insn>, size: nat)
    requires X64Relocation.OrigOffset(stream, |stream|) >= size
    ensures var ds := InsnsFor(stream, size);
            var window := X64Relocation.OrigOffset(ds, |ds|);
            size <= window && TakenFor(stream, size, window)
  {
    hide X64Relocation.OrigOffset;
    var c := X64Relocator.Covering(stream, size, 0);
    OffsetOfPrefix(stream, c, c);
  }

  /** The window of either relocator covers the trampoline it is made for, and would not without its last part. */
  lemma WindowCovers(code: seq<u8>, addr: u64, site: Site, granted: bool)
    requires DecodedFor(code, addr, site, |TrampolineFor(site, addr)|)
    ensures WindowFor(code, addr, site, granted).Some? ==>
              var size, window := |TrampolineFor(site, addr)|, WindowFor(code, addr, site, granted).value;
              && size <= window
              && match site
                 case Arm64(_) => window % 4 == 0 && window - 4 < size
                 case X64(_, stream) => TakenFor(stream, size, window)
  {
    hide TrampolineFor, Decodes, TakenFor, InsnsFor, Arm64Relocation.RelocatedCode, X64Relocation.Relocatable;
    match site
    case Arm64(_) =>
    case X64(_, stream) => InsnsCover(stream, |TrampolineFor(site, addr)|);
  }

  // ----- runs

  datatype Request =
    | HookAt(addr: u64, permitted: bool, site: Site, granted: bool, junk: seq<u8>)
    | DestroyAt(addr: u64)

  /** The call that a request makes, on the code as it is then. */
  function CallOf(code: seq<u8>, r: Request): Call
  {
    match r
    case HookAt(addr, permitted, site, granted, junk) =>
      Hook(addr, permitted, TrampolineFor(site, addr), WindowFor(code, addr, site, granted), junk)
    case DestroyAt(addr) => Destroy(addr)
  }

  /**
    What is asked of a request: a new hook is at code the decoder has read, and writes inside the code and
    apart from the live hooks. That its relocation succeeds, or covers the trampoline, is not asked.
   */
  ghost predicate Sound(r: Request, code: seq<u8>, live: map<nat, Live>)
  {
    && Proper(CallOf(code, r), code, live)
    && (r.HookAt? && r.addr as nat !in live ==> DecodedFor(code, r.addr, r.site, |TrampolineFor(r.site, r.addr)|))
  }

  /** The sites of the live hooks. */
  function SitesAfter(sites: map<nat, Site>, live: map<nat, Live>, r: Request): map<nat, Site>
  {
    match r
    case HookAt(addr, permitted, site, _, _) =>
      if addr != 0 && permitted && addr as nat !in live then sites[addr as nat := site] else sites
    case DestroyAt(addr) => sites - {addr as nat}
  }

  ghost predicate RequestRun(st: State, t: Track, sites: map<nat, Site>, rs: seq<Request>,
                             end: State, tEnd: Track, sitesEnd: map<nat, Site>)
    decreases |rs|
  {
    if rs == [] then st == end && t == tEnd && sites == sitesEnd
    else
      var c := CallOf(st.code, rs[0]);
      && InMemory(st, c) && Sound(rs[0], st.code, t.live)
      && RequestRun(Step(st, c), TrackAfter(t, st.code, c), SitesAfter(sites, t.live, rs[0]), rs[1..], end, tEnd,
         sitesEnd)
  }

  /**
    A live hook is the trampoline of its site; and if its relocation succeeded, the bytes saved are those
    of the window the relocator takes of the base, which is decoded right.
   */
  ghost predicate Built(t: Track, sites: map<nat, Site>, a: nat)
    requires a in t.live && a in sites
  {
    var l := t.live[a];
    && 0 < a < TWO64 && l.tramp == TrampolineFor(sites[a], a)
    && (l.relocated ==>
          && WindowFor(t.base, a, sites[a], true) == Some(|l.saved|)
          && DecodedFor(t.base, a, sites[a], |l.tramp|))
  }

  ghost predicate AllBuilt(t: Track, sites: map<nat, Site>)
  {
    sites.Keys == t.live.Keys && forall a <- t.live :: Built(t, sites, a)
  }

  /** The window depends on the code in it alone. */
  lemma SameWindow(code: seq<u8>, base: seq<u8>, addr: u64, site: Site, granted: bool)
    requires |code| == |base| && WindowFor(code, addr, site, granted).Some?
    requires var w := WindowFor(code, addr, site, granted).value;
             addr + w <= |code| && code[addr..addr + w] == base[addr..addr + w]
    requires DecodedFor(code, addr, site, |TrampolineFor(site, addr)|)
    ensures WindowFor(base, addr, site, true) == WindowFor(code, addr, site, granted)
    ensures DecodedFor(base, addr, site, |TrampolineFor(site, addr)|)
  {
    hide TrampolineFor, Arm64Relocation.RelocatedCode, Decodes;
    var size := |TrampolineFor(site, addr)|;
    match site
    case Arm64(_) => SameWords(code, base, addr, WordsFor(size));
    case X64(_, stream) =>
      var c := X64Relocator.Covering(stream, size, 0);
      OffsetOfPrefix(stream, c, c);
      SameDecoded(code, base, addr, stream, c);
  }

  lemma SameWords(code: seq<u8>, base: seq<u8>, x: nat, n: nat)
    requires x + 4 * n <= |code| == |base| && code[x..x + 4 * n] == base[x..x + 4 * n]
    ensures WordsAt(code, x, n) == WordsAt(base, x, n)
  {
    forall k | 0 <= k < n
      ensures WordAt(code, x + 4 * k) == WordAt(base, x + 4 * k)
    {
      SubSlice(code, x, x + 4 * n, 4 * k, 4 * k + 4);
      SubSlice(base, x, x + 4 * n, 4 * k, 4 * k + 4);
    }
  }

  lemma {:induction false} InsideOffset(ds: seq<X64Isa.Insn>, i: nat, c: nat)
    requires i < c <= |ds|
    ensures X64Relocation.OrigOffset(ds, i) + ds[i].Length() <= X64Relocation.OrigOffset(ds, c)
    decreases c
  {
    if i + 1 < c {
      InsideOffset(ds, i, c - 1);
    }
  }

  lemma SameDecoded(code: seq<u8>, base: seq<u8>, addr: nat, stream: seq<X64Isa.Insn>, c: nat)
    requires c <= |stream| && Decodes(code, addr, stream, c)
    requires var w := X64Relocation.OrigOffset(stream, c);
             addr + w <= |code| == |base| && code[addr..addr + w] == base[addr..addr + w]
    ensures Decodes(base, addr, stream, c)
  {
    hide X64Relocation.OrigOffset;
    var w := X64Relocation.OrigOffset(stream, c);
    forall i | 0 <= i < c
      ensures var at := addr + X64Relocation.OrigOffset(stream, i);
              at + stream[i].Length() <= |base| && base[at..at + stream[i].Length()] == stream[i].bytes
    {
      InsideOffset(stream, i, c);
      var o, n := X64Relocation.OrigOffset(stream, i), stream[i].Length();
      SubSlice(code, addr, addr + w, o, o + n);
      SubSlice(base, addr, addr + w, o, o + n);
    }
  }

  /**
    One request keeps the invariant, and builds what it adds; a hook whose relocation succeeds covers its
    trampoline.
   */
  lemma RequestKeeps(st: State, original: seq<u8>, t: Track, sites: map<nat, Site>, r: Request)
    requires Inv(st, original, t) && AllBuilt(t, sites)
    requires InMemory(st, CallOf(st.code, r)) && Sound(r, st.code, t.live)
    ensures var c := CallOf(st.code, r);
            Inv(Step(st, c), original, TrackAfter(t, st.code, c))
                && AllBuilt(TrackAfter(t, st.code, c), SitesAfter(sites, t.live, r))
  {
    hide TrampolineFor, WindowFor, Inv, Step, DecodedFor, Proper, Built, Find;
    var c := CallOf(st.code, r);
    StepKeeps(st, original, t, c);
    InvFacts(st, original, t);
    match r
    case HookAt(addr, permitted, site, granted, junk) =>
      if addr != 0 && permitted && addr as nat !in t.live {
        NewBuilt(st, original, t, sites, r);
      }
    case DestroyAt(addr) =>
      DestroyBuilt(t, sites, addr);
  }

  lemma DestroyBuilt(t: Track, sites: map<nat, Site>, addr: nat)
    requires Footprints(t.live, |t.base|) && AllBuilt(t, sites)
    ensures AllBuilt(TrackAfter(t, [], Destroy(addr)), sites - {addr})
  {
    hide Footprints, Built, Uncovered;
    if addr in t.live {
      InBounds(t.live, |t.base|, addr);
      forall a | a in t.live && a != addr
        ensures Built(TrackAfter(t, [], Destroy(addr)), sites - {addr}, a)
      {
        OutsideFoot(t.live, t.base, addr, a);
        StillBuilt(t, sites, a, TrackAfter(t, [], Destroy(addr)), sites - {addr});
      }
    } else {
      assert sites - {addr} == sites;
    }
  }

  lemma OutsideFoot(live: map<nat, Live>, base: seq<u8>, addr: nat, a: nat)
    requires Footprints(live, |base|) && addr in live && a in live && a != addr
    ensures addr + live[addr].Foot() <= |base| && a + |live[a].saved| <= |base|
    ensures Uncovered(base, addr, live[addr])[a..a + |live[a].saved|] == base[a..a + |live[a].saved|]
  {
    assert Disjoint(a, live[a].Foot(), addr, live[addr].Foot());
    assert a + live[a].Foot() <= |base|;
    UncoveredAt(base, addr, live[addr]);
  }

  lemma InvFacts(st: State, original: seq<u8>, t: Track)
    requires Inv(st, original, t)
    ensures Overlaid(st.code, t.base, t.live) && Footprints(t.live, |t.base|) && |st.code| == |t.base| == |original|
    ensures AllSavedRight(t.live, t.base)
  {
  }

  /** The new hook is built of its site. */
  lemma NewOneBuilt(st: State, original: seq<u8>, t: Track, sites: map<nat, Site>, r: Request)
    requires Inv(st, original, t) && InMemory(st, CallOf(st.code, r)) && Sound(r, st.code, t.live)
    requires r.HookAt? && r.addr != 0 && r.permitted && r.addr as nat !in t.live
    ensures Built(TrackAfter(t, st.code, CallOf(st.code, r)), SitesAfter(sites, t.live, r), r.addr)
  {
    hide TrampolineFor, WindowFor, DecodedFor, Footprints, Overlaid;
    var c := CallOf(st.code, r);
    InvFacts(st, original, t);
    var window := WindowFor(st.code, r.addr, r.site, r.granted);
    if window.Some? {
      forall a | a in t.live
        ensures Disjoint(a, t.live[a].Foot(), r.addr, window.value)
      {
        assert Disjoint(a, t.live[a].Foot(), r.addr, NewLive(st.code, c).Foot());
      }
      BaseShows(st.code, t.base, t.live, r.addr, window.value);
      SameWindow(st.code, t.base, r.addr, r.site, r.granted);
    }
  }

  lemma NewBuilt(st: State, original: seq<u8>, t: Track, sites: map<nat, Site>, r: Request)
    requires Inv(st, original, t) && AllBuilt(t, sites)
    requires InMemory(st, CallOf(st.code, r)) && Sound(r, st.code, t.live)
    requires r.HookAt? && r.addr != 0 && r.permitted && r.addr as nat !in t.live
    ensures AllBuilt(TrackAfter(t, st.code, CallOf(st.code, r)), SitesAfter(sites, t.live, r))
  {
    hide TrampolineFor, WindowFor, DecodedFor, Inv;
    NewOneBuilt(st, original, t, sites, r);
    var t' := TrackAfter(t, st.code, CallOf(st.code, r));
    forall a | a in t'.live
      ensures Built(t', SitesAfter(sites, t.live, r), a)
    {
      assert a in t.live ==> Built(t, sites, a);
    }
  }

  /** What is built stays so as long as the bytes it was made from do. */
  lemma StillBuilt(t: Track, sites: map<nat, Site>, a: nat, t': Track, sites': map<nat, Site>)
    requires AllBuilt(t, sites) && a in t.live && a in t'.live && t'.live[a] == t.live[a] && a in sites'
             && sites'[a] == sites[a]
    requires |t'.base| == |t.base| && a + |t.live[a].saved| <= |t.base|
    requires t'.base[a..a + |t.live[a].saved|] == t.base[a..a + |t.live[a].saved|]
    ensures Built(t', sites', a)
  {
    hide TrampolineFor, WindowFor, DecodedFor;
    assert Built(t, sites, a);
    if t.live[a].relocated {
      SameWindow(t.base, t'.base, a, sites[a], true);
    }
  }

  lemma {:induction false} RunKeepsBuilt(st: State, original: seq<u8>, t: Track, sites: map<nat, Site>,
                                         rs: seq<Request>, end: State, tEnd: Track, sitesEnd: map<nat, Site>)
    requires Inv(st, original, t) && AllBuilt(t, sites) && RequestRun(st, t, sites, rs, end, tEnd, sitesEnd)
    ensures Inv(end, original, tEnd) && AllBuilt(tEnd, sitesEnd)
    decreases |rs|
  {
    hide Inv, AllBuilt, Step, TrackAfter, SitesAfter, Find, Sound, WindowFor, TrampolineFor;
    if rs != [] {
      RequestKeeps(st, original, t, sites, rs[0]);
      var c := CallOf(st.code, rs[0]);
      RunKeepsBuilt(Step(st, c), original, TrackAfter(t, st.code, c), SitesAfter(sites, t.live, rs[0]), rs[1..],
          end, tEnd, sitesEnd);
    }
  }

  /** The relocation of every hook that is made on the run succeeds. */
  ghost predicate NoneFails(st: State, t: Track, sites: map<nat, Site>, rs: seq<Request>)
    decreases |rs|
  {
    rs != [] ==>
      var c := CallOf(st.code, rs[0]);
      InMemory(st, c) ==>
        && (c.Hook? && c.addr != 0 && c.permitted && c.addr !in t.live ==> c.window.Some?)
        && NoneFails(Step(st, c), TrackAfter(t, st.code, c), SitesAfter(sites, t.live, rs[0]), rs[1..])
  }

  ghost predicate AllRelocated(live: map<nat, Live>) { forall a <- live :: live[a].relocated }

  lemma BuiltCovers(t: Track, sites: map<nat, Site>, a: nat)
    requires AllBuilt(t, sites) && a in t.live && t.live[a].relocated
    ensures t.live[a].Covers()
  {
    hide TrampolineFor, WindowFor, DecodedFor;
    assert Built(t, sites, a);
    WindowCovers(t.base, a, sites[a], true);
  }

  /** Then nothing is left behind. */
  lemma {:induction false} NoScars(st: State, original: seq<u8>, t: Track, sites: map<nat, Site>, rs: seq<Request>,
                                   end: State, tEnd: Track, sitesEnd: map<nat, Site>)
    requires Inv(st, original, t) && AllBuilt(t, sites) && RequestRun(st, t, sites, rs, end, tEnd, sitesEnd)
    requires NoneFails(st, t, sites, rs) && AllRelocated(t.live) && t.scars == {}
    ensures tEnd.scars == {}
    decreases |rs|
  {
    hide Inv, AllBuilt, Step, SitesAfter, Find, Sound, WindowFor, TrampolineFor, Uncovered;
    if rs != [] {
      RequestKeeps(st, original, t, sites, rs[0]);
      var c := CallOf(st.code, rs[0]);
      if c.Destroy? && c.addr in t.live {
        BuiltCovers(t, sites, c.addr);
      }
      NoScars(Step(st, c), original, TrackAfter(t, st.code, c), SitesAfter(sites, t.live, rs[0]), rs[1..], end,
          tEnd, sitesEnd);
    }
  }

  /**
    From fresh code, over every interleaving of hooks and destroys that write apart from each other,
    relocations failing or not: the code is the base but for the trampolines of the live hooks, each that
    of its site, and wholly so if none is left. The base is the original code but for the scars of failed
    hooks that have been destroyed, and wholly so if no relocation fails.
   */
  lemma HooksFromFresh(original: seq<u8>, rs: seq<Request>, end: State, t: Track, sites: map<nat, Site>)
    requires RequestRun(State(original, []), Fresh(original), map[], rs, end, t, sites)
    ensures Overlaid(end.code, t.base, t.live) && AllBuilt(t, sites) && OriginalElsewhere(t.base, original, t.scars)
    ensures forall a <- t.live :: t.live[a].relocated ==> t.live[a].Covers()
    ensures t.live == map[] ==> end.code == t.base && end.entries == []
    ensures NoneFails(State(original, []), Fresh(original), map[], rs) ==> t.base == original
  {
    hide RequestRun, Registered, Footprints, TrampolineFor, WindowFor, NoneFails, OriginalElsewhere, Built;
    FreshInv(original);
    RunKeepsBuilt(State(original, []), original, Fresh(original), map[], rs, end, t, sites);
    forall a | a in t.live && t.live[a].relocated
      ensures t.live[a].Covers()
    {
      BuiltCovers(t, sites, a);
    }
    if t.live == map[] {
      NothingLive(end, original, t);
    }
    if NoneFails(State(original, []), Fresh(original), map[], rs) {
      NoScars(State(original, []), original, Fresh(original), map[], rs, end, t, sites);
      Unscarred(t.base, original);
    }
  }

  lemma RunInv(original: seq<u8>, rs: seq<Request>, end: State, t: Track, sites: map<nat, Site>)
    requires RequestRun(State(original, []), Fresh(original), map[], rs, end, t, sites)
    ensures Overlaid(end.code, t.base, t.live) && Footprints(t.live, |t.base|) && AllBuilt(t, sites)
    ensures AllSavedRight(t.live, t.base) && |end.code| == |t.base| == |original|
  {
    hide RequestRun, Registered, Footprints, Overlaid, Built, OriginalElsewhere, AllSavedRight, Inv;
    FreshInv(original);
    RunKeepsBuilt(State(original, []), original, Fresh(original), map[], rs, end, t, sites);
    InvFacts(end, original, t);
  }

  // ----- the code that is run

  /** No trampoline is over the word at x, or those that are happen to agree with what is underneath. */
  ghost predicate TrampolinesAgree(t: Track, x: nat)
    requires x + 4 <= |t.base|
  {
    forall a, k :: x <= k < x + 4 && Under(t.live, a, k) ==> t.live[a].tramp[k - a] == t.base[k]
  }

  /** Exactly then the word in memory is the one underneath the hooks. */
  lemma WordAfterRun(original: seq<u8>, rs: seq<Request>, end: State, t: Track, sites: map<nat, Site>, x: nat)
    requires RequestRun(State(original, []), Fresh(original), map[], rs, end, t, sites) && x + 4 <= |original|
    ensures |end.code| == |t.base| == |original|
    ensures WordAt(end.code, x) == WordAt(t.base, x) <==> TrampolinesAgree(t, x)
  {
    hide RequestRun, Footprints, AllBuilt, AllSavedRight;
    RunInv(original, rs, end, t, sites);
    WordsDiffer(end.code, t.base, x);
    forall k | x <= k < x + 4
      ensures end.code[k] == t.base[k] <==> forall a :: Under(t.live, a, k) ==> t.live[a].tramp[k - a] == t.base[k]
    {
      ByteUnder(end.code, t.base, t.live, k);
    }
  }

  lemma ByteUnder(code: seq<u8>, base: seq<u8>, live: map<nat, Live>, k: nat)
    requires Overlaid(code, base, live) && k < |code|
    ensures code[k] == base[k] <==> forall a :: Under(live, a, k) ==> live[a].tramp[k - a] == base[k]
  {
  }

  lemma WordsDiffer(code: seq<u8>, base: seq<u8>, x: nat)
    requires x + 4 <= |code| == |base|
    ensures WordAt(code, x) == WordAt(base, x) <==> forall k :: x <= k < x + 4 ==> code[k] == base[k]
  {
    var p, q := code[x..x + 4], base[x..x + 4];
    SameBytes32(p, q);
    assert forall k :: x <= k < x + 4 ==> code[k] == p[k - x] && base[k] == q[k - x];
    if p == q {
      assert forall k :: x <= k < x + 4 ==> code[k] == base[k];
    }
  }

  lemma SameBytes32(p: seq<u8>, q: seq<u8>)
    requires |p| == |q| == 4
    ensures Read32(p) == Read32(q) <==> p == q
  {
    hide Read32, LE32;
    LERead32(p);
    LERead32(q);
  }

  /** A live trampoline is in the code. */
  lemma TrampolineInCode(code: seq<u8>, base: seq<u8>, live: map<nat, Live>, a: nat)
    requires Overlaid(code, base, live) && Footprints(live, |base|) && a in live
    ensures a + |live[a].tramp| <= |code| && code[a..a + |live[a].tramp|] == live[a].tramp
  {
    var tramp := live[a].tramp;
    assert a + live[a].Foot() <= |base|;
    forall k | 0 <= k < |tramp|
      ensures code[a..a + |tramp|][k] == tramp[k]
    {
      assert Under(live, a, a + k);
    }
  }

  /** After any run, the trampoline of every live hook is in the code, whatever became of its relocation. */
  lemma LiveTrampoline(original: seq<u8>, rs: seq<Request>, end: State, t: Track, sites: map<nat, Site>, a: u64)
    requires RequestRun(State(original, []), Fresh(original), map[], rs, end, t, sites) && a as nat in sites
    ensures var tramp := TrampolineFor(sites[a as nat], a);
            a + |tramp| <= |end.code| == |original| && end.code[a..a + |tramp|] == tramp
  {
    hide RequestRun, Overlaid, Footprints, WindowFor, TrampolineFor, AllSavedRight;
    RunInv(original, rs, end, t, sites);
    TrampolineInCode(end.code, t.base, t.live, a);
    assert Built(t, sites, a);
  }

  lemma {:induction false} WordOfBytes(ws: seq<u32>, k: nat)
    requires k < |ws|
    ensures Read32(WordBytes(ws)[4 * k..4 * k + 4]) == ws[k]
    decreases |ws|
  {
    var first, rest := LE32(ws[0]), WordBytes(ws[1..]);
    if k == 0 {
      ReadLE32(ws[0]);
      assert (first + rest)[0..4] == first;
    } else {
      WordOfBytes(ws[1..], k - 1);
      assert (first + rest)[4 * k..4 * k + 4] == rest[4 * k - 4..4 * k];
    }
  }

  /** A64 memory, word by word, holds the code. */
  ghost predicate HoldsWords(mem: u64 -> u32, code: seq<u8>)
  {
    forall x: u64 :: x + 4 <= |code| ==> mem(x) == WordAt(code, x)
  }

  lemma BytesLoaded(mem: u64 -> u32, code: seq<u8>, a: u64, ws: seq<u32>)
    requires HoldsWords(mem, code) && |code| <= TWO64 && a + 4 * |ws| <= |code|
             && code[a..a + 4 * |ws|] == WordBytes(ws)
    ensures Arm64Simulation.Loaded(mem, a, ws)
  {
    hide WordBytes, Read32, Wrap;
    forall k | 0 <= k < |ws|
      ensures mem(Wrap(a + 4 * k)) == ws[k]
    {
      WrapSmall(a + 4 * k);
      SubSlice(code, a, a + 4 * |ws|, 4 * k, 4 * k + 4);
      WordOfBytes(ws, k);
      var x: u64 := a + 4 * k;
      assert mem(x) == WordAt(code, x);
    }
  }

  /**
    Calling a function that is hooked on A64 reaches its replacement, with nothing changed but X17:
    after any run, for every live hook, exactly if the near trampoline is not used for a page delta of
    2^32.
   */
  lemma HookedCallArm64(original: seq<u8>, rs: seq<Request>, end: State, t: Track, sites: map<nat, Site>,
                        a: u64, plain: A64.PlainSem, s: A64.State)
    requires RequestRun(State(original, []), Fresh(original), map[], rs, end, t, sites) && |original| <= TWO64
    requires a as nat in sites && sites[a as nat].Arm64? && s.pc == a && HoldsWords(s.mem, end.code)
    requires Arm64Trampoline.AddsImmediate(plain)
    ensures var to := sites[a as nat].replacement;
            var u := A64.Steps(plain, s, Arm64Trampoline.TrampolineSteps(a, to));
            && u == s.(x := s.x[A64.TMP := u.pc], pc := u.pc)
            && (u.pc == to <==> Arm64Trampoline.Distance(a, to) >= Arm64Trampoline.ADRP_RANGE
                                || Arm64Trampoline.PageDelta(a, to) != Arm64Trampoline.ADRP_RANGE)
  {
    hide RequestRun, HoldsWords, Arm64Trampoline.AddsImmediate, Arm64Trampoline.Trampoline, A64.Steps,
         Arm64Trampoline.Distance, Arm64Trampoline.PageDelta, WordBytes;
    var to := sites[a as nat].replacement;
    LiveTrampoline(original, rs, end, t, sites, a);
    BytesLoaded(s.mem, end.code, a, Arm64Trampoline.Trampoline(a, to));
    Arm64Trampoline.TrampolineReachesExactly(plain, s, to);
  }

  /** The words that the relocator took for a hook on A64. */
  function WindowWords(base: seq<u8>, a: u64, to: u64): seq<u32>
    requires a + 4 * WordsFor(4 * |Arm64Trampoline.Trampoline(a, to)|) <= |base|
  {
    WordsAt(base, a, WordsFor(4 * |Arm64Trampoline.Trampoline(a, to)|))
  }

  /** Their relocation exists, and is small. */
  lemma WindowRelocated(t: Track, sites: map<nat, Site>, a: u64)
    requires AllBuilt(t, sites) && a as nat in sites && sites[a as nat].Arm64? && t.live[a as nat].relocated
    ensures var to := sites[a as nat].replacement;
            && a + 4 * WordsFor(4 * |Arm64Trampoline.Trampoline(a, to)|) <= |t.base|
            && var ws := WindowWords(t.base, a, to);
               && 4 * |ws| == |t.live[a as nat].saved|
               && Arm64Relocation.RelocatedCode(ws, a, true).Some?
               && |Arm64Relocation.RelocatedCode(ws, a, true).value| <= 24
  {
    hide Arm64Relocation.RelocatedCode;
    assert Built(t, sites, a);
    var to := sites[a as nat].replacement;
    Arm64Trampoline.TrampolineSize(a, to);
    Arm64Installation.RelocatedSize(WindowWords(t.base, a, to), a);
  }

  /**
    And entering the relocation of a hooked function runs it as the code underneath: wherever the code that
    the relocator made of the window is in memory, the run leaves the window as the original run does. Where
    it goes then, the next word is the one underneath exactly if no trampoline disagrees with it.
   */
  lemma RelocatedCallArm64(original: seq<u8>, rs: seq<Request>, end: State, t: Track, sites: map<nat, Site>,
                           a: u64, dst: u64, plain: A64.PlainSem, s: A64.State, u: A64.State)
    requires RequestRun(State(original, []), Fresh(original), map[], rs, end, t, sites) && |original| < TWO64
    requires a as nat in sites && sites[a as nat].Arm64?
    ensures AllBuilt(t, sites) && |end.code| == |t.base| == |original|
    ensures t.live[a as nat].relocated ==>
            && a + 4 * WordsFor(4 * |Arm64Trampoline.Trampoline(a, sites[a as nat].replacement)|) <= |t.base|
            && var ws := WindowWords(t.base, a, sites[a as nat].replacement);
               && Arm64Relocation.RelocatedCode(ws, a, true).Some?
               && RunsAsCode(ws, a, dst, plain, s, u)
    ensures forall x: nat :: x + 4 <= |end.code| ==>
              (WordAt(end.code, x) == WordAt(t.base, x) <==> TrampolinesAgree(t, x))
  {
    hide RequestRun, AllBuilt, Arm64Relocation.RelocatedCode, Overlaid, Footprints, RunsAsCode, AllSavedRight, WordAt;
    RunInv(original, rs, end, t, sites);
    assert a as nat in t.live by { SitesLive(t, sites); }
    if t.live[a as nat].relocated {
      WindowRelocated(t, sites, a);
      WindowRunsAsCode(WindowWords(t.base, a, sites[a as nat].replacement), a, dst, plain, s, u);
    }
    forall x: nat | x + 4 <= |end.code|
      ensures WordAt(end.code, x) == WordAt(t.base, x) <==> TrampolinesAgree(t, x)
    {
      WordAfterRun(original, rs, end, t, sites, x);
    }
  }

  lemma SitesLive(t: Track, sites: map<nat, Site>)
    requires AllBuilt(t, sites)
    ensures sites.Keys == t.live.Keys
  {
  }

  /** Entered at dst, the relocation of ws runs as ws does at src. */
  ghost predicate RunsAsCode(ws: seq<u32>, src: u64, dst: u64, plain: A64.PlainSem, s: A64.State, u: A64.State)
    requires Arm64Relocation.RelocatedCode(ws, src, true).Some?
  {
    var code := Arm64Relocation.RelocatedCode(ws, src, true).value;
    s.pc == src && u.pc == dst && Arm64Simulation.Same(s, u) && Arm64Simulation.Loaded(u.mem, dst, code)
    && Arm64Simulation.AllAgree(plain, ws) && Arm64Simulation.RunPreserved(plain, ws, 0, s)
    && Arm64Simulation.RunKeeps(plain, ws, 0, s, dst, code) ==>
      exists n: nat {:trigger A64.Steps(plain, u, n)} ::
        Arm64Simulation.LeftAlike(ws, src, dst, Arm64Simulation.ExitAt(plain, ws, 0, s),
                                  Arm64Simulation.WindowRun(plain, ws, 0, s), A64.Steps(plain, u, n))
  }

  lemma WindowRunsAsCode(ws: seq<u32>, src: u64, dst: u64, plain: A64.PlainSem, s: A64.State, u: A64.State)
    requires src + 4 * |ws| < TWO64 && Arm64Relocation.RelocatedCode(ws, src, true).Some?
    requires |Arm64Relocation.RelocatedCode(ws, src, true).value| <= 24
    ensures RunsAsCode(ws, src, dst, plain, s, u)
  {
    hide Arm64Relocation.RelocatedCode, Arm64Simulation.Loaded, Arm64Simulation.LeftAlike, A64.Steps,
         Arm64Simulation.Same, Arm64Simulation.AllAgree, Arm64Simulation.RunPreserved, Arm64Simulation.RunKeeps;
    var code := Arm64Relocation.RelocatedCode(ws, src, true).value;
    Arm64Simulation.FirstOffset(ws, src);
    if s.pc == src && u.pc == dst && Arm64Simulation.Same(s, u) && Arm64Simulation.Loaded(u.mem, dst, code)
       && Arm64Simulation.AllAgree(plain, ws) && Arm64Simulation.RunPreserved(plain, ws, 0, s)
       && Arm64Simulation.RunKeeps(plain, ws, 0, s, dst, code) {
      Arm64Simulation.RelocationSimulates(plain, ws, src, dst, 0, s, u);
    }
  }

  /**
    On x86-64 too: the instructions taken are those the code underneath decodes to, their relocation exists
    wherever it is put, and once it is in memory it runs as they do.
   */
  lemma RelocatedCallX64(original: seq<u8>, rs: seq<Request>, end: State, t: Track, sites: map<nat, Site>, a: u64,
                         dst: u64, detours: seq<u64>, cpu: X64Isa.Cpu, s: X64Isa.State, u: X64Isa.State)
    requires RequestRun(State(original, []), Fresh(original), map[], rs, end, t, sites)
    requires a as nat in sites && sites[a as nat].X64?
    ensures AllBuilt(t, sites)
    ensures t.live[a as nat].relocated ==>
              var stream := sites[a as nat].stream;
              var ds := InsnsFor(stream, |TrampolineFor(sites[a as nat], a)|);
              && Decodes(t.base, a, stream, |ds|) && X64Relocation.OrigOffset(ds, |ds|) == |t.live[a as nat].saved|
              && (X64Relocation.AllReadable(ds) && |detours| == |ds| ==>
                   X64Relocation.Relocate(ds, a, dst, detours, true).Some?)
              && RunsAsInsns(ds, a, dst, detours, cpu, s, u)
  {
    hide RequestRun, Overlaid, Footprints, AllSavedRight, Decodes, RunsAsInsns, X64Relocation.Relocate,
         X64Relocation.AllReadable;
    RunInv(original, rs, end, t, sites);
    assert Built(t, sites, a);
    if t.live[a as nat].relocated {
      var stream := sites[a as nat].stream;
      var ds := InsnsFor(stream, |TrampolineFor(sites[a as nat], a)|);
      if X64Relocation.AllReadable(ds) && |detours| == |ds| {
        RelocatesExactly(ds, a, dst, detours);
      }
      InsnsRunAsThey(ds, a, dst, detours, cpu, s, u);
    }
  }

  /** Wherever it is put, the relocation of a window exists exactly if all its instructions have one. */
  lemma RelocatesExactly(ds: seq<X64Isa.Insn>, src: u64, dst: u64, detours: seq<u64>)
    requires |detours| == |ds| && X64Relocation.AllReadable(ds)
    ensures X64Relocation.Relocate(ds, src, dst, detours, true).Some? <==>
              forall d <- ds :: X64Relocation.Relocatable(d)
  {
    hide X64Relocation.Relocatable, X64Relocation.AllReadable;
    X64Relocation.AbortsExactly(ds, src, dst, detours, |ds|);
    assert forall k :: 0 <= k < |ds| ==> ds[k] in ds;
  }

  /** Entered at dst, the relocation of ds, if it is in memory, runs as ds does at src. */
  ghost predicate RunsAsInsns(ds: seq<X64Isa.Insn>, src: u64, dst: u64, detours: seq<u64>, cpu: X64Isa.Cpu,
                              s: X64Isa.State, u: X64Isa.State)
  {
    X64Simulation.Installed(ds, src, dst, detours, u.m) && s.rip == src && u == X64Isa.State(dst, s.m)
    && X64Simulation.RunKeeps(cpu, ds, 0, s, dst, X64Relocation.Relocate(ds, src, dst, detours, true).value) ==>
      exists u' :: X64Simulation.Reaches(cpu, u, u') &&
        var (e, x) := X64Simulation.ExitFrom(cpu, ds, 0, s);
        X64Simulation.LeftAlike(cpu, ds, src, dst, detours, e, x, u')
  }

  lemma InsnsRunAsThey(ds: seq<X64Isa.Insn>, src: u64, dst: u64, detours: seq<u64>, cpu: X64Isa.Cpu, s: X64Isa.State,
                       u: X64Isa.State)
    ensures RunsAsInsns(ds, src, dst, detours, cpu, s, u)
  {
    hide X64Simulation.RunKeeps, X64Simulation.Reaches, X64Simulation.LeftAlike, X64Simulation.ExitFrom,
         X64Relocation.Relocate, X64Simulation.Installed, X64Simulation.AllInScope, X64Relocation.AllReadable,
         X64Isa.Exec, X64Simulation.WindowRun, Wrap;
    if X64Simulation.Installed(ds, src, dst, detours, u.m) {
      X64Simulation.InstalledFacts(ds, src, dst, detours, u.m);
      if s.rip == src && u == X64Isa.State(dst, s.m)
         && X64Simulation.RunKeeps(cpu, ds, 0, s, dst, X64Relocation.Relocate(ds, src, dst, detours, true).value) {
        WrapSmall(src);
        WrapSmall(dst);
        X64Simulation.RelocationSimulates(cpu, ds, src, dst, detours, 0, s, u);
      }
    }
  }

  /** The jump of the x86-64 trampoline, as the decoder would record it. */
  function StubJump(stub: u64, a: u64): X64Isa.Insn
  {
    X64Isa.Insn(X64Relocator.JmpNearIndirect(stub, a), 0xFF, 0, false, 0, true, 2)
  }

  /** x86-64 memory, byte by byte, holds the code. */
  ghost predicate HoldsBytes(m: X64Isa.Machine, code: seq<u8>)
  {
    forall x: u64 :: x < |code| ==> m.mem(x) == code[x]
  }

  lemma BytesAt(m: X64Isa.Machine, code: seq<u8>, a: u64, b: seq<u8>)
    requires HoldsBytes(m, code) && |code| <= TWO64 && a + |b| <= |code| && code[a..a + |b|] == b
    ensures X64Isa.At(m, a, b)
  {
    forall k | 0 <= k < |b|
      ensures m.Bytes(a, |b|)[k] == b[k]
    {
      WrapSmall(a + k);
      assert code[a..a + |b|][k] == b[k];
    }
  }

  /** The jump goes where its slot says; the slot is the stub exactly if that is near enough. */
  lemma StubJumpRuns(cpu: X64Isa.Cpu, s: X64Isa.State, stub: u64)
    requires X64Isa.At(s.m, s.rip, X64Relocator.JmpNearIndirect(stub, s.rip))
    ensures var next := Wrap(s.rip + 6);
            var slot := Wrap(next + X64Isa.Sext32(Wrap32(stub - next)));
            && X64Isa.Runs(cpu, s, [StubJump(stub, s.rip)], X64Isa.State(s.m.Load64(slot), s.m))
            && (slot == stub <==> exists k: int :: -0x8000_0000 <= stub - next + k * TWO64 < 0x8000_0000)
  {
    hide X64Isa.At, LE32, X64Isa.Machine.Load64, X64Isa.Sext32, Wrap, Wrap32, X64Isa.Runs;
    var d, next := StubJump(stub, s.rip), Wrap(s.rip + 6);
    var disp := Wrap32(stub - next);
    assert d.bytes[2..6] == LE32(disp);
    ReadLE32(disp);
    assert X64Isa.KindOf(d) == X64Isa.JmpMem && X64Isa.WellFormed(d);
    X64Relocation.RunOne(cpu, s, d);
    X64Relocation.DispArrivesExactly(next, stub);
  }

  /** Calling a function that is hooked on x86-64 goes where the stub points, if the stub is within 2 GB. */
  lemma HookedCallX64(original: seq<u8>, rs: seq<Request>, end: State, t: Track, sites: map<nat, Site>,
                      a: u64, cpu: X64Isa.Cpu, s: X64Isa.State)
    requires RequestRun(State(original, []), Fresh(original), map[], rs, end, t, sites) && |original| <= TWO64
    requires a as nat in sites && sites[a as nat].X64? && s.rip == a && HoldsBytes(s.m, end.code)
    requires -0x8000_0000 <= sites[a as nat].stub - Wrap(a + 6) < 0x8000_0000
    ensures var stub := sites[a as nat].stub;
            X64Isa.Runs(cpu, s, [StubJump(stub, a)], X64Isa.State(s.m.Load64(stub), s.m))
  {
    hide RequestRun, HoldsBytes, X64Isa.Runs, X64Isa.At, X64Relocator.JmpNearIndirect, StubJump, X64Isa.Machine.Load64;
    var stub := sites[a as nat].stub;
    LiveTrampoline(original, rs, end, t, sites, a);
    BytesAt(s.m, end.code, a, X64Relocator.JmpNearIndirect(stub, a));
    StubJumpRuns(cpu, s, stub);
    assert -0x8000_0000 <= stub - Wrap(a + 6) + 0 * TWO64 < 0x8000_0000;
  }
}
