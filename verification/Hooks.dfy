/**
  Inline hooks as a state machine over code memory: DobbyHook saves the bytes of the window it
  relocates and patches a trampoline over them, DobbyDestroy patches the saved bytes back, and the
  interceptor remembers which addresses are hooked.

  The trampoline, the outcome of the relocation and of the page permission change are parameters.
 */
module Hooks {
  import opened Words

  // ----- the state and its steps, as values

  /** A registered hook: where, and the bytes saved there. */
  datatype Entry = Entry(addr: nat, saved: seq<u8>)

  datatype State = State(code: seq<u8>, entries: seq<Entry>)

  /** DobbyCodePatch: bytes over the code at addr */
  function Patch(code: seq<u8>, addr: nat, bytes: seq<u8>): (r: seq<u8>)
    requires addr + |bytes| <= |code|
    ensures |r| == |code|
    ensures forall k :: 0 <= k < |code| ==> r[k] == if addr <= k < addr + |bytes| then bytes[k - addr] else code[k]
  {
    code[..addr] + bytes + code[addr + |bytes|..]
  }

  /** The index of the entry registered for addr. */
  function Find(entries: seq<Entry>, addr: nat): (r: Option<nat>)
    ensures r.Some? ==> r.value < |entries| && entries[r.value].addr == addr
    ensures r.Some? ==> forall k :: 0 <= k < r.value ==> entries[k].addr != addr
    ensures r.None? ==> forall e <- entries :: e.addr != addr
  {
    if entries == [] then None
    else if entries[0].addr == addr then Some(0)
    else
      match Find(entries[1..], addr)
      case None => None
      case Some(k) => Some(k + 1)
  }

  function Without(entries: seq<Entry>, i: nat): (r: seq<Entry>)
    requires i < |entries|
    ensures |r| == |entries| - 1
    ensures forall k :: 0 <= k < |r| ==> r[k] == entries[if k < i then k else k + 1]
  {
    entries[..i] + entries[i + 1..]
  }

  /**
    A call to DobbyHook or DobbyDestroy. For a hook: the trampoline, and the size of the window whose
    relocation it needs, if that succeeds; if not, the entry keeps whatever bytes it happens to hold.
   */
  datatype Call =
    | Hook(addr: nat, permitted: bool, tramp: seq<u8>, window: Option<nat>, junk: seq<u8>)
    | Destroy(addr: nat)

  /** Does the call succeed in st? */
  predicate Succeeds(st: State, c: Call)
  {
    match c
    case Hook(addr, permitted, _, _, _) => addr != 0 && permitted && Find(st.entries, addr).None?
    case Destroy(addr) => Find(st.entries, addr).Some?
  }

  /** The memory a call touches is there. */
  predicate InMemory(st: State, c: Call)
  {
    match c
    case Hook(addr, _, tramp, window, _) =>
      addr + |tramp| <= |st.code| && (window.Some? ==> addr + window.value <= |st.code|)
    case Destroy(addr) =>
      var i := Find(st.entries, addr);
      i.Some? ==> addr + |st.entries[i.value].saved| <= |st.code|
  }

  function Step(st: State, c: Call): State
    requires InMemory(st, c)
  {
    if !Succeeds(st, c) then st
    else
      match c
      case Hook(addr, _, tramp, window, junk) =>
        var saved := if window.Some? then st.code[addr..addr + window.value] else junk;
        State(Patch(st.code, addr, tramp), st.entries + [Entry(addr, saved)])
      case Destroy(addr) =>
        var i := Find(st.entries, addr).value;
        State(Patch(st.code, addr, st.entries[i].saved), Without(st.entries, i))
  }

  // ----- what every run keeps

  /** The bytes an entry ends up with. */
  function SavedBytes(code: seq<u8>, addr: nat, window: Option<nat>, junk: seq<u8>): seq<u8>
    requires window.Some? ==> addr + window.value <= |code|
  {
    if window.Some? then code[addr..addr + window.value] else junk
  }

  /** A live hook: its trampoline, the bytes its entry holds, and whether they were saved after a relocation. */
  datatype Live = Live(tramp: seq<u8>, saved: seq<u8>, relocated: bool)
  {
    /** How many bytes the hook and its destruction write. */
    function Foot(): nat { Max(|tramp|, |saved|) }

    /** The saved bytes cover the trampoline. */
    predicate Covers() { relocated && |tramp| <= |saved| }
  }

  /**
    What a run has come to: the live hooks, the code as it is underneath them, and the stretches where
    hooks that did not cover their trampolines have been destroyed.
   */
  datatype Track = Track(live: map<nat, Live>, base: seq<u8>, scars: set<(nat, nat)>)

  /** Byte k is under the trampoline of addr. */
  predicate Under(live: map<nat, Live>, addr: nat, k: nat)
  {
    addr in live && addr <= k < addr + |live[addr].tramp|
  }

  /** The base, but for the trampolines of the live hooks. */
  ghost predicate Overlaid(code: seq<u8>, base: seq<u8>, live: map<nat, Live>)
  {
    && |code| == |base|
    && (forall addr, k :: 0 <= k < |code| && Under(live, addr, k) ==> code[k] == live[addr].tramp[k - addr])
    && (forall k :: 0 <= k < |code| && (forall addr :: !Under(live, addr, k)) ==> code[k] == base[k])
  }

  /** What live hooks write lies in the code and does not overlap. */
  ghost predicate Footprints(live: map<nat, Live>, size: nat)
  {
    && (forall a <- live :: a + live[a].Foot() <= size)
    && (forall a <- live, b <- live :: a != b ==> Disjoint(a, live[a].Foot(), b, live[b].Foot()))
  }

  /** A hook that has relocated its window holds the bytes of the base there. */
  predicate SavedRight(l: Live, base: seq<u8>, a: nat)
  {
    l.relocated ==> a + |l.saved| <= |base| && l.saved == base[a..a + |l.saved|]
  }

  ghost predicate AllSavedRight(live: map<nat, Live>, base: seq<u8>)
  {
    forall a <- live :: SavedRight(live[a], base, a)
  }

  /** The entry is for a live hook and has its saved bytes. */
  predicate Saved(e: Entry, live: map<nat, Live>)
  {
    e.addr in live && e.saved == live[e.addr].saved
  }

  lemma SavedStill(e: Entry, live: map<nat, Live>, live': map<nat, Live>)
    requires Saved(e, live) && e.addr in live' && live'[e.addr] == live[e.addr]
    ensures Saved(e, live')
  {
  }

  /** The registry holds exactly the live hooks, each once. */
  ghost predicate Registered(entries: seq<Entry>, live: map<nat, Live>)
  {
    && (forall e <- entries :: Saved(e, live))
    && (forall a <- live :: Find(entries, a).Some?)
    && (forall i, j :: 0 <= i < j < |entries| ==> entries[i].addr != entries[j].addr)
  }

  predicate Scarred(scars: set<(nat, nat)>, k: nat)
  {
    exists s <- scars :: s.0 <= k < s.0 + s.1
  }

  /** Away from the scars the base is the original code. */
  ghost predicate OriginalElsewhere(base: seq<u8>, original: seq<u8>, scars: set<(nat, nat)>)
  {
    && |base| == |original|
    && forall k :: 0 <= k < |base| && !Scarred(scars, k) ==> base[k] == original[k]
  }

  ghost predicate Inv(st: State, original: seq<u8>, t: Track)
  {
    && Overlaid(st.code, t.base, t.live) && Footprints(t.live, |original|) && Registered(st.entries, t.live)
    && AllSavedRight(t.live, t.base) && OriginalElsewhere(t.base, original, t.scars)
  }

  /** What a hook makes of the code. */
  function NewLive(code: seq<u8>, c: Call): Live
    requires c.Hook? && (c.window.Some? ==> c.addr + c.window.value <= |code|)
  {
    Live(c.tramp, SavedBytes(code, c.addr, c.window, c.junk), c.window.Some?)
  }

  /** A new hook writes, and will write, inside the code and apart from all live hooks. */
  ghost predicate Proper(c: Call, code: seq<u8>, live: map<nat, Live>)
  {
    c.Hook? && c.addr !in live ==>
      && (c.window.Some? ==> c.addr + c.window.value <= |code|)
      && var n := NewLive(code, c).Foot();
         c.addr + n <= |code| && forall a <- live :: Disjoint(a, live[a].Foot(), c.addr, n)
  }

  /** The base after a hook over it has been destroyed. */
  function Uncovered(base: seq<u8>, a: nat, l: Live): (r: seq<u8>)
    requires a + l.Foot() <= |base|
    ensures |r| == |base|
  {
    Patch(Patch(base, a, l.tramp), a, l.saved)
  }

  function TrackAfter(t: Track, code: seq<u8>, c: Call): Track
    requires c.Hook? && c.window.Some? ==> c.addr + c.window.value <= |code|
  {
    match c
    case Hook(addr, permitted, _, _, _) =>
      if addr != 0 && permitted && addr !in t.live then t.(live := t.live[addr := NewLive(code, c)]) else t
    case Destroy(addr) =>
      if addr in t.live && addr + t.live[addr].Foot() <= |t.base| then
        var l := t.live[addr];
        Track(t.live - {addr}, Uncovered(t.base, addr, l), if l.Covers() then t.scars else t.scars + {(addr, l.Foot())})
      else t
  }

  lemma FindLive(entries: seq<Entry>, live: map<nat, Live>, addr: nat)
    requires Registered(entries, live)
    ensures Find(entries, addr).Some? <==> addr in live
  {
    if Find(entries, addr).Some? {
      assert entries[Find(entries, addr).value] in entries;
    }
  }

  /** No live trampoline reaches into bytes apart from all live hooks. */
  lemma BaseShows(code: seq<u8>, base: seq<u8>, live: map<nat, Live>, addr: nat, n: nat)
    requires Overlaid(code, base, live) && addr + n <= |base|
    requires forall a <- live :: Disjoint(a, live[a].Foot(), addr, n)
    ensures code[addr..addr + n] == base[addr..addr + n]
  {
    forall k | addr <= k < addr + n
      ensures code[k] == base[k]
    {
      forall a
        ensures !Under(live, a, k)
      {
        if a in live {
          assert Disjoint(a, live[a].Foot(), addr, n);
        }
      }
    }
  }

  lemma HookOverlays(code: seq<u8>, base: seq<u8>, live: map<nat, Live>, addr: nat, l: Live)
    requires Overlaid(code, base, live) && Footprints(live, |base|) && addr !in live && addr + l.Foot() <= |base|
    requires forall a <- live :: Disjoint(a, live[a].Foot(), addr, l.Foot())
    ensures Overlaid(Patch(code, addr, l.tramp), base, live[addr := l])
    ensures Footprints(live[addr := l], |base|)
  {
    var live' := live[addr := l];
    var code' := Patch(code, addr, l.tramp);
    forall a, k | 0 <= k < |code'| && Under(live', a, k)
      ensures code'[k] == live'[a].tramp[k - a]
    {
      if a != addr {
        assert Disjoint(a, live[a].Foot(), addr, l.Foot()) && Under(live, a, k);
      }
    }
    forall k | 0 <= k < |code'| && (forall a :: !Under(live', a, k))
      ensures code'[k] == base[k]
    {
      assert !Under(live', addr, k);
      forall a
        ensures !Under(live, a, k)
      {
        assert !Under(live', a, k);
      }
    }
  }

  lemma UncoveredAt(base: seq<u8>, a: nat, l: Live)
    requires a + l.Foot() <= |base|
    ensures forall k :: 0 <= k < |base| && !(a <= k < a + l.Foot()) ==> Uncovered(base, a, l)[k] == base[k]
    ensures forall k :: a <= k < a + |l.saved| ==> Uncovered(base, a, l)[k] == l.saved[k - a]
    ensures forall k :: a + |l.saved| <= k < a + |l.tramp| ==> Uncovered(base, a, l)[k] == l.tramp[k - a]
  {
  }

  lemma DestroyUncovers(code: seq<u8>, base: seq<u8>, live: map<nat, Live>, addr: nat)
    requires Overlaid(code, base, live) && Footprints(live, |base|) && addr in live
    ensures addr + live[addr].Foot() <= |base|
    ensures Overlaid(Patch(code, addr, live[addr].saved), Uncovered(base, addr, live[addr]), live - {addr})
    ensures Footprints(live - {addr}, |base|)
  {
    OthersStay(code, base, live, addr);
    forall k | 0 <= k < |code| && (forall a :: !Under(live - {addr}, a, k))
      ensures Patch(code, addr, live[addr].saved)[k] == Uncovered(base, addr, live[addr])[k]
    {
      Uncovers(code, base, live, addr, k);
    }
  }

  lemma OthersStay(code: seq<u8>, base: seq<u8>, live: map<nat, Live>, addr: nat)
    requires Overlaid(code, base, live) && Footprints(live, |base|) && addr in live
    ensures var code' := Patch(code, addr, live[addr].saved);
            forall a, k :: 0 <= k < |code'| && Under(live - {addr}, a, k) ==> code'[k] == live[a].tramp[k - a]
  {
    var code' := Patch(code, addr, live[addr].saved);
    forall a, k | 0 <= k < |code'| && Under(live - {addr}, a, k)
      ensures code'[k] == live[a].tramp[k - a]
    {
      assert Under(live, a, k) && Disjoint(a, live[a].Foot(), addr, live[addr].Foot());
    }
  }

  /** A byte that no other trampoline is over. */
  lemma Uncovers(code: seq<u8>, base: seq<u8>, live: map<nat, Live>, addr: nat, k: nat)
    requires Overlaid(code, base, live) && addr in live && addr + live[addr].Foot() <= |base| && k < |code|
    requires forall a :: !Under(live - {addr}, a, k)
    ensures Patch(code, addr, live[addr].saved)[k] == Uncovered(base, addr, live[addr])[k]
  {
    var l := live[addr];
    UncoveredAt(base, addr, l);
    hide Uncovered;
    if addr <= k < addr + |l.tramp| {
      assert Under(live, addr, k);
    } else {
      forall a
        ensures !Under(live, a, k)
      {
        assert !Under(live - {addr}, a, k);
      }
    }
  }

  lemma HookRegisters(entries: seq<Entry>, live: map<nat, Live>, addr: nat, l: Live)
    requires Registered(entries, live) && addr !in live
    ensures Registered(entries + [Entry(addr, l.saved)], live[addr := l])
  {
    var e := Entry(addr, l.saved);
    var entries', live' := entries + [e], live[addr := l];
    assert Saved(e, live');
    RegisteredAddresses(entries, live);
    hide Saved, Find;
    forall f | f in entries'
      ensures Saved(f, live')
    {
      if f in entries {
        SavedStill(f, live, live');
      }
    }
    forall a | a in live'
      ensures Find(entries', a).Some?
    {
      var f := if a == addr then e else entries[Find(entries, a).value];
      assert f in entries' && f.addr == a;
    }
  }

  lemma RegisteredAddresses(entries: seq<Entry>, live: map<nat, Live>)
    requires Registered(entries, live)
    ensures forall k :: 0 <= k < |entries| ==> Saved(entries[k], live) && entries[k].addr in live
  {
    forall k | 0 <= k < |entries|
      ensures Saved(entries[k], live)
    {
      assert entries[k] in entries;
    }
  }

  lemma SavedIs(e: Entry, live: map<nat, Live>)
    requires Saved(e, live)
    ensures e.addr in live && e.saved == live[e.addr].saved
  {
  }

  lemma DestroyUnregisters(entries: seq<Entry>, live: map<nat, Live>, addr: nat)
    requires Registered(entries, live) && addr in live
    ensures var i := Find(entries, addr).value;
            entries[i].saved == live[addr].saved && Registered(Without(entries, i), live - {addr})
  {
    hide Without, Find, Saved;
    var i := Find(entries, addr).value;
    RegisteredAddresses(entries, live);
    SavedIs(entries[i], live);
    var entries', live' := Without(entries, i), live - {addr};
    forall k | 0 <= k < |entries'|
      ensures Saved(entries'[k], live')
    {
      var j := if k < i then k else k + 1;
      SavedStill(entries[j], live, live');
    }
    forall a | a in live'
      ensures Find(entries', a).Some?
    {
      FoundWithout(entries, i, a);
    }
  }

  lemma FoundWithout(entries: seq<Entry>, i: nat, a: nat)
    requires i < |entries| && Find(entries, a).Some? && entries[i].addr != a
    ensures Find(Without(entries, i), a).Some?
  {
    hide Without, Find;
    var k := Find(entries, a).value;
    var e := Without(entries, i)[if k < i then k else k - 1];
    assert e in Without(entries, i) && e.addr == a;
  }

  /** A hook that covers its trampoline gives back all it took. */
  lemma CoveredRestores(base: seq<u8>, a: nat, l: Live)
    requires a + l.Foot() <= |base| && SavedRight(l, base, a) && l.Covers()
    ensures Uncovered(base, a, l) == base
  {
    PatchedBackExactly(base, a, l.tramp, l.saved);
    assert forall k :: 0 <= k < |l.saved| ==> l.saved[k] == base[a..a + |l.saved|][k] == base[a + k];
  }

  /** Whatever is destroyed, the other hooks' saved bytes stay right. */
  lemma OthersSavedRight(live: map<nat, Live>, base: seq<u8>, addr: nat)
    requires Footprints(live, |base|) && AllSavedRight(live, base) && addr in live
    ensures addr + live[addr].Foot() <= |base|
    ensures AllSavedRight(live - {addr}, Uncovered(base, addr, live[addr]))
  {
    var base' := Uncovered(base, addr, live[addr]);
    UncoveredAt(base, addr, live[addr]);
    hide Uncovered;
    forall a | a in live - {addr}
      ensures SavedRight(live[a], base', a)
    {
      assert SavedRight(live[a], base, a) && Disjoint(a, live[a].Foot(), addr, live[addr].Foot());
      if live[a].relocated {
        assert base'[a..a + |live[a].saved|] == base[a..a + |live[a].saved|];
      }
    }
  }

  lemma ScarredMore(scars: set<(nat, nat)>, s: (nat, nat), k: nat)
    ensures Scarred(scars + {s}, k) <==> Scarred(scars, k) || s.0 <= k < s.0 + s.1
  {
    assert s in scars + {s};
    if Scarred(scars, k) {
      var r :| r in scars && r.0 <= k < r.0 + r.1;
      assert r in scars + {s};
    }
  }

  lemma ScarsKeep(base: seq<u8>, original: seq<u8>, scars: set<(nat, nat)>, a: nat, l: Live)
    requires OriginalElsewhere(base, original, scars) && a + l.Foot() <= |base| && SavedRight(l, base, a)
    ensures OriginalElsewhere(Uncovered(base, a, l), original, if l.Covers() then scars else scars + {(a, l.Foot())})
  {
    if l.Covers() {
      CoveredRestores(base, a, l);
    } else {
      UncoveredAt(base, a, l);
      hide Uncovered;
      var scars' := scars + {(a, l.Foot())};
      forall k | 0 <= k < |base| && !Scarred(scars', k)
        ensures Uncovered(base, a, l)[k] == original[k]
      {
        ScarredMore(scars, (a, l.Foot()), k);
      }
    }
  }

  /** One call, successful or not. */
  lemma StepKeeps(st: State, original: seq<u8>, t: Track, c: Call)
    requires Inv(st, original, t) && Proper(c, st.code, t.live)
    requires c.Hook? && c.addr in t.live ==> InMemory(st, c)
    ensures Succeeds(st, c) <==> match c
                                 case Hook(addr, permitted, _, _, _) => addr != 0 && permitted && addr !in t.live
                                 case Destroy(addr) => addr in t.live
    ensures InMemory(st, c) && Inv(Step(st, c), original, TrackAfter(t, st.code, c))
  {
    hide Overlaid, Footprints, Registered, Find, Patch, Without, OriginalElsewhere, AllSavedRight, Uncovered, Scarred,
         SavedRight;
    FindLive(st.entries, t.live, c.addr);
    SameSize(st.code, original, t);
    match c
    case Hook(addr, permitted, tramp, window, junk) =>
      if addr !in t.live && addr != 0 && permitted {
        var l := NewLive(st.code, c);
        HookOverlays(st.code, t.base, t.live, addr, l);
        HookRegisters(st.entries, t.live, addr, l);
        NewSavedRight(st.code, t.base, t.live, c);
      }
    case Destroy(addr) =>
      if addr in t.live {
        InBounds(t.live, |original|, addr);
        DestroyUnregisters(st.entries, t.live, addr);
        DestroyUncovers(st.code, t.base, t.live, addr);
        OthersSavedRight(t.live, t.base, addr);
        OneSavedRight(t.live, t.base, addr);
        ScarsKeep(t.base, original, t.scars, addr, t.live[addr]);
      }
  }

  lemma OneSavedRight(live: map<nat, Live>, base: seq<u8>, addr: nat)
    requires AllSavedRight(live, base) && addr in live
    ensures SavedRight(live[addr], base, addr)
  {
  }

  lemma NewSavedRight(code: seq<u8>, base: seq<u8>, live: map<nat, Live>, c: Call)
    requires Overlaid(code, base, live) && AllSavedRight(live, base)
    requires c.Hook? && c.addr !in live && Proper(c, code, live)
    ensures AllSavedRight(live[c.addr := NewLive(code, c)], base)
  {
    if c.window.Some? {
      forall a | a in live
        ensures Disjoint(a, live[a].Foot(), c.addr, c.window.value)
      {
        assert Disjoint(a, live[a].Foot(), c.addr, NewLive(code, c).Foot());
      }
      BaseShows(code, base, live, c.addr, c.window.value);
    }
  }

  lemma SameSize(code: seq<u8>, original: seq<u8>, t: Track)
    requires Overlaid(code, t.base, t.live) && OriginalElsewhere(t.base, original, t.scars)
    ensures |code| == |original| == |t.base|
  {
  }

  lemma InBounds(live: map<nat, Live>, size: nat, addr: nat)
    requires Footprints(live, size) && addr in live
    ensures addr + live[addr].Foot() <= size
  {
  }

  /**
    Destroying a hook leaves the base as it was exactly if it holds, as far as it goes, what is there, and
    the trampoline beyond it does.
   */
  lemma BaseKeptExactly(base: seq<u8>, a: nat, l: Live)
    requires a + l.Foot() <= |base|
    ensures Uncovered(base, a, l) == base <==>
            && (forall k :: 0 <= k < |l.saved| ==> l.saved[k] == base[a + k])
            && (forall k :: |l.saved| <= k < |l.tramp| ==> l.tramp[k] == base[a + k])
  {
    PatchedBackExactly(base, a, l.tramp, l.saved);
  }

  /** The calls of a run, each proper where it is made, lead from st to end and from t to tEnd. */
  ghost predicate Run(st: State, t: Track, calls: seq<Call>, end: State, tEnd: Track)
    decreases |calls|
  {
    if calls == [] then st == end && t == tEnd
    else
      && InMemory(st, calls[0]) && Proper(calls[0], st.code, t.live)
      && Run(Step(st, calls[0]), TrackAfter(t, st.code, calls[0]), calls[1..], end, tEnd)
  }

  /** Every interleaving of hooks apart from each other and of destroys, in any order, keeps the invariant. */
  lemma {:induction false} RunKeeps(st: State, original: seq<u8>, t: Track, calls: seq<Call>, end: State, tEnd: Track)
    requires Inv(st, original, t) && Run(st, t, calls, end, tEnd)
    ensures Inv(end, original, tEnd)
    decreases |calls|
  {
    hide Inv, Step, TrackAfter, NewLive, Find;
    if calls != [] {
      StepKeeps(st, original, t, calls[0]);
      RunKeeps(Step(st, calls[0]), original, TrackAfter(t, st.code, calls[0]), calls[1..], end, tEnd);
    }
  }

  function Fresh(original: seq<u8>): Track { Track(map[], original, {}) }

  lemma FreshInv(original: seq<u8>)
    ensures Inv(State(original, []), original, Fresh(original))
  {
  }

  /** Without scars the base is the original code. */
  lemma Unscarred(base: seq<u8>, original: seq<u8>)
    requires OriginalElsewhere(base, original, {})
    ensures base == original
  {
    assert forall k :: 0 <= k < |base| ==> !Scarred({}, k);
  }

  lemma FirstIsLive(entries: seq<Entry>, live: map<nat, Live>)
    requires Registered(entries, live) && entries != []
    ensures entries[0].addr in live
  {
    assert entries[0] in entries;
  }

  /** With no hook live the code is the base, and nothing is registered. */
  lemma NothingLive(st: State, original: seq<u8>, t: Track)
    requires Inv(st, original, t) && t.live == map[]
    ensures st.code == t.base && st.entries == []
  {
    hide Registered, Footprints, Find, OriginalElsewhere;
    forall k | 0 <= k < |t.base|
      ensures st.code[k] == t.base[k]
    {
      assert forall addr :: !Under(map[], addr, k);
    }
    if st.entries != [] {
      FirstIsLive(st.entries, map[]);
    }
  }

  /**
    From fresh code, relocations failing or not: afterwards the code is the base but for the live
    trampolines, and the base is the original code but for the scars, of which only hooks that did not
    cover their trampolines leave any.
   */
  lemma HooksFromFresh(original: seq<u8>, calls: seq<Call>, end: State, t: Track)
    requires Run(State(original, []), Fresh(original), calls, end, t)
    ensures Overlaid(end.code, t.base, t.live) && OriginalElsewhere(t.base, original, t.scars)
    ensures t.live == map[] ==> end.code == t.base && end.entries == []
    ensures t.scars == {} ==> t.base == original
  {
    hide Registered, Footprints, Find, Overlaid, OriginalElsewhere, Run;
    FreshInv(original);
    RunKeeps(State(original, []), original, Fresh(original), calls, end, t);
    if t.live == map[] {
      NothingLive(end, original, t);
    }
    if t.scars == {} {
      Unscarred(t.base, original);
    }
  }

  /**
    A hook and its destruction, whether the relocation succeeds or not. DobbyHook does not look at
    that: it patches and reports success all the same, and DobbyDestroy patches back what the entry
    happens to hold. The code is as before exactly if that is the code there, as far as it goes, and
    what the trampoline wrote beyond it is the code there too.
   */
  lemma HookThenDestroyExactly(st: State, addr: nat, tramp: seq<u8>, window: Option<nat>, junk: seq<u8>)
    requires addr != 0 && Find(st.entries, addr).None? && addr + |tramp| <= |st.code|
    requires window.Some? ==> addr + window.value <= |st.code|
    requires addr + |SavedBytes(st.code, addr, window, junk)| <= |st.code|
    ensures var hooked := Step(st, Hook(addr, true, tramp, window, junk));
            && Succeeds(st, Hook(addr, true, tramp, window, junk))
            && InMemory(hooked, Destroy(addr)) && Succeeds(hooked, Destroy(addr))
            && Step(hooked, Destroy(addr)).entries == st.entries
            && (Step(hooked, Destroy(addr)).code == st.code <==>
                var saved := SavedBytes(st.code, addr, window, junk);
                && (forall k :: 0 <= k < |saved| ==> saved[k] == st.code[addr + k])
                && (forall k :: |saved| <= k < |tramp| ==> tramp[k] == st.code[addr + k]))
  {
    hide Patch, Without, Find;
    var saved := SavedBytes(st.code, addr, window, junk);
    FoundLast(st.entries, Entry(addr, saved));
    PatchedBackExactly(st.code, addr, tramp, saved);
  }

  /** With a window relocated: exactly if the window covers all that the trampoline changed. */
  lemma WindowRestoresExactly(st: State, addr: nat, tramp: seq<u8>, window: nat)
    requires addr != 0 && Find(st.entries, addr).None? && addr + |tramp| <= |st.code| && addr + window <= |st.code|
    ensures var hooked := Step(st, Hook(addr, true, tramp, Some(window), []));
            && InMemory(hooked, Destroy(addr))
            && (Step(hooked, Destroy(addr)).code == st.code <==>
                forall k :: window <= k < |tramp| ==> tramp[k] == st.code[addr + k])
  {
    hide Patch, Without, Find, Step;
    HookThenDestroyExactly(st, addr, tramp, Some(window), []);
    var saved := st.code[addr..addr + window];
    assert forall k :: 0 <= k < window ==> saved[k] == st.code[addr + k];
  }

  /** After a failed relocation that saved nothing: only if the trampoline changed nothing. */
  lemma FailedRelocation(st: State, addr: nat, tramp: seq<u8>)
    requires addr != 0 && Find(st.entries, addr).None? && addr + |tramp| <= |st.code|
    ensures var hooked := Step(st, Hook(addr, true, tramp, None, []));
            && Succeeds(st, Hook(addr, true, tramp, None, [])) && hooked.code == Patch(st.code, addr, tramp)
            && InMemory(hooked, Destroy(addr)) && Step(hooked, Destroy(addr)).code == hooked.code
            && (Step(hooked, Destroy(addr)).code == st.code <==> tramp == st.code[addr..addr + |tramp|])
  {
    hide Patch, Without, Find;
    HookThenDestroyExactly(st, addr, tramp, None, []);
    FoundLast(st.entries, Entry(addr, []));
    PatchNothing(Patch(st.code, addr, tramp), addr);
    if tramp == st.code[addr..addr + |tramp|] {
      assert forall k :: 0 <= k < |tramp| ==> tramp[k] == st.code[addr..addr + |tramp|][k];
    }
  }

  lemma PatchNothing(code: seq<u8>, addr: nat)
    requires addr <= |code|
    ensures Patch(code, addr, []) == code
  {
  }

  lemma FoundLast(entries: seq<Entry>, e: Entry)
    requires Find(entries, e.addr).None?
    ensures Find(entries + [e], e.addr) == Some(|entries|) && Without(entries + [e], |entries|) == entries
  {
    hide Without;
    assert (entries + [e])[|entries|] in entries + [e];
    forall k | 0 <= k < |entries|
      ensures (entries + [e])[k].addr != e.addr
    {
      assert entries[k] in entries;
    }
    assert Without(entries + [e], |entries|) == entries;
  }

  lemma PatchedBackExactly(code: seq<u8>, addr: nat, tramp: seq<u8>, saved: seq<u8>)
    requires addr + |tramp| <= |code| && addr + |saved| <= |code|
    ensures Patch(Patch(code, addr, tramp), addr, saved) == code <==>
            && (forall k :: 0 <= k < |saved| ==> saved[k] == code[addr + k])
            && (forall k :: |saved| <= k < |tramp| ==> tramp[k] == code[addr + k])
  {
    PatchAt(Patch(code, addr, tramp), addr, saved);
    PatchAt(code, addr, tramp);
    hide Patch;
    var end := Patch(Patch(code, addr, tramp), addr, saved);
    if end == code {
      forall k | 0 <= k < |saved|
        ensures saved[k] == code[addr + k]
      {
        assert end[addr + k] == saved[k];
      }
      forall k | |saved| <= k < |tramp|
        ensures tramp[k] == code[addr + k]
      {
        assert end[addr + k] == Patch(code, addr, tramp)[addr + k] == tramp[k];
      }
    }
    if (forall k :: 0 <= k < |saved| ==> saved[k] == code[addr + k])
       && (forall k :: |saved| <= k < |tramp| ==> tramp[k] == code[addr + k]) {
      forall j | 0 <= j < |code|
        ensures end[j] == code[j]
      {
        var k := j - addr;
        assert k < 0 || k >= |saved| || saved[k] == code[addr + k];
        assert k < |saved| || k >= |tramp| || tramp[k] == code[addr + k];
      }
    }
  }

  lemma PatchAt(code: seq<u8>, addr: nat, bytes: seq<u8>)
    requires addr + |bytes| <= |code|
    ensures forall j :: addr <= j < addr + |bytes| ==> Patch(code, addr, bytes)[j] == bytes[j - addr]
    ensures forall j :: 0 <= j < |code| && !(addr <= j < addr + |bytes|) ==> Patch(code, addr, bytes)[j] == code[j]
  {
  }
}
