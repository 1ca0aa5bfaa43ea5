/**
  The hooking interface as the objects it works on: intercept entries, the interceptor's registry, and
  code memory that is patched in place. Every method is proved to follow the steps of Hooks.dfy.
 */
module HookObjects {
  import opened Words
  import opened Hooks
  import HookSites
  import Arm64Relocation
  import Arm64Relocator
  import X64Isa
  import X64Relocation
  import X64Relocator

  /** What becomes of a call to DobbyHook: the relocator can end the process. */
  datatype Outcome = Done(ok: bool) | Aborted

  class InterceptEntry {
    const patchedAddr: nat
    var originInsns: seq<u8>

    constructor (address: nat)
      ensures patchedAddr == address
    {
      patchedAddr := address;
    }

    ghost function Value(): Entry
      reads this
    {
      Entry(patchedAddr, originInsns)
    }
  }

  class Interceptor {
    var entries: seq<InterceptEntry>

    constructor ()
      ensures entries == []
    {
      entries := [];
    }

    ghost function Values(): (r: seq<Entry>)
      reads this, entries
      ensures |r| == |entries|
    {
      seq(|entries|, i requires 0 <= i < |entries| reads this, entries => entries[i].Value())
    }

    method Find(addr: nat) returns (entry: InterceptEntry?)
      ensures match Hooks.Find(Values(), addr)
              case None => entry == null
              case Some(i) => entry == entries[i]
    {
      for i := 0 to |entries|
        invariant forall k :: 0 <= k < i ==> Values()[k].addr != addr
      {
        if entries[i].patchedAddr == addr {
          assert Values()[i] in Values();
          return entries[i];
        }
      }
      return null;
    }

    method Add(entry: InterceptEntry)
      modifies this
      ensures entries == old(entries) + [entry]
      ensures Values() == old(Values()) + [entry.Value()]
    {
      entries := entries + [entry];
    }

    method Remove(addr: nat)
      modifies this
      ensures match Hooks.Find(old(Values()), addr)
              case None => entries == old(entries)
              case Some(i) => entries == old(entries[..i] + entries[i + 1..])
                              && Values() == old(Values()[..i] + Values()[i + 1..])
    {
      for i := 0 to |entries|
        invariant entries == old(entries)
        invariant forall k :: 0 <= k < i ==> Values()[k].addr != addr
      {
        if entries[i].patchedAddr == addr {
          assert Values()[i] in Values();
          entries := entries[..i] + entries[i + 1..];
          break;
        }
      }
    }
  }

  /** The process: its registry and its code. */
  class Dobby {
    const interceptor: Interceptor
    const code: array<u8>

    constructor (code: array<u8>)
      ensures this.code == code && fresh(interceptor) && Value() == State(code[..], [])
    {
      this.code := code;
      interceptor := new Interceptor();
    }

    ghost function Value(): State
      reads code, interceptor, interceptor.entries
    {
      State(code[..], interceptor.Values())
    }

    method CodePatch(addr: nat, buffer: seq<u8>)
      requires addr + |buffer| <= code.Length
      modifies code
      ensures code[..] == Patch(old(code[..]), addr, buffer)
    {
      for i := 0 to |buffer|
        invariant forall k :: 0 <= k < code.Length ==>
                    code[k] == if addr <= k < addr + i then buffer[k - addr] else old(code[k])
      {
        code[addr + i] := buffer[i];
      }
    }

    /** DobbyHook */
    method Hook(address: nat, permitted: bool, tramp: seq<u8>, window: Option<nat>)
      returns (ok: bool, ghost junk: seq<u8>)
      requires InMemory(Value(), Call.Hook(address, permitted, tramp, window, []))
      modifies code, interceptor
      ensures var c := Call.Hook(address, permitted, tramp, window, junk);
              ok == old(Succeeds(Value(), c)) && Value() == Step(old(Value()), c)
    {
      hide Patch, Find, Interceptor.Values;
      junk := [];
      if address == 0 {
        return false, junk;
      }
      if !permitted {
        return false, junk;
      }
      var registered := interceptor.Find(address);
      if registered != null {
        return false, junk;
      }
      var entry := new InterceptEntry(address);
      junk := entry.originInsns;
      GenerateRelocatedCode(entry, window);
      CodePatch(address, tramp);
      interceptor.Add(entry);
      return true, junk;
    }

    /** GenerateRelocatedCode on A64, for a trampoline of size bytes. False is the abort of the relocator. */
    method GenerateRelocatedCodeArm64(entry: InterceptEntry, size: nat) returns (ok: bool)
      requires entry.patchedAddr < TWO64 && entry.patchedAddr + 4 * HookSites.WordsFor(size) <= code.Length
      modifies entry
      ensures var n := HookSites.WordsFor(size);
              ok == Arm64Relocation.RelocatedCode(HookSites.WordsAt(code[..], entry.patchedAddr, n),
                  entry.patchedAddr, true).Some?
      ensures ok ==> entry.originInsns == code[entry.patchedAddr..entry.patchedAddr + 4 * HookSites.WordsFor(size)]
    {
      hide Arm64Relocation.RelocatedCode, HookSites.WordsAt, Arm64Relocator.OffsetMap;
      var words := HookSites.WordsAt(code[..], entry.patchedAddr, HookSites.WordsFor(size));
      var ctx := new Arm64Relocator.RelocationContext(words, entry.patchedAddr);
      ok := ctx.Relocate(true);
      if ok {
        entry.originInsns := code[entry.patchedAddr..entry.patchedAddr + ctx.originSize];
      }
    }

    /**
      DobbyHook on A64, with its trampoline and its relocator: the window saved is the one the relocator
      takes, and a word the relocator has no form for ends the process.
     */
    method HookArm64(address: u64, permitted: bool, replacement: u64) returns (outcome: Outcome, ghost junk: seq<u8>)
      requires var size := |HookSites.TrampolineFor(HookSites.Arm64(replacement), address)|;
               address + 4 * HookSites.WordsFor(size) <= code.Length
      modifies code, interceptor
      ensures var site := HookSites.Arm64(replacement);
              var c := HookSites.CallOf(old(code[..]), HookSites.HookAt(address, permitted, site, true, junk));
              && old(InMemory(Value(), c))
              && (outcome.Aborted? <==> old(Succeeds(Value(), c)) && c.window.None?)
              && (outcome.Done? ==> outcome.ok == old(Succeeds(Value(), c)) && Value() == Step(old(Value()), c))
    {
      hide Patch, Find, Arm64Relocation.RelocatedCode, HookSites.TrampolineFor, HookSites.WordsAt, Interceptor.Values;
      junk := [];
      if address == 0 || !permitted {
        return Done(false), junk;
      }
      var registered := interceptor.Find(address);
      if registered != null {
        return Done(false), junk;
      }
      var entry := new InterceptEntry(address);
      junk := entry.originInsns;
      var tramp := HookSites.TrampolineFor(HookSites.Arm64(replacement), address);
      var relocated := GenerateRelocatedCodeArm64(entry, |tramp|);
      if !relocated {
        return Aborted, junk;
      }
      CodePatch(address, tramp);
      interceptor.Add(entry);
      return Done(true), junk;
    }

    /** InterceptRouting::GenerateRelocatedCode: the window the relocation took is saved before it is patched. */
    method GenerateRelocatedCode(entry: InterceptEntry, window: Option<nat>)
      requires window.Some? ==> entry.patchedAddr + window.value <= code.Length
      modifies entry
      ensures entry.originInsns == if window.Some? then code[entry.patchedAddr..entry.patchedAddr + window.value]
                                   else old(entry.originInsns)
    {
      if window.None? {
        return;
      }
      entry.originInsns := code[entry.patchedAddr..entry.patchedAddr + window.value];
    }

    /**
      GenerateRelocatedCode on x86-64, for a trampoline of size bytes over the decoded stream; exec and
      detours are what the allocators return. Unless the relocation succeeds the entry is left as it is.
     */
    method GenerateRelocatedCodeX64(entry: InterceptEntry, size: nat, stream: seq<X64Isa.Insn>, exec: nat -> u64,
                                    detours: nat -> seq<u64>) returns (status: X64Relocator.Status)
      requires entry.patchedAddr < TWO64 && X64Relocation.AllReadable(stream)
      requires X64Relocation.OrigOffset(stream, |stream|) >= size && forall k :: |detours(k)| == |stream|
      requires var ds := HookSites.InsnsFor(stream, size);
               entry.patchedAddr + X64Relocation.OrigOffset(ds, |ds|) <= code.Length
      modifies entry
      ensures var ds := HookSites.InsnsFor(stream, size);
              var all := forall d <- ds :: X64Relocation.Relocatable(d);
              && (status == X64Relocator.Success <==> all && Granted(ds, exec))
              && (status == X64Relocator.Aborted <==> !all && exec(0) != 0)
              && entry.originInsns == if status == X64Relocator.Success
                                      then code[entry.patchedAddr..entry.patchedAddr
                                          + X64Relocation.OrigOffset(ds, |ds|)]
                                      else old(entry.originInsns)
    {
      hide X64Relocation.Relocate, X64Relocation.TotalLength, X64Relocation.Relocatable, X64Relocation.AllReadable,
           X64Relocation.OrigOffset;
      var origin := new X64Relocator.CodeMemBlock(entry.patchedAddr, size);
      var relocated := new X64Relocator.CodeMemBlock(0, 0);
      var relocation, patches;
      status, relocation, patches :=
          X64Relocator.GenRelocateCodeX86Shared(stream, origin, relocated, true, exec, detours);
      ghost var c := X64Relocator.Covering(stream, size, 0);
      ghost var k := X64Relocator.SuccessfulAttempt(X64Relocation.TotalLength(stream[..c], true));
      HookSites.RelocatesExactly(stream[..c], entry.patchedAddr, exec(k), detours(k)[..c]);
      HookSites.OffsetOfPrefix(stream, c, c);
      if status == X64Relocator.Success {
        entry.originInsns := code[entry.patchedAddr..entry.patchedAddr + origin.size];
      }
    }

    /** Every block up to the one that suffices is granted. */
    ghost static predicate Granted(ds: seq<X64Isa.Insn>, exec: nat -> u64)
    {
      X64Relocator.AllGranted(exec, X64Relocator.SuccessfulAttempt(X64Relocation.TotalLength(ds, true)))
    }

    /**
      DobbyHook on x86-64, with its trampoline through the forward stub and its relocator. An instruction
      the relocator has no form for ends the process; a block it is not given does not even fail the hook.
     */
    method HookX64(address: u64, permitted: bool, stub: u64, stream: seq<X64Isa.Insn>, exec: nat -> u64,
                   detours: nat -> seq<u64>) returns (outcome: Outcome, ghost junk: seq<u8>)
      requires X64Relocation.AllReadable(stream) && forall k :: |detours(k)| == |stream|
      requires var size := |HookSites.TrampolineFor(HookSites.X64(stub, stream), address)|;
               var ds := HookSites.InsnsFor(stream, size);
               && X64Relocation.OrigOffset(stream, |stream|) >= size && address + size <= code.Length
               && address + X64Relocation.OrigOffset(ds, |ds|) <= code.Length
      modifies code, interceptor
      ensures var site := HookSites.X64(stub, stream);
              var ds := HookSites.InsnsFor(stream, |HookSites.TrampolineFor(site, address)|);
              var c := HookSites.CallOf(old(code[..]),
                  HookSites.HookAt(address, permitted, site, Granted(ds, exec), junk));
              && old(InMemory(Value(), c))
              && (outcome.Aborted? <==>
                    old(Succeeds(Value(), c)) && exec(0) != 0 && exists d <- ds :: !X64Relocation.Relocatable(d))
              && (outcome.Done? ==> outcome.ok == old(Succeeds(Value(), c)) && Value() == Step(old(Value()), c))
    {
      hide Patch, Find, HookSites.TrampolineFor, Interceptor.Values, HookSites.InsnsFor, X64Relocation.OrigOffset,
           X64Relocation.Relocatable, X64Relocation.AllReadable, Granted;
      junk := [];
      if address == 0 || !permitted {
        return Done(false), junk;
      }
      var registered := interceptor.Find(address);
      if registered != null {
        return Done(false), junk;
      }
      var entry := new InterceptEntry(address);
      junk := entry.originInsns;
      var tramp := HookSites.TrampolineFor(HookSites.X64(stub, stream), address);
      var status := GenerateRelocatedCodeX64(entry, |tramp|, stream, exec, detours);
      if status == X64Relocator.Aborted {
        return Aborted, junk;
      }
      CodePatch(address, tramp);
      interceptor.Add(entry);
      return Done(true), junk;
    }

    /** DobbyDestroy */
    method Destroy(address: nat) returns (ok: bool)
      requires InMemory(Value(), Call.Destroy(address))
      modifies code, interceptor
      ensures ok == old(Succeeds(Value(), Call.Destroy(address)))
      ensures Value() == Step(old(Value()), Call.Destroy(address))
    {
      hide Patch, Find;
      var entry := interceptor.Find(address);
      if entry != null {
        CodePatch(address, entry.originInsns);
        interceptor.Remove(address);
        return true;
      }
      return false;
    }
  }
}
