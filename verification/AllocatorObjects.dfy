/**
  The allocators as the objects they are: arenas whose cursor moves, an allocator that owns a growing
  list of arenas, and the near allocator that carves from the same list. Every method is proved to
  follow the value functions of Allocator.dfy.

  Addresses come from the operating system: where a method maps memory, the address or the outcome
  of the mapping is a parameter.
 */
module AllocatorObjects {
  import opened Words
  import opened Allocator

  class MemoryArena {
    var addr: nat
    var end: nat
    var size: nat
    var cursorAddr: nat
    ghost var carved: seq<nat>

    constructor (addr: nat, size: nat)
      ensures Valid() && Value() == Arena(addr, size, addr, [])
    {
      this.addr, this.end, this.size, this.cursorAddr, this.carved := addr, addr + size, size, addr, [];
    }

    predicate Valid()
      reads this
    {
      end == addr + size && cursorAddr <= end
    }

    ghost function Value(): Arena
      reads this
    {
      Arena(addr, size, cursorAddr, carved)
    }

    method AllocMemBlock(size: nat) returns (block: Option<Range>)
      requires Valid()
      modifies this
      ensures Valid()
      ensures (Value(), block) == Allocator.AllocMemBlock(old(Value()), size)
    {
      if end - cursorAddr < size {
        return None;
      }
      block := Some(Range(cursorAddr, size));
      cursorAddr := cursorAddr + size;
      carved := carved + [size];
    }
  }

  class MemoryAllocator {
    var codeArenas: seq<MemoryArena>
    ghost var handed: seq<Range>

    constructor ()
      ensures Valid() && Value() == State([], []) && fresh(codeArenas)
    {
      codeArenas, handed := [], [];
    }

    ghost predicate Valid()
      reads this, codeArenas
    {
      && (forall i :: 0 <= i < |codeArenas| ==> codeArenas[i].Valid())
      && (forall i, j :: 0 <= i < j < |codeArenas| ==> codeArenas[i] != codeArenas[j])
    }

    ghost function Arenas(): (r: seq<Arena>)
      reads this, codeArenas
      ensures |r| == |codeArenas|
    {
      seq(|codeArenas|, i requires 0 <= i < |codeArenas| reads this, codeArenas => codeArenas[i].Value())
    }

    ghost function Value(): State
      reads this, codeArenas
    {
      State(Arenas(), handed)
    }

    method AllocateCodeMemoryArena(size: nat, page: nat, os: nat) returns (arena: MemoryArena)
      requires Valid() && page > 0 && size % page == 0
      modifies this
      ensures Valid() && fresh(arena) && codeArenas == old(codeArenas) + [arena]
      ensures Value() == AddArena(old(Value()), os, size)
    {
      arena := new MemoryArena(os, size);
      codeArenas := codeArenas + [arena];
      assert Arenas() == old(Arenas()) + [Arena(os, size, os, [])];
    }

    /** Carve from the arena at an index, and note what that does to the allocator. */
    method CarveFrom(ghost i: nat, arena: MemoryArena, size: nat, ghost hand: bool) returns (block: Option<Range>)
      requires Valid() && i < |codeArenas| && codeArenas[i] == arena
      modifies arena, this`handed
      ensures Valid()
      ensures Value() == Carve(old(Value()), i, size, hand)
      ensures block == Allocator.AllocMemBlock(old(Value()).arenas[i], size).1
    {
      block := arena.AllocMemBlock(size);
      if hand && block.Some? {
        handed := handed + [block.value];
      }
      assert Arenas() == old(Arenas())[i := arena.Value()];
    }

    /** The end of both near searches: a placeholder up to the address found, then the block. */
    method CarveFromAt(ghost i: nat, arena: MemoryArena, at: nat, size: nat) returns (block: Option<Range>)
      requires Valid() && i < |codeArenas| && codeArenas[i] == arena && arena.cursorAddr <= at <= arena.end
      modifies arena, this`handed
      ensures Valid()
      ensures ExecResult(Value(), block) == CarveAt(old(Value()), i, at, size)
    {
      hide Carve;
      var placeholder := CarveFrom(i, arena, at - arena.cursorAddr, false);
      block := CarveFrom(i, arena, size, true);
    }

    method AllocateExecBlock(size: nat, page: nat, os: nat) returns (block: Option<Range>)
      requires Valid() && page > 0 && TWO32 % page == 0
      modifies this, codeArenas
      ensures Valid() && old(codeArenas) <= codeArenas && fresh(codeArenas[|old(codeArenas)|..])
      ensures forall a <- old(Value()).arenas :: a.cursor <= a.End()
      ensures ExecResult(Value(), block) == ExecAlloc(old(Value()), size, page, os)
    {
      var i := 0;
      block := None;
      while i < |codeArenas|
        invariant 0 <= i <= |codeArenas|
        invariant Valid() && Value() == old(Value()) && codeArenas == old(codeArenas)
        invariant block.None?
        invariant FirstFit(Arenas(), size, 0) == FirstFit(Arenas(), size, i)
      {
        block := CarveFrom(i, codeArenas[i], size, true);
        if block.Some? {
          return;
        }
        assert Arenas() == old(Arenas());
        i := i + 1;
      }
      GrowthIsPages(size, page);
      var arena := AllocateCodeMemoryArena(GrowthSize(size, page), page, os);
      block := CarveFrom(i, arena, size, true);
    }
  }

  /** Truncating to 32 bits keeps whole pages whole. */
  lemma GrowthIsPages(size: nat, page: nat)
    requires page > 0 && TWO32 % page == 0
    ensures GrowthSize(size, page) % page == 0
  {
    FloorIsMultiple(size + page - 1, page);
    var q :| AlignCeil(size, page) == q * page;
    var n, k := TWO32 / page, AlignCeil(size, page) / TWO32;
    assert GrowthSize(size, page) == q * page - k * TWO32 && TWO32 == n * page;
    MultipleOfPage(q, k, n, page);
  }

  lemma FloorIsMultiple(x: nat, page: nat)
    requires page > 0
    ensures exists q: nat :: AlignFloor(x, page) == q * page
  {
    assert AlignFloor(x, page) == x / page * page;
  }

  lemma MultipleOfPage(q: nat, k: nat, n: nat, page: nat)
    requires page > 0
    ensures (q * page - k * (n * page)) % page == 0
  {
    var m: int := q - k * n;
    assert k * (n * page) == (k * n) * page;
    assert q * page - k * (n * page) == m * page;
    MultipleMod(m, page);
  }

  class NearMemoryAllocator {
    const defaultAllocator: MemoryAllocator

    constructor (allocator: MemoryAllocator)
      ensures defaultAllocator == allocator
    {
      defaultAllocator := allocator;
    }

    method AllocateNearBlockFromDefaultAllocator(size: nat, pos: nat, range: nat) returns (block: Option<Range>)
      requires defaultAllocator.Valid() && CursorsOk(defaultAllocator.Arenas())
      modifies defaultAllocator, defaultAllocator.codeArenas
      ensures defaultAllocator.Valid() && defaultAllocator.codeArenas == old(defaultAllocator.codeArenas)
      ensures ExecResult(defaultAllocator.Value(), block)
              == NearInArenas(old(defaultAllocator.Value()), size, Wrap(pos - range), Wrap(pos + range))
    {
      hide CarveAt;
      var least, most := Wrap(pos - range), Wrap(pos + range);
      var arenas := defaultAllocator.codeArenas;
      var unused, i := 0, 0;
      while i < |arenas|
        modifies {}
        invariant 0 <= i <= |arenas| && unused == 0
        invariant FirstUnused(defaultAllocator.Arenas(), size, least, most, 0)
                  == FirstUnused(defaultAllocator.Arenas(), size, least, most, i)
      {
        unused := AllocateFromDefaultArena(arenas[i], size, least, most);
        if unused != 0 {
          break;
        }
        i := i + 1;
      }
      if unused == 0 {
        return None;
      }
      assert defaultAllocator.Arenas()[i] in defaultAllocator.Arenas();
      block := defaultAllocator.CarveFromAt(i, arenas[i], unused, size);
    }

    method AllocateFromDefaultArena(arena: MemoryArena, size: nat, least: nat, most: nat) returns (unused: nat)
      requires arena.Valid()
      ensures unused == UnusedIn(arena.Value(), size, least, most)
    {
      var start, end := arena.cursorAddr, arena.addr + arena.size;
      if end < least || start > most {
        return 0;
      }
      start, end := Max(start, least), Min(end, most);
      if start >= end {
        return 0;
      }
      if end - start < size {
        return 0;
      }
      return start;
    }

    method AllocateNearBlockFromUnusedRegion(size: nat, pos: nat, range: nat, regions: seq<Range>, page: nat,
                                             granted: bool)
      returns (block: Option<Range>)
      requires defaultAllocator.Valid() && page > 0
      modifies defaultAllocator
      ensures defaultAllocator.Valid()
      ensures ExecResult(defaultAllocator.Value(), block)
              == NearInGaps(old(defaultAllocator.Value()), size, Wrap(pos - range), Wrap(pos + range), regions,
                  page, granted)
    {
      hide AlignFloor, CarveAt, UnusedBetween;
      var least, most := Wrap(pos - range), Wrap(pos + range);
      var unused, i := 0, 0;
      while i + 1 < |regions|
        modifies {}
        invariant 0 <= i <= |regions| && unused == 0
        invariant FirstGap(regions, size, least, most, 0) == FirstGap(regions, size, least, most, i)
      {
        unused := CheckHasSufficientMemoryBetweenRegion(regions[i], regions[i + 1], size, least, most);
        if unused != 0 {
          break;
        }
        i := i + 1;
      }
      if unused == 0 {
        return None;
      }
      var firstPage, endPage := AlignFloor(unused, page), AlignFloor(unused + size, page);
      GapArenaHolds(unused, size, page);
      if !granted {
        return None;
      }
      var allocator := defaultAllocator;
      var arena := RegisterNearArena(firstPage, endPage - firstPage + page);
      assert allocator.Arenas()[|old(allocator.codeArenas)|] == arena.Value();
      block := allocator.CarveFromAt(|old(allocator.codeArenas)|, arena, unused, size);
    }

    method CheckHasSufficientMemoryBetweenRegion(region: Range, next: Range, size: nat, least: nat, most: nat)
      returns (unused: nat)
      ensures unused == UnusedBetween(region, next, size, least, most)
    {
      hide AlignFloor;
      var start, end := region.addr + region.size, next.addr;
      if end < least || start > most {
        return 0;
      }
      start := AlignFloor(start, 4);
      start, end := Max(start, least), Min(end, most);
      if start >= end {
        return 0;
      }
      if end - start < size {
        return 0;
      }
      return start;
    }

    method RegisterNearArena(addr: nat, size: nat) returns (arena: MemoryArena)
      requires defaultAllocator.Valid()
      modifies defaultAllocator
      ensures defaultAllocator.Valid() && fresh(arena)
      ensures defaultAllocator.codeArenas == old(defaultAllocator.codeArenas) + [arena]
      ensures defaultAllocator.Value() == AddArena(old(defaultAllocator.Value()), addr, size)
    {
      arena := new MemoryArena(addr, size);
      defaultAllocator.codeArenas := defaultAllocator.codeArenas + [arena];
      assert defaultAllocator.Arenas() == old(defaultAllocator.Arenas()) + [Arena(addr, size, addr, [])];
    }

    method AllocateNearBlock(size: nat, pos: nat, range: nat, regions: seq<Range>, page: nat, granted: bool)
      returns (block: Option<Range>)
      requires defaultAllocator.Valid() && page > 0 && CursorsOk(defaultAllocator.Arenas())
      modifies defaultAllocator, defaultAllocator.codeArenas
      ensures defaultAllocator.Valid()
      ensures ExecResult(defaultAllocator.Value(), block)
              == NearAlloc(old(defaultAllocator.Value()), size, pos, range, regions, page, granted)
    {
      ghost var st := defaultAllocator.Value();
      block := AllocateNearBlockFromDefaultAllocator(size, pos, range);
      if block.None? {
        NearNone(st, size, Wrap(pos - range), Wrap(pos + range), regions, page, granted);
        block := AllocateNearBlockFromUnusedRegion(size, pos, range, regions, page, granted);
      }
    }
  }
}
