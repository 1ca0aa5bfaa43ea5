/**
  The executable-memory allocators: bump arenas, first-fit allocation with growth, and the near
  allocator that looks for room around a position, first in the arenas and then between the
  regions of the process.

  The state is a value here; the classes in AllocatorObjects.dfy are proved to follow it.
 */
module Allocator {
  import opened Words

  /** A block handed out, or a region of the process. */
  datatype Range = Range(addr: nat, size: nat)
  {
    function End(): nat { addr + size }
  }

  /** An arena, its cursor, and the sizes carved off it so far (blocks and placeholders). */
  datatype Arena = Arena(addr: nat, size: nat, cursor: nat, carved: seq<nat>)
  {
    function End(): nat { addr + size }
  }

  datatype State = State(arenas: seq<Arena>, handed: seq<Range>)

  function AlignFloor(x: nat, page: nat): nat
    requires page > 0
  {
    x - x % page
  }

  function AlignCeil(x: nat, page: nat): nat
    requires page > 0
  {
    AlignFloor(x + page - 1, page)
  }

  // ----- arenas

  /** MemoryArena::allocMemBlock */
  function AllocMemBlock(a: Arena, size: nat): (r: (Arena, Option<Range>))
    requires a.cursor <= a.End()
    ensures r.1.Some? <==> size <= a.End() - a.cursor
    ensures r.1.Some? ==> r.1.value == Range(a.cursor, size)
    ensures r.0.addr == a.addr && r.0.size == a.size && r.0.cursor == a.cursor + (if r.1.Some? then size else 0)
  {
    if a.End() - a.cursor < size then (a, None)
    else (a.(cursor := a.cursor + size, carved := a.carved + [size]), Some(Range(a.cursor, size)))
  }

  function Sum(s: seq<nat>): nat { if s == [] then 0 else Sum(s[..|s| - 1]) + s[|s| - 1] }

  predicate ArenaOk(a: Arena)
  {
    && 0 < a.addr <= a.cursor <= a.End() < TWO64 && 0 < a.size
    && a.cursor == a.addr + Sum(a.carved)
  }

  lemma CarvedOk(a: Arena, size: nat)
    requires ArenaOk(a)
    ensures ArenaOk(AllocMemBlock(a, size).0)
  {
    if size <= a.End() - a.cursor {
      assert (a.carved + [size])[..|a.carved|] == a.carved;
    }
  }

  /** No byte in common. */
  predicate Apart(a: Range, b: Range) { Disjoint(a.addr, a.size, b.addr, b.size) }

  function Span(a: Arena): Range { Range(a.addr, a.size) }

  /** Handed-out memory lies below the cursor of some arena. */
  ghost predicate Housed(h: Range, arenas: seq<Arena>)
  {
    exists i :: 0 <= i < |arenas| && arenas[i].addr <= h.addr && h.End() <= arenas[i].cursor
  }

  /**
    What every run keeps: arenas are sound and disjoint, and all blocks handed out are inside an
    arena and pairwise disjoint.
   */
  ghost predicate Inv(st: State)
  {
    && (forall a <- st.arenas :: ArenaOk(a))
    && (forall i, j :: 0 <= i < j < |st.arenas| ==> Apart(Span(st.arenas[i]), Span(st.arenas[j])))
    && (forall h <- st.handed :: Housed(h, st.arenas))
    && (forall i, j :: 0 <= i < j < |st.handed| ==> Apart(st.handed[i], st.handed[j]))
  }

  /** Carve size off arena i; hand it out if asked to. */
  function Carve(st: State, i: nat, size: nat, hand: bool): State
    requires i < |st.arenas| && st.arenas[i].cursor <= st.arenas[i].End()
  {
    var (a, b) := AllocMemBlock(st.arenas[i], size);
    State(st.arenas[i := a], if hand && b.Some? then st.handed + [b.value] else st.handed)
  }

  lemma CarveInv(st: State, i: nat, size: nat, hand: bool)
    requires Inv(st) && i < |st.arenas|
    ensures st.arenas[i].cursor <= st.arenas[i].End()
    ensures Inv(Carve(st, i, size, hand))
  {
    assert st.arenas[i] in st.arenas;
    var a := st.arenas[i];
    var st' := Carve(st, i, size, hand);
    CarvedOk(a, size);
    StillHoused(st, i, st'.arenas[i]);
    hide Housed;
    if hand && size <= a.End() - a.cursor {
      NewBlockApart(st, i, Range(a.cursor, size));
      HousedIn(Range(a.cursor, size), st'.arenas, i);
    }
  }

  lemma HousedIn(h: Range, arenas: seq<Arena>, i: nat)
    requires i < |arenas| && arenas[i].addr <= h.addr && h.End() <= arenas[i].cursor
    ensures Housed(h, arenas)
  {
  }

  lemma StillHoused(st: State, i: nat, a: Arena)
    requires Inv(st) && i < |st.arenas| && a.addr == st.arenas[i].addr && st.arenas[i].cursor <= a.cursor
    ensures forall h <- st.handed :: Housed(h, st.arenas[i := a])
  {
    forall h | h in st.handed
      ensures Housed(h, st.arenas[i := a])
    {
      var j :| 0 <= j < |st.arenas| && st.arenas[j].addr <= h.addr && h.End() <= st.arenas[j].cursor;
      HousedIn(h, st.arenas[i := a], j);
    }
  }

  /** What lies between an arena's cursor and its end is apart from everything handed out. */
  lemma NewBlockApart(st: State, i: nat, b: Range)
    requires Inv(st) && i < |st.arenas| && st.arenas[i].cursor <= b.addr && b.End() <= st.arenas[i].End()
    ensures forall h <- st.handed :: Apart(h, b)
  {
    forall h | h in st.handed
      ensures Apart(h, b)
    {
      var j :| 0 <= j < |st.arenas| && st.arenas[j].addr <= h.addr && h.End() <= st.arenas[j].cursor;
      assert st.arenas[j] in st.arenas && st.arenas[i] in st.arenas;
      if j < i {
        assert Apart(Span(st.arenas[j]), Span(st.arenas[i]));
      } else if i < j {
        assert Apart(Span(st.arenas[i]), Span(st.arenas[j]));
      }
    }
  }

  /** A new arena, apart from all others, as the operating system maps it. */
  function AddArena(st: State, addr: nat, size: nat): State
  {
    st.(arenas := st.arenas + [Arena(addr, size, addr, [])])
  }

  lemma AddArenaInv(st: State, addr: nat, size: nat)
    requires Inv(st) && 0 < addr && 0 < size && addr + size < TWO64
    requires forall a <- st.arenas :: Apart(Span(a), Range(addr, size))
    ensures Inv(AddArena(st, addr, size))
  {
    var st' := AddArena(st, addr, size);
    forall h | h in st.handed
      ensures Housed(h, st'.arenas)
    {
      var j :| 0 <= j < |st.arenas| && st.arenas[j].addr <= h.addr && h.End() <= st.arenas[j].cursor;
      assert st'.arenas[j] == st.arenas[j];
    }
    forall i, j | 0 <= i < j < |st'.arenas|
      ensures Apart(Span(st'.arenas[i]), Span(st'.arenas[j]))
    {
      assert st.arenas[i] in st.arenas;
    }
  }

  // ----- executable blocks, first fit with growth

  /** The first arena from i on with room for size. */
  function FirstFit(arenas: seq<Arena>, size: nat, i: nat): (r: Option<nat>)
    requires i <= |arenas|
    ensures r.Some? ==> i <= r.value < |arenas|
    ensures r.Some? ==> arenas[r.value].cursor + size <= arenas[r.value].End()
    ensures r.Some? ==> forall k :: i <= k < r.value ==> arenas[k].End() < arenas[k].cursor + size
    ensures r.None? ==> forall k :: i <= k < |arenas| ==> arenas[k].End() < arenas[k].cursor + size
    decreases |arenas| - i
  {
    if i == |arenas| then None
    else if arenas[i].cursor + size <= arenas[i].End() then Some(i)
    else FirstFit(arenas, size, i + 1)
  }

  /** Some: the block. None: the CHECK behind the growth fires. */
  datatype ExecResult = ExecResult(st: State, block: Option<Range>)

  /** The size of the arena mapped for a block: rounded up to pages, then passed on as 32 bits. */
  function GrowthSize(size: nat, page: nat): nat
    requires page > 0
  {
    AlignCeil(size, page) % TWO32
  }

  /** MemoryAllocator::allocateExecBlock, where the operating system would map a new arena at os */
  function ExecAlloc(st: State, size: nat, page: nat, os: nat): ExecResult
    requires page > 0 && forall a <- st.arenas :: a.cursor <= a.End()
  {
    match FirstFit(st.arenas, size, 0)
    case Some(i) =>
      assert st.arenas[i] in st.arenas;
      ExecResult(Carve(st, i, size, true), Some(Range(st.arenas[i].cursor, size)))
    case None =>
      var grown := AddArena(st, os, GrowthSize(size, page));
      var i := |st.arenas|;
      ExecResult(Carve(grown, i, size, true), AllocMemBlock(grown.arenas[i], size).1)
  }

  /** What the operating system guarantees about a mapping at os; it refuses one of no bytes. */
  ghost predicate Mapped(st: State, os: nat, size: nat)
  {
    && 0 < os && 0 < size && os + size < TWO64
    && forall a <- st.arenas :: Apart(Span(a), Range(os, size))
  }

  /** The operating system maps the pages, or refuses with a null address, which becomes that of the new arena. */
  ghost predicate Answered(st: State, size: nat, page: nat, os: nat)
    requires page > 0
  {
    FirstFit(st.arenas, size, 0).None? ==> os == 0 || Mapped(st, os, GrowthSize(size, page))
  }

  /** A request that has to grow is refused. */
  predicate Refused(st: State, size: nat, os: nat) { FirstFit(st.arenas, size, 0).None? && os == 0 }

  /** An exec request keeps the invariant exactly if its growth, if it needs one, is not refused. */
  lemma ExecAllocInvExactly(st: State, size: nat, page: nat, os: nat)
    requires Inv(st) && page > 0 && Answered(st, size, page, os)
    ensures forall a <- st.arenas :: a.cursor <= a.End()
    ensures var r := ExecAlloc(st, size, page, os);
            && (Inv(r.st) <==> !Refused(st, size, os))
            && (r.block.Some? ==> r.st.handed == st.handed + [r.block.value] && r.block.value.size == size)
            && (r.block.None? ==> r.st.handed == st.handed)
  {
    assert forall a <- st.arenas :: ArenaOk(a);
    match FirstFit(st.arenas, size, 0)
    case Some(i) =>
      CarveInv(st, i, size, true);
    case None =>
      var grown := AddArena(st, os, GrowthSize(size, page));
      if os == 0 {
        var arenas := ExecAlloc(st, size, page, os).st.arenas;
        assert arenas[|st.arenas|] in arenas && !ArenaOk(arenas[|st.arenas|]);
      } else {
        AddArenaInv(st, os, GrowthSize(size, page));
        CarveInv(grown, |st.arenas|, size, true);
      }
  }

  /**
    What a refusal leads to: the request is given the null address, if it is given one, and the next one
    that only the new arena has room for is given the address behind that, where nothing is mapped.
   */
  lemma RefusedGrowthServes(st: State, size: nat, next: nat, page: nat, os: nat)
    requires Inv(st) && page > 0 && Refused(st, size, 0) && FirstFit(st.arenas, next, 0).None?
    requires size + next <= GrowthSize(size, page)
    ensures forall a <- st.arenas :: a.cursor <= a.End()
    ensures var r := ExecAlloc(st, size, page, 0);
            && r.block == Some(Range(0, size)) && (forall a <- r.st.arenas :: a.cursor <= a.End())
            && ExecAlloc(r.st, next, page, os).block == Some(Range(size, next))
  {
    hide Inv, GrowthSize, FirstFit;
    EnoughRoom(st);
    var room, n := GrowthSize(size, page), |st.arenas|;
    var last := Arena(0, room, size, [size]);
    var r := ExecAlloc(st, size, page, 0);
    assert r.st.arenas == st.arenas + [last] by {
      assert AddArena(st, 0, room).arenas[n] == Arena(0, room, 0, []) && [] + [size] == [size];
    }
    FirstFitBehind(st.arenas, last, next, 0);
  }

  lemma EnoughRoom(st: State)
    requires Inv(st)
    ensures forall a <- st.arenas :: a.cursor <= a.End()
  {
    assert forall a <- st.arenas :: ArenaOk(a);
  }

  lemma {:induction false} FirstFitBehind(arenas: seq<Arena>, last: Arena, size: nat, i: nat)
    requires i <= |arenas| && FirstFit(arenas, size, i).None? && last.cursor + size <= last.End()
    ensures FirstFit(arenas + [last], size, i) == Some(|arenas|)
    decreases |arenas| - i
  {
    if i < |arenas| {
      FirstFitBehind(arenas, last, size, i + 1);
    }
  }

  /**
    The CHECK behind the growth fires exactly for sizes whose rounding up no longer fits in the
    32-bit size of a new arena, when no arena has room.
   */
  lemma CheckFiresExactly(st: State, size: nat, page: nat, os: nat)
    requires Inv(st) && size < TWO32 && 0 < page && TWO32 % page == 0
    ensures forall a <- st.arenas :: a.cursor <= a.End()
    ensures ExecAlloc(st, size, page, os).block.None? <==> FirstFit(st.arenas, size, 0).None? && size > TWO32 - page
  {
    assert forall a <- st.arenas :: ArenaOk(a);
    CeilBounds(size, page);
  }

  /** The size mapped is the least multiple of the page that holds the block, in 32 bits. */
  lemma GrowthIsLeast(size: nat, page: nat)
    requires page > 0
    ensures exists k: nat :: GrowthSize(size, page) == k * page % TWO32 && k * page - page < size <= k * page
  {
    var x := size + page - 1;
    var q := x / page;
    assert x == q * page + x % page;
    assert GrowthSize(size, page) == q * page % TWO32;
  }

  /** Rounding up below a multiple of the page: it stays there, and is reached only from the last page. */
  lemma CeilBounds(size: nat, page: nat)
    requires size < TWO32 && 0 < page && TWO32 % page == 0
    ensures var c := AlignCeil(size, page);
            size <= c <= TWO32 && (c == TWO32 <==> size > TWO32 - page)
  {
    var c := AlignCeil(size, page);
    var x := size + page - 1;
    var q, n := x / page, TWO32 / page;
    assert x == q * page + x % page && c == q * page;
    assert TWO32 == n * page;
    assert (n + 1) * page == TWO32 + page && (q + 1) * page == c + page;
    if q > n {
      MulMonotone(n + 1, q, page);
    } else if q < n {
      MulMonotone(q + 1, n, page);
    }
  }

  // ----- near blocks: the arenas first

  /** The least address of [lo, hi) within the search range with room for size behind it; 0 if there is none. */
  function Unused(lo: nat, hi: nat, size: nat, least: nat, most: nat): nat
  {
    var start, end := Max(lo, least), Min(hi, most);
    if start >= end || end - start < size then 0 else start
  }

  /** x starts a nonempty stretch of [lo, hi) and of the search range that holds size bytes. */
  predicate Usable(x: nat, lo: nat, hi: nat, size: nat, least: nat, most: nat)
  {
    lo <= x && least <= x && x < hi && x < most && x + size <= hi && x + size <= most
  }

  /** The search never misses room, and takes the lowest. */
  lemma UnusedExactly(lo: nat, hi: nat, size: nat, least: nat, most: nat)
    requires lo > 0
    ensures var r := Unused(lo, hi, size, least, most);
            && (r != 0 ==> Usable(r, lo, hi, size, least, most))
            && forall x: nat :: Usable(x, lo, hi, size, least, most) ==> r != 0 && r <= x
  {
  }

  /** allocateFromDefaultArena */
  function UnusedIn(a: Arena, size: nat, least: nat, most: nat): nat
  {
    if a.End() < least || a.cursor > most then 0 else Unused(a.cursor, a.End(), size, least, most)
  }

  /** The index of the first arena from i on with room in range. */
  function FirstUnused(arenas: seq<Arena>, size: nat, least: nat, most: nat, i: nat): (r: Option<nat>)
    requires i <= |arenas|
    ensures r.Some? ==> i <= r.value < |arenas| && UnusedIn(arenas[r.value], size, least, most) != 0
    ensures r.Some? ==> forall k :: i <= k < r.value ==> UnusedIn(arenas[k], size, least, most) == 0
    ensures r.None? ==> forall k :: i <= k < |arenas| ==> UnusedIn(arenas[k], size, least, most) == 0
    decreases |arenas| - i
  {
    if i == |arenas| then None
    else if UnusedIn(arenas[i], size, least, most) != 0 then Some(i)
    else FirstUnused(arenas, size, least, most, i + 1)
  }

  /** Skip to an address of arena i with a placeholder, then carve the block. */
  function CarveAt(st: State, i: nat, at: nat, size: nat): ExecResult
    requires i < |st.arenas| && st.arenas[i].cursor <= at <= st.arenas[i].End()
  {
    var skipped := Carve(st, i, at - st.arenas[i].cursor, false);
    ExecResult(Carve(skipped, i, size, true), AllocMemBlock(skipped.arenas[i], size).1)
  }

  predicate CursorsOk(arenas: seq<Arena>)
  {
    forall a <- arenas :: a.cursor <= a.End()
  }

  /** allocateNearBlockFromDefaultAllocator */
  function NearInArenas(st: State, size: nat, least: nat, most: nat): ExecResult
    requires CursorsOk(st.arenas)
  {
    match FirstUnused(st.arenas, size, least, most, 0)
    case None => ExecResult(st, None)
    case Some(i) =>
      assert st.arenas[i] in st.arenas;
      CarveAt(st, i, UnusedIn(st.arenas[i], size, least, most), size)
  }

  // ----- near blocks: between the regions of the process

  /** check_has_sufficient_memory_between_region */
  function UnusedBetween(r: Range, next: Range, size: nat, least: nat, most: nat): nat
  {
    if next.addr < least || r.End() > most then 0 else Unused(AlignFloor(r.End(), 4), next.addr, size, least, most)
  }

  /** The index of the first region from i on with room in range between it and the next one. */
  function FirstGap(regions: seq<Range>, size: nat, least: nat, most: nat, i: nat): (r: Option<nat>)
    requires i <= |regions|
    ensures r.Some? ==> i <= r.value < |regions| - 1
    ensures r.Some? ==> UnusedBetween(regions[r.value], regions[r.value + 1], size, least, most) != 0
    ensures r.Some? ==> forall k :: i <= k < r.value ==>
              UnusedBetween(regions[k], regions[k + 1], size, least, most) == 0
    ensures r.None? ==> forall k :: i <= k < |regions| - 1 ==>
              UnusedBetween(regions[k], regions[k + 1], size, least, most) == 0
    decreases |regions| - i
  {
    if i + 1 >= |regions| then None
    else if UnusedBetween(regions[i], regions[i + 1], size, least, most) != 0 then Some(i)
    else FirstGap(regions, size, least, most, i + 1)
  }

  /** The pages mapped for a block of size at the unused address at. */
  function GapArena(at: nat, size: nat, page: nat): Range
    requires page > 0
  {
    Range(AlignFloor(at, page), AlignFloor(at + size, page) - AlignFloor(at, page) + page)
  }

  lemma GapArenaHolds(at: nat, size: nat, page: nat)
    requires page > 0
    ensures AlignFloor(at, page) <= AlignFloor(at + size, page)
    ensures GapArena(at, size, page).addr <= at && at + size < GapArena(at, size, page).End()
  {
    FloorMonotone(at, at + size, page);
  }

  lemma FloorMonotone(x: nat, y: nat, page: nat)
    requires page > 0 && x <= y
    ensures AlignFloor(x, page) <= AlignFloor(y, page)
    ensures y % page == 0 && x < y ==> AlignFloor(x, page) + page <= y
    ensures x % page == 0 ==> x <= AlignFloor(y, page)
  {
    var p, q := x / page, y / page;
    var m, n, r, s := p * page, q * page, x % page, y % page;
    assert x == m + r && y == n + s;
    if p < q {
      NextMultiple(p, q, page);
    } else if q < p {
      NextMultiple(q, p, page);
    }
  }

  lemma NextMultiple(p: nat, q: nat, page: nat)
    requires p < q
    ensures p * page + page <= q * page
  {
    MulMonotone(p + 1, q, page);
    Distribute(p, -1, page);
  }

  /** allocateNearBlockFromUnusedRegion, where granted says whether the fixed mapping succeeds */
  function NearInGaps(st: State, size: nat, least: nat, most: nat, regions: seq<Range>, page: nat,
                      granted: bool): ExecResult
    requires page > 0
  {
    match FirstGap(regions, size, least, most, 0)
    case None => ExecResult(st, None)
    case Some(i) =>
      if !granted then ExecResult(st, None) else
      var at := UnusedBetween(regions[i], regions[i + 1], size, least, most);
      var pages := GapArena(at, size, page);
      GapArenaHolds(at, size, page);
      CarveAt(AddArena(st, pages.addr, pages.size), |st.arenas|, at, size)
  }

  /** NearMemoryAllocator::allocateNearBlock */
  function NearAlloc(st: State, size: nat, pos: nat, range: nat, regions: seq<Range>, page: nat,
                     granted: bool): ExecResult
    requires page > 0 && CursorsOk(st.arenas)
  {
    var least, most := Wrap(pos - range), Wrap(pos + range);
    var r := NearInArenas(st, size, least, most);
    if r.block.Some? then r else NearInGaps(st, size, least, most, regions, page, granted)
  }

  /** The block carved at an address is the one there. */
  lemma CarveAtBlock(st: State, i: nat, at: nat, size: nat)
    requires i < |st.arenas| && st.arenas[i].cursor <= at && at + size <= st.arenas[i].End()
    ensures CarveAt(st, i, at, size).block == Some(Range(at, size))
    ensures CarveAt(st, i, at, size).st.handed == st.handed + [Range(at, size)]
  {
  }

  /** A near block lies in the search range when its bounds do not wrap. */
  lemma NearBlockInRange(st: State, size: nat, pos: nat, range: nat, regions: seq<Range>, page: nat, granted: bool)
    requires page > 0 && CursorsOk(st.arenas) && range <= pos && pos + range < TWO64
    ensures var r := NearAlloc(st, size, pos, range, regions, page, granted);
            r.block.Some? ==>
              && r.block.value.size == size && pos - range <= r.block.value.addr && r.block.value.End() <= pos + range
              && r.st.handed == st.handed + [r.block.value]
  {
    hide Wrap, NearInArenas, NearInGaps;
    WrapSmall(pos - range);
    WrapSmall(pos + range);
    NearBlockBounds(st, size, pos - range, pos + range, regions, page, granted);
  }

  lemma NearBlockBounds(st: State, size: nat, least: nat, most: nat, regions: seq<Range>, page: nat, granted: bool)
    requires page > 0 && CursorsOk(st.arenas)
    ensures var r := NearInArenas(st, size, least, most);
            r.block.Some? ==>
              r.block.value.size == size && least <= r.block.value.addr && r.block.value.End() <= most
              && r.st.handed == st.handed + [r.block.value]
    ensures var r := NearInGaps(st, size, least, most, regions, page, granted);
            r.block.Some? ==>
              r.block.value.size == size && least <= r.block.value.addr && r.block.value.End() <= most
              && r.st.handed == st.handed + [r.block.value]
  {
    hide CarveAt, GapArena, AlignFloor;
    match FirstUnused(st.arenas, size, least, most, 0) {
      case Some(i) =>
        CarveAtBlock(st, i, UnusedIn(st.arenas[i], size, least, most), size);
      case None =>
    }
    match FirstGap(regions, size, least, most, 0) {
      case Some(i) =>
        var at := UnusedBetween(regions[i], regions[i + 1], size, least, most);
        var pages := GapArena(at, size, page);
        GapArenaHolds(at, size, page);
        CarveAtBlock(AddArena(st, pages.addr, pages.size), |st.arenas|, at, size);
      case None =>
    }
  }

  /** Address x can start a block of size in the gap behind region i. */
  predicate RoomInGap(regions: seq<Range>, i: nat, x: nat, size: nat, least: nat, most: nat)
  {
    i + 1 < |regions| && Usable(x, regions[i].End(), regions[i + 1].addr, size, least, most)
  }

  lemma RoomIndex(regions: seq<Range>, i: nat, x: nat, size: nat, least: nat, most: nat)
    requires RoomInGap(regions, i, x, size, least, most)
    ensures i + 1 < |regions|
  {
  }

  lemma ArenaSearchExactly(a: Arena, size: nat, least: nat, most: nat)
    requires a.cursor > 0
    ensures UnusedIn(a, size, least, most) == 0 <==> forall x: nat :: !Usable(x, a.cursor, a.End(), size, least, most)
  {
    UnusedExactly(a.cursor, a.End(), size, least, most);
    if UnusedIn(a, size, least, most) != 0 {
      assert Usable(UnusedIn(a, size, least, most), a.cursor, a.End(), size, least, most);
    }
  }

  lemma GapSearchExactly(regions: seq<Range>, i: nat, size: nat, least: nat, most: nat)
    requires i + 1 < |regions| && regions[i].End() > 0 && regions[i].End() % 4 == 0
    ensures UnusedBetween(regions[i], regions[i + 1], size, least, most) == 0 <==>
            forall x: nat :: !RoomInGap(regions, i, x, size, least, most)
  {
    UnusedExactly(regions[i].End(), regions[i + 1].addr, size, least, most);
    var at := UnusedBetween(regions[i], regions[i + 1], size, least, most);
    if at != 0 {
      assert RoomInGap(regions, i, at, size, least, most);
    }
  }

  lemma NearOutcome(st: State, size: nat, least: nat, most: nat, regions: seq<Range>, page: nat, granted: bool)
    requires page > 0 && CursorsOk(st.arenas)
    ensures NearInArenas(st, size, least, most).block.Some? <==> FirstUnused(st.arenas, size, least, most, 0).Some?
    ensures NearInGaps(st, size, least, most, regions, page, granted).block.Some? <==>
            granted && FirstGap(regions, size, least, most, 0).Some?
  {
    hide CarveAt, GapArena, AlignFloor;
    match FirstUnused(st.arenas, size, least, most, 0) {
      case Some(i) =>
        CarveAtBlock(st, i, UnusedIn(st.arenas[i], size, least, most), size);
      case None =>
    }
    match FirstGap(regions, size, least, most, 0) {
      case Some(i) =>
        var at := UnusedBetween(regions[i], regions[i + 1], size, least, most);
        var pages := GapArena(at, size, page);
        GapArenaHolds(at, size, page);
        CarveAtBlock(AddArena(st, pages.addr, pages.size), |st.arenas|, at, size);
      case None =>
    }
  }

  /**
    The search fails exactly when no arena has usable room, and either no gap has or the mapping in
    the first such gap is refused.
   */
  lemma NearFailsExactly(st: State, size: nat, pos: nat, range: nat, regions: seq<Range>, page: nat, granted: bool)
    requires page > 0 && CursorsOk(st.arenas) && forall a <- st.arenas :: 0 < a.cursor
    requires forall r <- regions :: r.End() > 0 && r.End() % 4 == 0
    ensures var least, most := Wrap(pos - range), Wrap(pos + range);
            NearAlloc(st, size, pos, range, regions, page, granted).block.None? <==>
            && (forall a <- st.arenas, x: nat :: !Usable(x, a.cursor, a.End(), size, least, most))
            && (granted ==> forall i: nat, x: nat :: !RoomInGap(regions, i, x, size, least, most))
  {
    hide Wrap, CarveAt, Usable, UnusedBetween, UnusedIn, AlignFloor, GapArena, RoomInGap;
    var least, most := Wrap(pos - range), Wrap(pos + range);
    NearOutcome(st, size, least, most, regions, page, granted);
    forall a | a in st.arenas
      ensures UnusedIn(a, size, least, most) == 0 <==> forall x: nat :: !Usable(x, a.cursor, a.End(), size, least, most)
    {
      ArenaSearchExactly(a, size, least, most);
    }
    forall i: nat, x: nat | RoomInGap(regions, i, x, size, least, most)
      ensures i + 1 < |regions| && UnusedBetween(regions[i], regions[i + 1], size, least, most) != 0
    {
      RoomIndex(regions, i, x, size, least, most);
      GapSearchExactly(regions, i, size, least, most);
    }
    match FirstGap(regions, size, least, most, 0) {
      case Some(i) => GapSearchExactly(regions, i, size, least, most);
      case None =>
    }
  }

  // ----- near blocks keep the invariant

  /** What /proc/self/maps shows: nonempty page-aligned regions in order, with the arenas in them. */
  ghost predicate Layout(regions: seq<Range>, arenas: seq<Arena>, page: nat)
    requires page > 0
  {
    && (forall r <- regions :: r.addr % page == 0 && r.End() % page == 0 && 0 < r.size && r.End() < TWO64)
    && (forall i :: 0 <= i < |regions| - 1 ==> regions[i].End() <= regions[i + 1].addr)
    && (forall a <- arenas, i :: 0 <= i < |regions| - 1 ==>
          Apart(Span(a), Range(regions[i].End(), regions[i + 1].addr - regions[i].End())))
  }

  /** The arena mapped in a gap stays in it exactly if the block ends strictly below the next region. */
  lemma GapArenaStaysExactly(r: Range, next: Range, size: nat, least: nat, most: nat, page: nat)
    requires page > 0 && page % 4 == 0 && r.End() % page == 0 && next.addr % page == 0
    requires UnusedBetween(r, next, size, least, most) != 0
    ensures var at := UnusedBetween(r, next, size, least, most);
            var pages := GapArena(at, size, page);
            r.End() <= pages.addr && (pages.End() <= next.addr <==> at + size < next.addr)
  {
    hide GapArena;
    var at := UnusedBetween(r, next, size, least, most);
    AlignedFour(r.End(), page);
    FloorMonotone(r.End(), at, page);
    FloorMonotone(at + size, next.addr, page);
    GapEnd(at, size, page);
    GapArenaHolds(at, size, page);
  }

  lemma GapEnd(at: nat, size: nat, page: nat)
    requires page > 0
    ensures AlignFloor(at, page) <= AlignFloor(at + size, page)
    ensures GapArena(at, size, page).addr == AlignFloor(at, page)
    ensures GapArena(at, size, page).End() == AlignFloor(at + size, page) + page
  {
    FloorMonotone(at, at + size, page);
  }

  lemma AlignedFour(x: nat, page: nat)
    requires page > 0 && page % 4 == 0 && x % page == 0
    ensures AlignFloor(x, 4) == x
  {
    var n, k := x / page, page / 4;
    assert x == n * page && page == 4 * k;
    assert x == 4 * (n * k);
  }

  lemma CarveAtInv(st: State, i: nat, at: nat, size: nat)
    requires Inv(st) && i < |st.arenas| && st.arenas[i].cursor <= at <= st.arenas[i].End()
    ensures Inv(CarveAt(st, i, at, size).st)
  {
    hide Inv, ArenaOk;
    CarveInv(st, i, at - st.arenas[i].cursor, false);
    CarveInv(Carve(st, i, at - st.arenas[i].cursor, false), i, size, true);
  }

  lemma NearInArenasInv(st: State, size: nat, least: nat, most: nat)
    requires Inv(st) && CursorsOk(st.arenas)
    ensures Inv(NearInArenas(st, size, least, most).st)
  {
    hide Inv, ArenaOk, CarveAt;
    match FirstUnused(st.arenas, size, least, most, 0) {
      case Some(i) => CarveAtInv(st, i, UnusedIn(st.arenas[i], size, least, most), size);
      case None =>
    }
  }

  lemma LayoutAt(regions: seq<Range>, arenas: seq<Arena>, page: nat, i: nat)
    requires page > 0 && Layout(regions, arenas, page) && i + 1 < |regions|
    ensures regions[i].End() % page == 0 && regions[i + 1].addr % page == 0
    ensures 0 < regions[i].End() <= regions[i + 1].addr && regions[i + 1].addr + page < TWO64
    ensures forall a <- arenas :: Apart(Span(a), Range(regions[i].End(), regions[i + 1].addr - regions[i].End()))
  {
    assert regions[i] in regions && regions[i + 1] in regions;
    FloorMonotone(regions[i + 1].addr, regions[i + 1].End(), page);
  }

  lemma CursorsFromInv(st: State)
    requires Inv(st)
    ensures CursorsOk(st.arenas)
  {
    assert forall a <- st.arenas :: ArenaOk(a);
  }

  /**
    What keeps a near request from doing harm: an arena serves it, or nothing is mapped, or the block
    ends strictly below the region behind its gap, or no arena has the one page behind the gap.
   */
  ghost predicate NearSafe(st: State, size: nat, least: nat, most: nat, regions: seq<Range>, page: nat, granted: bool)
  {
    || FirstUnused(st.arenas, size, least, most, 0).Some?
    || !granted
    || match FirstGap(regions, size, least, most, 0)
       case None => true
       case Some(i) =>
         || UnusedBetween(regions[i], regions[i + 1], size, least, most) + size < regions[i + 1].addr
         || forall a <- st.arenas :: Apart(Span(a), Range(regions[i + 1].addr, page))
  }

  /**
    The arena mapped in gap i is apart from all others exactly if the fit is strict or no arena has the page
    behind the gap.
   */
  lemma GapArenaApartExactly(st: State, size: nat, least: nat, most: nat, regions: seq<Range>, page: nat, i: nat)
    requires Inv(st) && page > 0 && page % 4 == 0 && Layout(regions, st.arenas, page) && i + 1 < |regions|
    requires UnusedBetween(regions[i], regions[i + 1], size, least, most) != 0
    ensures var at := UnusedBetween(regions[i], regions[i + 1], size, least, most);
            var pages := GapArena(at, size, page);
            && 0 < pages.addr && 0 < pages.size && pages.End() < TWO64
            && ((forall a <- st.arenas :: Apart(Span(a), pages)) <==>
                at + size < regions[i + 1].addr
                    || forall a <- st.arenas :: Apart(Span(a), Range(regions[i + 1].addr, page)))
  {
    hide GapArena, AlignFloor, Layout;
    var r, next := regions[i], regions[i + 1];
    var at := UnusedBetween(r, next, size, least, most);
    var pages := GapArena(at, size, page);
    LayoutAt(regions, st.arenas, page, i);
    GapArenaStaysExactly(r, next, size, least, most, page);
    GapArenaHolds(at, size, page);
    GapEndAtMost(at, size, next.addr, page);
    forall a | a in st.arenas
      ensures a.size > 0
    {
      assert ArenaOk(a);
    }
  }

  lemma GapEndAtMost(at: nat, size: nat, end: nat, page: nat)
    requires page > 0 && end % page == 0 && at + size <= end
    ensures GapArena(at, size, page).End() <= end + page
    ensures at + size == end ==> GapArena(at, size, page).End() == end + page
  {
    GapEnd(at, size, page);
    FloorMonotone(at + size, end, page);
  }

  lemma NearInGapsInvExactly(st: State, size: nat, least: nat, most: nat, regions: seq<Range>, page: nat, granted: bool)
    requires Inv(st) && page > 0 && page % 4 == 0 && Layout(regions, st.arenas, page)
    requires FirstUnused(st.arenas, size, least, most, 0).None?
    ensures Inv(NearInGaps(st, size, least, most, regions, page, granted).st)
            <==> NearSafe(st, size, least, most, regions, page, granted)
  {
    hide Inv, ArenaOk, CarveAt, GapArena, AlignFloor, Layout, Apart;
    match FirstGap(regions, size, least, most, 0) {
      case Some(i) =>
        if granted {
          var at := UnusedBetween(regions[i], regions[i + 1], size, least, most);
          var pages := GapArena(at, size, page);
          GapArenaApartExactly(st, size, least, most, regions, page, i);
          GapArenaHolds(at, size, page);
          if forall a <- st.arenas :: Apart(Span(a), pages) {
            AddArenaInv(st, pages.addr, pages.size);
            CarveAtInv(AddArena(st, pages.addr, pages.size), |st.arenas|, at, size);
          } else {
            var j :| 0 <= j < |st.arenas| && !Apart(Span(st.arenas[j]), pages);
            CarvedSpans(AddArena(st, pages.addr, pages.size), |st.arenas|, at, size, j);
            NotInv(CarveAt(AddArena(st, pages.addr, pages.size), |st.arenas|, at, size).st, j, |st.arenas|);
          }
        }
      case None =>
    }
  }

  /** Carving moves no arena. */
  lemma CarvedSpans(st: State, i: nat, at: nat, size: nat, j: nat)
    requires i < |st.arenas| && st.arenas[i].cursor <= at <= st.arenas[i].End() && j < |st.arenas|
    ensures var st' := CarveAt(st, i, at, size).st;
            && |st'.arenas| == |st.arenas| && Span(st'.arenas[j]) == Span(st.arenas[j])
               && Span(st'.arenas[i]) == Span(st.arenas[i])
  {
  }

  /**
    Near allocation keeps the invariant exactly if the request is safe: otherwise the arena it maps
    overlaps another one.
   */
  lemma NearAllocInvExactly(st: State, size: nat, pos: nat, range: nat, regions: seq<Range>, page: nat, granted: bool)
    requires Inv(st) && page > 0 && page % 4 == 0 && Layout(regions, st.arenas, page)
    ensures CursorsOk(st.arenas)
    ensures Inv(NearAlloc(st, size, pos, range, regions, page, granted).st)
            <==> NearSafe(st, size, Wrap(pos - range), Wrap(pos + range), regions, page, granted)
  {
    hide Inv, NearInArenas, NearInGaps, Layout, Wrap, Apart;
    CursorsFromInv(st);
    var least, most := Wrap(pos - range), Wrap(pos + range);
    NearOutcome(st, size, least, most, regions, page, granted);
    if FirstUnused(st.arenas, size, least, most, 0).Some? {
      NearInArenasInv(st, size, least, most);
    } else {
      NearInGapsInvExactly(st, size, least, most, regions, page, granted);
    }
  }

  lemma NotInv(st: State, i: nat, j: nat)
    requires i < j < |st.arenas| && !Apart(Span(st.arenas[i]), Span(st.arenas[j]))
    ensures !Inv(st)
  {
  }

  // ----- runs

  datatype Op =
    | Exec(size: nat, os: nat)
    | Near(size: nat, pos: nat, range: nat, regions: seq<Range>, granted: bool)

  /**
    What the operating system and the process look like when a request is made: a mapping is granted apart
    from all others or refused, and a near request is safe.
   */
  ghost predicate OpOk(st: State, op: Op, page: nat)
    requires page > 0
  {
    match op
    case Exec(size, os) => Answered(st, size, page, os)
    case Near(size, pos, range, regions, granted) =>
      Layout(regions, st.arenas, page)
          && NearSafe(st, size, Wrap(pos - range), Wrap(pos + range), regions, page, granted)
  }

  function Step(st: State, op: Op, page: nat): ExecResult
    requires page > 0 && CursorsOk(st.arenas)
  {
    match op
    case Exec(size, os) => ExecAlloc(st, size, page, os)
    case Near(size, pos, range, regions, granted) => NearAlloc(st, size, pos, range, regions, page, granted)
  }

  /** The request needs to grow and is refused. */
  predicate OpRefused(st: State, op: Op) { op.Exec? && Refused(st, op.size, op.os) }

  /**
    The states and results of a run from st, request by request. Nothing is asked of the requests behind
    one that broke the invariant, and the check behind the growth, if it fires, ends the process.
   */
  ghost predicate Run(st: State, ops: seq<Op>, page: nat, results: seq<ExecResult>)
    requires page > 0
    decreases |ops|
  {
    if ops == [] then results == []
    else
      && results != [] && CursorsOk(st.arenas) && (Inv(st) ==> OpOk(st, ops[0], page))
      && results[0] == Step(st, ops[0], page)
      && (ops[0].Exec? && results[0].block.None? ==> |ops| == 1)
      && Run(results[0].st, ops[1..], page, results[1..])
  }

  lemma StepInvExactly(st: State, op: Op, page: nat)
    requires Inv(st) && page > 0 && page % 4 == 0 && OpOk(st, op, page)
    ensures CursorsOk(st.arenas)
    ensures Inv(Step(st, op, page).st) <==> !OpRefused(st, op)
    ensures var r := Step(st, op, page);
            r.st.handed == if r.block.Some? then st.handed + [r.block.value] else st.handed
  {
    hide Inv, ExecAlloc, NearInArenas, NearInGaps, Layout, NearSafe, Wrap, Answered, Refused;
    CursorsFromInv(st);
    match op {
      case Exec(size, os) => ExecAllocInvExactly(st, size, page, os);
      case Near(size, pos, range, regions, granted) =>
        NearAllocInvExactly(st, size, pos, range, regions, page, granted);
        NearBlockBounds(st, size, Wrap(pos - range), Wrap(pos + range), regions, page, granted);
        NearNone(st, size, Wrap(pos - range), Wrap(pos + range), regions, page, granted);
    }
  }

  /** A request that fails hands out nothing. */
  lemma NearNone(st: State, size: nat, least: nat, most: nat, regions: seq<Range>, page: nat, granted: bool)
    requires page > 0 && CursorsOk(st.arenas)
    ensures NearInArenas(st, size, least, most).block.None? ==> NearInArenas(st, size, least, most).st == st
    ensures NearInGaps(st, size, least, most, regions, page, granted).block.None? ==>
              NearInGaps(st, size, least, most, regions, page, granted).st == st
  {
    NearOutcome(st, size, least, most, regions, page, granted);
  }

  /** The blocks of a run, in order. */
  function Blocks(results: seq<ExecResult>): seq<Range>
  {
    if results == [] then []
    else (if results[0].block.Some? then [results[0].block.value] else []) + Blocks(results[1..])
  }

  /** The state in which request k is made. */
  function Before(st: State, results: seq<ExecResult>, k: nat): State
    requires k <= |results|
  {
    if k == 0 then st else results[k - 1].st
  }

  /** No request up to k is refused. */
  ghost predicate NoneRefused(st: State, ops: seq<Op>, results: seq<ExecResult>, k: nat)
    requires |ops| == |results|
  {
    forall j :: 0 <= j <= k && j < |ops| ==> !OpRefused(Before(st, results, j), ops[j])
  }

  /** An arena at the null address stays. */
  ghost predicate HasNull(st: State) { exists i :: 0 <= i < |st.arenas| && st.arenas[i].addr == 0 }

  lemma NullStays(st: State, op: Op, page: nat)
    requires page > 0 && CursorsOk(st.arenas) && HasNull(st)
    ensures HasNull(Step(st, op, page).st)
  {
    hide Wrap, AllocMemBlock, FirstFit, FirstUnused, FirstGap, UnusedBetween, UnusedIn, GapArena, GrowthSize, CursorsOk;
    var i :| 0 <= i < |st.arenas| && st.arenas[i].addr == 0;
    assert |Step(st, op, page).st.arenas| >= |st.arenas| && Step(st, op, page).st.arenas[i].addr == 0;
  }

  lemma NullBreaks(st: State)
    requires HasNull(st)
    ensures !Inv(st)
  {
    var i :| 0 <= i < |st.arenas| && st.arenas[i].addr == 0;
    assert st.arenas[i] in st.arenas && !ArenaOk(st.arenas[i]);
  }

  lemma RefusedLeavesNull(st: State, size: nat, page: nat)
    requires page > 0 && CursorsOk(st.arenas) && Refused(st, size, 0)
    ensures HasNull(ExecAlloc(st, size, page, 0).st)
    ensures ExecAlloc(st, size, page, 0).block.Some? ==> ExecAlloc(st, size, page, 0).block.value.addr == 0
  {
    var arenas := ExecAlloc(st, size, page, 0).st.arenas;
    assert arenas[|st.arenas|].addr == 0;
  }

  lemma {:induction false} NullForGood(st: State, ops: seq<Op>, page: nat, results: seq<ExecResult>, k: nat)
    requires page > 0 && Run(st, ops, page, results) && HasNull(st) && k < |results|
    ensures HasNull(results[k].st)
    decreases |ops|
  {
    hide OpOk, Step, CursorsOk, HasNull, Inv;
    if ops != [] {
      NullStays(st, ops[0], page);
      if k > 0 {
        NullForGood(results[0].st, ops[1..], page, results[1..], k - 1);
      }
    }
  }

  lemma {:induction false} OneResultEach(st: State, ops: seq<Op>, page: nat, results: seq<ExecResult>)
    requires page > 0 && Run(st, ops, page, results)
    ensures |results| == |ops|
    decreases |ops|
  {
    hide Inv, OpOk, Step, CursorsOk;
    if ops != [] {
      OneResultEach(results[0].st, ops[1..], page, results[1..]);
    }
  }

  lemma NoneRefusedNext(st: State, ops: seq<Op>, results: seq<ExecResult>, k: nat)
    requires |ops| == |results| > 0
    ensures NoneRefused(st, ops, results, k) <==>
            !OpRefused(st, ops[0]) && (k == 0 || NoneRefused(results[0].st, ops[1..], results[1..], k - 1))
  {
    hide OpRefused;
    var st1, ops1, results1 := results[0].st, ops[1..], results[1..];
    assert Before(st, results, 0) == st;
    if k > 0 && NoneRefused(st1, ops1, results1, k - 1) && !OpRefused(st, ops[0]) {
      forall j | 0 <= j <= k && j < |ops|
        ensures !OpRefused(Before(st, results, j), ops[j])
      {
        assert j > 0 ==> Before(st, results, j) == Before(st1, results1, j - 1) && ops[j] == ops1[j - 1];
      }
    }
    if k > 0 && NoneRefused(st, ops, results, k) {
      forall j | 0 <= j <= k - 1 && j < |ops1|
        ensures !OpRefused(Before(st1, results1, j), ops1[j])
      {
        assert Before(st, results, j + 1) == Before(st1, results1, j) && ops[j + 1] == ops1[j];
      }
    }
  }

  /**
    Over every run of exec and near requests, the invariant holds behind a request exactly if none up to
    it was refused; and the state holds all the blocks handed out.
   */
  lemma {:induction false} RunsKeepInvExactly(st: State, ops: seq<Op>, page: nat, results: seq<ExecResult>, k: nat)
    requires Inv(st) && page > 0 && page % 4 == 0 && Run(st, ops, page, results) && k < |results|
    ensures |results| == |ops|
    ensures Inv(results[k].st) <==> NoneRefused(st, ops, results, k)
    ensures Inv(results[k].st) ==> results[k].st.handed == st.handed + Blocks(results[..k + 1])
    decreases |ops|
  {
    hide Inv, OpOk, Step, CursorsOk, HasNull, NoneRefused, OpRefused, Run;
    OneResultEach(st, ops, page, results);
    FirstOfRun(st, ops, page, results);
    StepInvExactly(st, ops[0], page);
    NoneRefusedNext(st, ops, results, k);
    BlocksNext(results, k);
    assert k == 0 ==> results[1..][..k] == [];
    if k > 0 {
      if OpRefused(st, ops[0]) {
        NullFromRefused(st, ops[0], page);
        NullForGood(results[0].st, ops[1..], page, results[1..], k - 1);
        NullBreaks(results[k].st);
      } else {
        RunsKeepInvExactly(results[0].st, ops[1..], page, results[1..], k - 1);
        HandedOn(st.handed, results[0], Blocks(results[1..][..k]));
      }
    }
  }

  lemma FirstOfRun(st: State, ops: seq<Op>, page: nat, results: seq<ExecResult>)
    requires page > 0 && Run(st, ops, page, results) && results != []
    ensures ops != [] && CursorsOk(st.arenas) && results[0] == Step(st, ops[0], page)
    ensures (Inv(st) ==> OpOk(st, ops[0], page)) && Run(results[0].st, ops[1..], page, results[1..])
    ensures ops[0].Exec? && results[0].block.None? ==> |ops| == 1
  {
  }

  lemma NullFromRefused(st: State, op: Op, page: nat)
    requires page > 0 && CursorsOk(st.arenas) && OpRefused(st, op)
    ensures HasNull(Step(st, op, page).st)
    ensures Step(st, op, page).block.Some? ==> Step(st, op, page).block.value.addr == 0
  {
    hide HasNull, ExecAlloc, FirstFit;
    RefusedLeavesNull(st, op.size, page);
  }

  /** The block of a result, if it has one. */
  function BlockIn(r: ExecResult): seq<Range> { if r.block.Some? then [r.block.value] else [] }

  lemma BlocksNext(results: seq<ExecResult>, k: nat)
    requires k < |results|
    ensures Blocks(results[..k + 1]) == BlockIn(results[0]) + Blocks(results[1..][..k])
  {
    assert results[..k + 1][1..] == results[1..][..k];
  }

  /** What is handed out first, and the rest. */
  lemma HandedOn(handed: seq<Range>, r: ExecResult, rest: seq<Range>)
    requires r.st.handed == if r.block.Some? then handed + [r.block.value] else handed
    ensures r.st.handed + rest == handed + (BlockIn(r) + rest)
  {
    ConcatAssociates(handed, BlockIn(r), rest);
    assert handed + [] == handed;
  }

  /** No request that was given a block was refused: one that was refused and given none ended the process. */
  ghost predicate NoneServedNull(st: State, ops: seq<Op>, results: seq<ExecResult>)
    requires |ops| == |results|
  {
    forall j :: 0 <= j < |ops| && OpRefused(Before(st, results, j), ops[j]) ==> results[j].block.None?
  }

  /** The state a run ends in. */
  function EndOf(st: State, results: seq<ExecResult>): State { Before(st, results, |results|) }

  /** The block is inside an arena that is mapped. */
  ghost predicate InMapped(arenas: seq<Arena>, b: Range)
  {
    exists i :: 0 <= i < |arenas| && 0 < arenas[i].addr <= b.addr && b.End() <= arenas[i].End()
  }

  /** All blocks of the state are in mapped memory and pairwise apart. */
  ghost predicate AllMapped(st: State)
  {
    && (forall h <- st.handed :: InMapped(st.arenas, h))
    && forall i, j :: 0 <= i < j < |st.handed| ==> Apart(st.handed[i], st.handed[j])
  }

  lemma InvMapped(st: State)
    requires Inv(st)
    ensures AllMapped(st)
  {
    forall h | h in st.handed
      ensures InMapped(st.arenas, h)
    {
      var i :| 0 <= i < |st.arenas| && st.arenas[i].addr <= h.addr && h.End() <= st.arenas[i].cursor;
      assert ArenaOk(st.arenas[i]);
    }
  }

  /** The check that ends the process takes nothing away. */
  lemma MappedAtCheck(st: State, size: nat, page: nat)
    requires Inv(st) && page > 0 && Refused(st, size, 0)
    ensures CursorsOk(st.arenas)
    ensures ExecAlloc(st, size, page, 0).block.None? ==> AllMapped(ExecAlloc(st, size, page, 0).st)
  {
    hide FirstFit, GrowthSize;
    CursorsFromInv(st);
    InvMapped(st);
    var r := ExecAlloc(st, size, page, 0);
    if r.block.None? {
      forall h | h in r.st.handed
        ensures InMapped(r.st.arenas, h)
      {
        var i :| 0 <= i < |st.arenas| && 0 < st.arenas[i].addr <= h.addr && h.End() <= st.arenas[i].End();
        assert r.st.arenas[i] == st.arenas[i];
      }
    }
  }

  lemma NothingHanded(st: State, results: seq<ExecResult>)
    requires results == []
    ensures EndOf(st, results) == st && st.handed + Blocks(results) == st.handed
  {
  }

  lemma HandedFirst(st: State, results: seq<ExecResult>)
    requires results != []
    requires results[0].st.handed == if results[0].block.Some? then st.handed + [results[0].block.value] else st.handed
    ensures results[0].st.handed + Blocks(results[1..]) == st.handed + Blocks(results)
  {
    HandedOn(st.handed, results[0], Blocks(results[1..]));
  }

  lemma NoneServedNext(st: State, ops: seq<Op>, results: seq<ExecResult>)
    requires |ops| == |results| > 0 && NoneServedNull(st, ops, results)
    ensures OpRefused(st, ops[0]) ==> results[0].block.None?
    ensures NoneServedNull(results[0].st, ops[1..], results[1..])
    ensures EndOf(st, results) == EndOf(results[0].st, results[1..])
  {
    hide OpRefused;
    assert Before(st, results, 0) == st;
    forall j | 0 <= j < |ops[1..]| && OpRefused(Before(results[0].st, results[1..], j), ops[1..][j])
      ensures results[1..][j].block.None?
    {
      assert Before(st, results, j + 1) == Before(results[0].st, results[1..], j) && ops[j + 1] == ops[1..][j];
    }
  }

  lemma {:induction false} RunEndsMapped(st: State, ops: seq<Op>, page: nat, results: seq<ExecResult>)
    requires Inv(st) && page > 0 && page % 4 == 0 && Run(st, ops, page, results)
    requires |ops| == |results| && NoneServedNull(st, ops, results)
    ensures AllMapped(EndOf(st, results)) && EndOf(st, results).handed == st.handed + Blocks(results)
    decreases |ops|
  {
    hide Inv, OpOk, Step, CursorsOk, AllMapped, OpRefused, Run, NoneServedNull, EndOf, Blocks;
    if ops == [] {
      InvMapped(st);
      NothingHanded(st, results);
    } else {
      FirstOfRun(st, ops, page, results);
      StepInvExactly(st, ops[0], page);
      NoneServedNext(st, ops, results);
      HandedFirst(st, results);
      if OpRefused(st, ops[0]) {
        CheckEnds(st, ops[0], page);
        NothingHanded(results[0].st, results[1..]);
      } else {
        RunEndsMapped(results[0].st, ops[1..], page, results[1..]);
      }
    }
  }

  lemma CheckEnds(st: State, op: Op, page: nat)
    requires Inv(st) && page > 0 && OpRefused(st, op)
    ensures op.Exec? && CursorsOk(st.arenas)
    ensures var r := Step(st, op, page); r.block.None? ==> AllMapped(r.st) && r.st.handed == st.handed
  {
    hide Inv, AllMapped, FirstFit;
    MappedAtCheck(st, op.size, page);
  }

  lemma {:induction false} BlockOf(results: seq<ExecResult>, k: nat)
    requires k < |results| && results[k].block.Some?
    ensures results[k].block.value in Blocks(results)
  {
    if k > 0 {
      BlockOf(results[1..], k - 1);
    }
  }

  lemma {:induction false} CursorsInRun(st: State, ops: seq<Op>, page: nat, results: seq<ExecResult>, k: nat)
    requires page > 0 && Run(st, ops, page, results) && k < |results| == |ops|
    ensures CursorsOk(Before(st, results, k).arenas) && results[k] == Step(Before(st, results, k), ops[k], page)
    decreases |ops|
  {
    hide Inv, OpOk, Step, CursorsOk;
    if k > 0 {
      CursorsInRun(results[0].st, ops[1..], page, results[1..], k - 1);
    }
  }

  /**
    Over every run: the blocks handed out are in mapped memory exactly if no request was given one although
    its growth was refused; and then they are pairwise disjoint.
   */
  lemma RunsMappedExactly(ops: seq<Op>, page: nat, results: seq<ExecResult>)
    requires page > 0 && page % 4 == 0 && Run(State([], []), ops, page, results)
    ensures |results| == |ops|
    ensures var st, blocks := State([], []), Blocks(results);
            && ((forall b <- blocks :: InMapped(EndOf(st, results).arenas, b)) <==> NoneServedNull(st, ops, results))
            && (NoneServedNull(st, ops, results) ==> forall i, j :: 0 <= i < j < |blocks| ==>
                 Apart(blocks[i], blocks[j]))
  {
    hide Run, OpRefused, Step, CursorsOk;
    var st := State([], []);
    OneResultEach(st, ops, page, results);
    if NoneServedNull(st, ops, results) {
      RunEndsMapped(st, ops, page, results);
      assert st.handed + Blocks(results) == Blocks(results);
    } else {
      var j :| 0 <= j < |ops| && OpRefused(Before(st, results, j), ops[j]) && results[j].block.Some?;
      CursorsInRun(st, ops, page, results, j);
      NullFromRefused(Before(st, results, j), ops[j], page);
      BlockOf(results, j);
    }
  }

  // ----- the request that is not safe

  const NO_SLACK: seq<Range> := [Range(0x6000, 0x1000), Range(0x8000, 0x1000)]
  const FIRST: State := State([Arena(0x8000, 0x1000, 0x9000, [0x1000])], [Range(0x8000, 0x1000)])
  const SECOND: State := State([Arena(0x8000, 0x1000, 0x9000, [0x1000]), Arena(0x7000, 0x2000, 0x8000, [0, 0x1000])],
                               [Range(0x8000, 0x1000), Range(0x7000, 0x1000)])

  lemma FirstRequest()
    ensures OpOk(State([], []), Exec(0x1000, 0x8000), 0x1000)
    ensures Step(State([], []), Exec(0x1000, 0x8000), 0x1000) == ExecResult(FIRST, Some(Range(0x8000, 0x1000)))
  {
    assert FirstFit([], 0x1000, 0).None? && GrowthSize(0x1000, 0x1000) == 0x1000;
    var grown := AddArena(State([], []), 0x8000, 0x1000);
    assert grown.arenas == [Arena(0x8000, 0x1000, 0x8000, [])];
    assert AllocMemBlock(grown.arenas[0], 0x1000).0.carved == [0x1000];
    assert Carve(grown, 0, 0x1000, true).arenas == FIRST.arenas && Carve(grown, 0, 0x1000, true).handed == FIRST.handed;
  }

  lemma SecondSearch()
    ensures FirstUnused(FIRST.arenas, 0x1000, 0x6000, 0xA000, 0).None?
    ensures FirstGap(NO_SLACK, 0x1000, 0x6000, 0xA000, 0) == Some(0)
    ensures UnusedBetween(NO_SLACK[0], NO_SLACK[1], 0x1000, 0x6000, 0xA000) == 0x7000
    ensures GapArena(0x7000, 0x1000, 0x1000) == Range(0x7000, 0x2000)
  {
    assert UnusedIn(FIRST.arenas[0], 0x1000, 0x6000, 0xA000) == 0;
    assert UnusedBetween(NO_SLACK[0], NO_SLACK[1], 0x1000, 0x6000, 0xA000) == 0x7000;
  }

  lemma SecondCarve()
    ensures var added := AddArena(FIRST, 0x7000, 0x2000);
            |added.arenas| == 2 && added.arenas[1].cursor <= 0x7000 <= added.arenas[1].End()
            && CarveAt(added, 1, 0x7000, 0x1000) == ExecResult(SECOND, Some(Range(0x7000, 0x1000)))
  {
    var added, arena := AddArena(FIRST, 0x7000, 0x2000), FIRST.arenas[0];
    assert added.arenas == [arena, Arena(0x7000, 0x2000, 0x7000, [])];
    var skipped := Carve(added, 1, 0, false);
    assert AllocMemBlock(added.arenas[1], 0).0.carved == [0];
    assert skipped.arenas == [arena, Arena(0x7000, 0x2000, 0x7000, [0])];
    assert AllocMemBlock(skipped.arenas[1], 0x1000).0.carved == [0, 0x1000];
    assert Carve(skipped, 1, 0x1000, true).arenas == SECOND.arenas
           && Carve(skipped, 1, 0x1000, true).handed == SECOND.handed;
  }

  lemma SecondRequest()
    ensures CursorsOk(FIRST.arenas) && Layout(NO_SLACK, FIRST.arenas, 0x1000)
    ensures !NearSafe(FIRST, 0x1000, 0x6000, 0xA000, NO_SLACK, 0x1000, true)
    ensures Step(FIRST, Near(0x1000, 0x8000, 0x2000, NO_SLACK, true), 0x1000)
            == ExecResult(SECOND, Some(Range(0x7000, 0x1000)))
  {
    hide Layout, CursorsOk, NearSafe, FirstUnused, FirstGap, UnusedBetween, GapArena, CarveAt, AddArena;
    SecondLayout();
    SecondUnsafe();
    SecondSearch();
    SecondCarve();
    assert Wrap(0x8000 - 0x2000) == 0x6000 && Wrap(0x8000 + 0x2000) == 0xA000;
  }

  lemma SecondLayout()
    ensures CursorsOk(FIRST.arenas) && Layout(NO_SLACK, FIRST.arenas, 0x1000)
  {
    assert FIRST.arenas == [Arena(0x8000, 0x1000, 0x9000, [0x1000])];
    assert NO_SLACK[0] == Range(0x6000, 0x1000) && NO_SLACK[1] == Range(0x8000, 0x1000);
    hide FIRST, NO_SLACK;
  }

  lemma SecondUnsafe()
    ensures !NearSafe(FIRST, 0x1000, 0x6000, 0xA000, NO_SLACK, 0x1000, true)
  {
    hide FirstUnused, FirstGap, UnusedBetween, GapArena;
    SecondSearch();
    assert FIRST.arenas[0] in FIRST.arenas;
  }

  lemma ThirdRequest()
    ensures CursorsOk(SECOND.arenas)
    ensures OpOk(SECOND, Exec(0x1000, 0), 0x1000)
    ensures Step(SECOND, Exec(0x1000, 0), 0x1000).block == Some(Range(0x8000, 0x1000))
  {
    assert FirstFit(SECOND.arenas, 0x1000, 0) == Some(1);
  }

  /**
    Three requests of a page, the second of which exactly fills the gap in front of the arena of the
    first: the third is handed the very block the first one was.
   */
  lemma ExactFitHandsOutTwice()
    ensures OpOk(State([], []), Exec(0x1000, 0x8000), 0x1000)
    ensures var r1 := Step(State([], []), Exec(0x1000, 0x8000), 0x1000);
            && CursorsOk(r1.st.arenas) && Layout(NO_SLACK, r1.st.arenas, 0x1000)
            && var r2 := Step(r1.st, Near(0x1000, 0x8000, 0x2000, NO_SLACK, true), 0x1000);
               && CursorsOk(r2.st.arenas) && OpOk(r2.st, Exec(0x1000, 0), 0x1000)
               && var r3 := Step(r2.st, Exec(0x1000, 0), 0x1000);
                  r1.block == r3.block == Some(Range(0x8000, 0x1000))
  {
    hide Step, OpOk, Layout, CursorsOk;
    FirstRequest();
    SecondRequest();
    ThirdRequest();
  }
}
