/**
  Where the near allocator and the x86-64 relocator meet: the range the relocator asks for is
  what makes the displacement of a detour sequence fit.
 */
module X64Detours {
  import opened Words
  import opened X64Isa
  import opened X64Relocation
  import X64Simulation
  import A = Allocator

  /** jmp_near_range */
  const NEAR_RANGE := 0x8000_0000

  /**
    A detour sequence allocated around its operand, with the operand at least the range away from
    both ends of the address space, is near enough for RelocationSimulates.
   */
  lemma DetourIsNear(d: Insn, ip: u64, st: A.State, regions: seq<A.Range>, page: nat, granted: bool)
    requires WellFormed(d) && UsesDetour(d) && page > 0 && A.CursorsOk(st.arenas)
    requires d.dispOffset + 4 <= |d.bytes| && NEAR_RANGE <= MemTarget(d, ip) && MemTarget(d, ip) + NEAR_RANGE < TWO64
    ensures var r := A.NearAlloc(st, DetourLength(d), MemTarget(d, ip), NEAR_RANGE, regions, page, granted);
            r.block.Some? ==>
              && r.block.value.size == |Detour(d, ip, 0, 0)|
              && r.block.value.addr < TWO64
              && X64Simulation.Near(d, ip, r.block.value.addr)
  {
    A.NearBlockInRange(st, DetourLength(d), MemTarget(d, ip), NEAR_RANGE, regions, page, granted);
  }
}
