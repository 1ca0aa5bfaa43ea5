# Verification of the native hooking and symbol engines

This project models the cores of an Android native toolkit in Dafny and proves what they are for:

- **Instruction relocation**, a small compiler: the instructions a hook overwrites are rewritten to run elsewhere.
  `Arm64Codec`, `Arm64Isa`, `Arm64Emit`, `Arm64Relocation`, `Arm64Simulation`, `Arm64Installation`, `Arm64Relocator`,
  `Arm64Returns`, `Arm64Trampoline` and `Arm64Prologue` model the A64 side on machine words, `X64Isa`, `X64Relocation`,
  `X64Simulation`, `X64Returns`, `X64Installation`, `X64Relocator`, `X64Detours`, `X64Placement` and `X64Prologue` the
  x86-64 side on bytes.
  Each has a machine model, the emitted code as a function, the program's loops proved to emit it, and a forward simulation
  from original to relocated runs, through calls and their returns.
- **The hash map** of TINYSTL (`HashMap`): one doubly linked list threaded through all buckets, on the heap.
- **The buffer** of TINYSTL (`Buffer`), with insertion from itself.
- **Symbol lookup** in ELF files (`SymbolHashes`, `SymbolTables`, `AddressLookup`) and in Mach-O export tries (`ExportTrie`).
- **Executable memory** (`Allocator`, `AllocatorObjects`): bump arenas and the near allocator.
- **Hooks** (`Hooks`, `HookSites`, `HookObjects`): installation and destruction as a state machine over code memory, and what
  a live hook does when it is called, with the trampolines and relocators above.
- **Three small cores**: `Stpcpy` (word-at-a-time copy), `Unwind` (frame-pointer unwinder), `ThumbCodec` (branch offsets).

`Words` and `Bits` hold machine words, bitwise operators and the arithmetic of remainders. Words are integers with explicit
reduction; A64 semantics follow section C6.2 of the Arm Architecture Reference Manual (DDI 0487). Classes and loops follow
the source where it updates state in place, and are proved against functions about which the properties are stated.

## What the proofs found

Each of these is a lemma of the model, or (`xdl_sym_is_match`) a branch it follows as written.

- A W-form literal load is relocated to a 64-bit load, and a SIMD literal load to a general-register load.
- The B.cond test takes the leading byte 0x55 too, and conditions 0b1110 and 0b1111 are not negated by flipping a bit.
- The A64 trampoline misses its target when the two pages are exactly 2^20 apart and the addresses less than 2^32.
- The x86 relocator looks at the primary opcode only: it copies `0F 8x` jumps and XBEGIN with their displacement, and takes
  `0F 7x` and `0F EB`, which are no jumps, for the jumps `7x` and `EB`, as far as its decoder passes them on.
- A near block that exactly fills a gap makes the allocator map one page too many, over the next region; if an arena is
  there, a block already handed out is handed out again.
- An arena whose mapping the system refuses is registered at the null address, and serves requests from there on.
- The size of a new arena is truncated to 32 bits; the check behind the growth then fires.
- DobbyHook ignores a failed relocation.
- The walk over an export trie never ends on edges without labels that lead in a circle.
- `xdl_sym_is_match` means to skip undefined symbols, but the statement for it (`false;`) has no effect.
- The order check of the unwinder wraps around at 2^64 - 16; a stack that contains this address can hold an endless walk.

## Model

| member | source | states |
|---|---|---|
| Arm64Simulation.RelocationSimulates | src/main/cpp/hook/Dobby/source/InstructionRelocation/arm64/InstructionRelocationARM64.cc:151-344 | Relocation preserves meaning over whole runs: from any word of the window, the relocated code entered at that word's relocated offset reaches, in some number of steps, the address at which the original run leaves the window (outside target, or end of the window by the branch back), with the same state, stack pointer and memory included, but for X17; a call leaves the relocated image of its next instruction in X30. Asked of the run, at the words it executes: that each is one the relocator has a form for, and that it does not overwrite the relocated code |
| Arm64Simulation.SupportedWindowSimulates | src/main/cpp/hook/Dobby/source/InstructionRelocation/arm64/InstructionRelocationARM64.cc:151-344 | For windows made of the words the relocator handles, the same from every word and in every state, for every run that does not overwrite the relocated code |
| Arm64Simulation.InterpretedWindowSimulates | src/main/cpp/hook/Dobby/source/InstructionRelocation/arm64/InstructionRelocationARM64.cc:151-344 | For windows made of branches, address computations, moves and loads, the same from every word and in every state, with nothing asked of the run: none of them stores |
| Arm64Returns.RunsThroughCalls | src/main/cpp/hook/Dobby/source/InstructionRelocation/arm64/InstructionRelocationARM64.cc:151-344 | Runs that call and are returned to: from states that agree but for dead memory, X17 and a link the run does not read, through any number of calls to the address at which the original run leaves the window for good, in states that agree the same way; and in X30 too, unless a call has set it and no word since has settled it |
| Arm64Returns.InterpretedCarried | src/main/cpp/hook/Dobby/source/InstructionRelocation/arm64/InstructionRelocationARM64.cc:151-344 | What that asks of each word is met by every interpreted word the relocator preserves that reads neither dead memory nor an X30 that may differ |
| Arm64Returns.LeafReturns | src/main/cpp/hook/Dobby/source/InstructionRelocation/arm64/InstructionRelocationARM64.cc:174-190 | What it asks of a callee is met by a mere ret |
| Arm64Prologue.PrologueSimulates | src/main/cpp/hook/Dobby/source/InstructionRelocation/arm64/InstructionRelocationARM64.cc:151-344 | The same with nothing assumed of the instructions: a window that begins with the real store of a frame record, stp x29, x30, [sp, #-16]!, and goes on with mov x29, sp and words the relocator handles, simulated for every stack apart from the relocated code; the record is in memory and the stack pointer has moved by 16 |
| Arm64Simulation.InsnSimulated | src/main/cpp/hook/Dobby/source/InstructionRelocation/arm64/InstructionRelocationARM64.cc:173-319 | Each preserved word: its emitted sequence, run from its place, ends in the counterpart state, at the outside target if the branch is taken and at the image of the next word otherwise; words left as they are may use the stack pointer and system state |
| Arm64Simulation.LdrLiteralExactly | src/main/cpp/hook/Dobby/source/InstructionRelocation/arm64/InstructionRelocationARM64.cc:192-210 | The replacement of a literal load does what the load did exactly if it is a 64-bit one, or its register is X17 or XZR, or the word behind a 32-bit literal is zero (the replacement is always a 64-bit load), or, for the SIMD forms it also matches, if no register ends up different |
| Arm64Simulation.InvertedCondition | src/main/cpp/hook/Dobby/source/InstructionRelocation/arm64/InstructionRelocationARM64.cc:244-246 | Flipping the low bit of a condition negates it, in any flags, exactly if it is below 0b1110; the two others hold always, flipped or not |
| Arm64Simulation.BCondSimulated | src/main/cpp/hook/Dobby/source/InstructionRelocation/arm64/InstructionRelocationARM64.cc:236-262 | B.cond below 0b1110: the inverted branch over a literal branch reaches the original target when taken and the next image when not |
| Arm64Simulation.CompareBSimulated | src/main/cpp/hook/Dobby/source/InstructionRelocation/arm64/InstructionRelocationARM64.cc:263-289 | CBZ and CBNZ: the same, for any register but X17 |
| Arm64Simulation.TestBSimulated | src/main/cpp/hook/Dobby/source/InstructionRelocation/arm64/InstructionRelocationARM64.cc:290-316 | TBZ and TBNZ: the same, for any register but X17 |
| Arm64Simulation.BBlSimulated | src/main/cpp/hook/Dobby/source/InstructionRelocation/arm64/InstructionRelocationARM64.cc:174-190 | B and BL: a literal branch to the same address; BL leaves the image of its next word in X30 |
| Arm64Simulation.AdrSimulated | src/main/cpp/hook/Dobby/source/InstructionRelocation/arm64/InstructionRelocationARM64.cc:211-235 | ADR and ADRP: the four moves load exactly what the instruction computed at its original address |
| Arm64Simulation.Classes | src/main/cpp/hook/Dobby/source/InstructionRelocation/arm64/InstructionRelocationARM64.cc:121-147 | The classifiers exclude each other and match exactly the instructions they are named for, except that the B.cond test also takes leading byte 0x55 and the literal test all SIMD forms |
| Arm64Relocation.RelocatesExactly | src/main/cpp/hook/Dobby/source/InstructionRelocation/arm64/InstructionRelocationARM64.cc:199-209 | Relocation aborts on exactly the windows that hold a literal load with opc 2 or 3 |
| Arm64Relocation.BranchBehind | src/main/cpp/hook/Dobby/source/InstructionRelocation/arm64/InstructionRelocationARM64.cc:325-343 | With the branch back the words and labels are those without it, and then the branch |
| Arm64Relocator.RelocationContext.Relocate | src/main/cpp/hook/Dobby/source/InstructionRelocation/arm64/InstructionRelocationARM64.cc:151-344 | The loop with its assembler, labels and offset map produces the code of the relocation function, the offset map of every word and the window length, or the abort |
| Arm64Relocator.OffsetMapEntries | src/main/cpp/hook/Dobby/source/InstructionRelocation/arm64/InstructionRelocationARM64.cc:160-162 | The offset map holds for each word exactly its relocated offset, and nothing else |
| Arm64Relocator.TurboAssembler.RelocBind | src/main/cpp/hook/Dobby/source/core/assembler/assembler.cc:31-44 | Binding the labels of the assembler appends each label's data and patches the one load that refers to it, as Bind does |
| Arm64Emit.BindPatches | src/main/cpp/hook/Dobby/source/core/assembler/assembler-arm64.cc:6-21 | After binding, every label's load carries the distance to its data, and the data is there |
| Arm64Emit.BindKeeps | src/main/cpp/hook/Dobby/source/core/assembler/assembler-arm64.cc:6-21 | and every word no label refers to is what was emitted |
| Arm64Installation.WindowInstalls | src/main/cpp/hook/Dobby/source/InstructionRelocation/arm64/InstructionRelocationARM64.cc:325-343 | What the simulation asks of memory can be met for every window of up to 52000 words that is not given up on, wherever five words a word and four more fit |
| Arm64Installation.InsnSize | src/main/cpp/hook/Dobby/source/InstructionRelocation/arm64/InstructionRelocationARM64.cc:174-319 | A word is relocated to at most five, the data of its label included |
| Arm64Installation.RelocatedSize | src/main/cpp/hook/Dobby/source/InstructionRelocation/arm64/InstructionRelocationARM64.cc:325-343 | so with the branch back a relocation has at most five words a word and four more |
| Arm64Codec.Imm14RoundTrip | src/main/cpp/hook/Dobby/source/InstructionRelocation/arm64/inst_decode_encode_kit.h:16-29 | decode inverts encode exactly on the multiples of 4 in 16 signed bits; encode inverts decode; all other fields are kept |
| Arm64Codec.Imm19RoundTrip | src/main/cpp/hook/Dobby/source/InstructionRelocation/arm64/inst_decode_encode_kit.h:31-45 | the same for 21 signed bits |
| Arm64Codec.Imm26RoundTrip | src/main/cpp/hook/Dobby/source/InstructionRelocation/arm64/inst_decode_encode_kit.h:47-60 | the same for 28 signed bits |
| Arm64Codec.AdrRoundTrip | src/main/cpp/hook/Dobby/source/InstructionRelocation/arm64/inst_decode_encode_kit.h:62-92 | the same for the split immhi:immlo immediate, on all 21-bit offsets |
| Arm64Codec.AdrpRoundTrip | src/main/cpp/hook/Dobby/source/InstructionRelocation/arm64/inst_decode_encode_kit.h:94-102 | the same for page offsets: exactly the multiples of 4096 in 33 signed bits |
| Arm64Codec.TruncPageOfSum | src/main/cpp/hook/Dobby/source/InstructionRelocation/arm64/InstructionRelocationARM64.cc:223-234 | Truncating pc plus the ADRP immediate to a page is the page of pc plus the immediate, modulo 2^64 |
| Arm64Trampoline.TrampolineReachesExactly | src/main/cpp/hook/Dobby/source/TrampolineBridge/Trampoline/arm64/trampoline_arm64.cc:15-41 | A trampoline run from where it is written reaches the replacement, changing X17 alone, exactly if it is the literal form or the distance in pages is not 2^20: the distance check of the near form lets that one delta through |
| Arm64Trampoline.PageDeltaTooFar | src/main/cpp/hook/Dobby/source/TrampolineBridge/Trampoline/arm64/trampoline_arm64.cc:19-24 | Two addresses less than 4 GB apart for which it does not |
| X64Simulation.RelocationSimulates | src/main/cpp/hook/Dobby/source/InstructionRelocation/x64/InstructionRelocationX64.cc:16-69 | Byte-level relocation preserves meaning over whole runs: from any instruction of the window the relocated bytes, with their detour sequences, reach the address at which the original run leaves the window, with the machine the original run has there but for the return address a call pushes, or a system call leaves in RCX, and that address leads on to the image of the next instruction in every machine that still holds the relocation; asked only of the instructions the run executes is that they do not overwrite the relocated bytes |
| X64Simulation.LinkLeadsOn | src/main/cpp/hook/Dobby/source/InstructionRelocation/x86/InstructionRelocationX86Shared.cc:157-169 | The return address of any call in the window, near, far or into the kernel: in every machine that holds the relocated bytes, whatever else the callee has changed, it leads on to the image of the next instruction |
| X64Returns.RunsThroughCalls | src/main/cpp/hook/Dobby/source/InstructionRelocation/x64/InstructionRelocationX64.cc:16-69 | Runs that call and are returned to: from machines that agree but for dead memory and perhaps RCX, through any number of calls and system calls to the address at which the original run leaves the window for good, in machines that agree the same way; and in RCX too, unless a system call has left its return address there and nothing since has settled it |
| X64Returns.RelJumpCarried | src/main/cpp/hook/Dobby/source/InstructionRelocation/x86/InstructionRelocationX86Shared.cc:54-183 | What that asks of each instruction is met by all relative jumps and calls, whatever is dead or differs |
| X64Returns.MemJumpCarried | src/main/cpp/hook/Dobby/source/InstructionRelocation/x86/InstructionRelocationX86Shared.cc:85-126 | and by RIP-relative jumps and calls through memory that is not dead |
| X64Returns.LeafReturns | src/main/cpp/hook/Dobby/source/InstructionRelocation/x86/InstructionRelocationX86Shared.cc:157-169 | What it asks of a callee is met by a mere ret |
| X64Returns.SystemReturns | src/main/cpp/hook/Dobby/source/InstructionRelocation/x86/InstructionRelocationX86Shared.cc:184-186 | What it asks of a system call and of the kernel is met if the kernel is a mere SYSRET |
| X64Prologue.PrologueSimulates | src/main/cpp/hook/Dobby/source/InstructionRelocation/x64/InstructionRelocationX64.cc:16-69 | The same for windows that begin with the real push rbp, followed by mov rbp, rsp, jumps and calls, for every stack apart from the relocated code and its detours |
| X64Simulation.InsnSimulated | src/main/cpp/hook/Dobby/source/InstructionRelocation/x86/InstructionRelocationX86Shared.cc:34-195 | Each instruction in scope: the bytes emitted for it reach the counterpart of its effect; the return address a relocated call pushes leads on to the image of the next instruction |
| X64Simulation.CopiedCallSimulated | src/main/cpp/hook/Dobby/source/InstructionRelocation/x86/InstructionRelocationX86Shared.cc:184-186 | Calls through a register or plain memory operand, far calls and SYSCALL are copied: that very instruction is fetched at its place and executed, and goes where the original goes; the return address it pushes, or that SYSCALL leaves in RCX, is the image of the next instruction |
| X64Relocation.JccRuns | src/main/cpp/hook/Dobby/source/InstructionRelocation/x86/InstructionRelocationX86Shared.cc:66-79 | The four-part jcc sequence goes to the original target if the condition holds and behind the sequence if not, touching nothing |
| X64Relocation.CallRuns | src/main/cpp/hook/Dobby/source/InstructionRelocation/x86/InstructionRelocationX86Shared.cc:157-169 | The call through the slot pushes the address of the short jump, which leads over the slot |
| X64Relocation.DetourOperand | src/main/cpp/hook/Dobby/source/InstructionRelocation/x86/InstructionRelocationX86Shared.cc:106-126 | A detoured instruction reaches its original operand exactly if the distance fits in 32 signed bits, up to whole turns of the address space |
| X64Simulation.CopiedJumpExactly | src/main/cpp/hook/Dobby/source/InstructionRelocation/x86/InstructionRelocationX86Shared.cc:184-186 | The long conditional jumps and XBEGIN are copied verbatim and executed at their place: one that falls through does what it should, and one that is taken, or a transaction that does not begin, leads to the right address exactly if the code has not moved |
| X64Simulation.EscapedTakenForJcc | src/main/cpp/hook/Dobby/source/InstructionRelocation/x86/InstructionRelocationX86Shared.cc:54-79 | An instruction 0F 7x, which is no jump, is relocated as the conditional jump 7x: its replacement goes to a target made of its immediate, or to the next instruction if the decoder has read none, if that condition holds, and has no other effect; unless the instruction transfers control, this is what it does exactly if it leaves the machine as it is and the condition fails or the immediate leads to the next instruction |
| X64Simulation.EscapedTakenForJump | src/main/cpp/hook/Dobby/source/InstructionRelocation/x86/InstructionRelocationX86Shared.cc:129-183 | An instruction 0F EB is relocated as the jump EB, with a target made of its immediate, 0 if there is none; 0F E0 to E3, 0F E8 and 0F E9 abort the relocation |
| X64Relocation.AbortsExactly | src/main/cpp/hook/Dobby/source/InstructionRelocation/x86/InstructionRelocationX86Shared.cc:143-183 | Relocation aborts exactly if some instruction is LOOP or JCXZ, or an E8 or E9 whose immediate is not at offset 1 |
| X64Relocation.BranchBehind | src/main/cpp/hook/Dobby/source/InstructionRelocation/x64/InstructionRelocationX64.cc:41-46 | With the branch back the bytes and detours are those without it, and then the jump |
| X64Relocator.RelocateLoop | src/main/cpp/hook/Dobby/source/InstructionRelocation/x64/InstructionRelocationX64.cc:23-40 | The window loop takes whole instructions until the size is covered and emits what the relocation function does |
| X64Relocator.GenRelocateCodeFixed | src/main/cpp/hook/Dobby/source/InstructionRelocation/x64/InstructionRelocationX64.cc:16-69 | The relocation with its branch back, the rounding of the window, and the failure (with the window rounded all the same) when the block is too small |
| X64Relocator.CoveringFixed | src/main/cpp/hook/Dobby/source/InstructionRelocation/x64/InstructionRelocationX64.cc:30-53 | The window a first attempt rounds up to is a fixed point: a retry takes the same instructions |
| X64Relocator.GenRelocateCodeX86Shared | src/main/cpp/hook/Dobby/source/InstructionRelocation/x86/InstructionRelocationX86Shared.cc:197-216 | The retry loop ends at the first attempt whose capacity of 32 plus 16 an attempt suffices, with the code for that attempt's block and the rounded window, exactly if every block up to it is granted and the relocation does not abort; a refused block leaves the relocated block without an address |
| X64Relocator.SuccessfulAttempt | src/main/cpp/hook/Dobby/source/InstructionRelocation/x86/InstructionRelocationX86Shared.cc:197-216 | The attempt that suffices: the first one whose 32 bytes and 16 more an attempt are as many as the code |
| X64Installation.RelocationInstalls | src/main/cpp/hook/Dobby/source/InstructionRelocation/x64/InstructionRelocationX64.cc:55-66 | Writing the code and then each detour sequence, to blocks that are apart, leaves in memory what the simulation asks of it |
| X64Placement.AttemptInstalls | src/main/cpp/hook/Dobby/source/InstructionRelocation/x86/InstructionRelocationX86Shared.cc:85-126 | Allocator, relocator and simulation together: from any state the allocators' runs lead to, if every request of an attempt is granted, none at the null address, and the operands are 2^31 away from both ends of the address space, the blocks are apart, large enough and near, so that the relocation, once written, is installed as the simulation asks, whatever was in memory before |
| X64Detours.DetourIsNear | src/main/cpp/hook/Dobby/source/InstructionRelocation/x86/InstructionRelocationX86Shared.cc:85-96 | A sequence allocated by the near allocator with range 2^31 around the operand always has a displacement that fits in 32 bits, if the range does not wrap |
| HashMap.NodeInsert | src/main/cpp/hook/Dobby/external/TINYSTL/hash_base.h:159-190 | From any valid structure the node is linked in behind all nodes of its bucket and earlier ones, and list, order and boundary pointers are valid again |
| HashMap.NodeErase | src/main/cpp/hook/Dobby/external/TINYSTL/hash_base.h:192-207 | Unlinking any node leaves exactly the others in order, with list and boundary pointers valid |
| HashMap.Find | src/main/cpp/hook/Dobby/external/TINYSTL/hash_base.h:282-290 | The search between two boundary pointers finds a node exactly if some node in the whole list has the key |
| HashMap.MaskIsRemainder | src/main/cpp/hook/Dobby/external/TINYSTL/hash_base.h:161-161 | Masking with a power of 8 less one is the remainder by it, for every hash |
| HashMap.UnorderedMap.constructor | src/main/cpp/hook/Dobby/external/TINYSTL/unordered_map.h:84-90 | An empty map with 8 buckets and the sentinel |
| HashMap.UnorderedMap.Copy | src/main/cpp/hook/Dobby/external/TINYSTL/unordered_map.h:92-105 | The copy has the same mapping, the same number of buckets and fresh nodes in the same order |
| HashMap.UnorderedMap.Insert | src/main/cpp/hook/Dobby/external/TINYSTL/unordered_map.h:222-242 | A new key is added, an existing one left alone; the node returned is the key's; the buckets are multiplied by 8 exactly if a new key brings the size past four times their number, the sentinel counted |
| HashMap.UnorderedMap.FindNode | src/main/cpp/hook/Dobby/external/TINYSTL/unordered_map.h:189-193 | A node is found exactly for the stored keys, with the stored value |
| HashMap.UnorderedMap.Erase | src/main/cpp/hook/Dobby/external/TINYSTL/unordered_map.h:269-275 | Exactly the key of the node is removed |
| HashMap.UnorderedMap.Assign | src/main/cpp/hook/Dobby/external/TINYSTL/unordered_map.h:278-280 | Assignment through operator[] adds or replaces exactly that key |
| HashMap.UnorderedMap.Rehash | src/main/cpp/hook/Dobby/external/TINYSTL/unordered_map.h:203-219 | Growth by 8 relinks the live nodes in place, keeps them all, and the mapping, and happens exactly past the load limit |
| HashMap.UnorderedMap.Clear | src/main/cpp/hook/Dobby/external/TINYSTL/unordered_map.h:173-186 | The empty map again, with 8 fresh buckets |
| HashMap.Run | src/main/cpp/hook/Dobby/external/TINYSTL/hash_base.h:159-290 | Over every sequence of insertions, searches and removals the structure answers as a mathematical map does and stays valid |
| ExportTrie.ReadUleb128 | src/main/cpp/hook/Dobby/builtin-plugin/SymbolResolver/macho/dobby_symbol_resolver.cc:23-44 | Every terminated ULEB128 number of any length is read modulo 2^64, although slices past bit 63 are dropped, and the cursor ends behind it |
| ExportTrie.UlebInvertsEncode | src/main/cpp/hook/Dobby/builtin-plugin/SymbolResolver/macho/dobby_symbol_resolver.cc:23-44 | The encoding of any number is read back wherever it stands (section 7.6 of DWARF 5) |
| ExportTrie.OrIsSum | src/main/cpp/hook/Dobby/builtin-plugin/SymbolResolver/macho/dobby_symbol_resolver.cc:36-36 | Or-ing in bits above those already read adds them |
| ExportTrie.WalkExportedTrie | src/main/cpp/hook/Dobby/builtin-plugin/SymbolResolver/macho/dobby_symbol_resolver.cc:69-139 | On any bytes the walk does what the walk function does; where that is to circle for ever, over edges without a label, the model stops and says so |
| ExportTrie.CirclesExactly | src/main/cpp/hook/Dobby/builtin-plugin/SymbolResolver/macho/dobby_symbol_resolver.cc:69-139 | On any bytes and for any symbol it says so exactly if the source's loop has no last turn |
| ExportTrie.EmptyLabelCircles | src/main/cpp/hook/Dobby/builtin-plugin/SymbolResolver/macho/dobby_symbol_resolver.cc:94-134 | Eight bytes for which it has none, whatever the symbol |
| ExportTrie.MatchEdge | src/main/cpp/hook/Dobby/builtin-plugin/SymbolResolver/macho/dobby_symbol_resolver.cc:96-108 | The scan of an edge label goes to its end and reports a mismatch exactly if the label is not a prefix of the rest of the symbol |
| ExportTrie.TurnExactly | src/main/cpp/hook/Dobby/builtin-plugin/SymbolResolver/macho/dobby_symbol_resolver.cc:69-139 | One turn on any node, malformed ones included, whose size can be read: the payload if the symbol ends there; NULL if the payload would reach past the end; else, for any edges that can be read, the first whose label the symbol starts with decides: NULL if there is none or it leads to offset 0 or past the end, and otherwise on to its child with the rest of the symbol |
| ExportTrie.WalkFindsExactly | src/main/cpp/hook/Dobby/builtin-plugin/SymbolResolver/macho/dobby_symbol_resolver.cc:69-139 | From any serialized node of a well-formed trie: the payload of the symbol if the trie below has it, NULL if not |
| ExportTrie.ExportedSymbols | src/main/cpp/hook/Dobby/builtin-plugin/SymbolResolver/macho/dobby_symbol_resolver.cc:69-139 | For any bytes that serialize a well-formed trie the walk returns the position of a symbol's payload if the trie contains the symbol, and NULL exactly if it does not |
| ExportTrie.SmallestTrie | src/main/cpp/hook/Dobby/builtin-plugin/SymbolResolver/macho/dobby_symbol_resolver.cc:69-139 | Eight bytes that serialize a trie with one symbol, and where the walk finds it |
| SymbolTables.OneSymbolTable | src/main/cpp/dlfc/xDL/xdl.cpp:143-151 | A well-formed table of either ELF class, with one bucket, for any symbol |
| SymbolTables.XdlGnuLookup | src/main/cpp/dlfc/xDL/xdl.cpp:619-652 | On any well-formed GNU hash table, with the bloom words of either ELF class, the lookup is the plain scan of the symbol table from symoffset on: the first symbol of the name, or none |
| SymbolTables.ElfImgGnuLookup | src/main/cpp/dlfc/elf_util.cpp:146-169 | For either ELF class, the lookup with the biased chain pointer returns the value of the symbol the same plain scan finds, and 0 if there is none or the table is empty; so both select the same symbol |
| SymbolTables.BloomKeepsPresent | src/main/cpp/dlfc/xDL/xdl.cpp:622-629 | The bloom filter, of 32 or 64 bits a word, never rejects a name that is in the table |
| Bits.TwoBits | src/main/cpp/dlfc/xDL/xdl.cpp:624-629 | A word passes the two-bit mask exactly if it has both bits |
| SymbolTables.BloomPassesExactly | src/main/cpp/dlfc/xDL/xdl.cpp:622-629 | so the filter lets a name pass exactly if the word its hash selects has the two bits its hash stands for |
| SymbolTables.SameButLowest | src/main/cpp/dlfc/elf_util.cpp:160-160 | Comparing hashes with the lowest bit set, and testing their exclusive or shifted right, are both comparing all bits but the lowest |
| SymbolHashes.ElfHashIs28Bits | src/main/cpp/includes/elf_util.h:124-133 | The SysV hash always fits in 28 bits, so no shift loses anything |
| SymbolHashes.ElfHashBits | src/main/cpp/includes/elf_util.h:124-133 | Bit for bit, for every name: bits 28 to 31 of the shifted hash with the next character added are cleared, and bits 4 to 7 flipped where those are set |
| SymbolHashes.ElfHashOfShort | src/main/cpp/includes/elf_util.h:124-133 | so as long as the polynomial in 16 with the characters for coefficients is below 2^28, that is the hash |
| SymbolHashes.ComputeGnuHash | src/main/cpp/includes/elf_util.h:135-141 | The loop computes, for a name of n bytes, 5381 * 33^n plus the sum of its bytes, each times the power of 33 of the number of bytes behind it, modulo 2^32 |
| SymbolHashes.ComputeElfHash | src/main/cpp/includes/elf_util.h:124-133 | The loop computes the hash that these two describe |
| SymbolTables.SysvLookup | src/main/cpp/dlfc/xDL/xdl.cpp:606-617 | On acyclic chains that hold every symbol, the lookup finds a symbol of the name exactly if one stands behind symbol 0 |
| SymbolTables.ElfImgElfLookup | src/main/cpp/dlfc/elf_util.cpp:132-144 | The value of such a symbol, or 0; 0 means no symbol if all symbols of the name have a value |
| AddressLookup.VisitsEachOnce | src/main/cpp/dlfc/xDL/xdl.cpp:831-840 | The walk over all buckets and chains meets every hashed symbol exactly once, ordered by hash modulo the number of buckets and then by index |
| AddressLookup.XdlSymByAddrGnu | src/main/cpp/dlfc/xDL/xdl.cpp:812-849 | The symbol returned is hashed, not thread-local, and has value <= offset < value + size without wrapping; of all such symbols it is the first by hash modulo the number of buckets and then by index; none is returned exactly if every hashed symbol is thread-local, or starts behind the offset, or ends, modulo 2^64, at it or in front |
| AddressLookup.DisjointExtents | src/main/cpp/dlfc/xDL/xdl.cpp:812-849 | Among symbols whose extents are disjoint the answer is the one whose extent holds the offset |
| AddressLookup.XdlElfIsMatch | src/main/cpp/dlfc/xDL/xdl.cpp:755-767 | An address matches exactly if, less the load bias, it lies between the address and the end of some loaded segment |
| AddressLookup.AddrCache.OpenByAddr | src/main/cpp/dlfc/xDL/xdl.cpp:769-811 | The first module, of those with a nonzero bias and a name, that the address is in, or none if there is none |
| AddressLookup.AddrCache.Find | src/main/cpp/dlfc/xDL/xdl.cpp:871-887 | The handle found or opened, and the cache with a new handle in front |
| AddressLookup.ReachableCache | src/main/cpp/dlfc/xDL/xdl.cpp:874-887 | No reachable cache holds two handles for one module |
| AddressLookup.CacheIsTransparentExactly | src/main/cpp/dlfc/xDL/xdl.cpp:874-887 | Every reachable cache gives the answers of no cache exactly if no module the search can open shares an address with an eligible module in front of it |
| AddressLookup.DisjointModulesTransparent | src/main/cpp/dlfc/xDL/xdl.cpp:874-887 | which is so if no address is in two modules |
| AddressLookup.CacheMatters | src/main/cpp/dlfc/xDL/xdl.cpp:874-887 | Two overlapping modules for which a cached handle changes the answer |
| Allocator.RunsMappedExactly | src/main/cpp/hook/Dobby/source/MemoryAllocator/MemoryAllocator.cc:35-53 | Over every run of exec and near requests, refused mappings included, each near one safe when it is made: the blocks handed out lie in mapped memory exactly if no request was served from a growth that the system refused; and then they are pairwise disjoint |
| Allocator.RunsKeepInvExactly | src/main/cpp/hook/Dobby/source/MemoryAllocator/NearMemoryAllocator.cc:48-201 | Behind every request of a run the invariant holds exactly if no growth up to it was refused: arenas are disjoint and not at the null address, each cursor is its arena's base plus the sum of all that was carved, and every block lies inside an arena below its cursor |
| Allocator.ExecAllocInvExactly | src/main/cpp/hook/Dobby/source/MemoryAllocator/MemoryAllocator.cc:35-53 | One exec request keeps that exactly if it needs no growth or its growth is not refused, and hands out a block of the size asked for, or none |
| Allocator.RefusedGrowthServes | src/main/cpp/hook/Dobby/source/MemoryAllocator/MemoryAllocator.cc:39-52 | A refused mapping is registered as an arena at the null address: its request is given the null address, and the next one that fits behind it and in no other arena is given the address behind it, where nothing is mapped |
| Allocator.CheckFiresExactly | src/main/cpp/hook/Dobby/source/MemoryAllocator/MemoryAllocator.cc:43-49 | The check behind the growth fires exactly if no arena has room and rounding the size up to pages leaves 32 bits |
| Allocator.GrowthIsLeast | src/main/cpp/hook/Dobby/source/MemoryAllocator/MemoryAllocator.cc:43-49 | The size mapped for a block is the least multiple of the page that holds it, modulo 2^32 |
| Allocator.NearAllocInvExactly | src/main/cpp/hook/Dobby/source/MemoryAllocator/NearMemoryAllocator.cc:190-201 | One near request keeps the invariant exactly if an arena serves it, or no gap does or the mapping is refused, or its block ends strictly below the next region, or no arena meets the one page behind the gap |
| Allocator.NearBlockInRange | src/main/cpp/hook/Dobby/source/MemoryAllocator/NearMemoryAllocator.cc:48-188 | A near block has the size asked for and lies wholly within the range around the position, if the bounds do not wrap |
| Allocator.NearFailsExactly | src/main/cpp/hook/Dobby/source/MemoryAllocator/NearMemoryAllocator.cc:190-201 | The search fails exactly if no arena has usable room in range, and no gap between regions has or the mapping is refused |
| Allocator.UnusedExactly | src/main/cpp/hook/Dobby/source/MemoryAllocator/NearMemoryAllocator.cc:53-77 | The room found is the lowest address that is in range and leaves the block before the end, and none is missed |
| Allocator.GapArenaStaysExactly | src/main/cpp/hook/Dobby/source/MemoryAllocator/NearMemoryAllocator.cc:153-156 | The pages mapped for a block in a gap stay in the gap exactly if the block ends strictly below the next region |
| Allocator.GapArenaApartExactly | src/main/cpp/hook/Dobby/source/MemoryAllocator/NearMemoryAllocator.cc:153-162 | and are apart from all arenas exactly if so, or if no arena meets the page behind the gap |
| Allocator.ExactFitHandsOutTwice | src/main/cpp/hook/Dobby/source/MemoryAllocator/NearMemoryAllocator.cc:153-162 | Three requests, the middle one an exact fit, of which the first and the last are given the very same block |
| AllocatorObjects.MemoryArena.AllocMemBlock | src/main/cpp/hook/Dobby/source/MemoryAllocator/MemoryAllocator.cc:5-14 | The arena's cursor and the block, or nothing when the rest is too small |
| AllocatorObjects.MemoryAllocator.AllocateExecBlock | src/main/cpp/hook/Dobby/source/MemoryAllocator/MemoryAllocator.cc:35-53 | First fit over the arenas, then growth: as the specification says |
| AllocatorObjects.NearMemoryAllocator.AllocateNearBlockFromDefaultAllocator | src/main/cpp/hook/Dobby/source/MemoryAllocator/NearMemoryAllocator.cc:48-109 | The search of the arenas, the placeholder and the block: as the specification says |
| AllocatorObjects.NearMemoryAllocator.AllocateNearBlockFromUnusedRegion | src/main/cpp/hook/Dobby/source/MemoryAllocator/NearMemoryAllocator.cc:111-188 | The search of the gaps, the new arena, the placeholder and the block: as the specification says |
| AllocatorObjects.NearMemoryAllocator.AllocateNearBlock | src/main/cpp/hook/Dobby/source/MemoryAllocator/NearMemoryAllocator.cc:190-201 | The arenas first, then the gaps |
| HookSites.WindowCovers | src/main/cpp/hook/Dobby/source/InterceptRouting/InterceptRouting.cpp:20-54 | The window either relocator takes for the size of a trampoline covers that trampoline, and no less would: the least number of whole words on A64, and of whole instructions on x86-64 |
| HookSites.HooksFromFresh | src/main/cpp/hook/Dobby/source/InterceptRouting/InterceptRouting.cpp:20-80 | After every interleaving of hooks, made with the real trampolines and relocation windows, whether their relocations succeed or not, and of destroys, what live hooks write being apart: the code is a base with the trampolines of the live hooks over it, each relocated one over the window its relocator takes of that base, which on x86-64 its decoder has read right; it is wholly the base if none is live; and the base is the original but where failed hooks were destroyed, so the original itself if no relocation failed |
| HookSites.RequestKeeps | src/main/cpp/hook/Dobby/source/InterceptRouting/Routing/FunctionInlineHook/FunctionInlineHook.cc:6-51 | which one request keeps, its relocation failing or not, with the coverage of the trampoline derived and not asked |
| HookSites.HookedCallArm64 | src/main/cpp/hook/Dobby/source/TrampolineBridge/Trampoline/arm64/trampoline_arm64.cc:15-41 | After any such run, calling a function hooked on A64 reaches its replacement, with nothing changed but X17, exactly if the distance is not one for the near trampoline or its pages are not 2^20 apart |
| HookSites.RelocatedCallArm64 | src/main/cpp/hook/Dobby/source/InterceptRouting/InterceptRouting.cpp:20-54 | and entering the relocation of its window runs as the code underneath the hooks does, to where that leaves the window; the word in memory there is the one underneath exactly if every trampoline over it agrees with it |
| HookSites.WordAfterRun | src/main/cpp/hook/Dobby/source/InterceptRouting/InterceptRouting.cpp:20-80 | which holds for every word of the code: after any run it is what is underneath exactly if every trampoline over it agrees with it |
| HookSites.RelocatedCallX64 | src/main/cpp/hook/Dobby/source/InterceptRouting/InterceptRouting.cpp:20-54 | The same on x86-64: the instructions taken are those the bytes underneath decode to, their relocation exists wherever it is put, and once installed it runs as they do |
| HookSites.RelocatesExactly | src/main/cpp/hook/Dobby/source/InstructionRelocation/x86/InstructionRelocationX86Shared.cc:34-195 | Wherever it is put, the relocation of a window exists exactly if each of its instructions has one |
| HookSites.HookedCallX64 | src/main/cpp/hook/Dobby/source/TrampolineBridge/Trampoline/x64/trampoline_x64.cc:30-47 | Calling a function hooked on x86-64 goes where its forward stub points, if the stub is within 2 GB |
| HookSites.StubJumpRuns | src/main/cpp/hook/Dobby/source/TrampolineBridge/Trampoline/x64/trampoline_x64.cc:30-47 | The jump of the x86-64 trampoline reads the stub exactly if the distance to it fits 32 signed bits, up to whole turns of the address space |
| Hooks.HooksFromFresh | src/main/cpp/hook/Dobby/source/InterceptRouting/InterceptRouting.cpp:20-80 | The same for any trampolines and relocation outcomes, whatever made them, covering or not: the base is the original but at the scars of destroyed hooks that did not cover their trampolines |
| Hooks.RunKeeps | src/main/cpp/hook/Dobby/source/InterceptRouting/InterceptRouting.cpp:20-80 | For these the registry holds exactly the live hooks, each once, with the bytes of the base in its window if it was relocated |
| Hooks.StepKeeps | src/main/cpp/hook/Dobby/source/InterceptRouting/Routing/FunctionInlineHook/FunctionInlineHook.cc:6-51 | One call that, if it hooks, writes apart from the live hooks keeps that; a hook succeeds exactly on a permitted nonzero address that is not hooked, a destroy exactly on one that is |
| Hooks.BaseKeptExactly | src/main/cpp/hook/Dobby/source/dobby.cpp:16-32 | Destroying a live hook leaves the base as it was exactly if the bytes saved are the base's and the trampoline changes none behind them |
| Hooks.HookThenDestroyExactly | src/main/cpp/hook/Dobby/source/dobby.cpp:16-32 | A hook and its destruction, the relocation done or failed, restore the code exactly if the bytes saved are those of the code and the trampoline changes none behind them |
| Hooks.WindowRestoresExactly | src/main/cpp/hook/Dobby/source/dobby.cpp:16-32 | so after a relocation exactly if the trampoline changes no byte behind the window |
| Hooks.FailedRelocation | src/main/cpp/hook/Dobby/source/InterceptRouting/Routing/FunctionInlineHook/FunctionInlineHook.cc:37-50 | DobbyHook ignores a failed relocation: in any state it patches and reports success, and if nothing was saved destroying then leaves the trampoline in place, which is the original code exactly if the trampoline equals it |
| HookObjects.Dobby.HookArm64 | src/main/cpp/hook/Dobby/source/InterceptRouting/Routing/FunctionInlineHook/FunctionInlineHook.cc:6-51 | DobbyHook on A64, with its trampoline and its relocator: it follows the step whose window is the one the relocator takes, and the process ends exactly where the relocator has no form for a word |
| HookObjects.Dobby.HookX64 | src/main/cpp/hook/Dobby/source/InterceptRouting/Routing/FunctionInlineHook/FunctionInlineHook.cc:6-51 | The same on x86-64, for what the decoder reads and the blocks the allocators grant: the process ends exactly if an instruction has no relocation and the first block is granted, and the hook is made with the window of the whole instructions over the trampoline if all have one and the blocks are granted, and as a failed one otherwise |
| HookObjects.Dobby.Hook | src/main/cpp/hook/Dobby/source/InterceptRouting/Routing/FunctionInlineHook/FunctionInlineHook.cc:6-51 | The call for any trampoline and relocation outcome, as the step function says: registry, saved bytes, patched code, result |
| HookObjects.Dobby.Destroy | src/main/cpp/hook/Dobby/source/dobby.cpp:16-32 | The call as the step function says |
| HookObjects.Dobby.CodePatch | src/main/cpp/hook/Dobby/source/Backend/UserMode/ExecMemory/code-patch-tool-posix.cc:9-34 | The bytes are put at the address and no others change |
| HookObjects.Dobby.GenerateRelocatedCodeArm64 | src/main/cpp/hook/Dobby/source/InterceptRouting/InterceptRouting.cpp:20-54 | On A64 the relocation of the words that cover the trampoline succeeds exactly if the relocation function has code for them, and then exactly their bytes are saved |
| HookObjects.Dobby.GenerateRelocatedCodeX64 | src/main/cpp/hook/Dobby/source/InterceptRouting/InterceptRouting.cpp:20-54 | On x86-64 it succeeds exactly if every instruction over the trampoline has a relocation and the blocks up to the first large enough are granted, and then exactly the bytes of these instructions are saved |
| HookObjects.Dobby.GenerateRelocatedCode | src/main/cpp/hook/Dobby/source/InterceptRouting/InterceptRouting.cpp:20-54 | For any relocation outcome, the bytes of the window taken are saved, and nothing is if it failed |
| HookObjects.Interceptor.Find | src/main/cpp/hook/Dobby/source/Interceptor.cpp:12-19 | The first entry for the address, or null if there is none |
| HookObjects.Interceptor.Remove | src/main/cpp/hook/Dobby/source/Interceptor.cpp:25-32 | Exactly that entry is removed |
| Stpcpy.HasZeroExactly | src/main/cpp/includes/mylibc.h:216-219 | HASZERO of a word is nonzero exactly if one of its eight bytes is zero |
| Stpcpy.MyStpcpy | src/main/cpp/includes/mylibc.h:214-236 | For every alignment the string and its zero are copied, nothing else changes, and the terminator's address is returned |
| Unwind.XuFpUnwind | src/main/cpp/xunwind/xu_fp_arm64.cpp:221-333 | The frames written, in order and at most as many as there is room for, nothing behind them changed: the program counter of the context, if there is one, then for each record fp of the walk the word at fp + 8 less 4, or 0 for one below 4, or unchanged for the return into sigreturn met on the signal stack, all modulo 2^39. The walk starts at the frame pointer given; each next record is the first word of the one before, aligned, in the stack the walk is then on, and at least 16 bytes further up unless it leaves the signal stack; it ends only where there is no more room or no such record |
| Unwind.AppendFrame | src/main/cpp/xunwind/xu_fp_arm64.cpp:211-219 | One frame, the low 39 bits of the address, if there is room, and whether there is more |
| Unwind.WalkEndsExactly | src/main/cpp/xunwind/xu_fp_arm64.cpp:278-330 | The walk stops by itself for every memory and every first record exactly if neither stack contains the address 2^64 - 16 |
| Unwind.WalkEnds | src/main/cpp/xunwind/xu_fp_arm64.cpp:278-330 | Off that address it ends, whatever the capacity, after at most as many records as the stacks can hold and the first one |
| Unwind.SwitchesOnce | src/main/cpp/xunwind/xu_fp_arm64.cpp:312-321 | It changes from the signal stack to the thread stack at most once |
| Unwind.PointersRise | src/main/cpp/xunwind/xu_fp_arm64.cpp:320-323 | On each stack, if none contains that address, frame pointers rise by at least 16, from a first one at the very top of the address space excepted |
| Unwind.RecordsInside | src/main/cpp/xunwind/xu_fp_arm64.cpp:325-326 | Every record but the first is aligned and inside the stack the walk is on, wholly so if the top of the stack is aligned |
| Unwind.CycleAtTheTop | src/main/cpp/xunwind/xu_fp_arm64.cpp:320-323 | On any stack that contains it, a record at that address which points to itself is visited as often as there is room for: the check for rising pointers wraps around |
| Buffer.Buffer.Reserve | src/main/cpp/hook/Dobby/external/TINYSTL/buffer.h:142-156 | The same contents, with at least the capacity asked for |
| Buffer.Buffer.Insert | src/main/cpp/hook/Dobby/external/TINYSTL/buffer.h:219-238 | The range of another array between the old prefix and the old suffix, across reallocation |
| Buffer.Buffer.InsertFromSelf | src/main/cpp/hook/Dobby/external/TINYSTL/buffer.h:219-238 | The same for a range of the buffer itself, with what the loop makes of it |
| Buffer.SelfInsertExactly | src/main/cpp/hook/Dobby/external/TINYSTL/buffer.h:223-237 | What it makes of it is the range as it was before the call exactly if the range does not straddle the insertion point, or repeats itself with the period of its part in front of that point |
| Buffer.Buffer.AppendFromSelf | src/main/cpp/hook/Dobby/external/TINYSTL/buffer.h:247-255 | An element of the buffer itself is appended unchanged, with and without growth |
| Buffer.Buffer.Erase | src/main/cpp/hook/Dobby/external/TINYSTL/buffer.h:267-278 | Exactly the erased range goes, the order is kept |
| Buffer.Buffer.EraseUnordered | src/main/cpp/hook/Dobby/external/TINYSTL/buffer.h:280-293 | The hole is filled from the end |
| Buffer.ErasedKeepsRest | src/main/cpp/hook/Dobby/external/TINYSTL/buffer.h:280-293 | which keeps exactly the multiset of surviving elements, and everything in front of the hole |
| ThumbCodec.BranchRoundTrip | src/main/cpp/hook/Dobby/source/InstructionRelocation/arm/InstructionRelocationARM.cc:549-575 | Decoding inverts EmitThumb2Branch on exactly the even 25-bit offsets, and the relocator tells B from BL |
| ThumbCodec.DecodedOffset | src/main/cpp/hook/Dobby/source/InstructionRelocation/arm/InstructionRelocationARM.h:190-214 | For any offset, what is read back is its bits 1 to 23 under its sign |
| ThumbCodec.DecodesEncoding | src/main/cpp/hook/Dobby/source/InstructionRelocation/arm/InstructionRelocationARM.cc:549-575 | For every B or BL, what is read is the twos complement number S:I1:I2:imm10:imm11:0, in which I1 is set exactly if J1 equals S, and I2 exactly if J2 does; the tests tell B from BL |
| ThumbCodec.EmitsEncoding | src/main/cpp/hook/Dobby/source/InstructionRelocation/arm/InstructionRelocationARM.h:190-214 | For every such number what is emitted has its S, imm10 and imm11, and sets J1 exactly if I1 equals S, and J2 exactly if I2 does |
| ThumbCodec.NearBranch | src/main/cpp/hook/Dobby/source/InstructionRelocation/arm/InstructionRelocationARM.h:190-214 | so both are set for every offset of at most 23 signed bits |
| ThumbCodec.FormEncodes | src/main/cpp/hook/Dobby/source/InstructionRelocation/arm/InstructionRelocationARM.cc:549-575 | Every pair of halfwords of the form of B or BL is such an encoding |
| ThumbCodec.BranchTests | src/main/cpp/hook/Dobby/source/InstructionRelocation/arm/InstructionRelocationARM.cc:549-575 | The tests for B and BL look at bits 12 and 14 of the second halfword alone |

## Left out

- Branches into the window: relocated code jumps to the original addresses of such targets, in the model as in the source; the offset map is filled but used for no fixup.
- The x86 decoder: its record is an input, with the flag for a RIP-relative second operand; that it gives up on the SSE forms behind `0F` is not part of this model.
- X64Simulation.CopiedJumpExactly: what becomes of a transaction that begins and is aborted later, at the fallback address of the copy, is not modelled.
- Arm64Simulation.RelocationSimulates: needs that instructions left as they are do not depend on their address or X17, that the run does not write over the relocated code, and relocated code below 2^18 words, the range of its literal loads; a window that reads its own bytes reads the same bytes in both runs.
- X64Simulation.RelocationSimulates: needs that plain instructions do not see their address, that the run does not write over the relocated code or the detours, and that addresses do not wrap; windows with the instructions the relocator gets wrong are excluded, see X64Simulation.CopiedJumpExactly, X64Simulation.EscapedTakenForJcc and X64Simulation.EscapedTakenForJump; LOOP and JCXZ abort the relocation.
- Arm64Trampoline.TrampolineReachesExactly: takes ADD (immediate) as a hypothesis on the instructions the machine model leaves open.
- Failed near allocation in the x86 relocator, which the source does not check, and the detours that failed attempts leave behind.
- Allocator.RunsKeepInvExactly: assumes of the operating system that a mapping it grants is apart from the arenas, and of the process layout that regions are sorted, page-aligned and cover the arenas; near requests that are not safe, the exact condition of Allocator.NearAllocInvExactly, are excluded, see Allocator.ExactFitHandsOutTwice.
- The data side of the allocators: its near loop has no break, and its growth uses the code arena.
- Allocator addresses are unbounded integers except for the search bounds, which wrap, and the growth size, which is truncated.
- HookObjects.Dobby.Hook: the bytes saved are a sequence, so the limit of 256 bytes of `origin_insns` is not modelled; nor are page permissions beyond the first check.
- Buffer.Buffer.Reserve: does not model that the old block is deallocated with the size of the new one; elements are copied, not moved and destroyed.
- HashMap: the hash is any function to natural numbers; deallocation of nodes and buckets is not modelled.
- ExportTrie.WalkExportedTrie: reads outside the bytes, which the source follows, are an outcome of the model on which it stops; pointers do not wrap around.
- SymbolTables.XdlGnuLookup: the table is the one a linker makes (every symbol from symoffset on entered, chains of one bucket each, shift below 32); malformed tables are not modelled.
- AddressLookup.XdlSymByAddrGnu: addresses and symbol values have 64 bits, in either ELF class.
- `xdl_sym` as a whole, `.symtab` lookups, loading of `.dynsym` and reuse of handles across it.
- AddressLookup.AddrCache.Find: the modules are a fixed list; unloading and reloading between lookups is not modelled.
- Stpcpy.MyStpcpy: source and destination do not overlap, and memory is a whole number of words.
- Unwind.WalkEnds: the bound is for stacks that do not contain 2^64 - 16, see Unwind.WalkEndsExactly for why.
- The checks for interrupted system calls in the unwinder, which are off by default.
- ARM32 and Thumb relocation as a whole: the driver never changes its state between A32 and T32, and the conditional branch is rebuilt on an unconditional one; only the branch codec is modelled.
- The IA32 relocator, the near-branch trampoline plugin, closure bridges and instruction instrumentation.
- JNI tracing, logging, netlink, maps hiding, ptrace and file utilities: input and output with no deep invariant.
- HookSites.HooksFromFresh: code is changed by hooks alone; that the decoder splits x86-64 code into instructions as the processor does is assumed, its records being an input that must have the bytes of the code.
- Arm64Returns.RunsThroughCalls and X64Returns.RunsThroughCalls: what a callee does is an input, and must depend neither on the return address it is given, but to go there, nor on dead memory.
- X64Placement.AttemptInstalls: the attempt is the successful one, and blocks of earlier attempts are among those handed out before; requests at the null address are excluded, see Allocator.RunsMappedExactly.
- HookSites.HookedCallX64: the allocation of the forward stub, without which the source has no trampoline, is an input; so is what the stub holds.
- Threads, pointer authentication, instruction caches.
