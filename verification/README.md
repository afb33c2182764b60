# A verified model of a five-stage RISC-V pipeline simulator

This project models the simulation core of a cycle-level RV64IMC simulator written in C++. It proves properties of that model in Dafny. The simulator runs a guest program through a classic five-stage pipeline: IF, ID, EX, MEM, WB. Its parts are:

- **Decoder** (`decoder.dfy`, `bits.dfy`). It turns a 16- or 32-bit instruction word into the fields of an execute-stage record. `sign_extend` and `zero_extend` are modelled on `bv64`.
- **Pipeline engine** (`pipeline.dfy`). The five stages, operand forwarding, the hazard and misprediction logic of `process_control_signal`, the `ecall` dispatch, and the body of the tick loop of `run_prog`. `class Simulator` holds:
  - the register file (an `array`);
  - the committed pipeline registers;
  - the statistics counters.

  Stages compute the next-state registers. Signals then set stall and bubble bits, and `_update` commits every register at once (`registers.dfy`).
- **ALU** (`alu.dfy`). The ALU of the EX stage, on 64-bit words read as integers in [0, 2^64). The ALU model also covers the branch comparisons.
- **Branch predictors** (`predictor.dfy`). Never-taken, always-taken, backward-taken/forward-not-taken, and a table of 4096 two-bit saturating counters, updated in place.
- **Caches** (`cache.dfy`). A set-associative cache timing model with LRU-by-timestamp eviction, write-back or write-through, and write-allocate or not. Each cache is chained to the next level, and the chain ends in main memory with a fixed latency.
- **Memory system** (`memory.dfy`). Covers:
  - a demand-paged page table whose frames are allocated zero-filled;
  - little-endian loads and stores that may straddle a page end;
  - instruction fetch across a page end;
  - the cycle charge of every access, paid twice when the access straddles the smallest cache line.

`outcomes.dfy` holds the fault kinds and the `Result` type. Every fatal condition of the source is an `Err` value in the model: a C++ exception, an unmapped address, or a host-undefined operation. Examples:

- an unknown instruction;
- an unmapped address;
- division by zero;
- an unsupported `ecall`.

The tick loop of `run_prog` is modelled as two methods run in sequence:

1. `Simulator.RunStages` runs WB, MEM, EX, ID, IF and the `ecall` in that order.
2. `Simulator.Advance` runs `process_control_signal`, the statistics and the five `update` calls.

Physical memory is a sequence of bytes that grows by one zero page per allocation. A frame number times 4096 is the physical address the caches are indexed with. Those are the same addresses the source computes with `translate`.

Two decoding behaviours of the source are modelled as written and exhibited by lemmas:

- **Branch offsets** are sign-extended from bit 11 of the 13-bit offset, not from bit 12. A forward branch by 2048 bytes is therefore decoded as a backward one. See `Decoder.BranchOffsetAsArchitected` and `Decoder.BranchOffset2048`.
- **Word operations** (`addw`, `sllw`, …) compute on the full 64-bit operands and then apply `sign_extend(·, 32)`. That call leaves the upper half alone when bit 31 is clear. See `Pipeline.WordResultKeepsHighBits`.

## Model

| member | source | states |
|---|---|---|
| Registers.Signed | src/simulator.cpp:211 | The `(int64_t)` reading of a word lies in [-2^63, 2^63) and is negative exactly when the top bit is set |
| Registers.UpdateExactlyOne | src/register_def.cpp:13-24 | Exactly one of three rules applies to every register kind. A stalled register keeps everything, its stall bit included. Otherwise a bubbled one becomes the unstalled bubble record. Otherwise it takes the next-state value |
| Bits.LowMaskIsComplement | src/decode_helpers.hpp:19 | `-1 >> (64 - bits)` is the complement of the bits at and above `bits` |
| Bits.SignExtendBits | src/decode_helpers.hpp:6-15 | With bit `bits-1` clear, or a width of 64, the input comes back unchanged, high bits included. Otherwise every bit from `bits` up is set and the low bits are kept |
| Bits.SignExtendTwosComplement | src/decode_helpers.hpp:6-11 | For an input below 2^bits the result encodes the `bits`-wide two's-complement value, and it is negative exactly when bit `bits-1` is set |
| Bits.ZeroExtendFits | src/decode_helpers.hpp:17-20 | The zero-extended value has no bit at or above `bits` |
| Bits.ZeroExtendIdempotent | src/decode_helpers.hpp:17-20 | Zero-extending twice to one width equals zero-extending once |
| Bits.ZeroExtendOfSignExtend | src/decode_helpers.hpp:6-20 | Zero-extension undoes sign-extension for a field that fits its width |
| Decoder.Prime | src/decode_helpers.cpp:98 | A primed compressed register field always names x8..x15 |
| Decoder.ParseInst32 | src/decode_helpers.cpp:468-477 | A word whose low bits are `11` is decoded by the 32-bit parser alone, with the compressed flag false |
| Decoder.ParseInst16 | src/decode_helpers.cpp:468-477 | Any other word is decoded by the compressed parser alone, with the compressed flag true |
| Decoder.DecodeSystem | src/decode_helpers.cpp:440-442 | `ecall` writes only its opcode, so every other field keeps its prior value |
| Decoder.DecodeUnknown | src/decode_helpers.cpp:463-464 | A 32-bit word with none of the twelve known major opcodes is rejected |
| Decoder.DecodeR | src/decode_helpers.cpp:386-401 | An OP/OP-32 word yields rd, funct3, rs1, rs2 from their fixed positions and the operation the (funct3, funct7) table names. A pair outside the table is rejected |
| Decoder.DecodeEncodeR | src/decode_helpers.cpp:314-324 | Decoding the R-type encoding of given fields returns those fields, or rejects the word when the table has no entry |
| Decoder.EncodeDecodeR | src/decode_helpers.cpp:386-401 | Every accepted OP/OP-32 word is the R-type encoding of what it decodes to |
| Decoder.DecodeLoadJalr | src/decode_helpers.cpp:436-439 | Loads and `jalr` carry inst[31:20] sign-extended from 12 bits |
| Decoder.DecodeEncodeLoadJalr | src/decode_helpers.cpp:402-405 | Decoding an I-type load or `jalr` encoding returns its registers and its sign-extended offset |
| Decoder.Parse32ImmAlu | src/decode_helpers.cpp:406-435 | OP-IMM uses a six-bit shift-amount mask and OP-IMM-32 a five-bit one, on the same table path |
| Decoder.ImmAluNonShift | src/decode_helpers.cpp:411-419 | A non-shift immediate form sign-extends its 12-bit immediate and looks up funct7 = 0 |
| Decoder.ImmAluShift | src/decode_helpers.cpp:408-419 | A shift form masks the immediate and looks up funct7 shifted right once |
| Decoder.DecodeImmAlu | src/decode_helpers.cpp:406-420 | A register-immediate word other than a shift decodes to its registers, the sign-extended immediate and the table's operation |
| Decoder.DecodeShiftImm | src/decode_helpers.cpp:421-435 | A shift-immediate word decodes to the masked shift amount and the operation selected by inst[31:25] halved |
| Decoder.DecodeEncodeImmAlu | src/decode_helpers.cpp:406-435 | Every non-shift register-immediate encoding decodes to its fields and the operation its funct3 names |
| Decoder.DecodeEncodeShift | src/decode_helpers.cpp:406-435 | `slli`/`srli`/`srai` and the word forms decode to the shift amount masked to six (word forms: five) bits. An arithmetic left shift is rejected |
| Decoder.DecodeStore | src/decode_helpers.cpp:338-347 | A store word carries inst[31:25] above inst[11:7], sign-extended from 12 bits |
| Decoder.DecodeEncodeStore | src/decode_helpers.cpp:443-446 | Every S-type encoding decodes to its registers and its sign-extended offset |
| Decoder.DecodeBranch | src/decode_helpers.cpp:349-359 | A branch word carries its raw 13-bit offset sign-extended from bit 11 |
| Decoder.DecodeEncodeBranch | src/decode_helpers.cpp:447-450 | Every B-type encoding decodes to its registers and its offset sign-extended with width 12 |
| Decoder.BranchOffsetAsArchitected | src/decode_helpers.cpp:449 | The decoded branch offset equals the architected one exactly when bits 12 and 11 of the offset agree |
| Decoder.BranchOffset2048 | src/decode_helpers.cpp:447-450 | A forward branch by 2048 bytes decodes to an offset of -2048 |
| Decoder.DecodeUpper | src/decode_helpers.cpp:361-368 | `lui`/`auipc` carry inst[31:12] in place, sign-extended from 32 bits |
| Decoder.DecodeEncodeUpper | src/decode_helpers.cpp:451-458 | Every U-type encoding decodes to its rd and the shifted, sign-extended immediate |
| Decoder.DecodeJal | src/decode_helpers.cpp:370-378 | A `jal` word carries its 21-bit offset sign-extended from bit 20 |
| Decoder.DecodeEncodeJal | src/decode_helpers.cpp:459-462 | Every J-type encoding decodes to its rd and its architected offset |
| Decoder.CompressedRejects | src/decode_helpers.cpp:88-308 | A compressed word is rejected exactly in quadrant 0 with funct3 1, 4 or 5, in quadrant 2 with funct3 1 or 5, and on the reserved arithmetic keys of quadrant 1 |
| Decoder.CompressedMove | src/decode_helpers.cpp:260-272 | `c.mv` decodes like `add rd, x0, rs2`; its rs1 is the zero record's rd, reached through the swap |
| Decoder.CompressedAdd | src/decode_helpers.cpp:283-287 | `c.add` decodes like `add rd, rd, rs2` |
| Decoder.CompressedJumpRegister | src/decode_helpers.cpp:260-283 | `c.jr` decodes like `jalr x0, 0(rs1)` and `c.jalr` like `jalr x1, 0(rs1)` |
| Decoder.CompressedBreak | src/decode_helpers.cpp:275-279 | `c.ebreak` writes no opcode and decodes to the zero record with only the compressed flag set |
| Decoder.CompressedAddImmediate | src/decode_helpers.cpp:140-158 | `c.addi` and `c.li` decode like `addi rd, rd, imm` and `addi rd, x0, imm`, with the six-bit immediate sign-extended |
| Decoder.CompressedOffsets | src/decode_helpers.cpp:96-131 | Compressed load/store offsets are below 512 and never sign-extended. They are multiples of 4, and of 8 for the doubleword forms |
| Decoder.CompressedAddWordImmediate | src/decode_helpers.cpp:147-152 | `c.addiw` decodes like `addiw rd, rd, imm`, with the six-bit immediate sign-extended |
| Decoder.CompressedAndImmediate | src/decode_helpers.cpp:193-200 | `c.andi` decodes like `andi rd', rd', imm`, with the six-bit immediate sign-extended |
| Decoder.CompressedShiftImmediate | src/decode_helpers.cpp:179-192 | `c.srli`, `c.srai` and `c.slli` decode like `srli`/`srai`/`slli` on the same register, with the six-bit shift amount taken unsigned |
| Decoder.CompressedLoadUpper | src/decode_helpers.cpp:159-175 | `c.lui` (rd other than x2) decodes like `lui rd, imm` with the six-bit immediate sign-extended to twenty bits |
| Decoder.CompressedJump | src/decode_helpers.cpp:215-222 | For every even 12-bit offset, the CJ-format `c.j` word decodes like `jal x0, offset` |
| Decoder.CompressedBranchZero | src/decode_helpers.cpp:223-233 | For every even 9-bit offset, the CB-format `c.beqz`/`c.bnez` word decodes like `beq`/`bne rs1', x0, offset` |
| Decoder.CompressedStackAdjust | src/decode_helpers.cpp:159-169 | For every ten-bit multiple of 16, the `c.addi16sp` word decodes like `addi x2, x2, imm` |
| Decoder.CompressedStackAddress | src/decode_helpers.cpp:96-102 | For every ten-bit multiple of 4, the CIW-format `c.addi4spn` word decodes like `addi rd', x2, imm`, the offset unsigned |
| Decoder.CompressedIgnoresUpperHalf | src/decode_helpers.cpp:88-308 | `parse_16b_inst` reads no bit above 15: a compressed word decodes the same, and fails or succeeds alike, whatever the upper half of the fetched word holds, so the compressed lemmas above hold for every fetched word |
| Alu.Execute | src/simulator.cpp:194-215 | The ALU result, or an arithmetic fault exactly on the host-undefined combinations |
| Alu.DivRem | src/simulator.cpp:201-203 | Defined `DIV`/`REM` satisfy b·q + r = a exactly, with \|r\| < \|b\| and r of the dividend's sign |
| Alu.DivuRemu | src/simulator.cpp:202-204 | `DIVU`/`REMU` are the Euclidean quotient and remainder of the unsigned readings |
| Alu.MulHighLow | src/simulator.cpp:197-200 | `MULHU`·2^64 + `MUL` is the full 128-bit product |
| Alu.MulHighForms | src/simulator.cpp:198-200 | `MULHSU` always equals `MULHU`, and `MULH` does wherever it is defined: none of them sign-extends its operands |
| Alu.ShiftRightForms | src/simulator.cpp:206-207 | `SRA` equals `SRL` on non-negative values, and keeps a negative value negative |
| Alu.SignedUnsignedLess | src/simulator.cpp:211-212 | `SLT` and `SLTU` agree when the sign bits agree, and swap their operands' roles when they differ |
| Alu.BranchCondPairs | src/simulator.cpp:222-231 | beq/bne, blt/bge and bltu/bgeu are complementary, and blt/bltu agree with `SLT`/`SLTU` |
| Predictor.PredictNeverTaken | src/branch_predictor.cpp:9-12 | Always the fall-through address |
| Predictor.PredictAlwaysTaken | src/branch_predictor.cpp:19-22 | Always the target |
| Predictor.PredictBtfnt | src/branch_predictor.cpp:29-32 | One of the two addresses, and the smaller one |
| Predictor.Index | src/branch_predictor.cpp:46 | The table slot is within the 4096 counters |
| Predictor.SaturateBounds | src/branch_predictor.cpp:49-56 | A counter stays in [0, 3] and moves by at most one, towards the outcome |
| Predictor.SaturateLearns | src/branch_predictor.cpp:49-56 | Two equal outcomes make any counter predict that outcome |
| Predictor.BranchHistoryTable.constructor | src/branch_predictor.cpp:34-37 | Every counter starts at 3 |
| Predictor.BranchHistoryTable.Predict | src/branch_predictor.cpp:44-47 | The target exactly when the branch's counter is at least 2 |
| Predictor.BranchHistoryTable.Feedback | src/branch_predictor.cpp:49-56 | Only the branch's counter changes, by one saturating step towards the outcome |
| Predictor.BranchPredictor.constructor | src/simulator.cpp:39-51 | A predictor of the configured kind with a fresh table |
| Predictor.BranchPredictor.Predict | src/branch_predictor.hpp:9 | The prediction is always one of the two addresses |
| Predictor.BranchPredictor.Feedback | src/branch_predictor.hpp:10 | The stateless predictors change nothing. The history table updates one counter |
| Predictor.TwiceTakenPredictsTaken | src/branch_predictor.cpp:44-56 | After two taken outcomes the table predicts the branch taken, whatever the counter was |
| Caches.Log2 | src/cache.cpp:4-10 | The floor of the base-2 logarithm, and 0 for inputs up to 1 |
| Caches.Log2OfPow2 | src/cache.cpp:27-29 | For a power of two the logarithm is exact |
| Caches.ScanFindsFirstHit | src/cache.cpp:71-74 | The line scan returns the first valid line holding the tag |
| Caches.ScanPicksOldest | src/cache.cpp:75-79 | With every line valid and none matching, the scan returns the first line of largest 32-bit age |
| Caches.ScanSpec | src/cache.cpp:66-80 | `get_cache_line` finds a hit exactly when one exists, returns the first one, and otherwise returns the LRU victim |
| Caches.Scan | src/cache.cpp:66-80 | The scan returns a line of the set, and -1 only when no line is left to scan and there is no candidate yet |
| Caches.MemoryCost | src/cache.cpp:145-153 | Main memory always costs its fixed cycles |
| Caches.Cache.constructor | src/cache.cpp:12-34 | The geometry S = size/line/E and b = log2(line size), and every line empty |
| Caches.Cache.LineSize | src/cache.cpp:48-51 | The line size is at least one byte |
| Caches.Cache.SetIndex | src/cache.cpp:68 | The set index is within the S sets |
| Caches.Cache.VictimAddressInverse | src/cache.cpp:96 | The write-back address of a victim lies in the victim's set and carries its tag |
| Caches.Cache.GetCacheLine | src/cache.cpp:66-80 | The loop returns the line the scan specification picks |
| Caches.Cache.Lookup | src/cache.cpp:84-93 | One clock tick, a hit exactly when the chosen line holds the tag, and exactly one counter incremented |
| Caches.Cache.Read | src/cache.cpp:82-103 | A hit refreshes only that line's timestamp for hit_cycles. A miss refills the victim clean, with the tag and the time, paying for a dirty victim's write-back. Tags stay unique in every set |
| Caches.Cache.Write | src/cache.cpp:105-132 | A hit marks the line dirty and pays the next level only under write-through. A miss without allocation changes no line and costs the next level's write. With allocation it refills the line dirty |
| Caches.Cache.WriteHit | src/cache.cpp:110-118 | Dirty and refreshed line, with the write-through charge |
| Caches.Cache.WriteAround | src/cache.cpp:121-122 | A non-allocating write miss leaves every line and counter alone |
| Caches.Cache.Refill | src/cache.cpp:93-102 | The victim becomes the new line after a write-back of a dirty victim under write-back |
| Caches.Cache.SetLine | src/cache.cpp:98-101 | One line replaced, uniqueness of tags kept |
| Caches.Cache.Invalidate | src/cache.cpp:58-64 | Every valid bit cleared, both counters zero, everything else kept |
| Caches.ReadStorage | src/cache.cpp:145-148 | `next->read`: the fixed memory latency at the end of the chain, and at least the cache's hit cycles below a cache |
| Caches.WriteStorage | src/cache.cpp:150-153 | `next->write`: the fixed memory latency at the end of the chain |
| Memory.Translate | src/memory_system.cpp:90-96 | Fails exactly on an unmapped page, and otherwise keeps the page offset within the mapped frame |
| Memory.TranslateInjective | src/memory_system.cpp:90-96 | Distinct mapped addresses translate to distinct physical bytes |
| Memory.StoreWritten | src/memory_system.cpp:143-145 | After a byte-wise store every written byte reads back |
| Memory.StoreOnlyWritten | src/memory_system.cpp:141-154 | A store changes no byte outside the n bytes it writes |
| Memory.StoreLoadRoundTrip | src/memory_system.cpp:116-154 | Storing v in n bytes and loading them back yields v mod 2^(8n), straddling or not |
| Memory.LoadProbe | src/memory_system.cpp:118-121 | A load fails exactly when one of its bytes is unmapped, with that byte's fault |
| Memory.InPageLoad | src/memory_system.cpp:122-130 | Within a page, a load is the little-endian value of the translated bytes |
| Memory.InPageStore | src/memory_system.cpp:146-154 | Within a page, a store splices the little-endian bytes into the frame |
| Memory.LoadConcat | src/memory_system.cpp:120-121 | A load is its low part joined with its high part |
| Memory.LoadFromBound | src/memory_system.cpp:118-121 | A successful load of n bytes is below 2^(8n) |
| Memory.StoreFrom | src/memory_system.cpp:143-145 | The byte-wise store keeps the size of physical memory |
| Memory.WideStore | src/memory_system.cpp:141-153 | A store of 16 to 128 bytes within a page succeeds exactly when its page is mapped. One that runs past the page end always fails |
| Memory.WidePhys | src/memory_system.cpp:141-153 | A store of 16 to 128 bytes within a page leaves memory as it was |
| Memory.StoreWide | src/memory_system.cpp:141-153 | The wide-store path computes what `WideStore` and `WidePhys` say, with both end pages mapped on success |
| Memory.AllocatedPages | src/memory_system.cpp:58-64 | After allocation the page reads zero everywhere and every other address reads as before |
| Memory.MinLineSize | src/memory_system.cpp:16-21 | The smallest line size: a power of two, at most a page, at most every cache's line |
| Memory.LoadBytewise | src/memory_system.cpp:118-121 | The straddling byte loop computes the little-endian load |
| Memory.LoadInPage | src/memory_system.cpp:122-130 | The in-page load computes the same value, and fails only on an unmapped page |
| Memory.StoreBytewise | src/memory_system.cpp:143-145 | The straddling byte loop computes the byte-wise store, and fails exactly when one of its bytes is unmapped |
| Memory.StoreInPage | src/memory_system.cpp:146-154 | The in-page store computes the same bytes and outcome |
| Memory.HalvesJoined | src/memory_system.cpp:100-102 | At page offset 0xFFE the word is the low halfword plus 65536 times the halfword from the next page |
| Memory.LoadHalves | src/memory_system.cpp:100-102 | The two-halfword fetch computes the four-byte load |
| Memory.CopyString | src/memory_system.cpp:79-88 | The page-segment copy equals the byte-wise store of the string, and does nothing when the end wraps past 2^64 |
| Memory.FetchAt | src/memory_system.cpp:100-105 | A successful fetch is the 32-bit little-endian word at the address |
| Memory.LoadData | src/memory_system.cpp:118-130 | The data load, with both the first and the last byte's pages mapped on success |
| Memory.StoreData | src/memory_system.cpp:143-154 | The data store and its outcome, with both end pages mapped on success |
| Memory.MemorySystem.constructor | src/memory_system.cpp:11-32 | The wired hierarchy, the minimum line size, an empty table and the heap at HEAP_START |
| Memory.MemorySystem.Access | src/memory_system.cpp:108 | A cache access at a physical address keeps the hierarchy valid, and costs exactly main memory's latency when the entry point is main memory |
| Memory.MemorySystem.Charge | src/memory_system.cpp:132-138 | One access, or two when the access straddles the smallest line, added to the totals |
| Memory.MemorySystem.ReadData | src/memory_system.cpp:116-139 | `read_data` returns the little-endian load, charges it and counts it. It fails without charging on an unmapped byte |
| Memory.MemorySystem.WriteData | src/memory_system.cpp:141-163 | `write_data` stores the low n bytes of the value, charges them and counts the access. It fails without charging on an unmapped byte. A store of 16 to 128 bytes behaves as `WideStore` and `WidePhys` say |
| Memory.MemorySystem.ReadInst | src/memory_system.cpp:98-114 | `read_inst` returns the fetched word and charges one access, or two when the fetch straddles the smallest line |
| Memory.MemorySystem.WriteStr | src/memory_system.cpp:79-88 | The string's bytes are stored, and nothing else changes |
| Memory.MemorySystem.PageAlloc | src/memory_system.cpp:58-64 | The page of `va` maps to a new zero frame, and every other address reads as before |
| Memory.MemorySystem.Sbrk | src/memory_system.cpp:165-176 | Returns the old heap pointer and advances it by n modulo 2^64. The pages change as `HeapGrown` says: existing pages keep frame and contents, only pages of [old, old+n) are added, all of them when the end does not wrap, and new pages read zero |
| Memory.MemorySystem.MapRange | src/memory_system.cpp:169-173 | The page walk maps every page of the range and only pages of the range |
| Memory.MemorySystem.InvalidateCache | src/memory_system.cpp:51-52 | One cache invalidated: counters zero, every valid bit clear, its clock and every line's tag, timestamp and dirty bit kept; the others untouched, the hierarchy kept |
| Memory.MemorySystem.Reset | src/memory_system.cpp:43-56 | Empty table, heap at HEAP_START, every cache invalidated with its clock, tags, timestamps and dirty bits kept, both totals zero |
| Pipeline.Control | src/simulator.cpp:293-314 | The data-dependence, `jalr` and misprediction signals are mutually exclusive. A misprediction cancels the other two. The dependence rule depends on forwarding and includes an `ecall` in E/M/W |
| Pipeline.NextPipe | src/simulator.cpp:309-314 | The effect of a tick's signals and commit on the five registers. Bubbles move down E, M, W, and the between-tick invariant is kept |
| Pipeline.FetchPc | src/simulator.cpp:81-90 | The fetch address: the jalr target from M, the resolved branch address after a misprediction, else the predicted pc |
| Pipeline.PredictNext | src/simulator.cpp:100-110 | A branch is predicted to one of pc+len and pc+imm, `jal` to pc+imm, and everything else to pc+len |
| Pipeline.OperandIsArchitectural | src/simulator.cpp:114-133 | Without a hazard, the forwarded operand equals the register value after every older instruction retires |
| Pipeline.RetireAt | src/simulator.cpp:276-277 | Write-back changes only `reg[rd]`, and never x0 or a bubble |
| Pipeline.BubbleWritesNothing | src/register_def.cpp:18-21 | A bubble has rd 0, so it never forwards or causes a hazard |
| Pipeline.DecodeStage | src/simulator.cpp:135-150 | ID's record is the decoded instruction at D's pc, or the decode fault |
| Pipeline.WordResultKeepsHighBits | src/simulator.cpp:218-219 | Word results keep their upper half when bit 31 is clear |
| Pipeline.ExStage | src/simulator.cpp:152-234 | EX forwards opcode, funct3, rd, pc, the link value pc+len for jumps, and the branch condition, at the operation's cycle cost. It fails exactly on an undefined ALU case |
| Pipeline.AddResult | src/simulator.cpp:194-195 | An `Add` computes the wrapped sum of the selected operands |
| Pipeline.PcRelativeTarget | src/simulator.cpp:182-187 | Branches, `jal` and `auipc` compute pc + imm |
| Pipeline.RegisterRelativeTarget | src/simulator.cpp:188-190 | `jalr`, loads and stores compute rs1 + imm |
| Pipeline.LuiValue | src/simulator.cpp:176-195 | `lui` with x0 as source yields its immediate |
| Pipeline.AccessBytesRange | src/simulator.cpp:248-257 | Loads and stores move 1, 2, 4 or 8 bytes by the low two bits of funct3 |
| Pipeline.WideStoreBytes | src/simulator.cpp:256-258 | A store with funct3 4..7 asks `write_data` for 16, 32, 64 or 128 bytes |
| Pipeline.ExtendFits | src/simulator.cpp:250-253 | Zero extension keeps a value that fits, and sign extension yields its two's-complement reading |
| Pipeline.LoadedValue | src/simulator.cpp:247-254 | Unsigned loads deliver the loaded value, and signed loads its two's-complement reading |
| Pipeline.MemOutcome | src/simulator.cpp:236-269 | MEM's write-back record. Loads fail exactly when the load fails. Stores of 1 to 8 bytes fail exactly when a byte is unmapped, and wider ones (funct3 4..7) exactly when they leave the page or the page is unmapped. Jumps pass the link value and everything else passes valE |
| Pipeline.MemPhys | src/simulator.cpp:256-258 | Memory changes only for a store, and a wider store that succeeds changes nothing |
| Pipeline.StoreThenLoad | src/simulator.cpp:247-258 | A load after a store of 1 to 8 bytes to the same address, of the same width, returns the stored value truncated to that width |
| Pipeline.Fetched | src/simulator.cpp:92-110 | IF's outcome: the fetch fault, the decode fault, or the predicted pc and the fetched word |
| Pipeline.Simulator.constructor | src/simulator.cpp:366-374 | Registers zero, F at the entry pc, D/E/M/W bubbles, no misprediction, counters zero |
| Pipeline.Simulator.WriteBack | src/simulator.cpp:271-280 | `WB` retires W into the register file, at one cycle unless W is a bubble |
| Pipeline.Simulator.MemoryAccess | src/simulator.cpp:236-269 | `MEM` performs M's load or store on the memory system and yields the write-back record or the fault, with memory changed as `MemPhys` says |
| Pipeline.Simulator.Fetch | src/simulator.cpp:78-112 | `IF` fetches at the selected pc and yields the predicted next pc and the D record, without changing memory contents |
| Pipeline.Simulator.Syscall | src/simulator.cpp:465-496 | The `ecall` dispatch on a7, as `SyscallEffect` states it: exit with a0, print a1's low byte, sbrk, readint, time, or an unsupported-number fault. Only a0 and, for sbrk, the heap change. The sbrk pages are as `HeapGrown` says. The cycles are `ecall_cycles[a7]` |
| Pipeline.Simulator.ProcessControl | src/simulator.cpp:282-319 | `process_control_signal` resolves E's branch against the predictor, updates the predictor and sets the control bits and counters |
| Pipeline.Simulator.BackStages | src/simulator.cpp:399-404 | WB, MEM and EX in order, with the first fault, success when neither faults, and the slowest stage's cycles |
| Pipeline.Simulator.FrontStages | src/simulator.cpp:405-408 | ID and IF in order, with the first fault and success when neither faults |
| Pipeline.Simulator.RunStages | src/simulator.cpp:396-411 | The five stages and the `ecall`. The first faulting stage, in the order MEM, EX, ID, IF, stops the run with its fault. With no fault and no `ecall` in W the run goes on; with an `ecall` in W the tick ends as `SyscallEffect` says on the registers after WB and memory after MEM. Otherwise the next-state records are the stages' outcomes |
| Pipeline.Simulator.Advance | src/simulator.cpp:447-460 | The signals, the statistics, the commit of all five registers, and the branch table after the feedback: one saturating step at the branch's slot for a branch under the history-table predictor, unchanged otherwise |
| Pipeline.Simulator.Signal | src/simulator.cpp:309-318 | The control bits and the three signal counters |
| Pipeline.ResolveBranch | src/simulator.cpp:284-291 | A misprediction exactly when the prediction differs from the resolved address. The predictor learns the outcome |

## Left out

- ELF loading (`load_segment`, the entry pc), `init_stack` and the argument strings are left out. The simulator is built from a loaded memory and an entry pc instead.
- The debugger, `Simulator::start`, SIGINT handling, configuration-file parsing, disassembly strings (`asm_str`, `inst_map`), all printing and the floating-point statistics (CPI, accuracy, miss rate) are left out. They are I/O.
- The outer `while (true)` of `run_prog` and its exit and error reporting are left out. One tick is `Simulator.RunStages` followed by `Simulator.Advance`.
- Pipeline.Simulator.Syscall: the character `cputchar` prints is returned, and the values `readint` and `time` read are parameters. A failed input stream, which leaves the source's `tmp` uninitialised, is not modelled.
- Caches.Cache.constructor: the source leaves `time`, the timestamps and the dirty bits uninitialised. The model starts them at 0 and false.
- Caches.Cache.Read: the exact cycle count is stated only when the next level is main memory. Below another cache the contract gives the lower bound `hit_cycles`.
- Caches.Cache.Write: the exact cycle count is stated only when the next level is main memory.
- Caches.Cache.Refill: the exact cycle count is stated only when the next level is main memory.
- Memory.MemorySystem.Access: the cycle count is stated only for main memory as the entry point.
- Memory.MemorySystem.ReadData: the cycle count is stated only for main memory as the data entry point.
- Memory.MemorySystem.WriteData: the cycle count is stated only for main memory as the data entry point.
- Memory.MemorySystem.ReadInst: the cycle count is stated only for main memory as the instruction entry point.
- Caches.Cache.WriteHit: the exact cycle count under write-through is stated only when the next level is main memory, and the lower level's new state is not stated.
- Caches.Cache.WriteAround: the cycle count is stated only when the next level is main memory, and the lower level's new state is not stated.
- Caches.ReadStorage: below another cache only the lower bound `hit_cycles` is stated, and that cache's new state is not.
- Caches.WriteStorage: below another cache neither the cycle count nor that cache's new state is stated.
- Memory.MemorySystem.Charge: the cycle count is stated only when the entry point is main memory; for a cache entry point the caches' new state is not stated.
- Memory.MemorySystem.Sbrk: when the new break lies in the last page of the address space, the source's `PGADDR(heap_pointer) + PGSIZE` wraps to 0 and its loop keeps mapping from page 0 upwards. The model stops at 2^64 and maps only the pages of the range.
- Memory.MemorySystem.MapRange: the walk is over unbounded integers and stops at 2^64, where the source's 64-bit page pointer would wrap to page 0.
- Pipeline.Simulator.MemoryAccess: the cycle count of a load or a store is not stated beyond what `ReadData` and `WriteData` promise.
- Pipeline.Simulator.RunStages: the tick's cycle count is not stated. `Pipeline.Simulator.BackStages` bounds it from below.
- The set index `(ptr >> b) & (S - 1)` is modelled as `(ptr / 2^b) % S`, which is equal for a power-of-two S. The cache constructor requires S and the line size to be powers of two.
- Counters (`hit_num`, `tick`, the statistics) are unbounded naturals. The cache clock wraps at 2^32 as in the source.
- Frames are host allocations in the source. Here they are consecutive zero pages, and `reset` leaves the old frames unreachable rather than freeing them.
- Alu.Execute: division or remainder by zero, `INT64_MIN / -1`, register shifts by 64 or more, and a `MULH` whose 128-bit signed product overflows are undefined on the host. The model reports an arithmetic fault for them instead of a value.
- Memory.FetchAt: a fetch at page offset 0xFFD or 0xFFF reads past the host frame in the source. The model reports an undefined-access fault.
- Memory.WideStore: a store of 16 to 128 bytes (funct3 4..7) that runs past the end of its page shifts the value by 64 bits or more in the source, which is undefined on the host. The model writes the first eight bytes as the source would and then reports an undefined-access fault. Within a page the source writes nothing but charges and counts the access, and so does the model.
- Pipeline.MemOutcome: a funct3 of 8 or more, which no decoded instruction carries, is an undefined-access fault.
- Loads and stores are little-endian byte sequences. The source relies on a little-endian host.
- The fetch stage decodes into a zero record. The source's local record is uninitialised, which matters only for `c.ebreak`, the one form that writes no opcode.
