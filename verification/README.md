# dax86 instruction core in Dafny

This project models the instruction-execution core of dax86, a small x86
emulator written in C: the machine state of `emulator.h`, the one-byte opcode
handlers and the dispatch table of `instructions.c`, and the two-byte near
conditional jumps (0F 82 .. 0F 87, 0F 8F) of `instructions_0F80.c`.

The model has two layers.

- **Pure step functions** (module `Semantics`, and the pure part of `NearJumps`)
  take a `Machine.State` value with EIP at an opcode byte and give the state after
  the instruction. Their contracts say which register, memory word or flag changes,
  and how far EIP moves. The lemmas of `Properties`, `NearJumps`, `Flags`,
  `Access` and `InstructionTable` state what these effects mean. Examples: the
  conditions a Jcc tests after a compare, push/pop and call/ret pairing, exact
  instruction lengths, and the flag rules of subtraction.
- **The emulator object** (`Machine.Emulator`) has the fields of the C struct.
  The general, segment and control registers and the memory are arrays. `eflags`,
  `eip`, `gdtr` and `exception` are fields that are assigned in place. Every C
  handler is a method of module `Instructions` (the near Jcc handler is
  `NearJumps.Jcc32`). Each method runs the handler's steps in the C order. The
  handlers with a ModR/M byte:
  1. advance EIP past the opcode;
  2. parse the ModR/M byte;
  3. read the operands;
  4. write through `set_rm32` or `set_r32`, or update EFLAGS.

  The others read their operands, write through `set_register32`, `push32` or
  `pop32`, and only then move EIP, as the C does: by the instruction length
  (mov r32, imm32, push, pop, leave), by the length plus the displacement (the
  relative jumps, call, and a taken Jcc), or to the popped word (ret).

  Each method is proved to leave `emu.View()` equal to the step function applied
  to the old view.

`InstructionTable.InitInstructions` builds the 256-entry table with the same
loops and stores as `init_instructions`. It is proved equal, entry by entry, to
the function `Table`. `Instructions.Dispatch` runs the handler an entry is bound
to.

The helpers that the modelled files call are defined in headers this model does
not include:

- `get_code8/32` and `get_sign_code8/32`;
- `push32` and `pop32`;
- `update_eflags_sub` and `is_carry/zero/sign/overflow`;
- `parse_modrm`, `get_rm32/set_rm32` and `get_r32/set_r32`.

They are given explicit, minimal definitions in modules `Access`, `Flags` and
`ModRM`. These definitions are assumptions:

- code bytes and memory words are little-endian;
- `push32` subtracts 4 from ESP and then stores; `pop32` loads and then adds 4;
- `update_eflags_sub` sets CF (borrow), ZF, SF and OF as SUB does, and no other bit;
- the ModR/M byte splits into mod, reg and rm;
- `parse_modrm` itself moves EIP past the ModR/M byte and its displacement.

Where comments and code disagree, the model follows the code:

- The comment on `mov rm32 imm32` (instructions.c:49) gives 5 bytes. The
  instruction is at least 6 bytes: opcode, ModR/M, displacement and imm32.
  `Semantics.MovRm32Imm32` states the `6 <=` bound.
- The comment on `inc_rm32` (instructions.c:210) names opcode 83. The handler
  is reached through `code_ff`, opcode FF.

A conditional jump reads its displacement only when the condition holds (the
`?:` at instructions.c:336-342 and instructions_0F80.c:14-19), not
unconditionally. So the model requires the displacement bytes to exist only on
the taken path (`ShortJccFits`, `NearJccFits`).

`push_imm8` (instructions.c:268-273) zero-extends its byte, while the group-83
imm8 is sign-extended (`Properties.Imm8Extensions`). The Intel manual's PUSH
imm8 sign-extends; the model keeps the code's behaviour.

## Model

| member | source | states |
|---|---|---|
| Machine.RegisterOf | emulator.h:20-30 | each 3-bit ModR/M field value 0..7 names EAX, ECX, EDX, EBX, ESP, EBP, ESI, EDI in that order, all below REGISTERS_COUNT = 8 |
| Machine.ByteRegisterAliases | emulator.h:31-38 | AL/CL/DL/BL are the indices of EAX/ECX/EDX/EBX, and AH/CH/DH/BH are those indices plus 4, so they have no storage of their own |
| Machine.Add32Add32 | emulator.h:120-125 | two uint32_t additions of int offsets in a row equal one addition of the summed offset, modulo 2^32 |
| Machine.WrapSub | emulator.h:120-121 | subtracting a uint32_t-truncated value wraps to the same result as subtracting the untruncated value |
| Machine.Signed32 | instructions.c:31 | reading a uint32_t as int32_t gives a value in [-2^31, 2^31) that wraps back to the same word |
| Machine.Emulator.View | emulator.h:118-128 | the object's value: eflags, 8 general, 6 segment and 5 control registers, memory, eip, gdtr, exception |
| Machine.Emulator.constructor | emulator.h:118-128 | the whole new view: EFLAGS clear, every general register 0 except ESP, all 6 segment and 5 control registers 0, `size` zero bytes of memory, the given EIP, GDTR (0, 0) and exception 0 |
| Flags.IsCarry | emulator.h:98-104 | is_carry reads bit 0 (CF) of EFLAGS |
| Flags.IsZero | emulator.h:98-104 | is_zero reads bit 6 (ZF) of EFLAGS |
| Flags.IsSign | emulator.h:98-104 | is_sign reads bit 7 (SF) of EFLAGS |
| Flags.IsOverflow | emulator.h:98-104 | is_overflow reads bit 11 (OF) of EFLAGS |
| Flags.UpdatedEflagsSub | instructions.c:146 | update_eflags_sub sets CF iff the 64-bit result's high half is non-zero, ZF iff the result is 0, SF iff its bit 31, OF iff the operands' signs differ and the result's sign differs from v1's; every other bit stays |
| Flags.Difference64 | instructions.c:143 | the 64-bit difference of two uint32_t borrows (high half non-zero) iff a < b, is zero iff a == b, and has the wrapped 32-bit difference's bit 31 |
| Flags.Sub64Truncated | instructions.c:143-145 | the uint64_t difference stored into a uint32_t operand is the 32-bit difference modulo 2^32 |
| Flags.OverflowRule | instructions.c:146 | the sign rule for OF (operand signs differ and the result's sign differs from the first operand) holds iff the signed difference does not fit in 32 bits |
| Flags.SubFlags | instructions.c:143-146 | update_eflags_sub(v1, v2, v1 - v2) sets CF iff v1 < v2, ZF iff v1 == v2, SF iff bit 31 of the difference, OF iff signed overflow, and keeps every other EFLAGS bit |
| Flags.SubFlagsExample | instructions.c:143-146 | 5 - 10 leaves ZF clear and CF, SF set, with OF clear |
| Access.Push | instructions.c:245 | push32 lowers ESP by 4 modulo 2^32 and stores the word there; no other register and no byte outside the four changes |
| Access.Pop | instructions.c:283 | pop32 returns the word at ESP and raises ESP by 4 modulo 2^32; memory is unchanged |
| Access.Code8 | instructions.c:43 | get_code8: the byte i places after EIP, EIP unmoved |
| Access.SignCode8 | instructions.c:19 | get_sign_code8 lies in [-128, 128) and is the byte i places after EIP modulo 256 |
| Access.Code32 | instructions.c:44 | get_code32 is the little-endian word at EIP + i; Access.LoadBytes proves its four bytes are the code bytes i .. i + 3 |
| Access.SignCode32 | instructions.c:31 | get_sign_code32 is get_code32 read as int32_t, so by Machine.Signed32 it lies in [-2^31, 2^31) and wraps back to the word |
| Access.LoadStore | instructions.c:63 | reading a stored little-endian word back gives the stored value |
| Access.LoadBytes | instructions.c:44 | the four bytes of a loaded word are the memory bytes it came from, lowest first |
| Access.StoreLoad | instructions.c:63 | storing the word just loaded from an address leaves memory unchanged |
| Access.PopPush | instructions.c:245-283 | pop32 right after push32 returns the pushed value and restores every register, ESP included |
| Access.PushAll | instructions.c:242-273 | pushing n words lowers ESP by 4n and leaves all memory at or above the old ESP intact |
| Access.PopN | instructions.c:280-285 | n pops return the n words upward from ESP in order and raise ESP by 4n |
| Access.PushedWords | instructions.c:242-285 | after pushing v1..vn, the k-th word above ESP is v(n-k) |
| Access.PushPopSequence | instructions.c:242-285 | pushing v1..vn and then popping n times yields vn..v1 and restores every register, ESP included |
| Access.Push32 | instructions.c:245 | the push32 method performs exactly the Push update on the object |
| Access.Pop32 | instructions.c:283 | the pop32 method returns the Pop value and performs the Pop update |
| Access.SetRegister32 | instructions.c:283 | set_register32 leaves the view equal to the old one with only register r replaced |
| Access.SetMemory32 | instructions.c:245 | set_memory32 leaves the view equal to the old one with the four bytes of the word stored little-endian at the address |
| ModRM.Decode | instructions.c:58-60 | a decoded ModR/M byte has mod < 4, re-encodes to the byte, and its displacement fits in memory |
| ModRM.FieldsEncode | instructions.c:191 | mod, reg and rm re-encode to the original byte |
| ModRM.EncodeFields | instructions.c:191 | splitting an encoded byte gives back its mod, reg and rm |
| ModRM.WriteRm32 | instructions.c:63 | set_rm32 writes the register rm for mod = 3 and the memory word at the effective address otherwise |
| ModRM.MemoryAddress | instructions.c:125 | the effective address is register rm plus the displacement, modulo 2^32 |
| ModRM.Rm32 | instructions.c:95 | get_rm32 is register rm for mod = 3 and the memory word at the effective address otherwise |
| ModRM.R32 | instructions.c:78 | get_r32 is the register the reg field names |
| ModRM.ReadAfterWrite | instructions.c:63 | reading an rm32 operand after writing it returns the written value |
| ModRM.ParseModRM | instructions.c:58-60 | parse_modrm returns the decoded byte and moves only EIP, past the ModR/M byte and its displacement |
| ModRM.SetRm32 | instructions.c:63 | the set_rm32 method performs exactly WriteRm32 on the object |
| ModRM.SetR32 | instructions.c:97 | set_r32 writes the register the reg field names and nothing else |
| Semantics.AfterModRM | instructions.c:58-60 | after `eip += 1; parse_modrm`, EIP is the old EIP + 1 + the ModR/M byte count, modulo 2^32 |
| Semantics.ShortJump | instructions.c:17-21 | EIP := EIP + 2 + sign-extended byte at EIP + 1, modulo 2^32; nothing else changes |
| Semantics.NearJump | instructions.c:29-33 | EIP := EIP + 5 + signed 32-bit word at EIP + 1, modulo 2^32; nothing else changes |
| Semantics.MovR32Imm32 | instructions.c:41-47 | register (opcode - 0xB8) := word at EIP + 1, EIP += 5; no other register, flag or memory byte changes |
| Semantics.MovRm32Imm32 | instructions.c:56-64 | the operand := the word after the ModR/M bytes; EIP moves by 1 + ModR/M bytes + 4, at least 6 |
| Semantics.MovRm32R32 | instructions.c:72-81 | the operand := the reg-field register; EIP moves past the opcode and ModR/M bytes |
| Semantics.MovR32Rm32 | instructions.c:89-98 | the reg-field register := the operand; nothing else but EIP changes |
| Semantics.AddRm32R32 | instructions.c:106-114 | the operand := operand + register modulo 2^32; EFLAGS unchanged |
| Semantics.Imm8 | instructions.c:126 | the imm8, read as int32_t, is the sign-extended byte |
| Semantics.AddRm32Imm8 | instructions.c:123-129 | the operand := operand + sign-extended imm8 modulo 2^32; EIP += 1; EFLAGS unchanged |
| Semantics.SubRm32Imm8 | instructions.c:138-147 | the operand := operand - imm8 modulo 2^32, with the subtraction flags of operand - imm8; EIP += 1 |
| Semantics.CmpRm32Imm8 | instructions.c:157-165 | only the flags (those of operand - imm8) and EIP change |
| Semantics.Code83 | instructions.c:184-206 | sub-op 0, 5 and 7 run add, sub and cmp; every other sub-op is the fatal outcome carrying 0x83 and the sub-op |
| Semantics.CmpR32Rm32 | instructions.c:173-182 | the flags of register - operand; no register or memory byte changes |
| Semantics.IncRm32 | instructions.c:213-217 | the operand := operand + 1 modulo 2^32; EFLAGS unchanged |
| Semantics.CodeFF | instructions.c:219-235 | sub-op 0 runs inc; every other sub-op is the fatal outcome carrying 0xFF and the sub-op |
| Semantics.PushR32 | instructions.c:242-247 | pushes the register (opcode - 0x50), read before ESP moves; EIP += 1 |
| Semantics.PushImm32 | instructions.c:255-260 | pushes the word at EIP + 1; EIP += 5 |
| Semantics.PushImm8 | instructions.c:268-273 | pushes the byte at EIP + 1 zero-extended, so the pushed word is below 0x100; EIP += 2 |
| Semantics.PopR32 | instructions.c:280-285 | ESP += 4, then register (opcode - 0x58) := the word at the old ESP; EIP += 1 |
| Semantics.CallRel32 | instructions.c:293-301 | pushes EIP + 5, then EIP := EIP + 5 + signed offset, modulo 2^32 |
| Semantics.Ret | instructions.c:308-311 | EIP := the word at ESP; ESP += 4 |
| Semantics.Leave | instructions.c:318-326 | EBP := the word at old EBP, ESP := old EBP + 4; EIP += 1 |
| Semantics.ShortJcc | instructions.c:333-375 | when the condition holds, the same state as the unconditional short jump; otherwise EIP += 2 whatever the displacement; only EIP changes |
| Semantics.Taken | instructions.c:333-373 | jX tests one flag (CF, ZF, SF or OF) and jnX its negation, jl tests SF != OF and jle ZF or SF != OF; their meaning is in Properties.ShortPairs and ConditionsAfterSubtraction |
| Semantics.ImmediateSum | instructions.c:126-128 | adding the sign-extended imm8 as a uint32_t is adding the signed byte modulo 2^32 |
| Properties.ShortPairs | instructions.c:333-353 | for any EFLAGS exactly one of jo/jno, jc/jnc, jz/jnz, js/jns jumps; jle jumps iff jz or jl does |
| Properties.SignedLess | instructions.c:367 | SF != OF after a - b iff a < b as signed 32-bit values |
| Properties.SignedInjective | instructions.c:367-373 | two words with the same int32_t reading are equal |
| Properties.ConditionsAfterSubtraction | instructions.c:350-375 | after the flags of a - b: jc iff a < b, jnc iff a >= b, jz iff a == b, jnz iff a != b, jl iff signed a < b, jle iff signed a <= b |
| Properties.CmpR32Rm32Conditions | instructions.c:173-182 | after cmp r32, rm32 the Jcc conditions compare the register with the operand (unsigned for jc, signed for jl/jle) |
| Properties.CmpIsSubWithoutStore | instructions.c:138-165 | 83 /7 sets the same flags as 83 /5 and differs from it only in leaving registers and memory alone |
| Properties.SubRm32Imm8Result | instructions.c:138-147 | after 83 /5 the operand reads operand - sign-extended imm8, modulo 2^32 |
| Properties.SameOperand | instructions.c:140 | the rm32 operand depends only on the registers and memory |
| Properties.SubTenMinusThree | instructions.c:138-147 | sub of 3 from an operand holding 10 leaves 7 with CF and ZF clear |
| Properties.Imm8Extensions | instructions.c:268-273 | push imm8 pushes its byte zero-extended, while the group-83 imm8 of the same byte is sign-extended |
| Properties.AddRm32Imm8Result | instructions.c:123-129 | after 83 /0 the operand reads operand + sign-extended imm8 modulo 2^32 and EFLAGS is unchanged |
| Properties.AddRm32R32Result | instructions.c:106-114 | after add rm32, r32 the operand reads the wrapped sum and EFLAGS is unchanged |
| Properties.MovRoundTrip | instructions.c:72-98 | writing the reg-field register into an operand and reading the operand back gives that register's value, so a following mov r32', rm32 leaves register r32' holding it |
| Properties.MovRegisterDirect | instructions.c:72-98 | register-direct 89 copies reg into rm and 8B copies rm into reg; no other register, no memory byte and no flag changes |
| Properties.IncRm32Result | instructions.c:213-217 | after inc the operand reads operand + 1 modulo 2^32 and EFLAGS is unchanged |
| Properties.PushThenPop | instructions.c:242-285 | push r32 then pop r32' moves the first register's value into the second, restores ESP and every other register, and moves EIP by 2 |
| Properties.CallThenRet | instructions.c:293-311 | call at A then ret over a balanced stack returns to A + 5 with ESP as before the call |
| Properties.PushEbpThenLeave | instructions.c:318-326 | push ebp ... leave, over an intact frame, restores EBP and ESP to their values before the push |
| NearJumps.NearJcc | instructions_0F80.c:11-21 | when taken, EIP := EIP + 6 + signed word at EIP + 2 modulo 2^32; when not, EIP += 6 whatever the displacement; only EIP changes |
| NearJumps.NearTaken | instructions_0F80.c:11-64 | jc32/jnc32 test CF, jz32/jnz32 ZF, jna32 CF or ZF, ja32 neither, jg32 ZF clear and SF == OF; their meaning is in NearConditionsAfterSubtraction |
| NearJumps.NearPairs | instructions_0F80.c:11-54 | for any EFLAGS exactly one of jc32/jnc32, jz32/jnz32 and jna32/ja32 jumps |
| NearJumps.GreaterIsNotLessOrEqual | instructions_0F80.c:62-66 | jg32 jumps exactly when the short jle (instructions.c:373) does not |
| NearJumps.NearConditionsAfterSubtraction | instructions_0F80.c:44-66 | after the flags of a - b: jc32 iff a < b, jz32 iff a == b, ja32 iff a > b, jna32 iff a <= b, jg32 iff signed a > b |
| NearJumps.TakenIsNearJump | instructions_0F80.c:11-21 | a taken near Jcc lands where jmp near (E9) would if its opcode stood one byte later |
| NearJumps.Jcc32 | instructions_0F80.c:11-66 | the jc32 .. jg32 methods perform exactly NearJcc on the object |
| InstructionTable.InitInstructions | instructions.c:379-428 | the table built by the loops and stores has 256 entries, each equal to Table(op) |
| InstructionTable.Table | instructions.c:379-428 | the handler init_instructions binds at each opcode; BoundExactly and RegisterRanges state which |
| InstructionTable.Execute | instructions.c:377-428 | the outcome of running a bound entry; only group 83 and group FF can be fatal, carrying their own opcode |
| InstructionTable.BoundExactly | instructions.c:379-428 | an entry is bound iff its opcode is one of the listed opcodes or ranges; all others stay empty |
| InstructionTable.RegisterRanges | instructions.c:386-415 | 0x50+r, 0x58+r and 0xB8+r map to push r32, pop r32 and mov r32, imm32 for all eight registers |
| InstructionTable.SystemStateUnchanged | emulator.h:122-127 | no handler writes the segment registers, the control registers, GDTR or the exception field |
| InstructionTable.Code83SystemState | instructions.c:184-206 | group 83 leaves the system state alone whichever sub-op it runs |
| InstructionTable.Code83Length | instructions.c:184-206 | group 83 moves EIP by 1 + ModR/M bytes + 1 |
| InstructionTable.ModRMHandlerLength | instructions.c:56-235 | each handler with a ModR/M byte moves EIP by opcode + ModR/M bytes + its immediate |
| InstructionTable.FixedHandlerLength | instructions.c:41-326 | push r32, pop r32 and leave move EIP by 1, push imm8 by 2, and push imm32 and mov r32, imm32 by 5 |
| InstructionTable.FallThroughLength | instructions.c:379-428 | the handler the opcode at EIP selects, unless it is a jump, call or ret, moves EIP by exactly the encoded instruction length |
| Instructions.StatusOf | instructions.c:202-204 | the fatal status carries the same opcode and sub-op as the fatal outcome |
| Instructions.ShortJump | instructions.c:17-21 | short_jump performs exactly Semantics.ShortJump on the object |
| Instructions.NearJump | instructions.c:29-33 | near_jump performs exactly Semantics.NearJump |
| Instructions.Jcc | instructions.c:333-375 | jo .. jle perform exactly Semantics.ShortJcc |
| Instructions.MovR32Imm32 | instructions.c:41-47 | mov_r32_imm32 performs exactly Semantics.MovR32Imm32 |
| Instructions.OpcodeAndModRM | instructions.c:58-60 | `eip += 1; parse_modrm` performs exactly Semantics.AfterModRM |
| Instructions.MovRm32Imm32 | instructions.c:56-64 | mov_rm32_imm32 performs exactly Semantics.MovRm32Imm32 |
| Instructions.MovRm32R32 | instructions.c:72-81 | mov_rm32_r32 performs exactly Semantics.MovRm32R32 |
| Instructions.MovR32Rm32 | instructions.c:89-98 | mov_r32_rm32 performs exactly Semantics.MovR32Rm32 |
| Instructions.AddRm32R32 | instructions.c:106-114 | add_rm32_r32 performs exactly Semantics.AddRm32R32 |
| Instructions.AddRm32Imm8 | instructions.c:123-129 | add_rm32_imm8 performs exactly Semantics.AddRm32Imm8 |
| Instructions.SubRm32Imm8 | instructions.c:138-147 | sub_rm32_imm8 performs exactly Semantics.SubRm32Imm8 |
| Instructions.CmpRm32Imm8 | instructions.c:157-165 | cmp_rm32_imm8 performs exactly Semantics.CmpRm32Imm8 |
| Instructions.CmpR32Rm32 | instructions.c:173-182 | cmp_r32_rm32 performs exactly Semantics.CmpR32Rm32 |
| Instructions.Code83 | instructions.c:184-206 | code_83 reports Semantics.Code83's outcome and, when it is not fatal, leaves its state |
| Instructions.IncRm32 | instructions.c:213-217 | inc_rm32 performs exactly Semantics.IncRm32 |
| Instructions.CodeFF | instructions.c:219-235 | code_ff reports Semantics.CodeFF's outcome and, when it is not fatal, leaves its state |
| Instructions.PushR32 | instructions.c:242-247 | push_r32 performs exactly Semantics.PushR32 |
| Instructions.PushImm32 | instructions.c:255-260 | push_imm32 performs exactly Semantics.PushImm32 |
| Instructions.PushImm8 | instructions.c:268-273 | push_imm8 performs exactly Semantics.PushImm8 |
| Instructions.PopR32 | instructions.c:280-285 | pop_r32 performs exactly Semantics.PopR32 |
| Instructions.CallRel32 | instructions.c:293-301 | call_rel32 performs exactly Semantics.CallRel32 |
| Instructions.Ret | instructions.c:308-311 | ret performs exactly Semantics.Ret |
| Instructions.Leave | instructions.c:318-326 | leave performs exactly Semantics.Leave |
| Instructions.Dispatch | instructions.c:377-428 | calling a bound table entry reports the outcome of InstructionTable.Execute and, when it is not fatal, leaves its state |

## Left out

- The fetch/execute run loop, program loading, and trace or debug printing are not part of the modelled files. `Instructions.Dispatch` models one call of a bound table entry.
- The table is the value `seq<InstructionTable.Handler>` that `InitInstructions` returns, not a global array of function pointers. `Empty` stands for a NULL entry. Calling an empty entry (the fatal "unimplemented opcode" of the run loop) is not modelled, and `Dispatch` requires a bound entry.
- `printf` + `exit(1)` on an unknown group sub-op is modelled as the `Fault` outcome and the `NotImplemented` status. There is no console output and no process exit.
- Instructions.Code83: when the outcome is fatal, the method states only the status and says nothing about the object, because the C process exits at that point.
- Instructions.CodeFF: likewise, the state after the fatal status is left unstated.
- Instructions.Dispatch: likewise, the state after a fatal outcome is left unstated.
- The bodies of the called helpers (emulator_functions, modrm) are not part of this model. The definitions above replace them as assumptions.
- ModR/M forms with a SIB byte (rm = 4 with mod != 3) and the disp32-only form (mod = 0, rm = 5) are excluded by `ModRM.Supported`. Every ModR/M handler requires a supported byte.
- The source does no bounds checking, so every byte and word a handler touches is a precondition on the memory length. ESP arithmetic still wraps modulo 2^32.
- Code-stream reads (`Access.Code8` .. `SignCode32`) and the jump, push and call preconditions index memory at the unwrapped EIP + i, where the C `emu->memory[emu->eip + i]` wraps modulo 2^32; `Access.PushRoom` (used by the multi-push lemmas) also forbids ESP from wrapping below 0. The inputs this excludes are only those whose instruction or stack touches the top of a memory of nearly 2^32 bytes, since every byte read must lie inside memory.
- EFLAGS is 32 booleans, with bit i at index i (mask 1 << i). The 32-bit word is not modelled as a number, because no handler uses it as one.
- `int diff` / `int32_t offset` plus the instruction length (for example instructions.c:20, 32, 300, 337) is C int arithmetic, where signed overflow near 2^31 is undefined. The model adds the mathematical sum to EIP modulo 2^32, which is what the uint32_t addition gives whenever the int sum does not overflow.
- 8-bit sub-register access (AL .. BH as operands) is declared but no modelled handler uses it. Only the index aliases are modelled.
- The segment and control registers, GDTR and the `Exception` enum have no behaviour in these files. They appear only as fields that must stay unchanged; the enum's values are not modelled.
- The 0x0F second-byte dispatch lives in a file that is not part of this model. The near Jcc handlers are modelled directly, with the condition as a parameter.
