/**
 * What each one-byte opcode handler of instructions.c does, as a function
 * from the emulator state before the instruction (EIP at its opcode byte)
 * to the state after it. The methods of module Instructions are proved to
 * perform exactly these updates in place.
 *
 * Handlers that read a ModR/M byte parse it at EIP + 1; parse_modrm moves
 * EIP past the byte and its displacement, so an immediate that follows is
 * read at offset 0 from the new EIP.
 */
module Semantics {
  import opened Machine
  import opened Flags
  import opened Access
  import opened ModRM

  /** The result of a group opcode: a next state, or the fatal "Not implemented" exit. */
  datatype Outcome = Next(state: State) | Fault(opcode: u8, sub: RegIndex)

  // ---------------------------------------------------------------------
  // The ModR/M operand of the instruction at EIP

  predicate ModRMFits(s: State) {
    Fits(s.memory, Add32(s.eip, 1))
  }

  /** The operand the ModR/M byte after the opcode names. */
  function ModRMAt(s: State): ModRM
    requires ModRMFits(s)
  {
    Decode(s.memory, Add32(s.eip, 1))
  }

  /** `emu->eip += 1; parse_modrm(emu, &modrm);`: the operand, and the state with EIP after it. */
  function AfterModRM(s: State): (r: (ModRM, State))
    requires ModRMFits(s)
    ensures r.0 == ModRMAt(s)
    ensures r.1 == s.(eip := Add32(s.eip, 1 + r.0.size))
  {
    var m := ModRMAt(s);
    Add32Add32(s.eip, 1, m.size);
    (m, s.(eip := Add32(Add32(s.eip, 1), m.size)))
  }

  /** Everything but EIP is as in `WriteRm32(s, m, v)`: the rm32 operand now holds `v`. */
  predicate StoresRm32(t: State, s: State, m: ModRM, v: u32)
    requires OperandFits(s, m)
  {
    t.(eip := s.eip) == WriteRm32(s, m, v)
  }

  // ---------------------------------------------------------------------
  // Unconditional jumps

  /** jmp short (EB): EIP := EIP + 2 + sign-extended byte at EIP + 1, modulo 2^32. */
  function ShortJump(s: State): (t: State)
    requires s.eip + 1 < |s.memory|
    ensures t == s.(eip := t.eip)
    ensures t.eip == Add32(Add32(s.eip, 2), Sext8(s.memory[s.eip + 1]))
  {
    Add32Add32(s.eip, 2, SignCode8(s, 1));
    s.(eip := Add32(s.eip, SignCode8(s, 1) + 2))
  }

  /** jmp near (E9): EIP := EIP + 5 + signed 32-bit word at EIP + 1, modulo 2^32. */
  function NearJump(s: State): (t: State)
    requires s.eip + 5 <= |s.memory|
    ensures t == s.(eip := t.eip)
    ensures t.eip == Add32(Add32(s.eip, 5), Signed32(Load32(s.memory, s.eip + 1)))
  {
    Add32Add32(s.eip, 5, SignCode32(s, 1));
    s.(eip := Add32(s.eip, SignCode32(s, 1) + 5))
  }

  // ---------------------------------------------------------------------
  // Data movement

  predicate MovR32Imm32Fits(s: State) {
    s.eip + 5 <= |s.memory| && 0xB8 <= s.memory[s.eip] < 0xB8 + REGISTERS_COUNT
  }

  /** mov r32, imm32 (B8+r): the register the opcode names := the word at EIP + 1; EIP += 5. */
  function MovR32Imm32(s: State): (t: State)
    requires MovR32Imm32Fits(s)
    ensures var r := s.memory[s.eip] - 0xB8;
      t == s.(registers := s.registers[r := Load32(s.memory, s.eip + 1)], eip := Add32(s.eip, 5))
  {
    var reg := Code8(s, 0) - 0xB8;
    WithRegister(s, reg, Code32(s, 1)).(eip := Add32(s.eip, 5))
  }

  predicate MovRm32Imm32Fits(s: State) {
    ModRMFits(s) &&
    var (m, t) := AfterModRM(s);
    t.eip + 4 <= |t.memory| && OperandFits(t, m)
  }

  /**
   * mov rm32, imm32 (C7 /r): the operand := the word after the ModR/M byte
   * and its displacement; EIP moves past opcode, ModR/M, displacement and
   * the four immediate bytes, at least six bytes in all.
   */
  function MovRm32Imm32(s: State): (t: State)
    requires MovRm32Imm32Fits(s)
    ensures var m := ModRMAt(s);
      && OperandFits(s, m)
      && StoresRm32(t, s, m, Load32(s.memory, Add32(s.eip, 1 + m.size)))
      && t.eip == Add32(s.eip, 1 + m.size + 4)
      && 6 <= 1 + m.size + 4
  {
    var (m, t) := AfterModRM(s);
    var value := Code32(t, 0);
    Add32Add32(s.eip, 1 + m.size, 4);
    WriteRm32(t.(eip := Add32(t.eip, 4)), m, value)
  }

  predicate ModRMOperandFits(s: State) {
    ModRMFits(s) && OperandFits(s, ModRMAt(s))
  }

  /** mov rm32, r32 (89 /r): the operand := the register the reg field names. */
  function MovRm32R32(s: State): (t: State)
    requires ModRMOperandFits(s)
    ensures var m := ModRMAt(s);
      StoresRm32(t, s, m, s.registers[m.reg]) && t.eip == Add32(s.eip, 1 + m.size)
  {
    var (m, t) := AfterModRM(s);
    WriteRm32(t, m, R32(t, m))
  }

  /** mov r32, rm32 (8B /r): the register the reg field names := the operand. */
  function MovR32Rm32(s: State): (t: State)
    requires ModRMOperandFits(s)
    ensures var m := ModRMAt(s);
      t == s.(registers := s.registers[m.reg := Rm32(s, m)], eip := Add32(s.eip, 1 + m.size))
  {
    var (m, t) := AfterModRM(s);
    WithRegister(t, m.reg, Rm32(t, m))
  }

  // ---------------------------------------------------------------------
  // Arithmetic

  /** add rm32, r32 (01 /r): the operand := operand + register, modulo 2^32; EFLAGS unchanged. */
  function AddRm32R32(s: State): (t: State)
    requires ModRMOperandFits(s)
    ensures var m := ModRMAt(s);
      StoresRm32(t, s, m, Wrap(Rm32(s, m) + s.registers[m.reg])) && t.eip == Add32(s.eip, 1 + m.size)
  {
    var (m, t) := AfterModRM(s);
    var r32 := R32(t, m);
    var rm32 := Rm32(t, m);
    WriteRm32(t, m, Add32(r32, rm32))
  }

  /** The imm8 byte at EIP (after the ModR/M operand) exists, and so does the operand. */
  predicate Imm8Fits(s: State, m: ModRM) {
    s.eip < |s.memory| && OperandFits(s, m)
  }

  /** `(uint32_t)(int32_t)get_sign_code8(emu, 0)`: the imm8 sign-extended to 32 bits. */
  function Imm8(s: State): (v: u32)
    requires s.eip < |s.memory|
    ensures Signed32(v) == Sext8(s.memory[s.eip])
  {
    Wrap(SignCode8(s, 0))
  }

  /** add rm32, imm8 (83 /0), after the ModR/M operand: operand += sign-extended imm8; EFLAGS unchanged. */
  function AddRm32Imm8(s: State, m: ModRM): (t: State)
    requires Imm8Fits(s, m)
    ensures StoresRm32(t, s, m, Add32(Rm32(s, m), Sext8(s.memory[s.eip])))
    ensures t.eip == Add32(s.eip, 1)
  {
    var rm32 := Rm32(s, m);
    var imm8 := Imm8(s);
    ImmediateSum(rm32, s.memory[s.eip]);
    WriteRm32(s.(eip := Add32(s.eip, 1)), m, Add32(rm32, imm8))
  }

  /** sub rm32, imm8 (83 /5), after the ModR/M operand: operand -= imm8, with the flags of the subtraction. */
  function SubRm32Imm8(s: State, m: ModRM): (t: State)
    requires Imm8Fits(s, m)
    ensures StoresRm32(t.(eflags := s.eflags), s, m, Wrap(Rm32(s, m) - Imm8(s)))
    ensures SubtractionFlags(t.eflags, s.eflags, Rm32(s, m), Imm8(s))
    ensures t.eip == Add32(s.eip, 1)
  {
    var rm32 := Rm32(s, m);
    var imm8 := Imm8(s);
    var result := Sub64(rm32, imm8);
    var t := WriteRm32(s.(eip := Add32(s.eip, 1)), m, Wrap(result));
    SubFlags(s.eflags, rm32, imm8);
    Sub64Truncated(rm32, imm8);
    t.(eflags := UpdatedEflagsSub(t.eflags, rm32, imm8, result))
  }

  /** cmp rm32, imm8 (83 /7), after the ModR/M operand: the flags of operand - imm8, nothing else. */
  function CmpRm32Imm8(s: State, m: ModRM): (t: State)
    requires Imm8Fits(s, m)
    ensures t == s.(eflags := t.eflags, eip := Add32(s.eip, 1))
    ensures SubtractionFlags(t.eflags, s.eflags, Rm32(s, m), Imm8(s))
  {
    var rm32 := Rm32(s, m);
    var imm8 := Imm8(s);
    SubFlags(s.eflags, rm32, imm8);
    s.(eip := Add32(s.eip, 1), eflags := UpdatedEflagsSub(s.eflags, rm32, imm8, Sub64(rm32, imm8)))
  }

  /** The sub-opcodes of group 83 that have a handler. */
  predicate IsCode83Op(sub: RegIndex) {
    sub == 0 || sub == 5 || sub == 7
  }

  predicate Code83Fits(s: State) {
    ModRMFits(s) &&
    var (m, t) := AfterModRM(s);
    IsCode83Op(m.reg) ==> Imm8Fits(t, m)
  }

  /** code_83: dispatch on the reg field of the ModR/M byte; any sub-op but 0, 5, 7 is fatal. */
  function Code83(s: State): (r: Outcome)
    requires Code83Fits(s)
    ensures var (m, t) := AfterModRM(s);
      && (r.Fault? <==> !IsCode83Op(m.reg))
      && (r.Fault? ==> r == Fault(0x83, m.reg))
      && (m.reg == 0 ==> r == Next(AddRm32Imm8(t, m)))
      && (m.reg == 5 ==> r == Next(SubRm32Imm8(t, m)))
      && (m.reg == 7 ==> r == Next(CmpRm32Imm8(t, m)))
  {
    var (m, t) := AfterModRM(s);
    if m.reg == 0 then Next(AddRm32Imm8(t, m))
    else if m.reg == 5 then Next(SubRm32Imm8(t, m))
    else if m.reg == 7 then Next(CmpRm32Imm8(t, m))
    else Fault(0x83, m.reg)
  }

  /** cmp r32, rm32 (3B /r): the flags of register - operand; no register or memory changes. */
  function CmpR32Rm32(s: State): (t: State)
    requires ModRMOperandFits(s)
    ensures var m := ModRMAt(s);
      && t == s.(eflags := t.eflags, eip := Add32(s.eip, 1 + m.size))
      && SubtractionFlags(t.eflags, s.eflags, s.registers[m.reg], Rm32(s, m))
  {
    var (m, t) := AfterModRM(s);
    var r32 := R32(t, m);
    var rm32 := Rm32(t, m);
    SubFlags(t.eflags, r32, rm32);
    t.(eflags := UpdatedEflagsSub(t.eflags, r32, rm32, Sub64(r32, rm32)))
  }

  /** inc rm32 (FF /0), after the ModR/M operand: operand += 1 modulo 2^32; EFLAGS unchanged. */
  function IncRm32(s: State, m: ModRM): (t: State)
    requires OperandFits(s, m)
    ensures StoresRm32(t, s, m, Wrap(Rm32(s, m) + 1)) && t.eip == s.eip
  {
    var value := Rm32(s, m);
    WriteRm32(s, m, Add32(value, 1))
  }

  predicate CodeFFFits(s: State) {
    ModRMFits(s) &&
    var (m, t) := AfterModRM(s);
    m.reg == 0 ==> OperandFits(t, m)
  }

  /** code_ff: sub-op 0 is inc; any other sub-op is fatal. */
  function CodeFF(s: State): (r: Outcome)
    requires CodeFFFits(s)
    ensures var (m, t) := AfterModRM(s);
      && (r.Fault? <==> m.reg != 0)
      && (r.Fault? ==> r == Fault(0xFF, m.reg))
      && (m.reg == 0 ==> r == Next(IncRm32(t, m)))
  {
    var (m, t) := AfterModRM(s);
    if m.reg == 0 then Next(IncRm32(t, m)) else Fault(0xFF, m.reg)
  }

  // ---------------------------------------------------------------------
  // The stack

  predicate PushR32Fits(s: State) {
    s.eip < |s.memory| && 0x50 <= s.memory[s.eip] < 0x50 + REGISTERS_COUNT && PushFits(s)
  }

  /** push r32 (50+r): pushes the register the opcode names (its value before ESP moves); EIP += 1. */
  function PushR32(s: State): (t: State)
    requires PushR32Fits(s)
    ensures t == Push(s, s.registers[s.memory[s.eip] - 0x50]).(eip := Add32(s.eip, 1))
  {
    var reg := Code8(s, 0) - 0x50;
    Push(s, s.registers[reg]).(eip := Add32(s.eip, 1))
  }

  /** push imm32 (68): pushes the word at EIP + 1; EIP += 5. */
  function PushImm32(s: State): (t: State)
    requires s.eip + 5 <= |s.memory| && PushFits(s)
    ensures t == Push(s, Load32(s.memory, s.eip + 1)).(eip := Add32(s.eip, 5))
  {
    var value := Code32(s, 1);
    Push(s, value).(eip := Add32(s.eip, 5))
  }

  /** push imm8 (6A): pushes the byte at EIP + 1, zero-extended; EIP += 2. */
  function PushImm8(s: State): (t: State)
    requires s.eip + 1 < |s.memory| && PushFits(s)
    ensures t == Push(s, s.memory[s.eip + 1]).(eip := Add32(s.eip, 2))
    ensures Load32(t.memory, t.registers[ESP]) < 0x100
  {
    var value: u32 := Code8(s, 1);
    Push(s, value).(eip := Add32(s.eip, 2))
  }

  predicate PopR32Fits(s: State) {
    s.eip < |s.memory| && 0x58 <= s.memory[s.eip] < 0x58 + REGISTERS_COUNT && PopFits(s)
  }

  /** pop r32 (58+r): ESP += 4, then the register the opcode names := the word at the old ESP; EIP += 1. */
  function PopR32(s: State): (t: State)
    requires PopR32Fits(s)
    ensures var r := s.memory[s.eip] - 0x58;
      var esp := s.registers[ESP];
      t == s.(registers := s.registers[ESP := Add32(esp, 4)][r := Load32(s.memory, esp)],
              eip := Add32(s.eip, 1))
  {
    var reg := Code8(s, 0) - 0x58;
    var (value, t) := Pop(s);
    WithRegister(t, reg, value).(eip := Add32(s.eip, 1))
  }

  predicate CallRel32Fits(s: State) {
    s.eip + 5 <= |s.memory| && PushFits(s)
  }

  /** call rel32 (E8): pushes EIP + 5, then EIP := EIP + 5 + the signed word at EIP + 1. */
  function CallRel32(s: State): (t: State)
    requires CallRel32Fits(s)
    ensures t.(eip := s.eip) == Push(s, Add32(s.eip, 5))
    ensures t.eip == Add32(Add32(s.eip, 5), Signed32(Load32(s.memory, s.eip + 1)))
  {
    var offset := SignCode32(s, 1);
    Add32Add32(s.eip, 5, offset);
    Push(s, Add32(s.eip, 5)).(eip := Add32(s.eip, offset + 5))
  }

  /** ret (C3): EIP := the popped word. */
  function Ret(s: State): (t: State)
    requires PopFits(s)
    ensures t == s.(registers := s.registers[ESP := Add32(s.registers[ESP], 4)],
                    eip := Load32(s.memory, s.registers[ESP]))
  {
    var (value, t) := Pop(s);
    t.(eip := value)
  }

  predicate LeaveFits(s: State) {
    s.registers[EBP] + 4 <= |s.memory|
  }

  /** leave (C9): ESP := EBP, then EBP := pop; so EBP := the word at old EBP and ESP := old EBP + 4. */
  function Leave(s: State): (t: State)
    requires LeaveFits(s)
    ensures var ebp := s.registers[EBP];
      t == s.(registers := s.registers[ESP := Add32(ebp, 4)][EBP := Load32(s.memory, ebp)],
              eip := Add32(s.eip, 1))
  {
    var ebp := s.registers[EBP];
    var t := WithRegister(s, ESP, ebp);
    var (value, u) := Pop(t);
    WithRegister(u, EBP, value).(eip := Add32(s.eip, 1))
  }

  // ---------------------------------------------------------------------
  // Short conditional jumps

  /** The short Jcc opcodes 70-75, 78, 79, 7C and 7E. */
  datatype ShortCond = JO | JNO | JC | JNC | JZ | JNZ | JS | JNS | JL | JLE

  /** The jump condition each short Jcc tests. */
  predicate Taken(c: ShortCond, f: Eflags) {
    match c
    case JO => IsOverflow(f)
    case JNO => !IsOverflow(f)
    case JC => IsCarry(f)
    case JNC => !IsCarry(f)
    case JZ => IsZero(f)
    case JNZ => !IsZero(f)
    case JS => IsSign(f)
    case JNS => !IsSign(f)
    case JL => IsSign(f) != IsOverflow(f)
    case JLE => IsZero(f) || IsSign(f) != IsOverflow(f)
  }

  /** The displacement byte is read only when the jump is taken. */
  predicate ShortJccFits(s: State, c: ShortCond) {
    Taken(c, s.eflags) ==> s.eip + 1 < |s.memory|
  }

  /** jX / jnX / jl / jle: EIP += 2 + displacement when taken and exactly 2 when not. */
  function ShortJcc(s: State, c: ShortCond): (t: State)
    requires ShortJccFits(s, c)
    ensures t == s.(eip := t.eip)
    ensures Taken(c, s.eflags) ==> t == ShortJump(s)
    ensures !Taken(c, s.eflags) ==> t.eip == Add32(s.eip, 2)
  {
    var diff := if Taken(c, s.eflags) then SignCode8(s, 1) else 0;
    s.(eip := Add32(s.eip, diff + 2))
  }

  /** Adding the sign-extended imm8 as a uint32_t is adding the signed byte modulo 2^32. */
  lemma {:induction false} ImmediateSum(a: u32, b: u8)
    ensures Add32(a, Wrap(Sext8(b))) == Add32(a, Sext8(b))
  {
    Add32Add32(Sext8(b), 0, a);
  }
}
