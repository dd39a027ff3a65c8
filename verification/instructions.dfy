/**
 * The one-byte opcode handlers of instructions.c on the emulator object.
 * Each method performs the handler's steps in the source's order (advance
 * EIP past the opcode, parse the ModR/M byte, read the operands, write the
 * result) and is proved to leave the object in the state the matching
 * function of module Semantics gives.
 */
module Instructions {
  import opened Machine
  import opened Flags
  import opened Access
  import opened ModRM
  import S = Semantics
  import T = InstructionTable

  /** How a group handler ends: it ran a sub-handler, or it hit the "Not implemented" exit. */
  datatype Status = Done | NotImplemented(opcode: u8, sub: RegIndex)

  /** The status that reports an outcome. */
  function StatusOf(r: S.Outcome): (status: Status)
    ensures status.Done? <==> r.Next?
    ensures r.Fault? ==> status.opcode == r.opcode && status.sub == r.sub
  {
    match r
    case Next(_) => Done
    case Fault(opcode, sub) => NotImplemented(opcode, sub)
  }

  // ---------------------------------------------------------------------
  // Jumps

  /** short_jump (EB) */
  method ShortJump(emu: Emulator)
    requires emu.Valid() && emu.eip + 1 < emu.memory.Length
    modifies emu
    ensures emu.View() == S.ShortJump(old(emu.View()))
  {
    ghost var s := emu.View();
    var offset := Sext8(emu.memory[emu.eip + 1]);
    emu.eip := Add32(emu.eip, offset + 2);
    assert emu.View() == s.(eip := emu.eip);
  }

  /** near_jump (E9) */
  method NearJump(emu: Emulator)
    requires emu.Valid() && emu.eip + 5 <= emu.memory.Length
    modifies emu
    ensures emu.View() == S.NearJump(old(emu.View()))
  {
    ghost var s := emu.View();
    var diff := Signed32(Load32(emu.memory[..], emu.eip + 1));
    emu.eip := Add32(emu.eip, diff + 5);
    assert emu.View() == s.(eip := emu.eip);
  }

  /** jo, jno, jc, jnc, jz, jnz, js, jns, jl and jle: the one `c` names. */
  method Jcc(emu: Emulator, c: S.ShortCond)
    requires emu.Valid() && S.ShortJccFits(emu.View(), c)
    modifies emu
    ensures emu.View() == S.ShortJcc(old(emu.View()), c)
  {
    ghost var s := emu.View();
    var taken := S.Taken(c, emu.eflags);
    var diff := 0;
    if taken {
      diff := Sext8(emu.memory[emu.eip + 1]);
    }
    assert diff == if taken then SignCode8(s, 1) else 0;
    emu.eip := Add32(emu.eip, diff + 2);
    assert emu.View() == s.(eip := emu.eip);
  }

  // ---------------------------------------------------------------------
  // Data movement

  /** mov_r32_imm32 (B8+r) */
  method MovR32Imm32(emu: Emulator)
    requires emu.Valid() && S.MovR32Imm32Fits(emu.View())
    modifies emu, emu.registers
    ensures emu.View() == S.MovR32Imm32(old(emu.View()))
  {
    ghost var s := emu.View();
    var reg := emu.memory[emu.eip] - 0xB8;
    var value := Load32(emu.memory[..], emu.eip + 1);
    emu.registers[reg] := value;
    emu.eip := Add32(emu.eip, 5);
    assert emu.View() == s.(registers := s.registers[reg := value], eip := emu.eip);
  }

  /** `emu->eip += 1; parse_modrm(emu, &modrm);` */
  method OpcodeAndModRM(emu: Emulator) returns (m: ModRM)
    requires emu.Valid() && S.ModRMFits(emu.View())
    modifies emu
    ensures (m, emu.View()) == S.AfterModRM(old(emu.View()))
  {
    ghost var s := emu.View();
    emu.eip := Add32(emu.eip, 1);
    assert emu.View() == s.(eip := Add32(s.eip, 1));
    m := ParseModRM(emu);
    Add32Add32(s.eip, 1, m.size);
  }

  /** mov_rm32_imm32 (C7 /r) */
  method MovRm32Imm32(emu: Emulator)
    requires emu.Valid() && S.MovRm32Imm32Fits(emu.View())
    modifies emu, emu.registers, emu.memory
    ensures emu.View() == S.MovRm32Imm32(old(emu.View()))
  {
    var m := OpcodeAndModRM(emu);
    var value := Load32(emu.memory[..], emu.eip);
    emu.eip := Add32(emu.eip, 4);
    SetRm32(emu, m, value);
  }

  /** mov_rm32_r32 (89 /r) */
  method MovRm32R32(emu: Emulator)
    requires emu.Valid() && S.ModRMOperandFits(emu.View())
    modifies emu, emu.registers, emu.memory
    ensures emu.View() == S.MovRm32R32(old(emu.View()))
  {
    var m := OpcodeAndModRM(emu);
    var r32 := emu.registers[m.reg];
    SetRm32(emu, m, r32);
  }

  /** mov_r32_rm32 (8B /r) */
  method MovR32Rm32(emu: Emulator)
    requires emu.Valid() && S.ModRMOperandFits(emu.View())
    modifies emu, emu.registers
    ensures emu.View() == S.MovR32Rm32(old(emu.View()))
  {
    var m := OpcodeAndModRM(emu);
    var rm32 := Rm32(emu.View(), m);
    SetR32(emu, m, rm32);
  }

  // ---------------------------------------------------------------------
  // Arithmetic

  /** add_rm32_r32 (01 /r) */
  method AddRm32R32(emu: Emulator)
    requires emu.Valid() && S.ModRMOperandFits(emu.View())
    modifies emu, emu.registers, emu.memory
    ensures emu.View() == S.AddRm32R32(old(emu.View()))
  {
    var m := OpcodeAndModRM(emu);
    var r32 := emu.registers[m.reg];
    var rm32 := Rm32(emu.View(), m);
    SetRm32(emu, m, Add32(r32, rm32));
  }

  /** add_rm32_imm8 (83 /0), with EIP after the ModR/M operand. */
  method AddRm32Imm8(emu: Emulator, m: ModRM)
    requires emu.Valid() && S.Imm8Fits(emu.View(), m)
    modifies emu, emu.registers, emu.memory
    ensures emu.View() == S.AddRm32Imm8(old(emu.View()), m)
  {
    var rm32 := Rm32(emu.View(), m);
    var imm8 := Wrap(Sext8(emu.memory[emu.eip]));
    emu.eip := Add32(emu.eip, 1);
    SetRm32(emu, m, Add32(rm32, imm8));
  }

  /** sub_rm32_imm8 (83 /5), with EIP after the ModR/M operand. */
  method SubRm32Imm8(emu: Emulator, m: ModRM)
    requires emu.Valid() && S.Imm8Fits(emu.View(), m)
    modifies emu, emu.registers, emu.memory
    ensures emu.View() == S.SubRm32Imm8(old(emu.View()), m)
  {
    var rm32 := Rm32(emu.View(), m);
    var imm8 := Wrap(Sext8(emu.memory[emu.eip]));
    emu.eip := Add32(emu.eip, 1);
    var result := Sub64(rm32, imm8);
    SetRm32(emu, m, Wrap(result));
    emu.eflags := UpdatedEflagsSub(emu.eflags, rm32, imm8, result);
  }

  /** cmp_rm32_imm8 (83 /7), with EIP after the ModR/M operand. */
  method CmpRm32Imm8(emu: Emulator, m: ModRM)
    requires emu.Valid() && S.Imm8Fits(emu.View(), m)
    modifies emu
    ensures emu.View() == S.CmpRm32Imm8(old(emu.View()), m)
  {
    ghost var s := emu.View();
    var rm32 := Rm32(emu.View(), m);
    var imm8 := Wrap(Sext8(emu.memory[emu.eip]));
    emu.eip := Add32(emu.eip, 1);
    var result := Sub64(rm32, imm8);
    emu.eflags := UpdatedEflagsSub(emu.eflags, rm32, imm8, result);
    assert emu.View() == s.(eip := emu.eip, eflags := emu.eflags);
  }

  /** cmp_r32_rm32 (3B /r) */
  method CmpR32Rm32(emu: Emulator)
    requires emu.Valid() && S.ModRMOperandFits(emu.View())
    modifies emu
    ensures emu.View() == S.CmpR32Rm32(old(emu.View()))
  {
    var m := OpcodeAndModRM(emu);
    ghost var t := emu.View();
    var r32 := emu.registers[m.reg];
    var rm32 := Rm32(emu.View(), m);
    var result := Sub64(r32, rm32);
    emu.eflags := UpdatedEflagsSub(emu.eflags, r32, rm32, result);
    assert emu.View() == t.(eflags := emu.eflags);
  }

  /** code_83: the sub-handler the reg field names, or the "Not implemented" exit. */
  method Code83(emu: Emulator) returns (status: Status)
    requires emu.Valid() && S.Code83Fits(emu.View())
    modifies emu, emu.registers, emu.memory
    ensures status == StatusOf(S.Code83(old(emu.View())))
    ensures S.Code83(old(emu.View())).Next? ==> emu.View() == S.Code83(old(emu.View())).state
  {
    var m := OpcodeAndModRM(emu);
    if m.reg == 0 {
      AddRm32Imm8(emu, m);
      status := Done;
    } else if m.reg == 5 {
      SubRm32Imm8(emu, m);
      status := Done;
    } else if m.reg == 7 {
      CmpRm32Imm8(emu, m);
      status := Done;
    } else {
      status := NotImplemented(0x83, m.reg);
    }
  }

  /** inc_rm32 (FF /0), with EIP after the ModR/M operand. */
  method IncRm32(emu: Emulator, m: ModRM)
    requires emu.Valid() && OperandFits(emu.View(), m)
    modifies emu.registers, emu.memory
    ensures emu.View() == S.IncRm32(old(emu.View()), m)
  {
    var value := Rm32(emu.View(), m);
    SetRm32(emu, m, Add32(value, 1));
  }

  /** code_ff: inc for sub-op 0, the "Not implemented" exit for any other. */
  method CodeFF(emu: Emulator) returns (status: Status)
    requires emu.Valid() && S.CodeFFFits(emu.View())
    modifies emu, emu.registers, emu.memory
    ensures status == StatusOf(S.CodeFF(old(emu.View())))
    ensures S.CodeFF(old(emu.View())).Next? ==> emu.View() == S.CodeFF(old(emu.View())).state
  {
    var m := OpcodeAndModRM(emu);
    if m.reg == 0 {
      IncRm32(emu, m);
      status := Done;
    } else {
      status := NotImplemented(0xFF, m.reg);
    }
  }

  // ---------------------------------------------------------------------
  // The stack

  /** push_r32 (50+r) */
  method PushR32(emu: Emulator)
    requires emu.Valid() && S.PushR32Fits(emu.View())
    modifies emu, emu.registers, emu.memory
    ensures emu.View() == S.PushR32(old(emu.View()))
  {
    var reg := emu.memory[emu.eip] - 0x50;
    Push32(emu, emu.registers[reg]);
    ghost var t := emu.View();
    emu.eip := Add32(emu.eip, 1);
    assert emu.View() == t.(eip := emu.eip);
  }

  /** push_imm32 (68) */
  method PushImm32(emu: Emulator)
    requires emu.Valid() && emu.eip + 5 <= emu.memory.Length && PushFits(emu.View())
    modifies emu, emu.registers, emu.memory
    ensures emu.View() == S.PushImm32(old(emu.View()))
  {
    var value := Load32(emu.memory[..], emu.eip + 1);
    Push32(emu, value);
    ghost var t := emu.View();
    emu.eip := Add32(emu.eip, 5);
    assert emu.View() == t.(eip := emu.eip);
  }

  /** push_imm8 (6A) */
  method PushImm8(emu: Emulator)
    requires emu.Valid() && emu.eip + 1 < emu.memory.Length && PushFits(emu.View())
    modifies emu, emu.registers, emu.memory
    ensures emu.View() == S.PushImm8(old(emu.View()))
  {
    var value: u32 := emu.memory[emu.eip + 1];
    Push32(emu, value);
    ghost var t := emu.View();
    emu.eip := Add32(emu.eip, 2);
    assert emu.View() == t.(eip := emu.eip);
  }

  /** pop_r32 (58+r) */
  method PopR32(emu: Emulator)
    requires emu.Valid() && S.PopR32Fits(emu.View())
    modifies emu, emu.registers
    ensures emu.View() == S.PopR32(old(emu.View()))
  {
    var reg := emu.memory[emu.eip] - 0x58;
    var value := Pop32(emu);
    SetRegister32(emu, reg, value);
    ghost var t := emu.View();
    emu.eip := Add32(emu.eip, 1);
    assert emu.View() == t.(eip := emu.eip);
  }

  /** call_rel32 (E8) */
  method CallRel32(emu: Emulator)
    requires emu.Valid() && S.CallRel32Fits(emu.View())
    modifies emu, emu.registers, emu.memory
    ensures emu.View() == S.CallRel32(old(emu.View()))
  {
    var offset := Signed32(Load32(emu.memory[..], emu.eip + 1));
    Push32(emu, Add32(emu.eip, 5));
    ghost var t := emu.View();
    emu.eip := Add32(emu.eip, offset + 5);
    assert emu.View() == t.(eip := emu.eip);
  }

  /** ret (C3) */
  method Ret(emu: Emulator)
    requires emu.Valid() && PopFits(emu.View())
    modifies emu, emu.registers
    ensures emu.View() == S.Ret(old(emu.View()))
  {
    var value := Pop32(emu);
    ghost var t := emu.View();
    emu.eip := value;
    assert emu.View() == t.(eip := emu.eip);
  }

  /** leave (C9) */
  method Leave(emu: Emulator)
    requires emu.Valid() && S.LeaveFits(emu.View())
    modifies emu, emu.registers
    ensures emu.View() == S.Leave(old(emu.View()))
  {
    var ebpValue := emu.registers[EBP];
    SetRegister32(emu, ESP, ebpValue);
    var value := Pop32(emu);
    SetRegister32(emu, EBP, value);
    ghost var t := emu.View();
    emu.eip := Add32(emu.eip, 1);
    assert emu.View() == t.(eip := emu.eip);
  }

  // ---------------------------------------------------------------------
  // Calling a table entry

  /** Runs the handler a table entry is bound to, as `instructions[op](emu)` does. */
  method Dispatch(emu: Emulator, h: T.Handler) returns (status: Status)
    requires emu.Valid() && h != T.Empty && T.Ready(h, emu.View())
    modifies emu, emu.registers, emu.memory
    ensures status == StatusOf(T.Execute(h, old(emu.View())))
    ensures T.Execute(h, old(emu.View())).Next? ==> emu.View() == T.Execute(h, old(emu.View())).state
  {
    status := Done;
    match h {
      case CmpR32Rm32 => CmpR32Rm32(emu);
      case PushR32 => PushR32(emu);
      case PopR32 => PopR32(emu);
      case PushImm32 => PushImm32(emu);
      case PushImm8 => PushImm8(emu);
      case ShortJcc(c) => Jcc(emu, c);
      case MovR32Imm32 => MovR32Imm32(emu);
      case AddRm32R32 => AddRm32R32(emu);
      case Code83 => status := Code83(emu);
      case MovRm32R32 => MovRm32R32(emu);
      case MovR32Rm32 => MovR32Rm32(emu);
      case MovRm32Imm32 => MovRm32Imm32(emu);
      case NearJump => NearJump(emu);
      case ShortJump => ShortJump(emu);
      case CodeFF => status := CodeFF(emu);
      case Ret => Ret(emu);
      case CallRel32 => CallRel32(emu);
      case Leave => Leave(emu);
    }
  }
}
