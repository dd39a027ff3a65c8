/**
 * The ModR/M operand decoder (parse_modrm, calc_memory_address, get/set_rm32,
 * get/set_r32). These helpers are not part of the files modelled here; the
 * definitions below are the assumed ones, for the forms without a SIB byte:
 *  - the byte splits into mod (bits 7-6), reg (bits 5-3) and rm (bits 2-0);
 *  - mod = 3 names the register rm; mod = 0, 1, 2 name the memory word at
 *    register rm plus no, a signed 8-bit or a signed 32-bit displacement;
 *  - parsing moves EIP past the ModR/M byte and its displacement.
 * The SIB forms (rm = 4 with mod != 3) and the displacement-only form
 * (mod = 0, rm = 5) are not modelled and are excluded by `Supported`.
 */
module ModRM {
  import opened Machine
  import opened Access

  /** A parsed ModR/M byte. `reg` is a register index or a group sub-opcode. */
  datatype ModRM = ModRM(mod: nat, reg: RegIndex, rm: RegIndex, disp: int, size: nat)

  /** Where an rm32 operand lives. */
  datatype Operand = Register(index: RegIndex) | Address(address: u32)

  function ModField(b: u8): nat { b / 0x40 }
  function RegField(b: u8): RegIndex { (b / 8) % 8 }
  function RmField(b: u8): RegIndex { b % 8 }

  /** The ModR/M byte with the given fields. */
  function Encode(mod: nat, reg: RegIndex, rm: RegIndex): u8
    requires mod < 4
  {
    mod * 0x40 + reg * 8 + rm
  }

  /** Displacement bytes that follow the ModR/M byte for each mod. */
  function DispSize(mod: nat): nat {
    if mod == 1 then 1 else if mod == 2 then 4 else 0
  }

  /** The forms this model decodes: register-direct, or [rm], [rm + disp8], [rm + disp32] without SIB. */
  predicate Supported(b: u8) {
    ModField(b) == 3 || (RmField(b) != ESP && !(ModField(b) == 0 && RmField(b) == EBP))
  }

  /** A decodable ModR/M byte at `at`, with its displacement inside memory. */
  predicate Fits(mem: seq<u8>, at: nat) {
    at < |mem| && Supported(mem[at]) && at + 1 + DispSize(ModField(mem[at])) <= |mem|
  }

  /** The ModR/M byte at `at` and its displacement. */
  function Decode(mem: seq<u8>, at: nat): (m: ModRM)
    requires Fits(mem, at)
    ensures m.mod < 4 && mem[at] == Encode(m.mod, m.reg, m.rm)
    ensures m.size == 1 + DispSize(m.mod) && at + m.size <= |mem|
    ensures m.mod == 3 || m.rm != ESP
  {
    var b := mem[at];
    var mod := ModField(b);
    var disp := if mod == 1 then Sext8(mem[at + 1])
                else if mod == 2 then Signed32(Load32(mem, at + 1))
                else 0;
    ModRM(mod, RegField(b), RmField(b), disp, 1 + DispSize(mod))
  }

  /** calc_memory_address: register rm plus the displacement, modulo 2^32. */
  function MemoryAddress(s: State, m: ModRM): (a: u32)
    requires m.mod != 3
    ensures (a - (s.registers[m.rm] + m.disp)) % 0x1_0000_0000 == 0
  {
    Add32(s.registers[m.rm], m.disp)
  }

  function EffectiveOperand(s: State, m: ModRM): Operand {
    if m.mod == 3 then Register(m.rm) else Address(MemoryAddress(s, m))
  }

  /** The rm32 operand is a register, or a word inside memory. */
  predicate OperandFits(s: State, m: ModRM) {
    match EffectiveOperand(s, m)
    case Register(_) => true
    case Address(a) => a + 4 <= |s.memory|
  }

  /** get_rm32 */
  function Rm32(s: State, m: ModRM): u32
    requires OperandFits(s, m)
  {
    match EffectiveOperand(s, m)
    case Register(r) => s.registers[r]
    case Address(a) => Load32(s.memory, a)
  }

  /** set_rm32, as a new state. */
  function WriteRm32(s: State, m: ModRM, v: u32): (t: State)
    requires OperandFits(s, m)
    ensures m.mod == 3 ==> t == WithRegister(s, m.rm, v)
    ensures m.mod != 3 ==> t == s.(memory := Store32(s.memory, MemoryAddress(s, m), v))
  {
    match EffectiveOperand(s, m)
    case Register(r) => WithRegister(s, r, v)
    case Address(a) => s.(memory := Store32(s.memory, a, v))
  }

  /** get_r32: the register the reg field names. */
  function R32(s: State, m: ModRM): u32 {
    s.registers[m.reg]
  }

  // ---------------------------------------------------------------------
  // Properties of the decoder

  /** The three fields of a ModR/M byte give the byte back. */
  lemma {:induction false} FieldsEncode(b: u8)
    ensures Encode(ModField(b), RegField(b), RmField(b)) == b
  {
    var q := b / 8;
    assert b == q * 8 + b % 8;
    assert q == (q / 8) * 8 + q % 8;
    var low := (q % 8) * 8 + b % 8;
    assert 0 <= low < 0x40;
    assert b == (q / 8) * 0x40 + low;
    assert b / 0x40 == q / 8;
  }

  /** Encoding three fields and splitting the byte again gives the fields back. */
  lemma {:induction false} EncodeFields(mod: nat, reg: RegIndex, rm: RegIndex)
    requires mod < 4
    ensures ModField(Encode(mod, reg, rm)) == mod
    ensures RegField(Encode(mod, reg, rm)) == reg
    ensures RmField(Encode(mod, reg, rm)) == rm
  {
    var e := Encode(mod, reg, rm);
    assert e == (mod * 8 + reg) * 8 + rm;
    assert e / 8 == mod * 8 + reg;
    assert e == mod * 0x40 + (reg * 8 + rm);
  }

  /** Writing an rm32 operand and reading it back gives the written value. */
  lemma {:induction false} ReadAfterWrite(s: State, m: ModRM, v: u32)
    requires OperandFits(s, m)
    ensures OperandFits(WriteRm32(s, m, v), m)
    ensures Rm32(WriteRm32(s, m, v), m) == v
  {
    if m.mod != 3 {
      LoadStore(s.memory, MemoryAddress(s, m), v);
    }
  }

  // ---------------------------------------------------------------------
  // The same helpers on the emulator object

  /** parse_modrm: decodes the byte at EIP and moves EIP past it and its displacement. */
  method ParseModRM(emu: Emulator) returns (m: ModRM)
    requires emu.Valid() && Fits(emu.memory[..], emu.eip)
    modifies emu
    ensures m == Decode(old(emu.memory[..]), old(emu.eip))
    ensures emu.View() == old(emu.View()).(eip := Add32(old(emu.eip), m.size))
  {
    var code := emu.memory[emu.eip];
    var mod, reg, rm := ModField(code), RegField(code), RmField(code);
    emu.eip := Add32(emu.eip, 1);
    var disp := 0;
    if mod == 1 {
      disp := Sext8(emu.memory[emu.eip]);
      emu.eip := Add32(emu.eip, 1);
    } else if mod == 2 {
      disp := Signed32(Load32(emu.memory[..], emu.eip));
      emu.eip := Add32(emu.eip, 4);
    }
    m := ModRM(mod, reg, rm, disp, 1 + DispSize(mod));
  }

  /** set_rm32 */
  method SetRm32(emu: Emulator, m: ModRM, v: u32)
    requires emu.Valid() && OperandFits(emu.View(), m)
    modifies emu.registers, emu.memory
    ensures emu.View() == WriteRm32(old(emu.View()), m, v)
  {
    if m.mod == 3 {
      SetRegister32(emu, m.rm, v);
    } else {
      var address := MemoryAddress(emu.View(), m);
      SetMemory32(emu, address, v);
    }
  }

  /** set_r32: writes the register the reg field names. */
  method SetR32(emu: Emulator, m: ModRM, v: u32)
    requires emu.Valid()
    modifies emu.registers
    ensures emu.View() == WithRegister(old(emu.View()), m.reg, v)
  {
    SetRegister32(emu, m.reg, v);
  }
}
