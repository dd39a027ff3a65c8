/**
 * Machine state of the emulator: the register enumeration, the EFLAGS bit
 * layout, the segment/control/descriptor registers kept for later use, and
 * the `Emulator` object that every instruction handler updates in place.
 *
 * `State` is the value of an `Emulator` at one instant; the handlers are
 * specified as functions on it (module Semantics) and implemented as
 * methods on the object (module Instructions).
 */
module Machine {

  type u8 = x: int | 0 <= x < 0x100
  type u16 = x: int | 0 <= x < 0x1_0000
  type u32 = x: int | 0 <= x < 0x1_0000_0000
  type u64 = x: int | 0 <= x < 0x1_0000_0000_0000_0000

  /** C's unsigned 32-bit arithmetic: the value of `x` kept in a uint32_t. */
  function Wrap(x: int): (r: u32)
    ensures 0 <= x < 0x1_0000_0000 ==> r == x
    ensures (r - x) % 0x1_0000_0000 == 0
  {
    x % 0x1_0000_0000
  }

  /** `a + b` in uint32_t arithmetic (with `b` possibly negative, as when an int offset is added). */
  function Add32(a: int, b: int): u32 {
    Wrap(a + b)
  }

  /** Subtracting a wrapped value wraps to the same uint32_t as subtracting the value. */
  lemma {:induction false} WrapSub(x: int, y: int)
    ensures Wrap(x - Wrap(y)) == Wrap(x - y)
  {
    var M := 0x1_0000_0000;
    var k := y / M;
    assert y == k * M + Wrap(y);
    var d := x - y;
    assert x - Wrap(y) == d + k * M;
    assert (d + k * M) % M == d % M by {
      var p := d / M;
      assert d == p * M + d % M;
      assert d + k * M == (p + k) * M + d % M;
    }
  }

  /** Two uint32_t additions in a row add up their offsets. */
  lemma {:induction false} Add32Add32(a: int, b: int, c: int)
    ensures Add32(Add32(a, b), c) == Add32(a, b + c)
  {
    var M := 0x1_0000_0000;
    var q := (a + b) / M;
    assert Add32(a, b) == a + b - q * M;
    var x := a + b + c;
    assert Add32(a, b) + c == x - q * M;
    assert (x - q * M) % M == x % M by {
      var p := x / M;
      assert x == p * M + x % M;
      assert x - q * M == (p - q) * M + x % M;
    }
  }

  /** A uint32_t read as int32_t (two's complement). */
  function Signed32(v: u32): (r: int)
    ensures -0x8000_0000 <= r < 0x8000_0000
    ensures Wrap(r) == v
  {
    if v < 0x8000_0000 then v else v - 0x1_0000_0000
  }

  // ---------------------------------------------------------------------
  // enum Register: general registers in the order of the ModR/M REG field

  const REGISTERS_COUNT: nat := 8
  type RegIndex = r: int | 0 <= r < REGISTERS_COUNT

  const EAX: RegIndex := 0
  const ECX: RegIndex := 1
  const EDX: RegIndex := 2
  const EBX: RegIndex := 3
  const ESP: RegIndex := 4
  const EBP: RegIndex := 5
  const ESI: RegIndex := 6
  const EDI: RegIndex := 7

  // 8-bit names: aliases of the 32-bit indices, with no storage of their own
  const AL: RegIndex := EAX
  const CL: RegIndex := ECX
  const DL: RegIndex := EDX
  const BL: RegIndex := EBX
  const AH: RegIndex := AL + 4
  const CH: RegIndex := CL + 4
  const DH: RegIndex := DL + 4
  const BH: RegIndex := BL + 4

  /** The register a 3-bit ModR/M (or opcode) field names. */
  function RegisterOf(field: int): (r: RegIndex)
    requires 0 <= field < 8
    ensures r == [EAX, ECX, EDX, EBX, ESP, EBP, ESI, EDI][field]
  {
    field
  }

  // enum SegmentRegister and enum ControlRegister: only their counts matter here
  const SEGMENT_REGISTERS_COUNT: nat := 6
  const CONTROL_REGISTER_COUNT: nat := 5

  // ---------------------------------------------------------------------
  // EFLAGS: a 32-bit word, modelled as its bits (index i is bit i, mask 1 << i)

  const EFLAGS_BITS: nat := 32
  type Eflags = s: seq<bool> | |s| == EFLAGS_BITS witness seq(EFLAGS_BITS, _ => false)

  /** The four condition bits this core reads and writes. */
  const CARRY_FLAG: nat := 0      // mask 0x001
  const ZERO_FLAG: nat := 6       // mask 0x040
  const SIGN_FLAG: nat := 7       // mask 0x080
  const OVERFLOW_FLAG: nat := 11  // mask 0x800

  /** The bits an arithmetic flag update may change. */
  predicate IsArithmeticFlag(bit: nat) {
    bit == CARRY_FLAG || bit == ZERO_FLAG || bit == SIGN_FLAG || bit == OVERFLOW_FLAG
  }

  // ---------------------------------------------------------------------
  // The state

  /** GDTR: a 16-bit limit and a 32-bit base. */
  datatype Gdtr = Gdtr(limit: u16, base: u32)

  type Registers = s: seq<u32> | |s| == REGISTERS_COUNT witness [0, 0, 0, 0, 0, 0, 0, 0]
  type SegmentRegisters = s: seq<u16> | |s| == SEGMENT_REGISTERS_COUNT witness [0, 0, 0, 0, 0, 0]
  type ControlRegisters = s: seq<u32> | |s| == CONTROL_REGISTER_COUNT witness [0, 0, 0, 0, 0]
  /** Byte-addressed memory; a uint32_t address reaches at most 2^32 bytes. */
  type Memory = s: seq<u8> | |s| <= 0x1_0000_0000

  datatype State = State(
    eflags: Eflags,
    registers: Registers,
    segmentRegisters: SegmentRegisters,
    controlRegisters: ControlRegisters,
    memory: Memory,
    eip: u32,
    gdtr: Gdtr,
    exception: u8)
  {
    /** The part of the state no handler of this core writes. */
    predicate SameSystemState(other: State) {
      segmentRegisters == other.segmentRegisters &&
      controlRegisters == other.controlRegisters &&
      gdtr == other.gdtr &&
      exception == other.exception
    }
  }

  /** The emulator object: fixed-size register files and memory, updated in place. */
  class Emulator {
    var eflags: Eflags
    const registers: array<u32>
    const segmentRegisters: array<u16>
    const controlRegisters: array<u32>
    const memory: array<u8>
    var eip: u32
    var gdtr: Gdtr
    var exception: u8

    ghost predicate Valid()
      reads this
    {
      registers.Length == REGISTERS_COUNT &&
      segmentRegisters.Length == SEGMENT_REGISTERS_COUNT &&
      controlRegisters.Length == CONTROL_REGISTER_COUNT &&
      memory.Length <= 0x1_0000_0000 &&
      registers != controlRegisters
    }

    /** The value of the whole object. */
    function View(): (s: State)
      reads this, registers, segmentRegisters, controlRegisters, memory
      requires Valid()
      ensures |s.memory| == memory.Length
    {
      State(eflags, registers[..], segmentRegisters[..], controlRegisters[..],
            memory[..], eip, gdtr, exception)
    }

    /**
     * A zeroed emulator with `size` bytes of memory, the given EIP and ESP
     * (the set-up the caller of this core performs before running it).
     */
    constructor (size: nat, initialEip: u32, initialEsp: u32)
      requires size <= 0x1_0000_0000
      ensures Valid()
      ensures fresh(registers) && fresh(segmentRegisters) && fresh(controlRegisters) && fresh(memory)
      ensures View() == State(seq(EFLAGS_BITS, _ => false), [0, 0, 0, 0, initialEsp, 0, 0, 0],
                              [0, 0, 0, 0, 0, 0], [0, 0, 0, 0, 0], seq(size, _ => 0),
                              initialEip, Gdtr(0, 0), 0)
    {
      eflags := seq(EFLAGS_BITS, _ => false);
      registers := new u32[REGISTERS_COUNT](i => if i == ESP then initialEsp else 0);
      segmentRegisters := new u16[SEGMENT_REGISTERS_COUNT](_ => 0);
      controlRegisters := new u32[CONTROL_REGISTER_COUNT](_ => 0);
      memory := new u8[size](_ => 0);
      eip := initialEip;
      gdtr := Gdtr(0, 0);
      exception := 0;
    }
  }

  /** The 8-bit names are indices into the same eight 32-bit registers. */
  lemma ByteRegisterAliases()
    ensures AL == EAX && CL == ECX && DL == EDX && BL == EBX
    ensures AH == ESP && CH == EBP && DH == ESI && BH == EDI
  {
  }
}
