/**
 * The 256-entry dispatch table of init_instructions: which handler each
 * first opcode byte runs. The C table holds function pointers; here an
 * entry names its handler by a `Handler` value, and `Execute` runs the
 * handler's state function.
 */
module InstructionTable {
  import opened Machine
  import opened ModRM
  import S = Semantics

  /** The handler a table entry is bound to; `Empty` is the zeroed entry. */
  datatype Handler =
    | Empty
    | CmpR32Rm32
    | PushR32
    | PopR32
    | PushImm32
    | PushImm8
    | ShortJcc(cond: S.ShortCond)
    | MovR32Imm32
    | AddRm32R32
    | Code83
    | MovRm32R32
    | MovR32Rm32
    | MovRm32Imm32
    | NearJump
    | ShortJump
    | CodeFF
    | Ret
    | CallRel32
    | Leave

  const TABLE_SIZE: nat := 256

  /** The entry init_instructions leaves at `op`. */
  function Table(op: u8): Handler {
    if op == 0x3B then CmpR32Rm32
    else if 0x50 <= op < 0x58 then PushR32
    else if 0x58 <= op < 0x60 then PopR32
    else if op == 0x68 then PushImm32
    else if op == 0x6A then PushImm8
    else if op == 0x70 then ShortJcc(S.JO)
    else if op == 0x71 then ShortJcc(S.JNO)
    else if op == 0x72 then ShortJcc(S.JC)
    else if op == 0x73 then ShortJcc(S.JNC)
    else if op == 0x74 then ShortJcc(S.JZ)
    else if op == 0x75 then ShortJcc(S.JNZ)
    else if op == 0x78 then ShortJcc(S.JS)
    else if op == 0x79 then ShortJcc(S.JNS)
    else if op == 0x7C then ShortJcc(S.JL)
    else if op == 0x7E then ShortJcc(S.JLE)
    else if 0xB8 <= op < 0xC0 then MovR32Imm32
    else if op == 0x01 then AddRm32R32
    else if op == 0x83 then Code83
    else if op == 0x89 then MovRm32R32
    else if op == 0x8B then MovR32Rm32
    else if op == 0xC7 then MovRm32Imm32
    else if op == 0xE9 then NearJump
    else if op == 0xEB then ShortJump
    else if op == 0xFF then CodeFF
    else if op == 0xC3 then Ret
    else if op == 0xE8 then CallRel32
    else if op == 0xC9 then Leave
    else Empty
  }

  /** The opcodes that have a handler, listed by range. */
  const BOUND_OPCODES: set<int> :=
    {0x01, 0x3B, 0x68, 0x6A, 0x70, 0x71, 0x72, 0x73, 0x74, 0x75, 0x78, 0x79, 0x7C, 0x7E,
     0x83, 0x89, 0x8B, 0xC3, 0xC7, 0xC9, 0xE8, 0xE9, 0xEB, 0xFF}
    + (set op: int | 0x50 <= op < 0x50 + REGISTERS_COUNT)
    + (set op: int | 0x58 <= op < 0x58 + REGISTERS_COUNT)
    + (set op: int | 0xB8 <= op < 0xB8 + REGISTERS_COUNT)

  /**
   * init_instructions: clear the 256 entries, then bind each opcode, the
   * register-encoded ranges by loop.
   */
  method InitInstructions() returns (table: seq<Handler>)
    ensures |table| == TABLE_SIZE
    ensures forall op :: 0 <= op < TABLE_SIZE ==> table[op] == Table(op)
  {
    table := seq(TABLE_SIZE, _ => Empty);
    table := table[0x3B := CmpR32Rm32];

    for i := 0 to REGISTERS_COUNT
      invariant |table| == TABLE_SIZE
      invariant forall op :: 0 <= op < TABLE_SIZE ==>
        table[op] == if 0x50 <= op < 0x50 + i then PushR32 else if op == 0x3B then CmpR32Rm32 else Empty
    {
      table := table[0x50 + i := PushR32];
    }

    for i := 0 to REGISTERS_COUNT
      invariant |table| == TABLE_SIZE
      invariant forall op :: 0 <= op < TABLE_SIZE ==>
        table[op] == if 0x58 <= op < 0x58 + i then PopR32 else if 0x50 <= op < 0x58 then PushR32
                     else if op == 0x3B then CmpR32Rm32 else Empty
    {
      table := table[0x58 + i := PopR32];
    }

    table := table[0x68 := PushImm32];
    table := table[0x6A := PushImm8];

    table := table[0x70 := ShortJcc(S.JO)];
    table := table[0x71 := ShortJcc(S.JNO)];
    table := table[0x72 := ShortJcc(S.JC)];
    table := table[0x73 := ShortJcc(S.JNC)];
    table := table[0x74 := ShortJcc(S.JZ)];
    table := table[0x75 := ShortJcc(S.JNZ)];
    table := table[0x78 := ShortJcc(S.JS)];
    table := table[0x79 := ShortJcc(S.JNS)];
    table := table[0x7C := ShortJcc(S.JL)];
    table := table[0x7E := ShortJcc(S.JLE)];

    ghost var jumps := table;
    for i := 0 to REGISTERS_COUNT
      invariant |table| == TABLE_SIZE
      invariant forall op :: 0 <= op < TABLE_SIZE ==>
        table[op] == if 0xB8 <= op < 0xB8 + i then MovR32Imm32 else jumps[op]
    {
      table := table[0xB8 + i := MovR32Imm32];
    }

    table := table[0x01 := AddRm32R32];
    table := table[0x83 := Code83];
    table := table[0x89 := MovRm32R32];
    table := table[0x8B := MovR32Rm32];
    table := table[0xC7 := MovRm32Imm32];
    table := table[0xE9 := NearJump];
    table := table[0xEB := ShortJump];
    table := table[0xFF := CodeFF];

    table := table[0xC3 := Ret];
    table := table[0xE8 := CallRel32];
    table := table[0xC9 := Leave];
  }

  /** The table binds exactly the listed opcodes; every other entry stays empty. */
  lemma {:induction false} BoundExactly(op: u8)
    ensures Table(op) != Empty <==> op in BOUND_OPCODES
  {
  }

  /** Each register-encoded range runs one handler for all eight registers. */
  lemma RegisterRanges(r: RegIndex)
    ensures Table(0x50 + r) == PushR32
    ensures Table(0x58 + r) == PopR32
    ensures Table(0xB8 + r) == MovR32Imm32
  {
  }

  // ---------------------------------------------------------------------
  // Running one instruction through the table

  /** What the handler needs of the state before it (the bytes and stack words it touches). */
  predicate Ready(h: Handler, s: State) {
    match h
    case Empty => true
    case CmpR32Rm32 => S.ModRMOperandFits(s)
    case PushR32 => S.PushR32Fits(s)
    case PopR32 => S.PopR32Fits(s)
    case PushImm32 => s.eip + 5 <= |s.memory| && Access.PushFits(s)
    case PushImm8 => s.eip + 1 < |s.memory| && Access.PushFits(s)
    case ShortJcc(c) => S.ShortJccFits(s, c)
    case MovR32Imm32 => S.MovR32Imm32Fits(s)
    case AddRm32R32 => S.ModRMOperandFits(s)
    case Code83 => S.Code83Fits(s)
    case MovRm32R32 => S.ModRMOperandFits(s)
    case MovR32Rm32 => S.ModRMOperandFits(s)
    case MovRm32Imm32 => S.MovRm32Imm32Fits(s)
    case NearJump => s.eip + 5 <= |s.memory|
    case ShortJump => s.eip + 1 < |s.memory|
    case CodeFF => S.CodeFFFits(s)
    case Ret => Access.PopFits(s)
    case CallRel32 => S.CallRel32Fits(s)
    case Leave => S.LeaveFits(s)
  }

  /** The handler's effect; an empty entry has none to run. Only the two groups can fault. */
  function Execute(h: Handler, s: State): (r: S.Outcome)
    requires h != Empty && Ready(h, s)
    ensures r.Fault? ==> (h == Code83 && r.opcode == 0x83) || (h == CodeFF && r.opcode == 0xFF)
  {
    match h
    case CmpR32Rm32 => S.Next(S.CmpR32Rm32(s))
    case PushR32 => S.Next(S.PushR32(s))
    case PopR32 => S.Next(S.PopR32(s))
    case PushImm32 => S.Next(S.PushImm32(s))
    case PushImm8 => S.Next(S.PushImm8(s))
    case ShortJcc(c) => S.Next(S.ShortJcc(s, c))
    case MovR32Imm32 => S.Next(S.MovR32Imm32(s))
    case AddRm32R32 => S.Next(S.AddRm32R32(s))
    case Code83 => S.Code83(s)
    case MovRm32R32 => S.Next(S.MovRm32R32(s))
    case MovR32Rm32 => S.Next(S.MovR32Rm32(s))
    case MovRm32Imm32 => S.Next(S.MovRm32Imm32(s))
    case NearJump => S.Next(S.NearJump(s))
    case ShortJump => S.Next(S.ShortJump(s))
    case CodeFF => S.CodeFF(s)
    case Ret => S.Next(S.Ret(s))
    case CallRel32 => S.Next(S.CallRel32(s))
    case Leave => S.Next(S.Leave(s))
  }

  /** The handler the opcode byte at EIP selects. */
  function Selected(s: State): Handler
    requires s.eip < |s.memory|
  {
    Table(s.memory[s.eip])
  }

  /**
   * No handler writes the segment registers, the control registers, GDTR
   * or the exception field.
   */
  lemma {:induction false} SystemStateUnchanged(h: Handler, s: State)
    requires h != Empty && Ready(h, s) && Execute(h, s).Next?
    ensures Execute(h, s).state.SameSystemState(s)
  {
    match h
    case Code83 => Code83SystemState(s);
    case CodeFF =>
      var (m, t) := S.AfterModRM(s);
      assert S.CodeFF(s) == S.Next(S.IncRm32(t, m));
    case _ =>
  }

  /** Group 83 changes no system state, whichever of add, sub and cmp it runs. */
  lemma {:induction false} Code83SystemState(s: State)
    requires S.Code83Fits(s) && S.Code83(s).Next?
    ensures S.Code83(s).state.SameSystemState(s)
  {
    var (m, t) := S.AfterModRM(s);
    if m.reg == 5 {
      assert S.StoresRm32(S.SubRm32Imm8(t, m).(eflags := t.eflags), t, m, Wrap(Rm32(t, m) - S.Imm8(t)));
    }
  }

  /** A handler that falls through: not a jump, call or return. */
  predicate FallsThrough(h: Handler) {
    !(h.ShortJcc? || h == NearJump || h == ShortJump || h == Ret || h == CallRel32 || h == Empty)
  }

  /**
   * The length of an instruction with a ModR/M byte at EIP: the opcode, the
   * ModR/M byte with its displacement, and the immediate (one byte for group
   * 83, four for mov rm32, imm32).
   */
  function ModRMLength(h: Handler, s: State): nat
    requires S.ModRMFits(s)
  {
    var modrm := 1 + DispSize(ModField(s.memory[Add32(s.eip, 1)]));
    if h == Code83 then 1 + modrm + 1
    else if h == MovRm32Imm32 then 1 + modrm + 4
    else 1 + modrm
  }

  /** Instructions without a ModR/M byte: their lengths in bytes. */
  function FixedLength(h: Handler): nat {
    match h
    case PushR32 => 1
    case PopR32 => 1
    case Leave => 1
    case PushImm8 => 2
    case PushImm32 => 5
    case MovR32Imm32 => 5
    case _ => 0
  }

  predicate HasModRM(h: Handler) {
    h == CmpR32Rm32 || h == AddRm32R32 || h == Code83 || h == MovRm32R32 || h == MovR32Rm32 ||
    h == MovRm32Imm32 || h == CodeFF
  }

  /** Group 83 moves EIP past the opcode, the ModR/M byte and its displacement, and the imm8. */
  lemma {:induction false} Code83Length(s: State)
    requires S.Code83Fits(s) && S.Code83(s).Next?
    ensures S.ModRMFits(s) && S.Code83(s).state.eip == Add32(s.eip, ModRMLength(Code83, s))
  {
    var (m, t) := S.AfterModRM(s);
    Add32Add32(s.eip, 1 + m.size, 1);
  }

  /** A handler with a ModR/M byte moves EIP by the encoded length of its instruction. */
  lemma {:induction false} ModRMHandlerLength(h: Handler, s: State)
    requires HasModRM(h) && Ready(h, s) && Execute(h, s).Next?
    ensures S.ModRMFits(s) && Execute(h, s).state.eip == Add32(s.eip, ModRMLength(h, s))
  {
    match h
    case Code83 => Code83Length(s);
    case CodeFF =>
      var (m, t) := S.AfterModRM(s);
      assert S.CodeFF(s) == S.Next(S.IncRm32(t, m));
    case _ =>
  }

  /** A falling-through handler without a ModR/M byte moves EIP by its fixed length. */
  lemma {:induction false} FixedHandlerLength(h: Handler, s: State)
    requires FallsThrough(h) && !HasModRM(h) && Ready(h, s)
    ensures Execute(h, s).Next? && Execute(h, s).state.eip == Add32(s.eip, FixedLength(h))
  {
  }

  /** The handler the opcode at EIP selects, if it falls through, moves EIP by the instruction's length. */
  lemma {:induction false} FallThroughLength(s: State)
    requires s.eip < |s.memory|
    requires var h := Selected(s); FallsThrough(h) && Ready(h, s) && Execute(h, s).Next?
    ensures var h := Selected(s);
      var t := Execute(h, s).state;
      if HasModRM(h) then S.ModRMFits(s) && t.eip == Add32(s.eip, ModRMLength(h, s))
      else t.eip == Add32(s.eip, FixedLength(h))
  {
    var h := Selected(s);
    if HasModRM(h) {
      ModRMHandlerLength(h, s);
    } else {
      FixedHandlerLength(h, s);
    }
  }
}
