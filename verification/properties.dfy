/**
 * Properties of the one-byte handlers that relate several of them, or a
 * handler to what its flags mean: the conditions a Jcc tests after a
 * compare, the pairing of push with pop and of call with ret, and the
 * results the arithmetic handlers leave in their operand.
 */
module Properties {
  import opened Machine
  import opened Flags
  import opened Access
  import opened ModRM
  import opened Semantics

  // ---------------------------------------------------------------------
  // Jump conditions

  /** Each jX / jnX pair is complementary: for any EFLAGS exactly one of the two jumps. */
  lemma ShortPairs(f: Eflags)
    ensures Taken(JO, f) != Taken(JNO, f)
    ensures Taken(JC, f) != Taken(JNC, f)
    ensures Taken(JZ, f) != Taken(JNZ, f)
    ensures Taken(JS, f) != Taken(JNS, f)
    ensures Taken(JLE, f) == (Taken(JZ, f) || Taken(JL, f))
  {
  }

  /** "SF differs from OF" after a - b is exactly the signed comparison a < b. */
  lemma {:induction false} SignedLess(a: u32, b: u32)
    ensures ((Wrap(a - b) >= 0x8000_0000) != !(-0x8000_0000 <= Signed32(a) - Signed32(b) < 0x8000_0000))
            <==> Signed32(a) < Signed32(b)
  {
    var d := Signed32(a) - Signed32(b);
    assert Wrap(a - b) == Wrap(d);
    if -0x8000_0000 <= d < 0x8000_0000 {
      if d < 0 {
        assert Wrap(d) == d + 0x1_0000_0000;
      } else {
        assert Wrap(d) == d;
      }
    } else if d >= 0x8000_0000 {
      assert Wrap(d) == d;
    } else {
      assert Wrap(d) == d + 0x1_0000_0000;
    }
  }

  /** Signed32 is one-to-one. */
  lemma {:induction false} SignedInjective(a: u32, b: u32)
    ensures Signed32(a) == Signed32(b) <==> a == b
  {
    if Signed32(a) == Signed32(b) {
      assert Wrap(Signed32(a)) == Wrap(Signed32(b));
    }
  }

  /**
   * What the short Jcc conditions mean once the flags hold a - b: jc is
   * "below", jz "equal", jl "less" and jle "less or equal" (signed).
   */
  lemma {:induction false} ConditionsAfterSubtraction(r: Eflags, f: Eflags, a: u32, b: u32)
    requires SubtractionFlags(r, f, a, b)
    ensures Taken(JC, r) <==> a < b
    ensures Taken(JNC, r) <==> a >= b
    ensures Taken(JZ, r) <==> a == b
    ensures Taken(JNZ, r) <==> a != b
    ensures Taken(JL, r) <==> Signed32(a) < Signed32(b)
    ensures Taken(JLE, r) <==> Signed32(a) <= Signed32(b)
  {
    SignedLess(a, b);
    SignedInjective(a, b);
  }

  /** After cmp r32, rm32 the short Jcc conditions compare the register with the operand. */
  lemma {:induction false} CmpR32Rm32Conditions(s: State)
    requires ModRMOperandFits(s)
    ensures var m := ModRMAt(s);
      var a := s.registers[m.reg];
      var b := Rm32(s, m);
      var f := CmpR32Rm32(s).eflags;
      && (Taken(JC, f) <==> a < b)
      && (Taken(JZ, f) <==> a == b)
      && (Taken(JL, f) <==> Signed32(a) < Signed32(b))
      && (Taken(JLE, f) <==> Signed32(a) <= Signed32(b))
  {
    var m := ModRMAt(s);
    ConditionsAfterSubtraction(CmpR32Rm32(s).eflags, s.eflags, s.registers[m.reg], Rm32(s, m));
  }

  // ---------------------------------------------------------------------
  // Group 83

  /** cmp (83 /7) sets the same flags as sub (83 /5) and differs from it only in leaving the operand alone. */
  lemma {:induction false} CmpIsSubWithoutStore(s: State, m: ModRM)
    requires Imm8Fits(s, m)
    ensures CmpRm32Imm8(s, m).eflags == SubRm32Imm8(s, m).eflags
    ensures CmpRm32Imm8(s, m) == SubRm32Imm8(s, m).(registers := s.registers, memory := s.memory)
  {
  }

  /** The operand of sub rm32, imm8 afterwards holds operand - imm8 modulo 2^32. */
  lemma {:induction false} SubRm32Imm8Result(s: State, m: ModRM)
    requires Imm8Fits(s, m)
    ensures OperandFits(SubRm32Imm8(s, m), m)
    ensures Rm32(SubRm32Imm8(s, m), m) == Wrap(Rm32(s, m) - Sext8(s.memory[s.eip]))
  {
    var t := SubRm32Imm8(s, m);
    var a := Rm32(s, m);
    var v := Wrap(a - Imm8(s));
    ReadAfterWrite(s, m, v);
    var w := WriteRm32(s, m, v);
    assert t.registers == w.registers && t.memory == w.memory;
    SameOperand(t, w, m);
    assert Imm8(s) == Wrap(Sext8(s.memory[s.eip]));
    WrapSub(a, Sext8(s.memory[s.eip]));
  }

  /** The rm32 operand depends only on the registers and memory. */
  lemma {:induction false} SameOperand(t: State, s: State, m: ModRM)
    requires OperandFits(s, m) && t.registers == s.registers && t.memory == s.memory
    ensures OperandFits(t, m) && Rm32(t, m) == Rm32(s, m)
  {
  }

  /** Example: subtracting 3 from an operand holding 10 leaves 7 with CF and ZF clear. */
  lemma {:induction false} SubTenMinusThree(s: State, m: ModRM)
    requires Imm8Fits(s, m) && Rm32(s, m) == 10 && s.memory[s.eip] == 3
    ensures var t := SubRm32Imm8(s, m);
      OperandFits(t, m) && Rm32(t, m) == 7 && !IsCarry(t.eflags) && !IsZero(t.eflags)
  {
    SubRm32Imm8Result(s, m);
  }

  /** add rm32, imm8 leaves operand + sign-extended imm8 modulo 2^32 in the operand and EFLAGS alone. */
  lemma {:induction false} AddRm32Imm8Result(s: State, m: ModRM)
    requires Imm8Fits(s, m)
    ensures OperandFits(AddRm32Imm8(s, m), m)
    ensures Rm32(AddRm32Imm8(s, m), m) == Wrap(Rm32(s, m) + Sext8(s.memory[s.eip]))
    ensures AddRm32Imm8(s, m).eflags == s.eflags
  {
    ReadAfterWrite(s, m, Add32(Rm32(s, m), Sext8(s.memory[s.eip])));
  }

  /**
   * The same immediate byte b means two different words: push imm8 pushes b
   * zero-extended, while the imm8 of group 83 is b sign-extended to 32 bits.
   */
  lemma {:induction false} Imm8Extensions(s: State)
    requires s.eip + 1 < |s.memory| && PushFits(s)
    ensures var t := PushImm8(s);
      var b := s.memory[s.eip + 1];
      && Load32(t.memory, t.registers[ESP]) == b
      && Imm8(s.(eip := s.eip + 1)) == if b < 0x80 then b as int else b as int + 0xFFFF_FF00
  {
    var b := s.memory[s.eip + 1];
    var u := s.(eip := s.eip + 1);
    assert Imm8(u) == Wrap(Sext8(b));
    if b >= 0x80 {
      assert Wrap(b as int - 0x100) == b as int - 0x100 + 0x1_0000_0000;
    }
  }

  // ---------------------------------------------------------------------
  // add, mov, inc

  /** add rm32, r32 leaves the wrapped sum in the operand and EFLAGS alone. */
  lemma {:induction false} AddRm32R32Result(s: State)
    requires ModRMOperandFits(s)
    ensures var m := ModRMAt(s);
      var t := AddRm32R32(s);
      OperandFits(t, m) && Rm32(t, m) == Wrap(Rm32(s, m) + s.registers[m.reg]) && t.eflags == s.eflags
  {
    var m := ModRMAt(s);
    ReadAfterWrite(s, m, Wrap(Rm32(s, m) + s.registers[m.reg]));
  }

  /** mov rm32, r32 followed by mov r32', rm32 on the same operand copies one register into another. */
  lemma {:induction false} MovRoundTrip(s: State, m: ModRM, dst: RegIndex)
    requires OperandFits(s, m)
    ensures var t := WriteRm32(s, m, s.registers[m.reg]);
      OperandFits(t, m) && Rm32(t, m) == s.registers[m.reg]
    ensures var t := WriteRm32(s, m, s.registers[m.reg]);
      OperandFits(t, m) && WithRegister(t, dst, Rm32(t, m)).registers[dst] == s.registers[m.reg]
  {
    ReadAfterWrite(s, m, s.registers[m.reg]);
  }

  /**
   * Register-direct moves (mod = 3): 89 copies the reg-field register into
   * the rm-field register and 8B the other way; no other register, no
   * memory byte and no flag changes.
   */
  lemma {:induction false} MovRegisterDirect(s: State)
    requires ModRMFits(s) && ModRMAt(s).mod == 3
    ensures ModRMOperandFits(s)
    ensures var m := ModRMAt(s);
      var t := MovRm32R32(s);
      t.registers == s.registers[m.rm := s.registers[m.reg]] && t.memory == s.memory && t.eflags == s.eflags
    ensures var m := ModRMAt(s);
      var t := MovR32Rm32(s);
      t.registers == s.registers[m.reg := s.registers[m.rm]] && t.memory == s.memory && t.eflags == s.eflags
  {
    var m := ModRMAt(s);
    assert WriteRm32(s, m, s.registers[m.reg]) == WithRegister(s, m.rm, s.registers[m.reg]);
  }

  /** inc rm32 leaves operand + 1 modulo 2^32 in the operand and EFLAGS alone. */
  lemma {:induction false} IncRm32Result(s: State, m: ModRM)
    requires OperandFits(s, m)
    ensures OperandFits(IncRm32(s, m), m)
    ensures Rm32(IncRm32(s, m), m) == Wrap(Rm32(s, m) + 1)
    ensures IncRm32(s, m).eflags == s.eflags
  {
    ReadAfterWrite(s, m, Wrap(Rm32(s, m) + 1));
  }

  // ---------------------------------------------------------------------
  // The stack

  /** The stack word below ESP does not overlap the byte at `at`. */
  predicate StackApart(s: State, at: int) {
    var a := Add32(s.registers[ESP], -4);
    !(a <= at < a + 4)
  }

  /**
   * push r32 followed by pop r32': the second register receives the first
   * one's value, every other register (ESP included) is as before, and EIP
   * has moved by two bytes.
   */
  lemma {:induction false} PushThenPop(s: State, dst: RegIndex)
    requires PushR32Fits(s) && s.eip + 1 < |s.memory| && s.memory[s.eip + 1] == 0x58 + dst
    requires StackApart(s, s.eip + 1)
    ensures PopR32Fits(PushR32(s))
    ensures PopR32(PushR32(s)).registers == s.registers[dst := s.registers[s.memory[s.eip] - 0x50]]
    ensures PopR32(PushR32(s)).eip == Add32(s.eip, 2)
    ensures PopR32(PushR32(s)).eflags == s.eflags
  {
    var src := s.memory[s.eip] - 0x50;
    var t := PushR32(s);
    PopPush(s, s.registers[src]);
    assert t.eip == s.eip + 1;
    assert t.memory[t.eip] == 0x58 + dst;
    Add32Add32(s.eip, 1, 1);
  }

  /**
   * call rel32 then, over a balanced stack (same ESP, return word intact),
   * ret: EIP is the address after the call and ESP is as before the call.
   */
  lemma {:induction false} CallThenRet(s: State, u: State)
    requires CallRel32Fits(s)
    requires u.registers[ESP] == CallRel32(s).registers[ESP] && PopFits(u)
    requires Load32(u.memory, u.registers[ESP]) == Load32(CallRel32(s).memory, u.registers[ESP])
    ensures Ret(u).eip == Add32(s.eip, 5)
    ensures Ret(u).registers[ESP] == s.registers[ESP]
  {
    var esp := s.registers[ESP];
    Add32Add32(esp, -4, 4);
  }

  /**
   * The usual frame: push ebp; mov ebp, esp; ...; leave. When the body
   * leaves EBP at the saved word and the word intact, leave restores both
   * EBP and ESP to their values before the push.
   */
  lemma {:induction false} PushEbpThenLeave(s: State, u: State)
    requires PushR32Fits(s) && s.memory[s.eip] == 0x50 + EBP
    requires var t := PushR32(s);
      && u.registers[EBP] == t.registers[ESP] && LeaveFits(u)
      && Load32(u.memory, u.registers[EBP]) == Load32(t.memory, t.registers[ESP])
    ensures Leave(u).registers[EBP] == s.registers[EBP]
    ensures Leave(u).registers[ESP] == s.registers[ESP]
  {
    var esp := s.registers[ESP];
    Add32Add32(esp, -4, 4);
  }
}
