/**
 * The two-byte near conditional jumps of instructions_0F80.c (0F 82 .. 0F 87
 * and 0F 8F): the opcode is two bytes, the signed 32-bit displacement sits
 * at EIP + 2, and the instruction is six bytes long. Only EIP changes.
 */
module NearJumps {
  import opened Machine
  import opened Flags
  import opened Access
  import Semantics
  import Properties

  /** jc32, jnc32, jz32, jnz32, jna32, ja32 and jg32. */
  datatype NearCond = JC32 | JNC32 | JZ32 | JNZ32 | JNA32 | JA32 | JG32

  /** The jump condition each near Jcc tests. */
  predicate NearTaken(c: NearCond, f: Eflags) {
    match c
    case JC32 => IsCarry(f)
    case JNC32 => !IsCarry(f)
    case JZ32 => IsZero(f)
    case JNZ32 => !IsZero(f)
    case JNA32 => IsCarry(f) || IsZero(f)
    case JA32 => !IsCarry(f) && !IsZero(f)
    case JG32 => !IsZero(f) && IsSign(f) == IsOverflow(f)
  }

  /** The displacement word is read only when the jump is taken. */
  predicate NearJccFits(s: State, c: NearCond) {
    NearTaken(c, s.eflags) ==> s.eip + 6 <= |s.memory|
  }

  /** EIP += 6 + the signed word at EIP + 2 when taken, and exactly 6 when not. */
  function NearJcc(s: State, c: NearCond): (t: State)
    requires NearJccFits(s, c)
    ensures t == s.(eip := t.eip)
    ensures NearTaken(c, s.eflags) ==>
      t.eip == Add32(Add32(s.eip, 6), Signed32(Load32(s.memory, s.eip + 2)))
    ensures !NearTaken(c, s.eflags) ==> t.eip == Add32(s.eip, 6)
  {
    var diff := if NearTaken(c, s.eflags) then SignCode32(s, 2) else 0;
    Add32Add32(s.eip, 6, diff);
    s.(eip := Add32(s.eip, diff + 6))
  }

  // ---------------------------------------------------------------------
  // Properties

  /** jc32/jnc32, jz32/jnz32 and jna32/ja32 are complementary pairs. */
  lemma NearPairs(f: Eflags)
    ensures NearTaken(JC32, f) != NearTaken(JNC32, f)
    ensures NearTaken(JZ32, f) != NearTaken(JNZ32, f)
    ensures NearTaken(JNA32, f) != NearTaken(JA32, f)
  {
  }

  /** jg32 jumps exactly when the short jle does not. */
  lemma GreaterIsNotLessOrEqual(f: Eflags)
    ensures NearTaken(JG32, f) <==> !Semantics.Taken(Semantics.JLE, f)
  {
  }

  /**
   * What the near conditions mean once the flags hold a - b: ja32 is
   * "above" and jna32 "below or equal" (unsigned), jg32 "greater" (signed).
   */
  lemma {:induction false} NearConditionsAfterSubtraction(r: Eflags, f: Eflags, a: u32, b: u32)
    requires SubtractionFlags(r, f, a, b)
    ensures NearTaken(JC32, r) <==> a < b
    ensures NearTaken(JZ32, r) <==> a == b
    ensures NearTaken(JA32, r) <==> a > b
    ensures NearTaken(JNA32, r) <==> a <= b
    ensures NearTaken(JG32, r) <==> Signed32(a) > Signed32(b)
  {
    Properties.ConditionsAfterSubtraction(r, f, a, b);
  }

  /**
   * A taken near Jcc lands where jmp near (E9) would if its opcode stood
   * one byte later: the 0F 8x form is the E9 form behind one more opcode byte.
   */
  lemma {:induction false} TakenIsNearJump(s: State, c: NearCond)
    requires NearJccFits(s, c) && NearTaken(c, s.eflags)
    ensures var shifted := s.(eip := s.eip + 1);
      shifted.eip + 5 <= |shifted.memory| &&
      NearJcc(s, c) == Semantics.NearJump(shifted)
  {
    Add32Add32(s.eip, 1, 5);
  }

  // ---------------------------------------------------------------------
  // The handlers on the emulator object

  /** j*32: the instance of DEFINE_NEAR_JX, jna32, ja32 or jg32 that `c` names. */
  method Jcc32(emu: Emulator, c: NearCond)
    requires emu.Valid() && NearJccFits(emu.View(), c)
    modifies emu
    ensures emu.View() == NearJcc(old(emu.View()), c)
  {
    ghost var s := emu.View();
    var diff := 0;
    if NearTaken(c, emu.eflags) {
      diff := Signed32(Load32(emu.memory[..], emu.eip + 2));
    }
    emu.eip := Add32(emu.eip, diff + 6);
    assert emu.View() == s.(eip := emu.eip);
  }
}
