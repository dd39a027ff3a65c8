/**
 * The flag evaluator: the four condition-bit queries and the flag update
 * that a 32-bit subtraction performs. These helpers are not part of the
 * files modelled here; the definitions below are the assumed ones: each
 * query reads one fixed EFLAGS bit, and `UpdatedEflagsSub` sets CF, ZF, SF
 * and OF from the operands and the 64-bit difference the way SUB does.
 */
module Flags {
  import opened Machine

  predicate IsCarry(f: Eflags) { f[CARRY_FLAG] }
  predicate IsZero(f: Eflags) { f[ZERO_FLAG] }
  predicate IsSign(f: Eflags) { f[SIGN_FLAG] }
  predicate IsOverflow(f: Eflags) { f[OVERFLOW_FLAG] }

  /** Sets or clears one bit of `f`. */
  function SetFlag(f: Eflags, flag: nat, on: bool): Eflags
    requires flag < EFLAGS_BITS
  {
    f[flag := on]
  }

  /** `r` and `f` agree on every bit outside CF, ZF, SF and OF. */
  predicate SameOtherFlags(r: Eflags, f: Eflags) {
    forall i :: 0 <= i < EFLAGS_BITS && !IsArithmeticFlag(i) ==> r[i] == f[i]
  }

  /** `(uint64_t)a - (uint64_t)b`: the difference as the handlers compute it. */
  function Sub64(a: u32, b: u32): u64 {
    (a - b) % 0x1_0000_0000_0000_0000
  }

  /** Bit 31 of a value, as 0 or 1. */
  function Bit31(x: nat): nat {
    (x / 0x8000_0000) % 2
  }

  /**
   * update_eflags_sub(v1, v2, result): carry is the borrow out of bit 31
   * (result >> 32 is non-zero), zero is result == 0, sign is bit 31 of the
   * result, overflow is "the operands' signs differ and the result's sign
   * differs from v1's". No other bit of EFLAGS changes.
   */
  function UpdatedEflagsSub(f: Eflags, v1: u32, v2: u32, result: u64): (r: Eflags)
    ensures IsCarry(r) <==> result >= 0x1_0000_0000
    ensures IsZero(r) <==> result == 0
    ensures IsSign(r) <==> Bit31(result) == 1
    ensures IsOverflow(r) <==> (v1 < 0x8000_0000) != (v2 < 0x8000_0000) &&
                               (v1 < 0x8000_0000) != (Bit31(result) == 0)
    ensures SameOtherFlags(r, f)
  {
    var sign1 := v1 / 0x8000_0000;
    var sign2 := v2 / 0x8000_0000;
    var signr := Bit31(result);
    WithArithmeticFlags(f, result / 0x1_0000_0000 != 0, result == 0, signr == 1,
                        sign1 != sign2 && sign1 != signr)
  }

  /** set_carry, set_zero, set_sign and set_overflow, one after the other. */
  function WithArithmeticFlags(f: Eflags, carry: bool, zero: bool, sign: bool, overflow: bool): Eflags {
    SetFlag(SetFlag(SetFlag(SetFlag(f, CARRY_FLAG, carry), ZERO_FLAG, zero), SIGN_FLAG, sign),
            OVERFLOW_FLAG, overflow)
  }

  /**
   * `r` holds the flags of `a - b` on top of `f`: CF iff a < b as unsigned,
   * ZF iff a == b, SF iff bit 31 of the wrapped difference, OF iff the
   * signed difference does not fit in 32 bits; every other bit is f's.
   */
  predicate SubtractionFlags(r: Eflags, f: Eflags, a: u32, b: u32) {
    && (IsCarry(r) <==> a < b)
    && (IsZero(r) <==> a == b)
    && (IsSign(r) <==> Wrap(a - b) >= 0x8000_0000)
    && (IsOverflow(r) <==> !(-0x8000_0000 <= Signed32(a) - Signed32(b) < 0x8000_0000))
    && SameOtherFlags(r, f)
  }

  /** The 64-bit difference borrows iff a < b, is zero iff a == b, and has the wrapped difference's bit 31. */
  lemma {:induction false} Difference64(a: u32, b: u32)
    ensures Sub64(a, b) / 0x1_0000_0000 != 0 <==> a < b
    ensures Sub64(a, b) == 0 <==> a == b
    ensures Bit31(Sub64(a, b)) == Wrap(a - b) / 0x8000_0000
  {
    var result: int := Sub64(a, b);
    var w: int := Wrap(a - b);
    if a >= b {
      assert result == a - b == w;
      assert result / 0x1_0000_0000 == 0;
    } else {
      assert result == 0x1_0000_0000_0000_0000 + a - b;
      assert w == 0x1_0000_0000 + a - b;
      assert result == (0x1_0000_0000 - 1) * 0x1_0000_0000 + w;
      assert result / 0x1_0000_0000 == 0x1_0000_0000 - 1;
      assert result == (0x2_0000_0000 - 2) * 0x8000_0000 + w;
      assert result / 0x8000_0000 == 0x2_0000_0000 - 2 + w / 0x8000_0000;
    }
  }

  /** The 64-bit difference kept in a uint32_t is the 32-bit difference. */
  lemma {:induction false} Sub64Truncated(a: u32, b: u32)
    ensures Wrap(Sub64(a, b)) == Wrap(a - b)
  {
    if a < b {
      var w := a - b + 0x1_0000_0000;
      assert Wrap(a - b) == w;
      assert Sub64(a, b) == w + (0x1_0000_0000 - 1) * 0x1_0000_0000;
      assert Sub64(a, b) / 0x1_0000_0000 == 0x1_0000_0000 - 1;
    }
  }

  /** The sign rule for overflow agrees with "the signed difference does not fit in 32 bits". */
  lemma {:induction false} OverflowRule(a: u32, b: u32)
    ensures (a / 0x8000_0000 != b / 0x8000_0000 && a / 0x8000_0000 != Wrap(a - b) / 0x8000_0000)
            <==> !(-0x8000_0000 <= Signed32(a) - Signed32(b) < 0x8000_0000)
  {
    var d := Signed32(a) - Signed32(b);
    assert Wrap(a - b) == Wrap(d);
    if -0x8000_0000 <= d < 0x8000_0000 {
      assert Signed32(Wrap(d)) == d;
    } else if d >= 0x8000_0000 {
      assert Wrap(d) == d;
    } else {
      assert Wrap(d) == d + 0x1_0000_0000;
    }
  }

  /** update_eflags_sub, given the 64-bit difference, sets exactly the flags of the subtraction. */
  lemma {:induction false} SubFlags(f: Eflags, v1: u32, v2: u32)
    ensures SubtractionFlags(UpdatedEflagsSub(f, v1, v2, Sub64(v1, v2)), f, v1, v2)
  {
    Difference64(v1, v2);
    OverflowRule(v1, v2);
  }

  /** Example: 5 - 10 borrows and is negative, without overflow. */
  lemma SubFlagsExample(f: Eflags)
    ensures var r := UpdatedEflagsSub(f, 5, 10, Sub64(5, 10));
      !IsZero(r) && IsCarry(r) && IsSign(r) && !IsOverflow(r)
  {
    SubFlags(f, 5, 10);
  }
}
