/**
 * Memory and register accessors and the stack. The C helpers behind these
 * (get_code8/32, get_sign_code8/32, get/set_register32, get/set_memory32,
 * push32, pop32) are not part of the files modelled here; the definitions
 * below are the assumed ones:
 *  - code and memory words are little-endian, read at an offset from EIP
 *    without moving it;
 *  - push32 decrements ESP by 4 and then stores; pop32 loads and then
 *    increments ESP by 4, both modulo 2^32.
 * Nothing is bounds-checked, so every access requires its bytes to exist.
 */
module Access {
  import opened Machine

  /** int8_t read of a byte. */
  function Sext8(b: u8): (r: int)
    ensures -0x80 <= r < 0x80
    ensures r % 0x100 == b
  {
    if b < 0x80 then b else b - 0x100
  }

  /** Little-endian 32-bit word at address `a`. */
  function Load32(mem: seq<u8>, a: nat): u32
    requires a + 4 <= |mem|
  {
    mem[a] as int + mem[a + 1] as int * 0x100 + mem[a + 2] as int * 0x1_0000 + mem[a + 3] as int * 0x100_0000
  }

  /** `mem` with the little-endian bytes of `v` at `a .. a + 3`. */
  function Store32(mem: seq<u8>, a: nat, v: u32): (r: seq<u8>)
    requires a + 4 <= |mem|
    ensures |r| == |mem|
  {
    mem[a := v % 0x100]
       [a + 1 := (v / 0x100) % 0x100]
       [a + 2 := (v / 0x1_0000) % 0x100]
       [a + 3 := v / 0x100_0000]
  }

  /** get_code8(emu, i): the byte `i` places after EIP. */
  function Code8(s: State, i: nat): u8
    requires s.eip + i < |s.memory|
  {
    s.memory[s.eip + i]
  }

  /** get_sign_code8(emu, i) */
  function SignCode8(s: State, i: nat): (r: int)
    requires s.eip + i < |s.memory|
    ensures -0x80 <= r < 0x80
    ensures r % 0x100 == s.memory[s.eip + i]
  {
    Sext8(Code8(s, i))
  }

  /** get_code32(emu, i): the little-endian word `i` places after EIP (its bytes: LoadBytes). */
  function Code32(s: State, i: nat): u32
    requires s.eip + i + 4 <= |s.memory|
  {
    Load32(s.memory, s.eip + i)
  }

  /** get_sign_code32(emu, i) */
  function SignCode32(s: State, i: nat): int
    requires s.eip + i + 4 <= |s.memory|
  {
    Signed32(Code32(s, i))
  }

  /** The state with one general register replaced. */
  function WithRegister(s: State, r: RegIndex, v: u32): (t: State)
    ensures t.registers[r] == v
    ensures forall i :: 0 <= i < REGISTERS_COUNT && i != r ==> t.registers[i] == s.registers[i]
    ensures t == s.(registers := t.registers)
  {
    s.(registers := s.registers[r := v])
  }

  /** The stack word that push32 writes lies inside memory. */
  predicate PushFits(s: State) {
    Add32(s.registers[ESP], -4) + 4 <= |s.memory|
  }

  /** The stack word that pop32 reads lies inside memory. */
  predicate PopFits(s: State) {
    s.registers[ESP] + 4 <= |s.memory|
  }

  /** push32: ESP := ESP - 4, then the word at the new ESP := v. */
  function Push(s: State, v: u32): (t: State)
    requires PushFits(s)
    ensures t.registers == s.registers[ESP := Add32(s.registers[ESP], -4)]
    ensures PopFits(t) && Load32(t.memory, t.registers[ESP]) == v
    ensures |t.memory| == |s.memory|
    ensures forall i :: 0 <= i < |s.memory| && !(t.registers[ESP] <= i < t.registers[ESP] as int + 4) ==>
      t.memory[i] == s.memory[i]
    ensures t == s.(registers := t.registers, memory := t.memory)
  {
    var address := Add32(s.registers[ESP], -4);
    LoadStore(s.memory, address, v);
    s.(registers := s.registers[ESP := address], memory := Store32(s.memory, address, v))
  }

  /** pop32: the word at ESP, and the state with ESP := ESP + 4. */
  function Pop(s: State): (r: (u32, State))
    requires PopFits(s)
    ensures r.0 == Load32(s.memory, s.registers[ESP])
    ensures r.1 == s.(registers := s.registers[ESP := Add32(s.registers[ESP], 4)])
  {
    var address := s.registers[ESP];
    (Load32(s.memory, address), s.(registers := s.registers[ESP := Add32(address, 4)]))
  }

  // ---------------------------------------------------------------------
  // Properties of the accessors

  /** Reading back a stored word gives the word. */
  lemma {:induction false} LoadStore(mem: seq<u8>, a: nat, v: u32)
    requires a + 4 <= |mem|
    ensures Load32(Store32(mem, a, v), a) == v
  {
    var m := Store32(mem, a, v);
    var q1 := v / 0x100;
    var q2 := q1 / 0x100;
    var q3 := q2 / 0x100;
    assert v == v % 0x100 + 0x100 * q1;
    assert q1 == q1 % 0x100 + 0x100 * q2;
    assert q2 == q2 % 0x100 + 0x100 * q3;
    assert q2 == v / 0x1_0000;
    assert q3 == v / 0x100_0000;
    assert m[a] == v % 0x100 && m[a + 1] == q1 % 0x100 && m[a + 2] == q2 % 0x100 && m[a + 3] == q3;
  }

  /** Division by 256 undoes `256 * q + r` for a byte `r`. */
  lemma {:induction false} ByteSplit(q: nat, r: u8)
    ensures (0x100 * q + r) % 0x100 == r && (0x100 * q + r) / 0x100 == q
  {
  }

  /** The bytes of a loaded word are the bytes it was loaded from. */
  lemma {:induction false} LoadBytes(mem: seq<u8>, a: nat)
    requires a + 4 <= |mem|
    ensures Load32(mem, a) % 0x100 == mem[a]
    ensures (Load32(mem, a) / 0x100) % 0x100 == mem[a + 1]
    ensures (Load32(mem, a) / 0x1_0000) % 0x100 == mem[a + 2]
    ensures Load32(mem, a) / 0x100_0000 == mem[a + 3]
  {
    var w := Load32(mem, a);
    var q2: nat := mem[a + 2] as int + 0x100 * mem[a + 3] as int;
    var q1: nat := mem[a + 1] as int + 0x100 * q2;
    assert w == 0x100 * q1 + mem[a];
    ByteSplit(q1, mem[a]);
    ByteSplit(q2, mem[a + 1]);
    ByteSplit(mem[a + 3], mem[a + 2]);
    assert w / 0x1_0000 == (w / 0x100) / 0x100;
    assert w / 0x100_0000 == (w / 0x1_0000) / 0x100;
  }

  /** Storing the word just loaded leaves memory as it was. */
  lemma {:induction false} StoreLoad(mem: seq<u8>, a: nat)
    requires a + 4 <= |mem|
    ensures Store32(mem, a, Load32(mem, a)) == mem
  {
    LoadBytes(mem, a);
  }

  /** A store changes exactly the four bytes it writes. */
  lemma StoreFrame(mem: seq<u8>, a: nat, v: u32, i: nat)
    requires a + 4 <= |mem| && i < |mem|
    ensures (i < a || a + 4 <= i) ==> Store32(mem, a, v)[i] == mem[i]
  {
  }

  /** A load sees only the four bytes at its address. */
  lemma LoadFrame(mem: seq<u8>, mem': seq<u8>, a: nat)
    requires a + 4 <= |mem| && a + 4 <= |mem'|
    requires forall i :: a <= i < a + 4 ==> mem[i] == mem'[i]
    ensures Load32(mem, a) == Load32(mem', a)
  {
    assert mem[a] == mem'[a] && mem[a + 1] == mem'[a + 1];
    assert mem[a + 2] == mem'[a + 2] && mem[a + 3] == mem'[a + 3];
  }

  /** pop32 right after push32 gives back the pushed value and the original registers. */
  lemma {:induction false} PopPush(s: State, v: u32)
    requires PushFits(s)
    ensures PopFits(Push(s, v))
    ensures Pop(Push(s, v)).0 == v
    ensures Pop(Push(s, v)).1.registers == s.registers
  {
    var esp := s.registers[ESP];
    var a := Add32(esp, -4);
    if esp < 4 {
      assert a as int == esp as int - 4 + 0x1_0000_0000;
    }
    assert Add32(a, 4) == esp;
    assert s.registers[ESP := esp] == s.registers;
  }

  // ---------------------------------------------------------------------
  // Sequences of pushes and pops

  /** The list in reverse order. */
  function Reversed<T>(vs: seq<T>): (r: seq<T>)
    ensures |r| == |vs|
    ensures forall k :: 0 <= k < |vs| ==> r[k] == vs[|vs| - 1 - k]
  {
    if vs == [] then [] else Reversed(vs[1..]) + [vs[0]]
  }

  /** Room below ESP for `n` pushes, without ESP wrapping below zero. */
  predicate PushRoom(s: State, n: nat) {
    4 * n <= s.registers[ESP] <= |s.memory|
  }

  /** push32 of each value in order, the first one first. */
  function PushAll(s: State, vs: seq<u32>): (t: State)
    requires PushRoom(s, |vs|)
    ensures t.registers == s.registers[ESP := s.registers[ESP] - 4 * |vs|]
    ensures |t.memory| == |s.memory|
    ensures forall i :: s.registers[ESP] <= i < |s.memory| ==> t.memory[i] == s.memory[i]
    ensures t == s.(registers := t.registers, memory := t.memory)
    decreases |vs|
  {
    if vs == [] then s else PushAll(Push(s, vs[0]), vs[1..])
  }

  /** `n` words above ESP lie inside memory. */
  predicate PopRoom(s: State, n: nat) {
    s.registers[ESP] + 4 * n <= |s.memory|
  }

  /** `n` pop32 calls: the values in the order popped, and the final state. */
  function PopN(s: State, n: nat): (r: (seq<u32>, State))
    requires PopRoom(s, n)
    ensures |r.0| == n
    ensures forall k :: 0 <= k < n ==> r.0[k] == Load32(s.memory, s.registers[ESP] + 4 * k)
    ensures r.1 == s.(registers := s.registers[ESP := Wrap(s.registers[ESP] + 4 * n)])
  {
    if n == 0 then
      ([], s)
    else
      var (vs, u) := PopN(s, n - 1);
      var (v, w) := Pop(u);
      (vs + [v], w)
  }

  /** The first value pushed is the word just below the original ESP. */
  lemma {:induction false} FirstPushed(s: State, vs: seq<u32>)
    requires PushRoom(s, |vs|) && vs != []
    ensures var a := s.registers[ESP] - 4;
      a + 4 <= |PushAll(s, vs).memory| && Load32(PushAll(s, vs).memory, a) == vs[0]
  {
    var s1 := Push(s, vs[0]);
    var a := s1.registers[ESP];
    var t := PushAll(s1, vs[1..]);
    assert forall i :: a <= i < a + 4 ==> s1.memory[i] == t.memory[i];
    LoadFrame(s1.memory, t.memory, a);
  }

  /** After pushing `vs` onto `s`, the k-th word above ESP is the k-th value from the end. */
  predicate PushedWord(s: State, vs: seq<u32>, k: nat)
    requires PushRoom(s, |vs|) && k < |vs|
  {
    var t := PushAll(s, vs);
    t.registers[ESP] + 4 * k + 4 <= |t.memory| &&
    Load32(t.memory, t.registers[ESP] + 4 * k) == vs[|vs| - 1 - k]
  }

  /** A word pushed after the first one is the same word of the pushes that follow the first. */
  lemma {:induction false} PushedWordStep(s: State, vs: seq<u32>, k: nat)
    requires PushRoom(s, |vs|) && k < |vs| - 1
    requires PushedWord(Push(s, vs[0]), vs[1..], k)
    ensures PushedWord(s, vs, k)
  {
    var rest := vs[1..];
    assert PushAll(s, vs) == PushAll(Push(s, vs[0]), rest);
    assert vs[|vs| - 1 - k] == rest[|rest| - 1 - k];
  }

  /** The first value pushed is the last word from ESP. */
  lemma {:induction false} PushedWordLast(s: State, vs: seq<u32>)
    requires PushRoom(s, |vs|) && vs != []
    ensures PushedWord(s, vs, |vs| - 1)
  {
    FirstPushed(s, vs);
    assert PushAll(s, vs).registers[ESP] + 4 * (|vs| - 1) == s.registers[ESP] - 4;
  }

  /** After pushing `vs`, the k-th word above ESP is the k-th value from the end. */
  lemma {:induction false} PushedWords(s: State, vs: seq<u32>, k: nat)
    requires PushRoom(s, |vs|) && k < |vs|
    ensures PushedWord(s, vs, k)
    decreases |vs|
  {
    if k < |vs| - 1 {
      PushedWords(Push(s, vs[0]), vs[1..], k);
      PushedWordStep(s, vs, k);
    } else {
      PushedWordLast(s, vs);
    }
  }

  /**
   * Pushing v1 .. vn and then popping n times yields vn .. v1 and puts ESP
   * (and every other register) back where it was.
   */
  lemma {:induction false} PushPopSequence(s: State, vs: seq<u32>)
    requires PushRoom(s, |vs|)
    ensures PopRoom(PushAll(s, vs), |vs|)
    ensures PopN(PushAll(s, vs), |vs|).0 == Reversed(vs)
    ensures PopN(PushAll(s, vs), |vs|).1.registers == s.registers
  {
    var t := PushAll(s, vs);
    var r := PopN(t, |vs|);
    forall k | 0 <= k < |vs|
      ensures r.0[k] == Reversed(vs)[k]
    {
      PushedWords(s, vs, k);
    }
    assert t.registers[ESP] + 4 * |vs| == s.registers[ESP];
    assert s.registers[ESP := s.registers[ESP]] == s.registers;
  }

  // ---------------------------------------------------------------------
  // The same helpers on the emulator object

  /** set_register32 */
  method SetRegister32(emu: Emulator, r: RegIndex, v: u32)
    requires emu.Valid()
    modifies emu.registers
    ensures emu.View() == WithRegister(old(emu.View()), r, v)
  {
    emu.registers[r] := v;
  }

  /** set_memory32: four set_memory8 calls, lowest byte first. */
  method SetMemory32(emu: Emulator, a: u32, v: u32)
    requires emu.Valid() && a + 4 <= emu.memory.Length
    modifies emu.memory
    ensures emu.View() == old(emu.View()).(memory := Store32(old(emu.View()).memory, a, v))
  {
    emu.memory[a] := v % 0x100;
    emu.memory[a + 1] := (v / 0x100) % 0x100;
    emu.memory[a + 2] := (v / 0x1_0000) % 0x100;
    emu.memory[a + 3] := v / 0x100_0000;
  }

  /** push32 */
  method Push32(emu: Emulator, v: u32)
    requires emu.Valid() && PushFits(emu.View())
    modifies emu.registers, emu.memory
    ensures emu.View() == Push(old(emu.View()), v)
  {
    var address := Add32(emu.registers[ESP], -4);
    SetRegister32(emu, ESP, address);
    SetMemory32(emu, address, v);
  }

  /** pop32 */
  method Pop32(emu: Emulator) returns (v: u32)
    requires emu.Valid() && PopFits(emu.View())
    modifies emu.registers
    ensures (v, emu.View()) == Pop(old(emu.View()))
  {
    var address := emu.registers[ESP];
    v := Load32(emu.memory[..], address);
    SetRegister32(emu, ESP, Add32(address, 4));
  }
}
