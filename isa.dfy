// The instruction set the simulator executes: opcode numbers, the
// register-selector indirection of set_register (sim.c:718-732), and the
// values the arithmetic, logic, shift and branch handlers compute
// (sim.c:744-1063).

module Isa {
  import opened Words

  const ADD: int := 0
  const SUB: int := 1
  const MAC: int := 2
  const AND: int := 3
  const OR: int := 4
  const XOR: int := 5
  const SLL: int := 6
  const SRA: int := 7
  const SRL: int := 8
  const BEQ: int := 9
  const BNE: int := 10
  const BLT: int := 11
  const BGT: int := 12
  const BLE: int := 13
  const BGE: int := 14
  const JAL: int := 15
  const LW: int := 16
  const SW: int := 17
  const RETI: int := 18
  const IN: int := 19
  const OUT: int := 20
  const HALT: int := 21

  const CPU_REG_NUM: nat := 16

  predicate IsOpcode(op: int) { ADD <= op <= HALT }
  predicate IsAlu(op: int) { ADD <= op <= SRL }
  predicate IsShift(op: int) { SLL <= op <= SRL }
  predicate IsBranch(op: int) { BEQ <= op <= BGE }

  /** set_register: selector 1 stands for imm1 and selector 2 for imm2;
      every other selector reads the register file. */
  function Operand(sel: int, imm1: Int32, imm2: Int32, regs: seq<Int32>): (r: Int32)
    requires |regs| == CPU_REG_NUM && 0 <= sel < CPU_REG_NUM
    ensures r == regs[1 := imm1][2 := imm2][sel]
  {
    if sel == 1 then imm1 else if sel == 2 then imm2 else regs[sel]
  }

  /** Registers 1 and 2 are not storage an instruction can observe: whatever
      they hold, every selector resolves to the same value. */
  lemma OperandIgnoresAliasSlots(sel: int, imm1: Int32, imm2: Int32, regs: seq<Int32>, x: Int32, y: Int32)
    requires |regs| == CPU_REG_NUM && 0 <= sel < CPU_REG_NUM
    ensures Operand(sel, imm1, imm2, regs[1 := x][2 := y]) == Operand(sel, imm1, imm2, regs)
  {
  }

  /** `a << n` on a C int, wrapping. */
  function Sll(a: Int32, n: int): (r: Int32)
    requires 0 <= n < 32
    ensures (r - a * Pow2(n)) % TWO32 == 0
  {
    Wrap32(a * Pow2(n))
  }

  /** Floor division by 2^n, one halving at a time (Dafny's `/` by a
      positive divisor rounds down, as an arithmetic shift does). */
  function ShiftRight(x: int, n: nat): int
    decreases n
  {
    if n == 0 then x else ShiftRight(x / 2, n - 1)
  }

  lemma {:induction false} ShiftRightBounds(x: int, n: nat)
    ensures x >= 0 ==> 0 <= ShiftRight(x, n) <= x
    ensures x < 0 ==> x <= ShiftRight(x, n) < 0
    ensures n >= 1 && x >= 0 ==> ShiftRight(x, n) <= x / 2
    decreases n
  {
    if n > 0 {
      ShiftRightBounds(x / 2, n - 1);
    }
  }

  /** Division with a remainder in 0 .. d - 1 has one quotient. */
  lemma DivUnique(x: int, d: int, q: int, r: int)
    requires d > 0 && 0 <= r < d && x == d * q + r
    ensures x / d == q
  {
    var q', r' := x / d, x % d;
    assert d * (q' - q) == r - r';
    MulBound(d, q' - q);
  }

  /** A non-zero multiple of d is at least d away from zero. */
  lemma MulBound(d: int, k: int)
    requires d > 0
    ensures k >= 1 ==> d * k >= d
    ensures k <= -1 ==> d * k <= -d
    decreases if k < 0 then -k else k
  {
    if k >= 1 {
      assert d * k == d * (k - 1) + d;
      if k > 1 { MulBound(d, k - 1); }
    } else if k <= -1 {
      assert d * k == d * (k + 1) - d;
      if k < -1 { MulBound(d, k + 1); }
    }
  }

  /** Halving, then dividing by m, is dividing by 2 * m (both round down). */
  lemma HalfThenDivide(x: int, m: int)
    requires m >= 1
    ensures (x / 2) / m == x / (2 * m)
  {
    var q, r := x / 2, x % 2;
    var q2, r2 := q / m, q % m;
    assert x == 2 * q + r;
    assert q == m * q2 + r2;
    assert x == (2 * m) * q2 + (2 * r2 + r);
    DivUnique(x, 2 * m, q2, 2 * r2 + r);
  }

  /** Shifting right by n is floor division by 2^n. */
  lemma {:induction false} ShiftRightIsDivision(x: int, n: nat)
    ensures ShiftRight(x, n) == x / Pow2(n)
    decreases n
  {
    if n > 0 {
      ShiftRightIsDivision(x / 2, n - 1);
      HalfThenDivide(x, Pow2(n - 1));
    }
  }

  /** `a >> n` on a C int: an arithmetic shift, which rounds toward minus
      infinity. */
  function Sra(a: Int32, n: int): (r: Int32)
    requires 0 <= n < 32
    ensures r == a / Pow2(n)
    ensures a >= 0 ==> 0 <= r <= a
    ensures a < 0 ==> a <= r < 0
  {
    ShiftRightBounds(a, n);
    ShiftRightIsDivision(a, n);
    ShiftRight(a, n)
  }

  /** `(unsigned int)a >> n` stored back into a C int: a logical shift. */
  function Srl(a: Int32, n: int): (r: Int32)
    requires 0 <= n < 32
    ensures n == 0 ==> r == a
    ensures n >= 1 ==> 0 <= r == Unsigned32(a) / Pow2(n)
  {
    ShiftRightBounds(Unsigned32(a), n);
    ShiftRightIsDivision(Unsigned32(a), n);
    WrapUnsigned(a);
    Wrap32(ShiftRight(Unsigned32(a), n))
  }

  /** On a non-negative operand the two right shifts agree. */
  lemma {:induction false} RightShiftsAgree(a: Int32, n: int)
    requires 0 <= n < 32 && a >= 0
    ensures Srl(a, n) == Sra(a, n)
  {
  }

  /** A logical shift by at least one clears the sign; an arithmetic shift
      keeps it. */
  lemma {:induction false} ShiftSigns(a: Int32, n: int)
    requires 1 <= n < 32
    ensures 0 <= Srl(a, n) == ShiftRight(Unsigned32(a), n) == Unsigned32(a) / Pow2(n)
    ensures Sra(a, n) < 0 <==> a < 0
  {
    ShiftRightBounds(Unsigned32(a), n);
    ShiftRightIsDivision(Unsigned32(a), n);
  }

  /** srl(-1, 1) is 0x7FFFFFFF while sra(-1, 1) is -1 (0xFFFFFFFF). */
  lemma ShiftOfMinusOne()
    ensures Srl(-1, 1) == 0x7FFF_FFFF && Sra(-1, 1) == -1
  {
  }

  function And3(a: Int32, b: Int32, c: Int32): Int32 {
    FromBits(ToBits(a) & ToBits(b) & ToBits(c))
  }

  function Or3(a: Int32, b: Int32, c: Int32): Int32 {
    FromBits(ToBits(a) | ToBits(b) | ToBits(c))
  }

  function Xor3(a: Int32, b: Int32, c: Int32): Int32 {
    FromBits(ToBits(a) ^ ToBits(b) ^ ToBits(c))
  }

  /** The value written to rd by the handlers add .. srl; `a`, `b`, `c` are
      the operands selected by rs, rt, rm (the shifts ignore rm). */
  function AluValue(op: int, a: Int32, b: Int32, c: Int32): (r: Int32)
    requires IsAlu(op) && (IsShift(op) ==> 0 <= b < 32)
    ensures op == ADD ==> (r - (a + b + c)) % TWO32 == 0
    ensures op == SUB ==> (r - (a - b - c)) % TWO32 == 0
    ensures op == MAC ==> (r - (a * b + c)) % TWO32 == 0
    ensures op == SLL ==> (r - a * Pow2(b)) % TWO32 == 0
    ensures op == SRA ==> r == a / Pow2(b)
    ensures op == SRL ==> r == if b == 0 then a else Unsigned32(a) / Pow2(b)
  {
    if op == ADD then Wrap32(a + b + c)
    else if op == SUB then Wrap32(a - b - c)
    else if op == MAC then Wrap32(a * b + c)
    else if op == AND then And3(a, b, c)
    else if op == OR then Or3(a, b, c)
    else if op == XOR then Xor3(a, b, c)
    else if op == SLL then Sll(a, b)
    else if op == SRA then Sra(a, b)
    else Srl(a, b)
  }

  /** The comparison of beq .. bge between the operands of rs and rt. */
  function BranchTaken(op: int, a: Int32, b: Int32): (taken: bool)
    requires IsBranch(op)
    ensures a == b ==> (taken <==> op == BEQ || op == BLE || op == BGE)
    ensures a < b ==> (taken <==> op == BNE || op == BLT || op == BLE)
    ensures a > b ==> (taken <==> op == BNE || op == BGT || op == BGE)
  {
    if op == BEQ then a == b
    else if op == BNE then a != b
    else if op == BLT then a < b
    else if op == BGT then a > b
    else if op == BLE then a <= b
    else a >= b
  }

  /** The six conditions come in complementary pairs: beq/bne, blt/bge, bgt/ble. */
  lemma BranchPairs(a: Int32, b: Int32)
    ensures BranchTaken(BNE, a, b) == !BranchTaken(BEQ, a, b)
    ensures BranchTaken(BGE, a, b) == !BranchTaken(BLT, a, b)
    ensures BranchTaken(BLE, a, b) == !BranchTaken(BGT, a, b)
  {
  }
}
