/**
 * The arithmetic unit and the branch comparator of the execute stage
 * (`Simulator::EX` in src/simulator.cpp).
 *
 * Operands and results are `Word`s (`reg_t`). The source's casts are written
 * out: `(int64_t)x` is `Signed`, narrowing back to `reg_t` is `Wrap`, and a
 * 128-bit product is the exact integer product. The cases in which the host
 * program's behaviour is undefined (division by zero, the one overflowing
 * signed division, a shift by 64 or more, a signed 128-bit product that
 * overflows) are reported as `ArithmeticError` instead.
 */
module Alu {
  import opened Registers
  import opened Outcomes

  const Two127: int := 0x8000_0000_0000_0000_0000_0000_0000_0000

  function Abs(x: int): nat {
    if x < 0 then -x else x
  }

  /** C++ signed `/`: the quotient rounded toward zero. */
  function Quot(x: int, y: int): int
    requires y != 0
  {
    var q := Abs(x) / Abs(y);
    if (x < 0) == (y < 0) then q else -q
  }

  /** C++ signed `%`: the remainder takes the sign of the dividend. */
  function Remainder(x: int, y: int): int
    requires y != 0
  {
    var r := Abs(x) % Abs(y);
    if x < 0 then -r else r
  }

  lemma NegMul(a: int, b: int)
    ensures (-a) * b == -(a * b) && a * (-b) == -(a * b)
  {
  }

  /**
   * The two C++ signed-division operators agree: `(x / y) * y + x % y == x`,
   * the remainder is smaller in magnitude than the divisor, and it never has
   * the opposite sign of the dividend.
   */
  lemma {:induction false} QuotRemainder(x: int, y: int)
    requires y != 0
    ensures y * Quot(x, y) + Remainder(x, y) == x
    ensures Abs(Remainder(x, y)) < Abs(y)
    ensures Remainder(x, y) == 0 || (Remainder(x, y) < 0) == (x < 0)
  {
    var ax, ay := Abs(x), Abs(y);
    EuclidNat(ax, ay);
    var q: int, r: int := ax / ay, ax % ay;
    if x >= 0 && y > 0 {
      assert Quot(x, y) == q && Remainder(x, y) == r;
    } else if x >= 0 {
      assert Quot(x, y) == -q && Remainder(x, y) == r;
      NegMul(ay, q);
      assert y * -q == ay * q;
    } else if y > 0 {
      assert Quot(x, y) == -q && Remainder(x, y) == -r;
      NegMul(ay, q);
      assert y * -q == -(ay * q);
    } else {
      assert Quot(x, y) == q && Remainder(x, y) == -r;
      NegMul(ay, q);
      assert y * q == -(ay * q);
    }
  }

  /**
   * The quotient is no larger in magnitude than the dividend, and only
   * reaches it when the divisor is 1 or -1.
   */
  lemma {:induction false} QuotBound(x: int, y: int)
    requires y != 0
    ensures Abs(Quot(x, y)) <= Abs(x)
    ensures Abs(Quot(x, y)) == Abs(x) && x != 0 ==> Abs(y) == 1
  {
    var ax, ay := Abs(x), Abs(y);
    EuclidNat(ax, ay);
    var q := ax / ay;
    MulAtLeast(q, ay);
    if ay >= 2 && ax != 0 {
      MulAtLeast(q, ay - 1);
      assert ay * q == (ay - 1) * q + q;
      assert q < ax;
    }
  }

  lemma MulAtLeast(q: nat, k: nat)
    requires k >= 1
    ensures k * q >= q
  {
  }

  lemma MulLess(x: nat, y: nat, z: nat)
    requires y < z
    ensures x * y <= x * z
  {
  }

  /** The product of two words is below 2^128, the width of the host's wide product. */
  lemma {:induction false} ProductBound(a: Word, b: Word)
    ensures 0 <= a * b < Two64 * Two64
  {
    MulLess(a, b, Two64);
    MulLess(Two64, a, Two64);
  }

  /** `(unsigned __int128)a * b >> 64`: the high half of the exact product. */
  function High(a: Word, b: Word): Word {
    ProductBound(a, b);
    (a * b) / Two64
  }

  /**
   * The operand combinations for which the source's arithmetic is undefined
   * on the host:
   *  - signed division or remainder by zero, or of the most negative value by -1;
   *  - unsigned division or remainder by zero;
   *  - a register shift by 64 or more;
   *  - `MULH`, which converts both operands to `__int128` without sign
   *    extension, so their product overflows once it reaches 2^127.
   */
  predicate Undefined(op: AluOp, a: Word, b: Word) {
    match op
    case Div | Rem => SignedDivUndefined(a, b)
    case Divu | Remu => b == 0
    case Sll | Sra | Srl => b >= 64
    case Mulh => a * b >= Two127
    case _ => false
  }

  /** `a << k` on `reg_t`: multiplication by 2^k, wrapped. */
  function ShiftLeft(a: Word, k: nat): Word {
    Wrap(a * Pow2(k))
  }

  /** `a >> k` on `reg_t`: floor division of the unsigned reading by 2^k. */
  function ShiftRightLogical(a: Word, k: nat): Word {
    DivBelow(a, Pow2(k));
    a / Pow2(k)
  }

  /** `(int64_t)a >> k`: floor division of the signed reading by 2^k, so the sign is kept. */
  function ShiftRightArith(a: Word, k: nat): Word {
    Wrap(Signed(a) / Pow2(k))
  }

  lemma DivBelow(a: nat, b: nat)
    requires b >= 1
    ensures a / b <= a && a % b <= a
  {
    EuclidNat(a, b);
    MulAtLeast(a / b, b);
  }

  function UnsignedQuot(a: Word, b: Word): Word
    requires b != 0
  {
    DivBelow(a, b);
    a / b
  }

  function UnsignedRem(a: Word, b: Word): Word
    requires b != 0
  {
    DivBelow(a, b);
    a % b
  }

  function BitXor(a: Word, b: Word): Word {
    var v := (a as bv64) ^ (b as bv64);
    PatternRange(v);
    v as int
  }

  function BitOr(a: Word, b: Word): Word {
    var v := (a as bv64) | (b as bv64);
    PatternRange(v);
    v as int
  }

  function BitAnd(a: Word, b: Word): Word {
    var v := (a as bv64) & (b as bv64);
    PatternRange(v);
    v as int
  }

  /** The undefined signed-division cases: a zero divisor, or the most negative value over -1. */
  predicate SignedDivUndefined(a: Word, b: Word) {
    b == 0 || (a == Two63 && b == Two64 - 1)
  }

  /**
   * The ALU switch of `EX`: `m.valE` for operation `op` on `valA` and `valB`,
   * or `ArithmeticError` exactly on the undefined combinations.
   */
  function Execute(op: AluOp, a: Word, b: Word): (r: Result<Word>)
    ensures r.Err? <==> Undefined(op, a, b)
    ensures r.Err? ==> r.fault == ArithmeticError
  {
    match op
    case Add => Ok(Wrap(a + b))
    case Sub => Ok(Wrap(a - b))
    case Mul => Ok(Wrap(a * b))
    // Below 2^127 the signed 128-bit product equals the unsigned one.
    case Mulh => if a * b >= Two127 then Err(ArithmeticError) else Ok(High(a, b))
    // `(__int128_t)a * (__uint128_t)b` converts both operands to unsigned 128 bits.
    case Mulhsu => Ok(High(a, b))
    case Mulhu => Ok(High(a, b))
    case Div => if SignedDivUndefined(a, b) then Err(ArithmeticError) else Ok(Wrap(Quot(Signed(a), Signed(b))))
    case Divu => if b == 0 then Err(ArithmeticError) else Ok(UnsignedQuot(a, b))
    case Rem => if SignedDivUndefined(a, b) then Err(ArithmeticError) else Ok(Wrap(Remainder(Signed(a), Signed(b))))
    case Remu => if b == 0 then Err(ArithmeticError) else Ok(UnsignedRem(a, b))
    case Sll => if b >= 64 then Err(ArithmeticError) else Ok(ShiftLeft(a, b))
    case Sra => if b >= 64 then Err(ArithmeticError) else Ok(ShiftRightArith(a, b))
    case Srl => if b >= 64 then Err(ArithmeticError) else Ok(ShiftRightLogical(a, b))
    case Xor => Ok(BitXor(a, b))
    case Or => Ok(BitOr(a, b))
    case And => Ok(BitAnd(a, b))
    case Slt => Ok(if Signed(a) < Signed(b) then 1 else 0)
    case Sltu => Ok(if a < b then 1 else 0)
  }

  /**
   * `DIV` and `REM` on the same defined operands satisfy the C++ division
   * identity exactly (the quotient does not wrap), with a remainder smaller
   * in magnitude than the divisor and of the dividend's sign.
   */
  lemma {:induction false} DivRem(a: Word, b: Word)
    requires !Undefined(Div, a, b)
    ensures Execute(Div, a, b).Ok? && Execute(Rem, a, b).Ok?
    ensures var q, r := Execute(Div, a, b).value, Execute(Rem, a, b).value;
      && Signed(b) * Signed(q) + Signed(r) == Signed(a)
      && Abs(Signed(r)) < Abs(Signed(b))
      && (Signed(r) == 0 || (Signed(r) < 0) == (Signed(a) < 0))
  {
    var x, y := Signed(a), Signed(b);
    QuotRemainder(x, y);
    QuotBound(x, y);
    var q := Quot(x, y);
    assert -Two63 <= q < Two63;
    WrapSigned(q);
    WrapSigned(Remainder(x, y));
  }

  /** `DIVU` and `REMU` on a nonzero divisor: Euclidean division of the unsigned readings. */
  lemma DivuRemu(a: Word, b: Word)
    requires b != 0
    ensures var q, r := Execute(Divu, a, b).value, Execute(Remu, a, b).value;
      b * q + r == a && r < b
  {
  }

  /** `MULHU` and `MUL` together give the full 128-bit product. */
  lemma {:induction false} MulHighLow(a: Word, b: Word)
    ensures Execute(Mulhu, a, b).value * Two64 + Execute(Mul, a, b).value == a * b
  {
    ProductBound(a, b);
  }

  /**
   * Where `MULH` is defined it agrees with `MULHU`, and `MULHSU` always
   * does: none of the three reads its operands as signed.
   */
  lemma MulHighForms(a: Word, b: Word)
    ensures Execute(Mulhsu, a, b) == Execute(Mulhu, a, b)
    ensures !Undefined(Mulh, a, b) ==> Execute(Mulh, a, b) == Execute(Mulhu, a, b)
  {
  }

  /**
   * Arithmetic and logical right shifts agree on values whose sign bit is
   * clear; on values whose sign bit is set the arithmetic shift keeps the
   * value negative.
   */
  lemma ShiftRightForms(a: Word, k: Word)
    requires k < 64
    ensures a < Two63 ==> Execute(Sra, a, k) == Execute(Srl, a, k)
    ensures a >= Two63 ==> Execute(Sra, a, k).value >= Two63
  {
    ShiftsAgree(a, k);
  }

  /** `ShiftRightForms` on the two shift functions themselves. */
  lemma {:induction false} ShiftsAgree(a: Word, k: nat)
    ensures a < Two63 ==> ShiftRightArith(a, k) == ShiftRightLogical(a, k)
    ensures a >= Two63 ==> ShiftRightArith(a, k) >= Two63
  {
    var p := Pow2(k);
    if a >= Two63 {
      var s := Signed(a);
      assert -Two63 <= s / p < 0 by {
        FloorDivNegative(s, p);
      }
    } else {
      assert a / p <= a;
    }
  }

  lemma {:induction false} FloorDivNegative(s: int, p: nat)
    requires -Two63 <= s < 0 && p >= 1
    ensures -Two63 <= s / p < 0
  {
    var d := s / p;
    EuclidInt(s, p);
    MulMono(p, d, s - 1);
    MulMono(p, 0, d);
    MulAtLeast(-s, p);
  }

  lemma EuclidInt(a: int, b: nat)
    requires b > 0
    ensures b * (a / b) + a % b == a && 0 <= a % b < b
  {
  }

  /**
   * `SLT` and `SLTU` agree when both operands have the same sign bit, and
   * are swapped when the sign bits differ.
   */
  lemma SignedUnsignedLess(a: Word, b: Word)
    ensures (a < Two63) == (b < Two63) ==> Execute(Slt, a, b) == Execute(Sltu, a, b)
    ensures (a < Two63) != (b < Two63) ==> Execute(Slt, a, b) == Execute(Sltu, b, a)
  {
  }

  /**
   * `m.cond` of a branch: the comparison its `funct3` selects on `val1` and
   * `val2`; any other `funct3` leaves the zeroed condition false.
   */
  function BranchCond(funct3: bv8, v1: Word, v2: Word): bool {
    match funct3
    case 0 => v1 == v2
    case 1 => v1 != v2
    case 4 => Signed(v1) < Signed(v2)
    case 5 => Signed(v1) >= Signed(v2)
    case 6 => v1 < v2
    case 7 => v1 >= v2
    case _ => false
  }

  /**
   * The branch conditions come in complementary pairs (beq/bne, blt/bge,
   * bltu/bgeu), the signed pair ordering values as `Slt` does.
   */
  lemma BranchCondPairs(v1: Word, v2: Word)
    ensures BranchCond(1, v1, v2) == !BranchCond(0, v1, v2)
    ensures BranchCond(5, v1, v2) == !BranchCond(4, v1, v2)
    ensures BranchCond(7, v1, v2) == !BranchCond(6, v1, v2)
    ensures BranchCond(4, v1, v2) == (Execute(Slt, v1, v2).value == 1)
    ensures BranchCond(6, v1, v2) == (Execute(Sltu, v1, v2).value == 1)
  {
  }
}
