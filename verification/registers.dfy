/**
 * Pipeline-register records, opcode constants and the ALU operation tags
 * (src/register_def.hpp), and the per-tick commit rule `_update`
 * (src/register_def.cpp).
 */
module Registers {

  const Two63: int := 0x8000_0000_0000_0000
  const Two64: int := 0x1_0000_0000_0000_0000

  /**
   * A register value, program counter or address (`reg_t`, an unsigned
   * 64-bit integer in src/types.hpp), read as an integer in [0, 2^64).
   */
  type Word = x: int | 0 <= x < Two64

  /** `(int64_t)x`: the two's-complement reading of a word. */
  function Signed(x: Word): (i: int)
    ensures -Two63 <= i < Two63
    ensures (i < 0) == (x >= Two63)
  {
    if x < Two63 then x else x - Two64
  }

  /** Narrowing an integer to `reg_t`: its residue modulo 2^64. */
  function Wrap(i: int): Word {
    i % Two64
  }

  /** Wrapping leaves a word as it is. */
  lemma WrapId(x: int)
    requires 0 <= x < Two64
    ensures Wrap(x) == x
  {
  }

  /** A value in the signed 64-bit range survives narrowing and the signed reading. */
  lemma WrapSigned(i: int)
    requires -Two63 <= i < Two63
    ensures Signed(Wrap(i)) == i
  {
  }

  /** 2^k. */
  function Pow2(k: nat): (p: nat)
    ensures p >= 1
  {
    if k == 0 then 1 else 2 * Pow2(k - 1)
  }

  /** Every 64-bit pattern reads as a word. */
  lemma PatternRange(v: bv64)
    ensures 0 <= v as int < Two64
  {
  }

  /** 2^(j+k) = 2^j * 2^k. */
  lemma {:induction false} Pow2Add(j: nat, k: nat)
    ensures Pow2(j + k) == Pow2(j) * Pow2(k)
  {
    if j > 0 {
      Pow2Add(j - 1, k);
    }
  }

  lemma Pow2Byte()
    ensures Pow2(8) == 256
  {
  }

  /** 2^31, 2^32 and 2^64. */
  lemma Pow2Wide()
    ensures Pow2(31) == 0x8000_0000 && Pow2(32) == 0x1_0000_0000 && Pow2(64) == Two64
  {
    assert Pow2(16) == 0x1_0000 by {
      Pow2Add(8, 8);
      Pow2Byte();
    }
    assert Pow2(32) == 0x1_0000_0000 by {
      Pow2Add(16, 16);
    }
    assert Pow2(32) == 2 * Pow2(31);
    assert Pow2(64) == Two64 by {
      Pow2Add(32, 32);
    }
  }

  /** Powers of two up to 2^64 are at most 2^64. */
  lemma Pow2AtMostTwo64(k: nat)
    requires k <= 64
    ensures Pow2(k) <= Two64
  {
    Pow2Add(k, 64 - k);
    Pow2Wide();
    MulMono(Pow2(k), 1, Pow2(64 - k));
  }

  lemma EuclidNat(a: nat, b: nat)
    requires b > 0
    ensures b * (a / b) + a % b == a && 0 <= a % b < b
  {
  }

  /** Quotient and remainder are the unique such pair. */
  lemma DivModUnique(x: int, d: int, q: int, r: int)
    requires d > 0 && x == d * q + r && 0 <= r < d
    ensures x / d == q && x % d == r
  {
    var k := q - x / d;
    assert d * k == d * q - d * (x / d);
    MulMono(d, 1, k);
    MulMono(d, k, -1);
  }

  lemma MulMono(p: nat, u: int, v: int)
    ensures u <= v ==> p * u <= p * v
  {
  }

  /** A register number x0..x31: every decoded register field is five bits wide. */
  type RegIndex = bv5

  const REG_RA: RegIndex := 1
  const REG_SP: RegIndex := 2
  const REG_A0: RegIndex := 10
  const REG_A1: RegIndex := 11
  const REG_A7: RegIndex := 17

  // The seven-bit major opcodes the simulator distinguishes.
  const OP_RR: bv8 := 0x33
  const OP_RRW: bv8 := 0x3b
  const OP_LOAD: bv8 := 0x03
  const OP_RI: bv8 := 0x13
  const OP_RIW: bv8 := 0x1b
  const OP_JALR: bv8 := 0x67
  const OP_ECALL: bv8 := 0x73
  const OP_STORE: bv8 := 0x23
  const OP_BRANCH: bv8 := 0x63
  const OP_AUIPC: bv8 := 0x17
  const OP_LUI: bv8 := 0x37
  const OP_JAL: bv8 := 0x6f

  /** `enum ALU_OP`; `Add` is the enumerator with value 0, the zero record's tag. */
  datatype AluOp =
    | Add | Sub | Mul | Mulh | Mulhsu | Mulhu | Div | Divu | Rem | Remu
    | Sll | Sra | Srl | Xor | Or | And | Slt | Sltu

  /** Payload of the fetch register `F`/`f`. */
  datatype IFFields = IFFields(predPC: Word)

  /** Payload of the decode register `D`/`d`. */
  datatype IDFields = IDFields(inst: bv32, pc: Word)

  /** The fields of the execute register that the decoder writes. */
  datatype Decoded = Decoded(
    compressed: bool,
    opcode: bv8,
    funct3: bv8,
    rs1: RegIndex,
    rs2: RegIndex,
    rd: RegIndex,
    aluOp: AluOp,
    imm: bv64)

  /**
   * Payload of the execute register `E`/`e`: one decoded instruction, its
   * operand values and its address.
   */
  datatype EXFields = EXFields(d: Decoded, val1: Word, val2: Word, pc: Word)

  /** Payload of the memory register `M`/`m`. */
  datatype MEMFields = MEMFields(
    opcode: bv8,
    funct3: bv8,
    rd: RegIndex,
    cond: bool,
    valE: Word,
    val2: Word,
    pc: Word)

  /** Payload of the write-back register `W`/`w`. */
  datatype WBFields = WBFields(opcode: bv8, rd: RegIndex, val: Word)

  // The value-initialised records (`T r = {}`): every field zero or false.
  const IFZero := IFFields(0)
  const IDZero := IDFields(0, 0)
  const DecodedZero := Decoded(false, 0, 0, 0, 0, 0, Add, 0)
  const EXZero := EXFields(DecodedZero, 0, 0, 0)
  const MEMZero := MEMFields(0, 0, 0, false, 0, 0, 0)
  const WBZero := WBFields(0, 0, 0)

  /**
   * A pipeline register: the `stall` and `bubble` bits every register kind
   * shares (`PipeReg`) around the kind's own payload.
   */
  datatype Latch<T> = Latch(stall: bool, bubble: bool, body: T)

  type IFReg = Latch<IFFields>
  type IDReg = Latch<IDFields>
  type EXReg = Latch<EXFields>
  type MEMReg = Latch<MEMFields>
  type WBReg = Latch<WBFields>

  /** A register with no control bits set around `body` (a freshly written next-state value). */
  function Plain<T>(body: T): Latch<T> {
    Latch(false, false, body)
  }

  /** The bubble record: the zero payload with only `bubble` set. */
  function Bubble<T>(zero: T): Latch<T> {
    Latch(false, true, zero)
  }

  /**
   * `_update(R, r)`: the value register `R` holds after the tick, given the
   * next-state value `r` and the zero payload of its kind. A stalled register
   * keeps everything, stall bit included; otherwise a register marked as a
   * bubble becomes the bubble record; otherwise it takes `r`.
   */
  function Update<T>(R: Latch<T>, r: Latch<T>, zero: T): Latch<T> {
    if R.stall then R
    else if R.bubble then Bubble(zero)
    else r
  }

  /**
   * Exactly one of hold, bubble and advance applies, and stall takes
   * precedence over bubble.
   */
  lemma UpdateExactlyOne<T>(R: Latch<T>, r: Latch<T>, zero: T)
    ensures var n := Update(R, r, zero);
      && (R.stall ==> n == R)
      && (!R.stall && R.bubble ==> n == Bubble(zero) && !n.stall)
      && (!R.stall && !R.bubble ==> n == r)
  {
  }
}
