/**
 * The instruction decoder (src/decode_helpers.cpp): a raw word becomes the
 * fields of an execute-stage record.
 *
 * The source fills the caller's record field by field and leaves the fields
 * an instruction does not use as they were; `ParseInst` therefore takes the
 * prior record and returns the updated one. The pipeline always passes the
 * zero record, so for instance `aluOp` stays `Add` unless an instruction
 * writes it.
 */
module Decoder {
  import opened Bits
  import opened Registers
  import opened Outcomes

  /** `getbits`: `count` bits of `inst` starting at bit `start`, shifted left by `shamt`. */
  function GetBits(inst: bv32, start: bv32, count: bv32, shamt: bv32 := 0): (r: bv32)
    requires start < 32 && 1 <= count <= 20 && shamt < 32
  {
    ((inst >> start) & ((1 << count) - 1)) << shamt
  }

  /** A compressed "primed" register field: `8 | getbits(inst, start, 3)`, always x8..x15. */
  function Prime(inst: bv32, start: bv32): (r: RegIndex)
    requires start <= 13
    ensures 8 <= r <= 15
  {
    (8 | GetBits(inst, start, 3)) as RegIndex
  }

  /** A full five-bit register field. */
  function RegField(inst: bv32, start: bv32): RegIndex
    requires start <= 27
  {
    GetBits(inst, start, 5) as RegIndex
  }

  /** `R_alu_op_map`: (funct3, funct7) of OP / OP-32 to the ALU operation; `None` where `at` throws. */
  function RAluOp(funct3: bv8, funct7: bv8): Option<AluOp> {
    if funct7 == 0x00 then
      match funct3
      case 0 => Some(Add)  case 1 => Some(Sll)  case 2 => Some(Slt)  case 3 => Some(Sltu)
      case 4 => Some(Xor)  case 5 => Some(Srl)  case 6 => Some(Or)   case 7 => Some(And)
      case _ => None
    else if funct7 == 0x01 then
      match funct3
      case 0 => Some(Mul)  case 1 => Some(Mulh) case 2 => Some(Mulhsu) case 3 => Some(Mulhu)
      case 4 => Some(Div)  case 5 => Some(Divu) case 6 => Some(Rem)    case 7 => Some(Remu)
      case _ => None
    else if funct7 == 0x20 && funct3 == 0 then Some(Sub)
    else if funct7 == 0x20 && funct3 == 5 then Some(Sra)
    else None
  }

  /** `I_alu_op_map`: (funct3, funct7 shifted right once) of OP-IMM / OP-IMM-32. */
  function IAluOp(funct3: bv8, funct7: bv8): Option<AluOp> {
    if funct7 == 0x00 then
      match funct3
      case 0 => Some(Add)  case 1 => Some(Sll)  case 2 => Some(Slt)  case 3 => Some(Sltu)
      case 4 => Some(Xor)  case 5 => Some(Srl)  case 6 => Some(Or)   case 7 => Some(And)
      case _ => None
    else if funct7 == 0x10 && funct3 == 5 then Some(Sra)
    else None
  }

  /** `C_R_op_map`: key `funct2 << 2 | inst[12]` of the compressed arithmetic forms. */
  function CROp(key: bv8): Option<(bv8, AluOp)> {
    match key
    case 0x0 => Some((OP_RR, Sub))
    case 0x4 => Some((OP_RR, Xor))
    case 0x8 => Some((OP_RR, Or))
    case 0xC => Some((OP_RR, And))
    case 0x1 => Some((OP_RRW, Sub))
    case 0x5 => Some((OP_RRW, Add))
    case _ => None
  }

  /** `parse_16b_inst`: the "C" extension forms the simulator accepts. */
  function Parse16(inst: bv32, e: Decoded): Option<Decoded> {
    var opcode := GetBits(inst, 0, 2);
    var funct3 := GetBits(inst, 13, 3);
    if opcode == 0 then
      if funct3 == 0 then
        // c.addi4spn => addi rd', x2, nzuimm[9:2]
        Some(e.(opcode := OP_RI, rd := Prime(inst, 2), rs1 := REG_SP,
              imm := (GetBits(inst, 5, 1, 3) | GetBits(inst, 6, 1, 2) |
                      GetBits(inst, 7, 4, 6) | GetBits(inst, 11, 2, 4)) as bv64))
      else if funct3 == 2 then
        // c.lw => lw rd', offset[6:2](rs1')
        Some(e.(opcode := OP_LOAD, funct3 := 2, rd := Prime(inst, 2), rs1 := Prime(inst, 7),
              imm := (GetBits(inst, 5, 1, 6) | GetBits(inst, 6, 1, 2) |
                      GetBits(inst, 10, 3, 3)) as bv64))
      else if funct3 == 3 then
        // c.ld => ld rd', offset[7:3](rs1')
        Some(e.(opcode := OP_LOAD, funct3 := 3, rd := Prime(inst, 2), rs1 := Prime(inst, 7),
              imm := (GetBits(inst, 5, 2, 6) | GetBits(inst, 10, 3, 3)) as bv64))
      else if funct3 == 6 then
        // c.sw => sw rs2', offset[6:2](rs1')
        Some(e.(opcode := OP_STORE, funct3 := 2, rs2 := Prime(inst, 2), rs1 := Prime(inst, 7),
              imm := (GetBits(inst, 5, 1, 6) | GetBits(inst, 6, 1, 2) |
                      GetBits(inst, 10, 3, 3)) as bv64))
      else if funct3 == 7 then
        // c.sd => sd rs2', offset[7:3](rs1')
        Some(e.(opcode := OP_STORE, funct3 := 3, rs2 := Prime(inst, 2), rs1 := Prime(inst, 7),
              imm := (GetBits(inst, 5, 2, 6) | GetBits(inst, 10, 3, 3)) as bv64))
      else
        None
    else if opcode == 1 then
      var imm6 := (GetBits(inst, 2, 5, 0) | GetBits(inst, 12, 1, 5)) as bv64;
      if funct3 == 0 then
        // c.addi => addi rd, rd, nzimm[5:0]
        Some(e.(opcode := OP_RI, imm := SignExtend(imm6, 6),
              rd := RegField(inst, 7), rs1 := RegField(inst, 7)))
      else if funct3 == 1 then
        // c.addiw => addiw rd, rd, imm[5:0]
        Some(e.(opcode := OP_RIW, imm := SignExtend(imm6, 6),
              rd := RegField(inst, 7), rs1 := RegField(inst, 7)))
      else if funct3 == 2 then
        // c.li => addi rd, x0, imm[5:0]
        Some(e.(opcode := OP_RI, imm := SignExtend(imm6, 6), rd := RegField(inst, 7)))
      else if funct3 == 3 then
        if RegField(inst, 7) == 2 then
          // c.addi16sp => addi x2, x2, nzimm[9:4]
          var imm := (GetBits(inst, 2, 1, 5) | GetBits(inst, 3, 2, 7) |
                      GetBits(inst, 5, 1, 6) | GetBits(inst, 6, 1, 4) |
                      GetBits(inst, 12, 1, 9)) as bv64;
          Some(e.(rd := 2, opcode := OP_RI, rs1 := REG_SP, imm := SignExtend(imm, 10)))
        else
          // c.lui => lui rd, nzimm[17:12]
          var imm := (GetBits(inst, 2, 5, 12) | GetBits(inst, 12, 1, 17)) as bv64;
          Some(e.(rd := RegField(inst, 7), opcode := OP_LUI, imm := SignExtend(imm, 18)))
      else if funct3 == 4 then
        var funct2 := GetBits(inst, 10, 2);
        if funct2 == 0 then
          // c.srli => srli rd', rd', shamt[5:0]
          Some(e.(opcode := OP_RI, funct3 := 5, rd := Prime(inst, 7), rs1 := Prime(inst, 7),
                imm := imm6, aluOp := Srl))
        else if funct2 == 1 then
          // c.srai => srai rd', rd', shamt[5:0]
          Some(e.(opcode := OP_RI, funct3 := 5, rd := Prime(inst, 7), rs1 := Prime(inst, 7),
                imm := imm6, aluOp := Sra))
        else if funct2 == 2 then
          // c.andi => andi rd', rd', imm[5:0]
          Some(e.(opcode := OP_RI, funct3 := 7, rd := Prime(inst, 7), rs1 := Prime(inst, 7),
                imm := SignExtend(imm6, 6), aluOp := And))
        else
          // c.sub, c.xor, c.or, c.and, c.subw, c.addw; funct3 is left as it was
          var key := ((GetBits(inst, 5, 2) << 2) | GetBits(inst, 12, 1)) as bv8;
          match CROp(key)
          case Some((opcode, op)) =>
            Some(e.(rd := Prime(inst, 7), rs1 := Prime(inst, 7), rs2 := Prime(inst, 2),
                  opcode := opcode, aluOp := op))
          case None => None
      else if funct3 == 5 then
        // c.j => jal x0, offset[11:1]
        var imm := (GetBits(inst, 2, 1, 5) | GetBits(inst, 3, 3, 1) |
                    GetBits(inst, 6, 1, 7) | GetBits(inst, 7, 1, 6) |
                    GetBits(inst, 8, 1, 10) | GetBits(inst, 9, 2, 8) |
                    GetBits(inst, 11, 1, 4) | GetBits(inst, 12, 1, 11)) as bv64;
        Some(e.(opcode := OP_JAL, imm := SignExtend(imm, 12)))
      else
        // c.beqz / c.bnez => beq / bne rs1', x0, offset[8:1]
        var imm := (GetBits(inst, 2, 1, 5) | GetBits(inst, 3, 2, 1) |
                    GetBits(inst, 5, 2, 6) | GetBits(inst, 10, 2, 3) |
                    GetBits(inst, 12, 1, 8)) as bv64;
        Some(e.(opcode := OP_BRANCH, funct3 := if funct3 == 6 then 0 else 1,
              rs1 := Prime(inst, 7), imm := SignExtend(imm, 9)))
    else if opcode == 2 then
      if funct3 == 0 then
        // c.slli => slli rd, rd, shamt[5:0]
        Some(e.(opcode := OP_RI, funct3 := 1, aluOp := Sll,
              rd := RegField(inst, 7), rs1 := RegField(inst, 7),
              imm := (GetBits(inst, 12, 1, 5) | GetBits(inst, 2, 5)) as bv64))
      else if funct3 == 2 then
        // c.lwsp => lw rd, offset[7:2](x2)
        Some(e.(opcode := OP_LOAD, funct3 := 2,
              imm := (GetBits(inst, 12, 1, 5) | GetBits(inst, 2, 2, 6) |
                      GetBits(inst, 4, 3, 2)) as bv64,
              rd := RegField(inst, 7), rs1 := REG_SP))
      else if funct3 == 3 then
        // c.ldsp => ld rd, offset[8:3](x2)
        Some(e.(opcode := OP_LOAD, funct3 := 3,
              imm := (GetBits(inst, 12, 1, 5) | GetBits(inst, 2, 3, 6) |
                      GetBits(inst, 5, 2, 3)) as bv64,
              rd := RegField(inst, 7), rs1 := REG_SP))
      else if funct3 == 4 then
        // c.jr, c.mv, c.ebreak, c.jalr, c.add
        var rs1 := RegField(inst, 7);
        var rs2 := RegField(inst, 2);
        var e1 := e.(rs1 := rs1, rs2 := rs2);
        if GetBits(inst, 12, 1) == 0 then
          if rs2 == 0 then
            Some(e1.(opcode := OP_JALR))                        // c.jr => jalr x0, rs1, 0
          else
            Some(e1.(opcode := OP_RR, rd := rs1, rs1 := e.rd))  // c.mv: swap(rd, rs1)
        else
          if rs1 == 0 && rs2 == 0 then
            Some(e1)                                            // c.ebreak: nothing more
          else if rs2 == 0 then
            Some(e1.(opcode := OP_JALR, rd := REG_RA))          // c.jalr => jalr x1, rs1, 0
          else
            Some(e1.(opcode := OP_RR, rd := rs1))               // c.add => add rd, rd, rs2
      else if funct3 == 6 then
        // c.swsp => sw rs2, offset[7:2](x2)
        Some(e.(opcode := OP_STORE, funct3 := 2,
              imm := (GetBits(inst, 7, 2, 6) | GetBits(inst, 9, 4, 2)) as bv64,
              rs1 := REG_SP, rs2 := RegField(inst, 2)))
      else if funct3 == 7 then
        // c.sdsp => sd rs2, offset[8:3](x2)
        Some(e.(opcode := OP_STORE, funct3 := 3,
              imm := (GetBits(inst, 7, 3, 6) | GetBits(inst, 10, 3, 3)) as bv64,
              rs1 := REG_SP, rs2 := RegField(inst, 2)))
      else
        None
    else
      // quadrant 3 is the 32-bit encoding and never reaches this parser
      Some(e)
  }

  /** `parse_R_Type`: rd, funct3, rs1, rs2, and funct7 for the caller. */
  function ParseR(inst: bv32, e: Decoded): (Decoded, bv8) {
    (e.(rd := RegField(inst, 7), funct3 := GetBits(inst, 12, 3) as bv8,
        rs1 := RegField(inst, 15), rs2 := RegField(inst, 20)),
     GetBits(inst, 25, 7) as bv8)
  }

  /** `parse_I_Type`: rd, funct3, rs1, the raw 12-bit immediate, and funct7. */
  function ParseI(inst: bv32, e: Decoded): (Decoded, bv8) {
    (e.(rd := RegField(inst, 7), funct3 := GetBits(inst, 12, 3) as bv8,
        rs1 := RegField(inst, 15), imm := GetBits(inst, 20, 12) as bv64),
     GetBits(inst, 25, 7) as bv8)
  }

  /** `parse_S_Type`: funct3, rs1, rs2 and the raw split 12-bit immediate. */
  function ParseS(inst: bv32, e: Decoded): Decoded {
    e.(funct3 := GetBits(inst, 12, 3) as bv8, rs1 := RegField(inst, 15),
       rs2 := RegField(inst, 20), imm := SImm(inst))
  }

  /** The raw store offset: inst[31:25] above inst[11:7]. */
  function SImm(inst: bv32): bv64 {
    (GetBits(inst, 25, 7, 5) | GetBits(inst, 7, 5)) as bv64
  }

  /** `parse_SB_Type`: funct3, rs1, rs2 and the raw 13-bit branch offset. */
  function ParseSB(inst: bv32, e: Decoded): Decoded {
    e.(funct3 := GetBits(inst, 12, 3) as bv8, rs1 := RegField(inst, 15),
       rs2 := RegField(inst, 20), imm := SBImm(inst))
  }

  /** The raw branch offset: inst[31] at bit 12, inst[7] at bit 11, inst[30:25], inst[11:8]. */
  function SBImm(inst: bv32): bv64 {
    (GetBits(inst, 31, 1, 12) | GetBits(inst, 25, 6, 5) |
     GetBits(inst, 8, 4, 1) | GetBits(inst, 7, 1, 11)) as bv64
  }

  /** `parse_U_Type`: rd and the raw upper immediate. */
  function ParseU(inst: bv32, e: Decoded): Decoded {
    e.(rd := RegField(inst, 7), imm := UImm(inst))
  }

  /** The raw upper immediate: inst[31:12] in place. */
  function UImm(inst: bv32): bv64 {
    GetBits(inst, 12, 20, 12) as bv64
  }

  /** `parse_UJ_Type`: rd and the raw 21-bit jump offset. */
  function ParseUJ(inst: bv32, e: Decoded): Decoded {
    e.(rd := RegField(inst, 7), imm := UJImm(inst))
  }

  /** The raw jump offset: inst[31] at bit 20, inst[19:12], inst[20] at bit 11, inst[30:21]. */
  function UJImm(inst: bv32): bv64 {
    (GetBits(inst, 31, 1, 20) | GetBits(inst, 21, 10, 1) |
     GetBits(inst, 20, 1, 11) | GetBits(inst, 12, 8, 12)) as bv64
  }

  /** The OP-IMM / OP-IMM-32 tail: shift forms keep a masked shamt, the rest sign-extend. */
  function ImmAlu(inst: bv32, e: Decoded, shamtMask: bv64): Option<Decoded> {
    var (e1, funct7) := ParseI(inst, e);
    var shift := e1.funct3 == 1 || e1.funct3 == 5;
    var f7 := if shift then funct7 >> 1 else 0;
    var e2 := if shift then e1.(imm := e1.imm & shamtMask) else e1.(imm := SignExtend(e1.imm, 12));
    match IAluOp(e2.funct3, f7)
    case Some(op) => Some(e2.(aluOp := op))
    case None => None
  }

  /** `parse_32b_inst`: the RV64IM base encodings. */
  function Parse32(inst: bv32, e: Decoded): Option<Decoded> {
    var opcode := GetBits(inst, 0, 7) as bv8;
    var e0 := e.(opcode := opcode);
    if opcode == OP_RR || opcode == OP_RRW then
      var (e1, funct7) := ParseR(inst, e0);
      match RAluOp(e1.funct3, funct7)
      case Some(op) => Some(e1.(aluOp := op))
      case None => None
    else if opcode == OP_LOAD || opcode == OP_JALR then
      var e1 := ParseI(inst, e0).0;
      Some(e1.(imm := SignExtend(e1.imm, 12)))
    else if opcode == OP_RI then
      ImmAlu(inst, e0, 0x3F)
    else if opcode == OP_RIW then
      ImmAlu(inst, e0, 0x1F)
    else if opcode == OP_ECALL then
      Some(e0)
    else if opcode == OP_STORE then
      var e1 := ParseS(inst, e0);
      Some(e1.(imm := SignExtend(e1.imm, 12)))
    else if opcode == OP_BRANCH then
      var e1 := ParseSB(inst, e0);
      Some(e1.(imm := SignExtend(e1.imm, 12)))
    else if opcode == OP_AUIPC || opcode == OP_LUI then
      var e1 := ParseU(inst, e0);
      Some(e1.(imm := SignExtend(e1.imm, 32)))
    else if opcode == OP_JAL then
      var e1 := ParseUJ(inst, e0);
      Some(e1.(imm := SignExtend(e1.imm, 21)))
    else
      None
  }

  /**
   * `parse_inst`: a word whose low two bits are not `11` is a compressed
   * instruction, anything else takes the 32-bit path. Neither parser writes
   * the `compressed` flag, so setting it after parsing is the same as the
   * source's setting it before. A rejected word raises a decode error.
   */
  function ParseInst(inst: bv32, e: Decoded): Result<Decoded> {
    var compressed := inst & 3 != 3;
    match if compressed then Parse16(inst, e) else Parse32(inst, e)
    case Some(d) => Ok(d.(compressed := compressed))
    case None => Err(DecodeError(inst))
  }

  /** A word whose low two bits are `11` is decoded by the 32-bit parser alone. */
  lemma ParseInst32(inst: bv32, e: Decoded)
    requires inst & 3 == 3
    ensures ParseInst(inst, e) ==
      match Parse32(inst, e)
      case Some(d) => Ok(d.(compressed := false))
      case None => Err(DecodeError(inst))
  {
  }

  /** Any other word is decoded by the compressed parser alone. */
  lemma ParseInst16(inst: bv32, e: Decoded)
    requires inst & 3 != 3
    ensures ParseInst(inst, e) ==
      match Parse16(inst, e)
      case Some(d) => Ok(d.(compressed := true))
      case None => Err(DecodeError(inst))
  {
  }

  /**
   * `parse_16b_inst` reads no bit above 15: a compressed instruction fetched
   * as the low half of a 32-bit word decodes the same whatever the upper
   * half (the next instruction) holds, so the lemmas stated on words with a
   * zero upper half cover every fetched word.
   */
  lemma CompressedIgnoresUpperHalf(inst: bv32, e: Decoded)
    requires inst & 3 != 3
    ensures (inst & 0xFFFF) & 3 != 3
    ensures Parse16(inst, e) == Parse16(inst & 0xFFFF, e)
    ensures ParseInst(inst, e).Ok? <==> ParseInst(inst & 0xFFFF, e).Ok?
    ensures ParseInst(inst, e).Ok? ==> ParseInst(inst, e) == ParseInst(inst & 0xFFFF, e)
  {
    var low := inst & 0xFFFF;
    assert low & 3 == inst & 3;
    var q := GetBits(inst, 0, 2);
    var f := GetBits(inst, 13, 3);
    if q == 0 {
      UpperHalfQuadrant0(inst, e);
    } else if q == 1 && f < 2 {
      UpperHalfQuadrant1AddImmediate(inst, e);
    } else if q == 1 && f < 4 {
      UpperHalfQuadrant1LoadImmediate(inst, e);
    } else if q == 1 && f == 4 {
      UpperHalfQuadrant1Alu(inst, e);
    } else if q == 1 && f == 5 {
      UpperHalfQuadrant1Jump(inst, e);
    } else if q == 1 {
      UpperHalfQuadrant1Branch(inst, e);
    } else if f < 4 {
      UpperHalfQuadrant2Low(inst, e);
    } else {
      UpperHalfQuadrant2High(inst, e);
    }
  }

  /** The low-half property on quadrant 0. */
  lemma UpperHalfQuadrant0(inst: bv32, e: Decoded)
    requires GetBits(inst, 0, 2) == 0
    ensures Parse16(inst, e) == Parse16(inst & 0xFFFF, e)
  {
    UpperHalfFields(inst);
    UpperHalfRegisters(inst);
  }

  /** The low-half property on `c.addi` and `c.addiw` (quadrant 1, funct3 0 and 1). */
  lemma UpperHalfQuadrant1AddImmediate(inst: bv32, e: Decoded)
    requires GetBits(inst, 0, 2) == 1 && GetBits(inst, 13, 3) < 2
    ensures Parse16(inst, e) == Parse16(inst & 0xFFFF, e)
  {
    UpperHalfFields(inst);
    UpperHalfRegisters(inst);
  }

  /** The low-half property on `c.li`, `c.addi16sp` and `c.lui` (quadrant 1, funct3 2 and 3). */
  lemma UpperHalfQuadrant1LoadImmediate(inst: bv32, e: Decoded)
    requires GetBits(inst, 0, 2) == 1 && 2 <= GetBits(inst, 13, 3) < 4
    ensures Parse16(inst, e) == Parse16(inst & 0xFFFF, e)
  {
    UpperHalfFields(inst);
    UpperHalfRegisters(inst);
  }

  /** The low-half property on the arithmetic group of quadrant 1 (funct3 4). */
  lemma UpperHalfQuadrant1Alu(inst: bv32, e: Decoded)
    requires GetBits(inst, 0, 2) == 1 && GetBits(inst, 13, 3) == 4
    ensures Parse16(inst, e) == Parse16(inst & 0xFFFF, e)
  {
    UpperHalfFields(inst);
    UpperHalfRegisters(inst);
  }

  /** The low-half property on `c.j` (quadrant 1, funct3 5). */
  lemma UpperHalfQuadrant1Jump(inst: bv32, e: Decoded)
    requires GetBits(inst, 0, 2) == 1 && GetBits(inst, 13, 3) == 5
    ensures Parse16(inst, e) == Parse16(inst & 0xFFFF, e)
  {
    UpperHalfFields(inst);
    UpperHalfRegisters(inst);
  }

  /** The low-half property on `c.beqz` and `c.bnez` (quadrant 1, funct3 6 and 7). */
  lemma UpperHalfQuadrant1Branch(inst: bv32, e: Decoded)
    requires GetBits(inst, 0, 2) == 1 && GetBits(inst, 13, 3) > 5
    ensures Parse16(inst, e) == Parse16(inst & 0xFFFF, e)
  {
    UpperHalfFields(inst);
    UpperHalfRegisters(inst);
  }

  /** The low-half property on quadrant 2 below funct3 4. */
  lemma UpperHalfQuadrant2Low(inst: bv32, e: Decoded)
    requires GetBits(inst, 0, 2) == 2 && GetBits(inst, 13, 3) < 4
    ensures Parse16(inst, e) == Parse16(inst & 0xFFFF, e)
  {
    UpperHalfFields(inst);
    UpperHalfRegisters(inst);
  }

  /** The low-half property on quadrant 2 from funct3 4. */
  lemma UpperHalfQuadrant2High(inst: bv32, e: Decoded)
    requires GetBits(inst, 0, 2) == 2 && GetBits(inst, 13, 3) >= 4
    ensures Parse16(inst, e) == Parse16(inst & 0xFFFF, e)
  {
    UpperHalfFields(inst);
    UpperHalfRegisters(inst);
  }

  /** Every field `parse_16b_inst` reads lies in the low half of the word. */
  lemma UpperHalfFields(inst: bv32)
    ensures GetBits(inst & 0xFFFF, 0, 2) == GetBits(inst, 0, 2)
    ensures GetBits(inst & 0xFFFF, 2, 1, 5) == GetBits(inst, 2, 1, 5)
    ensures GetBits(inst & 0xFFFF, 2, 2, 6) == GetBits(inst, 2, 2, 6)
    ensures GetBits(inst & 0xFFFF, 2, 3, 6) == GetBits(inst, 2, 3, 6)
    ensures GetBits(inst & 0xFFFF, 2, 5, 0) == GetBits(inst, 2, 5, 0)
    ensures GetBits(inst & 0xFFFF, 2, 5) == GetBits(inst, 2, 5)
    ensures GetBits(inst & 0xFFFF, 2, 5, 12) == GetBits(inst, 2, 5, 12)
    ensures GetBits(inst & 0xFFFF, 3, 2, 1) == GetBits(inst, 3, 2, 1)
    ensures GetBits(inst & 0xFFFF, 3, 2, 7) == GetBits(inst, 3, 2, 7)
    ensures GetBits(inst & 0xFFFF, 3, 3, 1) == GetBits(inst, 3, 3, 1)
    ensures GetBits(inst & 0xFFFF, 4, 3, 2) == GetBits(inst, 4, 3, 2)
    ensures GetBits(inst & 0xFFFF, 5, 1, 3) == GetBits(inst, 5, 1, 3)
    ensures GetBits(inst & 0xFFFF, 5, 1, 6) == GetBits(inst, 5, 1, 6)
    ensures GetBits(inst & 0xFFFF, 5, 2) == GetBits(inst, 5, 2)
    ensures GetBits(inst & 0xFFFF, 5, 2, 3) == GetBits(inst, 5, 2, 3)
    ensures GetBits(inst & 0xFFFF, 5, 2, 6) == GetBits(inst, 5, 2, 6)
    ensures GetBits(inst & 0xFFFF, 6, 1, 2) == GetBits(inst, 6, 1, 2)
    ensures GetBits(inst & 0xFFFF, 6, 1, 4) == GetBits(inst, 6, 1, 4)
    ensures GetBits(inst & 0xFFFF, 6, 1, 7) == GetBits(inst, 6, 1, 7)
    ensures GetBits(inst & 0xFFFF, 7, 1, 6) == GetBits(inst, 7, 1, 6)
    ensures GetBits(inst & 0xFFFF, 7, 2, 6) == GetBits(inst, 7, 2, 6)
    ensures GetBits(inst & 0xFFFF, 7, 3, 6) == GetBits(inst, 7, 3, 6)
    ensures GetBits(inst & 0xFFFF, 7, 4, 6) == GetBits(inst, 7, 4, 6)
    ensures GetBits(inst & 0xFFFF, 8, 1, 10) == GetBits(inst, 8, 1, 10)
    ensures GetBits(inst & 0xFFFF, 9, 2, 8) == GetBits(inst, 9, 2, 8)
    ensures GetBits(inst & 0xFFFF, 9, 4, 2) == GetBits(inst, 9, 4, 2)
    ensures GetBits(inst & 0xFFFF, 10, 2) == GetBits(inst, 10, 2)
    ensures GetBits(inst & 0xFFFF, 10, 2, 3) == GetBits(inst, 10, 2, 3)
    ensures GetBits(inst & 0xFFFF, 10, 3, 3) == GetBits(inst, 10, 3, 3)
    ensures GetBits(inst & 0xFFFF, 11, 1, 4) == GetBits(inst, 11, 1, 4)
    ensures GetBits(inst & 0xFFFF, 11, 2, 4) == GetBits(inst, 11, 2, 4)
    ensures GetBits(inst & 0xFFFF, 12, 1) == GetBits(inst, 12, 1)
    ensures GetBits(inst & 0xFFFF, 12, 1, 5) == GetBits(inst, 12, 1, 5)
    ensures GetBits(inst & 0xFFFF, 12, 1, 8) == GetBits(inst, 12, 1, 8)
    ensures GetBits(inst & 0xFFFF, 12, 1, 9) == GetBits(inst, 12, 1, 9)
    ensures GetBits(inst & 0xFFFF, 12, 1, 11) == GetBits(inst, 12, 1, 11)
    ensures GetBits(inst & 0xFFFF, 12, 1, 17) == GetBits(inst, 12, 1, 17)
    ensures GetBits(inst & 0xFFFF, 13, 3) == GetBits(inst, 13, 3)
  {
  }

  /** The register fields of the compressed formats lie in the low half. */
  lemma UpperHalfRegisters(inst: bv32)
    ensures Prime(inst & 0xFFFF, 2) == Prime(inst, 2) && Prime(inst & 0xFFFF, 7) == Prime(inst, 7)
    ensures RegField(inst & 0xFFFF, 2) == RegField(inst, 2) && RegField(inst & 0xFFFF, 7) == RegField(inst, 7)
  {
    UpperHalfPrime(inst);
    UpperHalfRegField(inst);
  }

  lemma UpperHalfPrime(inst: bv32)
    ensures Prime(inst & 0xFFFF, 2) == Prime(inst, 2) && Prime(inst & 0xFFFF, 7) == Prime(inst, 7)
  {
    assert GetBits(inst & 0xFFFF, 2, 3) == GetBits(inst, 2, 3);
    assert GetBits(inst & 0xFFFF, 7, 3) == GetBits(inst, 7, 3);
  }

  lemma UpperHalfRegField(inst: bv32)
    ensures RegField(inst & 0xFFFF, 2) == RegField(inst, 2) && RegField(inst & 0xFFFF, 7) == RegField(inst, 7)
  {
    assert GetBits(inst & 0xFFFF, 2, 5) == GetBits(inst, 2, 5);
    assert GetBits(inst & 0xFFFF, 7, 5) == GetBits(inst, 7, 5);
  }

  /** The twelve major opcodes `parse_32b_inst` accepts. */
  const KnownOpcodes: set<bv8> :=
    {OP_RR, OP_RRW, OP_LOAD, OP_RI, OP_RIW, OP_JALR, OP_ECALL, OP_STORE, OP_BRANCH, OP_AUIPC, OP_LUI, OP_JAL}

  /**
   * `ecall` (opcode 0x73) writes the opcode and nothing else, so every other
   * field keeps its prior value.
   */
  lemma DecodeSystem(inst: bv32, e: Decoded)
    requires inst & 3 == 3
    requires GetBits(inst, 0, 7) as bv8 == OP_ECALL
    ensures ParseInst(inst, e) == Ok(e.(opcode := OP_ECALL, compressed := false))
  {
    ParseInst32(inst, e);
  }

  /** A 32-bit word whose opcode is none of the twelve the simulator knows is rejected. */
  lemma DecodeUnknown(inst: bv32, e: Decoded)
    requires inst & 3 == 3
    requires GetBits(inst, 0, 7) as bv8 !in KnownOpcodes
    ensures ParseInst(inst, e) == Err(DecodeError(inst))
  {
    var opcode := GetBits(inst, 0, 7) as bv8;
    assert opcode != OP_RR && opcode != OP_RRW && opcode != OP_LOAD && opcode != OP_JALR;
    assert opcode != OP_RI && opcode != OP_RIW && opcode != OP_ECALL && opcode != OP_STORE;
    assert opcode != OP_BRANCH && opcode != OP_AUIPC && opcode != OP_LUI && opcode != OP_JAL;
    assert Parse32(inst, e) == None;
    ParseInst32(inst, e);
  }

  // ---------------------------------------------------------------------
  // Reference encoders for the base formats of the RISC-V unprivileged ISA
  // (chapter 2 "RV32I Base Integer Instruction Set", section 2.3), and the
  // decoder checked against them.
  // ---------------------------------------------------------------------

  /** R-type: funct7 | rs2 | rs1 | funct3 | rd | opcode. */
  function EncodeR(opcode: bv7, funct3: bv3, funct7: bv7, rd: RegIndex, rs1: RegIndex, rs2: RegIndex): bv32 {
    ((funct7 as bv32) << 25) | ((rs2 as bv32) << 20) | ((rs1 as bv32) << 15) |
    ((funct3 as bv32) << 12) | ((rd as bv32) << 7) | opcode as bv32
  }

  /** The funct7 that selects `op` in the OP / OP-32 tables (the M extension uses 1). */
  function Funct7Of(op: AluOp): bv7 {
    match op
    case Sub | Sra => 0x20
    case Mul | Mulh | Mulhsu | Mulhu | Div | Divu | Rem | Remu => 0x01
    case _ => 0x00
  }

  lemma EncodeRFields(opcode: bv7, funct3: bv3, funct7: bv7, rd: RegIndex, rs1: RegIndex, rs2: RegIndex)
    ensures var inst := EncodeR(opcode, funct3, funct7, rd, rs1, rs2);
      && GetBits(inst, 0, 7) as bv8 == opcode as bv8 && inst & 3 == opcode as bv32 & 3
      && RegField(inst, 7) == rd && GetBits(inst, 12, 3) as bv8 == funct3 as bv8
      && RegField(inst, 15) == rs1 && RegField(inst, 20) == rs2
      && GetBits(inst, 25, 7) as bv8 == funct7 as bv8
  {
  }

  lemma RFieldsEncode(inst: bv32)
    ensures inst == EncodeR((GetBits(inst, 0, 7) as bv8) as bv7, (GetBits(inst, 12, 3) as bv8) as bv3,
                            (GetBits(inst, 25, 7) as bv8) as bv7, RegField(inst, 7),
                            RegField(inst, 15), RegField(inst, 20))
  {
  }

  lemma RTableFunct7(funct3: bv8, funct7: bv8)
    requires RAluOp(funct3, funct7).Some?
    ensures Funct7Of(RAluOp(funct3, funct7).value) as bv8 == funct7
    ensures Funct7Of(RAluOp(funct3, funct7).value) == funct7 as bv7
  {
  }

  /**
   * Decoding an R-type word yields its fields, and the operation the
   * (funct3, funct7) table names; a pair outside the table is rejected.
   */
  lemma DecodeEncodeR(opcode: bv7, funct3: bv3, funct7: bv7, rd: RegIndex, rs1: RegIndex, rs2: RegIndex)
    requires opcode as bv8 == OP_RR || opcode as bv8 == OP_RRW
    ensures var inst := EncodeR(opcode, funct3, funct7, rd, rs1, rs2);
      ParseInst(inst, DecodedZero) ==
        match RAluOp(funct3 as bv8, funct7 as bv8)
        case Some(op) => Ok(DecodedZero.(opcode := opcode as bv8, funct3 := funct3 as bv8, rd := rd,
                                         rs1 := rs1, rs2 := rs2, aluOp := op))
        case None => Err(DecodeError(inst))
  {
    var inst := EncodeR(opcode, funct3, funct7, rd, rs1, rs2);
    EncodeRFields(opcode, funct3, funct7, rd, rs1, rs2);
    var e0 := DecodedZero.(opcode := opcode as bv8);
    assert ParseR(inst, e0) ==
      (e0.(rd := rd, funct3 := funct3 as bv8, rs1 := rs1, rs2 := rs2), funct7 as bv8);
  }

  /** An OP / OP-32 word: rd, funct3, rs1 and rs2 sit at bits 7, 12, 15 and 20. */
  lemma DecodeR(inst: bv32)
    requires GetBits(inst, 0, 7) as bv8 in {OP_RR, OP_RRW}
    ensures ParseInst(inst, DecodedZero) ==
      match RAluOp(GetBits(inst, 12, 3) as bv8, GetBits(inst, 25, 7) as bv8)
      case Some(op) => Ok(DecodedZero.(opcode := GetBits(inst, 0, 7) as bv8,
                                       funct3 := GetBits(inst, 12, 3) as bv8, rd := RegField(inst, 7),
                                       rs1 := RegField(inst, 15), rs2 := RegField(inst, 20), aluOp := op))
      case None => Err(DecodeError(inst))
  {
    assert inst & 3 == 3;
  }

  /** Conversely, an accepted OP / OP-32 word is the encoding of what it decodes to. */
  lemma EncodeDecodeR(inst: bv32)
    requires GetBits(inst, 0, 7) as bv8 in {OP_RR, OP_RRW}
    requires ParseInst(inst, DecodedZero).Ok?
    ensures var d := ParseInst(inst, DecodedZero).value;
      inst == EncodeR(d.opcode as bv7, d.funct3 as bv3, Funct7Of(d.aluOp), d.rd, d.rs1, d.rs2)
  {
    DecodeR(inst);
    RTableFunct7(GetBits(inst, 12, 3) as bv8, GetBits(inst, 25, 7) as bv8);
    RFieldsEncode(inst);
  }

  /** I-type: imm[11:0] | rs1 | funct3 | rd | opcode. */
  function EncodeI(opcode: bv7, funct3: bv3, rd: RegIndex, rs1: RegIndex, imm: bv12): bv32 {
    ((imm as bv32) << 20) | ((rs1 as bv32) << 15) | ((funct3 as bv32) << 12) |
    ((rd as bv32) << 7) | opcode as bv32
  }

  lemma EncodeIFields(opcode: bv7, funct3: bv3, rd: RegIndex, rs1: RegIndex, imm: bv12)
    ensures var inst := EncodeI(opcode, funct3, rd, rs1, imm);
      && GetBits(inst, 0, 7) as bv8 == opcode as bv8 && inst & 3 == opcode as bv32 & 3
      && RegField(inst, 7) == rd && GetBits(inst, 12, 3) as bv8 == funct3 as bv8
      && RegField(inst, 15) == rs1 && GetBits(inst, 20, 12) as bv64 == imm as bv64
      && GetBits(inst, 25, 7) as bv8 == (imm >> 5) as bv8
  {
    EncodeILow(opcode, funct3, rd, rs1, imm);
    EncodeIHigh(opcode, funct3, rd, rs1, imm);
  }

  lemma EncodeILow(opcode: bv7, funct3: bv3, rd: RegIndex, rs1: RegIndex, imm: bv12)
    ensures var inst := EncodeI(opcode, funct3, rd, rs1, imm);
      && GetBits(inst, 0, 7) as bv8 == opcode as bv8 && inst & 3 == opcode as bv32 & 3
      && RegField(inst, 7) == rd && GetBits(inst, 12, 3) as bv8 == funct3 as bv8
  {
  }

  lemma EncodeIHigh(opcode: bv7, funct3: bv3, rd: RegIndex, rs1: RegIndex, imm: bv12)
    ensures var inst := EncodeI(opcode, funct3, rd, rs1, imm);
      && RegField(inst, 15) == rs1 && GetBits(inst, 20, 12) as bv64 == imm as bv64
      && GetBits(inst, 25, 7) as bv8 == (imm >> 5) as bv8
  {
    EncodeIRs1(opcode, funct3, rd, rs1, imm);
    EncodeIImm(opcode, funct3, rd, rs1, imm);
    EncodeIFunct7(opcode, funct3, rd, rs1, imm);
  }

  lemma EncodeIRs1(opcode: bv7, funct3: bv3, rd: RegIndex, rs1: RegIndex, imm: bv12)
    ensures RegField(EncodeI(opcode, funct3, rd, rs1, imm), 15) == rs1
  {
  }

  lemma EncodeIImm(opcode: bv7, funct3: bv3, rd: RegIndex, rs1: RegIndex, imm: bv12)
    ensures GetBits(EncodeI(opcode, funct3, rd, rs1, imm), 20, 12) as bv64 == imm as bv64
  {
    EncodeIImm32(opcode, funct3, rd, rs1, imm);
  }

  lemma EncodeIImm32(opcode: bv7, funct3: bv3, rd: RegIndex, rs1: RegIndex, imm: bv12)
    ensures GetBits(EncodeI(opcode, funct3, rd, rs1, imm), 20, 12) == imm as bv32
  {
  }

  lemma EncodeIFunct7(opcode: bv7, funct3: bv3, rd: RegIndex, rs1: RegIndex, imm: bv12)
    ensures GetBits(EncodeI(opcode, funct3, rd, rs1, imm), 25, 7) as bv8 == (imm >> 5) as bv8
  {
    assert GetBits(EncodeI(opcode, funct3, rd, rs1, imm), 25, 7) == (imm >> 5) as bv32;
  }

  /** A load or `jalr` word: the offset is inst[31:20], sign-extended. */
  lemma DecodeLoadJalr(inst: bv32)
    requires GetBits(inst, 0, 7) as bv8 in {OP_LOAD, OP_JALR}
    ensures ParseInst(inst, DecodedZero) ==
      Ok(DecodedZero.(opcode := GetBits(inst, 0, 7) as bv8, funct3 := GetBits(inst, 12, 3) as bv8,
                      rd := RegField(inst, 7), rs1 := RegField(inst, 15),
                      imm := SignExtend(GetBits(inst, 20, 12) as bv64, 12)))
  {
    assert inst & 3 == 3;
  }

  /** Loads and `jalr` carry the sign-extended 12-bit offset. */
  lemma DecodeEncodeLoadJalr(opcode: bv7, funct3: bv3, rd: RegIndex, rs1: RegIndex, imm: bv12)
    requires opcode as bv8 == OP_LOAD || opcode as bv8 == OP_JALR
    ensures ParseInst(EncodeI(opcode, funct3, rd, rs1, imm), DecodedZero) ==
      Ok(DecodedZero.(opcode := opcode as bv8, funct3 := funct3 as bv8, rd := rd, rs1 := rs1,
                      imm := SignExtend(imm as bv64, 12)))
  {
    EncodeIFields(opcode, funct3, rd, rs1, imm);
    DecodeLoadJalr(EncodeI(opcode, funct3, rd, rs1, imm));
  }

  /** OP-IMM and OP-IMM-32 words go through the shared tail with their shift-amount mask. */
  lemma Parse32ImmAlu(inst: bv32)
    requires GetBits(inst, 0, 7) as bv8 in {OP_RI, OP_RIW}
    ensures Parse32(inst, DecodedZero) ==
      ImmAlu(inst, DecodedZero.(opcode := GetBits(inst, 0, 7) as bv8),
             if GetBits(inst, 0, 7) as bv8 == OP_RI then 0x3F else 0x1F)
  {
  }

  /** The OP-IMM tail for the non-shift forms: the immediate is sign-extended. */
  lemma ImmAluNonShift(inst: bv32, e: Decoded, shamtMask: bv64)
    requires GetBits(inst, 12, 3) as bv8 != 1 && GetBits(inst, 12, 3) as bv8 != 5
    ensures ImmAlu(inst, e, shamtMask) ==
      match IAluOp(GetBits(inst, 12, 3) as bv8, 0)
      case Some(op) =>
        Some(e.(funct3 := GetBits(inst, 12, 3) as bv8, rd := RegField(inst, 7),
                rs1 := RegField(inst, 15), aluOp := op,
                imm := SignExtend(GetBits(inst, 20, 12) as bv64, 12)))
      case None => None
  {
  }

  /** The OP-IMM tail for the shift forms: the immediate is masked, funct7 is halved. */
  lemma ImmAluShift(inst: bv32, e: Decoded, shamtMask: bv64)
    requires GetBits(inst, 12, 3) as bv8 == 1 || GetBits(inst, 12, 3) as bv8 == 5
    ensures ImmAlu(inst, e, shamtMask) ==
      match IAluOp(GetBits(inst, 12, 3) as bv8, (GetBits(inst, 25, 7) as bv8) >> 1)
      case Some(op) =>
        Some(e.(funct3 := GetBits(inst, 12, 3) as bv8, rd := RegField(inst, 7),
                rs1 := RegField(inst, 15), aluOp := op,
                imm := GetBits(inst, 20, 12) as bv64 & shamtMask))
      case None => None
  {
    ImmAluShiftRaw(inst, e, shamtMask);
  }

  lemma ImmAluShiftRaw(inst: bv32, e: Decoded, shamtMask: bv64)
    requires GetBits(inst, 12, 3) as bv8 == 1 || GetBits(inst, 12, 3) as bv8 == 5
    ensures ImmAlu(inst, e, shamtMask) ==
      match IAluOp(GetBits(inst, 12, 3) as bv8, ParseI(inst, e).1 >> 1)
      case Some(op) =>
        Some(ParseI(inst, e).0.(imm := GetBits(inst, 20, 12) as bv64 & shamtMask, aluOp := op))
      case None => None
  {
  }

  /** An OP-IMM / OP-IMM-32 word other than a shift: inst[31:20] sign-extended. */
  lemma DecodeImmAlu(inst: bv32)
    requires GetBits(inst, 0, 7) as bv8 in {OP_RI, OP_RIW}
    requires GetBits(inst, 12, 3) as bv8 != 1 && GetBits(inst, 12, 3) as bv8 != 5
    ensures ParseInst(inst, DecodedZero) ==
      match IAluOp(GetBits(inst, 12, 3) as bv8, 0)
      case Some(op) =>
        Ok(DecodedZero.(opcode := GetBits(inst, 0, 7) as bv8, funct3 := GetBits(inst, 12, 3) as bv8,
                        rd := RegField(inst, 7), rs1 := RegField(inst, 15), aluOp := op,
                        imm := SignExtend(GetBits(inst, 20, 12) as bv64, 12)))
      case None => Err(DecodeError(inst))
  {
    var opcode := GetBits(inst, 0, 7) as bv8;
    assert inst & 3 == 3;
    ParseInst32(inst, DecodedZero);
    Parse32ImmAlu(inst);
    ImmAluNonShift(inst, DecodedZero.(opcode := opcode), if opcode == OP_RI then 0x3F else 0x1F);
  }

  /**
   * A shift-immediate word: the shift amount is inst[25:20] masked to six
   * bits (five for OP-IMM-32), the operation comes from inst[31:25] halved.
   */
  lemma DecodeShiftImm(inst: bv32)
    requires GetBits(inst, 0, 7) as bv8 in {OP_RI, OP_RIW}
    requires GetBits(inst, 12, 3) as bv8 == 1 || GetBits(inst, 12, 3) as bv8 == 5
    ensures ParseInst(inst, DecodedZero) ==
      match IAluOp(GetBits(inst, 12, 3) as bv8, (GetBits(inst, 25, 7) as bv8) >> 1)
      case Some(op) =>
        Ok(DecodedZero.(opcode := GetBits(inst, 0, 7) as bv8, funct3 := GetBits(inst, 12, 3) as bv8,
                        rd := RegField(inst, 7), rs1 := RegField(inst, 15), aluOp := op,
                        imm := GetBits(inst, 20, 12) as bv64 &
                               if GetBits(inst, 0, 7) as bv8 == OP_RI then 0x3F else 0x1F))
      case None => Err(DecodeError(inst))
  {
    var opcode := GetBits(inst, 0, 7) as bv8;
    assert inst & 3 == 3;
    ParseInst32(inst, DecodedZero);
    Parse32ImmAlu(inst);
    ImmAluShift(inst, DecodedZero.(opcode := opcode), if opcode == OP_RI then 0x3F else 0x1F);
  }

  /**
   * The register-immediate forms other than shifts carry the sign-extended
   * immediate and the operation their funct3 names, in both OP-IMM and
   * OP-IMM-32 (the latter accepts every funct3).
   */
  lemma DecodeEncodeImmAlu(opcode: bv7, funct3: bv3, rd: RegIndex, rs1: RegIndex, imm: bv12)
    requires opcode as bv8 == OP_RI || opcode as bv8 == OP_RIW
    requires funct3 != 1 && funct3 != 5
    ensures IAluOp(funct3 as bv8, 0).Some?
    ensures ParseInst(EncodeI(opcode, funct3, rd, rs1, imm), DecodedZero) ==
      Ok(DecodedZero.(opcode := opcode as bv8, funct3 := funct3 as bv8, rd := rd, rs1 := rs1,
                      imm := SignExtend(imm as bv64, 12), aluOp := IAluOp(funct3 as bv8, 0).value))
  {
    EncodeIFields(opcode, funct3, rd, rs1, imm);
    DecodeImmAlu(EncodeI(opcode, funct3, rd, rs1, imm));
  }

  /** Shift-immediate: bit 30 selects arithmetic, the shift amount sits in imm[5:0]. */
  function EncodeShift(opcode: bv7, funct3: bv3, arith: bool, rd: RegIndex, rs1: RegIndex, shamt: bv6): bv32 {
    EncodeI(opcode, funct3, rd, rs1, (if arith then 0x400 else 0) | shamt as bv12)
  }

  /**
   * `slli`/`srli`/`srai` and their word forms: the shift amount is masked to
   * six bits (five for the word forms), and an arithmetic left shift is
   * rejected.
   */
  lemma DecodeEncodeShift(opcode: bv7, funct3: bv3, arith: bool, rd: RegIndex, rs1: RegIndex, shamt: bv6)
    requires opcode as bv8 == OP_RI || opcode as bv8 == OP_RIW
    requires funct3 == 1 || funct3 == 5
    ensures var inst := EncodeShift(opcode, funct3, arith, rd, rs1, shamt);
      ParseInst(inst, DecodedZero) ==
        if funct3 == 1 && arith then Err(DecodeError(inst))
        else Ok(DecodedZero.(opcode := opcode as bv8, funct3 := funct3 as bv8, rd := rd, rs1 := rs1,
                             imm := (shamt as bv64) & (if opcode as bv8 == OP_RI then 0x3F else 0x1F),
                             aluOp := if funct3 == 1 then Sll else if arith then Sra else Srl))
  {
    var inst := EncodeShift(opcode, funct3, arith, rd, rs1, shamt);
    EncodeShiftFields(opcode, funct3, arith, rd, rs1, shamt);
    DecodeShiftImm(inst);
    ShiftOps(funct3, arith);
  }

  lemma ShiftOps(funct3: bv3, arith: bool)
    requires funct3 == 1 || funct3 == 5
    ensures IAluOp(funct3 as bv8, if arith then 0x10 else 0) ==
      if funct3 == 1 && arith then None
      else Some(if funct3 == 1 then Sll else if arith then Sra else Srl)
  {
  }

  lemma EncodeShiftFields(opcode: bv7, funct3: bv3, arith: bool, rd: RegIndex, rs1: RegIndex, shamt: bv6)
    ensures var inst := EncodeShift(opcode, funct3, arith, rd, rs1, shamt);
      && GetBits(inst, 0, 7) as bv8 == opcode as bv8 && inst & 3 == opcode as bv32 & 3
      && RegField(inst, 7) == rd && GetBits(inst, 12, 3) as bv8 == funct3 as bv8
      && RegField(inst, 15) == rs1
      && (GetBits(inst, 25, 7) as bv8) >> 1 == (if arith then 0x10 else 0)
      && GetBits(inst, 20, 12) as bv64 & 0x3F == shamt as bv64
      && GetBits(inst, 20, 12) as bv64 & 0x1F == shamt as bv64 & 0x1F
  {
    var imm: bv12 := (if arith then 0x400 else 0) | shamt as bv12;
    EncodeIFields(opcode, funct3, rd, rs1, imm);
    ShiftImmediate(arith, shamt);
  }

  lemma ShiftImmediate(arith: bool, shamt: bv6)
    ensures var imm: bv12 := (if arith then 0x400 else 0) | shamt as bv12;
      && (imm >> 5) as bv8 >> 1 == (if arith then 0x10 else 0)
      && (imm as bv64) & 0x3F == shamt as bv64
      && (imm as bv64) & 0x1F == (shamt as bv64) & 0x1F
  {
  }

  /** S-type: imm[11:5] | rs2 | rs1 | funct3 | imm[4:0] | opcode. */
  function EncodeS(funct3: bv3, rs1: RegIndex, rs2: RegIndex, imm: bv12): bv32 {
    (((imm >> 5) as bv32) << 25) | ((rs2 as bv32) << 20) | ((rs1 as bv32) << 15) |
    ((funct3 as bv32) << 12) | (((imm & 0x1F) as bv32) << 7) | OP_STORE as bv32
  }

  lemma EncodeSFields(funct3: bv3, rs1: RegIndex, rs2: RegIndex, imm: bv12)
    ensures var inst := EncodeS(funct3, rs1, rs2, imm);
      && GetBits(inst, 0, 7) as bv8 == OP_STORE && inst & 3 == 3
      && GetBits(inst, 12, 3) as bv8 == funct3 as bv8
      && RegField(inst, 15) == rs1 && RegField(inst, 20) == rs2
      && SImm(inst) == imm as bv64
  {
  }

  /** A store word: the offset is inst[31:25] above inst[11:7], sign-extended. */
  lemma DecodeStore(inst: bv32)
    requires GetBits(inst, 0, 7) as bv8 == OP_STORE
    ensures ParseInst(inst, DecodedZero) ==
      Ok(DecodedZero.(opcode := OP_STORE, funct3 := GetBits(inst, 12, 3) as bv8,
                      rs1 := RegField(inst, 15), rs2 := RegField(inst, 20),
                      imm := SignExtend(SImm(inst), 12)))
  {
    assert inst & 3 == 3;
  }

  /** Stores carry their registers and the sign-extended 12-bit offset. */
  lemma DecodeEncodeStore(funct3: bv3, rs1: RegIndex, rs2: RegIndex, imm: bv12)
    ensures ParseInst(EncodeS(funct3, rs1, rs2, imm), DecodedZero) ==
      Ok(DecodedZero.(opcode := OP_STORE, funct3 := funct3 as bv8, rs1 := rs1, rs2 := rs2,
                      imm := SignExtend(imm as bv64, 12)))
  {
    EncodeSFields(funct3, rs1, rs2, imm);
    DecodeStore(EncodeS(funct3, rs1, rs2, imm));
  }

  /** B-type: imm[12] | imm[10:5] | rs2 | rs1 | funct3 | imm[4:1] | imm[11] | opcode. */
  function EncodeB(funct3: bv3, rs1: RegIndex, rs2: RegIndex, offset: bv13): bv32 {
    (((offset >> 12) as bv32) << 31) | ((((offset >> 5) & 0x3F) as bv32) << 25) |
    ((rs2 as bv32) << 20) | ((rs1 as bv32) << 15) | ((funct3 as bv32) << 12) |
    ((((offset >> 1) & 0xF) as bv32) << 8) | ((((offset >> 11) & 1) as bv32) << 7) |
    OP_BRANCH as bv32
  }

  lemma EncodeBFields(funct3: bv3, rs1: RegIndex, rs2: RegIndex, offset: bv13)
    requires offset & 1 == 0
    ensures var inst := EncodeB(funct3, rs1, rs2, offset);
      && GetBits(inst, 0, 7) as bv8 == OP_BRANCH && inst & 3 == 3
      && GetBits(inst, 12, 3) as bv8 == funct3 as bv8
      && RegField(inst, 15) == rs1 && RegField(inst, 20) == rs2
      && SBImm(inst) == offset as bv64
  {
    EncodeBOffset(funct3, rs1, rs2, offset);
  }

  lemma EncodeBOffset(funct3: bv3, rs1: RegIndex, rs2: RegIndex, offset: bv13)
    requires offset & 1 == 0
    ensures SBImm(EncodeB(funct3, rs1, rs2, offset)) == offset as bv64
  {
  }

  /** A branch word: the raw 13-bit offset is sign-extended from bit 11. */
  lemma DecodeBranch(inst: bv32)
    requires GetBits(inst, 0, 7) as bv8 == OP_BRANCH
    ensures ParseInst(inst, DecodedZero) ==
      Ok(DecodedZero.(opcode := OP_BRANCH, funct3 := GetBits(inst, 12, 3) as bv8,
                      rs1 := RegField(inst, 15), rs2 := RegField(inst, 20),
                      imm := SignExtend(SBImm(inst), 12)))
  {
    assert inst & 3 == 3;
  }

  /**
   * Branches carry their registers and the offset, sign-extended from bit 11
   * of the 13-bit offset (the instruction set extends from bit 12; see
   * `BranchOffsetAsArchitected`).
   */
  lemma DecodeEncodeBranch(funct3: bv3, rs1: RegIndex, rs2: RegIndex, offset: bv13)
    requires offset & 1 == 0
    ensures ParseInst(EncodeB(funct3, rs1, rs2, offset), DecodedZero) ==
      Ok(DecodedZero.(opcode := OP_BRANCH, funct3 := funct3 as bv8, rs1 := rs1, rs2 := rs2,
                      imm := SignExtend(offset as bv64, 12)))
  {
    EncodeBFields(funct3, rs1, rs2, offset);
    DecodeBranch(EncodeB(funct3, rs1, rs2, offset));
  }

  /**
   * The decoded branch offset equals the architected 13-bit two's-complement
   * offset exactly when bits 12 and 11 of the offset agree, i.e. for offsets
   * in [-2048, 2046]; farther branches are decoded to the wrong target.
   */
  lemma BranchOffsetAsArchitected(offset: bv13)
    ensures SignExtend(offset as bv64, 12) == SignExtend(offset as bv64, 13)
        <==> (offset >> 12) == (offset >> 11) & 1
  {
  }

  /** A forward branch by 2048 bytes is decoded as a backward branch by 2048 bytes. */
  lemma BranchOffset2048()
    ensures ParseInst(EncodeB(0, 0, 0, 0x800), DecodedZero).value.imm == 0 - 0x800
  {
    DecodeEncodeBranch(0, 0, 0, 0x800);
  }

  /** U-type: imm[31:12] | rd | opcode. */
  function EncodeU(opcode: bv7, rd: RegIndex, imm: bv20): bv32 {
    ((imm as bv32) << 12) | ((rd as bv32) << 7) | opcode as bv32
  }

  lemma EncodeUFields(opcode: bv7, rd: RegIndex, imm: bv20)
    ensures var inst := EncodeU(opcode, rd, imm);
      && GetBits(inst, 0, 7) as bv8 == opcode as bv8 && inst & 3 == opcode as bv32 & 3
      && RegField(inst, 7) == rd && UImm(inst) == (imm as bv64) << 12
  {
  }

  /** An `auipc` / `lui` word: inst[31:12] in place, sign-extended from bit 31. */
  lemma DecodeUpper(inst: bv32)
    requires GetBits(inst, 0, 7) as bv8 in {OP_AUIPC, OP_LUI}
    ensures ParseInst(inst, DecodedZero) ==
      Ok(DecodedZero.(opcode := GetBits(inst, 0, 7) as bv8, rd := RegField(inst, 7),
                      imm := SignExtend(UImm(inst), 32)))
  {
    assert inst & 3 == 3;
  }

  /** `lui` / `auipc` carry the upper immediate shifted into place and sign-extended. */
  lemma DecodeEncodeUpper(opcode: bv7, rd: RegIndex, imm: bv20)
    requires opcode as bv8 == OP_AUIPC || opcode as bv8 == OP_LUI
    ensures ParseInst(EncodeU(opcode, rd, imm), DecodedZero) ==
      Ok(DecodedZero.(opcode := opcode as bv8, rd := rd,
                      imm := SignExtend((imm as bv64) << 12, 32)))
  {
    EncodeUFields(opcode, rd, imm);
    DecodeUpper(EncodeU(opcode, rd, imm));
  }

  /** J-type: imm[20] | imm[10:1] | imm[11] | imm[19:12] | rd | opcode. */
  function EncodeJ(rd: RegIndex, offset: bv21): bv32 {
    (((offset >> 20) as bv32) << 31) | ((((offset >> 1) & 0x3FF) as bv32) << 21) |
    ((((offset >> 11) & 1) as bv32) << 20) | ((((offset >> 12) & 0xFF) as bv32) << 12) |
    ((rd as bv32) << 7) | OP_JAL as bv32
  }

  lemma EncodeJFields(rd: RegIndex, offset: bv21)
    requires offset & 1 == 0
    ensures var inst := EncodeJ(rd, offset);
      && GetBits(inst, 0, 7) as bv8 == OP_JAL && inst & 3 == 3
      && RegField(inst, 7) == rd && UJImm(inst) == offset as bv64
  {
  }

  /** A `jal` word: the raw 21-bit offset, sign-extended from bit 20. */
  lemma DecodeJal(inst: bv32)
    requires GetBits(inst, 0, 7) as bv8 == OP_JAL
    ensures ParseInst(inst, DecodedZero) ==
      Ok(DecodedZero.(opcode := OP_JAL, rd := RegField(inst, 7), imm := SignExtend(UJImm(inst), 21)))
  {
    assert inst & 3 == 3;
  }

  /** `jal` carries its link register and the architected sign-extended offset. */
  lemma DecodeEncodeJal(rd: RegIndex, offset: bv21)
    requires offset & 1 == 0
    ensures ParseInst(EncodeJ(rd, offset), DecodedZero) ==
      Ok(DecodedZero.(opcode := OP_JAL, rd := rd, imm := SignExtend(offset as bv64, 21)))
  {
    EncodeJFields(rd, offset);
    DecodeJal(EncodeJ(rd, offset));
  }

  // ---------------------------------------------------------------------
  // The "C" extension checked against its 32-bit expansions (section 16.5
  // of the RISC-V unprivileged ISA, "Integer Computational Instructions",
  // and section 16.4, "Control Transfer Instructions").
  // ---------------------------------------------------------------------

  /** The register field inst[11:7] of a compressed word. */
  function CRd(inst: bv32): RegIndex {
    RegField(inst, 7)
  }

  /** The register field inst[6:2] of a compressed word. */
  function CRs2(inst: bv32): RegIndex {
    RegField(inst, 2)
  }

  /** The six-bit immediate inst[12] | inst[6:2] of the CI format. */
  function CImm6(inst: bv32): bv64 {
    (GetBits(inst, 2, 5, 0) | GetBits(inst, 12, 1, 5)) as bv64
  }

  /**
   * A compressed word is rejected exactly in the reserved and unsupported
   * slots: quadrant 0 with funct3 1, 4 or 5, quadrant 2 with funct3 1 or 5,
   * and the quadrant-1 arithmetic forms with inst[12] set and inst[6:5] of
   * 2 or 3. Every other compressed word decodes, whatever the prior record.
   */
  lemma CompressedRejects(inst: bv32, e: Decoded)
    requires inst & 3 != 3
    ensures var q, f := inst & 3, GetBits(inst, 13, 3);
      ParseInst(inst, e).Err? <==>
        || (q == 0 && (f == 1 || f == 4 || f == 5))
        || (q == 2 && (f == 1 || f == 5))
        || (q == 1 && f == 4 && GetBits(inst, 10, 2) == 3 && GetBits(inst, 12, 1) == 1 && GetBits(inst, 5, 2) >= 2)
  {
    ParseInst16(inst, e);
    assert GetBits(inst, 0, 2) == inst & 3;
  }

  /**
   * `c.mv rd, rs2` (rs2 != 0) decodes like `add rd, x0, rs2`: the source
   * reaches it through the swap of rd and rs1, which reads the prior
   * record's rd, 0 in the zero record.
   */
  lemma CompressedMove(inst: bv32)
    requires inst & 3 == 2 && GetBits(inst, 13, 3) == 4 && GetBits(inst, 12, 1) == 0 && CRs2(inst) != 0
    ensures var x := ParseInst(EncodeR(OP_RR as bv7, 0, 0, CRd(inst), 0, CRs2(inst)), DecodedZero);
      x.Ok? && ParseInst(inst, DecodedZero) == Ok(x.value.(compressed := true))
  {
    ParseInst16(inst, DecodedZero);
    assert GetBits(inst, 0, 2) == 2;
    DecodeEncodeR(OP_RR as bv7, 0, 0, CRd(inst), 0, CRs2(inst));
  }

  /** `c.add rd, rs2` (rs2 != 0) decodes like `add rd, rd, rs2`. */
  lemma CompressedAdd(inst: bv32)
    requires inst & 3 == 2 && GetBits(inst, 13, 3) == 4 && GetBits(inst, 12, 1) == 1 && CRs2(inst) != 0
    ensures var x := ParseInst(EncodeR(OP_RR as bv7, 0, 0, CRd(inst), CRd(inst), CRs2(inst)), DecodedZero);
      x.Ok? && ParseInst(inst, DecodedZero) == Ok(x.value.(compressed := true))
  {
    ParseInst16(inst, DecodedZero);
    assert GetBits(inst, 0, 2) == 2;
    DecodeEncodeR(OP_RR as bv7, 0, 0, CRd(inst), CRd(inst), CRs2(inst));
  }

  /**
   * `c.jr rs1` decodes like `jalr x0, 0(rs1)` and `c.jalr rs1` (rs1 != 0)
   * like `jalr x1, 0(rs1)`.
   */
  lemma CompressedJumpRegister(inst: bv32)
    requires inst & 3 == 2 && GetBits(inst, 13, 3) == 4 && CRs2(inst) == 0
    requires GetBits(inst, 12, 1) == 1 ==> CRd(inst) != 0
    ensures var link: RegIndex := if GetBits(inst, 12, 1) == 1 then REG_RA else 0;
      var x := ParseInst(EncodeI(OP_JALR as bv7, 0, link, CRd(inst), 0), DecodedZero);
      x.Ok? && ParseInst(inst, DecodedZero) == Ok(x.value.(compressed := true))
  {
    ParseInst16(inst, DecodedZero);
    assert GetBits(inst, 0, 2) == 2;
    var link: RegIndex := if GetBits(inst, 12, 1) == 1 then REG_RA else 0;
    DecodeEncodeLoadJalr(OP_JALR as bv7, 0, link, CRd(inst), 0);
  }

  /** c.ebreak writes no field but the register numbers: opcode 0, which no stage acts on. */
  lemma CompressedBreak(inst: bv32)
    requires inst & 3 == 2 && GetBits(inst, 13, 3) == 4 && GetBits(inst, 12, 1) == 1
    requires CRd(inst) == 0 && CRs2(inst) == 0
    ensures ParseInst(inst, DecodedZero) == Ok(DecodedZero.(compressed := true))
  {
    ParseInst16(inst, DecodedZero);
    assert GetBits(inst, 0, 2) == 2;
  }

  /** The twelve-bit I-type immediate holding the six-bit immediate `x`, sign-extended. */
  function Widen6(x: bv64): bv12 {
    (SignExtend(x, 6) & 0xFFF) as bv12
  }

  /** Sign-extending the widened immediate from twelve bits gives the six-bit sign extension. */
  lemma SignExtendSix(x: bv64)
    requires x < 64
    ensures SignExtend(Widen6(x) as bv64, 12) == SignExtend(x, 6)
  {
  }

  /**
   * `c.addi rd, imm` decodes like `addi rd, rd, imm` and `c.li rd, imm` like
   * `addi rd, x0, imm`, with the six-bit immediate sign-extended.
   */
  lemma CompressedAddImmediate(inst: bv32)
    requires inst & 3 == 1 && (GetBits(inst, 13, 3) == 0 || GetBits(inst, 13, 3) == 2)
    ensures var rs1 := if GetBits(inst, 13, 3) == 0 then CRd(inst) else 0;
      var x := ParseInst(EncodeI(OP_RI as bv7, 0, CRd(inst), rs1, Widen6(CImm6(inst))), DecodedZero);
      x.Ok? && ParseInst(inst, DecodedZero) == Ok(x.value.(compressed := true))
  {
    var rs1 := if GetBits(inst, 13, 3) == 0 then CRd(inst) else 0;
    CompressedAddImmediateParsed(inst);
    DecodeEncodeImmAlu(OP_RI as bv7, 0, CRd(inst), rs1, Widen6(CImm6(inst)));
    SignExtendSix(CImm6(inst));
  }

  lemma CompressedAddImmediateParsed(inst: bv32)
    requires inst & 3 == 1 && (GetBits(inst, 13, 3) == 0 || GetBits(inst, 13, 3) == 2)
    ensures CImm6(inst) < 64
    ensures var rs1 := if GetBits(inst, 13, 3) == 0 then CRd(inst) else 0;
      ParseInst(inst, DecodedZero) ==
        Ok(DecodedZero.(compressed := true, opcode := OP_RI, rd := CRd(inst), rs1 := rs1,
                        imm := SignExtend(CImm6(inst), 6)))
  {
    ParseInst16(inst, DecodedZero);
    assert GetBits(inst, 0, 2) == 1;
  }

  /**
   * The compressed loads and stores carry unsigned, scaled offsets: a
   * multiple of 4 for the word forms, of 8 for the doubleword forms, and
   * below 512, so never sign-extended.
   */
  lemma CompressedOffsets(inst: bv32)
    requires inst & 3 != 3
    requires ParseInst(inst, DecodedZero).Ok?
    requires ParseInst(inst, DecodedZero).value.opcode in {OP_LOAD, OP_STORE}
    ensures var d := ParseInst(inst, DecodedZero).value;
      && (d.funct3 == 2 || d.funct3 == 3)
      && d.imm < 512
      && d.imm & 3 == 0
      && (d.funct3 == 3 ==> d.imm & 7 == 0)
  {
    ParseInst16(inst, DecodedZero);
  }

  /** `c.addiw rd, imm` decodes like `addiw rd, rd, imm`, the six-bit immediate sign-extended. */
  lemma CompressedAddWordImmediate(inst: bv32)
    requires inst & 3 == 1 && GetBits(inst, 13, 3) == 1
    ensures var x := ParseInst(EncodeI(OP_RIW as bv7, 0, CRd(inst), CRd(inst), Widen6(CImm6(inst))), DecodedZero);
      x.Ok? && ParseInst(inst, DecodedZero) == Ok(x.value.(compressed := true))
  {
    ParseInst16(inst, DecodedZero);
    assert GetBits(inst, 0, 2) == 1;
    DecodeEncodeImmAlu(OP_RIW as bv7, 0, CRd(inst), CRd(inst), Widen6(CImm6(inst)));
    SignExtendSix(CImm6(inst));
  }

  /** `c.andi rd', imm` decodes like `andi rd', rd', imm`, the six-bit immediate sign-extended. */
  lemma CompressedAndImmediate(inst: bv32)
    requires inst & 3 == 1 && GetBits(inst, 13, 3) == 4 && GetBits(inst, 10, 2) == 2
    ensures var x := ParseInst(EncodeI(OP_RI as bv7, 7, Prime(inst, 7), Prime(inst, 7), Widen6(CImm6(inst))), DecodedZero);
      x.Ok? && ParseInst(inst, DecodedZero) == Ok(x.value.(compressed := true))
  {
    ParseInst16(inst, DecodedZero);
    assert GetBits(inst, 0, 2) == 1;
    DecodeEncodeImmAlu(OP_RI as bv7, 7, Prime(inst, 7), Prime(inst, 7), Widen6(CImm6(inst)));
    SignExtendSix(CImm6(inst));
  }

  /**
   * `c.srli rd', shamt` and `c.srai rd', shamt` decode like `srli` / `srai
   * rd', rd', shamt`, and `c.slli rd, shamt` like `slli rd, rd, shamt`: the
   * six-bit shift amount inst[12] | inst[6:2] is taken as it stands.
   */
  lemma CompressedShiftImmediate(inst: bv32)
    requires || (inst & 3 == 1 && GetBits(inst, 13, 3) == 4 && GetBits(inst, 10, 2) < 2)
             || (inst & 3 == 2 && GetBits(inst, 13, 3) == 0)
    ensures CImm6(inst) < 64
    ensures var left := inst & 3 == 2;
      var rd := if left then CRd(inst) else Prime(inst, 7);
      var x := ParseInst(EncodeShift(OP_RI as bv7, if left then 1 else 5, !left && GetBits(inst, 10, 2) == 1,
                                     rd, rd, CImm6(inst) as bv6), DecodedZero);
      x.Ok? && ParseInst(inst, DecodedZero) == Ok(x.value.(compressed := true))
  {
    var left := inst & 3 == 2;
    var rd := if left then CRd(inst) else Prime(inst, 7);
    ParseInst16(inst, DecodedZero);
    assert GetBits(inst, 0, 2) == inst & 3;
    assert CImm6(inst) < 64;
    DecodeEncodeShift(OP_RI as bv7, if left then 1 else 5, !left && GetBits(inst, 10, 2) == 1, rd, rd, CImm6(inst) as bv6);
  }

  /** The twenty-bit U-type immediate holding the six-bit immediate `x`, sign-extended. */
  function Widen6To20(x: bv64): bv20 {
    (SignExtend(x, 6) & 0xF_FFFF) as bv20
  }

  /** The `lui` immediate of a widened six-bit value is the value placed at bit 12, sign-extended from bit 17. */
  lemma SignExtendUpper(x: bv64)
    requires x < 64
    ensures SignExtend((Widen6To20(x) as bv64) << 12, 32) == SignExtend(x << 12, 18)
  {
    if x & 32 == 0 {
      assert Widen6To20(x) as bv64 == x;
    } else {
      assert Widen6To20(x) as bv64 == x | 0xF_FFC0;
      assert (x | 0xF_FFC0) << 12 == (x << 12) | 0xFFFC_0000;
    }
  }

  lemma CompressedLoadUpperParsed(inst: bv32)
    requires inst & 3 == 1 && GetBits(inst, 13, 3) == 3 && CRd(inst) != 2
    ensures CImm6(inst) < 64
    ensures ParseInst(inst, DecodedZero) ==
      Ok(DecodedZero.(compressed := true, opcode := OP_LUI, rd := CRd(inst), imm := SignExtend(CImm6(inst) << 12, 18)))
  {
    ParseInst16(inst, DecodedZero);
    assert GetBits(inst, 0, 2) == 1;
    assert (GetBits(inst, 2, 5, 12) | GetBits(inst, 12, 1, 17)) as bv64 == CImm6(inst) << 12;
  }

  /** `c.lui rd, imm` (rd != 2) decodes like `lui rd, imm`, the six-bit immediate sign-extended. */
  lemma CompressedLoadUpper(inst: bv32)
    requires inst & 3 == 1 && GetBits(inst, 13, 3) == 3 && CRd(inst) != 2
    ensures var x := ParseInst(EncodeU(OP_LUI as bv7, CRd(inst), Widen6To20(CImm6(inst))), DecodedZero);
      x.Ok? && ParseInst(inst, DecodedZero) == Ok(x.value.(compressed := true))
  {
    var imm := CImm6(inst);
    CompressedLoadUpperParsed(inst);
    DecodeEncodeUpper(OP_LUI as bv7, CRd(inst), Widen6To20(imm));
    SignExtendUpper(imm);
    assert OP_LUI as bv7 as bv8 == OP_LUI;
  }

  // Reference encoders for the compressed formats whose immediates are
  // scattered (section 16.2 of the RISC-V unprivileged ISA, "Compressed
  // Instruction Formats").

  /** CJ format, `c.j`: offset[11|4|9:8|10|6|7|3:1|5] in inst[12:2]. */
  function EncodeCJ(offset: bv12): bv32 {
    var o := offset as bv32;
    (5 << 13) | (((o >> 11) & 1) << 12) | (((o >> 4) & 1) << 11) | (((o >> 8) & 3) << 9) |
    (((o >> 10) & 1) << 8) | (((o >> 6) & 1) << 7) | (((o >> 7) & 1) << 6) |
    (((o >> 1) & 7) << 3) | (((o >> 5) & 1) << 2) | 1
  }

  /** The 21-bit `jal` offset holding the 12-bit offset `offset`, sign-extended. */
  function Widen12To21(offset: bv12): bv21 {
    if offset & 0x800 == 0 then offset as bv21 else offset as bv21 | 0x1F_F000
  }

  lemma CompressedJumpParsed(offset: bv12)
    requires offset & 1 == 0
    ensures ParseInst(EncodeCJ(offset), DecodedZero) ==
      Ok(DecodedZero.(compressed := true, opcode := OP_JAL, imm := SignExtend(offset as bv64, 12)))
  {
    var inst := EncodeCJ(offset);
    ParseInst16(inst, DecodedZero);
    assert GetBits(inst, 0, 2) == 1 && GetBits(inst, 13, 3) == 5;
    assert (GetBits(inst, 2, 1, 5) | GetBits(inst, 3, 3, 1) |
            GetBits(inst, 6, 1, 7) | GetBits(inst, 7, 1, 6) |
            GetBits(inst, 8, 1, 10) | GetBits(inst, 9, 2, 8) |
            GetBits(inst, 11, 1, 4) | GetBits(inst, 12, 1, 11)) as bv64 == offset as bv64;
  }

  /** `c.j offset` decodes like `jal x0, offset`, for every even 12-bit offset. */
  lemma CompressedJump(offset: bv12)
    requires offset & 1 == 0
    ensures var x := ParseInst(EncodeJ(0, Widen12To21(offset)), DecodedZero);
      x.Ok? && ParseInst(EncodeCJ(offset), DecodedZero) == Ok(x.value.(compressed := true))
  {
    CompressedJumpParsed(offset);
    DecodeEncodeJal(0, Widen12To21(offset));
    SignExtendJump(offset);
  }

  /** Sign-extending the widened offset from 21 bits gives the 12-bit sign extension. */
  lemma SignExtendJump(offset: bv12)
    ensures SignExtend(Widen12To21(offset) as bv64, 21) == SignExtend(offset as bv64, 12)
  {
    var w, o := Widen12To21(offset) as bv64, offset as bv64;
    SignExtend21(w);
    SignExtend12(o);
    assert (if w & 0x10_0000 == 0 then w else w | 0xFFFF_FFFF_FFE0_0000)
        == (if o & 0x800 == 0 then o else o | 0xFFFF_FFFF_FFFF_F000);
  }

  // `SignExtend` at the fixed widths the compressed offsets use.

  lemma SignExtend21(x: bv64)
    ensures SignExtend(x, 21) == if x & 0x10_0000 == 0 then x else x | 0xFFFF_FFFF_FFE0_0000
  {
  }

  lemma SignExtend12(x: bv64)
    ensures SignExtend(x, 12) == if x & 0x800 == 0 then x else x | 0xFFFF_FFFF_FFFF_F000
  {
  }

  lemma SignExtend9(x: bv64)
    ensures SignExtend(x, 9) == if x & 0x100 == 0 then x else x | 0xFFFF_FFFF_FFFF_FE00
  {
  }

  /** CB format, `c.beqz` (funct3 6) and `c.bnez` (funct3 7): offset[8|4:3] rs1' offset[7:6|2:1|5]. */
  function EncodeCB(funct3: bv3, rs1: bv3, offset: bv9): bv32 {
    var o := offset as bv32;
    ((funct3 as bv32) << 13) | (((o >> 8) & 1) << 12) | (((o >> 3) & 3) << 10) | ((rs1 as bv32) << 7) |
    (((o >> 6) & 3) << 5) | (((o >> 1) & 3) << 3) | (((o >> 5) & 1) << 2) | 1
  }

  /** The 13-bit branch offset holding the 9-bit offset `offset`, sign-extended. */
  function Widen9To13(offset: bv9): bv13 {
    if offset & 0x100 == 0 then offset as bv13 else offset as bv13 | 0x1E00
  }

  lemma CompressedBranchParsed(funct3: bv3, rs1: bv3, offset: bv9)
    requires funct3 == 6 || funct3 == 7
    requires offset & 1 == 0
    ensures ParseInst(EncodeCB(funct3, rs1, offset), DecodedZero) ==
      Ok(DecodedZero.(compressed := true, opcode := OP_BRANCH, funct3 := if funct3 == 6 then 0 else 1,
                      rs1 := 8 + rs1 as RegIndex, imm := SignExtend(offset as bv64, 9)))
  {
    var inst := EncodeCB(funct3, rs1, offset);
    ParseInst16(inst, DecodedZero);
    assert GetBits(inst, 0, 2) == 1 && GetBits(inst, 13, 3) == funct3 as bv32;
    assert Prime(inst, 7) == 8 + rs1 as RegIndex;
    BranchGather(funct3, rs1, offset);
  }

  lemma BranchGather(funct3: bv3, rs1: bv3, offset: bv9)
    requires offset & 1 == 0
    ensures var inst := EncodeCB(funct3, rs1, offset);
      (GetBits(inst, 2, 1, 5) | GetBits(inst, 3, 2, 1) |
       GetBits(inst, 5, 2, 6) | GetBits(inst, 10, 2, 3) |
       GetBits(inst, 12, 1, 8)) as bv64 == offset as bv64
  {
  }

  /**
   * `c.beqz rs1', offset` decodes like `beq rs1', x0, offset` and `c.bnez`
   * like `bne`, for every even 9-bit offset: bits 12 to 8 of the widened
   * offset agree, so the 32-bit decoder's extension from bit 11 is exact.
   */
  lemma CompressedBranchZero(funct3: bv3, rs1: bv3, offset: bv9)
    requires funct3 == 6 || funct3 == 7
    requires offset & 1 == 0
    ensures var x := ParseInst(EncodeB(if funct3 == 6 then 0 else 1, 8 + rs1 as RegIndex, 0, Widen9To13(offset)), DecodedZero);
      x.Ok? && ParseInst(EncodeCB(funct3, rs1, offset), DecodedZero) == Ok(x.value.(compressed := true))
  {
    var f: bv3, r, w := if funct3 == 6 then 0 else 1, 8 + rs1 as RegIndex, Widen9To13(offset);
    CompressedBranchParsed(funct3, rs1, offset);
    DecodeEncodeBranch(f, r, 0, w);
    SignExtendBranch(offset);
    assert f as bv8 == if funct3 == 6 then 0 else 1;
  }

  /** Bits 12 to 8 of the widened offset agree, so extending it from bit 11 is the 9-bit sign extension. */
  lemma SignExtendBranch(offset: bv9)
    ensures SignExtend(Widen9To13(offset) as bv64, 12) == SignExtend(offset as bv64, 9)
  {
    var w, o := Widen9To13(offset) as bv64, offset as bv64;
    SignExtend12(w);
    SignExtend9(o);
    assert (if w & 0x800 == 0 then w else w | 0xFFFF_FFFF_FFFF_F000)
        == (if o & 0x100 == 0 then o else o | 0xFFFF_FFFF_FFFF_FE00);
  }

  /** CI format, `c.addi16sp`: nzimm[9] in inst[12], rd = x2, nzimm[4|6|8:7|5] in inst[6:2]. */
  function EncodeCAddi16sp(imm: bv10): bv32 {
    var o := imm as bv32;
    (3 << 13) | (((o >> 9) & 1) << 12) | (2 << 7) | (((o >> 4) & 1) << 6) |
    (((o >> 6) & 1) << 5) | (((o >> 7) & 3) << 3) | (((o >> 5) & 1) << 2) | 1
  }

  /** The twelve-bit I-type immediate holding the ten-bit immediate `imm`, sign-extended. */
  function Widen10(imm: bv10): bv12 {
    (SignExtend(imm as bv64, 10) & 0xFFF) as bv12
  }

  lemma CompressedStackAdjustParsed(imm: bv10)
    requires imm & 15 == 0
    ensures ParseInst(EncodeCAddi16sp(imm), DecodedZero) ==
      Ok(DecodedZero.(compressed := true, opcode := OP_RI, rd := REG_SP, rs1 := REG_SP,
                      imm := SignExtend(imm as bv64, 10)))
  {
    var inst := EncodeCAddi16sp(imm);
    ParseInst16(inst, DecodedZero);
    assert GetBits(inst, 0, 2) == 1 && GetBits(inst, 13, 3) == 3 && RegField(inst, 7) == 2;
    assert (GetBits(inst, 2, 1, 5) | GetBits(inst, 3, 2, 7) |
            GetBits(inst, 5, 1, 6) | GetBits(inst, 6, 1, 4) |
            GetBits(inst, 12, 1, 9)) as bv64 == imm as bv64;
  }

  /** `c.addi16sp imm` decodes like `addi x2, x2, imm`, for every ten-bit multiple of 16. */
  lemma CompressedStackAdjust(imm: bv10)
    requires imm & 15 == 0
    ensures var x := ParseInst(EncodeI(OP_RI as bv7, 0, REG_SP, REG_SP, Widen10(imm)), DecodedZero);
      x.Ok? && ParseInst(EncodeCAddi16sp(imm), DecodedZero) == Ok(x.value.(compressed := true))
  {
    CompressedStackAdjustParsed(imm);
    DecodeEncodeImmAlu(OP_RI as bv7, 0, REG_SP, REG_SP, Widen10(imm));
    assert SignExtend(Widen10(imm) as bv64, 12) == SignExtend(imm as bv64, 10);
  }

  /** CIW format, `c.addi4spn`: nzuimm[5:4|9:6|2|3] in inst[12:5], rd' in inst[4:2]. */
  function EncodeCIW(rd: bv3, imm: bv10): bv32 {
    var o := imm as bv32;
    (((o >> 4) & 3) << 11) | (((o >> 6) & 15) << 7) | (((o >> 2) & 1) << 6) |
    (((o >> 3) & 1) << 5) | ((rd as bv32) << 2)
  }

  lemma CompressedStackAddressParsed(rd: bv3, imm: bv10)
    requires imm & 3 == 0
    ensures ParseInst(EncodeCIW(rd, imm), DecodedZero) ==
      Ok(DecodedZero.(compressed := true, opcode := OP_RI, rd := 8 + rd as RegIndex, rs1 := REG_SP, imm := imm as bv64))
  {
    var inst := EncodeCIW(rd, imm);
    ParseInst16(inst, DecodedZero);
    assert GetBits(inst, 0, 2) == 0 && GetBits(inst, 13, 3) == 0;
    assert Prime(inst, 2) == 8 + rd as RegIndex;
    StackAddressGather(rd, imm);
  }

  lemma StackAddressGather(rd: bv3, imm: bv10)
    requires imm & 3 == 0
    ensures var inst := EncodeCIW(rd, imm);
      (GetBits(inst, 5, 1, 3) | GetBits(inst, 6, 1, 2) |
       GetBits(inst, 7, 4, 6) | GetBits(inst, 11, 2, 4)) as bv64 == imm as bv64
  {
  }

  /**
   * `c.addi4spn rd', imm` decodes like `addi rd', x2, imm`, for every
   * ten-bit multiple of 4: the offset is unsigned and below 1024, so its
   * twelve-bit form is never negative.
   */
  lemma CompressedStackAddress(rd: bv3, imm: bv10)
    requires imm & 3 == 0
    ensures var x := ParseInst(EncodeI(OP_RI as bv7, 0, 8 + rd as RegIndex, REG_SP, imm as bv12), DecodedZero);
      x.Ok? && ParseInst(EncodeCIW(rd, imm), DecodedZero) == Ok(x.value.(compressed := true))
  {
    CompressedStackAddressParsed(rd, imm);
    DecodeEncodeImmAlu(OP_RI as bv7, 0, 8 + rd as RegIndex, REG_SP, imm as bv12);
    assert SignExtend(imm as bv64, 12) == imm as bv64;
  }
}
