/**
 * The pipeline engine of `class Simulator` (src/simulator.cpp): the five
 * stages IF, ID, EX, MEM and WB, operand forwarding, the hazard and
 * misprediction logic of `process_control_signal`, the `ecall` dispatch of
 * `process_syscall`, and the body of the tick loop of `run_prog`.
 *
 * Each stage reads the committed (upper-case) pipeline registers and
 * produces the next-state (lower-case) value of the register after it;
 * `process_control_signal` then sets the stall and bubble bits of the
 * committed registers, and `_update` commits every register at once.
 */
module Pipeline {
  import opened Registers
  import opened Outcomes
  import opened Bits
  import Decoder
  import Alu
  import Predictor
  import Memory

  /**
   * The settings the source reads from its configuration file: whether
   * forwarding is on, and the cycle counts of the ALU operation classes and
   * of the four `ecall` services.
   */
  datatype Config = Config(
    forwarding: bool,
    addSub: nat, mul: nat, divRem: nat, bitOp: nat, slt: nat,
    cputchar: nat, sbrk: nat, readint: nat, time: nat)

  /** `alu_cycles[op]`: each ALU operation costs the cycles of its class. */
  function AluCycles(cfg: Config, op: AluOp): nat {
    match op
    case Add | Sub => cfg.addSub
    case Mul | Mulh | Mulhsu | Mulhu => cfg.mul
    case Div | Divu | Rem | Remu => cfg.divRem
    case Sll | Sra | Srl | Xor | Or | And => cfg.bitOp
    case Slt | Sltu => cfg.slt
  }

  // The `ecall` service numbers (include/syscall.h), read from a7.
  const SYS_cputchar: Word := 0
  const SYS_sbrk: Word := 1
  const SYS_readint: Word := 2
  const SYS_time: Word := 3
  const SYS_exit: Word := 93

  /** How a tick ends: the run goes on, the guest exited, or a stage raised a fault. */
  datatype Status = Running | Exited(code: Word) | Stopped(fault: Fault)

  /** `std::max` on cycle counts. */
  function Max(a: nat, b: nat): nat {
    if a < b then b else a
  }

  /** The length in bytes of an instruction. */
  function Len(compressed: bool): nat {
    if compressed then 2 else 4
  }

  /** `jalr`, `jal` and the branches carry their link value in `val2`. */
  predicate IsJump(opcode: bv8) {
    opcode == OP_JALR || opcode == OP_JAL || opcode == OP_BRANCH
  }

  /**
   * The value an instruction that does not access memory hands to write
   * back: the link value for a jump or branch, the ALU result otherwise.
   */
  function PassOn(opcode: bv8, valE: Word, val2: Word): Word {
    if IsJump(opcode) then val2 else valE
  }

  // ---------------------------------------------------------------------
  // Pipeline registers as a whole, and the commit of a tick
  // ---------------------------------------------------------------------

  /** The five committed pipeline registers `F`, `D`, `E`, `M`, `W`. */
  datatype Pipe = Pipe(F: IFReg, D: IDReg, E: EXReg, M: MEMReg, W: WBReg)

  /**
   * What holds of the committed registers between ticks: only `F` and `D`
   * are ever stalled, `F` is never a bubble, and a bubble holds the zero
   * record, so its `rd` and `opcode` are 0.
   */
  ghost predicate PipeOk(p: Pipe) {
    && !p.F.bubble && !p.E.stall && !p.M.stall && !p.W.stall
    && (p.D.bubble ==> p.D.body == IDZero)
    && (p.E.bubble ==> p.E.body == EXZero)
    && (p.M.bubble ==> p.M.body == MEMZero)
    && (p.W.bubble ==> p.W.body == WBZero)
  }

  /** The three events `process_control_signal` detects in a tick. */
  datatype Signals = Signals(mispredicted: bool, dataDependent: bool, meetJalr: bool)

  /**
   * A source register the just-decoded instruction reads is not ready:
   * with forwarding, only when the load in E writes it; without, when any
   * of E, M and W writes it. x0 never is.
   */
  predicate SourceHazard(fwd: bool, rs: RegIndex, p: Pipe) {
    rs != 0 &&
    if fwd then rs == p.E.body.d.rd && p.E.body.d.opcode == OP_LOAD
    else p.E.body.d.rd == rs || p.M.body.rd == rs || p.W.body.rd == rs
  }

  /** An `ecall` is in E, M or W. */
  predicate MeetEcall(p: Pipe) {
    p.E.body.d.opcode == OP_ECALL || p.M.body.opcode == OP_ECALL || p.W.body.opcode == OP_ECALL
  }

  /**
   * The control events of a tick, given whether the branch in E was
   * mispredicted and the record `e` ID just decoded: a data dependence (a
   * source hazard or an `ecall` ahead) and a `jalr` in ID or EX, each
   * suppressed by the events before it.
   */
  function Control(fwd: bool, mispredicted: bool, e: Decoded, p: Pipe): (s: Signals)
    ensures s.mispredicted == mispredicted
    ensures !(s.mispredicted && s.dataDependent) && !(s.mispredicted && s.meetJalr) && !(s.dataDependent && s.meetJalr)
    ensures s.dataDependent <==>
      !mispredicted && (SourceHazard(fwd, e.rs1, p) || SourceHazard(fwd, e.rs2, p) || MeetEcall(p))
    ensures s.meetJalr <==>
      !mispredicted && !s.dataDependent && (e.opcode == OP_JALR || p.E.body.d.opcode == OP_JALR)
  {
    var dd := (SourceHazard(fwd, e.rs1, p) || SourceHazard(fwd, e.rs2, p) || MeetEcall(p)) && !mispredicted;
    var jalr := (e.opcode == OP_JALR || p.E.body.d.opcode == OP_JALR) && !mispredicted && !dd;
    Signals(mispredicted, dd, jalr)
  }

  /**
   * The control bits `process_control_signal` writes on the committed
   * registers: W and M inherit the bubble bit of the register before them,
   * E becomes a bubble after a bubble in D or on either flush, D is
   * stalled on a dependence and flushed on a misprediction or a `jalr`,
   * and F is stalled on a dependence or a `jalr`.
   */
  function Mark(p: Pipe, s: Signals): Pipe {
    Pipe(
      p.F.(stall := s.dataDependent || s.meetJalr),
      p.D.(stall := s.dataDependent, bubble := s.mispredicted || s.meetJalr),
      p.E.(bubble := p.D.bubble || s.mispredicted || s.dataDependent),
      p.M.(bubble := p.E.bubble),
      p.W.(bubble := p.M.bubble))
  }

  /** The five `update` calls at the end of a tick, each taking the stage's next-state value. */
  function Commit(p: Pipe, f: IFFields, d: IDFields, e: EXFields, m: MEMFields, w: WBFields): Pipe {
    Pipe(
      Update(p.F, Plain(f), IFZero),
      Update(p.D, Plain(d), IDZero),
      Update(p.E, Plain(e), EXZero),
      Update(p.M, Plain(m), MEMZero),
      Update(p.W, Plain(w), WBZero))
  }

  /**
   * One tick's effect on the pipeline registers. A data dependence holds F
   * and D and lets a bubble into E; a `jalr` holds F and flushes D; a
   * misprediction flushes D and E; otherwise F and D advance. Bubbles move
   * down E, M, W one stage per tick. Whatever happens, the committed
   * registers keep `PipeOk`.
   */
  lemma {:induction false} NextPipe(p: Pipe, s: Signals, f: IFFields, d: IDFields, e: EXFields, m: MEMFields, w: WBFields)
    requires PipeOk(p)
    requires !(s.mispredicted && s.dataDependent) && !(s.mispredicted && s.meetJalr) && !(s.dataDependent && s.meetJalr)
    ensures var q := Commit(Mark(p, s), f, d, e, m, w);
      && PipeOk(q)
      && (s.dataDependent ==> q.F.stall && q.F.body == p.F.body && q.D.stall && q.D.body == p.D.body && q.E == Bubble(EXZero))
      && (s.meetJalr ==> q.F.stall && q.F.body == p.F.body && q.D == Bubble(IDZero))
      && (s.mispredicted ==> q.F == Plain(f) && q.D == Bubble(IDZero) && q.E == Bubble(EXZero))
      && (!s.mispredicted && !s.dataDependent && !s.meetJalr ==> q.F == Plain(f) && q.D == Plain(d))
      && q.E == (if p.D.bubble || s.mispredicted || s.dataDependent then Bubble(EXZero) else Plain(e))
      && q.M == (if p.E.bubble then Bubble(MEMZero) else Plain(m))
      && q.W == (if p.M.bubble then Bubble(WBZero) else Plain(w))
  {
    var q := Commit(Mark(p, s), f, d, e, m, w);
    if s.dataDependent {
      assert !s.mispredicted && !s.meetJalr;
      assert q.D == Mark(p, s).D && !q.D.bubble;
    }
  }

  // ---------------------------------------------------------------------
  // IF
  // ---------------------------------------------------------------------

  /**
   * The pc `IF` fetches from: the target of a `jalr` in M, the actual
   * successor of a branch in M that the previous tick found mispredicted,
   * and the predicted pc in F otherwise.
   */
  function FetchPc(F: IFReg, M: MEMReg, mispredicted: bool): (pc: Word)
    ensures M.body.opcode == OP_JALR ==> pc == M.body.valE
    ensures M.body.opcode == OP_BRANCH && mispredicted ==> pc == (if M.body.cond then M.body.valE else M.body.val2)
    ensures M.body.opcode != OP_JALR && !(M.body.opcode == OP_BRANCH && mispredicted) ==> pc == F.body.predPC
  {
    if M.body.opcode == OP_BRANCH && mispredicted then
      (if M.body.cond then M.body.valE else M.body.val2)
    else if M.body.opcode == OP_JALR then M.body.valE
    else F.body.predPC
  }

  /**
   * The pc `IF` predicts to follow the instruction `r` fetched at `pc`: a
   * branch asks the predictor to choose between its fall-through and its
   * target, a `jal` goes to its target, anything else (`jalr` included)
   * falls through.
   */
  function PredictNext(bp: Predictor.BranchPredictor, pc: Word, r: Decoded): (next: Word)
    requires bp.Valid()
    reads bp, bp.table, bp.table.bht
    ensures r.opcode == OP_BRANCH ==>
      next == Wrap(pc + Len(r.compressed)) || next == Wrap(pc + r.imm as int)
    ensures r.opcode == OP_JAL ==> next == Wrap(pc + r.imm as int)
    ensures r.opcode != OP_BRANCH && r.opcode != OP_JAL ==> next == Wrap(pc + Len(r.compressed))
  {
    if r.opcode == OP_BRANCH then bp.Predict(Wrap(pc + Len(r.compressed)), Wrap(pc + r.imm as int))
    else if r.opcode == OP_JAL then Wrap(pc + r.imm as int)
    else Wrap(pc + Len(r.compressed))
  }

  // ---------------------------------------------------------------------
  // ID and forwarding
  // ---------------------------------------------------------------------

  /**
   * `select_reg_value`: with forwarding on, a nonzero source register takes
   * the value of the nearest older instruction that writes it, the one in
   * E (its EX output `m`), then M (its MEM output `w`), then W; otherwise
   * it is read from the register file.
   */
  function SelectRegValue(fwd: bool, regs: seq<Word>, p: Pipe, m: MEMFields, w: WBFields, rs: RegIndex): Word
    requires |regs| == 32
  {
    if fwd && rs != 0 then
      if p.E.body.d.rd == rs then PassOn(p.E.body.d.opcode, m.valE, m.val2)
      else if p.M.body.rd == rs then w.val
      else if p.W.body.rd == rs then p.W.body.val
      else regs[rs]
    else regs[rs]
  }

  /**
   * The register file once an instruction writing `v` to `rd` has written
   * back: only `rd` changes, and not at all for a bubble or for x0.
   */
  function Retire(regs: seq<Word>, bubble: bool, rd: RegIndex, v: Word): (r: seq<Word>)
    requires |regs| == 32
    ensures |r| == 32
    ensures r[0] == regs[0]
  {
    if bubble || rd == 0 then regs else regs[rd as int := v]
  }

  /**
   * The register file once the instructions in W, M and E have all written
   * back, oldest first; `eVal` is what the instruction in E will write.
   */
  function Retired(regs: seq<Word>, p: Pipe, w: WBFields, eVal: Word): (r: seq<Word>)
    requires |regs| == 32
    ensures |r| == 32
  {
    var r1 := Retire(regs, p.W.bubble, p.W.body.rd, p.W.body.val);
    var r2 := Retire(r1, p.M.bubble, p.M.body.rd, w.val);
    Retire(r2, p.E.bubble, p.E.body.d.rd, eVal)
  }

  /**
   * Forwarding and the hazard rules are sound: when `process_control_signal`
   * sees no hazard on source `rs`, the value ID reads for it is the value
   * `rs` holds once every older instruction still in flight has written
   * back. This holds with and without forwarding. The instruction in E
   * writes the value `m` carries for it unless it is a load, which is
   * exactly the case the forwarding hazard rule stalls on.
   */
  lemma {:induction false} OperandIsArchitectural(fwd: bool, regs: seq<Word>, p: Pipe, m: MEMFields, w: WBFields, rs: RegIndex, eVal: Word)
    requires |regs| == 32 && regs[0] == 0 && PipeOk(p)
    requires !SourceHazard(fwd, rs, p)
    requires p.E.body.d.opcode != OP_LOAD ==> eVal == PassOn(p.E.body.d.opcode, m.valE, m.val2)
    ensures SelectRegValue(fwd, regs, p, m, w, rs) == Retired(regs, p, w, eVal)[rs]
  {
    BubbleWritesNothing(p);
    RetiredAt(regs, p, w, eVal, rs);
  }

  /** Register `rs` after W, M and E have written back: the youngest write to it wins. */
  lemma RetiredAt(regs: seq<Word>, p: Pipe, w: WBFields, eVal: Word, rs: RegIndex)
    requires |regs| == 32
    ensures Retired(regs, p, w, eVal)[rs] ==
      if !p.E.bubble && p.E.body.d.rd != 0 && p.E.body.d.rd == rs then eVal
      else if !p.M.bubble && p.M.body.rd != 0 && p.M.body.rd == rs then w.val
      else if !p.W.bubble && p.W.body.rd != 0 && p.W.body.rd == rs then p.W.body.val
      else regs[rs]
  {
    var r1 := Retire(regs, p.W.bubble, p.W.body.rd, p.W.body.val);
    var r2 := Retire(r1, p.M.bubble, p.M.body.rd, w.val);
    RetireAt(regs, p.W.bubble, p.W.body.rd, p.W.body.val, rs);
    RetireAt(r1, p.M.bubble, p.M.body.rd, w.val, rs);
    RetireAt(r2, p.E.bubble, p.E.body.d.rd, eVal, rs);
  }

  /** Register `rs` after a write-back. */
  lemma RetireAt(regs: seq<Word>, bubble: bool, rd: RegIndex, v: Word, rs: RegIndex)
    requires |regs| == 32
    ensures Retire(regs, bubble, rd, v)[rs] == if !bubble && rd != 0 && rd == rs then v else regs[rs]
  {
  }

  /** A bubble names no destination register. */
  lemma BubbleWritesNothing(p: Pipe)
    requires PipeOk(p)
    ensures p.E.bubble ==> p.E.body.d.rd == 0
    ensures p.M.bubble ==> p.M.body.rd == 0
    ensures p.W.bubble ==> p.W.body.rd == 0
  {
  }

  /**
   * `ID` on a non-bubble decode register: decodes the instruction word
   * into a zeroed record, a bad word being a decode error, and reads both
   * source operands through `SelectRegValue`.
   */
  function DecodeStage(fwd: bool, regs: seq<Word>, p: Pipe, m: MEMFields, w: WBFields): (r: Result<EXFields>)
    requires |regs| == 32
    ensures r.Err? <==> Decoder.ParseInst(p.D.body.inst, DecodedZero).Err?
    ensures r.Err? ==> r.fault == DecodeError(p.D.body.inst)
    ensures r.Ok? ==> r.value.pc == p.D.body.pc && r.value.d == Decoder.ParseInst(p.D.body.inst, DecodedZero).value
  {
    match Decoder.ParseInst(p.D.body.inst, DecodedZero)
    case Err(f) => Err(f)
    case Ok(d) =>
      Ok(EXFields(d, SelectRegValue(fwd, regs, p, m, w, d.rs1), SelectRegValue(fwd, regs, p, m, w, d.rs2), p.D.body.pc))
  }

  // ---------------------------------------------------------------------
  // EX
  // ---------------------------------------------------------------------

  /** The first ALU operand: the pc for branches, `auipc` and `jal`, `val1` otherwise. */
  function OperandA(E: EXFields): Word {
    var op := E.d.opcode;
    if op == OP_BRANCH || op == OP_AUIPC || op == OP_JAL then E.pc else E.val1
  }

  /** The second ALU operand: `val2` for register-register operations, the immediate otherwise. */
  function OperandB(E: EXFields): Word {
    var op := E.d.opcode;
    if op == OP_RR || op == OP_RRW then E.val2 else E.d.imm as int
  }

  /**
   * `sign_extend(v, bits)` read on a register value: when bit `bits-1` is
   * set, the bits from `bits` upwards are all set; otherwise the value comes
   * back unchanged, whatever it holds above bit `bits-1`.
   */
  function SignExtendWord(v: Word, bits: nat): Word
    requires 1 <= bits <= 64
  {
    Pow2AtMostTwo64(bits);
    if bits == 64 || v / Pow2(bits - 1) % 2 == 0 then v
    else v % Pow2(bits) + (Two64 - Pow2(bits))
  }

  /** `zero_extend(v, bits)` read on a register value: the low `bits` bits. */
  function ZeroExtendWord(v: Word, bits: nat): Word
    requires 1 <= bits <= 64
  {
    Pow2AtMostTwo64(bits);
    v % Pow2(bits)
  }

  /**
   * The W-suffixed operations sign-extend from bit 31 but do not clear the
   * bits above it when bit 31 is clear: `addiw` of 0 on 2^32 + 1 leaves
   * 2^32 + 1 rather than 1.
   */
  lemma WordResultKeepsHighBits()
    ensures SignExtendWord(0x1_0000_0001, 32) == 0x1_0000_0001
    ensures SignExtendWord(0x8000_0000, 32) == 0xFFFF_FFFF_8000_0000
  {
    Pow2Wide();
  }

  /**
   * `EX` on a non-bubble execute register: the ALU result in `valE`
   * (sign-extended from 32 bits for the W-suffixed operations), the link
   * value `pc + len` in `val2` for jumps and branches and `val2` passed on
   * otherwise, the branch condition, and the latency of the operation. An
   * operation the host leaves undefined is an arithmetic fault.
   */
  function ExStage(cfg: Config, E: EXFields): (r: Result<(MEMFields, nat)>)
    ensures r.Err? <==> Alu.Undefined(E.d.aluOp, OperandA(E), OperandB(E))
    ensures r.Ok? ==> var (m, cycles) := r.value;
      && m.opcode == E.d.opcode && m.funct3 == E.d.funct3 && m.rd == E.d.rd && m.pc == E.pc
      && m.val2 == (if IsJump(E.d.opcode) then Wrap(E.pc + Len(E.d.compressed)) else E.val2)
      && m.cond == (E.d.opcode == OP_BRANCH && Alu.BranchCond(E.d.funct3, E.val1, E.val2))
      && cycles == AluCycles(cfg, E.d.aluOp)
  {
    var op := E.d.opcode;
    match Alu.Execute(E.d.aluOp, OperandA(E), OperandB(E))
    case Err(f) => Err(f)
    case Ok(valE) =>
      var val2 := if IsJump(op) then Wrap(E.pc + Len(E.d.compressed)) else E.val2;
      var valE' := if op == OP_RIW || op == OP_RRW then SignExtendWord(valE, 32) else valE;
      var cond := op == OP_BRANCH && Alu.BranchCond(E.d.funct3, E.val1, E.val2);
      Ok((MEMFields(op, E.d.funct3, E.d.rd, cond, valE', val2, E.pc), AluCycles(cfg, E.d.aluOp)))
  }

  /** With the adder selected, EX succeeds and `valE` is the wrapped sum of the operands outside the W-suffixed operations. */
  lemma AddResult(cfg: Config, E: EXFields)
    requires E.d.aluOp == Add
    ensures ExStage(cfg, E).Ok?
    ensures E.d.opcode != OP_RIW && E.d.opcode != OP_RRW ==>
      ExStage(cfg, E).value.0.valE == Wrap(OperandA(E) + OperandB(E))
  {
    var a, b := OperandA(E), OperandB(E);
    var sum := Wrap(a as int + b);
    assert Alu.Execute(Add, a, b) == Ok(sum);
  }

  /**
   * The ALU result of EX for a branch, `jal` and `auipc`, given the adder
   * the decoder leaves in place for them: `pc + imm`.
   */
  lemma PcRelativeTarget(cfg: Config, E: EXFields)
    requires E.d.aluOp == Add
    ensures E.d.opcode in {OP_BRANCH, OP_JAL, OP_AUIPC} ==>
      ExStage(cfg, E).Ok? && ExStage(cfg, E).value.0.valE == Wrap(E.pc + E.d.imm as int)
  {
    AddResult(cfg, E);
  }

  /**
   * The ALU result of EX for `jalr`, loads and stores: `val1 + imm`; for
   * `jalr` the low bit of the target is not cleared.
   */
  lemma RegisterRelativeTarget(cfg: Config, E: EXFields)
    requires E.d.aluOp == Add
    ensures E.d.opcode in {OP_JALR, OP_LOAD, OP_STORE} ==>
      ExStage(cfg, E).Ok? && ExStage(cfg, E).value.0.valE == Wrap(E.val1 + E.d.imm as int)
  {
    AddResult(cfg, E);
  }

  /** The ALU result of EX for `lui` with x0 as its source: the immediate itself. */
  lemma LuiValue(cfg: Config, E: EXFields)
    requires E.d.aluOp == Add
    ensures E.d.opcode == OP_LUI && E.val1 == 0 ==>
      ExStage(cfg, E).Ok? && ExStage(cfg, E).value.0.valE == E.d.imm as int
  {
    AddResult(cfg, E);
    if E.d.opcode == OP_LUI && E.val1 == 0 {
      PatternRange(E.d.imm);
      WrapId(E.d.imm as int);
    }
  }

  // ---------------------------------------------------------------------
  // MEM
  // ---------------------------------------------------------------------

  /** The byte width of a load or store: `1 << funct3`, or `1 << (funct3 - 4)` for the unsigned loads. */
  function AccessBytes(load: bool, funct3: bv8): nat {
    if load && funct3 >= 4 then Pow2(funct3 as int - 4) else Pow2(funct3 as int)
  }

  /** Every load, and every store of `funct3` below 4, moves 1, 2, 4 or 8 bytes. */
  lemma AccessBytesRange(load: bool, funct3: bv8)
    requires funct3 < 8 && (load || funct3 < 4)
    ensures AccessBytes(load, funct3) in {1, 2, 4, 8}
    ensures funct3 % 4 == 0 ==> AccessBytes(load, funct3) == 1
    ensures funct3 % 4 == 1 ==> AccessBytes(load, funct3) == 2
    ensures funct3 % 4 == 2 ==> AccessBytes(load, funct3) == 4
    ensures funct3 % 4 == 3 ==> AccessBytes(load, funct3) == 8
  {
    var k := if load && funct3 >= 4 then funct3 as int - 4 else funct3 as int;
    assert k <= 3;
    if k == 3 {
      assert Pow2(3) == 2 * Pow2(2);
    }
  }

  /** A store whose funct3 is 4 to 7 asks `write_data` for 16 to 128 bytes. */
  lemma WideStoreBytes(funct3: bv8)
    requires 4 <= funct3 < 8
    ensures AccessBytes(false, funct3) in {16, 32, 64, 128}
  {
    assert Pow2(4) == 16 && Pow2(5) == 32 && Pow2(6) == 64 && Pow2(7) == 128 by {
      assert Pow2(2) == 4;
    }
  }

  /**
   * The value a load of `funct3` hands to write back: the loaded bytes
   * sign-extended from their width for `lb`/`lh`/`lw`/`ld`, zero-extended
   * for the unsigned forms.
   */
  function ExtendLoad(funct3: bv8, v: Word): Word
    requires funct3 < 8
  {
    AccessBytesRange(true, funct3);
    var bits := 8 * AccessBytes(true, funct3);
    if funct3 < 4 then SignExtendWord(v, bits) else ZeroExtendWord(v, bits)
  }

  /**
   * On a value that fits in `bits` bits, zero extension changes nothing and
   * sign extension yields the register whose signed reading is the
   * two's-complement value of those bits.
   */
  lemma {:induction false} ExtendFits(v: Word, bits: nat)
    requires 1 <= bits <= 64 && v < Pow2(bits)
    ensures ZeroExtendWord(v, bits) == v
    ensures Signed(SignExtendWord(v, bits)) == if v < Pow2(bits - 1) then v else v - Pow2(bits)
  {
    var h, p := Pow2(bits - 1), Pow2(bits);
    assert p == 2 * h;
    Pow2AtMostTwo64(bits);
    assert h <= Two63;
    DivModUnique(v, p, 0, v);
    if bits == 64 {
      Pow2Wide();
    } else if v < h {
      DivModUnique(v, h, 0, v);
    } else {
      DivModUnique(v, h, 1, v - h);
      assert SignExtendWord(v, bits) == v + (Two64 - p);
    }
  }

  /**
   * For the `8n` bits a load of `n` bytes delivers, an unsigned load keeps
   * the value and a signed one yields the register whose signed reading is
   * the two's-complement value of those bits.
   */
  lemma {:induction false} LoadedValue(funct3: bv8, v: Word)
    requires funct3 < 8 && v < Pow2(8 * AccessBytes(true, funct3))
    ensures funct3 >= 4 ==> ExtendLoad(funct3, v) == v
    ensures funct3 < 4 ==> var bits := 8 * AccessBytes(true, funct3);
      Signed(ExtendLoad(funct3, v)) == if v < Pow2(bits - 1) then v else v - Pow2(bits)
  {
    AccessBytesRange(true, funct3);
    ExtendFits(v, 8 * AccessBytes(true, funct3));
  }

  /**
   * What `MEM` hands to write back for a non-bubble M, given the page
   * table and frames it accesses: a load's extended value, nothing for a
   * store, the link value or ALU result otherwise. A load or store faults
   * on the first unmapped byte. A store of 16 to 128 bytes (`funct3` 4 to
   * 7) is the `WideStore` of `write_data`; a load or store whose `funct3`
   * no decoded instruction carries is an undefined access.
   */
  function MemOutcome(pt: Memory.PageTable, phys: seq<Memory.Byte>, M: MEMFields): (r: Result<WBFields>)
    requires Memory.TableOk(pt, |phys|)
    ensures r.Ok? ==> r.value.opcode == M.opcode && r.value.rd == M.rd
    ensures M.opcode == OP_LOAD && M.funct3 < 8 ==>
      (r.Ok? <==> Memory.LoadFrom(pt, phys, M.valE, 0, AccessBytes(true, M.funct3)).Ok?)
    ensures M.opcode == OP_STORE && M.funct3 < 4 ==> (r.Ok? <==> Memory.Probe(pt, M.valE, 0, AccessBytes(false, M.funct3)).Ok?)
    ensures M.opcode == OP_STORE && 4 <= M.funct3 < 8 ==>
      (r.Ok? <==> Memory.PageOffset(M.valE) + AccessBytes(false, M.funct3) <= Memory.PGSIZE && Memory.PageBase(M.valE) in pt)
    ensures M.opcode == OP_STORE && M.funct3 >= 8 ==> r.Err?
    ensures M.opcode == OP_STORE && r.Ok? ==> r.value.val == 0
    ensures M.opcode != OP_LOAD && M.opcode != OP_STORE ==> r.Ok? && r.value.val == PassOn(M.opcode, M.valE, M.val2)
  {
    if M.opcode == OP_LOAD then
      if M.funct3 >= 8 then Err(UndefinedAccess(M.valE))
      else
        AccessBytesRange(true, M.funct3);
        var n := AccessBytes(true, M.funct3);
        match Memory.LoadFrom(pt, phys, M.valE, 0, n)
        case Err(f) => Err(f)
        case Ok(v) =>
          Memory.LoadFits(pt, phys, M.valE, n);
          Ok(WBFields(M.opcode, M.rd, ExtendLoad(M.funct3, v)))
    else if M.opcode == OP_STORE then
      if M.funct3 >= 8 then Err(UndefinedAccess(M.valE))
      else if M.funct3 >= 4 then
        WideStoreBytes(M.funct3);
        match Memory.WideStore(pt, M.valE, AccessBytes(false, M.funct3))
        case Err(f) => Err(f)
        case Ok(_) => Ok(WBFields(M.opcode, M.rd, 0))
      else
        match Memory.Probe(pt, M.valE, 0, AccessBytes(false, M.funct3))
        case Err(f) => Err(f)
        case Ok(_) => Ok(WBFields(M.opcode, M.rd, 0))
    else Ok(WBFields(M.opcode, M.rd, PassOn(M.opcode, M.valE, M.val2)))
  }

  /**
   * The frames after `MEM`: a store of `2^funct3` bytes writes the low
   * bytes of `val2` at `valE`, little-endian, and a wider one changes only
   * what `WidePhys` says; nothing else writes memory.
   */
  function MemPhys(pt: Memory.PageTable, phys: seq<Memory.Byte>, M: MEMFields): (r: seq<Memory.Byte>)
    requires Memory.TableOk(pt, |phys|)
    ensures |r| == |phys|
    ensures !(M.opcode == OP_STORE && M.funct3 < 8) ==> r == phys
    ensures M.opcode == OP_STORE && 4 <= M.funct3 < 8 && MemOutcome(pt, phys, M).Ok? ==> r == phys
  {
    if M.opcode == OP_STORE && M.funct3 < 4 then
      Memory.StoreFrom(pt, phys, M.valE, Memory.LeBytes(M.val2, AccessBytes(false, M.funct3)), 0)
    else if M.opcode == OP_STORE && M.funct3 < 8 then
      WideStoreBytes(M.funct3);
      Memory.WidePhys(pt, phys, M.valE, M.val2, AccessBytes(false, M.funct3))
    else phys
  }

  /**
   * A store that succeeds, then the unsigned load of the same width from
   * the same address, gives back the stored value cut to that width
   * (all of it for `sd` followed by `ld`).
   */
  lemma {:induction false} StoreThenLoad(pt: Memory.PageTable, phys: seq<Memory.Byte>, st: MEMFields, ld: MEMFields)
    requires Memory.TableOk(pt, |phys|)
    requires st.opcode == OP_STORE && st.funct3 < 4 && MemOutcome(pt, phys, st).Ok?
    requires ld.opcode == OP_LOAD && ld.valE == st.valE && (ld.funct3 == st.funct3 + 4 || ld.funct3 == st.funct3 == 3)
    ensures var after := MemPhys(pt, phys, st); |after| == |phys| && MemOutcome(pt, after, ld).Ok?
    ensures MemOutcome(pt, MemPhys(pt, phys, st), ld).value.val == st.val2 % Pow2(8 * AccessBytes(false, st.funct3))
  {
    var n := AccessBytes(false, st.funct3);
    AccessBytesRange(false, st.funct3);
    AccessBytesRange(true, ld.funct3);
    assert AccessBytes(true, ld.funct3) == n;
    Memory.StoreLoadRoundTrip(pt, phys, st.valE, st.val2, n);
    var v := st.val2 % Pow2(8 * n);
    Pow2AtMostTwo64(8 * n);
    ExtendFits(v, 8 * n);
    if ld.funct3 == 3 {
      Pow2Wide();
    }
  }

  /**
   * `IF` from `pc`: the four bytes there (a fault if unmapped), decoded
   * into a zeroed record (a fault if not an instruction) to predict the
   * next pc, and the word with its pc for `ID`.
   */
  function Fetched(bp: Predictor.BranchPredictor, pt: Memory.PageTable, phys: seq<Memory.Byte>, pc: Word): (r: Result<(IFFields, IDFields)>)
    requires bp.Valid() && Memory.TableOk(pt, |phys|)
    reads bp, bp.table, bp.table.bht
    ensures Memory.FetchAt(pt, phys, pc).Err? ==> r == Err(Memory.FetchAt(pt, phys, pc).fault)
    ensures Memory.FetchAt(pt, phys, pc).Ok? ==> var inst := Memory.FetchAt(pt, phys, pc).value as bv32;
      && (r.Err? <==> Decoder.ParseInst(inst, DecodedZero).Err?)
      && (r.Err? ==> r.fault == DecodeError(inst))
      && (r.Ok? ==> r.value == (IFFields(PredictNext(bp, pc, Decoder.ParseInst(inst, DecodedZero).value)), IDFields(inst, pc)))
  {
    match Memory.FetchAt(pt, phys, pc)
    case Err(f) => Err(f)
    case Ok(word) =>
      var inst := word as bv32;
      match Decoder.ParseInst(inst, DecodedZero)
      case Err(f) => Err(f)
      case Ok(dec) => Ok((IFFields(PredictNext(bp, pc, dec)), IDFields(inst, pc)))
  }

  /** The memory system's validity rests on it and its caches alone. */
  twostate lemma MemoryKept(ms: Memory.MemorySystem)
    requires old(ms.Valid()) && unchanged(ms) && unchanged(ms.Hier)
    ensures ms.Valid()
  {
  }

  /**
   * The statistics `run_prog` keeps: `tick`, `instruction_count`,
   * `total_branch`, `correct_branch`, and the counts of mispredictions,
   * `jalr` waits and data dependences.
   */
  datatype Stats = Stats(
    tick: nat, instructions: nat, totalBranch: nat, correctBranch: nat,
    mispredictedTime: nat, meetJalrTime: nat, dataDependentTime: nat)

  /** The counting at the end of `process_control_signal`: each event counter counts its signal. */
  function CountSignals(st: Stats, s: Signals): Stats {
    st.(mispredictedTime := st.mispredictedTime + (if s.mispredicted then 1 else 0),
        meetJalrTime := st.meetJalrTime + (if s.meetJalr then 1 else 0),
        dataDependentTime := st.dataDependentTime + (if s.dataDependent then 1 else 0))
  }

  /**
   * The counting of the tick loop after the control signals: a branch in E
   * counts, and counts as correct unless mispredicted; an instruction
   * retires when W is neither stalled nor a bubble; `tick` grows by the
   * slowest stage's cycles.
   */
  function CountTick(st: Stats, branch: bool, mispredicted: bool, retired: bool, cycles: nat): Stats {
    st.(totalBranch := st.totalBranch + (if branch then 1 else 0),
        correctBranch := st.correctBranch + (if branch && !mispredicted then 1 else 0),
        instructions := st.instructions + (if retired then 1 else 0),
        tick := st.tick + cycles)
  }

  /**
   * `process_syscall` from the registers `regs` and heap pointer `hp`: the
   * service number in a7 decides the run's status, the byte `cputchar`
   * prints, and the registers and heap pointer after it. `exit` ends the
   * run with the status in a0; `sbrk` returns the old break in a0 and
   * moves the break by a1; `readint` and `time` put the integer read and
   * the clock in a0; any other number is a fault.
   */
  predicate SyscallEffect(regs: seq<Word>, hp: Word, input: int, now: Word,
                          status: Status, printed: Option<Memory.Byte>, regs': seq<Word>, hp': Word)
    requires |regs| == 32
  {
    var a7 := regs[REG_A7];
    if a7 == SYS_exit then
      status == Exited(regs[REG_A0]) && printed == None && regs' == regs && hp' == hp
    else if a7 == SYS_cputchar then
      status == Running && printed == Some(regs[REG_A1] % 256) && regs' == regs && hp' == hp
    else if a7 == SYS_sbrk then
      status == Running && printed == None && regs' == regs[REG_A0 := hp] && hp' == Wrap(hp + regs[REG_A1])
    else if a7 == SYS_readint then
      status == Running && printed == None && regs' == regs[REG_A0 := Wrap(input)] && hp' == hp
    else if a7 == SYS_time then
      status == Running && printed == None && regs' == regs[REG_A0 := now] && hp' == hp
    else
      status == Stopped(UnsupportedSyscall(a7)) && printed == None && regs' == regs && hp' == hp
  }

  /** `ecall_cycles[a7]` for the services that return. */
  function SyscallCycles(cfg: Config, a7: Word): nat {
    if a7 == SYS_cputchar then cfg.cputchar
    else if a7 == SYS_sbrk then cfg.sbrk
    else if a7 == SYS_readint then cfg.readint
    else if a7 == SYS_time then cfg.time
    else 0
  }

  /** The frames after `MEM`: as `MemPhys` says, or unchanged for a bubble in M. */
  function AfterMem(pt: Memory.PageTable, phys: seq<Memory.Byte>, M: MEMReg): (r: seq<Memory.Byte>)
    requires Memory.TableOk(pt, |phys|)
    ensures |r| == |phys|
    ensures M.bubble ==> r == phys
  {
    if M.bubble then phys else MemPhys(pt, phys, M.body)
  }

  /** Neither `MEM` (on the frames before the tick) nor `EX` faults. */
  predicate BackClear(cfg: Config, pt: Memory.PageTable, phys: seq<Memory.Byte>, p: Pipe)
    requires Memory.TableOk(pt, |phys|)
  {
    && (p.M.bubble || MemOutcome(pt, phys, p.M.body).Ok?)
    && (p.E.bubble || ExStage(cfg, p.E.body).Ok?)
  }

  /** Neither `ID` nor `IF` (at the fetch address, on the frames after `MEM`) faults. */
  predicate FrontClear(bp: Predictor.BranchPredictor, pt: Memory.PageTable, phys: seq<Memory.Byte>, p: Pipe, mispredicted: bool)
    requires bp.Valid() && Memory.TableOk(pt, |phys|)
    reads bp, bp.table, bp.table.bht
  {
    && (p.D.bubble || Decoder.ParseInst(p.D.body.inst, DecodedZero).Ok?)
    && Fetched(bp, pt, AfterMem(pt, phys, p.M), FetchPc(p.F, p.M, mispredicted)).Ok?
  }

  /** The simulator's objects stay in place while only its own fields change. */
  twostate lemma FrameKept(sim: Simulator)
    requires old(sim.Frame())
    requires unchanged(sim.reg, sim.predictor, sim.predictor.table, sim.predictor.table.bht, sim.mem) && unchanged(sim.mem.Hier)
    ensures sim.Frame()
  {
  }

  // ---------------------------------------------------------------------
  // WB and the simulator
  // ---------------------------------------------------------------------

  /** `class Simulator`: the configuration, the pipeline registers, the register file and the memory system. */
  class Simulator {
    const cfg: Config
    const predictor: Predictor.BranchPredictor
    const mem: Memory.MemorySystem
    /** `reg`, the 32 integer registers. */
    const reg: array<Word>
    /** `F`, `D`, `E`, `M`, `W`: the committed pipeline registers. */
    var pipe: Pipe
    /** Whether the branch resolved in the previous tick was mispredicted. */
    var mispredicted: bool
    var stats: Stats

    /**
     * The objects are in place: 32 registers with x0 reading 0, a valid
     * predictor and memory system, and no object shared between them.
     */
    ghost predicate Frame()
      reads reg, predictor, predictor.table, predictor.table.bht, mem, mem.Hier
    {
      && reg.Length == 32 && reg[0] == 0
      && predictor.Valid() && mem.Valid()
      && this !in mem.Hier && reg !in mem.Hier && predictor !in mem.Hier
      && predictor.table !in mem.Hier && predictor.table.bht !in mem.Hier
    }

    ghost predicate Valid()
      reads this, reg, predictor, predictor.table, predictor.table.bht, mem, mem.Hier
    {
      Frame() && PipeOk(pipe)
    }

    /**
     * The state `run_prog` starts from, given a memory system already
     * holding the program and its stack and the entry pc: every register
     * zero, F holding the entry pc, D to W bubbles, no misprediction and
     * every counter zero.
     */
    constructor (cfg: Config, predictor: Predictor.BranchPredictor, mem: Memory.MemorySystem, entry: Word)
      requires predictor.Valid() && mem.Valid()
      requires predictor !in mem.Hier && predictor.table !in mem.Hier && predictor.table.bht !in mem.Hier
      ensures Valid() && fresh(reg)
      ensures this.cfg == cfg && this.predictor == predictor && this.mem == mem
      ensures reg[..] == seq(32, _ => 0)
      ensures pipe == Pipe(Plain(IFFields(entry)), Bubble(IDZero), Bubble(EXZero), Bubble(MEMZero), Bubble(WBZero))
      ensures !mispredicted
      ensures stats == Stats(0, 0, 0, 0, 0, 0, 0)
    {
      this.cfg, this.predictor, this.mem := cfg, predictor, mem;
      reg := new Word[32](_ => 0);
      pipe := Pipe(Plain(IFFields(entry)), Bubble(IDZero), Bubble(EXZero), Bubble(MEMZero), Bubble(WBZero));
      mispredicted := false;
      stats := Stats(0, 0, 0, 0, 0, 0, 0);
    }

    /**
     * `WB`: a non-bubble W writes its value to its destination register,
     * unless that is x0, and takes one cycle.
     */
    method WriteBack() returns (cycles: nat)
      requires Frame()
      modifies reg
      ensures Frame()
      ensures reg[..] == Retire(old(reg[..]), pipe.W.bubble, pipe.W.body.rd, pipe.W.body.val)
      ensures cycles == if pipe.W.bubble then 0 else 1
    {
      if pipe.W.bubble {
        return 0;
      }
      if pipe.W.body.rd != 0 {
        reg[pipe.W.body.rd] := pipe.W.body.val;
      }
      return 1;
    }
  
    /**
     * `MEM`: a bubble in M does nothing and leaves `w` the zero record;
     * otherwise `w` is what `MemOutcome` gives for the frames before the
     * access, and a store writes memory as `MemPhys` says. The cycles are
     * those the memory system charges, or one for an instruction that does
     * not access memory.
     */
    method MemoryAccess() returns (r: Result<(nat, WBFields)>)
      requires Frame()
      modifies mem, mem.Hier
      ensures Frame()
      ensures mem.pageTable == old(mem.pageTable) && mem.heapPointer == old(mem.heapPointer)
      ensures mem.phys == if pipe.M.bubble then old(mem.phys) else MemPhys(old(mem.pageTable), old(mem.phys), pipe.M.body)
      ensures pipe.M.bubble ==> r == Ok((0, WBZero))
      ensures !pipe.M.bubble ==> match MemOutcome(old(mem.pageTable), old(mem.phys), pipe.M.body)
        case Err(fault) => r == Err(fault)
        case Ok(wb) => r.Ok? && r.value.1 == wb
      ensures !pipe.M.bubble && pipe.M.body.opcode != OP_LOAD && pipe.M.body.opcode != OP_STORE ==> r.Ok? && r.value.0 == 1
    {
      if pipe.M.bubble {
        return Ok((0, WBZero));
      }
      var mb := pipe.M.body;
      if mb.opcode == OP_LOAD {
        if mb.funct3 >= 8 {
          return Err(UndefinedAccess(mb.valE));
        }
        AccessBytesRange(true, mb.funct3);
        var v, cycles := mem.ReadData(mb.valE, AccessBytes(true, mb.funct3));
        if v.Err? {
          return Err(v.fault);
        }
        Memory.LoadFits(mem.pageTable, mem.phys, mb.valE, AccessBytes(true, mb.funct3));
        r := Ok((cycles, WBFields(mb.opcode, mb.rd, ExtendLoad(mb.funct3, v.value))));
      } else if mb.opcode == OP_STORE {
        if mb.funct3 >= 8 {
          return Err(UndefinedAccess(mb.valE));
        }
        if mb.funct3 < 4 {
          AccessBytesRange(false, mb.funct3);
        } else {
          WideStoreBytes(mb.funct3);
        }
        var u, cycles := mem.WriteData(mb.valE, mb.val2, AccessBytes(false, mb.funct3));
        if u.Err? {
          return Err(u.fault);
        }
        r := Ok((cycles, WBFields(mb.opcode, mb.rd, 0)));
      } else {
        r := Ok((1, WBFields(mb.opcode, mb.rd, PassOn(mb.opcode, mb.valE, mb.val2))));
      }
    }

    /**
     * `IF`: fetches at `FetchPc` from memory as it stands after `MEM`; `f`
     * receives the predicted next pc and `d` the word and its pc. The
     * cycles are those `read_inst` charges.
     */
    method Fetch() returns (r: Result<(nat, IFFields, IDFields)>)
      requires Frame()
      modifies mem, mem.Hier
      ensures Frame()
      ensures mem.pageTable == old(mem.pageTable) && mem.phys == old(mem.phys) && mem.heapPointer == old(mem.heapPointer)
      ensures match old(Fetched(predictor, mem.pageTable, mem.phys, FetchPc(pipe.F, pipe.M, mispredicted)))
        case Err(fault) => r == Err(fault)
        case Ok(x) => r.Ok? && r.value.1 == x.0 && r.value.2 == x.1
    {
      var pc := FetchPc(pipe.F, pipe.M, mispredicted);
      // What the word at pc decodes to and predicts; `ReadInst` reads
      // that same word and charges the cycles.
      var x := Fetched(predictor, mem.pageTable, mem.phys, pc);
      var word, cycles := mem.ReadInst(pc);
      if word.Err? {
        return Err(word.fault);
      }
      if x.Err? {
        return Err(x.fault);
      }
      r := Ok((cycles, x.value.0, x.value.1));
    }

    /**
     * `process_syscall`: what `SyscallEffect` says, with `sbrk` mapping the
     * pages `HeapGrown` describes and every other service leaving memory
     * alone. `input` and `now` are what the console and the clock supply.
     */
    method Syscall(input: int, now: Word) returns (status: Status, printed: Option<Memory.Byte>, cycles: nat)
      requires Frame()
      requires -0x8000_0000 <= input < 0x8000_0000
      modifies reg, mem
      ensures Frame()
      ensures SyscallEffect(old(reg[..]), old(mem.heapPointer), input, now, status, printed, reg[..], mem.heapPointer)
      ensures cycles == SyscallCycles(cfg, old(reg[REG_A7]))
      ensures old(reg[REG_A7]) == SYS_sbrk ==>
        Memory.HeapGrown(old(mem.pageTable), old(mem.phys), old(mem.heapPointer), old(reg[REG_A1]), mem.pageTable, mem.phys)
      ensures old(reg[REG_A7]) != SYS_sbrk ==> mem.pageTable == old(mem.pageTable) && mem.phys == old(mem.phys)
    {
      var a1 := reg[REG_A1];
      var a7 := reg[REG_A7];
      printed := None;
      cycles := 0;
      status := Running;
      if a7 == SYS_exit {
        status := Exited(reg[REG_A0]);
      } else if a7 == SYS_cputchar {
        printed := Some(a1 % 256);
        cycles := cfg.cputchar;
      } else if a7 == SYS_sbrk {
        var hp := mem.Sbrk(a1);
        reg[REG_A0] := hp;
        cycles := cfg.sbrk;
      } else if a7 == SYS_readint {
        reg[REG_A0] := Wrap(input);
        cycles := cfg.readint;
      } else if a7 == SYS_time {
        reg[REG_A0] := now;
        cycles := cfg.time;
      } else {
        status := Stopped(UnsupportedSyscall(a7));
      }
    }

    /**
     * `process_control_signal`, given the record `e` ID decoded and the
     * record `m` EX computed this tick: a branch in E is mispredicted when
     * the predictor, asked with its fall-through `m.val2` and target
     * `m.valE`, names a pc other than the one the branch took, and the
     * predictor is told the outcome; the control signals are `Control`'s,
     * the committed registers are marked as `Mark` says, and the three
     * event counters count the signals.
     */
    method ProcessControl(e: Decoded, m: MEMFields) returns (s: Signals)
      requires Frame()
      modifies this, predictor.table.bht
      ensures Frame()
      ensures s == Control(cfg.forwarding,
        old(pipe.E.body.d.opcode == OP_BRANCH && predictor.Predict(m.val2, m.valE) != (if m.cond then m.valE else m.val2)),
        e, old(pipe))
      ensures mispredicted == s.mispredicted
      ensures pipe == Mark(old(pipe), s)
      ensures old(pipe.E.body.d.opcode) == OP_BRANCH && predictor.kind == Predictor.HistoryTable ==>
        predictor.table.bht[..] == old(predictor.table.bht[..])[Predictor.Index(m.val2) := Predictor.Saturate(old(predictor.table.bht[Predictor.Index(m.val2)]), m.cond)]
      ensures !(old(pipe.E.body.d.opcode) == OP_BRANCH && predictor.kind == Predictor.HistoryTable) ==>
        predictor.table.bht[..] == old(predictor.table.bht[..])
      ensures stats == CountSignals(old(stats), s)
    {
      var miss := false;
      if pipe.E.body.d.opcode == OP_BRANCH {
        miss := ResolveBranch(predictor, m.val2, m.valE, m.cond);
      }
      s := Control(cfg.forwarding, miss, e, pipe);
      Signal(s);
    }

    /**
     * WB, MEM and EX, in that order, the first fault ending the tick: the
     * registers take W's write, memory takes M's store, and `w` and `m`
     * are what `MemOutcome` and `ExStage` give, or zero records for
     * bubbles; `cycles` is the slowest stage's.
     */
    method BackStages() returns (r: Result<(nat, MEMFields, WBFields)>)
      requires Frame()
      modifies reg, mem, mem.Hier
      ensures Frame()
      ensures reg[..] == Retire(old(reg[..]), pipe.W.bubble, pipe.W.body.rd, pipe.W.body.val)
      ensures mem.pageTable == old(mem.pageTable) && mem.heapPointer == old(mem.heapPointer)
      ensures mem.phys == if pipe.M.bubble then old(mem.phys) else MemPhys(old(mem.pageTable), old(mem.phys), pipe.M.body)
      ensures !pipe.M.bubble && MemOutcome(old(mem.pageTable), old(mem.phys), pipe.M.body).Err? ==>
        r == Err(MemOutcome(old(mem.pageTable), old(mem.phys), pipe.M.body).fault)
      ensures (pipe.M.bubble || MemOutcome(old(mem.pageTable), old(mem.phys), pipe.M.body).Ok?) && !pipe.E.bubble && ExStage(cfg, pipe.E.body).Err? ==>
        r == Err(ExStage(cfg, pipe.E.body).fault)
      ensures old(BackClear(cfg, mem.pageTable, mem.phys, pipe)) ==> r.Ok?
      ensures r.Ok? ==>
        && (pipe.M.bubble ==> r.value.2 == WBZero)
        && (!pipe.M.bubble ==> MemOutcome(old(mem.pageTable), old(mem.phys), pipe.M.body) == Ok(r.value.2))
        && (pipe.E.bubble ==> r.value.1 == MEMZero)
        && (!pipe.E.bubble ==> ExStage(cfg, pipe.E.body).Ok? && ExStage(cfg, pipe.E.body).value.0 == r.value.1)
        && (!pipe.E.bubble ==> r.value.0 >= ExStage(cfg, pipe.E.body).value.1)
        && (!pipe.W.bubble ==> r.value.0 >= 1)
    {
      var cycles := WriteBack();
      var mr := MemoryAccess();
      if mr.Err? {
        return Err(mr.fault);
      }
      var m := MEMZero;
      cycles := Max(cycles, mr.value.0);
      if !pipe.E.bubble {
        var x := ExStage(cfg, pipe.E.body);
        if x.Err? {
          return Err(x.fault);
        }
        cycles, m := Max(cycles, x.value.1), x.value.0;
      }
      r := Ok((cycles, m, mr.value.1));
    }

    /**
     * ID and IF, given this tick's `m` and `w`: `e` is what `DecodeStage`
     * gives for the registers as they stand, or the zero record for a
     * bubble, and `f` and `d` are what `Fetched` gives for memory as it
     * stands; a decode or fetch fault ends the tick. Memory keeps its
     * contents.
     */
    method FrontStages(m: MEMFields, w: WBFields) returns (r: Result<(nat, EXFields, IFFields, IDFields)>)
      requires Frame()
      modifies mem, mem.Hier
      ensures Frame()
      ensures mem.pageTable == old(mem.pageTable) && mem.phys == old(mem.phys) && mem.heapPointer == old(mem.heapPointer)
      ensures !pipe.D.bubble && DecodeStage(cfg.forwarding, reg[..], pipe, m, w).Err? ==>
        r == Err(DecodeStage(cfg.forwarding, reg[..], pipe, m, w).fault)
      ensures (pipe.D.bubble || DecodeStage(cfg.forwarding, reg[..], pipe, m, w).Ok?)
        && old(Fetched(predictor, mem.pageTable, mem.phys, FetchPc(pipe.F, pipe.M, mispredicted))).Err?
        ==> r == Err(old(Fetched(predictor, mem.pageTable, mem.phys, FetchPc(pipe.F, pipe.M, mispredicted))).fault)
      ensures (pipe.D.bubble || DecodeStage(cfg.forwarding, reg[..], pipe, m, w).Ok?)
        && old(Fetched(predictor, mem.pageTable, mem.phys, FetchPc(pipe.F, pipe.M, mispredicted))).Ok?
        ==> r.Ok?
      ensures r.Ok? ==>
        && (pipe.D.bubble ==> r.value.1 == EXZero)
        && (!pipe.D.bubble ==> DecodeStage(cfg.forwarding, reg[..], pipe, m, w) == Ok(r.value.1))
        && old(Fetched(predictor, mem.pageTable, mem.phys, FetchPc(pipe.F, pipe.M, mispredicted))) == Ok((r.value.2, r.value.3))
    {
      var cycles := 0;
      var e := EXZero;
      if !pipe.D.bubble {
        var x := DecodeStage(cfg.forwarding, reg[..], pipe, m, w);
        if x.Err? {
          return Err(x.fault);
        }
        cycles, e := 1, x.value;
      }
      var fr := Fetch();
      if fr.Err? {
        return Err(fr.fault);
      }
      r := Ok((Max(cycles, fr.value.0), e, fr.value.1, fr.value.2));
    }

    /**
     * The stages of one iteration of the loop of `run_prog`: WB, MEM, EX,
     * ID and IF in that order, then the `ecall` in W if there is one. A
     * fault or an `exit` ends the tick there. On a tick that runs through,
     * `w`, `m`, `e`, `f` and `d` are what `MemOutcome`, `ExStage`,
     * `DecodeStage` (on the registers after WB) and `Fetched` (on memory
     * after MEM) give, or zero records for bubbles.
     */
    method RunStages(input: int, now: Word)
      returns (status: Status, printed: Option<Memory.Byte>, cycles: nat,
               f: IFFields, d: IDFields, e: EXFields, m: MEMFields, w: WBFields)
      requires Frame()
      requires -0x8000_0000 <= input < 0x8000_0000
      modifies reg, mem, mem.Hier
      ensures Frame()
      ensures !pipe.M.bubble && MemOutcome(old(mem.pageTable), old(mem.phys), pipe.M.body).Err? ==>
        status == Stopped(MemOutcome(old(mem.pageTable), old(mem.phys), pipe.M.body).fault)
      ensures ((pipe.M.bubble || MemOutcome(old(mem.pageTable), old(mem.phys), pipe.M.body).Ok?)
        && !pipe.E.bubble && ExStage(cfg, pipe.E.body).Err?)
        ==> status == Stopped(ExStage(cfg, pipe.E.body).fault)
      ensures (old(BackClear(cfg, mem.pageTable, mem.phys, pipe))
        && !pipe.D.bubble && Decoder.ParseInst(pipe.D.body.inst, DecodedZero).Err?)
        ==> status == Stopped(DecodeError(pipe.D.body.inst))
      ensures (old(BackClear(cfg, mem.pageTable, mem.phys, pipe))
        && (pipe.D.bubble || Decoder.ParseInst(pipe.D.body.inst, DecodedZero).Ok?)
        && old(Fetched(predictor, mem.pageTable, AfterMem(mem.pageTable, mem.phys, pipe.M), FetchPc(pipe.F, pipe.M, mispredicted))).Err?)
        ==> status == Stopped(old(Fetched(predictor, mem.pageTable, AfterMem(mem.pageTable, mem.phys, pipe.M), FetchPc(pipe.F, pipe.M, mispredicted))).fault)
      ensures !pipe.E.bubble && ExStage(cfg, pipe.E.body).Err? ==> status.Stopped?
      ensures !pipe.D.bubble && Decoder.ParseInst(pipe.D.body.inst, DecodedZero).Err? ==> status.Stopped?
      ensures old(Fetched(predictor, mem.pageTable, AfterMem(mem.pageTable, mem.phys, pipe.M), FetchPc(pipe.F, pipe.M, mispredicted))).Err? ==> status.Stopped?
      ensures pipe.W.body.opcode != OP_ECALL ==> printed == None && !status.Exited?
      ensures (old(BackClear(cfg, mem.pageTable, mem.phys, pipe) && FrontClear(predictor, mem.pageTable, mem.phys, pipe, mispredicted))
        && pipe.W.body.opcode != OP_ECALL)
        ==> status == Running
      ensures (old(BackClear(cfg, mem.pageTable, mem.phys, pipe) && FrontClear(predictor, mem.pageTable, mem.phys, pipe, mispredicted))
        && pipe.W.body.opcode == OP_ECALL)
        ==>
        var regs := Retire(old(reg[..]), pipe.W.bubble, pipe.W.body.rd, pipe.W.body.val);
        var after := old(AfterMem(mem.pageTable, mem.phys, pipe.M));
        && SyscallEffect(regs, old(mem.heapPointer), input, now, status, printed, reg[..], mem.heapPointer)
        && (regs[REG_A7] == SYS_sbrk ==> Memory.HeapGrown(old(mem.pageTable), after, old(mem.heapPointer), regs[REG_A1], mem.pageTable, mem.phys))
        && (regs[REG_A7] != SYS_sbrk ==> mem.pageTable == old(mem.pageTable) && mem.phys == after)
      ensures status == Running ==>
        && (pipe.M.bubble ==> w == WBZero)
        && (!pipe.M.bubble ==> MemOutcome(old(mem.pageTable), old(mem.phys), pipe.M.body) == Ok(w))
        && (pipe.E.bubble ==> m == MEMZero)
        && (!pipe.E.bubble ==> ExStage(cfg, pipe.E.body).Ok? && ExStage(cfg, pipe.E.body).value.0 == m)
        && (pipe.D.bubble ==> e == EXZero)
        && (!pipe.D.bubble ==> DecodeStage(cfg.forwarding, Retire(old(reg[..]), pipe.W.bubble, pipe.W.body.rd, pipe.W.body.val), pipe, m, w) == Ok(e))
        && old(Fetched(predictor, mem.pageTable, AfterMem(mem.pageTable, mem.phys, pipe.M), FetchPc(pipe.F, pipe.M, mispredicted))) == Ok((f, d))
      ensures status == Running && pipe.W.body.opcode != OP_ECALL ==>
        && reg[..] == Retire(old(reg[..]), pipe.W.bubble, pipe.W.body.rd, pipe.W.body.val)
        && mem.pageTable == old(mem.pageTable) && mem.heapPointer == old(mem.heapPointer)
        && mem.phys == old(AfterMem(mem.pageTable, mem.phys, pipe.M))
    {
      printed, cycles := None, 0;
      f, d, e, m, w := IFZero, IDZero, EXZero, MEMZero, WBZero;
      ghost var fetched := Fetched(predictor, mem.pageTable, AfterMem(mem.pageTable, mem.phys, pipe.M), FetchPc(pipe.F, pipe.M, mispredicted));
      var back := BackStages();
      assert Fetched(predictor, mem.pageTable, mem.phys, FetchPc(pipe.F, pipe.M, mispredicted)) == fetched;
      if back.Err? {
        return Stopped(back.fault), printed, cycles, f, d, e, m, w;
      }
      cycles, m, w := back.value.0, back.value.1, back.value.2;
      var front := FrontStages(m, w);
      if front.Err? {
        return Stopped(front.fault), printed, cycles, f, d, e, m, w;
      }
      cycles, e, f, d := Max(cycles, front.value.0), front.value.1, front.value.2, front.value.3;
      status := Running;
      if pipe.W.body.opcode == OP_ECALL {
        var sc;
        status, printed, sc := Syscall(input, now);
        cycles := Max(cycles, sc);
      }
    }

    /**
     * The rest of a tick that ran through its stages with the next-state
     * values `f` to `w` and `cycles` the slowest stage's:
     * `process_control_signal`, the branch counters (a branch in E counts,
     * and counts as correct unless mispredicted), the instruction counter
     * (one retires when W, after the control signals, is neither stalled
     * nor a bubble), `tick`, and the commit of every pipeline register.
     */
    method Advance(cycles: nat, f: IFFields, d: IDFields, e: EXFields, m: MEMFields, w: WBFields) returns (s: Signals)
      requires Valid()
      modifies this, predictor.table.bht
      ensures Valid()
      ensures s == Control(cfg.forwarding, s.mispredicted, e.d, old(pipe))
      ensures s.mispredicted <==>
        old(pipe.E.body.d.opcode) == OP_BRANCH && old(predictor.Predict(m.val2, m.valE)) != (if m.cond then m.valE else m.val2)
      ensures mispredicted == s.mispredicted
      ensures pipe == Commit(Mark(old(pipe), s), f, d, e, m, w)
      ensures old(pipe.E.body.d.opcode) == OP_BRANCH && predictor.kind == Predictor.HistoryTable ==>
        predictor.table.bht[..] == old(predictor.table.bht[..])[Predictor.Index(m.val2) := Predictor.Saturate(old(predictor.table.bht[Predictor.Index(m.val2)]), m.cond)]
      ensures !(old(pipe.E.body.d.opcode) == OP_BRANCH && predictor.kind == Predictor.HistoryTable) ==>
        predictor.table.bht[..] == old(predictor.table.bht[..])
      ensures stats == CountTick(CountSignals(old(stats), s), old(pipe.E.body.d.opcode) == OP_BRANCH, s.mispredicted, !old(pipe.M.bubble), cycles)
    {
      ghost var before := pipe;
      s := ProcessControl(e.d, m);
      NextPipe(before, s, f, d, e, m, w);
      label signalled:
      pipe, stats := Commit(pipe, f, d, e, m, w),
        CountTick(stats, pipe.E.body.d.opcode == OP_BRANCH, mispredicted, !pipe.W.stall && !pipe.W.bubble, cycles);
      FrameKept@signalled(this);
    }

    /** The writes of `process_control_signal` to the simulator's own fields. */
    method Signal(s: Signals)
      modifies this
      ensures mispredicted == s.mispredicted
      ensures pipe == Mark(old(pipe), s)
      ensures stats == CountSignals(old(stats), s)
    {
      pipe, mispredicted, stats := Mark(pipe, s), s.mispredicted, CountSignals(stats, s);
    }
  }

  /**
   * A branch resolving in EX: mispredicted when the predictor, asked with
   * the fall-through `nextPc` and the `target`, names a pc other than the
   * one the branch took; the predictor then learns the outcome.
   */
  method ResolveBranch(bp: Predictor.BranchPredictor, nextPc: Word, target: Word, taken: bool) returns (miss: bool)
    requires bp.Valid()
    modifies bp.table.bht
    ensures bp.Valid()
    ensures miss <==> old(bp.Predict(nextPc, target)) != (if taken then target else nextPc)
    ensures bp.kind == Predictor.HistoryTable ==>
      bp.table.bht[..] == old(bp.table.bht[..])[Predictor.Index(nextPc) := Predictor.Saturate(old(bp.table.bht[Predictor.Index(nextPc)]), taken)]
    ensures bp.kind != Predictor.HistoryTable ==> bp.table.bht[..] == old(bp.table.bht[..])
  {
    var predPc := bp.Predict(nextPc, target);
    miss := predPc != (if taken then target else nextPc);
    bp.Feedback(nextPc, taken);
  }
}
