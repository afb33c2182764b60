/**
 * Branch predictors (src/branch_predictor.hpp, src/branch_predictor.cpp).
 *
 * A predictor is asked, for a conditional branch, which of the fall-through
 * address `next_pc` and the branch `target` to fetch next, and is told the
 * outcome afterwards. Three predictors are stateless; the fourth is a table
 * of 4096 two-bit saturating counters indexed by the fall-through address.
 */
module Predictor {
  import opened Registers

  /** `BHT_SIZE`: the number of counters in the history table. */
  const BHT_SIZE: nat := 4096

  /** The predictor the simulator was configured with (the dynamic type of `br_pred`). */
  datatype Kind = NeverTaken | AlwaysTaken | Btfnt | HistoryTable

  /** `NeverTaken::predict`: always the fall-through address. */
  function PredictNeverTaken(nextPc: Word, target: Word): (r: Word)
    ensures r == nextPc
  {
    nextPc
  }

  /** `AlwaysTaken::predict`: always the branch target. */
  function PredictAlwaysTaken(nextPc: Word, target: Word): (r: Word)
    ensures r == target
  {
    target
  }

  /**
   * `BTFNT::predict`, the smaller of the two addresses: a branch is predicted
   * taken exactly when its target lies behind the fall-through address.
   */
  function PredictBtfnt(nextPc: Word, target: Word): (r: Word)
    ensures r == nextPc || r == target
    ensures r <= nextPc && r <= target
  {
    if target < nextPc then target else nextPc
  }

  /** The table slot of a branch: bits 1 and up of the fall-through address, modulo the table size. */
  function Index(nextPc: Word): (i: nat)
    ensures i < BHT_SIZE
  {
    (nextPc / 2) % BHT_SIZE
  }

  /**
   * One step of a two-bit saturating counter: count up on a taken branch
   * unless already 3, down on a not-taken one unless already 0.
   */
  function Saturate(counter: bv8, taken: bool): bv8 {
    if taken && counter != 3 then counter + 1
    else if !taken && counter != 0 then counter - 1
    else counter
  }

  /**
   * The counter stays within [0, 3], moves by at most one, and only in the
   * direction of the outcome.
   */
  lemma SaturateBounds(counter: bv8, taken: bool)
    requires counter <= 3
    ensures var c := Saturate(counter, taken);
      && c <= 3
      && (taken ==> counter <= c && c <= counter + 1)
      && (!taken ==> c <= counter && counter <= c + 1)
  {
  }

  /**
   * Two outcomes in the same direction make any counter predict that
   * direction: taken twice reaches 2 or more, not taken twice falls to 1 or less.
   */
  lemma SaturateLearns(counter: bv8, taken: bool)
    requires counter <= 3
    ensures (Saturate(Saturate(counter, taken), taken) >= 2) == taken
  {
  }

  /** `BranchHistoryTable`: 4096 two-bit counters, kept in bytes as in the source. */
  class BranchHistoryTable {
    const bht: array<bv8>

    /** Every slot holds a two-bit counter. */
    ghost predicate Valid()
      reads this, bht
    {
      bht.Length == BHT_SIZE && forall i :: 0 <= i < bht.Length ==> bht[i] <= 3
    }

    /** The constructor sets every counter to 3, strongly taken. */
    constructor ()
      ensures Valid() && fresh(bht)
      ensures forall i :: 0 <= i < BHT_SIZE ==> bht[i] == 3
    {
      bht := new bv8[BHT_SIZE](_ => 3);
    }

    /**
     * `predict`: the target exactly when the branch's counter is 2 or 3,
     * the fall-through address otherwise.
     */
    function Predict(nextPc: Word, target: Word): (r: Word)
      requires Valid()
      reads this, bht
      ensures bht[Index(nextPc)] >= 2 ==> r == target
      ensures bht[Index(nextPc)] < 2 ==> r == nextPc
    {
      if bht[Index(nextPc)] >= 2 then target else nextPc
    }

    /**
     * `feedback`: steps the branch's counter towards the outcome and leaves
     * every other slot alone.
     */
    method Feedback(nextPc: Word, taken: bool)
      requires Valid()
      modifies bht
      ensures Valid()
      ensures bht[..] == old(bht[..])[Index(nextPc) := Saturate(old(bht[Index(nextPc)]), taken)]
    {
      var i := Index(nextPc);
      SaturateBounds(bht[i], taken);
      var bits := bht[i];
      if taken && bits != 3 {
        bht[i] := bits + 1;
      } else if !taken && bits != 0 {
        bht[i] := bits - 1;
      }
    }
  }

  /** The configured predictor: one of the three stateless ones or the history table. */
  class BranchPredictor {
    const kind: Kind
    const table: BranchHistoryTable

    ghost predicate Valid()
      reads this, table, table.bht
    {
      table.Valid()
    }

    constructor (kind: Kind)
      ensures Valid() && this.kind == kind && fresh(table) && fresh(table.bht)
    {
      this.kind := kind;
      table := new BranchHistoryTable();
    }

    /** `br_pred->predict(next_pc, target)`, dispatched on the configured kind. */
    function Predict(nextPc: Word, target: Word): (r: Word)
      requires Valid()
      reads this, table, table.bht
      ensures r == nextPc || r == target
    {
      match kind
      case NeverTaken => PredictNeverTaken(nextPc, target)
      case AlwaysTaken => PredictAlwaysTaken(nextPc, target)
      case Btfnt => PredictBtfnt(nextPc, target)
      case HistoryTable => table.Predict(nextPc, target)
    }

    /**
     * `br_pred->feedback(next_pc, taken)`: the stateless predictors inherit
     * the empty default; the history table updates one counter.
     */
    method Feedback(nextPc: Word, taken: bool)
      requires Valid()
      modifies table.bht
      ensures Valid()
      ensures kind != HistoryTable ==> table.bht[..] == old(table.bht[..])
      ensures kind == HistoryTable ==>
        table.bht[..] == old(table.bht[..])[Index(nextPc) := Saturate(old(table.bht[Index(nextPc)]), taken)]
    {
      if kind == HistoryTable {
        table.Feedback(nextPc, taken);
      }
    }
  }

  /**
   * Two taken outcomes for the same branch make the history table predict
   * it taken, whatever the counter was.
   */
  method TwiceTakenPredictsTaken(p: BranchHistoryTable, nextPc: Word, target: Word)
    requires p.Valid()
    modifies p.bht
    ensures p.Valid() && p.Predict(nextPc, target) == target
  {
    var c := p.bht[Index(nextPc)];
    p.Feedback(nextPc, true);
    p.Feedback(nextPc, true);
    SaturateLearns(c, true);
  }
}
