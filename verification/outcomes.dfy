/**
 * Failure kinds of the simulator and the result type that carries them.
 * The source raises C++ exceptions; here every fallible operation returns
 * a `Result` so that the failing case is part of each contract.
 */
module Outcomes {

  /** The fatal faults a run can hit. */
  datatype Fault =
    | DecodeError(inst: bv32)          // unassigned opcode / funct combination
    | UnmappedAddress(addr: int)       // no page-table entry for the address
    | ArithmeticError                  // an ALU case the host leaves undefined
    | UndefinedAccess(addr: int)       // a host access the source leaves undefined
    | UnsupportedSyscall(number: int)  // an `ecall` service number with no handler

  datatype Result<+T> = Ok(value: T) | Err(fault: Fault) {
    predicate IsFailure() { Err? }

    function PropagateFailure<U>(): Result<U>
      requires Err?
    {
      Err(fault)
    }

    function Extract(): T
      requires Ok?
    {
      value
    }
  }

  datatype Option<+T> = None | Some(value: T)
}
