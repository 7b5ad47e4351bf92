/** The exception kinds an EVM frame can end with (EvmExceptionType without its `None`
    member: a normal completion is the absence of an exception). */
module EvmExceptions {

  datatype EvmException =
    | BadInstruction
    | StackOverflow
    | StackUnderflow
    | OutOfGas
    | InvalidSubroutineEntry
    | InvalidSubroutineReturn
    | InvalidJumpDestination
    | AccessViolation
    | StaticCallViolation
    | PrecompileFailure
    | InvalidCode
    | Other
}
