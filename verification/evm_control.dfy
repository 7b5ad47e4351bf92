/** JUMP, JUMPI and RETURNDATACOPY: the control-flow and return-data instructions whose
    failure modes the interpreter decides itself. */
module EvmControl {

  import opened Prelude
  import opened EvmGas
  import opened EvmExceptions

  /** int.MaxValue: jump destinations above it are refused before the code is consulted. */
  const IntMaxValue: nat := 0x7FFF_FFFF

  /** The result of one instruction that neither calls nor returns: a fault, or the gas
      left and the program counter of the next instruction. */
  datatype Step = Fault(error: EvmException) | Continue(gas: int, pc: nat)

  /** Jump: a destination beyond int.MaxValue, or one the code does not mark as a valid
      JUMPDEST (`jumpDests`, what CodeInfo.ValidateJump accepts), is an
      InvalidJumpDestination; otherwise execution continues at the destination. */
  function Jump(gas: int, dest: Word, jumpDests: set<nat>): (r: Step)
    ensures r.Continue? <==> dest <= IntMaxValue && dest in jumpDests
    ensures r.Fault? ==> r.error == InvalidJumpDestination
    ensures r.Continue? ==> r.pc == dest && r.gas == gas
  {
    if dest > IntMaxValue then Fault(InvalidJumpDestination)
    else if dest !in jumpDests then Fault(InvalidJumpDestination)
    else Continue(gas, dest)
  }

  /** JUMP: charge Mid, then jump unconditionally. */
  function JumpInstruction(gas: int, dest: Word, jumpDests: set<nat>): (r: Step)
    ensures gas < Mid ==> r == Fault(OutOfGas)
    ensures gas >= Mid ==> r == Jump(gas - Mid, dest, jumpDests)
    ensures r.Continue? ==> r.pc in jumpDests && r.gas == gas - Mid
  {
    var charge := UpdateGas(Mid, gas);
    if !charge.ok then Fault(OutOfGas) else Jump(charge.gas, dest, jumpDests)
  }

  /** JUMPI: charge High, then jump only when the condition word is not zero; otherwise fall
      through to `next`, the instruction after JUMPI. */
  function JumpIInstruction(gas: int, next: nat, dest: Word, condition: Word, jumpDests: set<nat>): (r: Step)
    ensures gas < High ==> r == Fault(OutOfGas)
    ensures gas >= High && condition == 0 ==> r == Continue(gas - High, next)
    ensures gas >= High && condition != 0 ==> r == Jump(gas - High, dest, jumpDests)
  {
    var charge := UpdateGas(High, gas);
    if !charge.ok then Fault(OutOfGas)
    else if condition != 0 then Jump(charge.gas, dest, jumpDests)
    else Continue(charge.gas, next)
  }

  /** A taken JUMPI lands where JUMP would, but costs High - Mid more gas. */
  lemma TakenJumpIIsJump(gas: int, next: nat, dest: Word, condition: Word, jumpDests: set<nat>)
    requires condition != 0 && gas >= High
    ensures var i := JumpIInstruction(gas, next, dest, condition, jumpDests);
            var j := JumpInstruction(gas, dest, jumpDests);
            i.Continue? == j.Continue? &&
            (i.Continue? ==> i.pc == j.pc && i.gas + (High - Mid) == j.gas) &&
            (i.Fault? ==> i.error == j.error)
  {
  }

  /** The outcome of RETURNDATACOPY: a fault, or the gas left and the bytes written to memory
      at `dest` (nothing when the length is zero). */
  datatype Copy = CopyFault(error: EvmException) | Copied(gas: int, dest: Word, bytes: seq<byte>)

  /** RETURNDATACOPY (EIP-211): a bad instruction when the release does not enable the
      return-data opcodes; charges VeryLow plus Memory per 32-byte word of the length before looking at the
      buffer; reading past the end of the return-data buffer, or a length plus source
      offset overflowing 256 bits, is an AccessViolation; memory expansion
      (`memoryCost`, from the frame's memory) is charged only for a non-empty copy. */
  function ReturnDataCopy(spec: ReleaseSpec, gas: int, dest: Word, src: Word, length: Word,
                          buffer: seq<byte>, memoryCost: int): (r: Copy)
    ensures !spec.returnDataOpcodesEnabled ==> r == CopyFault(BadInstruction)
    ensures spec.returnDataOpcodesEnabled && gas < VeryLow + Memory * Div32Ceiling(length) ==>
              r == CopyFault(OutOfGas)
    ensures r.CopyFault? && r.error == AccessViolation <==>
              spec.returnDataOpcodesEnabled && gas >= VeryLow + Memory * Div32Ceiling(length) &&
              (src + length >= WordModulus || src + length > |buffer|)
    ensures r.CopyFault? && r.error == OutOfGas <==>
              spec.returnDataOpcodesEnabled &&
              (gas < VeryLow + Memory * Div32Ceiling(length) ||
               (src + length < WordModulus && src + length <= |buffer| && length > 0 &&
                memoryCost > gas - VeryLow - Memory * Div32Ceiling(length)))
    ensures r.Copied? ==> src + length <= |buffer| && r.bytes == buffer[src..src + length] && r.dest == dest
    ensures r.Copied? ==>
              r.gas == gas - VeryLow - Memory * Div32Ceiling(length) - (if length > 0 && memoryCost > 0 then memoryCost else 0)
  {
    if !spec.returnDataOpcodesEnabled then CopyFault(BadInstruction)
    else
      var charge := UpdateGas(VeryLow + Memory * Div32Ceiling(length), gas);
      if !charge.ok then CopyFault(OutOfGas)
      else if src + length >= WordModulus || src + length > |buffer| then CopyFault(AccessViolation)
      else if length > 0 then
        var expand := UpdateMemoryCost(memoryCost, charge.gas);
        if !expand.ok then CopyFault(OutOfGas)
        else Copied(expand.gas, dest, buffer[src..src + length])
      else Copied(charge.gas, dest, [])
  }

  /** The 256-bit overflow test is subsumed by the bounds test for any buffer a frame can
      hold: a copy is an access violation exactly when it reads past the buffer. */
  lemma ReturnDataCopyInBounds(spec: ReleaseSpec, gas: int, dest: Word, src: Word, length: Word,
                               buffer: seq<byte>, memoryCost: int)
    requires spec.returnDataOpcodesEnabled && |buffer| < WordModulus
    requires gas >= VeryLow + Memory * Div32Ceiling(length) && memoryCost <= 0
    ensures ReturnDataCopy(spec, gas, dest, src, length, buffer, memoryCost).Copied? <==>
              src + length <= |buffer|
  {
  }
}
