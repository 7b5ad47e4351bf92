/** The CALL family (CALL, CALLCODE, DELEGATECALL, STATICCALL): the static-frame guard,
    the up-front charges, EIP-150 gas forwarding with the value stipend, the depth and
    balance declines, and the child frame a call enters. */
module EvmCall {

  import opened Prelude
  import opened EvmGas
  import opened EvmAccess
  import opened EvmExceptions
  import opened EvmFrame
  import opened WorldState

  datatype CallOpcode = CALL | CALLCODE | DELEGATECALL | STATICCALL

  /** The stack operands of a call. `value` is popped only by CALL and CALLCODE. */
  datatype CallOperands = CallOperands(
    gasLimit: Word,
    codeSource: Address,
    value: Word,
    dataOffset: Word,
    dataLength: Word,
    outputOffset: Word,
    outputLength: Word)

  /** The value the child sees: zero for STATICCALL, the parent's own value for
      DELEGATECALL, the popped operand otherwise. */
  function ValueOfCall(op: CallOpcode, frame: Frame, operands: CallOperands): (r: nat)
    ensures op == STATICCALL ==> r == 0
    ensures op == DELEGATECALL ==> r == frame.env.value
    ensures op == CALL || op == CALLCODE ==> r == operands.value
  {
    match op
    case STATICCALL => 0
    case DELEGATECALL => frame.env.value
    case _ => operands.value
  }

  /** The value actually moved: DELEGATECALL never transfers. */
  function TransferValue(op: CallOpcode, frame: Frame, operands: CallOperands): (r: nat)
    ensures op == STATICCALL || op == DELEGATECALL ==> r == 0
    ensures op == CALL || op == CALLCODE ==> r == operands.value
  {
    if op == DELEGATECALL then 0 else ValueOfCall(op, frame, operands)
  }

  /** The account whose code runs: the code source for CALL and STATICCALL, the caller's own
      account for CALLCODE and DELEGATECALL. */
  function Target(op: CallOpcode, frame: Frame, operands: CallOperands): (r: Address)
    ensures op == CALL || op == STATICCALL ==> r == operands.codeSource
    ensures op == CALLCODE || op == DELEGATECALL ==> r == frame.env.executing
  {
    if op == CALL || op == STATICCALL then operands.codeSource else frame.env.executing
  }

  /** The account the value is taken from and that the child sees as its caller. */
  function Caller(op: CallOpcode, frame: Frame): Address
  {
    if op == DELEGATECALL then frame.env.caller else frame.env.executing
  }

  /** The execution type of the child: a call kind of its own for each opcode, never a
      creation and never a transaction. */
  function CallExecutionType(op: CallOpcode): (r: ExecutionType)
    ensures !IsAnyCreate(r) && r != Transaction
    ensures r == StaticCall <==> op == STATICCALL
    ensures r == DelegateCall <==> op == DELEGATECALL
    ensures r == CallCode <==> op == CALLCODE
    ensures r == Call <==> op == CALL
  {
    match op
    case CALL => Call
    case CALLCODE => CallCode
    case DELEGATECALL => DelegateCall
    case STATICCALL => StaticCall
  }

  /** The surcharges beyond the release's call cost: CallValue for a value transfer, and
      NewAccount for a call that brings an account into existence — before EIP-161 any call
      to a missing account, after it only a value transfer to a dead one. */
  function ExtraGas(spec: ReleaseSpec, transfer: nat, s: State, target: Address): (r: nat)
    ensures r <= CallValue + NewAccount
    // CallValue is part of the surcharge exactly when value moves
    ensures transfer != 0 <==> r == CallValue || r == CallValue + NewAccount
    // after EIP-161 a call that moves no value pays no surcharge at all
    ensures spec.clearEmptyAccountWhenTouched && transfer == 0 ==> r == 0
    // a call to a live account never pays for a new one
    ensures !IsDeadAccount(s, target) ==> r == (if transfer != 0 then CallValue else 0)
  {
    var valueCost := if transfer != 0 then CallValue else 0;
    if !spec.clearEmptyAccountWhenTouched && !AccountExists(s, target) then valueCost + NewAccount
    else if spec.clearEmptyAccountWhenTouched && transfer != 0 && IsDeadAccount(s, target) then valueCost + NewAccount
    else valueCost
  }

  /** NewAccount is charged exactly when crediting the call's value to the target brings an
      account to life: before EIP-161 one that did not exist, after it one that was dead. */
  lemma NewAccountIffCallCreatesAccount(spec: ReleaseSpec, transfer: nat, s: State, target: Address)
    ensures var after := CreditOrCreate(s, target, transfer);
            (ExtraGas(spec, transfer, s, target) >= NewAccount <==>
               if spec.clearEmptyAccountWhenTouched then IsDeadAccount(s, target) && !IsDeadAccount(after, target)
               else !AccountExists(s, target) && AccountExists(after, target))
  {
  }

  function Positive(x: int): nat
  {
    if x > 0 then x else 0
  }

  /** The four up-front charges of a call, in the source's order (call cost, input memory,
      output memory, surcharges); they go through exactly when their sum is affordable. */
  function CallCharges(spec: ReleaseSpec, gas: int, dataMemoryCost: int, outputMemoryCost: int, extra: nat): (r: Option<int>)
    ensures var total := spec.callCost + Positive(dataMemoryCost) + Positive(outputMemoryCost) + extra;
            (r.Some? <==> total <= gas) && (r.Some? ==> r.value == gas - total && r.value >= 0)
  {
    var c1 := UpdateGas(spec.callCost, gas);
    if !c1.ok then None
    else
      var c2 := UpdateMemoryCost(dataMemoryCost, c1.gas);
      if !c2.ok then None
      else
        var c3 := UpdateMemoryCost(outputMemoryCost, c2.gas);
        if !c3.ok then None
        else
          var c4 := UpdateGas(extra, c3.gas);
          if !c4.ok then None else Some(c4.gas)
  }

  function Min(a: int, b: int): int
  {
    if a <= b then a else b
  }

  /** The EIP-150 cap: all but one 64th of what is left. */
  function AllButOne64th(gas: nat): (r: nat)
    ensures r <= gas && gas - r == gas / 64
  {
    gas - gas / 64
  }

  /** The gas a call forwards, before the stipend: the requested limit, capped by
      all-but-one-64th of the available gas under EIP-150. */
  function ForwardedGas(spec: ReleaseSpec, available: nat, requested: Word): (r: nat)
    ensures r <= requested
    ensures spec.use63Over64Rule ==> r <= AllButOne64th(available) && available - r >= available / 64
    ensures spec.use63Over64Rule ==> r == requested || r == AllButOne64th(available)
    ensures !spec.use63Over64Rule ==> r == requested
  {
    if spec.use63Over64Rule then Min(AllButOne64th(available), requested) else requested
  }

  /** What a call instruction does: fault, decline (push 0 and keep running with the gas
      returned), or enter a child frame after taking a snapshot. */
  datatype CallOutcome =
    | CallFault(error: EvmException)
    | CallDeclined(gas: int, warm: set<Address>)
    | CallEntered(gas: int, warm: set<Address>, journal: Journal, child: Frame)

  predicate OpcodeEnabled(spec: ReleaseSpec, op: CallOpcode)
  {
    !(op == DELEGATECALL && !spec.delegateCallEnabled) && !(op == STATICCALL && !spec.staticCallEnabled)
  }

  /** The stipend a value-carrying call adds on top of the forwarded gas. */
  function Stipend(transfer: nat): (r: nat)
    ensures r == 0 <==> transfer == 0
  {
    if transfer != 0 then CallStipend else 0
  }

  /** A call is declined at the depth limit, or when the executing account cannot pay the
      value it transfers. */
  function Declines(frame: Frame, transfer: nat, s: State): (r: bool)
    ensures frame.env.depth >= MaxCallDepth ==> r
    ensures frame.env.depth < MaxCallDepth && transfer == 0 ==> !r
    ensures !r ==> frame.env.depth < MaxCallDepth && transfer <= Balance(s, frame.env.executing)
  {
    frame.env.depth >= MaxCallDepth || (transfer != 0 && Balance(s, frame.env.executing) < transfer)
  }

  /** The world a child starts in: a snapshot of the caller's world, then the value moved
      out of the caller. */
  function EnterJournal(j: Journal, caller: Address, transfer: nat): (r: Journal)
    requires transfer <= Balance(j.current, caller)
    ensures r.saved == j.saved + [j.current]
    ensures r.current == SubtractFromBalance(j.current, caller, transfer)
  {
    var snap := TakeSnapshot(j);
    assert snap.journal.saved == j.saved + [j.current];
    Apply(snap.journal, SubtractFromBalance(snap.journal.current, caller, transfer))
  }

  /** The frame a call enters. */
  function ChildFrame(op: CallOpcode, frame: Frame, operands: CallOperands, j: Journal, precompiles: set<Address>,
                      callData: seq<byte>, childGas: int): (c: Frame)
    ensures c.gas == childGas && c.snapshot == |j.saved|
    ensures c.env.depth == frame.env.depth + 1 && !c.isTopLevel && !c.isContinuation
    ensures c.isStatic == (op == STATICCALL || frame.isStatic) && c.executionType == CallExecutionType(op)
    ensures c.env.caller == Caller(op, frame) && c.env.executing == Target(op, frame, operands)
    ensures c.env.transferValue == TransferValue(op, frame, operands) && c.env.value == ValueOfCall(op, frame, operands)
    ensures c.env.input == callData && c.isPrecompile == (operands.codeSource in precompiles)
    ensures c.outputLength == operands.outputLength
    ensures c.outputDestination == (if operands.outputLength == 0 then 0 else operands.outputOffset)
    ensures c.substate == EmptySubstate
  {
    var env := Env(Caller(op, frame), Target(op, frame, operands), Some(operands.codeSource), TransferValue(op, frame, operands),
                   ValueOfCall(op, frame, operands), callData, Code(j.current, operands.codeSource), frame.env.depth + 1);
    Frame(childGas, env, CallExecutionType(op), false, |j.saved|,
          if operands.outputLength == 0 then 0 else operands.outputOffset,
          operands.outputLength, op == STATICCALL || frame.isStatic,
          false, false, operands.codeSource in precompiles, EmptySubstate)
  }

  /** CALLCODE and DELEGATECALL run the code source's code in the caller's own account;
      DELEGATECALL also keeps the caller's caller and value and moves nothing. */
  lemma CodeRunsInCallerAccount(op: CallOpcode, frame: Frame, operands: CallOperands, j: Journal,
                                precompiles: set<Address>, callData: seq<byte>, childGas: int)
    requires op == CALLCODE || op == DELEGATECALL
    ensures var c := ChildFrame(op, frame, operands, j, precompiles, callData, childGas);
            c.env.executing == frame.env.executing && c.env.code == Code(j.current, operands.codeSource) &&
            (op == DELEGATECALL ==>
               c.env.caller == frame.env.caller && c.env.value == frame.env.value && c.env.transferValue == 0) &&
            (op == CALLCODE ==>
               c.env.caller == frame.env.executing && c.env.value == operands.value && c.env.transferValue == operands.value)
  {
  }

  /** A CALL-family instruction executed by `frame` with `gas` left and the transaction's
      accessed addresses `warm`. `precompiles` is the set of precompile addresses of the
      release, the memory costs are those of expanding memory over the input and output
      windows, and `callData` is the input window's contents. */
  function ExecuteCallOpcode(spec: ReleaseSpec, op: CallOpcode, frame: Frame, gas: int, warm: set<Address>,
                             operands: CallOperands, j: Journal, precompiles: set<Address>, tracingAccess: bool,
                             dataMemoryCost: int, outputMemoryCost: int, callData: seq<byte>): (r: CallOutcome)
    // disabled opcodes are bad instructions
    ensures !OpcodeEnabled(spec, op) ==> r == CallFault(BadInstruction)
    // a value transfer out of a static frame is refused, unless by CALLCODE, once the
    // code source has been paid for
    ensures r == CallFault(StaticCallViolation) <==>
              OpcodeEnabled(spec, op) &&
              ChargeAccountAccessGas(gas, warm, operands.codeSource, spec, true, operands.codeSource in precompiles, tracingAccess).ok &&
              frame.isStatic && TransferValue(op, frame, operands) != 0 && op != CALLCODE
    ensures r.CallFault? ==> r.error in {BadInstruction, OutOfGas, StaticCallViolation}
    // an enabled call runs out of gas exactly when the code source's access charge, the
    // up-front charges or the forwarded gas cannot be met; otherwise it is declined or entered
    ensures var access := ChargeAccountAccessGas(gas, warm, operands.codeSource, spec, true, operands.codeSource in precompiles, tracingAccess);
            var transfer := TransferValue(op, frame, operands);
            var charges := CallCharges(spec, access.gas, dataMemoryCost, outputMemoryCost,
                                       ExtraGas(spec, transfer, j.current, Target(op, frame, operands)));
            (r == CallFault(OutOfGas) <==>
               OpcodeEnabled(spec, op) &&
               (!access.ok ||
                (!(frame.isStatic && transfer != 0 && op != CALLCODE) &&
                 (charges.None? ||
                  ForwardedGas(spec, charges.value, operands.gasLimit) >= LongMaxValue ||
                  ForwardedGas(spec, charges.value, operands.gasLimit) > charges.value))))
    // a call that does not fault is declined exactly when Declines says so: at the depth
    // limit or when the caller cannot pay the value
    ensures !r.CallFault? ==> (r.CallDeclined? <==> Declines(frame, TransferValue(op, frame, operands), j.current))
    // gas: what is left after the up-front charges is split between the caller and the
    // child under the EIP-150 cap; a declined call gives the forwarded gas and the stipend
    // back to the caller
    ensures r.CallDeclined? || r.CallEntered? ==>
              var access := ChargeAccountAccessGas(gas, warm, operands.codeSource, spec, true, operands.codeSource in precompiles, tracingAccess);
              var transfer := TransferValue(op, frame, operands);
              var charges := CallCharges(spec, access.gas, dataMemoryCost, outputMemoryCost,
                                         ExtraGas(spec, transfer, j.current, Target(op, frame, operands)));
              access.ok && access.warm == r.warm && charges.Some? &&
              var forwarded := ForwardedGas(spec, charges.value, operands.gasLimit);
              forwarded < LongMaxValue &&
              (r.CallDeclined? ==> Declines(frame, transfer, j.current) &&
                                   r.gas == charges.value + Stipend(transfer)) &&
              (r.CallEntered? ==> !Declines(frame, transfer, j.current) &&
                                  r.gas == charges.value - forwarded &&
                                  r.child.gas == forwarded + Stipend(transfer))
    // entering takes a fresh snapshot and then moves the value from the caller
    ensures r.CallEntered? ==>
              var transfer := TransferValue(op, frame, operands);
              r.journal.saved == j.saved + [j.current] &&
              r.child.snapshot == |j.saved| &&
              transfer <= Balance(j.current, Caller(op, frame)) &&
              r.journal.current == SubtractFromBalance(j.current, Caller(op, frame), transfer)
    // the child: one level deeper, static if entered by STATICCALL or from a static frame,
    // running the code source's code in the target's account
    ensures r.CallEntered? ==>
              var c := r.child;
              c.env.depth == frame.env.depth + 1 && !c.isTopLevel && !c.isContinuation &&
              c.isStatic == (op == STATICCALL || frame.isStatic) &&
              c.executionType == CallExecutionType(op) &&
              c.env.caller == Caller(op, frame) && c.env.executing == Target(op, frame, operands) &&
              c.env.transferValue == TransferValue(op, frame, operands) && c.env.value == ValueOfCall(op, frame, operands) &&
              c.env.input == callData && c.isPrecompile == (operands.codeSource in precompiles) &&
              c.outputLength == operands.outputLength &&
              c.outputDestination == (if operands.outputLength == 0 then 0 else operands.outputOffset) &&
              c.substate == EmptySubstate
  {
    if !OpcodeEnabled(spec, op) then CallFault(BadInstruction)
    else
      var access := ChargeAccountAccessGas(gas, warm, operands.codeSource, spec, true, operands.codeSource in precompiles, tracingAccess);
      if !access.ok then CallFault(OutOfGas)
      else
        var transfer := TransferValue(op, frame, operands);
        if frame.isStatic && transfer != 0 && op != CALLCODE then CallFault(StaticCallViolation)
        else
          var caller := Caller(op, frame);
          var target := Target(op, frame, operands);
          var charges := CallCharges(spec, access.gas, dataMemoryCost, outputMemoryCost, ExtraGas(spec, transfer, j.current, target));
          if charges.None? then CallFault(OutOfGas)
          else
            var forwarded := ForwardedGas(spec, charges.value, operands.gasLimit);
            if forwarded >= LongMaxValue then CallFault(OutOfGas)
            else
              var afterForward := UpdateGas(forwarded, charges.value);
              if !afterForward.ok then CallFault(OutOfGas)
              else
                var childGas := forwarded + Stipend(transfer);
                if Declines(frame, transfer, j.current) then
                  CallDeclined(afterForward.gas + childGas, access.warm)
                else
                  CallEntered(afterForward.gas, access.warm, EnterJournal(j, caller, transfer),
                              ChildFrame(op, frame, operands, j, precompiles, callData, childGas))
  }

  /** EIP-150: a caller that enters a child keeps at least one 64th of what it had after
      the up-front charges, and the child gets no more than the rest plus the stipend. */
  lemma CallerKeepsOne64th(spec: ReleaseSpec, op: CallOpcode, frame: Frame, gas: int, warm: set<Address>,
                           operands: CallOperands, j: Journal, precompiles: set<Address>, tracingAccess: bool,
                           dataMemoryCost: int, outputMemoryCost: int, callData: seq<byte>)
    requires spec.use63Over64Rule
    ensures var r := ExecuteCallOpcode(spec, op, frame, gas, warm, operands, j, precompiles, tracingAccess,
                                       dataMemoryCost, outputMemoryCost, callData);
            r.CallEntered? ==>
              var available := r.gas + r.child.gas - Stipend(TransferValue(op, frame, operands));
              r.gas >= available / 64 && r.child.gas <= available - available / 64 + CallStipend
  {
  }

  /** Restoring the child's snapshot undoes everything the call did to the world before
      the child ran: the value transfer. */
  lemma RestoringChildSnapshotUndoesTransfer(spec: ReleaseSpec, op: CallOpcode, frame: Frame, gas: int, warm: set<Address>,
                                             operands: CallOperands, j: Journal, precompiles: set<Address>, tracingAccess: bool,
                                             dataMemoryCost: int, outputMemoryCost: int, callData: seq<byte>)
    ensures var r := ExecuteCallOpcode(spec, op, frame, gas, warm, operands, j, precompiles, tracingAccess,
                                       dataMemoryCost, outputMemoryCost, callData);
            r.CallEntered? ==> r.child.snapshot < |r.journal.saved| &&
                               Restore(r.journal, r.child.snapshot).current == j.current &&
                               Restore(r.journal, r.child.snapshot).saved[..|j.saved|] == j.saved
  {
    var r := ExecuteCallOpcode(spec, op, frame, gas, warm, operands, j, precompiles, tracingAccess,
                               dataMemoryCost, outputMemoryCost, callData);
    if r.CallEntered? {
      assert r.journal.saved[|j.saved|] == j.current;
      assert r.journal.saved[..|j.saved| + 1][..|j.saved|] == j.saved;
    }
  }
}
