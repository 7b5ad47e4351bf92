/** The frame loop of VirtualMachine.Run: a current frame, a stack of suspended parents and
    the journaled world. Each turn runs the current frame until it enters a child, returns,
    reverts or throws, and then either descends into the child, hands the result back to
    the parent (gas, return data, code deposit, substate) or unwinds. Instruction execution
    (ExecuteCall) and precompile bodies are parameters of the loop. */
module EvmRun {

  import opened Prelude
  import opened EvmGas
  import opened EvmExceptions
  import opened EvmFrame
  import opened WorldState
  import opened EvmCreate

  /** The status word the parent finds on its stack when it resumes: FailureBytes,
      SuccessBytes, the created account's address, or BytesZero. */
  datatype Pushed = PushFailure | PushSuccess | PushAddress(address: Address) | PushZero

  /** What a resumed parent receives: the word to push, the output to copy into its memory
      and where to copy it. */
  datatype Resume = Resume(push: Option<Pushed>, output: seq<byte>, outputDestination: nat)

  const NoResume := Resume(None, [], 0)

  datatype Machine = Machine(current: Frame, stack: seq<Frame>, journal: Journal, returnBuffer: seq<byte>, resume: Resume)

  /** What one run of ExecuteCall reports: its CallResult, and the frame's gas, substate and
      the world as it left them. */
  datatype Executed = Executed(result: CallResult, gas: int, substate: Substate, journal: Journal)

  /** What a precompile reports: its base and data costs and the result of running it (an
      internal exception is an empty, failed output). */
  datatype PrecompileRun = PrecompileRun(baseCost: int, dataCost: int, output: seq<byte>, success: bool)

  /** The journal discipline instruction execution keeps: snapshots already taken stay as
      they were, and a child is entered in a snapshot taken during this run. */
  predicate ExecutionKeepsJournal(m: Machine, e: Executed)
  {
    |m.journal.saved| <= |e.journal.saved| &&
    e.journal.saved[..|m.journal.saved|] == m.journal.saved &&
    (e.result.Enter? ==>
       !e.result.child.isTopLevel &&
       |m.journal.saved| <= e.result.child.snapshot < |e.journal.saved|)
  }

  ghost predicate ExecutorSound(exec: Machine -> Executed)
  {
    forall m :: ExecutionKeepsJournal(m, exec(m))
  }

  /** The frames from the bottom of the stack to the current one are well formed relative
      to `origin`, the log up to and including the transaction's own snapshot: the log still
      starts with `origin`, only the bottom frame is top level and holds the transaction's
      snapshot, snapshot ids never decrease going up, and every one is still in the log. */
  predicate WellFormed(m: Machine, origin: seq<State>)
  {
    var base := |origin| - 1;
    |origin| > 0 && |origin| <= |m.journal.saved| && m.journal.saved[..|origin|] == origin &&
    (m.current.isTopLevel <==> |m.stack| == 0) &&
    (forall i :: 0 <= i < |m.stack| ==> (m.stack[i].isTopLevel <==> i == 0)) &&
    (|m.stack| == 0 ==> m.current.snapshot == base) &&
    (|m.stack| > 0 ==> m.stack[0].snapshot == base) &&
    (forall i, k :: 0 <= i < k < |m.stack| ==> m.stack[i].snapshot <= m.stack[k].snapshot) &&
    (forall i :: 0 <= i < |m.stack| ==> m.stack[i].snapshot <= m.current.snapshot) &&
    m.current.snapshot < |m.journal.saved|
  }

  datatype StepResult =
    | Running(machine: Machine)
    | Finished(substate: TransactionSubstate, journal: Journal)

  /** The same frames over a world whose log only grew keep the machine well formed. */
  lemma LogGrowthKeepsWellFormed(m: Machine, m': Machine, origin: seq<State>)
    requires WellFormed(m, origin)
    requires m'.current.isTopLevel == m.current.isTopLevel && m'.current.snapshot == m.current.snapshot
    requires m'.stack == m.stack
    requires |m.journal.saved| <= |m'.journal.saved| && m'.journal.saved[..|m.journal.saved|] == m.journal.saved
    ensures WellFormed(m', origin)
  {
    assert m'.journal.saved[..|origin|] == m'.journal.saved[..|m.journal.saved|][..|origin|];
  }

  /** Entering a child taken in a snapshot no older than the current frame's. */
  lemma EnterKeepsWellFormed(m: Machine, child: Frame, origin: seq<State>)
    requires WellFormed(m, origin)
    requires !child.isTopLevel && m.current.snapshot <= child.snapshot < |m.journal.saved|
    ensures WellFormed(Machine(child, m.stack + [m.current], m.journal, [], NoResume), origin)
  {
  }

  /** Resuming the parent over the same log, or over the log cut back to the child's
      snapshot. */
  lemma PopKeepsWellFormed(m: Machine, next: Machine, origin: seq<State>)
    requires WellFormed(m, origin) && !m.current.isTopLevel
    requires next.stack == m.stack[..|m.stack| - 1]
    requires next.current.isTopLevel == m.stack[|m.stack| - 1].isTopLevel
    requires next.current.snapshot == m.stack[|m.stack| - 1].snapshot
    requires next.journal.saved == m.journal.saved || next.journal.saved == m.journal.saved[..m.current.snapshot + 1]
    ensures WellFormed(next, origin)
  {
    var top := |m.stack| - 1;
    assert m.stack[top].snapshot <= m.current.snapshot;
    assert m.stack[0].snapshot <= m.current.snapshot;
    if next.journal.saved != m.journal.saved {
      assert next.journal.saved[..|origin|] == m.journal.saved[..|origin|];
    }
  }

  /** A frame's own world changes before its code runs: the executing account receives the
      transferred value (and is created if missing), and under EIP-161 a created contract
      starts with nonce 1. A continuation skips all of this. */
  function EnterFrame(spec: ReleaseSpec, frame: Frame, s: State): (r: State)
    ensures frame.isContinuation ==> r == s
    ensures !frame.isContinuation ==>
              AccountExists(r, frame.env.executing) &&
              Balance(r, frame.env.executing) == Balance(s, frame.env.executing) + frame.env.transferValue &&
              Nonce(r, frame.env.executing) ==
                Nonce(s, frame.env.executing) + (if IsAnyCreate(frame.executionType) && spec.clearEmptyAccountWhenTouched then 1 else 0)
  {
    if frame.isContinuation then s
    else
      var credited := CreditOrCreate(s, frame.env.executing, frame.env.transferValue);
      if IsAnyCreate(frame.executionType) && spec.clearEmptyAccountWhenTouched
      then IncrementNonce(credited, frame.env.executing)
      else credited
  }

  /** The exception path: roll the world back to the frame's own snapshot; at top level the
      transaction ends with the exception, otherwise the parent resumes with a failure, an
      empty return-data buffer and no output, and the child's gas is gone. */
  function Unwind(m: Machine, origin: seq<State>, error: EvmException): (r: StepResult)
    requires WellFormed(m, origin)
    ensures r.Finished? <==> m.current.isTopLevel
    ensures r.Finished? ==> r.substate == FailedSubstate(error) &&
                            r.journal == Restore(m.journal, m.current.snapshot)
    ensures r.Running? ==>
              var parent := m.stack[|m.stack| - 1];
              r.machine.journal == Restore(m.journal, m.current.snapshot) &&
              r.machine.current == parent.(isContinuation := true) &&
              r.machine.stack == m.stack[..|m.stack| - 1] &&
              r.machine.returnBuffer == [] && r.machine.resume == Resume(Some(PushFailure), [], 0)
    ensures r.Running? ==> WellFormed(r.machine, origin)
  {
    var j := Restore(m.journal, m.current.snapshot);
    if m.current.isTopLevel then Finished(FailedSubstate(error), j)
    else
      var parent := m.stack[|m.stack| - 1];
      var next := Machine(parent.(isContinuation := true), m.stack[..|m.stack| - 1], j, [], Resume(Some(PushFailure), [], 0));
      PopKeepsWellFormed(m, next, origin);
      Running(next)
  }

  /** What the parent finds pushed after a child call returned without reverting: the
      precompile's own verdict when the child was a precompile, success otherwise. */
  function CallStatus(precompileSuccess: Option<bool>): Pushed
  {
    if precompileSuccess.Some? && !precompileSuccess.value then PushFailure else PushSuccess
  }

  function Truncate(output: seq<byte>, outputLength: nat): (r: seq<byte>)
    ensures |r| <= outputLength && |r| <= |output|
    ensures r == output[..|r|]
    ensures |output| <= outputLength ==> r == output
  {
    if |output| <= outputLength then output else output[..outputLength]
  }

  /** The parent, resumed with the child's remaining gas added to its own. */
  function Resumed(m: Machine): (r: Frame)
    requires |m.stack| > 0
    ensures var parent := m.stack[|m.stack| - 1];
            r == parent.(isContinuation := true, gas := parent.gas + m.current.gas)
  {
    var parent := m.stack[|m.stack| - 1];
    parent.(isContinuation := true, gas := parent.gas + m.current.gas)
  }

  /** A creation frame returned without reverting: deposit its code and charge for it, fail
      the deposit (the child's gas is burned, the world rolls back to the child's snapshot
      and an account the creation made is dropped), or leave the account without code. */
  function ReturnFromCreation(spec: ReleaseSpec, m: Machine, origin: seq<State>, output: seq<byte>): (r: Machine)
    requires WellFormed(m, origin) && !m.current.isTopLevel
    ensures WellFormed(r, origin)
    ensures var child := m.current;
            var parent := m.stack[|m.stack| - 1];
            var owner := child.env.executing;
            var deposit := DecideDeposit(spec, child.gas, output);
            r.stack == m.stack[..|m.stack| - 1] && r.returnBuffer == [] && r.resume.output == [] &&
            r.current.isContinuation && r.current.snapshot == parent.snapshot && r.current.env == parent.env &&
            r.current.executionType == parent.executionType &&
            (deposit.StoreCode? ==>
               r.current.gas == parent.gas + child.gas - CodeDepositCost(spec, |output|) &&
               r.journal == Apply(m.journal, InsertCode(m.journal.current, owner, output)) &&
               r.resume.push == Some(PushAddress(owner)) &&
               r.current.substate == CommitToParent(child.substate, parent.substate)) &&
            (deposit.KeepEmpty? ==>
               r.current.gas == parent.gas + child.gas &&
               r.journal == m.journal && r.resume.push == Some(PushAddress(owner)) &&
               r.current.substate == CommitToParent(child.substate, parent.substate)) &&
            (deposit.FailDeposit? ==>
               var back := Restore(m.journal, child.snapshot);
               r.current.gas == parent.gas &&
               r.journal.saved == back.saved &&
               r.journal.current == (if child.isCreateOnPreExistingAccount then back.current
                                     else DeleteAccount(back.current, owner)) &&
               r.resume.push == Some(PushZero) &&
               r.current.substate == parent.substate)
  {
    var child := m.current;
    var parent := m.stack[|m.stack| - 1];
    var rest := m.stack[..|m.stack| - 1];
    var resumed := Resumed(m);
    var owner := child.env.executing;
    match DecideDeposit(spec, child.gas, output)
    case StoreCode(cost) =>
      var next := Machine(resumed.(gas := resumed.gas - cost, substate := CommitToParent(child.substate, parent.substate)),
                          rest, Apply(m.journal, InsertCode(m.journal.current, owner, output)), [],
                          Resume(Some(PushAddress(owner)), [], 0));
      PopKeepsWellFormed(m, next, origin);
      next
    case FailDeposit =>
      var back := Restore(m.journal, child.snapshot);
      var world := if child.isCreateOnPreExistingAccount then back.current else DeleteAccount(back.current, owner);
      var next := Machine(resumed.(gas := resumed.gas - child.gas), rest, Apply(back, world), [],
                          Resume(Some(PushZero), [], 0));
      PopKeepsWellFormed(m, next, origin);
      next
    case KeepEmpty =>
      var next := Machine(resumed.(substate := CommitToParent(child.substate, parent.substate)),
                          rest, m.journal, [], Resume(Some(PushAddress(owner)), [], 0));
      PopKeepsWellFormed(m, next, origin);
      next
  }

  /** Hand a finished child frame's result back to its parent. The parent is credited with
      the child's remaining gas; a revert rolls back to the child's snapshot and pushes a
      failure; a creation goes through the code deposit; a call exposes its output as
      return data and copies as much as fits into the parent's output window. Only a child
      that succeeded commits its substate. */
  function ReturnToParent(spec: ReleaseSpec, m: Machine, origin: seq<State>, output: seq<byte>,
                          precompileSuccess: Option<bool>, shouldRevert: bool): (r: Machine)
    requires WellFormed(m, origin) && !m.current.isTopLevel
    ensures WellFormed(r, origin)
    ensures r.stack == m.stack[..|m.stack| - 1] && r.current.isContinuation
    // a revert: roll back, fail, keep the child's gas, and still expose the output
    ensures shouldRevert ==>
              r.current == Resumed(m) &&
              r.journal == Restore(m.journal, m.current.snapshot) &&
              r.returnBuffer == output &&
              r.resume == Resume(Some(PushFailure), Truncate(output, m.current.outputLength), m.current.outputDestination)
    // a returning call
    ensures !shouldRevert && !IsAnyCreate(m.current.executionType) ==>
              r.current == Resumed(m).(substate := CommitToParent(m.current.substate, m.stack[|m.stack| - 1].substate)) &&
              r.journal == m.journal && r.returnBuffer == output &&
              r.resume == Resume(Some(CallStatus(precompileSuccess)), Truncate(output, m.current.outputLength),
                                 m.current.outputDestination)
    ensures !shouldRevert && IsAnyCreate(m.current.executionType) ==> r == ReturnFromCreation(spec, m, origin, output)
  {
    var child := m.current;
    var parent := m.stack[|m.stack| - 1];
    var rest := m.stack[..|m.stack| - 1];
    if shouldRevert then
      var next := Machine(Resumed(m), rest, Restore(m.journal, child.snapshot), output,
                          Resume(Some(PushFailure), Truncate(output, child.outputLength), child.outputDestination));
      PopKeepsWellFormed(m, next, origin);
      next
    else if IsAnyCreate(child.executionType) then
      ReturnFromCreation(spec, m, origin, output)
    else
      var next := Machine(Resumed(m).(substate := CommitToParent(child.substate, parent.substate)),
                          rest, m.journal, output,
                          Resume(Some(CallStatus(precompileSuccess)), Truncate(output, child.outputLength),
                                 child.outputDestination));
      PopKeepsWellFormed(m, next, origin);
      next
  }

  /** A frame that returned (or reverted): at top level the transaction ends with its
      output, refund, destroy list, logs and revert flag; otherwise its parent resumes. */
  function Complete(spec: ReleaseSpec, m: Machine, origin: seq<State>, output: seq<byte>,
                    precompileSuccess: Option<bool>, shouldRevert: bool): (r: StepResult)
    requires WellFormed(m, origin)
    ensures r.Finished? <==> m.current.isTopLevel
    ensures r.Finished? ==>
              r.journal == m.journal &&
              r.substate == TransactionSubstate(output, m.current.substate.refund, m.current.substate.destroyList,
                                                m.current.substate.logs, shouldRevert, None)
    ensures r.Running? ==> r.machine == ReturnToParent(spec, m, origin, output, precompileSuccess, shouldRevert)
    ensures r.Running? ==> WellFormed(r.machine, origin)
  {
    if m.current.isTopLevel then
      Finished(TransactionSubstate(output, m.current.substate.refund, m.current.substate.destroyList,
                                   m.current.substate.logs, shouldRevert, None), m.journal)
    else Running(ReturnToParent(spec, m, origin, output, precompileSuccess, shouldRevert))
  }

  /** A precompile frame: credit the executing account, charge the base and data costs
      (running out is an OutOfGas exception), then report the precompile's result; a failed
      precompile is an exception at top level and otherwise reverts with no gas left. */
  function RunPrecompile(spec: ReleaseSpec, m: Machine, origin: seq<State>, run: PrecompileRun): (r: StepResult)
    requires WellFormed(m, origin)
    ensures PrecompileGas(run.baseCost, run.dataCost, m.current.gas).None? ==>
              r == Unwind(m.(returnBuffer := if m.current.isContinuation then m.returnBuffer else []), origin, OutOfGas)
    ensures PrecompileGas(run.baseCost, run.dataCost, m.current.gas).Some? && !run.success && m.current.isTopLevel ==>
              r.Finished? && r.substate == FailedSubstate(PrecompileFailure)
    ensures PrecompileGas(run.baseCost, run.dataCost, m.current.gas).Some? && !run.success && !m.current.isTopLevel ==>
              r.Running? && r.machine.current.gas == m.stack[|m.stack| - 1].gas &&
              r.machine.resume.push == Some(PushFailure)
    ensures r.Running? ==> WellFormed(r.machine, origin)
  {
    var m0 := m.(returnBuffer := if m.current.isContinuation then m.returnBuffer else []);
    var credited := Apply(m0.journal, CreditOrCreate(m0.journal.current, m0.current.env.executing, m0.current.env.transferValue));
    var m1 := m0.(journal := credited);
    match PrecompileGas(run.baseCost, run.dataCost, m.current.gas)
    case None => Unwind(m0, origin, OutOfGas)
    case Some(left) =>
      if !run.success && m1.current.isTopLevel then Unwind(m1, origin, PrecompileFailure)
      else
        var gas := if run.success then left else 0;
        Complete(spec, m1.(current := m1.current.(gas := gas)), origin, run.output, Some(run.success), !run.success)
  }

  /** One turn of the loop. */
  function Step(spec: ReleaseSpec, m: Machine, origin: seq<State>, exec: Machine -> Executed,
                precompile: Frame -> PrecompileRun): (r: StepResult)
    requires WellFormed(m, origin) && ExecutorSound(exec)
    ensures r.Running? ==> WellFormed(r.machine, origin)
    ensures r.Finished? ==> |origin| <= |r.journal.saved| && r.journal.saved[..|origin|] == origin
    // the transaction ends only from the top-level frame, and an exception there leaves
    // the world as the transaction's snapshot recorded it
    ensures r.Finished? ==> m.current.isTopLevel
    ensures r.Finished? && r.substate.error.Some? ==> r.journal.current == origin[|origin| - 1]
  {
    if m.current.isPrecompile then
      RunPrecompile(spec, m, origin, precompile(m.current))
    else
      var m0 := m.(returnBuffer := if m.current.isContinuation then m.returnBuffer else [],
                   journal := Apply(m.journal, EnterFrame(spec, m.current, m.journal.current)));
      LogGrowthKeepsWellFormed(m, m0, origin);
      if |m0.current.env.code| == 0 then
        Complete(spec, m0, origin, [], None, false)
      else
        var e := exec(m0);
        assert ExecutionKeepsJournal(m0, e);
        var m1 := m0.(current := m0.current.(gas := e.gas, substate := e.substate), journal := e.journal);
        LogGrowthKeepsWellFormed(m0, m1, origin);
        match e.result
        case Enter(child) =>
          EnterKeepsWellFormed(m1, child, origin);
          Running(Machine(child, m1.stack + [m1.current], m1.journal, [], NoResume))
        case Exception(error) =>
          Unwind(m1, origin, error)
        case Returned(output, success, shouldRevert) =>
          Complete(spec, m1, origin, output, success, shouldRevert)
  }

  /** Run: the frame loop from the transaction's top-level frame until it finishes, for at
      most `fuel` turns (None when the fuel runs out first). Whatever happens in between,
      the snapshots taken before the transaction stay in the log, and a transaction that
      ends in an exception leaves the world as it was when its snapshot was taken. */
  method Run(spec: ReleaseSpec, initial: Frame, journal: Journal, exec: Machine -> Executed,
             precompile: Frame -> PrecompileRun, fuel: nat) returns (outcome: Option<TransactionSubstate>, final: Journal)
    requires initial.isTopLevel && initial.snapshot < |journal.saved|
    requires ExecutorSound(exec)
    ensures initial.snapshot < |final.saved| && final.saved[..initial.snapshot + 1] == journal.saved[..initial.snapshot + 1]
    ensures outcome.Some? && outcome.value.error.Some? ==> final.current == journal.saved[initial.snapshot]
  {
    var origin := journal.saved[..initial.snapshot + 1];
    var m := Machine(initial, [], journal, [], NoResume);
    var turns := fuel;
    while turns > 0
      invariant WellFormed(m, origin)
      decreases turns
    {
      match Step(spec, m, origin, exec, precompile) {
        case Running(next) =>
          m := next;
        case Finished(substate, j) =>
          return Some(substate), j;
      }
      turns := turns - 1;
    }
    return None, m.journal;
  }
}
