/** The pieces of interpreter state the frame loop moves around: execution types, the
    per-frame record (EvmState), the accumulated substate a frame hands to its parent, the
    result of running a frame (CallResult) and the result of the whole transaction
    (TransactionSubstate). */
module EvmFrame {

  import opened Prelude
  import opened EvmExceptions

  /** How a frame was entered. */
  datatype ExecutionType = Transaction | DirectCreate | Call | StaticCall | DelegateCall | CallCode | Create | Create2

  predicate IsAnyCreate(t: ExecutionType)
  {
    t == DirectCreate || t == Create || t == Create2
  }

  datatype LogEntry = LogEntry(address: Address, data: seq<byte>, topics: seq<Word>)

  /** What a successful frame commits to its parent: refund counter, logs and the accounts
      scheduled for destruction. */
  datatype Substate = Substate(refund: int, logs: seq<LogEntry>, destroyList: set<Address>)

  const EmptySubstate := Substate(0, [], {})

  /** CommitToParent: the child's refund adds to the parent's, its logs follow the parent's
      and its destroy list joins the parent's. */
  function CommitToParent(child: Substate, parent: Substate): (r: Substate)
    ensures r.refund == parent.refund + child.refund
    ensures |r.logs| == |parent.logs| + |child.logs|
    ensures r.logs[..|parent.logs|] == parent.logs && r.logs[|parent.logs|..] == child.logs
    ensures r.destroyList == parent.destroyList + child.destroyList
  {
    Substate(parent.refund + child.refund, parent.logs + child.logs, parent.destroyList + child.destroyList)
  }

  /** The execution environment a frame runs in. */
  datatype Env = Env(
    caller: Address,
    executing: Address,
    codeSource: Option<Address>,
    transferValue: nat,
    value: nat,
    input: seq<byte>,
    code: seq<byte>,
    depth: nat)

  /** One frame (EvmState): its gas, how it was entered, the snapshot to roll back to, the
      memory window its output is copied into, and its flags. */
  datatype Frame = Frame(
    gas: int,
    env: Env,
    executionType: ExecutionType,
    isTopLevel: bool,
    snapshot: nat,
    outputDestination: nat,
    outputLength: nat,
    isStatic: bool,
    isContinuation: bool,
    isCreateOnPreExistingAccount: bool,
    isPrecompile: bool,
    substate: Substate)

  /** The status word pushed for a failed or successful child call. */
  const FailureBytes: seq<byte> := [0]
  const SuccessBytes: seq<byte> := [1]

  /** CallResult: enter a child frame, end with an exception (whose output is FailureBytes),
      or return output, with the precompile's own success flag when the frame was a
      precompile and whether the frame's changes are to be reverted. */
  datatype CallResult =
    | Enter(child: Frame)
    | Exception(error: EvmException)
    | Returned(output: seq<byte>, precompileSuccess: Option<bool>, shouldRevert: bool)
  {
    /** IsReturn: no frame to execute next. */
    predicate IsReturn()
    {
      !Enter?
    }

    function Output(): (r: seq<byte>)
      ensures Exception? ==> r == FailureBytes
      ensures Enter? ==> r == []
    {
      match this
      case Enter(_) => []
      case Exception(_) => FailureBytes
      case Returned(output, _, _) => output
    }
  }

  /** CallResult.Empty, what a frame with no code (or that runs off its end) yields. */
  const EmptyResult := Returned([], None, false)

  /** The outcome of the transaction's top-level frame. */
  datatype TransactionSubstate = TransactionSubstate(
    output: seq<byte>,
    refund: int,
    destroyList: set<Address>,
    logs: seq<LogEntry>,
    shouldRevert: bool,
    error: Option<EvmException>)

  /** The exception form: nothing to keep, everything reverted. */
  function FailedSubstate(error: EvmException): (r: TransactionSubstate)
    ensures r.shouldRevert && r.error == Some(error)
    ensures r.output == [] && r.logs == [] && r.destroyList == {} && r.refund == 0
  {
    TransactionSubstate([], 0, {}, [], true, Some(error))
  }
}
