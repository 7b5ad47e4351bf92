/** FullPruner: the trigger / wait state machine that starts a full pruning, and the
    dispose / commit discipline of a pruning run. The atomic flags are plain booleans,
    the database, the block tree and the copy of the state tree are answers passed in
    with each event, and `onNewHead` counts the OnNewHead subscriptions to NewHeadBlock. */
module FullPruner {

  import opened Prelude

  /** long.MaxValue: the "no state chosen yet" mark of stateToCopy. */
  const LongMaxValue: int := 0x7FFF_FFFF_FFFF_FFFF

  /** Reorganization.MaxDepth: how deep a reorganisation may reach. */
  const MaxReorgDepth: int := 64

  datatype PruningStatus = InProgress | Starting

  /** A pruning run handed over to RunPruning: its context and the state root to copy. */
  datatype Launch = Launch(context: nat, stateRoot: nat)

  datatype Pruner = Pruner(
    waitingForBlock: bool,
    waitingForState: bool,
    blockToWaitFor: int,
    stateToCopy: int,
    current: Option<nat>,
    onNewHead: nat,
    launches: seq<Launch>)

  /** What a NewHeadBlock event sees: whether the database can start pruning, the new
      block's number (none for a null block), what TryStartPruning yields, the best
      persisted state, the head's number and the headers by number with their state roots. */
  datatype HeadEvent = HeadEvent(
    canStart: bool,
    block: Option<int>,
    tryStart: Option<nat>,
    bestPersisted: Option<int>,
    head: Option<int>,
    findHeader: int -> Option<nat>)

  /** Removing a handler from an event: one subscription fewer, and a no-op when there is
      none. */
  function Unsubscribe(n: nat): (r: nat)
    ensures n > 0 ==> r + 1 == n
    ensures n == 0 ==> r == 0
  {
    if n == 0 then 0 else n - 1
  }

  /** OnPrune: the status is InProgress unless pruning can start and this trigger is the
      one that raises the waiting-for-block flag, which subscribes OnNewHead and reports
      Starting. */
  function OnPrune(p: Pruner, canStart: bool): (r: (Pruner, PruningStatus))
    ensures r.1 == Starting <==> canStart && !p.waitingForBlock
    ensures r.1 == Starting ==> r.0 == p.(waitingForBlock := true, onNewHead := p.onNewHead + 1)
    ensures r.1 == InProgress ==> r.0 == p
  {
    if canStart && !p.waitingForBlock then (p.(waitingForBlock := true, onNewHead := p.onNewHead + 1), Starting)
    else (p, InProgress)
  }

  /** OnNewHead while the database can start pruning: the waiting-for-block flag drops,
      and for a real block whose TryStartPruning succeeds the context is recorded; if no
      state was awaited yet the state two blocks on is awaited and no state is chosen. */
  function Arm(p: Pruner, ev: HeadEvent): (r: Pruner)
    requires ev.canStart
    ensures !r.waitingForBlock
    ensures !p.waitingForBlock ==> r == p
    ensures r.launches == p.launches && r.onNewHead == p.onNewHead
    ensures r.current != p.current ==>
              p.waitingForBlock && r.current == ev.tryStart && ev.tryStart.Some? && ev.block.Some? && r.waitingForState
    ensures r.waitingForState != p.waitingForState ==>
              r.waitingForState && r.current == ev.tryStart && ev.tryStart.Some? && ev.block.Some? && r.blockToWaitFor == ev.block.value + 2 && r.stateToCopy == LongMaxValue
    ensures r.waitingForState == p.waitingForState ==>
              r.blockToWaitFor == p.blockToWaitFor && r.stateToCopy == p.stateToCopy
  {
    if !p.waitingForBlock then p
    else
      var lowered := p.(waitingForBlock := false);
      if ev.block.None? || ev.tryStart.None? then lowered
      else
        var recorded := lowered.(current := ev.tryStart);
        if recorded.waitingForState then recorded
        else recorded.(waitingForState := true, blockToWaitFor := ev.block.value + 2, stateToCopy := LongMaxValue)
  }

  /** OnNewHead while a state is awaited: once the best persisted state reaches the block
      waited for, the state to copy is fixed to it (only the first time); once the head
      is more than MaxReorgDepth past that state and its header is found, the wait ends,
      the run is launched on the header's state root and OnNewHead unsubscribes. */
  function Wait(p: Pruner, ev: HeadEvent): (r: Pruner)
    requires p.waitingForState
    ensures r.waitingForBlock == p.waitingForBlock && r.current == p.current && r.blockToWaitFor == p.blockToWaitFor
    // a chosen state is never replaced, and one is chosen only once it is persisted
    ensures p.stateToCopy != LongMaxValue ==> r.stateToCopy == p.stateToCopy
    ensures r.stateToCopy != p.stateToCopy ==>
              ev.bestPersisted.Some? && r.stateToCopy == ev.bestPersisted.value >= p.blockToWaitFor
    // the wait ends exactly when a run is launched, and the handler then unsubscribes
    ensures r.waitingForState <==> r.launches == p.launches
    ensures r.waitingForState ==> r.onNewHead == p.onNewHead
    ensures !r.waitingForState ==>
              p.current.Some? && ev.head.Some? && ev.head.value > r.stateToCopy + MaxReorgDepth &&
              ev.findHeader(r.stateToCopy).Some? &&
              r.launches == p.launches + [Launch(p.current.value, ev.findHeader(r.stateToCopy).value)] &&
              r.onNewHead == Unsubscribe(p.onNewHead)
  {
    if ev.bestPersisted.None? || ev.bestPersisted.value < p.blockToWaitFor || p.current.None? then p
    else
      var latched := p.(stateToCopy := if p.stateToCopy == LongMaxValue then ev.bestPersisted.value else p.stateToCopy);
      var pruneAfter := latched.stateToCopy + MaxReorgDepth;
      if ev.head.None? || ev.head.value <= pruneAfter then latched
      else
        match ev.findHeader(latched.stateToCopy)
        case None => latched
        case Some(root) =>
          latched.(waitingForState := false,
                   launches := latched.launches + [Launch(p.current.value, root)],
                   onNewHead := Unsubscribe(latched.onNewHead))
  }

  /** OnNewHead: arm while the database can start pruning, wait while a state is awaited,
      and otherwise just unsubscribe. A head never subscribes the handler again and
      launches at most one run, only at the end of a wait. */
  function OnNewHead(p: Pruner, ev: HeadEvent): (r: Pruner)
    ensures r.onNewHead <= p.onNewHead
    ensures |r.launches| >= |p.launches| && r.launches[..|p.launches|] == p.launches
    ensures r.launches != p.launches ==>
              !ev.canStart && p.waitingForState && !r.waitingForState && |r.launches| == |p.launches| + 1
    ensures !ev.canStart && !p.waitingForState ==> r == p.(onNewHead := Unsubscribe(p.onNewHead))
  {
    if ev.canStart then Arm(p, ev)
    else if p.waitingForState then Wait(p, ev)
    else p.(onNewHead := Unsubscribe(p.onNewHead))
  }

  /** A head that finds the waiting-for-block flag raised and a context to start lowers
      the flag, records the context and, unless a state was already awaited, awaits the
      state two blocks on with no state chosen yet. */
  lemma ArmingHead(p: Pruner, ev: HeadEvent)
    requires ev.canStart && p.waitingForBlock && ev.block.Some? && ev.tryStart.Some?
    ensures var r := OnNewHead(p, ev);
            !r.waitingForBlock && r.current == ev.tryStart && r.waitingForState &&
            (!p.waitingForState ==> r.blockToWaitFor == ev.block.value + 2 && r.stateToCopy == LongMaxValue) &&
            r.launches == p.launches && r.onNewHead == p.onNewHead
  {
  }

  /** The chosen state is never replaced: a head after it was fixed keeps it. */
  lemma StateToCopyLatches(p: Pruner, ev: HeadEvent)
    requires !ev.canStart && p.waitingForState && p.stateToCopy != LongMaxValue
    ensures OnNewHead(p, ev).stateToCopy == p.stateToCopy
  {
  }

  /** The first head to see the awaited state persisted fixes it as the state to copy. */
  lemma StateToCopyFixed(p: Pruner, ev: HeadEvent)
    requires !ev.canStart && p.waitingForState && p.stateToCopy == LongMaxValue && p.current.Some?
    requires ev.bestPersisted.Some? && ev.bestPersisted.value >= p.blockToWaitFor
    ensures OnNewHead(p, ev).stateToCopy == ev.bestPersisted.value
  {
  }

  /** A wait has a context, and a state chosen during a wait is at least the block waited
      for. */
  ghost predicate Invariant(p: Pruner)
  {
    (p.waitingForState ==> p.current.Some?) &&
    (p.waitingForState && p.stateToCopy != LongMaxValue ==> p.stateToCopy >= p.blockToWaitFor)
  }

  /** A head launches at most one run, and only at the end of a wait, for the recorded
      context, on the state root of the chosen state's header, with the head more than
      MaxReorgDepth past that state; the same head unsubscribes OnNewHead. */
  lemma LaunchOnlyAfterReorgDepth(p: Pruner, ev: HeadEvent)
    requires Invariant(p)
    requires OnNewHead(p, ev).launches != p.launches
    ensures var r := OnNewHead(p, ev);
            !ev.canStart && p.waitingForState && !r.waitingForState && p.current.Some? &&
            r.launches == p.launches + [Launch(p.current.value, r.launches[|r.launches| - 1].stateRoot)] &&
            ev.head.Some? && ev.head.value > r.stateToCopy + MaxReorgDepth &&
            ev.findHeader(r.stateToCopy) == Some(r.launches[|r.launches| - 1].stateRoot) &&
            ev.bestPersisted.Some? && r.stateToCopy >= p.blockToWaitFor &&
            r.onNewHead == Unsubscribe(p.onNewHead)
  {
  }

  /** With no pruning possible and no state awaited, OnNewHead unsubscribes and changes
      nothing else. */
  lemma IdleHeadUnsubscribes(p: Pruner, ev: HeadEvent)
    requires !ev.canStart && !p.waitingForState
    ensures OnNewHead(p, ev) == p.(onNewHead := Unsubscribe(p.onNewHead))
  {
  }

  lemma OnPruneKeepsInvariant(p: Pruner, canStart: bool)
    requires Invariant(p)
    ensures Invariant(OnPrune(p, canStart).0)
  {
  }

  lemma OnNewHeadKeepsInvariant(p: Pruner, ev: HeadEvent)
    requires Invariant(p)
    ensures Invariant(OnNewHead(p, ev))
  {
  }

  /** The pruner after a run of heads. */
  function Heads(p: Pruner, evs: seq<HeadEvent>): Pruner
    decreases |evs|
  {
    if |evs| == 0 then p else Heads(OnNewHead(p, evs[0]), evs[1..])
  }

  /** The heads among `evs` on which a pruning context could be started. */
  function Starts(evs: seq<HeadEvent>): nat
  {
    if |evs| == 0 then 0
    else (if evs[0].canStart && evs[0].block.Some? && evs[0].tryStart.Some? then 1 else 0) + Starts(evs[1..])
  }

  /** Launched runs plus the one a wait will launch. */
  function Promised(p: Pruner): nat
  {
    |p.launches| + if p.waitingForState then 1 else 0
  }

  lemma OnNewHeadPromises(p: Pruner, ev: HeadEvent)
    ensures var r := OnNewHead(p, ev);
            Promised(r) <= Promised(p) + (if ev.canStart && ev.block.Some? && ev.tryStart.Some? then 1 else 0) &&
            |r.launches| >= |p.launches| && r.launches[..|p.launches|] == p.launches
  {
  }

  /** Runs are never launched twice for one start: over any run of heads, the runs
      launched are at most the contexts started (plus one for a wait already under way),
      and the runs launched before stay as they were. */
  lemma {:induction false} OneLaunchPerStart(p: Pruner, evs: seq<HeadEvent>)
    ensures |Heads(p, evs).launches| <= Promised(p) + Starts(evs)
    ensures |Heads(p, evs).launches| >= |p.launches| && Heads(p, evs).launches[..|p.launches|] == p.launches
    decreases |evs|
  {
    if |evs| > 0 {
      var next := OnNewHead(p, evs[0]);
      OnNewHeadPromises(p, evs[0]);
      OneLaunchPerStart(next, evs[1..]);
      assert Heads(p, evs).launches[..|next.launches|][..|p.launches|] == Heads(p, evs).launches[..|p.launches|];
    }
  }

  /** What copying the state tree comes to. */
  datatype CopyOutcome = Copied | Cancelled | Failed

  /** A pruning context: marked started, committed, disposed. */
  datatype Context = Context(marked: bool, committed: bool, disposed: bool)

  /** After RunPruning: the context, whether a commit waits for the next new head, and
      whether the exception is rethrown. */
  datatype RunResult = RunResult(context: Context, commitOnNewBlock: bool, rethrows: bool)

  /** RunPruning: a completed copy leaves the context open with its commit waiting for the
      next head; a cancelled copy disposes of the context; an exception disposes of it and
      is rethrown. `markFails` is an exception from MarkStart itself. */
  function RunPruning(ctx: Context, markFails: bool, outcome: CopyOutcome): (r: RunResult)
    requires !ctx.committed && !ctx.disposed
    ensures r.rethrows <==> markFails || outcome == Failed
    ensures r.commitOnNewBlock <==> !r.rethrows && outcome == Copied
    ensures !r.context.committed
    ensures r.context.disposed <==> !r.commitOnNewBlock
  {
    if markFails then RunResult(ctx.(disposed := true), false, true)
    else
      var marked := ctx.(marked := true);
      match outcome
      case Copied => RunResult(marked, true, false)
      case Cancelled => RunResult(marked.(disposed := true), false, false)
      case Failed => RunResult(marked.(disposed := true), false, true)
  }

  /** The handler a completed copy leaves on NewHeadBlock: it unsubscribes itself, then
      commits and disposes of the context. The handler has no try block, so a Commit that
      throws (`commitFails`) leaves the context neither committed nor disposed. */
  function CommitOnNewBlock(ctx: Context, commitFails: bool): (r: Context)
    ensures !commitFails ==> r.committed && r.disposed && r.marked == ctx.marked
    ensures commitFails ==> r == ctx
  {
    if commitFails then ctx else ctx.(committed := true, disposed := true)
  }

  /** A run's context ends committed exactly when the copy completed, a new head arrived
      after it and the commit went through. It ends disposed unless a commit is still
      waiting for a head or the commit threw. */
  lemma RunEndsDisposed(ctx: Context, markFails: bool, outcome: CopyOutcome, nextHead: bool, commitFails: bool)
    requires !ctx.committed && !ctx.disposed
    ensures var run := RunPruning(ctx, markFails, outcome);
            var final := if run.commitOnNewBlock && nextHead then CommitOnNewBlock(run.context, commitFails) else run.context;
            (final.committed <==> !markFails && outcome == Copied && nextHead && !commitFails) &&
            (final.disposed <==> !(run.commitOnNewBlock && (!nextHead || commitFails))) &&
            (final.committed ==> final.marked)
  {
  }
}
