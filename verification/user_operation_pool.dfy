/** The account-abstraction UserOperationPool: admission of user operations, and the
    resimulation and paymaster offence counting that runs on every new head block.
    Simulation is an oracle: its outcome for an operation is a parameter. Handlers the
    source runs asynchronously (SimulateAndAddToPool) run here to completion in place.
    An operation's identity is its `id`; the pool's snapshot is `ops`. */
module UserOperationPool {

  import opened Prelude

  const ZeroAddress: Address := 0

  /** The intrinsic gas of a transaction (G_transaction of the Yellow Paper). */
  const BaseTxGasCost: nat := 21000

  datatype UserOperation = UserOperation(
    id: nat,
    target: Address,
    paymaster: Address,
    maxFeePerGas: nat,
    callGas: nat,
    accessList: set<Address>,
    resimulationCounter: nat)

  datatype Config = Config(minimumGasPrice: nat, maxResimulations: int, singletonContract: Address)

  /** What the state provider answers about accounts. */
  datatype Accounts = Accounts(existing: set<Address>, contracts: set<Address>)

  /** The sorted pool's operations, the ids with a stored successful simulation, the
      offence counter and the banned paymasters. */
  datatype Pool = Pool(ops: seq<UserOperation>, simulated: set<nat>, offences: map<Address, int>, banned: set<Address>)

  datatype Verdict = Valid | FeeTooLow | NoTarget | BadPaymaster | AlreadyInPool | SimulationFailed

  function Ids(ops: seq<UserOperation>): set<nat>
  {
    set x | x in ops :: x.id
  }

  ghost predicate DistinctIds(ops: seq<UserOperation>)
  {
    forall i, j :: 0 <= i < j < |ops| ==> ops[i].id != ops[j].id
  }

  /** Every stored simulation belongs to an operation in the pool, and each operation is
      there once. */
  ghost predicate Consistent(pool: Pool)
  {
    DistinctIds(pool.ops) && pool.simulated <= Ids(pool.ops)
  }

  ghost predicate PaysEnough(cfg: Config, op: UserOperation)
  {
    cfg.minimumGasPrice <= op.maxFeePerGas && BaseTxGasCost <= op.callGas
  }

  ghost predicate TargetExists(acc: Accounts, op: UserOperation)
  {
    op.target != ZeroAddress && op.target in acc.existing
  }

  /** No paymaster, or one that exists, holds code and is not banned. */
  ghost predicate PaymasterUsable(acc: Accounts, pool: Pool, op: UserOperation)
  {
    op.paymaster == ZeroAddress ||
    (op.paymaster in acc.existing && op.paymaster in acc.contracts && op.paymaster !in pool.banned)
  }

  /** Every check before simulation passes. */
  ghost predicate Admissible(cfg: Config, acc: Accounts, pool: Pool, op: UserOperation)
  {
    PaysEnough(cfg, op) && TargetExists(acc, op) && PaymasterUsable(acc, pool, op) && op.id !in Ids(pool.ops)
  }

  /** ValidateUserOperation: the checks in their order, the first failing one naming the
      rejection; the simulation runs only when every other check passes. */
  function Validate(cfg: Config, acc: Accounts, pool: Pool, op: UserOperation, simulationSucceeds: bool): (r: Verdict)
    ensures r == Valid <==> Admissible(cfg, acc, pool, op) && simulationSucceeds
    ensures r == SimulationFailed <==> Admissible(cfg, acc, pool, op) && !simulationSucceeds
    ensures r == FeeTooLow <==> !PaysEnough(cfg, op)
    ensures r == NoTarget <==> PaysEnough(cfg, op) && !TargetExists(acc, op)
    ensures r == BadPaymaster <==> PaysEnough(cfg, op) && TargetExists(acc, op) && !PaymasterUsable(acc, pool, op)
  {
    if op.maxFeePerGas < cfg.minimumGasPrice || op.callGas < BaseTxGasCost then FeeTooLow
    else if op.target == ZeroAddress || op.target !in acc.existing then NoTarget
    else if op.paymaster != ZeroAddress &&
            (op.paymaster !in acc.existing || op.paymaster !in acc.contracts || op.paymaster in pool.banned) then BadPaymaster
    else if exists x :: x in pool.ops && x.id == op.id then AlreadyInPool
    else if !simulationSucceeds then SimulationFailed
    else Valid
  }

  /** A banned paymaster's operations are never admitted. */
  lemma BannedPaymasterRejected(cfg: Config, acc: Accounts, pool: Pool, op: UserOperation, simulationSucceeds: bool)
    requires op.paymaster != ZeroAddress && op.paymaster in pool.banned
    ensures Validate(cfg, acc, pool, op, simulationSucceeds) != Valid
  {
  }

  /** The operations other than `id`, in order. */
  function Without(ops: seq<UserOperation>, id: nat): (r: seq<UserOperation>)
    ensures forall z :: z in r <==> z in ops && z.id != id
    ensures Ids(r) == Ids(ops) - {id}
  {
    if |ops| == 0 then []
    else
      var rest := Without(ops[1..], id);
      assert ops == [ops[0]] + ops[1..];
      if ops[0].id == id then rest else [ops[0]] + rest
  }

  lemma {:induction false} WithoutKeepsDistinct(ops: seq<UserOperation>, id: nat)
    requires DistinctIds(ops)
    ensures DistinctIds(Without(ops, id))
  {
    if |ops| > 0 {
      WithoutKeepsDistinct(ops[1..], id);
      var rest := Without(ops[1..], id);
      if ops[0].id != id {
        var r := [ops[0]] + rest;
        forall x | x in ops[1..]
          ensures x.id != ops[0].id
        {
          var k :| 0 <= k < |ops[1..]| && ops[1..][k] == x;
          assert ops[k + 1] == x;
        }
        forall i, j | 0 <= i < j < |r|
          ensures r[i].id != r[j].id
        {
          assert r[j] == rest[j - 1] && r[j] in rest;
          if i > 0 {
            assert r[i] == rest[i - 1];
          }
        }
      }
    }
  }

  /** The operations with the resimulation counter of `id` raised by one. */
  function Bump(ops: seq<UserOperation>, id: nat): (r: seq<UserOperation>)
    ensures |r| == |ops| && forall i :: 0 <= i < |ops| ==> r[i].id == ops[i].id
    ensures forall i :: 0 <= i < |ops| && ops[i].id == id ==>
              r[i] == ops[i].(resimulationCounter := ops[i].resimulationCounter + 1)
    ensures forall z: UserOperation :: z.id != id ==> (z in r <==> z in ops)
  {
    seq(|ops|, i requires 0 <= i < |ops| =>
      if ops[i].id == id then ops[i].(resimulationCounter := ops[i].resimulationCounter + 1) else ops[i])
  }

  lemma BumpKeepsIds(ops: seq<UserOperation>, id: nat)
    ensures Ids(Bump(ops, id)) == Ids(ops)
    ensures DistinctIds(ops) ==> DistinctIds(Bump(ops, id))
  {
    var r := Bump(ops, id);
    forall n | n in Ids(ops)
      ensures n in Ids(r)
    {
      var x :| x in ops && x.id == n;
      var i :| 0 <= i < |ops| && ops[i] == x;
      assert r[i] in r;
    }
    forall n | n in Ids(r)
      ensures n in Ids(ops)
    {
      var x :| x in r && x.id == n;
      var i :| 0 <= i < |r| && r[i] == x;
      assert ops[i] in ops;
    }
  }

  /** TryRemove on the sorted pool; its Removed event drops the stored simulation. */
  function Remove(pool: Pool, id: nat): (r: Pool)
    ensures Ids(r.ops) == Ids(pool.ops) - {id} && r.simulated == pool.simulated - {id}
    ensures r.offences == pool.offences && r.banned == pool.banned
  {
    pool.(ops := Without(pool.ops, id), simulated := pool.simulated - {id})
  }

  /** SimulateAndAddToPool: a successful simulation is stored, a failed one removes the
      operation from the pool. */
  function SimulateAndAdd(pool: Pool, op: UserOperation, success: bool): (r: Pool)
    ensures success ==> r.ops == pool.ops && r.simulated == pool.simulated + {op.id}
    ensures !success ==> Ids(r.ops) == Ids(pool.ops) - {op.id} && op.id !in r.simulated
    ensures r.offences == pool.offences && r.banned == pool.banned
  {
    if success then pool.(simulated := pool.simulated + {op.id}) else Remove(pool, op.id)
  }

  /** AddUserOperation: insertion is attempted only for a valid operation (`inserts` is
      what the sorted pool's TryInsert answers); an inserted operation is then simulated
      against the head and kept only if that simulation succeeds. */
  function AddUserOperation(cfg: Config, acc: Accounts, pool: Pool, op: UserOperation,
                            simulationSucceeds: bool, inserts: bool, resimulationSucceeds: bool): (r: (Pool, bool))
    ensures r.1 <==> Validate(cfg, acc, pool, op, simulationSucceeds) == Valid && inserts
    ensures !r.1 ==> r.0 == pool
    ensures r.1 && resimulationSucceeds ==> r.0.ops == pool.ops + [op] && r.0.simulated == pool.simulated + {op.id}
    ensures r.1 && !resimulationSucceeds ==> Ids(r.0.ops) == Ids(pool.ops) && r.0.simulated == pool.simulated - {op.id}
    ensures r.0.offences == pool.offences && r.0.banned == pool.banned
  {
    if Validate(cfg, acc, pool, op, simulationSucceeds) == Valid && inserts then
      var inserted := pool.(ops := pool.ops + [op]);
      assert Ids(inserted.ops) == Ids(pool.ops) + {op.id};
      (SimulateAndAdd(inserted, op, resimulationSucceeds), true)
    else (pool, false)
  }

  /** Admission keeps the pool consistent. */
  lemma AddKeepsConsistent(cfg: Config, acc: Accounts, pool: Pool, op: UserOperation,
                           simulationSucceeds: bool, inserts: bool, resimulationSucceeds: bool)
    requires Consistent(pool)
    ensures Consistent(AddUserOperation(cfg, acc, pool, op, simulationSucceeds, inserts, resimulationSucceeds).0)
  {
    var r := AddUserOperation(cfg, acc, pool, op, simulationSucceeds, inserts, resimulationSucceeds);
    if r.1 {
      var ops := pool.ops + [op];
      assert op.id !in Ids(pool.ops);
      forall i, j | 0 <= i < j < |ops|
        ensures ops[i].id != ops[j].id
      {
        if j == |ops| - 1 {
          assert ops[i] in pool.ops;
        }
      }
      if !resimulationSucceeds {
        WithoutKeepsDistinct(ops, op.id);
      }
    }
  }

  /** Whose offence a removed operation counts as: its paymaster, or its target when it
      has none. */
  function Offender(op: UserOperation): Address
  {
    if op.paymaster == ZeroAddress then op.target else op.paymaster
  }

  /** The offences recorded for an address; none recorded counts as zero. */
  function Offences(pool: Pool, who: Address): int
  {
    if who in pool.offences then pool.offences[who] else 0
  }

  /** One more offence for `who`, banned once the count exceeds MaxResimulations. */
  function RecordOffence(cfg: Config, pool: Pool, who: Address): (r: Pool)
    ensures Offences(r, who) == Offences(pool, who) + 1
    ensures forall a :: a != who ==> Offences(r, a) == Offences(pool, a)
    ensures r.banned == if Offences(r, who) > cfg.maxResimulations then pool.banned + {who} else pool.banned
    ensures r.ops == pool.ops && r.simulated == pool.simulated
  {
    var count := Offences(pool, who) + 1;
    pool.(offences := pool.offences[who := count],
          banned := if count > cfg.maxResimulations then pool.banned + {who} else pool.banned)
  }

  /** Drop the stored simulation, count one more resimulation and simulate again. */
  function Resimulate(pool: Pool, op: UserOperation, success: bool): (r: Pool)
    ensures Ids(r.ops) <= Ids(pool.ops)
    ensures r.offences == pool.offences && r.banned == pool.banned
  {
    BumpKeepsIds(pool.ops, op.id);
    SimulateAndAdd(pool.(ops := Bump(pool.ops, op.id), simulated := pool.simulated - {op.id}), op, success)
  }

  /** Whether the new block touched an address the operation accesses. */
  predicate Touched(accessed: set<Address>, op: UserOperation)
  {
    accessed * op.accessList != {}
  }

  /** OnNewBlock for one operation of the snapshot: an untouched operation is left alone;
      a touched one past MaxResimulations is removed and counted against its offender;
      any other touched one is resimulated. */
  function Revisit(cfg: Config, accessed: set<Address>, pool: Pool, op: UserOperation, resimulates: nat -> bool): (r: Pool)
    ensures !Touched(accessed, op) ==> r == pool
    ensures Ids(r.ops) <= Ids(pool.ops) && pool.banned <= r.banned
    ensures forall a :: Offences(pool, a) <= Offences(r, a)
    // a removal drops the operation and its simulation and counts one offence
    ensures Touched(accessed, op) && op.resimulationCounter > cfg.maxResimulations ==>
              op.id !in Ids(r.ops) && op.id !in r.simulated &&
              Offences(r, Offender(op)) == Offences(pool, Offender(op)) + 1
    // a resimulation counts no offence and bans nobody
    ensures !(Touched(accessed, op) && op.resimulationCounter > cfg.maxResimulations) ==>
              r.offences == pool.offences && r.banned == pool.banned
  {
    if !Touched(accessed, op) then pool
    else if op.resimulationCounter > cfg.maxResimulations then RecordOffence(cfg, Remove(pool, op.id), Offender(op))
    else Resimulate(pool, op, resimulates(op.id))
  }

  /** Revisit every operation of the snapshot in order: the pool only loses operations,
      offence counts only grow and bans are never lifted; a block that touches nothing
      changes nothing. */
  function RevisitAll(cfg: Config, accessed: set<Address>, snapshot: seq<UserOperation>, pool: Pool,
                      resimulates: nat -> bool): (r: Pool)
    ensures Ids(r.ops) <= Ids(pool.ops) && pool.banned <= r.banned
    ensures forall a :: Offences(pool, a) <= Offences(r, a)
    ensures accessed == {} ==> r == pool
  {
    if |snapshot| == 0 then pool
    else RevisitAll(cfg, accessed, snapshot[1..], Revisit(cfg, accessed, pool, snapshot[0], resimulates), resimulates)
  }

  /** The addresses the block touched, less its beneficiary and the singleton contract. */
  function BlockAccessed(cfg: Config, accessed: set<Address>, beneficiary: Address): (r: set<Address>)
    ensures beneficiary !in r && cfg.singletonContract !in r && r <= accessed
  {
    accessed - {beneficiary, cfg.singletonContract}
  }

  /** OnNewBlock: every operation of the pool's snapshot revisited against the addresses
      the block touched; `resimulates` gives the simulation outcome per operation id. */
  function OnNewBlock(cfg: Config, pool: Pool, accessed: set<Address>, beneficiary: Address,
                      resimulates: nat -> bool): (r: Pool)
    ensures Ids(r.ops) <= Ids(pool.ops) && pool.banned <= r.banned
    ensures forall a :: Offences(pool, a) <= Offences(r, a)
    ensures accessed <= {beneficiary, cfg.singletonContract} ==> r == pool
  {
    RevisitAll(cfg, BlockAccessed(cfg, accessed, beneficiary), pool.ops, pool, resimulates)
  }

  /** What becomes of an operation of the snapshot: untouched it stays as it was; touched
      past MaxResimulations it is gone; otherwise it stays with its counter one higher if
      the resimulation succeeds, and is gone if not. */
  function Fate(cfg: Config, accessed: set<Address>, op: UserOperation, resimulates: nat -> bool): Option<UserOperation>
  {
    if !Touched(accessed, op) then Some(op)
    else if op.resimulationCounter > cfg.maxResimulations then None
    else if resimulates(op.id) then Some(op.(resimulationCounter := op.resimulationCounter + 1))
    else None
  }

  /** A revisit touches only the operation it visits. */
  lemma RevisitLeavesOthers(cfg: Config, accessed: set<Address>, pool: Pool, op: UserOperation,
                            resimulates: nat -> bool, z: UserOperation)
    requires z.id != op.id
    ensures z in Revisit(cfg, accessed, pool, op, resimulates).ops <==> z in pool.ops
    ensures Ids(Revisit(cfg, accessed, pool, op, resimulates).ops) - {op.id} == Ids(pool.ops) - {op.id}
  {
    BumpKeepsIds(pool.ops, op.id);
  }

  /** A revisit gives the visited operation its fate. */
  lemma RevisitGivesFate(cfg: Config, accessed: set<Address>, pool: Pool, op: UserOperation, resimulates: nat -> bool)
    requires op in pool.ops && DistinctIds(pool.ops)
    ensures var r := Revisit(cfg, accessed, pool, op, resimulates);
            match Fate(cfg, accessed, op, resimulates)
            case Some(kept) => kept in r.ops
            case None => op.id !in Ids(r.ops)
  {
    if Touched(accessed, op) && op.resimulationCounter <= cfg.maxResimulations && resimulates(op.id) {
      var i :| 0 <= i < |pool.ops| && pool.ops[i] == op;
      assert Bump(pool.ops, op.id)[i] in Bump(pool.ops, op.id);
    } else if Touched(accessed, op) && op.resimulationCounter <= cfg.maxResimulations {
      BumpKeepsIds(pool.ops, op.id);
    }
  }

  /** A revisit keeps the pool consistent when the visited operation is in it. */
  lemma RevisitKeepsConsistent(cfg: Config, accessed: set<Address>, pool: Pool, op: UserOperation, resimulates: nat -> bool)
    requires Consistent(pool) && op.id in Ids(pool.ops)
    ensures Consistent(Revisit(cfg, accessed, pool, op, resimulates))
  {
    if Touched(accessed, op) {
      if op.resimulationCounter > cfg.maxResimulations {
        WithoutKeepsDistinct(pool.ops, op.id);
      } else {
        BumpKeepsIds(pool.ops, op.id);
        if !resimulates(op.id) {
          WithoutKeepsDistinct(Bump(pool.ops, op.id), op.id);
        }
      }
    }
  }

  /** The snapshot's operations still waiting for their visit are in the pool, once each. */
  ghost predicate Pending(snapshot: seq<UserOperation>, pool: Pool)
  {
    DistinctIds(snapshot) && (forall i :: 0 <= i < |snapshot| ==> snapshot[i] in pool.ops) && Consistent(pool)
  }

  lemma {:induction false} PendingAfterRevisit(cfg: Config, accessed: set<Address>, snapshot: seq<UserOperation>,
                                               pool: Pool, resimulates: nat -> bool)
    requires |snapshot| > 0 && Pending(snapshot, pool)
    ensures Pending(snapshot[1..], Revisit(cfg, accessed, pool, snapshot[0], resimulates))
  {
    var op := snapshot[0];
    assert op in pool.ops;
    RevisitKeepsConsistent(cfg, accessed, pool, op, resimulates);
    forall i | 0 <= i < |snapshot[1..]|
      ensures snapshot[1..][i] in Revisit(cfg, accessed, pool, op, resimulates).ops
    {
      assert snapshot[1..][i] == snapshot[i + 1];
      RevisitLeavesOthers(cfg, accessed, pool, op, resimulates, snapshot[i + 1]);
    }
  }

  /** OnNewBlock keeps the pool consistent: no stored simulation outlives its operation. */
  lemma {:induction false} RevisitAllKeepsConsistent(cfg: Config, accessed: set<Address>, snapshot: seq<UserOperation>,
                                                     pool: Pool, resimulates: nat -> bool)
    requires Pending(snapshot, pool)
    ensures Consistent(RevisitAll(cfg, accessed, snapshot, pool, resimulates))
  {
    if |snapshot| > 0 {
      PendingAfterRevisit(cfg, accessed, snapshot, pool, resimulates);
      RevisitAllKeepsConsistent(cfg, accessed, snapshot[1..], Revisit(cfg, accessed, pool, snapshot[0], resimulates), resimulates);
    }
  }

  lemma OnNewBlockKeepsConsistent(cfg: Config, pool: Pool, accessed: set<Address>, beneficiary: Address,
                                  resimulates: nat -> bool)
    requires Consistent(pool)
    ensures Consistent(OnNewBlock(cfg, pool, accessed, beneficiary, resimulates))
  {
    RevisitAllKeepsConsistent(cfg, BlockAccessed(cfg, accessed, beneficiary), pool.ops, pool, resimulates);
  }

  /** Later revisits leave an operation of another id where it is. */
  lemma {:induction false} RevisitAllLeavesOthers(cfg: Config, accessed: set<Address>, snapshot: seq<UserOperation>,
                                                  pool: Pool, resimulates: nat -> bool, z: UserOperation)
    requires forall i :: 0 <= i < |snapshot| ==> snapshot[i].id != z.id
    ensures z in RevisitAll(cfg, accessed, snapshot, pool, resimulates).ops <==> z in pool.ops
    ensures z.id in Ids(RevisitAll(cfg, accessed, snapshot, pool, resimulates).ops) <==> z.id in Ids(pool.ops)
  {
    if |snapshot| > 0 {
      RevisitLeavesOthers(cfg, accessed, pool, snapshot[0], resimulates, z);
      var next := Revisit(cfg, accessed, pool, snapshot[0], resimulates);
      assert forall i :: 0 <= i < |snapshot[1..]| ==> snapshot[1..][i] == snapshot[i + 1];
      RevisitAllLeavesOthers(cfg, accessed, snapshot[1..], next, resimulates, z);
    }
  }

  /** Every operation of the snapshot meets its fate: kept as the fate says, or gone. */
  lemma {:induction false} RevisitAllGivesFate(cfg: Config, accessed: set<Address>, snapshot: seq<UserOperation>,
                                               pool: Pool, resimulates: nat -> bool, k: nat)
    requires Pending(snapshot, pool) && k < |snapshot|
    ensures var r := RevisitAll(cfg, accessed, snapshot, pool, resimulates);
            match Fate(cfg, accessed, snapshot[k], resimulates)
            case Some(kept) => kept in r.ops
            case None => snapshot[k].id !in Ids(r.ops)
  {
    var next := Revisit(cfg, accessed, pool, snapshot[0], resimulates);
    PendingAfterRevisit(cfg, accessed, snapshot, pool, resimulates);
    if k == 0 {
      RevisitGivesFate(cfg, accessed, pool, snapshot[0], resimulates);
      assert forall i :: 0 <= i < |snapshot[1..]| ==> snapshot[1..][i] == snapshot[i + 1];
      match Fate(cfg, accessed, snapshot[0], resimulates)
      case Some(kept) =>
        RevisitAllLeavesOthers(cfg, accessed, snapshot[1..], next, resimulates, kept);
      case None =>
        RevisitAllLeavesOthers(cfg, accessed, snapshot[1..], next, resimulates, snapshot[0]);
    } else {
      assert snapshot[1..][k - 1] == snapshot[k];
      RevisitAllGivesFate(cfg, accessed, snapshot[1..], next, resimulates, k - 1);
    }
  }

  /** On a new block every pool operation meets its fate against the touched addresses,
      which never include the beneficiary or the singleton contract. */
  lemma OnNewBlockGivesFate(cfg: Config, pool: Pool, accessed: set<Address>, beneficiary: Address,
                            resimulates: nat -> bool, k: nat)
    requires Consistent(pool) && k < |pool.ops|
    ensures var r := OnNewBlock(cfg, pool, accessed, beneficiary, resimulates);
            match Fate(cfg, BlockAccessed(cfg, accessed, beneficiary), pool.ops[k], resimulates)
            case Some(kept) => kept in r.ops
            case None => pool.ops[k].id !in Ids(r.ops)
  {
    RevisitAllGivesFate(cfg, BlockAccessed(cfg, accessed, beneficiary), pool.ops, pool, resimulates, k);
  }

  /** The removals in `snapshot` counted against `who`. */
  function OffenceCount(cfg: Config, accessed: set<Address>, snapshot: seq<UserOperation>, who: Address): nat
  {
    if |snapshot| == 0 then 0
    else
      var op := snapshot[0];
      (if Touched(accessed, op) && op.resimulationCounter > cfg.maxResimulations && Offender(op) == who then 1 else 0)
      + OffenceCount(cfg, accessed, snapshot[1..], who)
  }

  lemma RevisitCountsOffence(cfg: Config, accessed: set<Address>, pool: Pool, op: UserOperation,
                             resimulates: nat -> bool, who: Address)
    ensures var r := Revisit(cfg, accessed, pool, op, resimulates);
            var counted := Touched(accessed, op) && op.resimulationCounter > cfg.maxResimulations && Offender(op) == who;
            Offences(r, who) == Offences(pool, who) + (if counted then 1 else 0) &&
            (who in r.banned <==> who in pool.banned || (counted && Offences(r, who) > cfg.maxResimulations))
  {
  }

  /** Every removal on a new block counts one offence against its offender, from zero for
      an address with none recorded; an address is banned after the block exactly when it
      was before, or it offended in this block and its count now exceeds MaxResimulations. */
  lemma {:induction false} RevisitAllCountsOffences(cfg: Config, accessed: set<Address>, snapshot: seq<UserOperation>,
                                                    pool: Pool, resimulates: nat -> bool, who: Address)
    ensures var r := RevisitAll(cfg, accessed, snapshot, pool, resimulates);
            Offences(r, who) == Offences(pool, who) + OffenceCount(cfg, accessed, snapshot, who) &&
            (who in r.banned <==> who in pool.banned ||
                                  (OffenceCount(cfg, accessed, snapshot, who) > 0 && Offences(r, who) > cfg.maxResimulations))
  {
    if |snapshot| > 0 {
      var next := Revisit(cfg, accessed, pool, snapshot[0], resimulates);
      RevisitCountsOffence(cfg, accessed, pool, snapshot[0], resimulates, who);
      RevisitAllCountsOffences(cfg, accessed, snapshot[1..], next, resimulates, who);
    }
  }

  /** How OnNewBlock as written ends: after the whole snapshot, or at the exception
      raised part-way, with the changes made before it. */
  datatype Outcome = Completed(pool: Pool) | Threw(pool: Pool)

  /** Revisit as the source writes it: incrementing the offence counter of an address it
      holds no entry for throws, and a removed operation is still resimulated. */
  function RevisitAsWritten(cfg: Config, accessed: set<Address>, pool: Pool, op: UserOperation,
                            resimulates: nat -> bool): (r: Outcome)
    ensures !Touched(accessed, op) ==> r == Completed(pool)
    ensures r.Threw? <==>
              Touched(accessed, op) && op.resimulationCounter > cfg.maxResimulations && Offender(op) !in pool.offences
    ensures Ids(r.pool.ops) <= Ids(pool.ops) && pool.banned <= r.pool.banned
  {
    if !Touched(accessed, op) then Completed(pool)
    else if op.resimulationCounter > cfg.maxResimulations then
      var removed := Remove(pool, op.id);
      if Offender(op) !in removed.offences then Threw(removed)
      else Completed(Resimulate(RecordOffence(cfg, removed, Offender(op)), op, resimulates(op.id)))
    else Completed(Resimulate(pool, op, resimulates(op.id)))
  }

  /** The loop as written: it stops at the first exception. Only an operation touched
      past MaxResimulations can raise one. */
  function RevisitAllAsWritten(cfg: Config, accessed: set<Address>, snapshot: seq<UserOperation>, pool: Pool,
                               resimulates: nat -> bool): (r: Outcome)
    ensures Ids(r.pool.ops) <= Ids(pool.ops) && pool.banned <= r.pool.banned
    ensures r.Threw? ==>
              exists k :: 0 <= k < |snapshot| &&
                Touched(accessed, snapshot[k]) && snapshot[k].resimulationCounter > cfg.maxResimulations
  {
    if |snapshot| == 0 then Completed(pool)
    else
      match RevisitAsWritten(cfg, accessed, pool, snapshot[0], resimulates)
      case Threw(p) => Threw(p)
      case Completed(p) =>
        var rest := RevisitAllAsWritten(cfg, accessed, snapshot[1..], p, resimulates);
        assert forall k :: 0 <= k < |snapshot[1..]| ==> snapshot[1..][k] == snapshot[k + 1];
        rest
  }

  function OnNewBlockAsWritten(cfg: Config, pool: Pool, accessed: set<Address>, beneficiary: Address,
                               resimulates: nat -> bool): (r: Outcome)
    ensures Ids(r.pool.ops) <= Ids(pool.ops) && pool.banned <= r.pool.banned
    ensures r.Threw? ==>
              exists k :: 0 <= k < |pool.ops| &&
                Touched(BlockAccessed(cfg, accessed, beneficiary), pool.ops[k]) &&
                pool.ops[k].resimulationCounter > cfg.maxResimulations
  {
    RevisitAllAsWritten(cfg, BlockAccessed(cfg, accessed, beneficiary), pool.ops, pool, resimulates)
  }

  /** The two discrepancies only show on a removal: when no operation of the snapshot is
      touched past MaxResimulations, the loop as written and the corrected one agree. */
  lemma {:induction false} RevisitAllAsWrittenAgrees(cfg: Config, accessed: set<Address>, snapshot: seq<UserOperation>,
                                                     pool: Pool, resimulates: nat -> bool)
    requires forall k :: 0 <= k < |snapshot| ==>
               !(Touched(accessed, snapshot[k]) && snapshot[k].resimulationCounter > cfg.maxResimulations)
    ensures RevisitAllAsWritten(cfg, accessed, snapshot, pool, resimulates) ==
            Completed(RevisitAll(cfg, accessed, snapshot, pool, resimulates))
  {
    if |snapshot| > 0 {
      assert RevisitAsWritten(cfg, accessed, pool, snapshot[0], resimulates) ==
             Completed(Revisit(cfg, accessed, pool, snapshot[0], resimulates));
      assert forall k :: 0 <= k < |snapshot[1..]| ==> snapshot[1..][k] == snapshot[k + 1];
      RevisitAllAsWrittenAgrees(cfg, accessed, snapshot[1..], Revisit(cfg, accessed, pool, snapshot[0], resimulates),
                                resimulates);
    }
  }

  lemma OnNewBlockAsWrittenAgrees(cfg: Config, pool: Pool, accessed: set<Address>, beneficiary: Address,
                                  resimulates: nat -> bool)
    requires forall k :: 0 <= k < |pool.ops| ==>
               !(Touched(BlockAccessed(cfg, accessed, beneficiary), pool.ops[k]) &&
                 pool.ops[k].resimulationCounter > cfg.maxResimulations)
    ensures OnNewBlockAsWritten(cfg, pool, accessed, beneficiary, resimulates) ==
            Completed(OnNewBlock(cfg, pool, accessed, beneficiary, resimulates))
  {
    RevisitAllAsWrittenAgrees(cfg, BlockAccessed(cfg, accessed, beneficiary), pool.ops, pool, resimulates);
  }

  /** As written, the first offence of an address throws: an operation without paymaster,
      touched by the block and past MaxResimulations, whose target has no offence entry. */
  lemma FirstOffenceThrows(resimulates: nat -> bool)
    ensures var op := UserOperation(1, 7, ZeroAddress, 200, BaseTxGasCost, {5}, 6);
            var pool := Pool([op], {1}, map[], {});
            OnNewBlockAsWritten(Config(200, 5, 9), pool, {5}, 0, resimulates) == Threw(Pool([], {}, map[], {}))
  {
    var op := UserOperation(1, 7, ZeroAddress, 200, BaseTxGasCost, {5}, 6);
    var cfg := Config(200, 5, 9);
    var pool := Pool([op], {1}, map[], {});
    assert BlockAccessed(cfg, {5}, 0) == {5};
    assert 5 in {5} * op.accessList;
    assert Without([op], 1) == [];
    assert Remove(pool, 1) == Pool([], {}, map[], {});
    assert RevisitAsWritten(cfg, {5}, pool, op, resimulates) == Threw(Pool([], {}, map[], {}));
  }

  /** As written, an operation removed for too many resimulations is resimulated anyway,
      and a successful simulation stores it although it left the pool. */
  lemma RemovedOperationResimulated(resimulates: nat -> bool)
    requires resimulates(1)
    ensures var op := UserOperation(1, 7, ZeroAddress, 200, BaseTxGasCost, {5}, 6);
            var pool := Pool([op], {1}, map[7 := 0], {});
            var out := OnNewBlockAsWritten(Config(200, 5, 9), pool, {5}, 0, resimulates);
            Consistent(pool) && out == Completed(Pool([], {1}, map[7 := 1], {})) && !Consistent(out.pool)
  {
    var op := UserOperation(1, 7, ZeroAddress, 200, BaseTxGasCost, {5}, 6);
    var cfg := Config(200, 5, 9);
    var pool := Pool([op], {1}, map[7 := 0], {});
    assert BlockAccessed(cfg, {5}, 0) == {5};
    assert 5 in {5} * op.accessList;
    assert Without([op], 1) == [];
    assert Ids([op]) == {1};
    var removed := Remove(pool, 1);
    assert removed == Pool([], {}, map[7 := 0], {});
    var counted := RecordOffence(cfg, removed, 7);
    assert counted == Pool([], {}, map[7 := 1], {});
    assert Bump([], 1) == [];
    assert Resimulate(counted, op, true) == Pool([], {1}, map[7 := 1], {});
    var after := Pool([], {1}, map[7 := 1], {});
    assert RevisitAsWritten(cfg, {5}, pool, op, resimulates) == Completed(after);
    assert [op][1..] == [];
    assert OnNewBlockAsWritten(cfg, pool, {5}, 0, resimulates) == RevisitAllAsWritten(cfg, {5}, [], after, resimulates);
    assert Ids(after.ops) == {};
  }
}
