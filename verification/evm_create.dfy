/** CREATE and CREATE2: the EIP-3860 init-code limit and charges, the declines (depth,
    balance, nonce), the address-collision rule, the child frame a creation enters, and the
    code-deposit decision taken when that frame returns. */
module EvmCreate {

  import opened Prelude
  import opened EvmGas
  import opened EvmExceptions
  import opened EvmFrame
  import opened WorldState

  datatype CreateOpcode = CREATE | CREATE2

  /** The stack operands of a creation (CREATE2's salt only feeds the address). */
  datatype CreateOperands = CreateOperands(value: Word, initCodeOffset: Word, initCodeLength: Word)

  /** The gas a creation charges before it looks at the world: Create, plus InitCodeWord per
      word of init code under EIP-3860, plus Sha3Word per word for CREATE2's hashing. */
  function CreateCost(spec: ReleaseSpec, op: CreateOpcode, initCodeLength: nat): (r: nat)
    ensures r >= EvmGas.Create
    ensures !spec.isEip3860Enabled && op == CREATE ==> r == EvmGas.Create
  {
    EvmGas.Create
    + (if spec.isEip3860Enabled then InitCodeWord * Div32Ceiling(initCodeLength) else 0)
    + (if op == CREATE2 then Sha3Word * Div32Ceiling(initCodeLength) else 0)
  }

  /** CREATE2 pays exactly the hashing of its init code on top of what CREATE pays. */
  lemma Create2PaysForHashing(spec: ReleaseSpec, initCodeLength: nat)
    ensures CreateCost(spec, CREATE2, initCodeLength) == CreateCost(spec, CREATE, initCodeLength) + Sha3Word * Div32Ceiling(initCodeLength)
    ensures CreateCost(spec, CREATE, initCodeLength + 32) >= CreateCost(spec, CREATE, initCodeLength)
  {
  }

  /** What a creation instruction does: fault; decline (push 0, no child, no snapshot);
      collide with an existing account (push 0, no child, the gas meant for the child is
      gone); or enter the init-code frame. */
  datatype CreateOutcome =
    | CreateFault(error: EvmException)
    | CreateDeclined(gas: int, journal: Journal)
    | CreateCollision(gas: int, warm: set<Address>, journal: Journal)
    | CreateEntered(gas: int, warm: set<Address>, journal: Journal, child: Frame)

  /** The gas a creation hands to its child: everything, or all but one 64th under EIP-150. */
  function CreateCallGas(spec: ReleaseSpec, gas: nat): (r: nat)
    ensures r <= gas
    ensures spec.use63Over64Rule ==> gas - r == gas / 64
    ensures !spec.use63Over64Rule ==> r == gas
  {
    if spec.use63Over64Rule then gas - gas / 64 else gas
  }

  /** An account occupies an address when it exists with code or with a non-zero nonce. */
  function Collides(s: State, address: Address): (r: bool)
    ensures r ==> AccountExists(s, address) && !IsDeadAccount(s, address)
    ensures AccountExists(s, address) && |Code(s, address)| == 0 && Nonce(s, address) == 0 ==> !r
  {
    AccountExists(s, address) && (|Code(s, address)| != 0 || Nonce(s, address) != 0)
  }

  /** The executing account, created with no balance if it is missing. */
  function EnsureExecuting(s: State, executing: Address): (r: State)
    ensures AccountExists(r, executing) && Balance(r, executing) == Balance(s, executing)
    ensures Nonce(r, executing) == Nonce(s, executing)
    ensures AccountExists(s, executing) ==> r == s
  {
    if AccountExists(s, executing) then s else CreateAccount(s, executing, 0)
  }

  /** The part of a creation after every decline has been ruled out: hand `paid` (the gas
      left after the charges) to the child under EIP-150, warm the new address, bump the
      creator's nonce, take a snapshot, and then either collide or clear the new account's
      storage, move the value and enter the init code. `s` is the world with the creator's
      account in place. */
  function StartCreation(spec: ReleaseSpec, op: CreateOpcode, frame: Frame, paid: nat, warm: set<Address>,
                         j: Journal, s: State, value: Word, initCode: seq<byte>, contractAddress: Address): (r: CreateOutcome)
    requires AccountExists(s, frame.env.executing) && value <= Balance(s, frame.env.executing)
    ensures r.CreateCollision? || r.CreateEntered?
    ensures spec.useHotAndColdStorage ==> contractAddress in r.warm
    // the snapshot is taken after the nonce bump, so a rollback keeps the bump
    ensures var bumped := IncrementNonce(s, frame.env.executing);
            |r.journal.saved| == |j.saved| + 1 && r.journal.saved[..|j.saved|] == j.saved &&
            r.journal.saved[|j.saved|] == bumped &&
            (r.CreateCollision? <==> Collides(bumped, contractAddress))
    // a collision swallows the gas meant for the child
    ensures r.CreateCollision? ==> r.gas == paid - CreateCallGas(spec, paid) && r.journal.current == IncrementNonce(s, frame.env.executing)
    ensures r.CreateEntered? ==>
              r.gas + r.child.gas == paid && r.child.gas == CreateCallGas(spec, paid) &&
              r.child.snapshot == |j.saved| &&
              r.child.env.executing == contractAddress && r.child.env.caller == frame.env.executing &&
              r.child.env.transferValue == value && r.child.env.value == value && r.child.env.code == initCode &&
              r.child.env.input == [] && r.child.env.depth == frame.env.depth + 1 &&
              r.child.executionType == (if op == CREATE then Create else Create2) &&
              r.child.outputLength == 0 && r.child.outputDestination == 0 &&
              !r.child.isTopLevel && !r.child.isContinuation && r.child.isStatic == frame.isStatic &&
              r.child.substate == EmptySubstate &&
              r.child.isCreateOnPreExistingAccount == AccountExists(s, contractAddress) &&
              Balance(r.journal.current, frame.env.executing) + value == Balance(s, frame.env.executing) &&
              AccountExists(r.journal.current, contractAddress) == AccountExists(s, contractAddress)
  {
    var executing := frame.env.executing;
    var callGas := CreateCallGas(spec, paid);
    var warm1 := if spec.useHotAndColdStorage then warm + {contractAddress} else warm;
    var s2 := IncrementNonce(s, executing);
    var snap := TakeSnapshot(Apply(j, s2));
    if Collides(s2, contractAddress) then CreateCollision(paid - callGas, warm1, snap.journal)
    else
      assert contractAddress != executing;
      // an existing account gets an empty storage root; a missing (hence dead) one has its
      // storage cleared, which is the same operation on the map model
      var s3 := ClearStorage(s2, contractAddress);
      var s4 := SubtractFromBalance(s3, executing, value);
      var env := Env(executing, contractAddress, None, value, value, [], initCode, frame.env.depth + 1);
      var child := Frame(callGas, env, if op == CREATE then Create else Create2, false, snap.id,
                         0, 0, frame.isStatic, false, AccountExists(s2, contractAddress), false, EmptySubstate);
      CreateEntered(paid - callGas, warm1, Apply(snap.journal, s4), child)
  }

  /** The gas left once the creation cost and the memory expansion are paid, if they can be. */
  function CreationCharges(spec: ReleaseSpec, op: CreateOpcode, gas: int, initCodeLength: nat, memoryCost: int): (r: Option<nat>)
    ensures var total := CreateCost(spec, op, initCodeLength) + (if memoryCost > 0 then memoryCost else 0);
            (r.Some? <==> total <= gas) && (r.Some? ==> r.value == gas - total)
  {
    var charge := UpdateGas(CreateCost(spec, op, initCodeLength), gas);
    if !charge.ok then None
    else
      var expand := UpdateMemoryCost(memoryCost, charge.gas);
      if !expand.ok then None else Some(expand.gas)
  }

  /** A creation is declined at the depth limit, when the creator cannot pay the value, or
      when its nonce is exhausted. */
  function CreationDeclines(frame: Frame, s: State, value: Word): (r: bool)
    ensures frame.env.depth >= MaxCallDepth ==> r
    ensures !r ==> frame.env.depth < MaxCallDepth && value <= Balance(s, frame.env.executing) &&
                   Nonce(s, frame.env.executing) < ULongMaxValue
  {
    frame.env.depth >= MaxCallDepth || value > Balance(s, frame.env.executing) ||
    Nonce(s, frame.env.executing) >= ULongMaxValue
  }

  /** A creation instruction executed by `frame` with `gas` left. `memoryCost` is the cost of
      expanding memory over the init code, `initCode` the init code itself, and
      `contractAddress` the address ContractAddress.From derives (from the creator and its
      nonce for CREATE, from the creator, salt and init code for CREATE2). */
  function ExecuteCreateOpcode(spec: ReleaseSpec, op: CreateOpcode, frame: Frame, gas: int, warm: set<Address>,
                               operands: CreateOperands, j: Journal, memoryCost: int, initCode: seq<byte>,
                               contractAddress: Address): (r: CreateOutcome)
    ensures op == CREATE2 && !spec.create2OpcodeEnabled ==> r == CreateFault(BadInstruction)
    ensures !(op == CREATE2 && !spec.create2OpcodeEnabled) && frame.isStatic ==> r == CreateFault(StaticCallViolation)
    // EIP-3860: oversized init code runs out of gas before anything is charged
    ensures (!(op == CREATE2 && !spec.create2OpcodeEnabled) && !frame.isStatic &&
             spec.isEip3860Enabled && operands.initCodeLength > spec.maxInitCodeSize) ==> r == CreateFault(OutOfGas)
    ensures r.CreateFault? ==> r.error in {BadInstruction, StaticCallViolation, OutOfGas}
    // every other outcome has paid the creation cost and the memory expansion
    ensures !r.CreateFault? ==>
              !(op == CREATE2 && !spec.create2OpcodeEnabled) && !frame.isStatic &&
              !(spec.isEip3860Enabled && operands.initCodeLength > spec.maxInitCodeSize) &&
              CreationCharges(spec, op, gas, operands.initCodeLength, memoryCost).Some?
    // and conversely an enabled, non-static creation whose init code is within the limit and
    // whose charges are affordable never faults: it is declined, collides or is entered
    ensures (!(op == CREATE2 && !spec.create2OpcodeEnabled) && !frame.isStatic &&
             !(spec.isEip3860Enabled && operands.initCodeLength > spec.maxInitCodeSize) &&
             CreationCharges(spec, op, gas, operands.initCodeLength, memoryCost).Some?) ==> !r.CreateFault?
    // a declined creation takes no snapshot, runs no child and keeps the paid-for gas
    ensures r.CreateDeclined? <==>
              !r.CreateFault? && CreationDeclines(frame, j.current, operands.value)
    ensures r.CreateDeclined? ==>
              r.gas == CreationCharges(spec, op, gas, operands.initCodeLength, memoryCost).value &&
              r.journal.saved == j.saved && r.journal.current == EnsureExecuting(j.current, frame.env.executing)
    ensures r.CreateCollision? || r.CreateEntered? ==>
              r == StartCreation(spec, op, frame, CreationCharges(spec, op, gas, operands.initCodeLength, memoryCost).value,
                                 warm, j, EnsureExecuting(j.current, frame.env.executing), operands.value, initCode, contractAddress)
  {
    if op == CREATE2 && !spec.create2OpcodeEnabled then CreateFault(BadInstruction)
    else if frame.isStatic then CreateFault(StaticCallViolation)
    else
      var s1 := EnsureExecuting(j.current, frame.env.executing);
      if spec.isEip3860Enabled && operands.initCodeLength > spec.maxInitCodeSize then CreateFault(OutOfGas)
      else
        var charges := CreationCharges(spec, op, gas, operands.initCodeLength, memoryCost);
        if charges.None? then CreateFault(OutOfGas)
        else if CreationDeclines(frame, s1, operands.value) then CreateDeclined(charges.value, Apply(j, s1))
        else StartCreation(spec, op, frame, charges.value, warm, j, s1, operands.value, initCode, contractAddress)
  }

  /** EIP-150 for creations: the creator keeps exactly one 64th of the gas left after the
      charges, and without the rule it keeps nothing. */
  lemma CreatorKeepsOne64th(spec: ReleaseSpec, op: CreateOpcode, frame: Frame, gas: int, warm: set<Address>,
                            operands: CreateOperands, j: Journal, memoryCost: int, initCode: seq<byte>,
                            contractAddress: Address)
    ensures var r := ExecuteCreateOpcode(spec, op, frame, gas, warm, operands, j, memoryCost, initCode, contractAddress);
            r.CreateEntered? ==>
              (spec.use63Over64Rule ==> r.gas == (r.gas + r.child.gas) / 64) &&
              (!spec.use63Over64Rule ==> r.gas == 0)
  {
  }

  /** Restoring the child's snapshot of a creation undoes the value transfer and the storage
      reset, but keeps the creator's nonce bump. */
  lemma RestoringCreationKeepsNonce(spec: ReleaseSpec, op: CreateOpcode, frame: Frame, gas: int, warm: set<Address>,
                                    operands: CreateOperands, j: Journal, memoryCost: int, initCode: seq<byte>,
                                    contractAddress: Address)
    ensures var r := ExecuteCreateOpcode(spec, op, frame, gas, warm, operands, j, memoryCost, initCode, contractAddress);
            r.CreateEntered? ==>
              r.child.snapshot < |r.journal.saved| &&
              var back := Restore(r.journal, r.child.snapshot).current;
              Nonce(back, frame.env.executing) == Nonce(j.current, frame.env.executing) + 1 &&
              Balance(back, frame.env.executing) == Balance(j.current, frame.env.executing)
  {
  }

  /** CodeDepositHandler.CalculateCost: CodeDeposit per byte, and an unpayable cost for code
      beyond the EIP-170 size limit. */
  function CodeDepositCost(spec: ReleaseSpec, codeLength: nat): (r: nat)
    ensures spec.limitCodeSize && codeLength > spec.maxCodeSize ==> r == LongMaxValue
    ensures !(spec.limitCodeSize && codeLength > spec.maxCodeSize) ==> r == CodeDeposit * codeLength
  {
    if spec.limitCodeSize && codeLength > spec.maxCodeSize then LongMaxValue else CodeDeposit * codeLength
  }

  /** CodeDepositHandler.CodeIsInvalid: under EIP-3541 code may not start with 0xEF. */
  predicate CodeIsInvalid(spec: ReleaseSpec, code: seq<byte>)
  {
    spec.isEip3541Enabled && |code| >= 1 && code[0] == 0xEF
  }

  /** What happens to the code a successful creation frame returns. */
  datatype Deposit =
    | StoreCode(cost: nat)   // install the code and charge the parent the deposit cost
    | FailDeposit            // consume all the child's gas, roll back, push 0
    | KeepEmpty              // pre-EIP-2: leave the account without code, free of charge

  /** The code-deposit decision, given the gas the child frame has left. */
  function DecideDeposit(spec: ReleaseSpec, childGas: int, code: seq<byte>): (r: Deposit)
    ensures r.StoreCode? <==> childGas >= CodeDepositCost(spec, |code|) && !CodeIsInvalid(spec, code)
    ensures r.StoreCode? ==> r.cost == CodeDepositCost(spec, |code|)
    ensures r.FailDeposit? <==> !r.StoreCode? && (spec.failOnOutOfGasCodeDeposit || CodeIsInvalid(spec, code))
    ensures r.KeepEmpty? ==> !spec.failOnOutOfGasCodeDeposit && !CodeIsInvalid(spec, code) &&
                             childGas < CodeDepositCost(spec, |code|)
  {
    var cost := CodeDepositCost(spec, |code|);
    var invalid := CodeIsInvalid(spec, code);
    if childGas >= cost && !invalid then StoreCode(cost)
    else if spec.failOnOutOfGasCodeDeposit || invalid then FailDeposit
    else KeepEmpty
  }

  /** Code beyond the EIP-170 limit is never stored: the deposit cost exceeds any gas a
      frame can hold. */
  lemma OversizedCodeNeverStored(spec: ReleaseSpec, childGas: int, code: seq<byte>)
    requires spec.limitCodeSize && |code| > spec.maxCodeSize && childGas < LongMaxValue
    ensures !DecideDeposit(spec, childGas, code).StoreCode?
    ensures spec.failOnOutOfGasCodeDeposit ==> DecideDeposit(spec, childGas, code) == FailDeposit
  {
  }
}
