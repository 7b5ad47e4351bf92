# Nethermind core, modelled in Dafny

This project models parts of the Nethermind Ethereum client and proves properties of them.

- **The EVM frame loop.** This is `VirtualMachine.Run`. It covers:
  - entering a child frame and unwinding on an exception;
  - handing results back to the parent, and the code deposit of a creation;
  - precompiles;
  - the journal of world-state snapshots that a revert restores.
- **EVM instructions modelled in full.** These are the ones whose logic sits in the interpreter itself:
  - the CALL family and CREATE/CREATE2, with their declines, EIP-150 gas forwarding and snapshots;
  - SSTORE, with legacy and EIP-2200 net-metered gas;
  - the EIP-2929 warm/cold access charges;
  - JUMP and JUMPI;
  - RETURNDATACOPY;
  - the EIP-145 shifts.
- **Other components.**
  - `ReadOnlyOverlayCache`.
  - `NodeCommitInfo`.
  - The Verkle `HistoryOfAccounts` shard store and its `HistoryKey` encoding.
  - The fast-sync `SyncStatusList` batch walk.
  - `StateSyncDispatcher.GetRequest`.
  - The capability negotiation of `P2PProtocolHandler`.
  - The account-abstraction `UserOperationPool`.
  - The `FullPruner` trigger and wait state machine.

One Dafny module corresponds to one source component. `Prelude` holds the shared types: words, bytes, addresses and `Option`. `WorldState` is the account state and its snapshot journal.

Parts of the world the model cannot see are passed in as parameters:
- the executor of the instructions the frame loop runs;
- precompile results and simulation results;
- block-tree answers;
- dictionary enumeration orders.

## Model

| member | source | states |
|---|---|---|
| WorldState.CreditOrCreate | src/Nethermind/Nethermind.Evm/VirtualMachine.cs:619-628 | After a frame credits a transferred value, the executing account exists and holds its old balance plus the value. Every other account is untouched. |
| WorldState.CreateAccount | src/Nethermind/Nethermind.Evm/VirtualMachine.cs:619-628 | A missing account is created holding exactly the credited balance, with nonce 0, no code and no storage. No other account changes. |
| WorldState.AddToBalance | src/Nethermind/Nethermind.Evm/VirtualMachine.cs:619-628 | Crediting an existing account raises only its balance, by exactly the value. |
| WorldState.SubtractFromBalance | src/Nethermind/Nethermind.Evm/VirtualMachine.cs:1757 | Taking the value of a creation lowers only the sender's balance, by exactly the value. Subtracting zero changes nothing. |
| WorldState.IncrementNonce | src/Nethermind/Nethermind.Evm/VirtualMachine.cs:1734 | The creator's nonce goes up by one. Its balance and code and all other accounts stay as they were. |
| WorldState.InsertCode | src/Nethermind/Nethermind.Evm/VirtualMachine.cs:254-255 | A successful deposit makes the returned bytes the account's code and keeps its balance and nonce. A missing account is not created. |
| WorldState.ClearStorage | src/Nethermind/Nethermind.Evm/VirtualMachine.cs:1748-1755 | A created account starts with empty storage and otherwise keeps its record. |
| WorldState.DeleteAccount | src/Nethermind/Nethermind.Evm/VirtualMachine.cs:267-270 | A failed deposit removes the account the creation made and nothing else. |
| WorldState.SetStorage | src/Nethermind/Nethermind.Evm/VirtualMachine.cs:1392-1396 | SSTORE's write changes exactly one slot of one account. |
| WorldState.TakeSnapshot | src/Nethermind/Nethermind.Evm/VirtualMachine.cs:1910 | A snapshot records the current state under a fresh id, the next position of the log, and keeps the earlier snapshots. |
| WorldState.Restore | src/Nethermind/Nethermind.Evm/VirtualMachine.cs:311-324 | Restoring an id brings back the state recorded under it and forgets the later snapshots. |
| WorldState.Apply | src/Nethermind/Nethermind.Evm/VirtualMachine.cs:254-255 | A world change replaces the current state and leaves the snapshot log alone. |
| WorldState.RestoreUndoes | src/Nethermind/Nethermind.Evm/VirtualMachine.cs:147-168 | Whatever a frame did after its snapshot, as long as the log only grew, restoring that snapshot gives back exactly the world from before. |
| WorldState.RestoreIdempotent | src/Nethermind/Nethermind.Evm/VirtualMachine.cs:311-324 | Restoring twice to the same snapshot is the same as restoring once. |
| WorldState.RestoreNested | src/Nethermind/Nethermind.Evm/VirtualMachine.cs:147-168 | Restoring an inner snapshot and then an outer one is the same as restoring the outer one. |
| EvmGas.SClearRefund | src/Nethermind/Nethermind.Evm/VirtualMachine.cs:1308-1322 | After EIP-3529 the storage-clear refund is below the 15000 it was before. |
| EvmGas.UpdateGas | src/Nethermind/Nethermind.Evm/VirtualMachine.cs:466-475 | A charge succeeds exactly when the cost fits the gas. On success it leaves the gas minus the cost, never negative. On failure the counter is untouched. |
| EvmGas.UpdateMemoryCost | src/Nethermind/Nethermind.Evm/VirtualMachine.cs:442-464 | A non-positive expansion cost always succeeds and charges nothing. A positive one succeeds exactly when affordable and is charged then. |
| EvmGas.UpdateGasTwice | src/Nethermind/Nethermind.Evm/VirtualMachine.cs:466-475 | Two successive charges of non-negative costs both go through exactly when one charge of their sum does, and they leave the same gas. |
| EvmGas.PrecompileGas | src/Nethermind/Nethermind.Evm/VirtualMachine.cs:583-595 | A precompile's base and data costs are both paid exactly when each fits what is left, and the gas left is what remains after both. |
| EvmGas.PrecompileGasIsSumCharge | src/Nethermind/Nethermind.Evm/VirtualMachine.cs:583-595 | For non-negative costs, paying the two precompile charges in turn is the same as one charge of their sum. |
| EvmAccess.ChargeAccountAccessGas | src/Nethermind/Nethermind.Evm/VirtualMachine.cs:482-506 | Before EIP-2929 nothing is charged or recorded. After it, a cold non-precompile address costs ColdAccountAccess and becomes warm, and a warm one costs WarmStateRead only when the caller asks for it. |
| EvmAccess.SecondAccountAccessIsWarm | src/Nethermind/Nethermind.Evm/VirtualMachine.cs:482-506 | After one successful access to an address in a transaction, a second access never pays the cold surcharge. |
| EvmAccess.ChargeStorageAccessGas | src/Nethermind/Nethermind.Evm/VirtualMachine.cs:514-544 | A cold storage cell costs ColdSLoad and joins the warm set. A warm one costs WarmStateRead for SLOAD and nothing for SSTORE. Before EIP-2929 nothing happens. |
| EvmAccess.SecondStorageAccessIsWarm | src/Nethermind/Nethermind.Evm/VirtualMachine.cs:514-544 | A second access to the same cell is charged as warm, so the cold surcharge is paid at most once. |
| EvmFrame.CommitToParent | src/Nethermind/Nethermind.Evm/VirtualMachine.cs:306-309 | A child's refund adds to its parent's. The child's logs follow the parent's in order. The destroy lists are united. |
| EvmFrame.FailedSubstate | src/Nethermind/Nethermind.Evm/VirtualMachine.cs:147-168 | A transaction ending in an exception keeps no output, logs, refund or destroy list, is marked to revert and carries its error. |
| EvmSstore.NetMetered | src/Nethermind/Nethermind.Evm/VirtualMachine.cs:1323-1390 | The EIP-2200 schedule. A no-op write costs the no-op price. A clean slot costs SSet from zero and SReset otherwise, with the clear refund. A dirty slot costs the no-op price and moves refunds for clearing, un-clearing and restoring the original. |
| EvmSstore.ExecuteSStore | src/Nethermind/Nethermind.Evm/VirtualMachine.cs:1267-1396 | A static frame faults. Under the stipend fix, gas at or below the stipend faults with OutOfGas. A completed store writes exactly when the value changes. Under EIP-2929 it leaves the cell warm; before that the warm set is unchanged. Under net metering it completes iff the access charge and the schedule's charge fit, and the gas drops by exactly those. A legacy store completes iff the reset cost, the stipend guard, the access charge and, for a zero slot set to non-zero, SSet − SReset all fit; its gas and clear refund are exact. |
| EvmSstore.NetMeteredStep | src/Nethermind/Nethermind.Evm/VirtualMachine.cs:1323-1390 | When the reversal refunds match the prepaid amounts, every net-metered write costs one no-op write plus the change in what the slot has prepaid. |
| EvmSstore.NetGasTelescopes | src/Nethermind/Nethermind.Evm/VirtualMachine.cs:1323-1390 | Any run of k writes to one slot costs k no-op writes plus the prepaid amount of the final value minus that of the starting value. |
| EvmSstore.RestoringOriginalCostsOnlyNoOps | src/Nethermind/Nethermind.Evm/VirtualMachine.cs:1323-1390 | Writes that start from a clean slot and end at the original value cost in total only as many no-op writes as there were writes. |
| EvmShift.ToSigned | src/Nethermind/Nethermind.Evm/VirtualMachine.cs:2051-2077 | The two's-complement reading of a word lies in the signed 256-bit range and is negative exactly when the top bit is set. |
| EvmShift.FromSigned | src/Nethermind/Nethermind.Evm/VirtualMachine.cs:2051-2077 | Encoding a signed value gives a word whose signed reading is that value. |
| EvmShift.SignedRoundTrip | src/Nethermind/Nethermind.Evm/VirtualMachine.cs:2051-2077 | Reading a word as signed and encoding it back gives the same word. |
| EvmShift.Shl | src/Nethermind/Nethermind.Evm/VirtualMachine.cs:2011-2030 | SHL by 256 or more is zero. Otherwise the result is the low 256-a bits of b moved up by a places, so its low a bits are clear. Without overflow, SHL multiplies by 2^a. |
| EvmShift.Shr | src/Nethermind/Nethermind.Evm/VirtualMachine.cs:2031-2050 | SHR by 256 or more is zero. Otherwise it is the floor of b / 2^a and never exceeds b. |
| EvmShift.Sar | src/Nethermind/Nethermind.Evm/VirtualMachine.cs:2051-2077 | SAR by 256 or more gives 0 or -1 by sign. Otherwise the signed result is the floor of the signed operand over 2^a. |
| EvmShift.SarOfNonNegativeIsShr | src/Nethermind/Nethermind.Evm/VirtualMachine.cs:2031-2077 | On a value whose sign bit is clear, SAR and SHR agree. |
| EvmShift.SarPreservesSign | src/Nethermind/Nethermind.Evm/VirtualMachine.cs:2051-2077 | SAR never changes the sign of its operand. |
| EvmShift.ShrUndoesShl | src/Nethermind/Nethermind.Evm/VirtualMachine.cs:2011-2050 | SHL then SHR by the same amount gives back the low 256-a bits. Only the bits pushed out are lost. |
| EvmShift.ShrCompose | src/Nethermind/Nethermind.Evm/VirtualMachine.cs:2031-2050 | Two right shifts equal one right shift by the sum of the amounts. |
| EvmControl.Jump | src/Nethermind/Nethermind.Evm/VirtualMachine.cs:669-691 | A jump succeeds exactly when the destination fits an int and is a valid JUMPDEST. It then lands there with the gas unchanged. Otherwise it faults with InvalidJumpDestination. |
| EvmControl.JumpInstruction | src/Nethermind/Nethermind.Evm/VirtualMachine.cs:1462-1469 | JUMP without Mid gas is out of gas. Otherwise it is a jump after paying Mid, and it can only land on a JUMPDEST. |
| EvmControl.JumpIInstruction | src/Nethermind/Nethermind.Evm/VirtualMachine.cs:1470-1482 | JUMPI pays High. A zero condition falls through to the next instruction. Any other condition jumps. |
| EvmControl.TakenJumpIIsJump | src/Nethermind/Nethermind.Evm/VirtualMachine.cs:1462-1482 | A taken JUMPI lands exactly where JUMP would, for High - Mid more gas. |
| EvmControl.ReturnDataCopy | src/Nethermind/Nethermind.Evm/VirtualMachine.cs:1056-1083 | Before EIP-211 the instruction is bad. It runs out of gas exactly when VeryLow plus the word copy cost is unaffordable, or when a non-empty copy within bounds cannot pay its memory expansion. A read beyond the return buffer, or a 256-bit overflow of src + length, is an access violation. A copy takes exactly the requested slice. It leaves the gas minus VeryLow and the word cost, and minus the memory cost for a non-empty copy. |
| EvmControl.ReturnDataCopyInBounds | src/Nethermind/Nethermind.Evm/VirtualMachine.cs:1056-1083 | With affordable gas and a buffer of realistic size, the copy succeeds exactly when src + length fits the buffer, so the 256-bit overflow test adds nothing. |
| EvmCall.ValueOfCall | src/Nethermind/Nethermind.Evm/VirtualMachine.cs:1814-1826 | The value a child sees is zero for STATICCALL, the parent's own value for DELEGATECALL, and the popped operand for CALL and CALLCODE. |
| EvmCall.TransferValue | src/Nethermind/Nethermind.Evm/VirtualMachine.cs:1814-1828 | CALL and CALLCODE move the popped value. STATICCALL and DELEGATECALL move nothing. |
| EvmCall.Target | src/Nethermind/Nethermind.Evm/VirtualMachine.cs:1837 | CALL and STATICCALL run in the code source's account. CALLCODE and DELEGATECALL run in the caller's own account. |
| EvmCall.CallExecutionType | src/Nethermind/Nethermind.Evm/VirtualMachine.cs:2178-2203 | Each call opcode gets an execution type of its own, and none of them is a creation or a transaction. |
| EvmCall.Declines | src/Nethermind/Nethermind.Evm/VirtualMachine.cs:1886-1904 | A call is declined at the depth limit. A call without value below the limit is never declined. A call that goes ahead can pay the value it transfers. |
| EvmCall.ExtraGas | src/Nethermind/Nethermind.Evm/VirtualMachine.cs:1848-1862 | The surcharge is at most CallValue + NewAccount. It includes CallValue exactly when value moves. After EIP-161 a zero-value call pays none. A call to a live account never pays NewAccount. NewAccountIffCallCreatesAccount gives the meaning of the NewAccount part. |
| EvmCall.NewAccountIffCallCreatesAccount | src/Nethermind/Nethermind.Evm/VirtualMachine.cs:1848-1862 | NewAccount is charged exactly when crediting the call's value brings an account to life: before EIP-161 an account that did not exist, after it one that was dead. |
| EvmCall.CallCharges | src/Nethermind/Nethermind.Evm/VirtualMachine.cs:1864-1869 | The up-front charges go through exactly when their total fits, and leave the gas minus that total. |
| EvmCall.AllButOne64th | src/Nethermind/Nethermind.Evm/VirtualMachine.cs:1871-1879 | The EIP-150 cap withholds exactly gas/64. |
| EvmCall.ForwardedGas | src/Nethermind/Nethermind.Evm/VirtualMachine.cs:1871-1879 | Under EIP-150 the child gets the smaller of the requested gas and all but one 64th, so the caller keeps at least gas/64. Before EIP-150 the requested limit is passed on. |
| EvmCall.Stipend | src/Nethermind/Nethermind.Evm/VirtualMachine.cs:1881-1885 | A stipend is added exactly when the call carries value. |
| EvmCall.EnterJournal | src/Nethermind/Nethermind.Evm/VirtualMachine.cs:1910-1911 | A child starts from a snapshot of the caller's world, with the transfer taken from the caller. |
| EvmCall.ChildFrame | src/Nethermind/Nethermind.Evm/VirtualMachine.cs:1913-1948 | The child frame is one level deeper and static if its parent is or it is a STATICCALL. Its caller, executing account, value, input and output window come from the opcode, and its snapshot is the one just taken. |
| EvmCall.CodeRunsInCallerAccount | src/Nethermind/Nethermind.Evm/VirtualMachine.cs:1912-1921 | CALLCODE and DELEGATECALL run the code source's code in the caller's own account. DELEGATECALL keeps the parent's caller and value and moves nothing. CALLCODE is called by the parent and moves the popped value. |
| EvmCall.ExecuteCallOpcode | src/Nethermind/Nethermind.Evm/VirtualMachine.cs:1798-1949 | The outcome of one call instruction. A disabled opcode is a bad instruction. A value-carrying call from a static frame, other than CALLCODE, is a static-call violation. An enabled call runs out of gas exactly when the access charge, the up-front charges or the forwarded gas cannot be met. Every other call is declined or entered, and it is declined exactly at the depth limit or for lack of balance, which gives back the forwarded gas and the stipend. An entered call gets a child with the forwarded gas plus the stipend, a fresh snapshot, and the value moved. |
| EvmCall.CallerKeepsOne64th | src/Nethermind/Nethermind.Evm/VirtualMachine.cs:1871-1879 | Under EIP-150, a caller that enters a child keeps at least one 64th of what it had after the charges. |
| EvmCall.RestoringChildSnapshotUndoesTransfer | src/Nethermind/Nethermind.Evm/VirtualMachine.cs:1910-1911 | Restoring the entered child's snapshot gives back the caller's world exactly as it was before the value moved. |
| EvmCreate.CreateCost | src/Nethermind/Nethermind.Evm/VirtualMachine.cs:1683-1688 | A creation costs at least Create. Before EIP-3860, CREATE costs exactly Create. |
| EvmCreate.Create2PaysForHashing | src/Nethermind/Nethermind.Evm/VirtualMachine.cs:1683-1688 | CREATE2 costs exactly CREATE's price plus hashing the init code. Longer init code never costs less. |
| EvmCreate.CreateCallGas | src/Nethermind/Nethermind.Evm/VirtualMachine.cs:1721-1722 | Under EIP-150 a creation forwards all but exactly gas/64. Before it, all the gas is forwarded. |
| EvmCreate.EnsureExecuting | src/Nethermind/Nethermind.Evm/VirtualMachine.cs:1663-1666 | The creator account exists afterwards with its balance and nonce unchanged. An existing account is left untouched. |
| EvmCreate.Collides | src/Nethermind/Nethermind.Evm/VirtualMachine.cs:1738-1739 | Only an existing account that is not empty can collide. An existing account with no code and nonce 0 never collides. |
| EvmCreate.CreationDeclines | src/Nethermind/Nethermind.Evm/VirtualMachine.cs:1691-1716 | A creation is declined at the depth limit. One that goes ahead is below the limit, can pay its value, and has a nonce below 2^64-1, so the bump cannot overflow. |
| EvmCreate.StartCreation | src/Nethermind/Nethermind.Evm/VirtualMachine.cs:1728-1783 | The creator's nonce is bumped, the contract address warmed and a snapshot taken before the collision test, so the snapshot holds the bumped nonce. The collision test looks at the world with the bumped nonce. On a collision the forwarded gas is lost and the world keeps the bump. Otherwise the new account's storage is cleared, the value is moved and a creation frame is entered with the forwarded gas and the new snapshot. |
| EvmCreate.CreationCharges | src/Nethermind/Nethermind.Evm/VirtualMachine.cs:1683-1688 | The creation cost and memory expansion are paid exactly when their total fits, leaving the rest. |
| EvmCreate.ExecuteCreateOpcode | src/Nethermind/Nethermind.Evm/VirtualMachine.cs:1655-1784 | A disabled CREATE2 is a bad instruction. A static frame faults. Oversized init code or unaffordable charges run out of gas. These are the only faults: an enabled, non-static creation with allowed init code and affordable charges is declined, collides or is entered. It is declined exactly at the depth limit, for lack of balance or at the maximal nonce, and then takes no snapshot. Otherwise it collides or enters as StartCreation says. |
| EvmCreate.CreatorKeepsOne64th | src/Nethermind/Nethermind.Evm/VirtualMachine.cs:1721-1722 | When a creation enters its child, the creator keeps exactly one 64th of the gas left after the charges under EIP-150, and nothing before it. |
| EvmCreate.RestoringCreationKeepsNonce | src/Nethermind/Nethermind.Evm/VirtualMachine.cs:1734-1736 | Restoring the child's snapshot undoes the transfer and the storage clear, but the creator's bumped nonce survives. |
| EvmCreate.CodeDepositCost | src/Nethermind/Nethermind.Evm/VirtualMachine.cs:250-253 | Code above the EIP-170 limit is unpayable. Otherwise the deposit costs CodeDeposit per byte. |
| EvmCreate.DecideDeposit | src/Nethermind/Nethermind.Evm/VirtualMachine.cs:250-284 | Code is stored exactly when the child can pay for it and it is valid under EIP-3541. The deposit fails exactly when it is not stored and the release fails on out-of-gas deposits or the code is invalid. Otherwise the account is left without code. |
| EvmCreate.OversizedCodeNeverStored | src/Nethermind/Nethermind.Evm/VirtualMachine.cs:250-284 | Code beyond the size limit is never stored, and it fails the deposit whenever the release fails on out-of-gas deposits. |
| EvmRun.EnterFrame | src/Nethermind/Nethermind.Evm/VirtualMachine.cs:612-639 | A fresh frame credits its executing account with the transferred value, creating the account if needed. Under EIP-161 a created contract starts at nonce 1. A continuation changes nothing. |
| EvmRun.LogGrowthKeepsWellFormed | src/Nethermind/Nethermind.Evm/VirtualMachine.cs:83-361 | The frame stack stays consistent with the snapshot log as long as the log only grows. |
| EvmRun.EnterKeepsWellFormed | src/Nethermind/Nethermind.Evm/VirtualMachine.cs:136-145 | Pushing the current frame and entering a child with a newer snapshot keeps the frame stack consistent. |
| EvmRun.PopKeepsWellFormed | src/Nethermind/Nethermind.Evm/VirtualMachine.cs:233-238 | Resuming the parent over the same log, or over the log cut back to the child's snapshot, keeps the frame stack consistent. |
| EvmRun.Unwind | src/Nethermind/Nethermind.Evm/VirtualMachine.cs:147-168 | An exception rolls the world back to the frame's snapshot. At top level the transaction ends as a failure. Otherwise the parent resumes with a failure pushed, an empty return buffer and none of the child's gas. |
| EvmRun.Truncate | src/Nethermind/Nethermind.Evm/VirtualMachine.cs:285-304 | The output copied to the parent is a prefix of the child's output, no longer than the window the caller asked for. Output that fits is copied whole. |
| EvmRun.Resumed | src/Nethermind/Nethermind.Evm/VirtualMachine.cs:233-238 | The resumed parent is a continuation whose gas is its own plus what the child left. |
| EvmRun.ReturnFromCreation | src/Nethermind/Nethermind.Evm/VirtualMachine.cs:240-284 | A stored deposit installs the code, pays for it and pushes the new address. Keeping the account empty pushes the address. A failed deposit burns the child's gas, restores its snapshot, drops the created account and pushes zero. |
| EvmRun.ReturnToParent | src/Nethermind/Nethermind.Evm/VirtualMachine.cs:233-324 | A reverted child restores its snapshot and gives the parent its remaining gas and output. A call that succeeded commits its substate and pushes its status. A creation is handled as ReturnFromCreation says. |
| EvmRun.Complete | src/Nethermind/Nethermind.Evm/VirtualMachine.cs:171-238 | A returning top-level frame ends the transaction with its output, refund, destroy list, logs and revert flag. Any other frame hands its result to its parent. |
| EvmRun.RunPrecompile | src/Nethermind/Nethermind.Evm/VirtualMachine.cs:106-127 | Unaffordable costs are an OutOfGas exception. A failed precompile is an exception at top level, and elsewhere it reverts to the parent with no gas left and a failure pushed. |
| EvmRun.Step | src/Nethermind/Nethermind.Evm/VirtualMachine.cs:94-359 | Every turn keeps the frame stack consistent with the log. The transaction ends only from the top-level frame. An ending by exception leaves the world exactly as the transaction's snapshot recorded it. |
| EvmRun.Run | src/Nethermind/Nethermind.Evm/VirtualMachine.cs:83-361 | The snapshots taken before the transaction survive the whole run. A transaction that ends in an exception leaves the world exactly as it was at its snapshot. Instructions, the separately modelled ones included, run through the `exec` parameter, which only has to respect the snapshot log. |
| OverlayCache.View | src/Nethermind/Nethermind.Core/Caching/ReadOnlyOverlayCache.cs:25-47 | The cache presents the overlay's entries over the base's: every key of either, with the overlay's value winning. |
| OverlayCache.Over | src/Nethermind/Nethermind.Core/Caching/ReadOnlyOverlayCache.cs:20-23 | A fresh overlay presents exactly its base. |
| OverlayCache.Clear | src/Nethermind/Nethermind.Core/Caching/ReadOnlyOverlayCache.cs:20-23 | Clear drops the overlay and shows the base unchanged. |
| OverlayCache.TryGet | src/Nethermind/Nethermind.Core/Caching/ReadOnlyOverlayCache.cs:31-47 | TryGet finds a key exactly when the presented mapping has it, and returns that value, with the overlay first. |
| OverlayCache.Get | src/Nethermind/Nethermind.Core/Caching/ReadOnlyOverlayCache.cs:25-29 | Get returns the presented value, or the base's default for an absent key. |
| OverlayCache.Set | src/Nethermind/Nethermind.Core/Caching/ReadOnlyOverlayCache.cs:50-55 | Set changes the presented mapping at one key only, never writes the base, and reports true. |
| OverlayCache.Delete | src/Nethermind/Nethermind.Core/Caching/ReadOnlyOverlayCache.cs:57-61 | Delete removes the key from the overlay only and reports whether the overlay held it. |
| OverlayCache.Contains | src/Nethermind/Nethermind.Core/Caching/ReadOnlyOverlayCache.cs:63-66 | Contains is true exactly when the overlay or the base holds the key. |
| OverlayCache.Unshadowed | src/Nethermind/Nethermind.Core/Caching/ReadOnlyOverlayCache.cs:68-79 | The filtered base listing keeps every base entry the overlay does not shadow, and only those. |
| OverlayCache.Shadowed | src/Nethermind/Nethermind.Core/Caching/ReadOnlyOverlayCache.cs:68-79 | The part of the base the overlay does not hide. |
| OverlayCache.ViewSplits | src/Nethermind/Nethermind.Core/Caching/ReadOnlyOverlayCache.cs:68-79 | The presented mapping is the overlay next to the unshadowed base. |
| OverlayCache.UnshadowedListsRest | src/Nethermind/Nethermind.Core/Caching/ReadOnlyOverlayCache.cs:68-79 | Filtering an exact listing of the base by the overlay lists exactly the unshadowed base. |
| OverlayCache.UnshadowedKeepsDistinct | src/Nethermind/Nethermind.Core/Caching/ReadOnlyOverlayCache.cs:68-79 | Filtering keeps keys distinct. |
| OverlayCache.ListsConcat | src/Nethermind/Nethermind.Core/Caching/ReadOnlyOverlayCache.cs:68-79 | Listings of two maps with disjoint keys, one after the other, list their union. |
| OverlayCache.OverlayEntries | src/Nethermind/Nethermind.Core/Caching/ReadOnlyOverlayCache.cs:70-74 | The overlay's enumeration lists each of its entries exactly once. |
| OverlayCache.ToArray | src/Nethermind/Nethermind.Core/Caching/ReadOnlyOverlayCache.cs:68-79 | ToArray lists exactly the presented mapping, each key once. The overlay's entries come first, then the unshadowed base entries in the base's order. |
| OverlayCache.OverlayComesFirst | src/Nethermind/Nethermind.Core/Caching/ReadOnlyOverlayCache.cs:68-79 | A listing of the overlay put in front keeps the overlay's entries at the head. |
| OverlayCache.OverlayThenRestListsView | src/Nethermind/Nethermind.Core/Caching/ReadOnlyOverlayCache.cs:68-79 | The overlay's listing followed by the filtered base listing lists the presented mapping. |
| OverlayCache.SetThenGet | src/Nethermind/Nethermind.Core/Caching/ReadOnlyOverlayCache.cs:25-55 | A value just set is what Get and TryGet return, whatever the base holds. |
| OverlayCache.DeleteFallsBackToBase | src/Nethermind/Nethermind.Core/Caching/ReadOnlyOverlayCache.cs:31-61 | After Delete, a lookup of that key sees the base again. |
| OverlayCache.ContainsIffTryGet | src/Nethermind/Nethermind.Core/Caching/ReadOnlyOverlayCache.cs:31-66 | Contains agrees with TryGet on every key. |
| OverlayCache.ClearAfterWritesShowsBase | src/Nethermind/Nethermind.Core/Caching/ReadOnlyOverlayCache.cs:20-61 | The base is never written: clearing after a Set or a Delete shows exactly the base. |
| NodeCommitInfo.ForRoot | src/Nethermind/Nethermind.Trie/NodeCommitInfo.cs:5-11 | The two-argument constructor records the node and path with no parent and child position 0. |
| NodeCommitInfo.ForChild | src/Nethermind/Nethermind.Trie/NodeCommitInfo.cs:13-23 | The four-argument constructor records node, parent, path and child position as given. |
| NodeCommitInfo.EmptyBlockMarker | src/Nethermind/Nethermind.Trie/NodeCommitInfo.cs:32 | The default value has no node and no parent. |
| NodeCommitInfo.MarkerIsNotRoot | src/Nethermind/Nethermind.Trie/NodeCommitInfo.cs:32-34 | An empty-block marker is never the root. The root is exactly a present node without a parent. |
| NodeCommitInfo.ConstructorsClassify | src/Nethermind/Nethermind.Trie/NodeCommitInfo.cs:5-34 | The two-argument constructor builds a root, the four-argument one a non-root node, and the default an empty-block marker. |
| HistoryOfAccounts.FromBigEndian | src/Nethermind/Nethermind.Verkle.Tree/HistoryOfAccounts.cs:97 | A big-endian byte string denotes a number below 256^length. |
| HistoryOfAccounts.ToBigEndian | src/Nethermind/Nethermind.Verkle.Tree/HistoryOfAccounts.cs:97 | Writing a number in big-endian bytes of a given length and reading it back gives the number. |
| HistoryOfAccounts.LexLessIsNumericOrder | src/Nethermind/Nethermind.Verkle.Tree/HistoryOfAccounts.cs:97 | For equal lengths, bytewise order of big-endian strings is numeric order. |
| HistoryOfAccounts.LexLessAfterPrefix | src/Nethermind/Nethermind.Verkle.Tree/HistoryOfAccounts.cs:92-99 | A shared prefix does not change bytewise order. |
| HistoryOfAccounts.Encode | src/Nethermind/Nethermind.Verkle.Tree/HistoryOfAccounts.cs:92-99 | A history key encodes to 40 bytes that start with the 32-byte account key. |
| HistoryOfAccounts.EncodeLayout | src/Nethermind/Nethermind.Verkle.Tree/HistoryOfAccounts.cs:92-99 | The last 8 bytes of the encoding read back, big-endian, as the block bound. |
| HistoryOfAccounts.EncodeInjective | src/Nethermind/Nethermind.Verkle.Tree/HistoryOfAccounts.cs:92-99 | Distinct history keys have distinct encodings. |
| HistoryOfAccounts.EncodeOrdersByBound | src/Nethermind/Nethermind.Verkle.Tree/HistoryOfAccounts.cs:72-99 | For one account, the encodings sort in the order of their block bounds. This is what lets the seek in GetAppropriateShard find the first shard at or above a block. |
| HistoryOfAccounts.GetLastShardOfBlocks | src/Nethermind/Nethermind.Verkle.Tree/HistoryOfAccounts.cs:59-70 | The open shard is what is stored under the ulong.MaxValue key, or empty when nothing is stored. |
| HistoryOfAccounts.InsertShard | src/Nethermind/Nethermind.Verkle.Tree/HistoryOfAccounts.cs:33-52 | A shard of BlocksChunks numbers is stored under its last block and the open entry is removed. Any other shard becomes the open shard. Other accounts' entries are untouched. |
| HistoryOfAccounts.AppendHistoryBlockNumberForKey | src/Nethermind/Nethermind.Verkle.Tree/HistoryOfAccounts.cs:25-31 | After an append, the open shard is the old one plus the block, or empty when that filled it. |
| HistoryOfAccounts.Rem | src/Nethermind/Nethermind.Verkle.Tree/HistoryOfAccounts.cs:40 | The count of appends modulo the shard size, which always stays below the shard size. |
| HistoryOfAccounts.RemIsMod | src/Nethermind/Nethermind.Verkle.Tree/HistoryOfAccounts.cs:40 | That count agrees with n % c. |
| HistoryOfAccounts.RemStep | src/Nethermind/Nethermind.Verkle.Tree/HistoryOfAccounts.cs:40 | One more append moves the count up by one, or wraps it to zero. |
| HistoryOfAccounts.AppendToOpenShard | src/Nethermind/Nethermind.Verkle.Tree/HistoryOfAccounts.cs:25-52 | One append to an open shard that is not full grows it by the block, or closes it when it becomes full. |
| HistoryOfAccounts.Rotate | src/Nethermind/Nethermind.Verkle.Tree/HistoryOfAccounts.cs:25-52 | An independent statement of shard rotation. Starting from a shard that is not full, the shard never reaches the size limit. |
| HistoryOfAccounts.AppendAllRotates | src/Nethermind/Nethermind.Verkle.Tree/HistoryOfAccounts.cs:25-52 | Appending any run of blocks to the store moves its open shard as Rotate says. |
| HistoryOfAccounts.RotateFromEmpty | src/Nethermind/Nethermind.Verkle.Tree/HistoryOfAccounts.cs:25-52 | From an empty shard, rotation leaves exactly the last (count mod size) blocks. |
| HistoryOfAccounts.OpenShardIsRemainder | src/Nethermind/Nethermind.Verkle.Tree/HistoryOfAccounts.cs:25-52 | Starting with no open shard, after any appends the open shard holds exactly the last (count mod BlocksChunks) block numbers. |
| HistoryOfAccounts.OpenShardNeverFull | src/Nethermind/Nethermind.Verkle.Tree/HistoryOfAccounts.cs:25-52 | The open shard's length is the count modulo BlocksChunks, so it is never full. |
| SyncStatusList.TrySet | src/Nethermind/Nethermind.Synchronization/FastBlocks/SyncStatusList.cs:56 | A status moves exactly when the transition is allowed, and only the status of that one block changes. The previous status is reported either way. |
| SyncStatusList.Reset | src/Nethermind/Nethermind.Synchronization/FastBlocks/SyncStatusList.cs:34-42 | After a reset every block is Pending, and the watermark is the lowest inserted block, or the pivot when there is none. |
| SyncStatusList.MarkInserted | src/Nethermind/Nethermind.Synchronization/FastBlocks/SyncStatusList.cs:86-92 | The queue grows by one exactly when the block moves to Inserted. Otherwise nothing changes. |
| SyncStatusList.MarkPending | src/Nethermind/Nethermind.Synchronization/FastBlocks/SyncStatusList.cs:96-102 | A block that goes back to Pending has its info cached for the next batch. Otherwise nothing changes. |
| SyncStatusList.Fetch | src/Nethermind/Nethermind.Synchronization/FastBlocks/SyncStatusList.cs:58-65 | A cached block's info is handed out from the cache. Any other block's info comes from the block tree. |
| SyncStatusList.Visit | src/Nethermind/Nethermind.Synchronization/FastBlocks/SyncStatusList.cs:48-83 | A filled slot is skipped without moving to the next block. Any other turn moves one block down. |
| SyncStatusList.Send | src/Nethermind/Nethermind.Synchronization/FastBlocks/SyncStatusList.cs:56-69 | Handing a block out fills one slot and moves one block down. |
| SyncStatusList.SendKeepsSlots | src/Nethermind/Nethermind.Synchronization/FastBlocks/SyncStatusList.cs:56-69 | Handing a block out keeps every filled slot matched to an empty input slot, its block Sent and the info fetched for it. |
| SyncStatusList.SendKeepsOldSlot | src/Nethermind/Nethermind.Synchronization/FastBlocks/SyncStatusList.cs:56-69 | A slot filled earlier keeps its block and that block's record through a send. |
| SyncStatusList.SendKeepsStatuses | src/Nethermind/Nethermind.Synchronization/FastBlocks/SyncStatusList.cs:56-69 | A send changes only the status of the block it hands out, and the cache only loses entries. |
| SyncStatusList.ValuesOfNewKey | src/Nethermind/Nethermind.Synchronization/FastBlocks/SyncStatusList.cs:67 | Recording a new slot adds exactly its block to the blocks handed out. |
| SyncStatusList.SendKeepsWalking | src/Nethermind/Nethermind.Synchronization/FastBlocks/SyncStatusList.cs:56-69 | Handing a block out keeps the walk's invariant. |
| SyncStatusList.OtherKeepsWalking | src/Nethermind/Nethermind.Synchronization/FastBlocks/SyncStatusList.cs:48-83 | Skipping, watermark moves and refusals keep the walk's invariant. |
| SyncStatusList.WalkEnds | src/Nethermind/Nethermind.Synchronization/FastBlocks/SyncStatusList.cs:44-84 | The invariant at the end of the walk spelled out as GetInfosForBatch promises it. |
| SyncStatusList.GetInfosForBatch | src/Nethermind/Nethermind.Synchronization/FastBlocks/SyncStatusList.cs:44-84 | Filled slots stay as they were. Each newly filled slot was empty and holds a block that moved to Sent with its cached or canonical info, and slots in order get blocks in descending order. No other block's status changes and the cache only loses entries. The watermark moves down only over inserted blocks, and the queue shrinks by as much. An empty slot is left unfilled only when no block from the watermark down to the lower bound, above block 0, that was not handed out could move to Sent. |
| SyncStatusList.HandedOutOnce | src/Nethermind/Nethermind.Synchronization/FastBlocks/SyncStatusList.cs:56-82 | No block is handed out twice in one batch. |
| StateSyncRequest.Pack | src/Nethermind/Nethermind.Synchronization/StateSync/StateSyncDispatcher.cs:204 | Full paths pack two nibbles per byte, halving the length. |
| StateSyncRequest.Unpack | src/Nethermind/Nethermind.Synchronization/StateSync/StateSyncDispatcher.cs:204 | Each byte unpacks to two nibbles. |
| StateSyncRequest.UnpackPack | src/Nethermind/Nethermind.Synchronization/StateSync/StateSyncDispatcher.cs:204 | Packing an even-length path and unpacking it gives the path back. |
| StateSyncRequest.CompactHex | src/Nethermind/Nethermind.Synchronization/StateSync/StateSyncDispatcher.cs:204 | The hex-prefix encoding has one more byte than half the path. An even path starts with 0x00, and an odd path starts with the odd flag in the high nibble. |
| StateSyncRequest.CompactHexRoundTrip | src/Nethermind/Nethermind.Synchronization/StateSync/StateSyncDispatcher.cs:204 | Decoding the hex-prefix encoding gives the path back. |
| StateSyncRequest.DecodeCompactHex | src/Nethermind/Nethermind.Synchronization/StateSync/StateSyncDispatcher.cs:204 | The hex-prefix decoder reads a first byte with high nibble 1 as an odd path led by its low nibble, giving 2n-1 nibbles. Any other first byte is padding, giving 2n-2 nibbles. |
| StateSyncRequest.DecodeCompactHexRoundTrip | src/Nethermind/Nethermind.Synchronization/StateSync/StateSyncDispatcher.cs:204 | Every well-formed hex-prefix encoding is the encoding of what it decodes to. With CompactHexRoundTrip this makes the encoding a bijection onto the well-formed byte strings. |
| StateSyncRequest.EncodePath | src/Nethermind/Nethermind.Synchronization/StateSync/StateSyncDispatcher.cs:204 | A 64-nibble path becomes 32 bytes that unpack to it. Any other path gets the hex-prefix encoding, which decodes to it. |
| StateSyncRequest.EncodePathInjective | src/Nethermind/Nethermind.Synchronization/StateSync/StateSyncDispatcher.cs:204 | Two paths of the same kind (both full or both partial) never share an encoding. |
| StateSyncRequest.EncodePathAcrossKinds | src/Nethermind/Nethermind.Synchronization/StateSync/StateSyncDispatcher.cs:204 | Across kinds the encoding is ambiguous: a 62-nibble even path and the full path made by prefixing two zero nibbles encode alike. |
| StateSyncRequest.AccountTriePaths | src/Nethermind/Nethermind.Synchronization/StateSync/StateSyncDispatcher.cs:165-168 | The account-trie paths are drawn from the batch, never more than its nodes. |
| StateSyncRequest.Accounts | src/Nethermind/Nethermind.Synchronization/StateSync/StateSyncDispatcher.cs:169-176 | Every account whose storage is asked for has a non-empty path. |
| StateSyncRequest.EncodeAll | src/Nethermind/Nethermind.Synchronization/StateSync/StateSyncDispatcher.cs:184 | Every path is encoded in place. |
| StateSyncRequest.StorageGroup | src/Nethermind/Nethermind.Synchronization/StateSync/StateSyncDispatcher.cs:189-196 | An account's group has its own encoded path first, followed by each storage path asked for under it, encoded and in request order. |
| StateSyncRequest.Collect | src/Nethermind/Nethermind.Synchronization/StateSync/StateSyncDispatcher.cs:161-177 | One pass splits the batch into the account-trie paths in request order and, per account, that account's storage paths in request order. |
| StateSyncRequest.AccountTrieStep | src/Nethermind/Nethermind.Synchronization/StateSync/StateSyncDispatcher.cs:165-168 | One more account-trie node appends its path and leaves the storage paths alone. |
| StateSyncRequest.StorageStep | src/Nethermind/Nethermind.Synchronization/StateSync/StateSyncDispatcher.cs:169-176 | One more storage node joins its account's paths and leaves the account-trie paths alone. |
| StateSyncRequest.NoStoragePathsOutsideAccounts | src/Nethermind/Nethermind.Synchronization/StateSync/StateSyncDispatcher.cs:169-176 | An account that is not asked for has no storage paths. |
| StateSyncRequest.SingletonGroups | src/Nethermind/Nethermind.Synchronization/StateSync/StateSyncDispatcher.cs:181-185 | Each account-trie path becomes a group of its own encoding alone, in order. |
| StateSyncRequest.GroupsFor | src/Nethermind/Nethermind.Synchronization/StateSync/StateSyncDispatcher.cs:187-199 | Each account gets one group: its own path followed by its storage paths. |
| StateSyncRequest.StorageGroups | src/Nethermind/Nethermind.Synchronization/StateSync/StateSyncDispatcher.cs:187-199 | Every account of the dictionary gets exactly one group, in the order the dictionary enumerates them. |
| StateSyncRequest.GetRequest | src/Nethermind/Nethermind.Synchronization/StateSync/StateSyncDispatcher.cs:153-202 | The request has the batch's state root. Its groups are one per account-trie node, in order, then one per account with storage requests. Their number is the sum of the two counts. |
| StateSyncRequest.EveryNodeIsGrouped | src/Nethermind/Nethermind.Synchronization/StateSync/StateSyncDispatcher.cs:153-202 | Every requested node appears in the request: an account-trie node as its own group, and a storage node in its account's group. |
| P2PCapabilities.AddSupportedCapability | src/Nethermind/Nethermind.Network/P2P/ProtocolHandlers/P2PProtocolHandler.cs:76-84 | A capability is supported afterwards. One already supported changes nothing, and a new one is appended. |
| P2PCapabilities.AddSupportedIsIdempotent | src/Nethermind/Nethermind.Network/P2P/ProtocolHandlers/P2PProtocolHandler.cs:76-84 | Adding the same capability twice is adding it once. |
| P2PCapabilities.Supported | src/Nethermind/Nethermind.Network/P2P/ProtocolHandlers/P2PProtocolHandler.cs:206-220 | The agreed capabilities are exactly those the peer offers that we support, each as many times as the peer offers it. |
| P2PCapabilities.HandleHello | src/Nethermind/Nethermind.Network/P2P/ProtocolHandlers/P2PProtocolHandler.cs:202-227 | The peer's version and capabilities are recorded. The agreed list grows by exactly the offered capabilities we support, each as many times as it is offered. With nothing agreed the peer is dropped as useless. |
| P2PCapabilities.InsertKeepsAscending | src/Nethermind/Nethermind.Network/P2P/ProtocolHandlers/P2PProtocolHandler.cs:114-115 | Inserting into the selection keeps it in ascending protocol-code order. |
| P2PCapabilities.InsertTakesFrom | src/Nethermind/Nethermind.Network/P2P/ProtocolHandlers/P2PProtocolHandler.cs:114-115 | Insertion only takes capabilities from the selection or the one inserted. |
| P2PCapabilities.InsertCovers | src/Nethermind/Nethermind.Network/P2P/ProtocolHandlers/P2PProtocolHandler.cs:114-115 | After insertion, every protocol seen has a selected version at least as high as any seen. |
| P2PCapabilities.Subprotocols | src/Nethermind/Nethermind.Network/P2P/ProtocolHandlers/P2PProtocolHandler.cs:114-115 | At most one subprotocol is started per agreed capability, and at least one whenever something was agreed. SubprotocolsSelect states which ones. |
| P2PCapabilities.SubprotocolsSelect | src/Nethermind/Nethermind.Network/P2P/ProtocolHandlers/P2PProtocolHandler.cs:114-120 | The subprotocols started after Hello are ascending by protocol code, taken from the agreed list, and cover every agreed protocol with its highest version. |
| P2PCapabilities.SubprotocolsAscending | src/Nethermind/Nethermind.Network/P2P/ProtocolHandlers/P2PProtocolHandler.cs:114-115 | The subprotocols are started in ascending protocol-code order, one per code. |
| P2PCapabilities.SubprotocolsChosen | src/Nethermind/Nethermind.Network/P2P/ProtocolHandlers/P2PProtocolHandler.cs:114-115 | Every started subprotocol is an agreed capability. |
| P2PCapabilities.SubprotocolsCover | src/Nethermind/Nethermind.Network/P2P/ProtocolHandlers/P2PProtocolHandler.cs:114-115 | Every agreed protocol is started with a version at least as high as any agreed. |
| P2PCapabilities.SelectedIsHighest | src/Nethermind/Nethermind.Network/P2P/ProtocolHandlers/P2PProtocolHandler.cs:114-115 | The version started for a protocol is the highest agreed version of that protocol. |
| P2PCapabilities.OnHello | src/Nethermind/Nethermind.Network/P2P/ProtocolHandlers/P2PProtocolHandler.cs:105-121 | A Hello updates the handler as HandleHello says. It then starts the selection of the agreed capabilities, which is nothing when none were agreed. |
| P2PCapabilities.AddCapability | src/Nethermind/Nethermind.Network/P2P/ProtocolHandlers/P2PProtocolHandler.cs:150-159 | An AddCapability message makes the capability both agreed and supported, and starts it. |
| UserOperationPool.Validate | src/Nethermind/Nethermind.AccountAbstraction/Source/UserOperationPool.cs:159-205 | The checks run in order: fee and call gas, target, paymaster, presence in the pool, simulation. The verdict names the first check that fails. An operation is valid exactly when it passes them all. |
| UserOperationPool.BannedPaymasterRejected | src/Nethermind/Nethermind.AccountAbstraction/Source/UserOperationPool.cs:178-187 | An operation whose paymaster is banned is never valid. |
| UserOperationPool.Without | src/Nethermind/Nethermind.AccountAbstraction/Source/UserOperationPool.cs:117 | Removing an id keeps every other operation and only those. |
| UserOperationPool.WithoutKeepsDistinct | src/Nethermind/Nethermind.AccountAbstraction/Source/UserOperationPool.cs:117 | Removal keeps ids distinct. |
| UserOperationPool.Bump | src/Nethermind/Nethermind.AccountAbstraction/Source/UserOperationPool.cs:137 | Bumping raises the resimulation counter of that operation only, in place. |
| UserOperationPool.BumpKeepsIds | src/Nethermind/Nethermind.AccountAbstraction/Source/UserOperationPool.cs:137 | Bumping keeps the set of ids, and keeps them distinct. |
| UserOperationPool.Remove | src/Nethermind/Nethermind.AccountAbstraction/Source/UserOperationPool.cs:94-98 | Removing an operation also drops its stored simulation. Offences and bans stay. |
| UserOperationPool.SimulateAndAdd | src/Nethermind/Nethermind.AccountAbstraction/Source/UserOperationPool.cs:207-224 | A successful simulation is stored. A failed one removes the operation from the pool. |
| UserOperationPool.AddUserOperation | src/Nethermind/Nethermind.AccountAbstraction/Source/UserOperationPool.cs:149-157 | An operation is inserted exactly when it is valid and the sorted pool takes it. It is then simulated against the head (lines 88-92) and kept only if that succeeds. A refusal changes nothing. |
| UserOperationPool.AddKeepsConsistent | src/Nethermind/Nethermind.AccountAbstraction/Source/UserOperationPool.cs:149-157 | Admission keeps ids distinct and keeps stored simulations for pool members only. |
| UserOperationPool.RecordOffence | src/Nethermind/Nethermind.AccountAbstraction/Source/UserOperationPool.cs:120-135 | An offence raises the offender's count by one, and only that count. The offender is banned once the count passes MaxResimulations. |
| UserOperationPool.BlockAccessed | src/Nethermind/Nethermind.AccountAbstraction/Source/UserOperationPool.cs:104-107 | The addresses considered touched never include the block's beneficiary or the singleton contract. |
| UserOperationPool.Revisit | src/Nethermind/Nethermind.AccountAbstraction/Source/UserOperationPool.cs:111-140 | An operation the block did not touch is left alone. A touched one past MaxResimulations is removed with its simulation, and one offence is counted against its offender. Any other revisit counts no offence and bans nobody. The pool never gains an operation, and offences and bans never go down. |
| UserOperationPool.RevisitAll | src/Nethermind/Nethermind.AccountAbstraction/Source/UserOperationPool.cs:111-140 | Over the whole snapshot the pool never gains an operation, offence counts never go down and bans are never lifted. A block that touches nothing changes nothing. |
| UserOperationPool.OnNewBlock | src/Nethermind/Nethermind.AccountAbstraction/Source/UserOperationPool.cs:100-145 | A new block never adds operations, never lowers an offence count and never lifts a ban. A block that touches only its beneficiary and the singleton contract changes nothing. |
| UserOperationPool.RevisitLeavesOthers | src/Nethermind/Nethermind.AccountAbstraction/Source/UserOperationPool.cs:111-140 | A revisit touches only the operation it visits. |
| UserOperationPool.RevisitGivesFate | src/Nethermind/Nethermind.AccountAbstraction/Source/UserOperationPool.cs:111-140 | A revisit gives the visited operation its fate. Untouched, it stays. Touched past MaxResimulations, it is gone. Touched otherwise, it stays with its counter one higher if resimulation succeeds, and is gone if not. |
| UserOperationPool.RevisitKeepsConsistent | src/Nethermind/Nethermind.AccountAbstraction/Source/UserOperationPool.cs:111-140 | A revisit keeps ids distinct and simulations stored only for members. |
| UserOperationPool.PendingAfterRevisit | src/Nethermind/Nethermind.AccountAbstraction/Source/UserOperationPool.cs:111-140 | The rest of the snapshot is still pending in the pool after one revisit. |
| UserOperationPool.RevisitAllKeepsConsistent | src/Nethermind/Nethermind.AccountAbstraction/Source/UserOperationPool.cs:111-140 | Revisiting a whole snapshot keeps the pool consistent. |
| UserOperationPool.OnNewBlockKeepsConsistent | src/Nethermind/Nethermind.AccountAbstraction/Source/UserOperationPool.cs:100-145 | Processing a new block keeps ids distinct and stored simulations for pool members only. |
| UserOperationPool.RevisitAllLeavesOthers | src/Nethermind/Nethermind.AccountAbstraction/Source/UserOperationPool.cs:111-140 | Operations outside the snapshot are unaffected by the whole revisit. |
| UserOperationPool.RevisitAllGivesFate | src/Nethermind/Nethermind.AccountAbstraction/Source/UserOperationPool.cs:111-140 | Every operation of the snapshot meets its fate. |
| UserOperationPool.OnNewBlockGivesFate | src/Nethermind/Nethermind.AccountAbstraction/Source/UserOperationPool.cs:100-145 | On a new block every pool operation meets its fate against the touched addresses. |
| UserOperationPool.RevisitCountsOffence | src/Nethermind/Nethermind.AccountAbstraction/Source/UserOperationPool.cs:115-136 | A revisit counts one offence exactly when it removes an operation, and it bans exactly when that count passes the limit. |
| UserOperationPool.RevisitAllCountsOffences | src/Nethermind/Nethermind.AccountAbstraction/Source/UserOperationPool.cs:115-136 | Over a block, each address's offences grow by exactly its removals, counting from zero for a new address. It is banned afterwards exactly when it was before, or it offended now and its count passes the limit. |
| UserOperationPool.FirstOffenceThrows | src/Nethermind/Nethermind.AccountAbstraction/Source/UserOperationPool.cs:122 | As written, the first offence of an address with no counter entry throws part-way through the block. |
| UserOperationPool.RemovedOperationResimulated | src/Nethermind/Nethermind.AccountAbstraction/Source/UserOperationPool.cs:115-139 | As written, an operation removed for too many resimulations is resimulated anyway. Its simulation is stored although it left the pool, breaking consistency. |
| UserOperationPool.RevisitAsWritten | src/Nethermind/Nethermind.AccountAbstraction/Source/UserOperationPool.cs:111-140 | As written, an untouched operation is left alone. A revisit throws exactly when it removes an operation whose offender has no counter entry. The pool never gains an operation, and bans are never lifted. |
| UserOperationPool.RevisitAllAsWritten | src/Nethermind/Nethermind.AccountAbstraction/Source/UserOperationPool.cs:111-140 | As written, the loop stops at the first exception, which only an operation touched past MaxResimulations can raise. The pool never gains an operation. |
| UserOperationPool.OnNewBlockAsWritten | src/Nethermind/Nethermind.AccountAbstraction/Source/UserOperationPool.cs:100-145 | As written, a new block throws only when some pool operation it touched is past MaxResimulations. |
| UserOperationPool.RevisitAllAsWrittenAgrees | src/Nethermind/Nethermind.AccountAbstraction/Source/UserOperationPool.cs:111-140 | When no operation of the snapshot is touched past MaxResimulations, the loop as written and the corrected loop end in the same pool without an exception. |
| UserOperationPool.OnNewBlockAsWrittenAgrees | src/Nethermind/Nethermind.AccountAbstraction/Source/UserOperationPool.cs:100-145 | When no removal happens, OnNewBlock as written and the corrected OnNewBlock agree, so both findings show only on a removal. |
| FullPruner.OnPrune | src/Nethermind/Nethermind.Blockchain/FullPruning/FullPruner.cs:77-93 | A trigger reports Starting exactly when pruning can start and no trigger is already waiting for a block. It then raises the flag and subscribes to new heads. Otherwise nothing changes. |
| FullPruner.Unsubscribe | src/Nethermind/Nethermind.Blockchain/FullPruning/FullPruner.cs:133 | Removing the handler takes away one subscription, and does nothing when there is none. |
| FullPruner.Arm | src/Nethermind/Nethermind.Blockchain/FullPruning/FullPruner.cs:97-115 | While pruning can start, a head always leaves the waiting-for-block flag down. It changes nothing when the flag was already down. It records a new context only for a real block whose pruning starts. A wait begins only with such a context, for the state two blocks on and with no state chosen. Launches and subscriptions are untouched. |
| FullPruner.Wait | src/Nethermind/Nethermind.Blockchain/FullPruning/FullPruner.cs:116-145 | While a state is awaited, a chosen state is never replaced, and a state is chosen only once it is persisted and at least the block waited for. The wait ends exactly when a run is launched. That happens only with the head more than MaxReorgDepth past the chosen state and its header found. The run gets the recorded context and the header's state root, and the handler unsubscribes. |
| FullPruner.OnNewHead | src/Nethermind/Nethermind.Blockchain/FullPruning/FullPruner.cs:95-150 | A head never adds a subscription and keeps the runs already launched. It launches at most one new run, and only at the end of a wait. With no pruning possible and no wait under way, it only unsubscribes. |
| FullPruner.ArmingHead | src/Nethermind/Nethermind.Blockchain/FullPruning/FullPruner.cs:97-115 | A head that finds the flag raised and a context to start lowers the flag and records the context. Unless a state is already awaited, it waits for the state two blocks on with no state chosen. |
| FullPruner.StateToCopyLatches | src/Nethermind/Nethermind.Blockchain/FullPruning/FullPruner.cs:120-123 | Once chosen, the state to copy is never replaced. |
| FullPruner.StateToCopyFixed | src/Nethermind/Nethermind.Blockchain/FullPruning/FullPruner.cs:118-123 | The first head that sees the awaited state persisted fixes it as the state to copy. |
| FullPruner.LaunchOnlyAfterReorgDepth | src/Nethermind/Nethermind.Blockchain/FullPruning/FullPruner.cs:116-135 | A run is launched only at the end of a wait, for the recorded context, on the state root of the chosen state's header. The head must be more than MaxDepth past that state, and the same head unsubscribes. |
| FullPruner.IdleHeadUnsubscribes | src/Nethermind/Nethermind.Blockchain/FullPruning/FullPruner.cs:146-149 | With no pruning possible and no state awaited, a head only unsubscribes. |
| FullPruner.OnPruneKeepsInvariant | src/Nethermind/Nethermind.Blockchain/FullPruning/FullPruner.cs:77-93 | Triggers keep the invariant: a wait has a context, and a chosen state is at least the block waited for. |
| FullPruner.OnNewHeadKeepsInvariant | src/Nethermind/Nethermind.Blockchain/FullPruning/FullPruner.cs:95-150 | Every head keeps the same invariant. |
| FullPruner.OnNewHeadPromises | src/Nethermind/Nethermind.Blockchain/FullPruning/FullPruner.cs:95-150 | One head adds at most one to the runs launched or pending, and only when it starts a context. Earlier launches stay. |
| FullPruner.OneLaunchPerStart | src/Nethermind/Nethermind.Blockchain/FullPruning/FullPruner.cs:95-150 | Over any run of heads, the runs launched are at most the contexts started plus one pending wait. Runs launched before stay as they were. |
| FullPruner.RunPruning | src/Nethermind/Nethermind.Blockchain/FullPruning/FullPruner.cs:154-189 | The exception is rethrown exactly when MarkStart or the copy throws. A commit waits for the next head exactly when the copy completed. The context is disposed in every other case. |
| FullPruner.CommitOnNewBlock | src/Nethermind/Nethermind.Blockchain/FullPruning/FullPruner.cs:168-175 | The next head commits the context and then disposes of it. The handler has no try block, so a Commit that throws leaves the context neither committed nor disposed. |
| FullPruner.RunEndsDisposed | src/Nethermind/Nethermind.Blockchain/FullPruning/FullPruner.cs:154-189 | A run's context is committed exactly when the copy completed, a head arrived after it and the commit went through, and only after it was marked started. It ends disposed unless its commit still waits for a head or the commit threw. |

## Left out

- Tracers, metrics and logging are not modelled. They observe the interpreter and do not change its results.
- Memory contents and the memory expansion cost are not modelled. The memory cost an instruction incurs is a parameter.
- Ordinary instructions are a parameter (`exec` in EvmRun.Step and EvmRun.Run). This covers arithmetic, the stack, memory, logs, SELFDESTRUCT and the rest. The parameter only has to respect the snapshot log.
- EvmRun.Run: in the loop, `exec` stands for every instruction a frame runs, CALL, CREATE, SSTORE and JUMP included. EvmCall, EvmCreate, EvmSstore, EvmControl and EvmShift are proved on their own and are not composed with the loop, so Run's guarantees do not depend on their contracts.
- EvmAccess: the warm sets are a parameter of each instruction. How a child inherits them, how a successful child hands its additions back, and that a reverted or failed frame's additions are dropped, are not modelled.
- EvmCall.ExecuteCallOpcode and EvmCreate.ExecuteCreateOpcode do not model that a declined call, a declined creation and a collision empty the return-data buffer (`_returnDataBuffer`). The buffer appears only as a parameter of RETURNDATACOPY.
- EvmShift.Shl, EvmShift.Shr and EvmShift.Sar model the value computed. The VeryLow charge and the bad-instruction guard before EIP-145 (`ShiftOpcodesEnabled`) are not modelled.
- EvmCreate.ExecuteCreateOpcode: the init code and its length are separate parameters. The model does not tie `initCode` to `initCodeLength`.
- P2PCapabilities.HandleHello: the agreed list is stated by membership and multiplicity. That it keeps the order of the peer's Hello is not stated.
- Precompile bodies are a parameter (their costs and results). The code cache and jump-destination analysis are left out; a frame's valid jump destinations are a parameter.
- The addresses CREATE and CREATE2 derive are a parameter. The Keccak hashing is outside the model.
- `GasCostOf`, `RefundOf`, `CodeDepositHandler` and `IReleaseSpec` are not part of this model. The constants are the values the EIPs fix (EIP-150, EIP-2200, EIP-2929, EIP-3529, EIP-3860). The fork-dependent costs are fields of `ReleaseSpec`.
- The Parity "touch" workaround for the RIPEMD precompile (VirtualMachine.cs lines 363-374 and 575-581) is left out. It is a consensus quirk of one historical block.
- EvmRun.Run: the loop is bounded by a fuel count, and running out returns None. The source loop ends because gas is finite, and the model does not derive that bound.
- 64-bit arithmetic is not modelled. Gas and block numbers are unbounded integers, including the `long` addition `stateToCopy + MaxDepth` in FullPruner. Overflow there would need values near long.MaxValue.
- Atomics and threads are not modelled. `Interlocked` and `Volatile` accesses in SyncStatusList and FullPruner are plain sequential reads and writes. Asynchronous handlers (`Task.Run`, `async void`) run to completion in place.
- `FastBlockStatusList` is not part of this model. Its transition rule is the parameter `allowed`, and every property holds for any rule.
- SyncStatusList's LRU cache is a plain map. Eviction at capacity 64 is not modelled; an evicted entry would make GetInfosForBatch use the block tree's info instead.
- `Nibbles.ToBytes` and `Nibbles.ToCompactHexEncoding` are not part of this model. They are written after the hex-prefix encoding of the Ethereum Yellow Paper, Appendix C.
- StateSyncRequest.StorageGroups: the order of the storage groups is the dictionary's enumeration order and is left open. Only "one group per account, each once" is proved.
- Elias-Fano and RLP encoding of shards are not modelled. Shards are stored as sequences of block numbers.
- GetAppropriateShard's database seek is not modelled. Only the key order it relies on is proved (HistoryOfAccounts.EncodeOrdersByBound).
- Ping, pong, disconnect handling, session messages and init timeouts in P2PProtocolHandler are left out.
- The node id and client id that HandleHello records are left out.
- P2PCapabilities: protocol codes are ordered ordinally, character by character. The source's `OrderBy` on strings uses the current culture's order, and it agrees with ordinal order on the lower-case ASCII codes the protocols use.
- UserOperation equality is taken by operation id.
- The sorted pool's ordering, capacity and eviction are left out. Whether TryInsert accepts is the parameter `inserts`.
- Simulation is a parameter: `simulationSucceeds`, `resimulationSucceeds`, `resimulates`.
- The pool's timer and the Flashbots bundle sending are left out.
- StateSyncDispatcher's statistics and logging are left out.
- The FullPruner copy visitor and the database's own pruning are left out. Their outcome is the parameter `outcome`.
- `ToString` overloads are left out.
- `Transaction.BaseTxGasCost` (21000) and `Reorganization.MaxDepth` (64) are declared outside the modelled files; their values are written in as constants.
- StateSyncRequest.EveryNodeIsGrouped: it proves each node lands in the group it belongs to, not that it lands in no other group.

## Findings

| source | as written | input that shows it | evidently intended | confidence | as-written member | corrected member |
|---|---|---|---|---|---|---|
| src/Nethermind/Nethermind.AccountAbstraction/Source/UserOperationPool.cs:122 | `_paymasterOffenseCounter[x]++` on an injected `IDictionary<Address,int>` reads the entry first. A dictionary with no entry for `x` throws `KeyNotFoundException`, which aborts OnNewBlock part-way. | A pool holding one operation without paymaster, target 7, resimulation counter 6 > MaxResimulations 5, accessing address 5. The block touches 5 and the counter map is empty. | The first offence counts as 1. Every later removal adds one, and the ban follows when the count passes MaxResimulations. | not executed | UserOperationPool.FirstOffenceThrows | UserOperationPool.RevisitAllCountsOffences |
| src/Nethermind/Nethermind.AccountAbstraction/Source/UserOperationPool.cs:115-139 | After removing an operation for too many resimulations, the loop still bumps its counter and calls SimulateAndAddToPool, because there is no `continue`. A successful simulation stores a simulation for an operation no longer in the pool. | The same pool, with target 7 already at 0 offences and a resimulation that succeeds. | A removed operation stays removed and has no stored simulation. | not executed | UserOperationPool.RemovedOperationResimulated | UserOperationPool.OnNewBlockKeepsConsistent |
