/** EIP-2929 warm/cold access charging for accounts and storage cells. Each charge takes
    the warm set the instruction sees and returns it with the accessed entry added; how the
    sets pass between frames, and what a revert drops from them, is left to the caller. */
module EvmAccess {

  import opened Prelude
  import opened EvmGas

  datatype AccountAccess = AccountAccess(ok: bool, gas: int, warm: set<Address>)

  /** An address is charged as cold when it was not accessed yet, is not a precompile and
      the tracer is not pre-warming accesses. */
  predicate ChargedAsCold(warm: set<Address>, address: Address, isPrecompile: bool, tracingAccess: bool)
  {
    address !in warm && !isPrecompile && !tracingAccess
  }

  /** ChargeAccountAccessGas. `isPrecompile` says whether the address is a precompile under
      the active release; `tracingAccess` is the tracer's access-tracing switch, which warms
      the address before the check. */
  function ChargeAccountAccessGas(gas: int, warm: set<Address>, address: Address, spec: ReleaseSpec,
                                  chargeForWarm: bool, isPrecompile: bool, tracingAccess: bool): (r: AccountAccess)
    // without EIP-2929 nothing is charged and nothing is recorded
    ensures !spec.useHotAndColdStorage ==> r == AccountAccess(true, gas, warm)
    // a cold address costs ColdAccountAccess and is warm afterwards, even when the charge fails
    ensures spec.useHotAndColdStorage && ChargedAsCold(warm, address, isPrecompile, tracingAccess) ==>
              (r.ok <==> ColdAccountAccess <= gas) &&
              (if r.ok then r.gas == gas - ColdAccountAccess else r.gas == gas) &&
              r.warm == warm + {address}
    // a warm address costs WarmStateRead only when the caller asks for it
    ensures spec.useHotAndColdStorage && !ChargedAsCold(warm, address, isPrecompile, tracingAccess) ==>
              (r.ok <==> !chargeForWarm || WarmStateRead <= gas) &&
              (if r.ok && chargeForWarm then r.gas == gas - WarmStateRead else r.gas == gas) &&
              r.warm == (if tracingAccess then warm + {address} else warm)
  {
    if !spec.useHotAndColdStorage then AccountAccess(true, gas, warm)
    else
      var warm1 := if tracingAccess then warm + {address} else warm;
      if address !in warm1 && !isPrecompile then
        var c := UpdateGas(ColdAccountAccess, gas);
        AccountAccess(c.ok, c.gas, warm1 + {address})
      else if chargeForWarm then
        var c := UpdateGas(WarmStateRead, gas);
        AccountAccess(c.ok, c.gas, warm1)
      else AccountAccess(true, gas, warm1)
  }

  /** After one access of a non-precompile address, a second one in the same transaction
      is warm: it costs WarmStateRead at most, never the cold surcharge. */
  lemma SecondAccountAccessIsWarm(gas: int, gas2: int, warm: set<Address>, address: Address, spec: ReleaseSpec,
                                  chargeForWarm: bool, chargeForWarm2: bool, isPrecompile: bool, tracing: bool, tracing2: bool)
    requires spec.useHotAndColdStorage && !isPrecompile
    ensures var first := ChargeAccountAccessGas(gas, warm, address, spec, chargeForWarm, isPrecompile, tracing);
            var second := ChargeAccountAccessGas(gas2, first.warm, address, spec, chargeForWarm2, isPrecompile, tracing2);
            address in first.warm &&
            second.warm == first.warm &&
            (second.ok <==> !chargeForWarm2 || WarmStateRead <= gas2) &&
            (second.ok && chargeForWarm2 ==> second.gas == gas2 - WarmStateRead)
  {
  }

  datatype StorageAccessType = SLoad | SStore

  datatype StorageAccess = StorageAccess(ok: bool, gas: int, warm: set<StorageCell>)

  /** ChargeStorageAccessGas: a cold cell costs ColdSLoad and becomes warm; a warm cell
      costs WarmStateRead for SLOAD and nothing for SSTORE. */
  function ChargeStorageAccessGas(gas: int, warm: set<StorageCell>, cell: StorageCell,
                                  accessType: StorageAccessType, spec: ReleaseSpec, tracingAccess: bool): (r: StorageAccess)
    ensures !spec.useHotAndColdStorage ==> r == StorageAccess(true, gas, warm)
    ensures spec.useHotAndColdStorage ==> cell in r.warm && r.warm == warm + {cell}
    ensures spec.useHotAndColdStorage && cell !in warm && !tracingAccess ==>
              (r.ok <==> ColdSLoad <= gas) && (if r.ok then r.gas == gas - ColdSLoad else r.gas == gas)
    ensures spec.useHotAndColdStorage && (cell in warm || tracingAccess) && accessType == SLoad ==>
              (r.ok <==> WarmStateRead <= gas) && (if r.ok then r.gas == gas - WarmStateRead else r.gas == gas)
    ensures spec.useHotAndColdStorage && (cell in warm || tracingAccess) && accessType == SStore ==>
              r.ok && r.gas == gas
  {
    if !spec.useHotAndColdStorage then StorageAccess(true, gas, warm)
    else
      var warm1 := if tracingAccess then warm + {cell} else warm;
      if cell !in warm1 then
        var c := UpdateGas(ColdSLoad, gas);
        StorageAccess(c.ok, c.gas, warm1 + {cell})
      else if accessType == SLoad then
        var c := UpdateGas(WarmStateRead, gas);
        StorageAccess(c.ok, c.gas, warm1)
      else StorageAccess(true, gas, warm1)
  }

  /** Accessing a cell twice charges the cold surcharge at most once. */
  lemma SecondStorageAccessIsWarm(gas: int, gas2: int, warm: set<StorageCell>, cell: StorageCell,
                                  t1: StorageAccessType, t2: StorageAccessType, spec: ReleaseSpec, tracing: bool, tracing2: bool)
    requires spec.useHotAndColdStorage
    ensures var first := ChargeStorageAccessGas(gas, warm, cell, t1, spec, tracing);
            var second := ChargeStorageAccessGas(gas2, first.warm, cell, t2, spec, tracing2);
            second.warm == first.warm &&
            (t2 == SStore ==> second.ok && second.gas == gas2) &&
            (t2 == SLoad ==> (second.ok <==> WarmStateRead <= gas2))
  {
  }
}
