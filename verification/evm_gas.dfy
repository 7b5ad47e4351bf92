/** Gas constants, the release-spec switches the interpreter consults, and the
    check-then-deduct charging primitive every instruction goes through. */
module EvmGas {

  import opened Prelude

  /** Fixed costs (GasCostOf and RefundOf are not part of this model; the values are the
      ones fixed by the Yellow Paper and EIP-150, EIP-2200, EIP-2929, EIP-3529, EIP-3860). */
  const Base: nat := 2
  const VeryLow: nat := 3
  const Low: nat := 5
  const Mid: nat := 8
  const High: nat := 10
  const Memory: nat := 3
  const JumpDest: nat := 1
  const SSet: nat := 20000
  const SReset: nat := 5000
  const ColdSLoad: nat := 2100
  const ColdAccountAccess: nat := 2600
  const WarmStateRead: nat := 100
  const CallValue: nat := 9000
  const CallStipend: nat := 2300
  const NewAccount: nat := 25000
  const Create: nat := 32000
  const InitCodeWord: nat := 2
  const Sha3Word: nat := 6
  const CodeDeposit: nat := 200

  const MaxCallDepth: nat := 1024
  /** long.MaxValue, the bound the CALL gas limit is compared against. */
  const LongMaxValue: nat := 0x7FFF_FFFF_FFFF_FFFF
  /** ulong.MaxValue, the nonce at which CREATE refuses to run. */
  const ULongMaxValue: nat := 0xFFFF_FFFF_FFFF_FFFF

  /** The storage-clear refund: 15000 before EIP-3529, 4800 after. */
  function SClearRefund(isEip3529Enabled: bool): (r: nat)
    ensures isEip3529Enabled ==> r < 15000
  {
    if isEip3529Enabled then 4800 else 15000
  }

  /** The switches and spec-provided costs of one protocol release (IReleaseSpec). The
      cost fields are what the release spec's getters return for that release. */
  datatype ReleaseSpec = ReleaseSpec(
    useHotAndColdStorage: bool,            // EIP-2929
    useNetGasMetering: bool,               // EIP-2200
    useNetGasMeteringWithAStipendFix: bool,
    isEip3529Enabled: bool,
    use63Over64Rule: bool,                 // EIP-150
    isEip3860Enabled: bool,
    maxInitCodeSize: nat,
    create2OpcodeEnabled: bool,
    delegateCallEnabled: bool,
    staticCallEnabled: bool,
    shiftOpcodesEnabled: bool,             // EIP-145
    returnDataOpcodesEnabled: bool,
    clearEmptyAccountWhenTouched: bool,    // EIP-161
    failOnOutOfGasCodeDeposit: bool,
    isEip3541Enabled: bool,
    limitCodeSize: bool,                   // EIP-170
    maxCodeSize: nat,
    callCost: nat,
    netMeteredSStoreCost: nat,
    sStoreResetCost: nat,
    setReversalRefund: nat,
    clearReversalRefund: nat)

  /** The outcome of a charge: whether it went through, and the gas left afterwards. */
  datatype Charge = Charge(ok: bool, gas: int)

  /** UpdateGas: refuse without touching the counter when the cost exceeds what is
      available, otherwise deduct exactly the cost. */
  function UpdateGas(cost: int, gas: int): (r: Charge)
    ensures r.ok <==> cost <= gas
    ensures !r.ok ==> r.gas == gas
    ensures r.ok ==> r.gas + cost == gas && r.gas >= 0
  {
    if gas < cost then Charge(false, gas) else Charge(true, gas - cost)
  }

  /** UpdateMemoryCost: a zero expansion cost always succeeds; a positive one is charged
      through UpdateGas. The cost itself comes from the frame's memory, which is not part of
      this model. */
  function UpdateMemoryCost(memoryCost: int, gas: int): (r: Charge)
    ensures r.ok <==> memoryCost <= 0 || memoryCost <= gas
    ensures r.ok && memoryCost > 0 ==> r.gas == gas - memoryCost
    ensures !r.ok || memoryCost <= 0 ==> r.gas == gas
  {
    if memoryCost > 0 then UpdateGas(memoryCost, gas) else Charge(true, gas)
  }

  /** Two successive charges of non-negative costs go through exactly when one charge of
      their sum would, and leave the same gas: charging is atomic per instruction. */
  lemma UpdateGasTwice(a: nat, b: nat, gas: int)
    ensures var first := UpdateGas(a, gas);
            (first.ok && UpdateGas(b, first.gas).ok) <==> UpdateGas(a + b, gas).ok
    ensures var first := UpdateGas(a, gas);
            first.ok && UpdateGas(b, first.gas).ok ==>
              UpdateGas(b, first.gas).gas == UpdateGas(a + b, gas).gas
  {
  }

  /** The gas part of ExecutePrecompile: the base cost and then the data cost, each through
      UpdateGas; None stands for the OutOfGas exception it throws. */
  function PrecompileGas(baseCost: int, dataCost: int, gas: int): (r: Option<int>)
    ensures r.Some? <==> baseCost <= gas && dataCost <= gas - baseCost
    ensures r.Some? ==> r.value == gas - baseCost - dataCost && r.value >= 0
  {
    var first := UpdateGas(baseCost, gas);
    if !first.ok then None
    else
      var second := UpdateGas(dataCost, first.gas);
      if !second.ok then None else Some(second.gas)
  }

  /** For non-negative costs the precompile is affordable exactly when their sum is. */
  lemma PrecompileGasIsSumCharge(baseCost: nat, dataCost: nat, gas: int)
    ensures PrecompileGas(baseCost, dataCost, gas).Some? <==> UpdateGas(baseCost + dataCost, gas).ok
    ensures PrecompileGas(baseCost, dataCost, gas).Some? ==>
              PrecompileGas(baseCost, dataCost, gas).value == UpdateGas(baseCost + dataCost, gas).gas
  {
  }
}
