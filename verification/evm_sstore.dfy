/** SSTORE: the static and stipend guards, the legacy and the EIP-2200 net-metered gas
    schedules with their refunds (EIP-3529 clear refund chosen by the release), and the
    rule that the slot is written only when its value changes. */
module EvmSstore {

  import opened Prelude
  import opened EvmGas
  import opened EvmAccess
  import opened EvmExceptions

  /** What the net-metered schedule charges and how it moves the refund counter. */
  datatype Metering = Metering(charge: nat, refund: int)

  /** The EIP-2200 schedule for writing `newValue` into a slot whose value is `current` now
      and was `original` when the transaction started. */
  function NetMetered(spec: ReleaseSpec, original: Word, current: Word, newValue: Word): (m: Metering)
    // a no-op write costs the net-metered cost and leaves the refund alone
    ensures newValue == current ==> m == Metering(spec.netMeteredSStoreCost, 0)
    // first change of a clean slot: SSet from zero, otherwise the reset cost plus a clear refund
    ensures newValue != current && current == original && current == 0 ==> m == Metering(SSet, 0)
    ensures newValue != current && current == original && current != 0 ==>
              m == Metering(spec.sStoreResetCost, if newValue == 0 then SClearRefund(spec.isEip3529Enabled) as int else 0)
    // a dirty slot costs the net-metered cost; the clear refund is taken back or granted as
    // the slot leaves or reaches zero, and returning to the original grants the reversal refund
    ensures newValue != current && current != original ==>
              m.charge == spec.netMeteredSStoreCost &&
              m.refund == (if original != 0 && current == 0 then -(SClearRefund(spec.isEip3529Enabled) as int) else 0)
                        + (if original != 0 && newValue == 0 then SClearRefund(spec.isEip3529Enabled) as int else 0)
                        + (if newValue == original then
                             (if original == 0 then spec.setReversalRefund else spec.clearReversalRefund) as int
                           else 0)
  {
    var sClear := SClearRefund(spec.isEip3529Enabled) as int;
    if newValue == current then Metering(spec.netMeteredSStoreCost, 0)
    else if current == original then
      if current == 0 then Metering(SSet, 0)
      else Metering(spec.sStoreResetCost, if newValue == 0 then sClear else 0)
    else
      var leaveZero := if original != 0 && current == 0 then -sClear else 0;
      var reachZero := if original != 0 && newValue == 0 then sClear else 0;
      var reversal := if newValue == original then
                        (if original == 0 then spec.setReversalRefund else spec.clearReversalRefund) as int
                      else 0;
      Metering(spec.netMeteredSStoreCost, leaveZero + reachZero + reversal)
  }

  datatype SstoreOutcome =
    | SstoreFailed(error: EvmException)
    | SstoreDone(gas: int, refundDelta: int, warm: set<StorageCell>, write: Option<Word>)

  /** The SSTORE instruction on a slot of the executing account. `current` and `original`
      are what the storage provider returns for the cell. */
  function ExecuteSStore(spec: ReleaseSpec, isStatic: bool, gas: int, warm: set<StorageCell>, cell: StorageCell,
                  newValue: Word, current: Word, original: Word, tracingAccess: bool): (r: SstoreOutcome)
    // static frames fail before anything is charged
    ensures isStatic ==> r == SstoreFailed(StaticCallViolation)
    // with the stipend fix a frame holding no more than the call stipend cannot store
    ensures !isStatic && spec.useNetGasMetering && spec.useNetGasMeteringWithAStipendFix && gas <= CallStipend ==>
              r == SstoreFailed(OutOfGas)
    ensures r.SstoreFailed? ==> r.error in {StaticCallViolation, OutOfGas}
    // the slot is written exactly when the value changes
    ensures r.SstoreDone? ==> r.write == (if newValue != current then Some(newValue) else None)
    ensures r.SstoreDone? ==> r.gas >= 0 && r.gas <= gas
    // under EIP-2929 the stored cell is warm afterwards; before it the warm set is untouched
    ensures r.SstoreDone? && spec.useHotAndColdStorage ==> cell in r.warm && r.warm == warm + {cell}
    ensures r.SstoreDone? && !spec.useHotAndColdStorage ==> r.warm == warm
    // under net metering the gas drop past the access charge is exactly the schedule's charge
    ensures spec.useNetGasMetering && r.SstoreDone? ==>
              var a := ChargeStorageAccessGas(gas, warm, cell, SStore, spec, tracingAccess);
              var m := NetMetered(spec, original, current, newValue);
              a.ok && r.gas == a.gas - m.charge && r.refundDelta == m.refund && r.warm == a.warm
    ensures !isStatic && spec.useNetGasMetering && (!spec.useNetGasMeteringWithAStipendFix || gas > CallStipend) ==>
              var a := ChargeStorageAccessGas(gas, warm, cell, SStore, spec, tracingAccess);
              (r.SstoreDone? <==> a.ok && NetMetered(spec, original, current, newValue).charge <= a.gas)
    // the legacy schedule pre-charges the reset cost, adds SSet - SReset for a zero slot set
    // to non-zero, and refunds a clear
    ensures !spec.useNetGasMetering && r.SstoreDone? ==>
              r.refundDelta == (if newValue == 0 && current != 0 then SClearRefund(spec.isEip3529Enabled) as int else 0) &&
              r.gas == ChargeStorageAccessGas(gas - spec.sStoreResetCost, warm, cell, SStore, spec, tracingAccess).gas
                       - (if newValue != 0 && current == 0 then SSet - SReset else 0)
    // a legacy store completes iff the reset cost, the stipend guard, the access charge and,
    // for a zero slot set to non-zero, SSet - SReset can all be met
    ensures !isStatic && !spec.useNetGasMetering ==>
              var a := ChargeStorageAccessGas(gas - spec.sStoreResetCost, warm, cell, SStore, spec, tracingAccess);
              (r.SstoreDone? <==>
                 && spec.sStoreResetCost <= gas
                 && !(spec.useNetGasMeteringWithAStipendFix && gas - spec.sStoreResetCost <= CallStipend)
                 && a.ok
                 && (newValue != 0 && current == 0 ==> SSet - SReset <= a.gas))
  {
    if isStatic then SstoreFailed(StaticCallViolation)
    else
      var pre := if spec.useNetGasMetering then Charge(true, gas) else UpdateGas(spec.sStoreResetCost, gas);
      if !pre.ok then SstoreFailed(OutOfGas)
      else if spec.useNetGasMeteringWithAStipendFix && pre.gas <= CallStipend then SstoreFailed(OutOfGas)
      else
        var a := ChargeStorageAccessGas(pre.gas, warm, cell, SStore, spec, tracingAccess);
        if !a.ok then SstoreFailed(OutOfGas)
        else
          var write := if newValue != current then Some(newValue) else None;
          if !spec.useNetGasMetering then
            if newValue == 0 then
              SstoreDone(a.gas, if current != 0 then SClearRefund(spec.isEip3529Enabled) as int else 0, a.warm, write)
            else if current == 0 then
              var c := UpdateGas(SSet - SReset, a.gas);
              if !c.ok then SstoreFailed(OutOfGas) else SstoreDone(c.gas, 0, a.warm, write)
            else SstoreDone(a.gas, 0, a.warm, write)
          else
            var m := NetMetered(spec, original, current, newValue);
            var c := UpdateGas(m.charge, a.gas);
            if !c.ok then SstoreFailed(OutOfGas) else SstoreDone(c.gas, m.refund, a.warm, write)
  }

  /** The reversal refunds of EIP-2200: returning a slot to its original value gives back
      what the first change cost beyond a no-op write. */
  predicate ReversalRefundsMatch(spec: ReleaseSpec)
  {
    && spec.setReversalRefund as int == SSet as int - spec.netMeteredSStoreCost as int
    && spec.clearReversalRefund as int == spec.sStoreResetCost as int - spec.netMeteredSStoreCost as int
  }

  /** What a slot that moved from `original` to `current` has paid beyond no-op writes. */
  function Prepaid(spec: ReleaseSpec, original: Word, current: Word): int
  {
    if current == original then 0
    else if original == 0 then SSet as int - spec.netMeteredSStoreCost as int
    else spec.sStoreResetCost as int - spec.netMeteredSStoreCost as int
         - (if current == 0 then SClearRefund(spec.isEip3529Enabled) as int else 0)
  }

  /** Every net-metered write costs (charge minus refund) one no-op write plus the change in
      what the slot has prepaid. */
  lemma NetMeteredStep(spec: ReleaseSpec, original: Word, current: Word, newValue: Word)
    requires ReversalRefundsMatch(spec)
    ensures var m := NetMetered(spec, original, current, newValue);
            m.charge - m.refund == spec.netMeteredSStoreCost + Prepaid(spec, original, newValue) - Prepaid(spec, original, current)
  {
  }

  /** Net gas (charges minus refunds) of a run of SSTOREs to one slot. */
  function NetGasOfWrites(spec: ReleaseSpec, original: Word, current: Word, writes: seq<Word>): int
    decreases |writes|
  {
    if |writes| == 0 then 0
    else
      var m := NetMetered(spec, original, current, writes[0]);
      m.charge - m.refund + NetGasOfWrites(spec, original, writes[0], writes[1..])
  }

  function LastOr(current: Word, writes: seq<Word>): Word
  {
    if |writes| == 0 then current else writes[|writes| - 1]
  }

  lemma MulSucc(k: nat, n: nat)
    ensures (k + 1) * n == n + k * n
  {
  }

  /** Net metering telescopes: k writes cost k no-op writes plus what the slot prepaid for
      ending where it ends. */
  lemma {:induction false} NetGasTelescopes(spec: ReleaseSpec, original: Word, current: Word, writes: seq<Word>)
    requires ReversalRefundsMatch(spec)
    ensures NetGasOfWrites(spec, original, current, writes)
            == |writes| * spec.netMeteredSStoreCost + Prepaid(spec, original, LastOr(current, writes)) - Prepaid(spec, original, current)
    decreases |writes|
  {
    if |writes| > 0 {
      var n := spec.netMeteredSStoreCost;
      var k := |writes| - 1;
      var m := NetMetered(spec, original, current, writes[0]);
      var rest := NetGasOfWrites(spec, original, writes[0], writes[1..]);
      var p0 := Prepaid(spec, original, current);
      var p1 := Prepaid(spec, original, writes[0]);
      var pEnd := Prepaid(spec, original, LastOr(current, writes));
      assert NetGasOfWrites(spec, original, current, writes) == m.charge - m.refund + rest;
      NetMeteredStep(spec, original, current, writes[0]);
      assert m.charge - m.refund == n + p1 - p0;
      NetGasTelescopes(spec, original, writes[0], writes[1..]);
      assert LastOr(writes[0], writes[1..]) == LastOr(current, writes);
      assert rest == k * n + pEnd - p1;
      MulSucc(k, n);
      assert |writes| == k + 1;
    }
  }

  /** A slot that starts clean and ends at its original value costs exactly one no-op write
      per SSTORE: setting it and resetting it refunds the whole difference. */
  lemma {:induction false} RestoringOriginalCostsOnlyNoOps(spec: ReleaseSpec, original: Word, writes: seq<Word>)
    requires ReversalRefundsMatch(spec)
    requires |writes| > 0 && writes[|writes| - 1] == original
    ensures NetGasOfWrites(spec, original, original, writes) == |writes| * spec.netMeteredSStoreCost
  {
    NetGasTelescopes(spec, original, original, writes);
  }
}
