/** SyncStatusList: the fast-sync bookkeeping of which blocks below the pivot have been
    handed out for download, which are waiting to be inserted and which are inserted. It
    hands out batches walking down from the "lowest inserted without gaps" watermark, and
    moves the watermark down over blocks that are already inserted.

    The status array (FastBlockStatusList) is not part of this model: its transitions are
    the parameter `allowed`, a TrySet succeeds exactly when `allowed(old, new)` holds, and a
    block never set is Pending. The block tree's FindCanonicalBlockInfo is the parameter
    `canonical`. */
module SyncStatusList {

  import opened Prelude

  datatype BlockStatus = Pending | Sent | Inserted

  datatype BlockInfo = BlockInfo(blockNumber: int, blockHash: nat)

  datatype Sync = Sync(
    statuses: map<int, BlockStatus>,
    cache: map<int, BlockInfo>,
    lowestInsertWithoutGaps: int,
    lowerBound: int,
    queueSize: int)

  /** The status of a block; one never set is Pending. */
  function StatusOf(statuses: map<int, BlockStatus>, n: int): BlockStatus
  {
    if n in statuses then statuses[n] else Pending
  }

  /** TrySet: move block `n` to `to` when the transition is allowed; report success and the
      status the block had. */
  function TrySet(statuses: map<int, BlockStatus>, n: int, to: BlockStatus,
                  allowed: (BlockStatus, BlockStatus) -> bool): (r: (bool, BlockStatus, map<int, BlockStatus>))
    ensures r.0 <==> allowed(StatusOf(statuses, n), to)
    ensures r.1 == StatusOf(statuses, n)
    ensures r.0 ==> StatusOf(r.2, n) == to
    ensures forall k :: k != n ==> StatusOf(r.2, k) == StatusOf(statuses, k)
    ensures !r.0 ==> r.2 == statuses
  {
    if allowed(StatusOf(statuses, n), to) then (true, StatusOf(statuses, n), statuses[n := to])
    else (false, StatusOf(statuses, n), statuses)
  }

  /** Reset: a fresh status list for the blocks up to the pivot, the watermark at the lowest
      inserted block when one is known and at the pivot otherwise, and the new lower bound.
      The queue size and the cache are kept. */
  function Reset(s: Sync, pivotNumber: int, lowestInserted: Option<int>, lowerBound: int): (r: Sync)
    ensures forall n :: StatusOf(r.statuses, n) == Pending
    ensures lowestInserted.Some? ==> r.lowestInsertWithoutGaps == lowestInserted.value
    ensures lowestInserted.None? ==> r.lowestInsertWithoutGaps == pivotNumber
    ensures r.lowerBound == lowerBound
    ensures r.queueSize == s.queueSize && r.cache == s.cache
  {
    Sync(map[], s.cache, if lowestInserted.Some? then lowestInserted.value else pivotNumber, lowerBound, s.queueSize)
  }

  /** MarkInserted: the queue grows exactly when the block moves to Inserted. */
  function MarkInserted(s: Sync, blockNumber: int, allowed: (BlockStatus, BlockStatus) -> bool): (r: Sync)
    ensures allowed(StatusOf(s.statuses, blockNumber), Inserted) ==>
              r.queueSize == s.queueSize + 1 && StatusOf(r.statuses, blockNumber) == Inserted
    ensures !allowed(StatusOf(s.statuses, blockNumber), Inserted) ==> r == s
    ensures r.cache == s.cache && r.lowestInsertWithoutGaps == s.lowestInsertWithoutGaps
  {
    var (ok, _, statuses) := TrySet(s.statuses, blockNumber, Inserted, allowed);
    if ok then s.(statuses := statuses, queueSize := s.queueSize + 1) else s
  }

  /** MarkPending: a block that goes back to Pending keeps its info in the cache, so the
      next batch hands the same info out again. */
  function MarkPending(s: Sync, info: BlockInfo, allowed: (BlockStatus, BlockStatus) -> bool): (r: Sync)
    ensures allowed(StatusOf(s.statuses, info.blockNumber), Pending) ==>
              StatusOf(r.statuses, info.blockNumber) == Pending &&
              r.cache == s.cache[info.blockNumber := info]
    ensures !allowed(StatusOf(s.statuses, info.blockNumber), Pending) ==> r == s
    ensures r.queueSize == s.queueSize && r.lowestInsertWithoutGaps == s.lowestInsertWithoutGaps
  {
    var (ok, _, statuses) := TrySet(s.statuses, info.blockNumber, Pending, allowed);
    if ok then s.(statuses := statuses, cache := s.cache[info.blockNumber := info]) else s
  }

  /** The info handed out for block `n`: the cached one, else the block tree's. */
  function Fetch(cache: map<int, BlockInfo>, canonical: int -> Option<BlockInfo>, n: int): (r: Option<BlockInfo>)
    ensures n in cache ==> r == Some(cache[n])
    ensures n !in cache ==> r == canonical(n)
  {
    if n in cache then Some(cache[n]) else canonical(n)
  }

  /** Slots numbered in increasing order get blocks numbered in decreasing order. */
  ghost predicate Descending(handedOut: map<nat, int>)
  {
    forall i, j :: i in handedOut && j in handedOut && i < j ==> handedOut[i] > handedOut[j]
  }

  /** The state of a batch walk: the slots so far, the list, which slots were filled with
      which blocks, how many slots are done and the block under consideration. */
  datatype Batch = Batch(r: seq<Option<BlockInfo>>, s: Sync, handedOut: map<nat, int>, collected: nat, current: int)

  /** The slots: untouched ones keep their content, each filled one was empty and holds the
      info of a block between the lower bound and the starting watermark that moved to Sent
      here and left the cache. */
  ghost predicate SlotsKept(s: Sync, blockInfos: seq<Option<BlockInfo>>, allowed: (BlockStatus, BlockStatus) -> bool,
                            canonical: int -> Option<BlockInfo>, b: Batch)
  {
    |b.r| == |blockInfos| &&
    (forall i :: 0 <= i < |b.r| && i !in b.handedOut ==> b.r[i] == blockInfos[i]) &&
    (forall i :: i in b.handedOut ==>
       i < |blockInfos| && blockInfos[i].None? &&
       s.lowerBound <= b.handedOut[i] <= s.lowestInsertWithoutGaps && b.handedOut[i] != 0 &&
       allowed(StatusOf(s.statuses, b.handedOut[i]), Sent) &&
       StatusOf(b.s.statuses, b.handedOut[i]) == Sent &&
       b.r[i] == Fetch(s.cache, canonical, b.handedOut[i]) &&
       b.handedOut[i] !in b.s.cache) &&
    Descending(b.handedOut)
  }

  /** Only blocks handed out changed status, and the cache only lost entries. */
  ghost predicate StatusesKept(s: Sync, b: Batch)
  {
    (forall n :: n !in b.handedOut.Values ==> StatusOf(b.s.statuses, n) == StatusOf(s.statuses, n)) &&
    (forall n :: n in b.s.cache ==> n in s.cache && b.s.cache[n] == s.cache[n]) &&
    b.s.lowerBound == s.lowerBound
  }

  /** The watermark moved down only over inserted blocks, and the queue size with it. */
  ghost predicate WatermarkKept(s: Sync, allowed: (BlockStatus, BlockStatus) -> bool, b: Batch)
  {
    b.s.lowestInsertWithoutGaps <= s.lowestInsertWithoutGaps &&
    s.lowestInsertWithoutGaps - b.s.lowestInsertWithoutGaps == s.queueSize - b.s.queueSize &&
    (forall n :: b.s.lowestInsertWithoutGaps < n <= s.lowestInsertWithoutGaps ==> StatusOf(s.statuses, n) == Inserted) &&
    (b.s.lowestInsertWithoutGaps < s.lowestInsertWithoutGaps ==> !allowed(Inserted, Sent))
  }

  /** What holds between turns of the walk: everything above, plus that the walk is below
      every block handed out so far, and has not yet touched the blocks from `current` down. */
  ghost predicate Walking(s: Sync, blockInfos: seq<Option<BlockInfo>>, allowed: (BlockStatus, BlockStatus) -> bool,
                          canonical: int -> Option<BlockInfo>, b: Batch)
  {
    SlotsKept(s, blockInfos, allowed, canonical, b) && StatusesKept(s, b) && WatermarkKept(s, allowed, b) &&
    b.collected <= |b.r| &&
    b.current <= b.s.lowestInsertWithoutGaps &&
    (forall i :: i in b.handedOut ==> i < b.collected && b.current < b.handedOut[i]) &&
    (forall n :: n <= b.current && n in s.cache ==> n in b.s.cache)
  }

  /** One turn of the walk. */
  function Visit(b: Batch, allowed: (BlockStatus, BlockStatus) -> bool, canonical: int -> Option<BlockInfo>): (next: Batch)
    requires b.collected < |b.r|
    ensures b.r[b.collected].Some? ==> next == b.(collected := b.collected + 1)
    ensures b.r[b.collected].None? ==> next.current == b.current - 1
  {
    if b.r[b.collected].Some? then b.(collected := b.collected + 1)
    else
      var (ok, status, statuses) := TrySet(b.s.statuses, b.current, Sent, allowed);
      if ok then
        Batch(b.r[b.collected := Fetch(b.s.cache, canonical, b.current)],
              b.s.(statuses := statuses, cache := b.s.cache - {b.current}),
              b.handedOut[b.collected := b.current], b.collected + 1, b.current - 1)
      else if status == Inserted && b.current == b.s.lowestInsertWithoutGaps then
        b.(s := b.s.(lowestInsertWithoutGaps := b.current - 1, queueSize := b.s.queueSize - 1),
           current := b.current - 1)
      else b.(current := b.current - 1)
  }

  /** The turn that hands block `current` out in slot `collected`. */
  function Send(b: Batch, canonical: int -> Option<BlockInfo>): (next: Batch)
    requires b.collected < |b.r|
    ensures next.collected == b.collected + 1 && next.current == b.current - 1
  {
    Batch(b.r[b.collected := Fetch(b.s.cache, canonical, b.current)],
          b.s.(statuses := b.s.statuses[b.current := Sent], cache := b.s.cache - {b.current}),
          b.handedOut[b.collected := b.current], b.collected + 1, b.current - 1)
  }

  lemma SendKeepsSlots(s: Sync, blockInfos: seq<Option<BlockInfo>>, allowed: (BlockStatus, BlockStatus) -> bool,
                       canonical: int -> Option<BlockInfo>, b: Batch)
    requires Walking(s, blockInfos, allowed, canonical, b)
    requires b.collected < |b.r| && b.current != 0 && b.current >= s.lowerBound
    requires b.r[b.collected].None? && allowed(StatusOf(b.s.statuses, b.current), Sent)
    ensures SlotsKept(s, blockInfos, allowed, canonical, Send(b, canonical))
  {
    var n := b.current;
    var slot := b.collected;
    var next := Send(b, canonical);
    assert n !in b.handedOut.Values;
    assert slot !in b.handedOut;
    assert StatusOf(b.s.statuses, n) == StatusOf(s.statuses, n);
    assert Fetch(b.s.cache, canonical, n) == Fetch(s.cache, canonical, n);
    assert blockInfos[slot].None?;
    forall i | i in next.handedOut
      ensures i < |blockInfos| && blockInfos[i].None? &&
              s.lowerBound <= next.handedOut[i] <= s.lowestInsertWithoutGaps && next.handedOut[i] != 0 &&
              allowed(StatusOf(s.statuses, next.handedOut[i]), Sent) &&
              StatusOf(next.s.statuses, next.handedOut[i]) == Sent &&
              next.r[i] == Fetch(s.cache, canonical, next.handedOut[i]) &&
              next.handedOut[i] !in next.s.cache
    {
      if i != slot {
        SendKeepsOldSlot(s, blockInfos, allowed, canonical, b, i);
      }
    }
    assert Descending(next.handedOut);
  }

  /** A slot filled earlier keeps its block and that block's record through a send. */
  lemma SendKeepsOldSlot(s: Sync, blockInfos: seq<Option<BlockInfo>>, allowed: (BlockStatus, BlockStatus) -> bool,
                         canonical: int -> Option<BlockInfo>, b: Batch, i: nat)
    requires Walking(s, blockInfos, allowed, canonical, b)
    requires b.collected < |b.r| && i in b.handedOut
    ensures var next := Send(b, canonical);
            next.handedOut[i] == b.handedOut[i] && next.r[i] == b.r[i] &&
            StatusOf(next.s.statuses, next.handedOut[i]) == Sent &&
            next.handedOut[i] !in next.s.cache
  {
  }

  lemma SendKeepsStatuses(s: Sync, blockInfos: seq<Option<BlockInfo>>, allowed: (BlockStatus, BlockStatus) -> bool,
                          canonical: int -> Option<BlockInfo>, b: Batch)
    requires Walking(s, blockInfos, allowed, canonical, b)
    requires b.collected < |b.r| && b.current != 0 && b.current >= s.lowerBound
    requires b.r[b.collected].None? && allowed(StatusOf(b.s.statuses, b.current), Sent)
    ensures StatusesKept(s, Send(b, canonical))
  {
    var next := Send(b, canonical);
    ValuesOfNewKey(b.handedOut, b.collected, b.current);
  }

  /** Adding a new key adds exactly its value to the map's values. */
  lemma ValuesOfNewKey(m: map<nat, int>, k: nat, v: int)
    requires k !in m
    ensures m[k := v].Values == m.Values + {v}
  {
    forall x | x in m.Values
      ensures x in m[k := v].Values
    {
      var j :| j in m && m[j] == x;
      assert m[k := v][j] == x;
    }
    assert m[k := v][k] == v;
  }

  /** Handing a block out keeps the walk's invariant. */
  lemma SendKeepsWalking(s: Sync, blockInfos: seq<Option<BlockInfo>>, allowed: (BlockStatus, BlockStatus) -> bool,
                         canonical: int -> Option<BlockInfo>, b: Batch)
    requires Walking(s, blockInfos, allowed, canonical, b)
    requires b.collected < |b.r| && b.current != 0 && b.current >= s.lowerBound
    requires b.r[b.collected].None? && allowed(StatusOf(b.s.statuses, b.current), Sent)
    ensures Walking(s, blockInfos, allowed, canonical, Visit(b, allowed, canonical))
  {
    assert Visit(b, allowed, canonical) == Send(b, canonical);
    SendKeepsSlots(s, blockInfos, allowed, canonical, b);
    SendKeepsStatuses(s, blockInfos, allowed, canonical, b);
  }

  /** Any other turn keeps it as well. */
  lemma OtherKeepsWalking(s: Sync, blockInfos: seq<Option<BlockInfo>>, allowed: (BlockStatus, BlockStatus) -> bool,
                          canonical: int -> Option<BlockInfo>, b: Batch)
    requires Walking(s, blockInfos, allowed, canonical, b)
    requires b.collected < |b.r| && b.current != 0 && b.current >= s.lowerBound
    requires b.r[b.collected].Some? || !allowed(StatusOf(b.s.statuses, b.current), Sent)
    ensures Walking(s, blockInfos, allowed, canonical, Visit(b, allowed, canonical))
  {
    if b.r[b.collected].None? {
      assert b.current !in b.handedOut.Values;
      assert StatusOf(b.s.statuses, b.current) == StatusOf(s.statuses, b.current);
    }
  }

  /** The walk's progress: every slot passed over and not filled here was already full, and
      every block passed over and not handed out could not move to Sent. */
  ghost predicate Progress(s: Sync, blockInfos: seq<Option<BlockInfo>>, allowed: (BlockStatus, BlockStatus) -> bool, b: Batch)
  {
    (forall i :: 0 <= i < b.collected && i < |blockInfos| && i !in b.handedOut ==> blockInfos[i].Some?) &&
    (forall n :: b.current < n <= s.lowestInsertWithoutGaps && 1 <= n && s.lowerBound <= n && n !in b.handedOut.Values ==>
       !allowed(StatusOf(s.statuses, n), Sent))
  }

  /** A block handed out in a send is among the values of the new map. */
  lemma SendRecordsBlock(b: Batch, canonical: int -> Option<BlockInfo>)
    requires b.collected < |b.r|
    ensures b.current in Send(b, canonical).handedOut.Values
    ensures b.handedOut.Values <= Send(b, canonical).handedOut.Values || b.collected in b.handedOut
  {
    var next := Send(b, canonical);
    assert next.handedOut[b.collected] == b.current;
    if b.collected !in b.handedOut {
      ValuesOfNewKey(b.handedOut, b.collected, b.current);
    }
  }

  /** Every turn of the walk keeps its progress. */
  lemma VisitKeepsProgress(s: Sync, blockInfos: seq<Option<BlockInfo>>, allowed: (BlockStatus, BlockStatus) -> bool,
                            canonical: int -> Option<BlockInfo>, b: Batch)
    requires Walking(s, blockInfos, allowed, canonical, b) && Progress(s, blockInfos, allowed, b)
    requires b.collected < |b.r| && b.current != 0 && b.current >= s.lowerBound
    ensures Progress(s, blockInfos, allowed, Visit(b, allowed, canonical))
  {
    var next := Visit(b, allowed, canonical);
    if b.r[b.collected].Some? {
      assert b.collected !in b.handedOut;
      assert blockInfos[b.collected].Some?;
    } else if allowed(StatusOf(b.s.statuses, b.current), Sent) {
      assert next == Send(b, canonical);
      assert b.collected !in b.handedOut;
      SendRecordsBlock(b, canonical);
    } else {
      assert b.current !in b.handedOut.Values;
      assert StatusOf(b.s.statuses, b.current) == StatusOf(s.statuses, b.current);
      assert next.handedOut == b.handedOut && next.collected == b.collected;
    }
  }

  /** When the walk stops with an empty slot left, no block it could have handed out
      remains between the lower bound and the starting watermark. */
  lemma ProgressEnds(s: Sync, blockInfos: seq<Option<BlockInfo>>, allowed: (BlockStatus, BlockStatus) -> bool,
                      canonical: int -> Option<BlockInfo>, b: Batch)
    requires Walking(s, blockInfos, allowed, canonical, b) && Progress(s, blockInfos, allowed, b)
    requires !(b.collected < |b.r| && b.current != 0 && b.current >= b.s.lowerBound)
    ensures (exists i :: 0 <= i < |b.r| && blockInfos[i].None? && i !in b.handedOut) ==>
              forall n :: 1 <= n && s.lowerBound <= n <= s.lowestInsertWithoutGaps && n !in b.handedOut.Values ==>
                !allowed(StatusOf(s.statuses, n), Sent)
  {
    if exists i :: 0 <= i < |b.r| && blockInfos[i].None? && i !in b.handedOut {
      var i :| 0 <= i < |b.r| && blockInfos[i].None? && i !in b.handedOut;
      assert b.collected < |b.r|;
      assert b.current < 1 || b.current < s.lowerBound;
    }
  }

  /** What the walk leaves behind, spelled out. */
  lemma WalkEnds(s: Sync, blockInfos: seq<Option<BlockInfo>>, allowed: (BlockStatus, BlockStatus) -> bool,
                 canonical: int -> Option<BlockInfo>, b: Batch)
    requires Walking(s, blockInfos, allowed, canonical, b)
    ensures |b.r| == |blockInfos|
    ensures forall i :: 0 <= i < |b.r| && i !in b.handedOut ==> b.r[i] == blockInfos[i]
    ensures forall i :: i in b.handedOut ==>
              i < |blockInfos| && blockInfos[i].None? &&
              s.lowerBound <= b.handedOut[i] <= s.lowestInsertWithoutGaps && b.handedOut[i] != 0 &&
              allowed(StatusOf(s.statuses, b.handedOut[i]), Sent) &&
              StatusOf(b.s.statuses, b.handedOut[i]) == Sent &&
              b.r[i] == Fetch(s.cache, canonical, b.handedOut[i]) &&
              b.handedOut[i] !in b.s.cache
    ensures Descending(b.handedOut)
    ensures forall n :: n !in b.handedOut.Values ==> StatusOf(b.s.statuses, n) == StatusOf(s.statuses, n)
    ensures forall n :: n in b.s.cache ==> n in s.cache && b.s.cache[n] == s.cache[n]
    ensures b.s.lowerBound == s.lowerBound
    ensures b.s.lowestInsertWithoutGaps <= s.lowestInsertWithoutGaps
    ensures s.lowestInsertWithoutGaps - b.s.lowestInsertWithoutGaps == s.queueSize - b.s.queueSize
    ensures forall n :: b.s.lowestInsertWithoutGaps < n <= s.lowestInsertWithoutGaps ==>
              StatusOf(s.statuses, n) == Inserted
    ensures b.s.lowestInsertWithoutGaps < s.lowestInsertWithoutGaps ==> !allowed(Inserted, Sent)
  {
  }

  /** GetInfosForBatch: fill the empty slots of `blockInfos`, walking block numbers down
      from the watermark, until the batch is full, block 0 is reached or the lower bound is
      passed. A filled slot is skipped without using up a block number. A block whose move
      to Sent succeeds is handed out (from the cache, which forgets it, or from the block
      tree); one that is already inserted and sits at the watermark moves the watermark and
      the queue size down by one. `handedOut` maps each slot filled here to its block. */
  method GetInfosForBatch(s: Sync, blockInfos: seq<Option<BlockInfo>>,
                          allowed: (BlockStatus, BlockStatus) -> bool, canonical: int -> Option<BlockInfo>)
    returns (r: seq<Option<BlockInfo>>, s': Sync, handedOut: map<nat, int>)
    ensures |r| == |blockInfos|
    ensures forall i :: 0 <= i < |r| && i !in handedOut ==> r[i] == blockInfos[i]
    ensures forall i :: i in handedOut ==>
              i < |blockInfos| && blockInfos[i].None? &&
              s.lowerBound <= handedOut[i] <= s.lowestInsertWithoutGaps && handedOut[i] != 0 &&
              allowed(StatusOf(s.statuses, handedOut[i]), Sent) &&
              StatusOf(s'.statuses, handedOut[i]) == Sent &&
              r[i] == Fetch(s.cache, canonical, handedOut[i]) &&
              handedOut[i] !in s'.cache
    ensures Descending(handedOut)
    ensures forall n :: n !in handedOut.Values ==> StatusOf(s'.statuses, n) == StatusOf(s.statuses, n)
    ensures forall n :: n in s'.cache ==> n in s.cache && s'.cache[n] == s.cache[n]
    ensures s'.lowerBound == s.lowerBound
    // the watermark only moves down, only over inserted blocks, and the queue with it
    ensures s'.lowestInsertWithoutGaps <= s.lowestInsertWithoutGaps
    ensures s.lowestInsertWithoutGaps - s'.lowestInsertWithoutGaps == s.queueSize - s'.queueSize
    ensures forall n :: s'.lowestInsertWithoutGaps < n <= s.lowestInsertWithoutGaps ==>
              StatusOf(s.statuses, n) == Inserted
    ensures s'.lowestInsertWithoutGaps < s.lowestInsertWithoutGaps ==> !allowed(Inserted, Sent)
    // the batch stays short only when no block it could take was left
    ensures (exists i :: 0 <= i < |r| && blockInfos[i].None? && i !in handedOut) ==>
              forall n :: 1 <= n && s.lowerBound <= n <= s.lowestInsertWithoutGaps && n !in handedOut.Values ==>
                !allowed(StatusOf(s.statuses, n), Sent)
  {
    var b := Batch(blockInfos, s, map[], 0, s.lowestInsertWithoutGaps);
    while b.collected < |b.r| && b.current != 0 && b.current >= b.s.lowerBound
      invariant Walking(s, blockInfos, allowed, canonical, b)
      invariant Progress(s, blockInfos, allowed, b)
      decreases |b.r| - b.collected, b.current - s.lowerBound
    {
      VisitKeepsProgress(s, blockInfos, allowed, canonical, b);
      if b.r[b.collected].None? && allowed(StatusOf(b.s.statuses, b.current), Sent) {
        SendKeepsWalking(s, blockInfos, allowed, canonical, b);
      } else {
        OtherKeepsWalking(s, blockInfos, allowed, canonical, b);
      }
      b := Visit(b, allowed, canonical);
    }
    WalkEnds(s, blockInfos, allowed, canonical, b);
    ProgressEnds(s, blockInfos, allowed, canonical, b);
    r, s', handedOut := b.r, b.s, b.handedOut;
  }

  /** A block is handed out at most once within a batch. */
  lemma HandedOutOnce(handedOut: map<nat, int>, i: nat, j: nat)
    requires Descending(handedOut)
    requires i in handedOut && j in handedOut && i != j
    ensures handedOut[i] != handedOut[j]
  {
    if i > j {
      assert handedOut[j] > handedOut[i];
    }
  }
}
