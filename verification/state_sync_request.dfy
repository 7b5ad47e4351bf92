/** StateSyncDispatcher.GetRequest: turn a batch of requested trie nodes into a snap
    GetTrieNodes request. Nodes of the account trie (no account path) each become a group of
    their own; nodes of a storage trie are grouped by account, the account's path first and
    then the storage paths. Paths are nibble sequences; EncodePath packs a full 64-nibble
    path into 32 bytes and writes any other path in the hex-prefix encoding of Appendix C
    of the Ethereum Yellow Paper, with the leaf flag clear. */
module StateSyncRequest {

  import opened Prelude

  type Nibble = n: byte | n < 16

  datatype RequestedNode = RequestedNode(path: seq<Nibble>, accountPath: Option<seq<Nibble>>)

  datatype StateSyncBatch = StateSyncBatch(stateRoot: nat, requestedNodes: seq<RequestedNode>)

  datatype TrieNodesRequest = TrieNodesRequest(rootHash: nat, groups: seq<seq<seq<byte>>>)

  /** Two nibbles to a byte, high nibble first. */
  function Pack(x: seq<Nibble>): (r: seq<byte>)
    requires |x| % 2 == 0
    ensures |r| == |x| / 2
  {
    if |x| == 0 then [] else [(16 * (x[0] as int) + (x[1] as int)) as byte] + Pack(x[2..])
  }

  /** Each byte back to its two nibbles. */
  function Unpack(b: seq<byte>): (r: seq<Nibble>)
    ensures |r| == 2 * |b|
  {
    if |b| == 0 then [] else [(b[0] / 16) as Nibble, (b[0] % 16) as Nibble] + Unpack(b[1..])
  }

  lemma {:induction false} UnpackPack(x: seq<Nibble>)
    requires |x| % 2 == 0
    ensures Unpack(Pack(x)) == x
  {
    if |x| > 0 {
      UnpackPack(x[2..]);
      var b := (16 * (x[0] as int) + (x[1] as int)) as byte;
      assert Pack(x)[1..] == Pack(x[2..]);
      assert b / 16 == x[0] && b % 16 == x[1];
      assert x == [x[0], x[1]] + x[2..];
    }
  }

  /** Hex-prefix encoding with the leaf flag clear: an even path gets a 0x00 prefix byte, an
      odd one carries its first nibble under the high nibble 1. */
  function CompactHex(x: seq<Nibble>): (r: seq<byte>)
    ensures |r| == |x| / 2 + 1
    ensures |x| % 2 == 0 ==> r[0] == 0
    ensures |x| % 2 == 1 ==> r[0] / 16 == 1
  {
    if |x| % 2 == 0 then [0 as byte] + Pack(x) else [(16 + (x[0] as int)) as byte] + Pack(x[1..])
  }

  /** The hex-prefix decoder: a high nibble of 1 in the first byte marks an odd path whose
      first nibble is the low one; otherwise the first byte is padding. */
  function DecodeCompactHex(b: seq<byte>): (r: seq<Nibble>)
    requires |b| > 0
    ensures b[0] / 16 == 1 ==> |r| == 2 * |b| - 1 && r[0] == b[0] % 16
    ensures b[0] / 16 != 1 ==> |r| == 2 * |b| - 2
  {
    if b[0] / 16 == 1 then [(b[0] % 16) as Nibble] + Unpack(b[1..]) else Unpack(b[1..])
  }

  lemma {:induction false} PackUnpack(b: seq<byte>)
    ensures Pack(Unpack(b)) == b
  {
    if |b| > 0 {
      PackUnpack(b[1..]);
      var u := Unpack(b);
      assert u[2..] == Unpack(b[1..]);
      assert 16 * (u[0] as int) + (u[1] as int) == b[0] as int;
      assert b == [b[0]] + b[1..];
    }
  }

  /** The other direction: every well-formed hex-prefix encoding (first byte 0x00, or high
      nibble 1) is the encoding of what it decodes to. */
  lemma DecodeCompactHexRoundTrip(b: seq<byte>)
    requires |b| > 0 && (b[0] == 0 || b[0] / 16 == 1)
    ensures CompactHex(DecodeCompactHex(b)) == b
  {
    var x := DecodeCompactHex(b);
    PackUnpack(b[1..]);
    if b[0] / 16 == 1 {
      assert x[1..] == Unpack(b[1..]);
      assert (16 + (x[0] as int)) as byte == b[0];
    }
    assert b == [b[0]] + b[1..];
  }

  /** The hex-prefix encoding is undone by its decoder, so it is injective. */
  lemma CompactHexRoundTrip(x: seq<Nibble>)
    ensures DecodeCompactHex(CompactHex(x)) == x
  {
    if |x| % 2 == 0 {
      assert CompactHex(x)[1..] == Pack(x);
      UnpackPack(x);
    } else {
      assert CompactHex(x)[1..] == Pack(x[1..]);
      UnpackPack(x[1..]);
      assert x == [x[0]] + x[1..];
    }
  }

  /** EncodePath: full byte packing for a 64-nibble path, hex-prefix otherwise. */
  function EncodePath(x: seq<Nibble>): (r: seq<byte>)
    ensures |x| == 64 ==> |r| == 32 && Unpack(r) == x
    ensures |x| != 64 ==> r == CompactHex(x) && DecodeCompactHex(r) == x
  {
    if |x| == 64 then
      UnpackPack(x);
      Pack(x)
    else
      CompactHexRoundTrip(x);
      CompactHex(x)
  }

  /** Two paths of the same kind (both full, or both partial) encode differently. */
  lemma EncodePathInjective(x: seq<Nibble>, y: seq<Nibble>)
    requires (|x| == 64) == (|y| == 64)
    requires EncodePath(x) == EncodePath(y)
    ensures x == y
  {
  }

  /** Across kinds the encoding is ambiguous: a full path starting with two zero nibbles
      and the partial path of its remaining 62 nibbles encode to the same 32 bytes. */
  lemma EncodePathAcrossKinds(y: seq<Nibble>)
    requires |y| == 62
    ensures EncodePath([0, 0] + y) == EncodePath(y)
  {
    var x: seq<Nibble> := [0, 0] + y;
    assert x[2..] == y;
  }

  /** A node of the account trie: its account path is missing or empty. */
  predicate InAccountTrie(node: RequestedNode)
  {
    node.accountPath.None? || |node.accountPath.value| == 0
  }

  /** The paths of the account-trie nodes, in request order. */
  function AccountTriePaths(nodes: seq<RequestedNode>): (r: seq<seq<Nibble>>)
    ensures |r| <= |nodes|
  {
    if |nodes| == 0 then []
    else
      var last := nodes[|nodes| - 1];
      AccountTriePaths(nodes[..|nodes| - 1]) + (if InAccountTrie(last) then [last.path] else [])
  }

  /** The accounts whose storage tries are asked for. */
  function Accounts(nodes: seq<RequestedNode>): (r: set<seq<Nibble>>)
    ensures forall a :: a in r ==> |a| > 0
  {
    if |nodes| == 0 then {}
    else
      var last := nodes[|nodes| - 1];
      Accounts(nodes[..|nodes| - 1]) + (if InAccountTrie(last) then {} else {last.accountPath.value})
  }

  /** The storage paths asked for under account `a`, in request order. */
  function StoragePaths(nodes: seq<RequestedNode>, a: seq<Nibble>): seq<seq<Nibble>>
  {
    if |nodes| == 0 then []
    else
      var last := nodes[|nodes| - 1];
      StoragePaths(nodes[..|nodes| - 1], a) +
        (if !InAccountTrie(last) && last.accountPath.value == a then [last.path] else [])
  }

  function EncodeAll(paths: seq<seq<Nibble>>): (r: seq<seq<byte>>)
    ensures |r| == |paths|
    ensures forall i :: 0 <= i < |paths| ==> r[i] == EncodePath(paths[i])
  {
    seq(|paths|, i requires 0 <= i < |paths| => EncodePath(paths[i]))
  }

  /** The group for account `a`: its own path, then its storage paths. */
  function StorageGroup(nodes: seq<RequestedNode>, a: seq<Nibble>): (r: seq<seq<byte>>)
    ensures |r| == |StoragePaths(nodes, a)| + 1 && r[0] == EncodePath(a)
    ensures forall i :: 1 <= i < |r| ==> r[i] == EncodePath(StoragePaths(nodes, a)[i - 1])
  {
    var encoded := EncodeAll(StoragePaths(nodes, a));
    var r := [EncodePath(a)] + encoded;
    assert forall i :: 1 <= i < |r| ==> r[i] == encoded[i - 1];
    r
  }

  /** Collect the account-trie paths and the storage paths per account, in one pass. */
  method Collect(nodes: seq<RequestedNode>) returns (accountTrie: seq<seq<Nibble>>, byAccount: map<seq<Nibble>, seq<seq<Nibble>>>)
    ensures accountTrie == AccountTriePaths(nodes)
    ensures byAccount.Keys == Accounts(nodes)
    ensures forall a :: a in byAccount ==> byAccount[a] == StoragePaths(nodes, a)
  {
    accountTrie := [];
    byAccount := map[];
    var k := 0;
    while k < |nodes|
      invariant 0 <= k <= |nodes|
      invariant accountTrie == AccountTriePaths(nodes[..k])
      invariant byAccount.Keys == Accounts(nodes[..k])
      invariant forall a :: a in byAccount ==> byAccount[a] == StoragePaths(nodes[..k], a)
    {
      var node := nodes[k];
      if node.accountPath.None? || |node.accountPath.value| == 0 {
        AccountTrieStep(nodes, k, byAccount);
        accountTrie := accountTrie + [node.path];
      } else {
        StorageStep(nodes, k, byAccount);
        var a := node.accountPath.value;
        var paths := if a in byAccount then byAccount[a] else [];
        byAccount := byAccount[a := paths + [node.path]];
      }
      k := k + 1;
    }
    assert nodes[..k] == nodes;
  }

  /** One account-trie node more: its path is appended and the storage paths stay. */
  lemma AccountTrieStep(nodes: seq<RequestedNode>, k: nat, byAccount: map<seq<Nibble>, seq<seq<Nibble>>>)
    requires k < |nodes| && InAccountTrie(nodes[k])
    requires byAccount.Keys == Accounts(nodes[..k])
    requires forall a :: a in byAccount ==> byAccount[a] == StoragePaths(nodes[..k], a)
    ensures AccountTriePaths(nodes[..k + 1]) == AccountTriePaths(nodes[..k]) + [nodes[k].path]
    ensures byAccount.Keys == Accounts(nodes[..k + 1])
    ensures forall a :: a in byAccount ==> byAccount[a] == StoragePaths(nodes[..k + 1], a)
  {
    assert nodes[..k + 1][..k] == nodes[..k];
  }

  /** One storage node more: it joins its account's paths, the account-trie paths stay. */
  lemma StorageStep(nodes: seq<RequestedNode>, k: nat, byAccount: map<seq<Nibble>, seq<seq<Nibble>>>)
    requires k < |nodes| && !InAccountTrie(nodes[k])
    requires byAccount.Keys == Accounts(nodes[..k])
    requires forall a :: a in byAccount ==> byAccount[a] == StoragePaths(nodes[..k], a)
    ensures AccountTriePaths(nodes[..k + 1]) == AccountTriePaths(nodes[..k])
    ensures var a := nodes[k].accountPath.value;
            var m := byAccount[a := (if a in byAccount then byAccount[a] else []) + [nodes[k].path]];
            m.Keys == Accounts(nodes[..k + 1]) &&
            forall b :: b in m ==> m[b] == StoragePaths(nodes[..k + 1], b)
  {
    var a := nodes[k].accountPath.value;
    assert nodes[..k + 1][..k] == nodes[..k];
    if a !in byAccount {
      NoStoragePathsOutsideAccounts(nodes[..k], a);
    }
  }

  /** An account that is not asked for has no storage paths. */
  lemma {:induction false} NoStoragePathsOutsideAccounts(nodes: seq<RequestedNode>, a: seq<Nibble>)
    requires a !in Accounts(nodes)
    ensures StoragePaths(nodes, a) == []
  {
    if |nodes| > 0 {
      NoStoragePathsOutsideAccounts(nodes[..|nodes| - 1], a);
    }
  }

  /** One group per account-trie path, in order. */
  function SingletonGroups(paths: seq<seq<Nibble>>): (r: seq<seq<seq<byte>>>)
    ensures |r| == |paths|
    ensures forall i :: 0 <= i < |paths| ==> r[i] == [EncodePath(paths[i])]
  {
    seq(|paths|, i requires 0 <= i < |paths| => [EncodePath(paths[i])])
  }

  /** The groups of the accounts in `order`. */
  function GroupsFor(nodes: seq<RequestedNode>, order: seq<seq<Nibble>>): (r: seq<seq<seq<byte>>>)
    ensures |r| == |order|
    ensures forall i :: 0 <= i < |order| ==> r[i] == StorageGroup(nodes, order[i])
  {
    seq(|order|, i requires 0 <= i < |order| => StorageGroup(nodes, order[i]))
  }

  /** One group per account, in the order the dictionary enumerates its keys, which is
      left open here and returned as `order`. */
  method StorageGroups(nodes: seq<RequestedNode>, byAccount: map<seq<Nibble>, seq<seq<Nibble>>>)
    returns (groups: seq<seq<seq<byte>>>, order: seq<seq<Nibble>>)
    requires forall a :: a in byAccount ==> byAccount[a] == StoragePaths(nodes, a)
    ensures |order| == |byAccount|
    ensures groups == GroupsFor(nodes, order)
    ensures forall a :: a in byAccount.Keys <==> a in order
    ensures forall i, j :: 0 <= i < j < |order| ==> order[i] != order[j]
  {
    groups := [];
    order := [];
    var left := byAccount.Keys;
    while left != {}
      invariant left <= byAccount.Keys
      invariant |groups| == |order| && |order| + |left| == |byAccount.Keys|
      invariant forall i :: 0 <= i < |order| ==> groups[i] == StorageGroup(nodes, order[i])
      invariant forall a :: a in byAccount.Keys ==> (a in order <==> a !in left)
      invariant forall i :: 0 <= i < |order| ==> order[i] in byAccount.Keys
      invariant forall i, j :: 0 <= i < j < |order| ==> order[i] != order[j]
      decreases left
    {
      var a :| a in left;
      var group := [EncodePath(a)] + EncodeAll(byAccount[a]);
      assert group == StorageGroup(nodes, a);
      groups := groups + [group];
      order := order + [a];
      left := left - {a};
    }
    assert |byAccount.Keys| == |byAccount|;
    assert groups == GroupsFor(nodes, order);
  }

  /** GetRequest: the request's root is the batch's state root; the account-trie nodes come
      first, one group each and in request order; then one group per account, in the order
      the dictionary enumerates them (`order`, which lists every account exactly once). */
  method GetRequest(batch: StateSyncBatch) returns (request: TrieNodesRequest, order: seq<seq<Nibble>>)
    ensures request.rootHash == batch.stateRoot
    ensures request.groups == SingletonGroups(AccountTriePaths(batch.requestedNodes)) + GroupsFor(batch.requestedNodes, order)
    ensures |request.groups| == |AccountTriePaths(batch.requestedNodes)| + |Accounts(batch.requestedNodes)|
    ensures forall a :: a in Accounts(batch.requestedNodes) <==> a in order
    ensures forall i, j :: 0 <= i < j < |order| ==> order[i] != order[j]
  {
    var nodes := batch.requestedNodes;
    var accountTrie, byAccount := Collect(nodes);
    var front := SingletonGroups(accountTrie);
    var back;
    back, order := StorageGroups(nodes, byAccount);
    assert |byAccount| == |byAccount.Keys| == |Accounts(nodes)|;
    request := TrieNodesRequest(batch.stateRoot, front + back);
  }

  /** Every requested node lands in a group: an account-trie node among the account-trie
      paths, a storage node among the storage paths of its own account. */
  lemma {:induction false} EveryNodeIsGrouped(nodes: seq<RequestedNode>, k: nat)
    requires k < |nodes|
    ensures InAccountTrie(nodes[k]) ==> nodes[k].path in AccountTriePaths(nodes)
    ensures !InAccountTrie(nodes[k]) ==>
              nodes[k].accountPath.value in Accounts(nodes) &&
              nodes[k].path in StoragePaths(nodes, nodes[k].accountPath.value)
  {
    if k < |nodes| - 1 {
      EveryNodeIsGrouped(nodes[..|nodes| - 1], k);
    }
  }
}
