/** Capability negotiation of the devp2p base protocol (P2PProtocolHandler): the capability
    lists, the Hello and AddCapability handling, and the choice of subprotocols to start,
    one per agreed protocol at its highest agreed version in ascending protocol order.
    Protocol codes compare character by character (ordinal order). */
module P2PCapabilities {

  import opened Prelude

  datatype Capability = Capability(protocolCode: string, version: int)

  datatype DisconnectReason = UselessPeer

  datatype Handler = Handler(
    supported: seq<Capability>,
    agreed: seq<Capability>,
    available: seq<Capability>,
    protocolVersion: int,
    disconnect: Option<DisconnectReason>)

  datatype Hello = Hello(p2pVersion: int, capabilities: seq<Capability>)

  /** AddSupportedCapability: add unless already there. */
  function AddSupportedCapability(h: Handler, c: Capability): (r: Handler)
    ensures c in r.supported
    ensures c in h.supported ==> r == h
    ensures c !in h.supported ==> r == h.(supported := h.supported + [c])
  {
    if c in h.supported then h else h.(supported := h.supported + [c])
  }

  /** Adding a capability twice is adding it once. */
  lemma AddSupportedIsIdempotent(h: Handler, c: Capability)
    ensures AddSupportedCapability(AddSupportedCapability(h, c), c) == AddSupportedCapability(h, c)
  {
  }

  /** The capabilities of `theirs` that are in `ours`, in their order. */
  function Supported(theirs: seq<Capability>, ours: seq<Capability>): (r: seq<Capability>)
    ensures forall c :: c in r <==> c in theirs && c in ours
    ensures forall c :: multiset(r)[c] == if c in ours then multiset(theirs)[c] else 0
    ensures |r| <= |theirs|
  {
    if |theirs| == 0 then []
    else
      var last := theirs[|theirs| - 1];
      assert theirs == theirs[..|theirs| - 1] + [last];
      Supported(theirs[..|theirs| - 1], ours) + (if last in ours then [last] else [])
  }

  /** HandleHello: the protocol version and the available capabilities become the peer's;
      each capability the peer advertises that is supported here is appended to the agreed
      list; with nothing agreed the peer is disconnected as useless. */
  function HandleHello(h: Handler, hello: Hello): (r: Handler)
    ensures r.protocolVersion == hello.p2pVersion
    ensures r.available == hello.capabilities
    ensures r.supported == h.supported
    ensures |r.agreed| >= |h.agreed| && r.agreed[..|h.agreed|] == h.agreed
    ensures forall c :: c in r.agreed[|h.agreed|..] <==> c in hello.capabilities && c in h.supported
    ensures forall c :: multiset(r.agreed[|h.agreed|..])[c] ==
                         if c in h.supported then multiset(hello.capabilities)[c] else 0
    ensures |r.agreed| == 0 ==> r.disconnect == Some(UselessPeer)
    ensures |r.agreed| > 0 ==> r.disconnect == h.disconnect
  {
    var agreed := h.agreed + Supported(hello.capabilities, h.supported);
    assert agreed[..|h.agreed|] == h.agreed;
    assert agreed[|h.agreed|..] == Supported(hello.capabilities, h.supported);
    Handler(h.supported, agreed, hello.capabilities, hello.p2pVersion,
            if |agreed| == 0 then Some(UselessPeer) else h.disconnect)
  }

  /** Ordinal order on strings. */
  predicate StrLess(a: string, b: string)
  {
    |b| > 0 && (|a| == 0 || a[0] < b[0] || (a[0] == b[0] && StrLess(a[1..], b[1..])))
  }

  lemma {:induction false} StrLessIrreflexive(a: string)
    ensures !StrLess(a, a)
  {
    if |a| > 0 {
      StrLessIrreflexive(a[1..]);
    }
  }

  lemma {:induction false} StrLessTotal(a: string, b: string)
    requires a != b
    ensures StrLess(a, b) || StrLess(b, a)
  {
    if |a| > 0 && |b| > 0 && a[0] == b[0] {
      assert a == [a[0]] + a[1..];
      assert b == [b[0]] + b[1..];
      StrLessTotal(a[1..], b[1..]);
    }
  }

  lemma {:induction false} StrLessTransitive(a: string, b: string, c: string)
    requires StrLess(a, b) && StrLess(b, c)
    ensures StrLess(a, c)
  {
    if |a| > 0 && a[0] == b[0] && b[0] == c[0] {
      StrLessTransitive(a[1..], b[1..], c[1..]);
    }
  }

  lemma StrLessAsymmetric(a: string, b: string)
    requires StrLess(a, b)
    ensures !StrLess(b, a)
  {
    if StrLess(b, a) {
      StrLessTransitive(a, b, a);
      StrLessIrreflexive(a);
    }
  }

  /** Strictly ascending protocol codes: one entry per protocol. */
  ghost predicate Ascending(caps: seq<Capability>)
  {
    forall i, j :: 0 <= i < j < |caps| ==> StrLess(caps[i].protocolCode, caps[j].protocolCode)
  }

  function Max(a: int, b: int): int
  {
    if a < b then b else a
  }

  /** Merge one agreed capability into the ascending selection: raise the version of its
      protocol's entry, or insert a new entry in its place. */
  function Insert(selected: seq<Capability>, c: Capability): (r: seq<Capability>)
    ensures |selected| <= |r| <= |selected| + 1
  {
    if |selected| == 0 then [c]
    else if selected[0].protocolCode == c.protocolCode then
      [Capability(c.protocolCode, Max(selected[0].version, c.version))] + selected[1..]
    else if StrLess(c.protocolCode, selected[0].protocolCode) then [c] + selected
    else [selected[0]] + Insert(selected[1..], c)
  }

  /** Every selected entry is an agreed capability. */
  ghost predicate ChosenFrom(selected: seq<Capability>, agreed: seq<Capability>)
  {
    forall i :: 0 <= i < |selected| ==> selected[i] in agreed
  }

  /** Every agreed protocol has an entry at least as high as each version agreed for it. */
  ghost predicate Covers(selected: seq<Capability>, agreed: seq<Capability>)
  {
    forall k :: 0 <= k < |agreed| ==> HasAtLeast(selected, agreed[k].protocolCode, agreed[k].version)
  }

  /** The selection made from an agreed list: one entry per protocol in ascending protocol
      order, each an agreed capability at the highest version agreed for its protocol. */
  ghost predicate Selects(selected: seq<Capability>, agreed: seq<Capability>)
  {
    Ascending(selected) && ChosenFrom(selected, agreed) && Covers(selected, agreed)
  }

  lemma {:induction false} InsertKeepsAscending(selected: seq<Capability>, c: Capability)
    requires Ascending(selected)
    ensures Ascending(Insert(selected, c))
  {
    if |selected| > 0 && selected[0].protocolCode != c.protocolCode && !StrLess(c.protocolCode, selected[0].protocolCode) {
      InsertKeepsAscending(selected[1..], c);
      InsertTakesFrom(selected[1..], c);
      StrLessTotal(c.protocolCode, selected[0].protocolCode);
      var r := Insert(selected, c);
      var tail := Insert(selected[1..], c);
      assert r == [selected[0]] + tail;
      forall j | 0 < j < |r|
        ensures StrLess(selected[0].protocolCode, r[j].protocolCode)
      {
        assert r[j] == tail[j - 1];
        assert tail[j - 1] in tail;
      }
    } else if |selected| > 0 && StrLess(c.protocolCode, selected[0].protocolCode) {
      forall j | 0 < j < |selected|
        ensures StrLess(c.protocolCode, selected[j].protocolCode)
      {
        StrLessTransitive(c.protocolCode, selected[0].protocolCode, selected[j].protocolCode);
      }
    }
  }

  /** Every entry after an Insert was already there or is the inserted capability. */
  lemma {:induction false} InsertTakesFrom(selected: seq<Capability>, c: Capability)
    ensures forall x :: x in Insert(selected, c) ==> x in selected || x == c
  {
    if |selected| > 0 && selected[0].protocolCode != c.protocolCode && !StrLess(c.protocolCode, selected[0].protocolCode) {
      InsertTakesFrom(selected[1..], c);
    }
  }

  /** `selected` has an entry for `code` at `version` or above. */
  ghost predicate HasAtLeast(selected: seq<Capability>, code: string, version: int)
  {
    exists i :: 0 <= i < |selected| && selected[i].protocolCode == code && version <= selected[i].version
  }

  /** After an Insert every protocol met so far, the inserted one included, has an entry at
      least as high as any version met for it. */
  lemma {:induction false} InsertCovers(selected: seq<Capability>, c: Capability)
    ensures HasAtLeast(Insert(selected, c), c.protocolCode, c.version)
    ensures forall n :: 0 <= n < |selected| ==>
              HasAtLeast(Insert(selected, c), selected[n].protocolCode, selected[n].version)
  {
    var r := Insert(selected, c);
    if |selected| == 0 {
      assert r[0] == c;
    } else if selected[0].protocolCode == c.protocolCode {
      var top := Capability(c.protocolCode, Max(selected[0].version, c.version));
      assert r == [top] + selected[1..];
      assert r[0] == top;
      forall n | 0 <= n < |selected|
        ensures HasAtLeast(r, selected[n].protocolCode, selected[n].version)
      {
        if n > 0 {
          assert r[n] == selected[n];
        }
      }
    } else if StrLess(c.protocolCode, selected[0].protocolCode) {
      assert r == [c] + selected;
      assert r[0] == c;
      forall n | 0 <= n < |selected|
        ensures HasAtLeast(r, selected[n].protocolCode, selected[n].version)
      {
        assert r[n + 1] == selected[n];
      }
    } else {
      var tail := Insert(selected[1..], c);
      InsertCovers(selected[1..], c);
      assert r == [selected[0]] + tail;
      var k :| 0 <= k < |tail| && tail[k].protocolCode == c.protocolCode && c.version <= tail[k].version;
      assert r[k + 1] == tail[k];
      forall n | 0 <= n < |selected|
        ensures HasAtLeast(r, selected[n].protocolCode, selected[n].version)
      {
        if n == 0 {
          assert r[0] == selected[0];
        } else {
          assert selected[1..][n - 1] == selected[n];
          var m :| 0 <= m < |tail| && tail[m].protocolCode == selected[n].protocolCode && selected[n].version <= tail[m].version;
          assert r[m + 1] == tail[m];
        }
      }
    }
  }

  /** The subprotocols the Hello handler starts: the agreed capabilities grouped by protocol,
      the highest version of each, in ascending protocol order. */
  function Subprotocols(agreed: seq<Capability>): (r: seq<Capability>)
    ensures |r| <= |agreed|
    ensures |r| == 0 <==> |agreed| == 0
  {
    if |agreed| == 0 then [] else Insert(Subprotocols(agreed[..|agreed| - 1]), agreed[|agreed| - 1])
  }

  /** Subprotocols picks one entry per agreed protocol, at the highest agreed version, in
      ascending protocol order, and picks nothing that was not agreed. */
  lemma SubprotocolsSelect(agreed: seq<Capability>)
    ensures Selects(Subprotocols(agreed), agreed)
  {
    SubprotocolsAscending(agreed);
    SubprotocolsChosen(agreed);
    SubprotocolsCover(agreed);
  }

  lemma {:induction false} SubprotocolsAscending(agreed: seq<Capability>)
    ensures Ascending(Subprotocols(agreed))
  {
    if |agreed| > 0 {
      SubprotocolsAscending(agreed[..|agreed| - 1]);
      InsertKeepsAscending(Subprotocols(agreed[..|agreed| - 1]), agreed[|agreed| - 1]);
    }
  }

  lemma {:induction false} SubprotocolsChosen(agreed: seq<Capability>)
    ensures ChosenFrom(Subprotocols(agreed), agreed)
  {
    if |agreed| > 0 {
      var front := agreed[..|agreed| - 1];
      var c := agreed[|agreed| - 1];
      var r := Subprotocols(agreed);
      SubprotocolsChosen(front);
      InsertTakesFrom(Subprotocols(front), c);
      assert agreed == front + [c];
      forall i | 0 <= i < |r|
        ensures r[i] in agreed
      {
        assert r[i] in r;
      }
    }
  }

  lemma {:induction false} SubprotocolsCover(agreed: seq<Capability>)
    ensures Covers(Subprotocols(agreed), agreed)
  {
    if |agreed| > 0 {
      var front := agreed[..|agreed| - 1];
      var c := agreed[|agreed| - 1];
      var before := Subprotocols(front);
      var r := Subprotocols(agreed);
      SubprotocolsCover(front);
      InsertCovers(before, c);
      forall k | 0 <= k < |agreed|
        ensures HasAtLeast(r, agreed[k].protocolCode, agreed[k].version)
      {
        if k < |agreed| - 1 {
          assert agreed[k] == front[k];
          var n :| 0 <= n < |before| && before[n].protocolCode == front[k].protocolCode && front[k].version <= before[n].version;
        }
      }
    }
  }

  /** Ascending codes mean one entry per protocol, so an entry is at least every version
      agreed for its protocol. */
  lemma SelectedIsHighest(selected: seq<Capability>, agreed: seq<Capability>, i: nat, k: nat)
    requires Ascending(selected) && Covers(selected, agreed)
    requires i < |selected| && k < |agreed| && agreed[k].protocolCode == selected[i].protocolCode
    ensures agreed[k].version <= selected[i].version
  {
    var code := agreed[k].protocolCode;
    var j :| 0 <= j < |selected| && selected[j].protocolCode == code && agreed[k].version <= selected[j].version;
    StrLessIrreflexive(code);
  }

  /** What the Hello message starts: the handler after HandleHello and the subprotocols it
      requests, none when the peer was found useless. */
  function OnHello(h: Handler, hello: Hello): (r: (Handler, seq<Capability>))
    ensures r.0 == HandleHello(h, hello)
    ensures |r.0.agreed| == 0 ==> r.1 == []
    ensures Selects(r.1, r.0.agreed)
  {
    var next := HandleHello(h, hello);
    SubprotocolsSelect(next.agreed);
    (next, Subprotocols(next.agreed))
  }

  /** The AddCapability message: the capability joins the agreed and the supported lists
      (appended even when already listed) and its subprotocol is started. */
  function AddCapability(h: Handler, c: Capability): (r: (Handler, Capability))
    ensures r.0.agreed == h.agreed + [c] && r.0.supported == h.supported + [c]
    ensures r.0.available == h.available && r.0.protocolVersion == h.protocolVersion
    ensures r.1 == c
  {
    (h.(agreed := h.agreed + [c], supported := h.supported + [c]), c)
  }
}
