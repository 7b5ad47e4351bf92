/** ReadOnlyOverlayCache: a cache that reads through to a base cache it never writes. Writes
    and deletions go to an overlay dictionary; lookups prefer the overlay and fall back to
    the base. The base is seen through its contents, a map. */
module OverlayCache {

  import opened Prelude

  datatype Cache<K, V> = Cache(base: map<K, V>, overlay: map<K, V>)

  /** The mapping the cache presents: the base with the overlay written over it. */
  function View<K, V>(c: Cache<K, V>): (r: map<K, V>)
    ensures r.Keys == c.base.Keys + c.overlay.Keys
    ensures forall k :: k in c.overlay ==> r[k] == c.overlay[k]
    ensures forall k :: k in c.base && k !in c.overlay ==> r[k] == c.base[k]
  {
    c.base + c.overlay
  }

  /** A fresh overlay over `base`. */
  function Over<K, V>(base: map<K, V>): (r: Cache<K, V>)
    ensures View(r) == base
  {
    Cache(base, map[])
  }

  /** Clear drops the overlay only. */
  function Clear<K, V>(c: Cache<K, V>): (r: Cache<K, V>)
    ensures r.base == c.base && r.overlay == map[]
    ensures View(r) == c.base
  {
    c.(overlay := map[])
  }

  /** TryGet: the overlay's value, else the base's, else nothing (the source's false with a
      default value). */
  function TryGet<K, V>(c: Cache<K, V>, key: K): (r: Option<V>)
    ensures r.Some? <==> key in View(c)
    ensures r.Some? ==> r.value == View(c)[key]
    ensures key in c.overlay ==> r == Some(c.overlay[key])
  {
    if key in c.overlay then Some(c.overlay[key])
    else if key in c.base then Some(c.base[key])
    else None
  }

  /** Get: the overlay's value, else whatever the base's Get yields, which for a key it does
      not hold is the value type's default, passed here as `absent`. */
  function Get<K, V>(c: Cache<K, V>, key: K, absent: V): (r: V)
    ensures key in View(c) ==> r == View(c)[key]
    ensures key !in View(c) ==> r == absent
  {
    if key in c.overlay then c.overlay[key]
    else if key in c.base then c.base[key]
    else absent
  }

  /** Set writes the overlay, never the base, and reports true. */
  function Set<K, V>(c: Cache<K, V>, key: K, value: V): (r: (Cache<K, V>, bool))
    ensures r.1
    ensures r.0.base == c.base
    ensures View(r.0) == View(c)[key := value]
  {
    (c.(overlay := c.overlay[key := value]), true)
  }

  /** Delete removes the key from the overlay only; it reports whether the overlay held it. */
  function Delete<K, V>(c: Cache<K, V>, key: K): (r: (Cache<K, V>, bool))
    ensures r.1 <==> key in c.overlay
    ensures r.0.base == c.base
    ensures r.0.overlay.Keys == c.overlay.Keys - {key}
    ensures forall k :: k in r.0.overlay ==> r.0.overlay[k] == c.overlay[k]
  {
    (c.(overlay := c.overlay - {key}), key in c.overlay)
  }

  /** Contains: the overlay or the base holds the key. */
  function Contains<K, V>(c: Cache<K, V>, key: K): (r: bool)
    ensures r <==> key in c.overlay || key in c.base
  {
    key in c.overlay || key in c.base
  }

  /** `entries` lists exactly the pairs of `m`, each key once. */
  ghost predicate ListsExactly<K, V>(entries: seq<(K, V)>, m: map<K, V>)
  {
    (forall i :: 0 <= i < |entries| ==> entries[i].0 in m && m[entries[i].0] == entries[i].1) &&
    (forall k :: k in m ==> exists i :: 0 <= i < |entries| && entries[i].0 == k) &&
    DistinctKeys(entries)
  }

  /** No key appears twice. */
  ghost predicate DistinctKeys<K, V>(entries: seq<(K, V)>)
  {
    forall i, j :: 0 <= i < j < |entries| ==> entries[i].0 != entries[j].0
  }

  /** The base entries whose keys the overlay does not shadow, in the base's order. */
  function Unshadowed<K, V>(entries: seq<(K, V)>, overlay: map<K, V>): (r: seq<(K, V)>)
    ensures |r| <= |entries|
    ensures forall i :: 0 <= i < |r| ==> r[i].0 !in overlay && r[i] in entries
    ensures forall e :: e in entries && e.0 !in overlay ==> e in r
  {
    if |entries| == 0 then []
    else
      var rest := Unshadowed(entries[1..], overlay);
      if entries[0].0 in overlay then rest else [entries[0]] + rest
  }

  /** The base with the keys the overlay shadows taken out. */
  function Shadowed<K, V>(base: map<K, V>, overlay: map<K, V>): (r: map<K, V>)
    ensures r.Keys == base.Keys - overlay.Keys
    ensures forall k :: k in r ==> r[k] == base[k]
  {
    map k | k in base && k !in overlay :: base[k]
  }

  /** The view is the overlay next to the part of the base it does not shadow. */
  lemma ViewSplits<K, V>(c: Cache<K, V>)
    ensures c.overlay + Shadowed(c.base, c.overlay) == View(c)
  {
  }

  /** Filtering the base's listing by the overlay lists exactly the unshadowed base. */
  lemma {:induction false} UnshadowedListsRest<K, V>(entries: seq<(K, V)>, base: map<K, V>, overlay: map<K, V>)
    requires ListsExactly(entries, base)
    ensures ListsExactly(Unshadowed(entries, overlay), Shadowed(base, overlay))
  {
    var r := Unshadowed(entries, overlay);
    var rest := Shadowed(base, overlay);
    forall k | k in rest
      ensures exists i :: 0 <= i < |r| && r[i].0 == k
    {
      var i :| 0 <= i < |entries| && entries[i].0 == k;
      assert entries[i] in entries;
      var j :| 0 <= j < |r| && r[j] == entries[i];
    }
    forall i | 0 <= i < |r|
      ensures r[i].0 in rest && rest[r[i].0] == r[i].1
    {
      var n :| 0 <= n < |entries| && entries[n] == r[i];
    }
    UnshadowedKeepsDistinct(entries, overlay);
  }

  /** Filtering keeps entries in order, so distinct keys stay distinct. */
  lemma {:induction false} UnshadowedKeepsDistinct<K, V>(entries: seq<(K, V)>, overlay: map<K, V>)
    requires DistinctKeys(entries)
    ensures DistinctKeys(Unshadowed(entries, overlay))
  {
    if |entries| > 0 {
      var rest := Unshadowed(entries[1..], overlay);
      UnshadowedKeepsDistinct(entries[1..], overlay);
      if entries[0].0 !in overlay {
        HeadKeyNotInTail(entries);
        ConsKeepsDistinct(entries[0], rest);
      }
    }
  }

  /** In a listing with distinct keys the first key does not come again. */
  lemma HeadKeyNotInTail<K, V>(entries: seq<(K, V)>)
    requires |entries| > 0 && DistinctKeys(entries)
    ensures forall e :: e in entries[1..] ==> e.0 != entries[0].0
  {
    forall e | e in entries[1..]
      ensures e.0 != entries[0].0
    {
      var k :| 0 <= k < |entries[1..]| && entries[1..][k] == e;
      assert entries[k + 1] == e;
    }
  }

  /** An entry whose key the listing lacks can go in front of it. */
  lemma ConsKeepsDistinct<K, V>(x: (K, V), rest: seq<(K, V)>)
    requires DistinctKeys(rest) && forall e :: e in rest ==> e.0 != x.0
    ensures DistinctKeys([x] + rest)
  {
    var r := [x] + rest;
    forall i, j | 0 <= i < j < |r|
      ensures r[i].0 != r[j].0
    {
      assert r[j] == rest[j - 1];
      if i > 0 {
        assert r[i] == rest[i - 1];
      }
    }
  }

  /** Two listings of maps with disjoint keys, one after the other, list their union. */
  lemma ListsConcat<K, V>(front: seq<(K, V)>, back: seq<(K, V)>, a: map<K, V>, b: map<K, V>)
    requires ListsExactly(front, a) && ListsExactly(back, b)
    requires a.Keys !! b.Keys
    ensures ListsExactly(front + back, a + b)
  {
    var r := front + back;
    forall k | k in a + b
      ensures exists i :: 0 <= i < |r| && r[i].0 == k
    {
      if k in a {
        var i :| 0 <= i < |front| && front[i].0 == k;
        assert r[i] == front[i];
      } else {
        var i :| 0 <= i < |back| && back[i].0 == k;
        assert r[|front| + i] == back[i];
      }
    }
    forall i, j | 0 <= i < j < |r|
      ensures r[i].0 != r[j].0
    {
      if i < |front| && j >= |front| {
        assert r[i].0 in a && r[j].0 in b;
      }
    }
  }

  /** The overlay's entries in some order: the order a dictionary enumerates is left open. */
  method OverlayEntries<K, V>(overlay: map<K, V>) returns (front: seq<(K, V)>)
    ensures ListsExactly(front, overlay)
    ensures |front| == |overlay|
  {
    front := [];
    var left := overlay.Keys;
    while left != {}
      invariant left <= overlay.Keys
      invariant |front| + |left| == |overlay|
      invariant forall i :: 0 <= i < |front| ==> front[i].0 in overlay && front[i].0 !in left &&
                                                 overlay[front[i].0] == front[i].1
      invariant forall k :: k in overlay && k !in left ==> exists i :: 0 <= i < |front| && front[i].0 == k
      invariant DistinctKeys(front)
      decreases left
    {
      var k :| k in left;
      ghost var before := front;
      front := front + [(k, overlay[k])];
      left := left - {k};
      forall k' | k' in overlay && k' !in left
        ensures exists i :: 0 <= i < |front| && front[i].0 == k'
      {
        if k' == k {
          assert front[|front| - 1].0 == k';
        } else {
          var i :| 0 <= i < |before| && before[i].0 == k';
          assert front[i] == before[i];
        }
      }
    }
  }

  /** ToArray: the overlay's entries followed by the base's entries (`baseEntries`, what
      the base's own ToArray returns) whose keys the overlay does not shadow, in the base's
      order. The result lists the view exactly: every key once, with the value a lookup
      gives, and no shadowed base entry. */
  method ToArray<K, V>(c: Cache<K, V>, baseEntries: seq<(K, V)>) returns (r: seq<(K, V)>)
    requires ListsExactly(baseEntries, c.base)
    ensures ListsExactly(r, View(c))
    ensures |r| >= |c.overlay| && r[|c.overlay|..] == Unshadowed(baseEntries, c.overlay)
    ensures forall i :: 0 <= i < |c.overlay| ==> r[i].0 in c.overlay && r[i].1 == c.overlay[r[i].0]
  {
    var front := OverlayEntries(c.overlay);
    var back := Unshadowed(baseEntries, c.overlay);
    OverlayThenRestListsView(c, baseEntries, front);
    OverlayComesFirst(front, back, c.overlay);
    r := front + back;
  }

  /** A listing of the overlay put in front keeps its entries at the head. */
  lemma OverlayComesFirst<K, V>(front: seq<(K, V)>, back: seq<(K, V)>, overlay: map<K, V>)
    requires ListsExactly(front, overlay) && |front| == |overlay|
    ensures (front + back)[|overlay|..] == back
    ensures forall i :: 0 <= i < |overlay| ==> (front + back)[i].0 in overlay && (front + back)[i].1 == overlay[(front + back)[i].0]
  {
    assert (front + back)[|front|..] == back;
    assert forall i :: 0 <= i < |front| ==> (front + back)[i] == front[i];
  }

  /** The overlay's listing followed by the unshadowed base listing lists the view. */
  lemma OverlayThenRestListsView<K, V>(c: Cache<K, V>, baseEntries: seq<(K, V)>, front: seq<(K, V)>)
    requires ListsExactly(baseEntries, c.base) && ListsExactly(front, c.overlay)
    ensures ListsExactly(front + Unshadowed(baseEntries, c.overlay), View(c))
  {
    UnshadowedListsRest(baseEntries, c.base, c.overlay);
    ListsConcat(front, Unshadowed(baseEntries, c.overlay), c.overlay, Shadowed(c.base, c.overlay));
    ViewSplits(c);
  }

  /** A value just set is what Get and TryGet return for it, whatever the base holds. */
  lemma SetThenGet<K, V>(c: Cache<K, V>, key: K, value: V, absent: V)
    ensures Get(Set(c, key, value).0, key, absent) == value
    ensures TryGet(Set(c, key, value).0, key) == Some(value)
  {
  }

  /** After Delete a lookup of that key sees the base again. */
  lemma DeleteFallsBackToBase<K, V>(c: Cache<K, V>, key: K)
    ensures TryGet(Delete(c, key).0, key) == (if key in c.base then Some(c.base[key]) else None)
  {
  }

  /** Contains agrees with TryGet. */
  lemma ContainsIffTryGet<K, V>(c: Cache<K, V>, key: K)
    ensures Contains(c, key) <==> TryGet(c, key).Some?
  {
  }

  /** No sequence of Set, Delete and Clear reaches the base: clearing after any of them
      shows the base exactly. */
  lemma ClearAfterWritesShowsBase<K, V>(c: Cache<K, V>, key: K, value: V)
    ensures View(Clear(Set(c, key, value).0)) == c.base
    ensures View(Clear(Delete(c, key).0)) == c.base
  {
  }
}
