/**
 * The bounded least-recently-used map behind the actor's challenge caches
 * (the `lru` crate's `LruCache`, as `WebauthnActor` uses it: `new`, `put`,
 * `pop`). A cache is a map from key to value plus the recency order of its
 * keys, least recently used first. `Cache` is the value the cache holds at a
 * moment; `LruCache` is the object whose methods update it in place.
 */
module Lru {
  import opened Wrappers

  /** No key occurs twice. */
  predicate Distinct<K(==)>(s: seq<K>) {
    forall i, j | 0 <= i < j < |s| :: s[i] != s[j]
  }

  /** `s` with `k` taken out, the order of the other keys kept. */
  function Without<K(==)>(s: seq<K>, k: K): (r: seq<K>)
    ensures |r| <= |s|
  {
    if s == [] then []
    else if s[0] == k then Without(s[1..], k)
    else [s[0]] + Without(s[1..], k)
  }

  lemma {:induction false} WithoutMembers<K>(s: seq<K>, k: K)
    ensures forall x | x in Without(s, k) :: x in s && x != k
    ensures forall x | x in s && x != k :: x in Without(s, k)
  {
    if s != [] {
      WithoutMembers(s[1..], k);
    }
  }

  /** A sequence is distinct when its head is not in its tail and its tail is distinct. */
  lemma DistinctCons<K>(x: K, s: seq<K>)
    ensures Distinct([x] + s) <==> x !in s && Distinct(s)
  {
    var t := [x] + s;
    assert forall i | 0 <= i < |s| :: t[i + 1] == s[i];
    if x !in s && Distinct(s) {
      forall i, j | 0 <= i < j < |t| ensures t[i] != t[j] {
        assert t[j] == s[j - 1];
        if i == 0 {
          assert s[j - 1] in s;
        } else {
          assert t[i] == s[i - 1];
        }
      }
    } else if Distinct(t) {
      forall i, j | 0 <= i < j < |s| ensures s[i] != s[j] {
        assert t[i + 1] != t[j + 1];
      }
      forall j | 0 <= j < |s| ensures s[j] != x {
        assert t[0] != t[j + 1];
      }
    }
  }

  lemma {:induction false} WithoutDistinct<K>(s: seq<K>, k: K)
    requires Distinct(s)
    ensures Distinct(Without(s, k))
    ensures k in s ==> |Without(s, k)| == |s| - 1
    ensures k !in s ==> Without(s, k) == s
  {
    if s != [] {
      assert s == [s[0]] + s[1..];
      DistinctCons(s[0], s[1..]);
      WithoutDistinct(s[1..], k);
      WithoutMembers(s[1..], k);
      if s[0] != k {
        DistinctCons(s[0], Without(s[1..], k));
      }
    }
  }

  /** Appending keeps a sequence distinct exactly when the new element is new. */
  lemma DistinctSnoc<K>(s: seq<K>, x: K)
    ensures Distinct(s + [x]) <==> Distinct(s) && x !in s
  {
    var t := s + [x];
    assert forall i | 0 <= i < |s| :: t[i] == s[i];
    assert t[|s|] == x;
  }

  /** The parts of a distinct sequence are distinct and share nothing. */
  lemma DistinctSplit<K>(a: seq<K>, b: seq<K>)
    requires Distinct(a + b)
    ensures Distinct(a) && Distinct(b)
    ensures forall x | x in a :: x !in b
  {
    var t := a + b;
    assert forall i | 0 <= i < |a| :: t[i] == a[i];
    assert forall i | 0 <= i < |b| :: t[|a| + i] == b[i];
  }

  /** A distinct sequence has as many elements as it has positions. */
  lemma {:induction false} DistinctCard<K>(s: seq<K>)
    requires Distinct(s)
    ensures |set x | x in s| == |s|
  {
    if s != [] {
      DistinctCard(s[1..]);
      assert (set x | x in s) == {s[0]} + (set x | x in s[1..]);
    }
  }

  datatype Cache<K(==), V> = Cache(cap: nat, order: seq<K>, entries: map<K, V>)
  {
    /**
     * The cache's invariant: a positive capacity, never exceeded; the recency
     * order lists every stored key exactly once.
     */
    predicate Valid() {
      && 0 < cap
      && |order| <= cap
      && Distinct(order)
      && (forall k | k in order :: k in entries)
      && (forall k | k in entries :: k in order)
    }

    /** The key that the next insertion of a new key into a full cache evicts. */
    function LeastRecent(): K
      requires order != []
    {
      order[0]
    }

    /**
     * `put`: store `v` under `k` and make `k` the most recently used key. A new
     * key entering a full cache first evicts the least recently used one.
     */
    function Put(k: K, v: V): (c: Cache<K, V>)
      requires Valid()
      ensures c.Valid() && c.cap == cap
      ensures k in c.entries && c.entries[k] == v
      ensures c.order != [] && c.order[|c.order| - 1] == k
      // the other keys keep their relative recency; a full cache taking a new key drops its head
      ensures c.order == Without(if k !in entries && |order| == cap then order[1..] else order, k) + [k]
      ensures c.entries.Keys ==
        if k !in entries && |order| == cap then entries.Keys - {LeastRecent()} + {k}
        else entries.Keys + {k}
      ensures forall j | j in c.entries && j != k :: j in entries && c.entries[j] == entries[j]
    {
      if k in entries then
        WithoutDistinct(order, k);
        WithoutMembers(order, k);
        DistinctSnoc(Without(order, k), k);
        Cache(cap, Without(order, k) + [k], entries[k := v])
      else if |order| == cap then
        assert order == [order[0]] + order[1..];
        DistinctSplit([order[0]], order[1..]);
        WithoutDistinct(order[1..], k);
        DistinctSnoc(order[1..], k);
        Cache(cap, order[1..] + [k], (entries - {order[0]})[k := v])
      else
        WithoutDistinct(order, k);
        DistinctSnoc(order, k);
        Cache(cap, order + [k], entries[k := v])
    }

    /**
     * `pop`: take `k` out of the cache and hand back its value, or None when
     * `k` is not cached; the recency order of the other keys is kept.
     */
    function Pop(k: K): (r: (Cache<K, V>, Option<V>))
      requires Valid()
      ensures r.0.Valid() && r.0.cap == cap
      ensures k !in r.0.entries
      ensures r.1 == if k in entries then Some(entries[k]) else None
      ensures r.0.entries.Keys == entries.Keys - {k}
      ensures forall j | j in r.0.entries :: r.0.entries[j] == entries[j]
      ensures r.0.order == Without(order, k)
    {
      WithoutDistinct(order, k);
      WithoutMembers(order, k);
      if k in entries then (Cache(cap, Without(order, k), entries - {k}), Some(entries[k]))
      else (Cache(cap, Without(order, k), entries), None)
    }
  }

  /** The cache `LruCache::new(capacity)` starts with. */
  function Empty<K(==), V>(capacity: nat): (c: Cache<K, V>)
    requires 0 < capacity
    ensures c.Valid() && c.entries == map[] && c.cap == capacity
  {
    Cache(capacity, [], map[])
  }

  /** The cache never holds more entries than its capacity. */
  lemma Bounded<K, V>(c: Cache<K, V>)
    requires c.Valid()
    ensures |c.entries| == |c.order| <= c.cap
  {
    DistinctCard(c.order);
    assert c.entries.Keys == set x | x in c.order;
  }

  /**
   * A key put just now survives the put of any other key, in a cache that
   * can hold two: it is the most recent, so it is never the one evicted.
   */
  lemma RecentSurvivesPut<K, V>(c: Cache<K, V>, a: K, va: V, b: K, vb: V)
    requires c.Valid() && 2 <= c.cap && a != b
    ensures var c' := c.Put(a, va).Put(b, vb);
      a in c'.entries && c'.entries[a] == va
  {
    var c1 := c.Put(a, va);
    if b !in c1.entries && |c1.order| == c1.cap {
      assert c1.order[|c1.order| - 1] == a;
      assert c1.LeastRecent() != a by {
        assert c1.order[0] != c1.order[|c1.order| - 1];
      }
    }
  }

  /** Puts each key of `ks` in turn. */
  function PutAll<K(==), V>(c: Cache<K, V>, ks: seq<K>, v: V): (r: Cache<K, V>)
    requires c.Valid()
    ensures r.Valid() && r.cap == c.cap
    decreases |ks|
  {
    if ks == [] then c
    else PutAll(c.Put(ks[0], v), ks[1..], v)
  }

  /** The last `n` elements of `s`, or all of `s` when it is shorter. */
  function Latest<K>(s: seq<K>, n: nat): (r: seq<K>)
    ensures |r| <= n && |r| <= |s|
  {
    if |s| <= n then s else s[|s| - n..]
  }

  lemma LatestSnoc<K>(s: seq<K>, k: K, n: nat)
    requires 0 < n
    ensures Latest(s + [k], n) == if |s| < n then s + [k] else Latest(s, n)[1..] + [k]
  {
    if n <= |s| {
      assert (s + [k])[|s| + 1 - n..] == s[|s| - n..][1..] + [k];
    }
  }

  /**
   * Filling a cache with keys never seen before keeps exactly the latest
   * `cap` keys put, least recent first: each key beyond the capacity evicts
   * the one put longest ago.
   */
  lemma {:induction false} FillKeepsLatest<K, V>(c: Cache<K, V>, done: seq<K>, ks: seq<K>, v: V)
    requires c.Valid() && Distinct(done + ks)
    requires c.order == Latest(done, c.cap)
    ensures PutAll(c, ks, v).order == Latest(done + ks, c.cap)
    decreases |ks|
  {
    if ks == [] {
      assert done + ks == done;
    } else {
      var k := ks[0];
      var done' := done + [k];
      assert done' + ks[1..] == done + ks by {
        assert ks == [k] + ks[1..];
      }
      assert k !in c.entries by {
        DistinctSplit(done, ks);
        assert k in ks;
        assert forall x | x in c.order :: x in done;
      }
      LatestSnoc(done, k, c.cap);
      FillKeepsLatest(c.Put(k, v), done', ks[1..], v);
    }
  }

  /**
   * Putting `n + 1` distinct keys into an empty cache of capacity `n` leaves
   * every key but the first present, and the first absent.
   */
  lemma OverfillEvictsFirst<K, V>(n: nat, ks: seq<K>, v: V)
    requires 0 < n && |ks| == n + 1 && Distinct(ks)
    ensures var c := PutAll(Empty<K, V>(n), ks, v);
      ks[0] !in c.entries && forall i | 1 <= i <= n :: ks[i] in c.entries
  {
    var c0 := Empty<K, V>(n);
    assert [] + ks == ks;
    FillKeepsLatest(c0, [], ks, v);
    var c := PutAll(c0, ks, v);
    var kept := ks[1..];
    assert c.order == kept;
    assert ks[0] !in kept by {
      DistinctSplit([ks[0]], kept);
      assert [ks[0]] + kept == ks;
    }
    KeysAreOrder(c);
    forall i | 1 <= i <= n ensures ks[i] in c.entries {
      assert ks[i] == kept[i - 1];
    }
  }

  /** In a valid cache the stored keys are exactly the keys of the recency order. */
  lemma KeysAreOrder<K, V>(c: Cache<K, V>)
    requires c.Valid()
    ensures forall k :: k in c.entries <==> k in c.order
  {
  }

  /** The capacity-two scenario: after putting a, b, c, only b and c remain. */
  lemma CapacityTwoScenario(v: int)
    ensures var c := Empty<string, int>(2).Put("a", v).Put("b", v).Put("c", v);
      "a" !in c.entries && "b" in c.entries && "c" in c.entries
  {
    var c0 := Empty<string, int>(2);
  }

  /**
   * The `LruCache` object: a map from key to value and the recency order of
   * its keys, least recently used first, both updated in place.
   */
  class LruCache<K(==), V> {
    const cap: nat
    var order: seq<K>
    var entries: map<K, V>

    function Model(): Cache<K, V>
      reads this
    {
      Cache(cap, order, entries)
    }

    ghost predicate Valid()
      reads this
    {
      Model().Valid()
    }

    /** `LruCache::new(capacity)`: an empty cache. */
    constructor (capacity: nat)
      requires 0 < capacity
      ensures Valid() && Model() == Empty(capacity)
    {
      cap := capacity;
      order := [];
      entries := map[];
    }

    method Put(k: K, v: V)
      requires Valid()
      modifies this
      ensures Valid() && Model() == old(Model()).Put(k, v)
    {
      ghost var next := Model().Put(k, v);
      if k in entries {
        order := Without(order, k) + [k];
      } else if |order| == cap {
        var evicted := order[0];
        order := order[1..] + [k];
        entries := entries - {evicted};
      } else {
        order := order + [k];
      }
      entries := entries[k := v];
      assert Model() == next;
    }

    method Pop(k: K) returns (r: Option<V>)
      requires Valid()
      modifies this
      ensures Valid() && (Model(), r) == old(Model()).Pop(k)
    {
      ghost var next := Model().Pop(k);
      order := Without(order, k);
      if k in entries {
        r := Some(entries[k]);
        entries := entries - {k};
      } else {
        r := None;
      }
      assert (Model(), r) == next;
    }
  }
}
