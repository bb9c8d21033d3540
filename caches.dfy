/**
 * The two bounded caches of the engine: the canonical-node table
 * (_nodeCache, a dictionary keyed by QuadNode equality, so by NodeKey) and
 * the advance-result cache (_resultCache, keyed by NodeId and generation
 * count). Both only grow while below MAX_CACHE_SIZE entries.
 */
module Caches {
  import opened QuadTree
  import opened Levels

  const MAX_CACHE_SIZE: nat := 100000

  type NodeCache = map<NodeKey, NodeRef>

  /** (NodeId, Generations) */
  type ResultKey = (NodeRef, int)

  type ResultCache = map<ResultKey, NodeRef>

  /** Membership, spelled as a predicate of its own so that the quantifiers
      below are only instantiated where a proof asks for them. */
  predicate Cached<K, V>(cache: map<K, V>, k: K) {
    k in cache
  }

  /** Every canonical entry maps a key to a stored node with that very key. */
  ghost predicate NodeCacheOk(nodes: Arena, cache: NodeCache) {
    forall k {:trigger Cached(cache, k)} :: Cached(cache, k) ==> cache[k] in nodes && KeyOf(nodes[cache[k]]) == k
  }

  /** A cached advance: the advanced node (level >= 2) and the result are
      stored, the generation count is positive, the result has the level the
      advance produces, and an empty node advances to an empty node. */
  ghost predicate ResultEntryOk(nodes: Arena, deadNode: NodeRef, key: ResultKey, result: NodeRef)
    requires ArenaOk(nodes)
  {
    && key.0 in nodes && result in nodes && key.1 >= 1 && nodes[key.0].level >= 2
    && nodes[result].level == AdvanceLevel(nodes[key.0].level, key.1)
    && (IsEmptyNode(nodes, deadNode, key.0) ==> IsEmptyNode(nodes, deadNode, result))
  }

  ghost predicate ResultCacheOk(nodes: Arena, deadNode: NodeRef, cache: ResultCache) {
    ArenaOk(nodes) && forall k {:trigger Cached(cache, k)} :: Cached(cache, k) ==> ResultEntryOk(nodes, deadNode, k, cache[k])
  }

  /** Adding nodes to the arena keeps both caches consistent. */
  lemma CachesStable(before: Arena, after: Arena, deadNode: NodeRef, nodeCache: NodeCache, resultCache: ResultCache)
    requires ArenaOk(after) && Extends(before, after)
    requires NodeCacheOk(before, nodeCache) && ResultCacheOk(before, deadNode, resultCache)
    ensures NodeCacheOk(after, nodeCache) && ResultCacheOk(after, deadNode, resultCache)
  {
    forall k | Cached(nodeCache, k) ensures nodeCache[k] in after && KeyOf(after[nodeCache[k]]) == k {
      var id := nodeCache[k];
      assert KeyOf(before[id]) == k;
    }
    forall k | Cached(resultCache, k) ensures ResultEntryOk(after, deadNode, k, resultCache[k]) {
      assert ResultEntryOk(before, deadNode, k, resultCache[k]);
      IsEmptyStable(before, after, deadNode, k.0);
      IsEmptyStable(before, after, deadNode, resultCache[k]);
    }
  }

  // ---------------------------------------------------------------------
  // GetCanonical

  /** GetCanonical on the table: the node stored under the key if there is
      one; otherwise the given node, recorded only while the table is below
      its cap. The pair is (node returned, table after). */
  function Canonicalize(cache: NodeCache, key: NodeKey, id: NodeRef): (r: (NodeRef, NodeCache))
    ensures forall k :: k in cache ==> k in r.1 && r.1[k] == cache[k]
    ensures r.1.Keys <= cache.Keys + {key} && (r.1 == cache || |r.1| <= MAX_CACHE_SIZE)
    ensures key in r.1 ==> r.0 == r.1[key]
    ensures key !in cache ==> r.0 == id
  {
    if key in cache then (cache[key], cache)
    else if |cache| < MAX_CACHE_SIZE then (id, cache[key := id])
    else (id, cache)
  }

  /** The node returned has the key asked for, and the table stays consistent. */
  lemma CanonicalizeKeepsKey(nodes: Arena, cache: NodeCache, id: NodeRef)
    requires NodeCacheOk(nodes, cache) && id in nodes
    ensures var (canonical, cache') := Canonicalize(cache, KeyOf(nodes[id]), id);
      && canonical in nodes && KeyOf(nodes[canonical]) == KeyOf(nodes[id])
      && NodeCacheOk(nodes, cache')
      && (KeyOf(nodes[id]) in cache ==> canonical == cache[KeyOf(nodes[id])] && cache' == cache)
  {
    var key := KeyOf(nodes[id]);
    if key in cache {
      assert Cached(cache, key);
    } else {
      var cache' := Canonicalize(cache, key, id).1;
      forall k | Cached(cache', k) ensures cache'[k] in nodes && KeyOf(nodes[cache'[k]]) == k {
        if k != key {
          assert Cached(cache, k);
        }
      }
    }
  }

  /** Canonicalizing the canonical node again changes nothing. */
  lemma CanonicalizeIdempotent(cache: NodeCache, key: NodeKey, id: NodeRef)
    ensures var (canonical, cache') := Canonicalize(cache, key, id);
      Canonicalize(cache', key, canonical) == (canonical, cache')
  {
  }

  /** Hash-consing: once a node is recorded, every later node with the same key
      is replaced by it. */
  lemma CanonicalizeShares(cache: NodeCache, key: NodeKey, first: NodeRef, second: NodeRef)
    requires key !in cache && |cache| < MAX_CACHE_SIZE
    ensures Canonicalize(cache, key, first).0 == first
    ensures Canonicalize(Canonicalize(cache, key, first).1, key, second).0 == first
  {
  }

  /** The table never grows beyond its cap. */
  lemma CanonicalizeBounded(cache: NodeCache, key: NodeKey, id: NodeRef)
    requires |cache| <= MAX_CACHE_SIZE
    ensures |Canonicalize(cache, key, id).1| <= MAX_CACHE_SIZE
    ensures cache.Keys <= Canonicalize(cache, key, id).1.Keys
  {
  }

  // ---------------------------------------------------------------------
  // SetCached

  /** SetCached: record the result only while the cache is below its cap. */
  function StoreResult(cache: ResultCache, key: ResultKey, result: NodeRef): ResultCache {
    if |cache| < MAX_CACHE_SIZE then cache[key := result] else cache
  }

  /** Storing a consistent entry keeps the result cache consistent and under its cap. */
  lemma StoreResultOk(nodes: Arena, deadNode: NodeRef, cache: ResultCache, key: ResultKey, result: NodeRef)
    requires ResultCacheOk(nodes, deadNode, cache) && ResultEntryOk(nodes, deadNode, key, result)
    ensures ResultCacheOk(nodes, deadNode, StoreResult(cache, key, result))
    ensures |cache| <= MAX_CACHE_SIZE ==> |StoreResult(cache, key, result)| <= MAX_CACHE_SIZE
  {
    var cache' := StoreResult(cache, key, result);
    forall k | Cached(cache', k) ensures ResultEntryOk(nodes, deadNode, k, cache'[k]) {
      if k != key {
        assert Cached(cache, k);
      }
    }
  }

  // ---------------------------------------------------------------------
  // CleanupCaches

  /** m' keeps some of the entries of m, unchanged. */
  ghost predicate SubMap<K, V>(m': map<K, V>, m: map<K, V>) {
    forall k :: k in m' ==> k in m && m'[k] == m[k]
  }

  /** Dropping entries keeps both caches consistent. */
  lemma SubMapKeepsOk(nodes: Arena, deadNode: NodeRef, nodeCache: NodeCache, fullNodeCache: NodeCache,
                      resultCache: ResultCache, fullResultCache: ResultCache)
    requires NodeCacheOk(nodes, fullNodeCache) && SubMap(nodeCache, fullNodeCache)
    requires ResultCacheOk(nodes, deadNode, fullResultCache) && SubMap(resultCache, fullResultCache)
    ensures NodeCacheOk(nodes, nodeCache) && ResultCacheOk(nodes, deadNode, resultCache)
  {
    forall k | Cached(nodeCache, k) ensures nodeCache[k] in nodes && KeyOf(nodes[nodeCache[k]]) == k {
      assert Cached(fullNodeCache, k);
    }
    forall k | Cached(resultCache, k) ensures ResultEntryOk(nodes, deadNode, k, resultCache[k]) {
      assert Cached(fullResultCache, k);
    }
  }

  /** Any number of keys up to the size of a set can be taken from it. */
  lemma {:induction false} SubsetOfSize<T>(s: set<T>, n: nat)
    requires n <= |s|
    ensures exists t :: t <= s && |t| == n
  {
    if n > 0 {
      var x :| x in s;
      SubsetOfSize(s - {x}, n - 1);
      var t :| t <= s - {x} && |t| == n - 1;
      assert t + {x} <= s && |t + {x}| == n;
    } else {
      assert {} <= s;
    }
  }

  /** One half of CleanupCaches: a cache above the cap loses
      Count - MAX_CACHE_SIZE / 2 entries (Keys.Take, whose order is left
      open), so exactly MAX_CACHE_SIZE / 2 remain; a cache within the cap is
      left alone. */
  method TrimCache<K, V>(cache: map<K, V>) returns (trimmed: map<K, V>)
    ensures SubMap(trimmed, cache)
    ensures |cache| > MAX_CACHE_SIZE ==> |trimmed| == MAX_CACHE_SIZE / 2
    ensures |cache| <= MAX_CACHE_SIZE ==> trimmed == cache
  {
    trimmed := cache;
    if |cache| > MAX_CACHE_SIZE {
      var toRemove := |cache| - MAX_CACHE_SIZE / 2;
      SubsetOfSize(cache.Keys, toRemove);
      var keysToRemove :| keysToRemove <= cache.Keys && |keysToRemove| == toRemove;
      var rest := keysToRemove;
      while rest != {}
        invariant rest <= keysToRemove
        invariant trimmed.Keys == cache.Keys - (keysToRemove - rest)
        invariant SubMap(trimmed, cache)
        decreases rest
      {
        var key :| key in rest;
        trimmed := trimmed - {key};
        rest := rest - {key};
      }
      assert |cache.Keys - keysToRemove| == |cache.Keys| - |keysToRemove|;
    }
  }
}
