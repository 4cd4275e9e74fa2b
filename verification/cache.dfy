/** The bounded module-instance cache of manager_wasm.go: previously active
    handlers, least recently used at index 0 and most recently used at the
    tail, looked up by handler name.  manager.go holds the same two functions
    with the bound fixed at three (see `Manager`). */
module Cache {
  import opened Common
  import opened Handlers

  /** Some entry of the cache goes by `key`. */
  predicate HasKey(cache: seq<Handler>, key: string) {
    exists i :: 0 <= i < |cache| && HandlerName(cache[i]) == key
  }

  /** No two entries share a name. */
  predicate DistinctKeys(cache: seq<Handler>) {
    forall i, j :: 0 <= i < j < |cache| ==> HandlerName(cache[i]) != HandlerName(cache[j])
  }

  /** The invariant the router keeps: within the bound, one entry per name. */
  predicate CacheInv(cache: seq<Handler>, bound: int) {
    |cache| <= bound && DistinctKeys(cache)
  }

  /** The index of the first entry at or after `from` named `key`: the
      `for i, cm := range cache` scan that stops at the first match. */
  function IndexOfKey(cache: seq<Handler>, key: string, from: nat): (r: Option<nat>)
    requires from <= |cache|
    ensures r.None? <==> forall i :: from <= i < |cache| ==> HandlerName(cache[i]) != key
    ensures r.Some? ==> && from <= r.value < |cache|
                        && HandlerName(cache[r.value]) == key
                        && forall i :: from <= i < r.value ==> HandlerName(cache[i]) != key
    decreases |cache| - from
  {
    if from == |cache| then None
    else if HandlerName(cache[from]) == key then Some(from)
    else IndexOfKey(cache, key, from + 1)
  }

  /** `append(s[:i], s[i+1:]...)`. */
  function RemoveAt(s: seq<Handler>, i: nat): (r: seq<Handler>)
    requires i < |s|
    ensures |r| == |s| - 1
    ensures forall j :: 0 <= j < i ==> r[j] == s[j]
    ensures forall j :: i <= j < |r| ==> r[j] == s[j + 1]
    ensures multiset(r) + multiset{s[i]} == multiset(s)
  {
    assert s == s[..i] + [s[i]] + s[i + 1..];
    s[..i] + s[i + 1..]
  }

  /** The cache without its first entry named `key`, the others in their
      order; the cache itself when no entry has that name. */
  function Without(cache: seq<Handler>, key: string): (r: seq<Handler>)
    ensures !HasKey(cache, key) ==> r == cache
    ensures HasKey(cache, key) ==>
              exists i :: && 0 <= i < |cache| && HandlerName(cache[i]) == key
                          && r == cache[..i] + cache[i + 1..]
    ensures HasKey(cache, key) ==> |r| == |cache| - 1
    ensures |r| <= |cache|
    ensures multiset(r) <= multiset(cache)
    ensures DistinctKeys(cache) ==> DistinctKeys(r) && !HasKey(r, key)
  {
    match IndexOfKey(cache, key, 0)
    case None => cache
    case Some(i) =>
      var r := RemoveAt(cache, i);
      assert DistinctKeys(cache) ==> !HasKey(r, key) by {
        if DistinctKeys(cache) {
          forall j | 0 <= j < |r|
            ensures HandlerName(r[j]) != key
          {
            if j < i {
              assert r[j] == cache[j];
            } else {
              assert r[j] == cache[j + 1];
            }
          }
        }
      }
      assert DistinctKeys(cache) ==> DistinctKeys(r) by {
        if DistinctKeys(cache) {
          forall a, b | 0 <= a < b < |r|
            ensures HandlerName(r[a]) != HandlerName(r[b])
          {
            var a' := if a < i then a else a + 1;
            var b' := if b < i then b else b + 1;
            assert r[a] == cache[a'] && r[b] == cache[b'];
          }
        }
      }
      r
  }

  /** The entry `Without` drops is the first one named `key`: every entry
      before it keeps its place, every one after it moves up by one. */
  lemma WithoutDropsFirst(cache: seq<Handler>, key: string) returns (i: nat)
    requires HasKey(cache, key)
    ensures i < |cache| && HandlerName(cache[i]) == key
    ensures forall j :: 0 <= j < i ==> HandlerName(cache[j]) != key
    ensures Without(cache, key) == cache[..i] + cache[i + 1..]
  {
    i := IndexOfKey(cache, key, 0).value;
    assert Without(cache, key) == RemoveAt(cache, i);
  }

  /** When `addToCache` can run: `cache[1:]` on an empty slice panics, which
      happens only when the bound is not positive and nothing else is cached. */
  predicate CanAdd(cache: seq<Handler>, m: Handler, bound: int) {
    bound >= 1 || |Without(cache, HandlerName(m))| > 0
  }

  /** The entries `addToCache` keeps of `w`: all of them, or all but the
      oldest when `w` is at the bound. */
  function Kept<T>(w: seq<T>, bound: int): (kept: seq<T>)
    requires bound >= 1 || |w| > 0
    ensures |kept| <= |w| <= |kept| + 1
    ensures kept == w[|w| - |kept|..]
    ensures |w| < bound ==> kept == w
  {
    if |w| >= bound then w[1..] else w
  }

  /** `addToCache`: drop the entry already named like `m`, evict the oldest
      entry if the cache is still at its bound, and put `m` last. */
  function AddToCache(cache: seq<Handler>, m: Handler, bound: int): (r: seq<Handler>)
    requires CanAdd(cache, m, bound)
    ensures |r| >= 1 && r[|r| - 1] == m
    // The survivors are the most recent entries of the cache with m's name
    // removed, in their old order; at most one (the oldest) is evicted, and
    // none while there is room, exactly one otherwise.
    ensures var w := Without(cache, HandlerName(m));
            && |r| - 1 <= |w| <= |r|
            && r[..|r| - 1] == w[|w| - (|r| - 1)..]
            && (|w| < bound ==> |r| - 1 == |w|)
            && (|w| >= bound ==> |r| == |w|)
    ensures bound >= 1 && |cache| <= bound ==> |r| <= bound
  {
    var kept := Kept(Without(cache, HandlerName(m)), bound);
    assert (kept + [m])[..|kept|] == kept;
    kept + [m]
  }

  /** Adding keeps one entry per name. */
  lemma AddKeepsDistinct(cache: seq<Handler>, m: Handler, bound: int)
    requires CanAdd(cache, m, bound)
    ensures DistinctKeys(cache) ==> DistinctKeys(AddToCache(cache, m, bound))
  {
    if DistinctKeys(cache) {
      var key := HandlerName(m);
      var w := Without(cache, key);
      var kept := Kept(w, bound);
      SuffixKeepsKeys(w, |w| - |kept|, key);
      AppendFresh(kept, m);
    }
  }

  /** The names of a one-entry cache. */
  lemma HasKeyOne(m: Handler, key: string)
    ensures HasKey([m], key) <==> HandlerName(m) == key
  {
    if HandlerName(m) == key {
      assert HandlerName([m][0]) == key;
    }
  }

  /** A lookup of the name the oldest entry goes by finds that entry. */
  lemma GetOldest(cache: seq<Handler>, key: string)
    requires |cache| >= 1 && HandlerName(cache[0]) == key
    ensures HasKey(cache, key) && GetFromCache(cache, key).found == Some(cache[0])
  {
    assert IndexOfKey(cache, key, 0) == Some(0);
  }

  /** With room in the cache and no entry of its name, the module is simply
      appended. */
  lemma AddWithRoom(cache: seq<Handler>, m: Handler, bound: int)
    requires !HasKey(cache, HandlerName(m)) && |cache| < bound
    ensures CanAdd(cache, m, bound) && AddToCache(cache, m, bound) == cache + [m]
  {
    assert Without(cache, HandlerName(m)) == cache;
  }

  /** A suffix of a cache keeps its distinct names and lacks any name the
      cache lacks. */
  lemma SuffixKeepsKeys(w: seq<Handler>, k: nat, key: string)
    requires k <= |w|
    ensures DistinctKeys(w) ==> DistinctKeys(w[k..])
    ensures !HasKey(w, key) ==> !HasKey(w[k..], key)
  {
    assert forall j :: 0 <= j < |w| - k ==> w[k..][j] == w[k + j];
  }

  /** Appending a handler whose name is not yet cached keeps names distinct. */
  lemma AppendFresh(kept: seq<Handler>, m: Handler)
    requires DistinctKeys(kept) && !HasKey(kept, HandlerName(m))
    ensures DistinctKeys(kept + [m])
  {
    var r := kept + [m];
    assert forall j :: 0 <= j < |kept| ==> r[j] == kept[j];
  }

  /** The result of `getFromCache`: the handler found, and the cache after. */
  datatype Lookup = Lookup(found: Option<Handler>, cache: seq<Handler>)

  /** `getFromCache`: on a hit, the first entry named `name` is returned and
      moved to the tail (it stays cached); on a miss nothing changes. */
  function GetFromCache(cache: seq<Handler>, name: string): (r: Lookup)
    ensures r.found.None? <==> !HasKey(cache, name)
    ensures r.found.None? ==> r.cache == cache
    ensures r.found.Some? ==>
              && HandlerName(r.found.value) == name
              && (exists i :: && 0 <= i < |cache| && cache[i] == r.found.value
                             && forall j :: 0 <= j < i ==> HandlerName(cache[j]) != name)
              && r.cache == Without(cache, name) + [r.found.value]
    ensures |r.cache| == |cache| && multiset(r.cache) == multiset(cache)
    ensures DistinctKeys(cache) ==> DistinctKeys(r.cache)
  {
    match IndexOfKey(cache, name, 0)
    case None => Lookup(None, cache)
    case Some(i) =>
      var h := cache[i];
      var rest := RemoveAt(cache, i);
      assert Without(cache, name) == rest;
      var r := rest + [h];
      assert DistinctKeys(cache) ==> DistinctKeys(r) by {
        if DistinctKeys(cache) {
          assert !HasKey(rest, name);
          forall a, b | 0 <= a < b < |r|
            ensures HandlerName(r[a]) != HandlerName(r[b])
          {
            if b < |r| - 1 {
              assert r[a] == rest[a] && r[b] == rest[b];
            } else {
              assert r[a] == rest[a];
            }
          }
        }
      }
      Lookup(Some(h), r)
  }

  /** A hit is the entry at the index the `range` scan stops at, and it is
      now the newest entry; the other entries keep their order. */
  lemma HitIsFirstOfName(cache: seq<Handler>, name: string)
    requires HasKey(cache, name)
    ensures IndexOfKey(cache, name, 0).Some?
    ensures var i := IndexOfKey(cache, name, 0).value;
            var l := GetFromCache(cache, name);
            && l.found == Some(cache[i])
            && |l.cache| == |cache| && l.cache[|cache| - 1] == cache[i]
            && l.cache[..|cache| - 1] == cache[..i] + cache[i + 1..]
  {
    var i := IndexOfKey(cache, name, 0).value;
    var l := GetFromCache(cache, name);
    assert Without(cache, name) == RemoveAt(cache, i);
    assert l.cache == RemoveAt(cache, i) + [cache[i]];
  }

  // ----------------------------------------------------------------- lemmas

  /** Removing `key` from a cache whose only entry of that name is the last
      one leaves exactly the entries before it. */
  lemma WithoutLast(w: seq<Handler>, v: Handler)
    requires !HasKey(w, HandlerName(v))
    ensures Without(w + [v], HandlerName(v)) == w
  {
    var c := w + [v];
    var key := HandlerName(v);
    assert HandlerName(c[|w|]) == key;
    assert forall j :: 0 <= j < |w| ==> c[j] == w[j];
    var i :| 0 <= i < |c| && HandlerName(c[i]) == key && Without(c, key) == c[..i] + c[i + 1..];
    assert i == |w|;
    assert c[..|w|] == w;
  }

  /** A handler whose name appears nowhere before it, placed last, is what a
      lookup of that name finds, and the lookup leaves the cache as it is. */
  lemma GetLast(kept: seq<Handler>, m: Handler)
    requires !HasKey(kept, HandlerName(m))
    ensures GetFromCache(kept + [m], HandlerName(m)) == Lookup(Some(m), kept + [m])
  {
    var r := kept + [m];
    var key := HandlerName(m);
    WithoutLast(kept, m);
    var l := GetFromCache(r, key);
    assert HandlerName(r[|kept|]) == key;
    var i :| 0 <= i < |r| && r[i] == l.found.value && forall j :: 0 <= j < i ==> HandlerName(r[j]) != key;
    assert forall j :: 0 <= j < |kept| ==> r[j] == kept[j];
    assert i == |r| - 1;
  }

  /** A handler just added is found at the tail, and finding it leaves the
      cache as the addition made it. */
  lemma AddThenGet(cache: seq<Handler>, m: Handler, bound: int)
    requires CanAdd(cache, m, bound) && DistinctKeys(cache)
    ensures GetFromCache(AddToCache(cache, m, bound), HandlerName(m))
            == Lookup(Some(m), AddToCache(cache, m, bound))
  {
    var r := AddToCache(cache, m, bound);
    var key := HandlerName(m);
    var w := Without(cache, key);
    var kept := r[..|r| - 1];
    assert r == kept + [m];
    SuffixKeepsKeys(w, |w| - |kept|, key);
    GetLast(kept, m);
  }

  /** A second lookup of the same name changes nothing more. */
  lemma GetTwiceIsGetOnce(cache: seq<Handler>, name: string)
    requires DistinctKeys(cache)
    ensures GetFromCache(GetFromCache(cache, name).cache, name) == GetFromCache(cache, name)
  {
    var l := GetFromCache(cache, name);
    if l.found.Some? {
      GetLast(Without(cache, name), l.found.value);
    }
  }

  /** A full cache that does not hold `m`'s name evicts exactly its oldest
      entry. */
  lemma EvictsOldest(cache: seq<Handler>, m: Handler, bound: int)
    requires bound >= 1 && |cache| == bound && !HasKey(cache, HandlerName(m))
    ensures AddToCache(cache, m, bound) == cache[1..] + [m]
  {
  }

  /** Re-adding a cached name moves it to the tail without growing the cache. */
  lemma ReAddKeepsSize(cache: seq<Handler>, m: Handler, bound: int)
    requires HasKey(cache, HandlerName(m)) && |cache| <= bound
    ensures CanAdd(cache, m, bound)
    ensures |AddToCache(cache, m, bound)| == |cache|
  {
  }

  /** Adding a sequence of handlers one after another. */
  function AddAll(cache: seq<Handler>, ms: seq<Handler>, bound: int): seq<Handler>
    requires bound >= 1
    decreases |ms|
  {
    if |ms| == 0 then cache else AddAll(AddToCache(cache, ms[0], bound), ms[1..], bound)
  }

  /** However many handlers are added, the cache never exceeds its bound and
      never holds two entries of one name. */
  lemma {:induction false} AddAllKeepsInvariant(cache: seq<Handler>, ms: seq<Handler>, bound: int)
    requires bound >= 1 && CacheInv(cache, bound)
    ensures CacheInv(AddAll(cache, ms, bound), bound)
    decreases |ms|
  {
    if |ms| > 0 {
      AddKeepsDistinct(cache, ms[0], bound);
      AddAllKeepsInvariant(AddToCache(cache, ms[0], bound), ms[1..], bound);
    }
  }
}
