/** The first-generation router of manager.go: a de-duplicating module
    registry, and a hook-less navigation state machine whose cache is bounded
    by the constant `maxCache`.  Its `findModule` is also the lookup the
    hooked router of manager_wasm.go uses. */
module Manager {
  import opened Common
  import opened Handlers
  import Cache

  /** `maxCache`. */
  const MaxCache: int := 3

  /** The router's state between events: the mounted module, if any, and
      the instance cache. */
  datatype NavState = NavState(active: Option<Handler>, cache: seq<Handler>)

  /** One transition: the state after it, the calls it made in order, and
      the `error` it returned. */
  datatype Step = Step(state: NavState, events: seq<Event>, status: Status)

  /** The state before any module is mounted. */
  const Idle: NavState := NavState(None, [])

  // --------------------------------------------------------------- registry

  /** Some entry is registered under `name`. */
  predicate NameRegistered(reg: seq<RegisteredModule>, name: string) {
    exists i :: 0 <= i < |reg| && reg[i].name == name
  }

  /** No two entries share a name. */
  predicate UniqueNames(reg: seq<RegisteredModule>) {
    forall i, j :: 0 <= i < j < |reg| ==> reg[i].name != reg[j].name
  }

  /** `registerModule`: a module is added under its `HandlerName()` unless
      that name is already taken; the first registration wins. */
  function RegisterModule(reg: seq<RegisteredModule>, m: Handler): (r: seq<RegisteredModule>)
    requires IsModule(m)
    ensures |reg| <= |r| <= |reg| + 1 && r[..|reg|] == reg
    ensures NameRegistered(r, HandlerName(m))
    ensures NameRegistered(reg, HandlerName(m)) ==> r == reg
    ensures |r| == |reg| + 1 ==> r[|reg|] == RegisteredModule(m, HandlerName(m))
    ensures UniqueNames(reg) ==> UniqueNames(r)
  {
    var name := HandlerName(m);
    if NameRegistered(reg, name) then reg
    else
      var r := reg + [RegisteredModule(m, name)];
      assert r[|reg|].name == name;
      assert r[..|reg|] == reg;
      r
  }

  /** Entry `e` is what `findModule(name)` accepts: the name matches and the
      handler satisfies the `Module` interface. */
  predicate Finds(e: RegisteredModule, name: string) {
    e.name == name && IsModule(e.handler)
  }

  /** The index of the first accepted entry at or after `from`. */
  function FirstFound(reg: seq<RegisteredModule>, name: string, from: nat): (r: Option<nat>)
    requires from <= |reg|
    ensures r.None? <==> forall i :: from <= i < |reg| ==> !Finds(reg[i], name)
    ensures r.Some? ==> && from <= r.value < |reg| && Finds(reg[r.value], name)
                        && forall i :: from <= i < r.value ==> !Finds(reg[i], name)
    decreases |reg| - from
  {
    if from == |reg| then None
    else if Finds(reg[from], name) then Some(from)
    else FirstFound(reg, name, from + 1)
  }

  /** `findModule`: the handler of the first entry named `name` that is a
      `Module`; entries of that name that are not modules are skipped. */
  function FindModule(reg: seq<RegisteredModule>, name: string): (r: Option<Handler>)
    ensures r.None? <==> forall i :: 0 <= i < |reg| ==> !Finds(reg[i], name)
    ensures r.Some? ==> && IsModule(r.value)
                        && exists i :: && 0 <= i < |reg| && Finds(reg[i], name)
                                       && r.value == reg[i].handler
                                       && forall j :: 0 <= j < i ==> !Finds(reg[j], name)
  {
    match FirstFound(reg, name, 0)
    case None => None
    case Some(i) => Some(reg[i].handler)
  }

  /** Registering a module under a fresh name makes it the module found by
      that name; registering a second module under a taken name changes
      nothing, so the first stays the one found. */
  lemma RegisterThenFind(reg: seq<RegisteredModule>, m: Handler, m2: Handler)
    requires IsModule(m) && IsModule(m2) && HandlerName(m2) == HandlerName(m)
    requires !NameRegistered(reg, HandlerName(m))
    ensures FindModule(RegisterModule(reg, m), HandlerName(m)) == Some(m)
    ensures RegisterModule(RegisterModule(reg, m), m2) == RegisterModule(reg, m)
  {
    var r := RegisterModule(reg, m);
    var name := HandlerName(m);
    assert Finds(r[|reg|], name);
    assert forall j :: 0 <= j < |reg| ==> r[j] == reg[j] && !Finds(r[j], name);
  }

  // ------------------------------------------------------------------ cache

  /** manager.go's `addToCache`, bounded by `maxCache`. */
  function AddToCache(cache: seq<Handler>, m: Handler): (r: seq<Handler>)
    ensures |r| >= 1 && r[|r| - 1] == m
    ensures Cache.CacheInv(cache, MaxCache) ==> Cache.CacheInv(r, MaxCache)
    ensures Cache.HasKey(cache, HandlerName(m)) && |cache| <= MaxCache ==> |r| == |cache|
  {
    Cache.AddKeepsDistinct(cache, m, MaxCache);
    Cache.AddToCache(cache, m, MaxCache)
  }

  /** manager.go's `getFromCache`: same as manager_wasm.go's. */
  function GetFromCache(cache: seq<Handler>, name: string): (r: Cache.Lookup)
    ensures r.found.None? <==> !Cache.HasKey(cache, name)
    ensures r.found.None? ==> r.cache == cache
    ensures r.found.Some? ==> HandlerName(r.found.value) == name && |r.cache| >= 1 && r.cache[|r.cache| - 1] == r.found.value
    ensures multiset(r.cache) == multiset(cache)
    ensures Cache.CacheInv(cache, MaxCache) ==> Cache.CacheInv(r.cache, MaxCache)
  {
    Cache.GetFromCache(cache, name)
  }

  // ------------------------------------------------------------- navigation

  /** The module name `Start` looks up: `hash[1:]` of the location hash, with
      an empty hash read as `#home`; no parameters are split off. */
  function StartName(hash: string): (name: string)
    ensures hash == "" ==> name == "home"
    ensures hash != "" ==> hash == [hash[0]] + name
  {
    var h := if hash == "" then "#home" else hash;
    h[1..]
  }

  /** manager.go's `Start`: an unknown name mounts nothing and returns what
      `Mount` returns; a known one becomes active and is hydrated.  The
      cache is not touched. */
  function Start(state: NavState, reg: seq<RegisteredModule>, parentID: string, hash: string,
                 domErr: Option<string>): (r: Step)
    ensures r.state.cache == state.cache
    ensures r.status == StatusOf(domErr)
    ensures FindModule(reg, StartName(hash)).None? ==>
              r.state == state && r.events == [Mount(parentID, None)]
    ensures FindModule(reg, StartName(hash)).Some? ==>
              var m := FindModule(reg, StartName(hash)).value;
              r.state.active == Some(m) && r.events == [Hydrate(parentID, m)]
  {
    match FindModule(reg, StartName(hash))
    case None => Step(state, [Mount(parentID, None)], StatusOf(domErr))
    case Some(m) => Step(state.(active := Some(m)), [Hydrate(parentID, m)], StatusOf(domErr))
  }

  /** The active module goes by `name`. */
  predicate IsActive(state: NavState, name: string) {
    state.active.Some? && HandlerName(state.active.value) == name
  }

  /** Every entry's name is its handler's `HandlerName()`, as
      `registerModule` builds them. */
  predicate NamesMatch(reg: seq<RegisteredModule>) {
    forall i :: 0 <= i < |reg| ==> reg[i].name == HandlerName(reg[i].handler)
  }

  /** manager.go's `Navigate`: the name is taken as given.  Re-navigating to
      the active module and navigating to an unknown one are no-ops; a switch
      unmounts and caches the old module, prefers a cached instance of the
      target, makes it active, sets the hash and mounts it. */
  function Navigate(state: NavState, reg: seq<RegisteredModule>, parentID: string, name: string,
                    mountErr: Option<string>): (r: Step)
    ensures IsActive(state, name) ==> r == Step(state, [], Ok)
    ensures FindModule(reg, name).None? ==> r == Step(state, [], Ok)
    ensures !IsActive(state, name) && FindModule(reg, name).Some? ==>
              && r.state.active.Some?
              && (NamesMatch(reg) ==> HandlerName(r.state.active.value) == name)
              && r.status == StatusOf(mountErr)
              && r.events == (if state.active.Some? then [Unmount(state.active.value)] else [])
                             + [SetHash("#" + name), Mount(parentID, r.state.active)]
              && (state.active.Some? ==> state.active.value in r.state.cache)
    ensures Cache.CacheInv(state.cache, MaxCache) ==> Cache.CacheInv(r.state.cache, MaxCache)
  {
    if IsActive(state, name) then Step(state, [], Ok)
    else
      match FindModule(reg, name)
      case None => Step(state, [], Ok)
      case Some(t) =>
        var leave := if state.active.Some? then [Unmount(state.active.value)] else [];
        var cache1 := if state.active.Some? then AddToCache(state.cache, state.active.value) else state.cache;
        var l := GetFromCache(cache1, name);
        var target := l.found.GetOr(t);
        assert state.active.Some? ==> state.active.value in l.cache by {
          if state.active.Some? {
            assert cache1[|cache1| - 1] in multiset(cache1);
          }
        }
        assert NamesMatch(reg) ==> HandlerName(target) == name by {
          if NamesMatch(reg) && l.found.None? {
            var i :| 0 <= i < |reg| && Finds(reg[i], name) && t == reg[i].handler;
          }
        }
        Step(NavState(Some(target), l.cache),
             leave + [SetHash("#" + name), Mount(parentID, Some(target))],
             StatusOf(mountErr))
  }

  /** A switch takes the target from the cache when the cache, with the
      module being left retired into it, holds its name: the oldest entry of
      that name, which becomes the newest.  Otherwise the target is the
      registry's handler and the cache stays as retiring left it.  Either way
      the cache keeps its entries. */
  lemma NavigatePrefersCached(state: NavState, reg: seq<RegisteredModule>, parentID: string, name: string,
                              mountErr: Option<string>)
    requires !IsActive(state, name) && FindModule(reg, name).Some?
    ensures var retired := if state.active.Some? then AddToCache(state.cache, state.active.value) else state.cache;
            var r := Navigate(state, reg, parentID, name, mountErr);
            && (Cache.HasKey(retired, name) ==>
                  && Cache.IndexOfKey(retired, name, 0).Some?
                  && r.state.active == Some(retired[Cache.IndexOfKey(retired, name, 0).value])
                  && |r.state.cache| == |retired|
                  && r.state.cache[|retired| - 1] == r.state.active.value)
            && (!Cache.HasKey(retired, name) ==> r.state == NavState(FindModule(reg, name), retired))
            && multiset(r.state.cache) == multiset(retired)
  {
    var retired := if state.active.Some? then AddToCache(state.cache, state.active.value) else state.cache;
    if Cache.HasKey(retired, name) {
      Cache.HitIsFirstOfName(retired, name);
    }
  }

  /** A module registered under a fresh name is the one `Start` hydrates
      when the page loads at `#` followed by that name. */
  lemma StartAfterRegister(state: NavState, reg: seq<RegisteredModule>, m: Handler, parentID: string,
                           domErr: Option<string>)
    requires IsModule(m) && !NameRegistered(reg, HandlerName(m))
    ensures Start(state, RegisterModule(reg, m), parentID, "#" + HandlerName(m), domErr)
            == Step(state.(active := Some(m)), [Hydrate(parentID, m)], StatusOf(domErr))
  {
    var m2 := m;
    RegisterThenFind(reg, m, m2);
    assert StartName("#" + HandlerName(m)) == HandlerName(m);
  }

  /** `Start` reads an empty hash as the home module and keeps any `/` in
      the name. */
  lemma StartNameVectors()
    ensures StartName("") == "home"
    ensures StartName("#users") == "users"
    ensures StartName("#users/1") == "users/1"
  {
    assert "#home"[1..] == "home";
    assert "#users"[1..] == "users";
    assert "#users/1"[1..] == "users/1";
  }
}
