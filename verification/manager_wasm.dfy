/** The hooked navigation state machine of manager_wasm.go, the router the
    browser build runs.  Routes are parsed into a module name and parameters,
    parameters are delivered before rendering, the module being left may veto
    the navigation, and the cache bound is the configured `CacheSize`.  Module
    lookup is manager.go's `findModule`. */
module ManagerWasm {
  import opened Common
  import opened Handlers
  import opened Route
  import SiteConfig
  import Cache
  import opened Manager

  /** The module being left vetoes the navigation: its `BeforeNavigateAway`
      answers false. */
  predicate Vetoes(state: NavState) {
    state.active.Some? && state.active.value.beforeLeave == Some(false)
  }

  /** `BeforeNavigateAway()` on the module being left, when it has hooks. */
  function LeaveEvents(state: NavState): (evs: seq<Event>)
    ensures |evs| == 1 <==> state.active.Some? && HasLifecycle(state.active.value)
    ensures state.active.Some? ==> forall e :: e in evs ==> e == BeforeNavigateAway(state.active.value)
    ensures state.active.None? ==> evs == []
  {
    if state.active.Some? && HasLifecycle(state.active.value) then [BeforeNavigateAway(state.active.value)]
    else []
  }

  /** The cache once the module being left is retired into it. */
  function Retired(state: NavState, bound: int): seq<Handler>
    requires state.active.Some? ==> Cache.CanAdd(state.cache, state.active.value, bound)
  {
    if state.active.Some? then Cache.AddToCache(state.cache, state.active.value, bound) else state.cache
  }

  /** Retiring the module being left cannot run into `cache[1:]` on an empty
      slice. */
  predicate CanRetire(state: NavState, bound: int) {
    state.active.Some? ==> Cache.CanAdd(state.cache, state.active.value, bound)
  }

  /** The message of Go's runtime panic for `cache[1:]` on an empty slice. */
  const SlicePanic: string := "slice bounds out of range [1:0]"

  /** manager_wasm.go's `Start`: the module named by the current hash (or
      the configured default) gets its parameters, becomes active, is
      rendered, and, if rendering succeeded, hears `AfterNavigateTo`.  An
      unregistered name is an error that leaves the state alone.  The cache
      is never touched, and the previously active module is not retired. */
  function Start(state: NavState, reg: seq<RegisteredModule>, cfg: SiteConfig.Config,
                 parentID: string, hash: string, renderErr: Option<string>): (r: Step)
    ensures r.state.cache == state.cache
    ensures var rt := ParseRoute(hash, cfg.defaultRoute);
            FindModule(reg, rt.moduleName).None? ==>
              r == Step(state, [], Error("module not found: " + rt.moduleName))
    ensures var rt := ParseRoute(hash, cfg.defaultRoute);
            FindModule(reg, rt.moduleName).Some? ==>
              var m := FindModule(reg, rt.moduleName).value;
              && r.state.active == Some(m)
              && r.status == StatusOf(renderErr)
              && r.events == ParamsEvent(m, rt.params) + [Render(parentID, m)]
                             + (if renderErr.None? then AfterEvent(m) else [])
  {
    var rt := ParseRoute(hash, cfg.defaultRoute);
    match FindModule(reg, rt.moduleName)
    case None => Step(state, [], Error("module not found: " + rt.moduleName))
    case Some(m) =>
      var evs := ParamsEvent(m, rt.params) + [Render(parentID, m)];
      var active := state.(active := Some(m));
      if renderErr.Some? then Step(active, evs, Error(renderErr.value))
      else Step(active, evs + AfterEvent(m), Ok)
  }

  /** Loading the page at the hash the router writes for a module and its
      parameters starts that module with those parameters, delivered before
      it renders; an unregistered module is reported by name. */
  lemma StartOnRouteHash(state: NavState, reg: seq<RegisteredModule>, cfg: SiteConfig.Config, parentID: string,
                         m: string, params: seq<string>, renderErr: Option<string>)
    requires m != "" && '/' !in m && forall i :: 0 <= i < |params| ==> '/' !in params[i]
    ensures ParseRoute(RouteHash(m, params), cfg.defaultRoute) == Route(m, params)
    ensures var r := Start(state, reg, cfg, parentID, RouteHash(m, params), renderErr);
            FindModule(reg, m).None? ==> r == Step(state, [], Error("module not found: " + m))
    ensures var r := Start(state, reg, cfg, parentID, RouteHash(m, params), renderErr);
            FindModule(reg, m).Some? ==>
              var h := FindModule(reg, m).value;
              && r.state == state.(active := Some(h))
              && r.events[..|ParamsEvent(h, params)|] == ParamsEvent(h, params)
              && r.events[|ParamsEvent(h, params)|] == Render(parentID, h)
  {
    ParseRouteInvertsRouteHash(m, params, cfg.defaultRoute);
    if FindModule(reg, m).Some? {
      var h := FindModule(reg, m).value;
      var rest := if renderErr.None? then AfterEvent(h) else [];
      assert (ParamsEvent(h, params) + [Render(parentID, h)] + rest)[..|ParamsEvent(h, params)|] == ParamsEvent(h, params);
    }
  }

  /** The part of `Navigate` after the veto check: retire the old module,
      prefer a cached target, deliver parameters, activate, set the hash,
      render, and announce the arrival if rendering succeeded.  A target
      the retired cache lacks is the registry's handler, and a failed render
      leaves the target active anyway. */
  function Switch(state: NavState, t: Handler, name: string, params: seq<string>, cfg: SiteConfig.Config,
                  parentID: string, hash: string, renderErr: Option<string>): (r: Step)
    requires CanRetire(state, cfg.cacheSize)
    ensures r.state.active.Some?
    ensures !Cache.HasKey(Retired(state, cfg.cacheSize), name) ==> r.state == NavState(Some(t), Retired(state, cfg.cacheSize))
    ensures r.status == StatusOf(renderErr)
  {
    var l := Cache.GetFromCache(Retired(state, cfg.cacheSize), name);
    var target := l.found.GetOr(t);
    var next := NavState(Some(target), l.cache);
    var evs := LeaveEvents(state) + ParamsEvent(target, params) + [SetHash(hash), Render(parentID, target)];
    if renderErr.Some? then Step(next, evs, Error(renderErr.value))
    else Step(next, evs + AfterEvent(target), Ok)
  }

  /** A cached target is the oldest retired entry going by its name, now the
      newest; the cache keeps its entries, among them the module left
      behind. */
  lemma SwitchTarget(state: NavState, t: Handler, name: string, params: seq<string>, cfg: SiteConfig.Config,
                     parentID: string, hash: string, renderErr: Option<string>)
    requires CanRetire(state, cfg.cacheSize)
    ensures var retired := Retired(state, cfg.cacheSize);
            var r := Switch(state, t, name, params, cfg, parentID, hash, renderErr);
            && (Cache.HasKey(retired, name) ==>
                  && Cache.IndexOfKey(retired, name, 0).Some?
                  && r.state.active == Some(retired[Cache.IndexOfKey(retired, name, 0).value])
                  && |r.state.cache| == |retired|
                  && r.state.cache[|retired| - 1] == r.state.active.value)
            && multiset(r.state.cache) == multiset(retired)
            && (state.active.Some? ==> state.active.value in r.state.cache)
  {
    var retired := Retired(state, cfg.cacheSize);
    var l := Cache.GetFromCache(retired, name);
    if Cache.HasKey(retired, name) {
      Cache.HitIsFirstOfName(retired, name);
    }
    if state.active.Some? {
      assert retired[|retired| - 1] in multiset(retired);
      assert state.active.value in multiset(l.cache);
    }
  }

  /** The events of a switch, in order: the leave hook of the module being
      left, the parameters of the module now active, the hash, its render,
      and its arrival hook exactly when rendering succeeded. */
  lemma SwitchEvents(state: NavState, t: Handler, name: string, params: seq<string>, cfg: SiteConfig.Config,
                     parentID: string, hash: string, renderErr: Option<string>)
    requires CanRetire(state, cfg.cacheSize)
    ensures var r := Switch(state, t, name, params, cfg, parentID, hash, renderErr);
            var target := r.state.active.value;
            r.events == LeaveEvents(state) + ParamsEvent(target, params) + [SetHash(hash), Render(parentID, target)]
                        + (if renderErr.None? then AfterEvent(target) else [])
  {
    var evs := Switch(state, t, name, params, cfg, parentID, hash, renderErr).events;
    assert renderErr.Some? ==> evs + [] == evs;
  }

  /** manager_wasm.go's `Navigate`. */
  function Navigate(state: NavState, reg: seq<RegisteredModule>, cfg: SiteConfig.Config,
                    parentID: string, hash: string, renderErr: Option<string>): Step
  {
    var rt := ParseRoute(hash, cfg.defaultRoute);
    var name := rt.moduleName;
    if IsActive(state, name) then
      var a := state.active.value;
      Step(state, ParamsEvent(a, rt.params) + AfterEvent(a), Ok)
    else
      match FindModule(reg, name)
      case None => Step(state, [], Ok)
      case Some(t) =>
        if Vetoes(state) then Step(state, [BeforeNavigateAway(state.active.value)], Ok)
        else if !CanRetire(state, cfg.cacheSize) then
          // `addToCache` has already dropped the entry named like the module
          // being left when `cache[1:]` panics.
          var dropped := Cache.Without(state.cache, HandlerName(state.active.value));
          Step(state.(cache := dropped), LeaveEvents(state), Panic(SlicePanic))
        else Switch(state, t, name, rt.params, cfg, parentID, hash, renderErr)
  }

  /** Navigating to the active module only delivers the parameters and
      `AfterNavigateTo`: no veto, no cache change, no hash, no render. */
  lemma NavigateSameModule(state: NavState, reg: seq<RegisteredModule>, cfg: SiteConfig.Config,
                           parentID: string, hash: string, renderErr: Option<string>)
    requires IsActive(state, ParseRoute(hash, cfg.defaultRoute).moduleName)
    ensures var a := state.active.value;
            Navigate(state, reg, cfg, parentID, hash, renderErr)
            == Step(state, ParamsEvent(a, ParseRoute(hash, cfg.defaultRoute).params) + AfterEvent(a), Ok)
  {
  }

  /** An unregistered target is ignored without error. */
  lemma NavigateUnregistered(state: NavState, reg: seq<RegisteredModule>, cfg: SiteConfig.Config,
                             parentID: string, hash: string, renderErr: Option<string>)
    requires var name := ParseRoute(hash, cfg.defaultRoute).moduleName;
             !IsActive(state, name) && FindModule(reg, name).None?
    ensures Navigate(state, reg, cfg, parentID, hash, renderErr) == Step(state, [], Ok)
  {
  }

  /** A veto stops the navigation after asking the module being left: the
      state is unchanged and the target is not touched. */
  lemma NavigateVetoed(state: NavState, reg: seq<RegisteredModule>, cfg: SiteConfig.Config,
                       parentID: string, hash: string, renderErr: Option<string>)
    requires var name := ParseRoute(hash, cfg.defaultRoute).moduleName;
             !IsActive(state, name) && FindModule(reg, name).Some? && Vetoes(state)
    ensures Navigate(state, reg, cfg, parentID, hash, renderErr) == Step(state, [BeforeNavigateAway(state.active.value)], Ok)
  {
  }

  /** The only panic is retiring into a cache with a non-positive bound,
      after the module being left was asked; by then the cache has lost its
      one entry of that module's name and is empty, and the module being
      left is still the active one. */
  lemma NavigatePanicsOnlyOnBadBound(state: NavState, reg: seq<RegisteredModule>, cfg: SiteConfig.Config,
                                     parentID: string, hash: string, renderErr: Option<string>)
    ensures var r := Navigate(state, reg, cfg, parentID, hash, renderErr);
            r.status.Panic? ==> && cfg.cacheSize < 1 && state.active.Some?
                                && r.state == NavState(state.active, []) && r.events == LeaveEvents(state)
  {
    var rt := ParseRoute(hash, cfg.defaultRoute);
    if !IsActive(state, rt.moduleName) && FindModule(reg, rt.moduleName).Some? && !Vetoes(state)
       && !CanRetire(state, cfg.cacheSize)
    {
      assert |Cache.Without(state.cache, HandlerName(state.active.value))| == 0;
    }
  }

  /** Every transition keeps a positive bound and one entry per name. */
  lemma NavigateKeepsCacheInv(state: NavState, reg: seq<RegisteredModule>, cfg: SiteConfig.Config,
                              parentID: string, hash: string, renderErr: Option<string>)
    requires cfg.cacheSize >= 1 && Cache.CacheInv(state.cache, cfg.cacheSize)
    ensures Cache.CacheInv(Navigate(state, reg, cfg, parentID, hash, renderErr).state.cache, cfg.cacheSize)
  {
    var rt := ParseRoute(hash, cfg.defaultRoute);
    if !IsActive(state, rt.moduleName) && FindModule(reg, rt.moduleName).Some? && !Vetoes(state) {
      var t := FindModule(reg, rt.moduleName).value;
      var retired := Retired(state, cfg.cacheSize);
      if state.active.Some? {
        Cache.AddKeepsDistinct(state.cache, state.active.value, cfg.cacheSize);
      }
      assert Cache.CacheInv(retired, cfg.cacheSize);
      var l := Cache.GetFromCache(retired, rt.moduleName);
      assert Cache.CacheInv(l.cache, cfg.cacheSize);
      assert Navigate(state, reg, cfg, parentID, hash, renderErr).state.cache == l.cache;
    }
  }

  /** A registered, inactive target that no veto stops, with the module
      being left retirable, is reached through `Switch`. */
  lemma NavigateSwitches(state: NavState, reg: seq<RegisteredModule>, t: Handler, cfg: SiteConfig.Config,
                         parentID: string, hash: string, renderErr: Option<string>)
    requires var rt := ParseRoute(hash, cfg.defaultRoute);
             !IsActive(state, rt.moduleName) && FindModule(reg, rt.moduleName) == Some(t) && !Vetoes(state)
    requires CanRetire(state, cfg.cacheSize)
    ensures var rt := ParseRoute(hash, cfg.defaultRoute);
            Navigate(state, reg, cfg, parentID, hash, renderErr)
            == Switch(state, t, rt.moduleName, rt.params, cfg, parentID, hash, renderErr)
  {
  }

  /** The module left behind by a switch stays retrievable: it is in the new
      cache. */
  lemma SwitchRetiresOldModule(state: NavState, reg: seq<RegisteredModule>, cfg: SiteConfig.Config,
                               parentID: string, hash: string, renderErr: Option<string>)
    requires var rt := ParseRoute(hash, cfg.defaultRoute);
             !IsActive(state, rt.moduleName) && FindModule(reg, rt.moduleName).Some? && !Vetoes(state)
    requires CanRetire(state, cfg.cacheSize) && state.active.Some?
    ensures state.active.value in Navigate(state, reg, cfg, parentID, hash, renderErr).state.cache
  {
    var c := Retired(state, cfg.cacheSize);
    var l := Cache.GetFromCache(c, ParseRoute(hash, cfg.defaultRoute).moduleName);
    assert c[|c| - 1] in multiset(c);
    assert state.active.value in multiset(l.cache);
  }

  // ------------------------------------------------------------- scenarios

  /** A module like the lifecycle test's `TestModule`: registered under
      `name`, with parameters and lifecycle hooks, never vetoing. */
  predicate LifecycleModule(h: Handler, name: string) {
    IsModule(h) && HandlerName(h) == name && h.parameterized && h.beforeLeave == Some(true)
  }

  /** The lifecycle test's module type. */
  function TestModule(name: string): (h: Handler)
    ensures LifecycleModule(h, name)
  {
    Bare("*site_test.TestModule").(name := Some(name), moduleTitle := Some("Test"), component := true,
                                    html := Some(""), css := Some(""), parameterized := true,
                                    beforeLeave := Some(true))
  }

  /** The lifecycle test's registry: m1, then m2. */
  function TestRegistry(m1: Handler, m2: Handler): seq<RegisteredModule> {
    [RegisteredModule(m1, "m1"), RegisteredModule(m2, "m2")]
  }

  lemma FindsTestModules(m1: Handler, m2: Handler)
    requires LifecycleModule(m1, "m1") && LifecycleModule(m2, "m2")
    ensures FindModule(TestRegistry(m1, m2), "m1") == Some(m1)
    ensures FindModule(TestRegistry(m1, m2), "m2") == Some(m2)
  {
    var reg := TestRegistry(m1, m2);
    assert Finds(reg[0], "m1");
    assert Finds(reg[1], "m2") && !Finds(reg[0], "m2");
  }

  /** The three hashes the lifecycle test navigates to. */
  lemma TestRoutes()
    ensures ParseRoute("#m1", "home") == Route("m1", [])
    ensures ParseRoute("#m2", "home") == Route("m2", [])
    ensures ParseRoute("#m2/123", "home") == Route("m2", ["123"])
  {
    ModuleHash("m1", "#m1", "home");
    ModuleHash("m2", "#m2", "home");
    ParamHash("m2", "123", "#m2/123", "home");
  }

  /** The lifecycle test: navigating to m1 from nothing announces m1's
      arrival. */
  lemma LifecycleFirstNavigation(m1: Handler, m2: Handler)
    requires LifecycleModule(m1, "m1") && LifecycleModule(m2, "m2")
    ensures var r := Navigate(Idle, TestRegistry(m1, m2), SiteConfig.Defaults, "app", "#m1", None);
            && r.status == Ok
            && r.state == NavState(Some(m1), [])
            && r.events == [SetParams(m1, []), SetHash("#m1"), Render("app", m1), AfterNavigateTo(m1)]
  {
    var e1, e2, e3, e4 := SetParams(m1, []), SetHash("#m1"), Render("app", m1), AfterNavigateTo(m1);
    assert [] + [e1] + [e2, e3] + [e4] == [e1, e2, e3, e4];
    FindsTestModules(m1, m2);
    TestRoutes();
    assert Cache.GetFromCache([], "m1") == Cache.Lookup(None, []);
    SwitchToUncached(Idle, TestRegistry(m1, m2), SiteConfig.Defaults, "app", "#m1", "m1", [], m1, []);
  }

  /** Then to m2: m1 is asked to leave and retired; m2 arrives. */
  lemma LifecycleSecondNavigation(m1: Handler, m2: Handler)
    requires LifecycleModule(m1, "m1") && LifecycleModule(m2, "m2")
    ensures var r := Navigate(NavState(Some(m1), []), TestRegistry(m1, m2), SiteConfig.Defaults, "app", "#m2", None);
            && r.status == Ok
            && r.state == NavState(Some(m2), [m1])
            && r.events == [BeforeNavigateAway(m1), SetParams(m2, []), SetHash("#m2"), Render("app", m2),
                            AfterNavigateTo(m2)]
  {
    var e0, e1 := BeforeNavigateAway(m1), SetParams(m2, []);
    var e2, e3, e4 := SetHash("#m2"), Render("app", m2), AfterNavigateTo(m2);
    assert [e0] + [e1] + [e2, e3] + [e4] == [e0, e1, e2, e3, e4];
    FindsTestModules(m1, m2);
    TestRoutes();
    var s := NavState(Some(m1), []);
    assert !IsActive(s, "m2") && !Vetoes(s);
    LeaveLifecycle(m1, []);
    Cache.AddWithRoom([], m1, 3);
    Cache.HasKeyOne(m1, "m2");
    assert Retired(s, 3) == [m1];
    assert Cache.GetFromCache([m1], "m2") == Cache.Lookup(None, [m1]);
    var cfg := SiteConfig.Defaults;
    assert cfg.cacheSize == 3 && cfg.defaultRoute == "home";
    assert ParseRoute("#m2", cfg.defaultRoute) == Route("m2", []);
    assert CanRetire(s, cfg.cacheSize);
    assert Cache.GetFromCache(Retired(s, cfg.cacheSize), "m2") == Cache.Lookup(None, [m1]);
    SwitchToUncached(s, TestRegistry(m1, m2), cfg, "app", "#m2", "m2", [], m2, [m1]);
  }

  /** Leaving a module with hooks asks it first. */
  lemma LeaveLifecycle(a: Handler, cache: seq<Handler>)
    requires HasLifecycle(a)
    ensures LeaveEvents(NavState(Some(a), cache)) == [BeforeNavigateAway(a)]
  {
  }

  /** A switch to a module that is not cached, with a successful render. */
  lemma SwitchToUncached(state: NavState, reg: seq<RegisteredModule>, cfg: SiteConfig.Config, parentID: string,
                         hash: string, name: string, params: seq<string>, t: Handler, cache: seq<Handler>)
    requires ParseRoute(hash, cfg.defaultRoute) == Route(name, params)
    requires !IsActive(state, name) && FindModule(reg, name) == Some(t) && !Vetoes(state)
    requires CanRetire(state, cfg.cacheSize)
    requires Cache.GetFromCache(Retired(state, cfg.cacheSize), name) == Cache.Lookup(None, cache)
    ensures Navigate(state, reg, cfg, parentID, hash, None)
            == Step(NavState(Some(t), cache),
                    LeaveEvents(state) + ParamsEvent(t, params) + [SetHash(hash), Render(parentID, t)] + AfterEvent(t), Ok)
  {
    NavigateSwitches(state, reg, t, cfg, parentID, hash, None);
    SwitchEvents(state, t, name, params, cfg, parentID, hash, None);
  }

  /** Then to m2 with a parameter: m2 gets `["123"]` in place. */
  lemma LifecycleParamNavigation(m1: Handler, m2: Handler)
    requires LifecycleModule(m1, "m1") && LifecycleModule(m2, "m2")
    ensures var r := Navigate(NavState(Some(m2), [m1]), TestRegistry(m1, m2), SiteConfig.Defaults, "app", "#m2/123", None);
            && r.status == Ok
            && r.state == NavState(Some(m2), [m1])
            && r.events == [SetParams(m2, ["123"]), AfterNavigateTo(m2)]
  {
    TestRoutes();
    var s := NavState(Some(m2), [m1]);
    assert IsActive(s, "m2");
    NavigateSameModule(s, TestRegistry(m1, m2), SiteConfig.Defaults, "app", "#m2/123", None);
    var r := Navigate(s, TestRegistry(m1, m2), SiteConfig.Defaults, "app", "#m2/123", None);
    assert r.events == [SetParams(m2, ["123"])] + [AfterNavigateTo(m2)];
  }

  /** Navigating to a registered, inactive module that the retired cache
      already holds activates the cached instance (the oldest of that name),
      and that instance stays in the cache: the active module can be
      cached. */
  lemma NavigateToCached(state: NavState, reg: seq<RegisteredModule>, cfg: SiteConfig.Config,
                         parentID: string, hash: string, renderErr: Option<string>)
    requires var rt := ParseRoute(hash, cfg.defaultRoute);
             !IsActive(state, rt.moduleName) && FindModule(reg, rt.moduleName).Some? && !Vetoes(state)
    requires CanRetire(state, cfg.cacheSize)
    requires Cache.HasKey(Retired(state, cfg.cacheSize), ParseRoute(hash, cfg.defaultRoute).moduleName)
    ensures var l := Cache.GetFromCache(Retired(state, cfg.cacheSize), ParseRoute(hash, cfg.defaultRoute).moduleName);
            var r := Navigate(state, reg, cfg, parentID, hash, renderErr);
            && l.found.Some?
            && r.state.active == l.found
            && l.found.value in r.state.cache
  {
    var rt := ParseRoute(hash, cfg.defaultRoute);
    var l := Cache.GetFromCache(Retired(state, cfg.cacheSize), rt.moduleName);
    NavigateSwitches(state, reg, FindModule(reg, rt.moduleName).value, cfg, parentID, hash, renderErr);
    var r := Navigate(state, reg, cfg, parentID, hash, renderErr);
    assert r.state == NavState(l.found, l.cache);
    assert l.cache[|l.cache| - 1] == l.found.value;
  }

  /** From m2 back to m1, which is cached: the cached m1 becomes active and
      remains cached. */
  lemma ActiveModuleCanStayCached(m1: Handler, m2: Handler)
    requires LifecycleModule(m1, "m1") && LifecycleModule(m2, "m2")
    ensures var r := Navigate(NavState(Some(m2), [m1]), TestRegistry(m1, m2), SiteConfig.Defaults, "app", "#m1", None);
            && r.state.active == Some(m1)
            && m1 in r.state.cache
  {
    FindsTestModules(m1, m2);
    TestRoutes();
    var s := NavState(Some(m2), [m1]);
    var cfg := SiteConfig.Defaults;
    assert cfg.cacheSize == 3 && cfg.defaultRoute == "home";
    assert ParseRoute("#m1", cfg.defaultRoute).moduleName == "m1";
    assert !IsActive(s, "m1") && !Vetoes(s);
    Cache.HasKeyOne(m1, "m2");
    Cache.AddWithRoom([m1], m2, 3);
    var c := Retired(s, cfg.cacheSize);
    assert c == [m1] + [m2];
    Cache.GetOldest(c, HandlerName(m1));
    NavigateToCached(s, TestRegistry(m1, m2), cfg, "app", "#m1", None);
  }

  /** With `SetCacheSize(0)` the first switch away from a module panics. */
  lemma ZeroCacheSizePanics(m1: Handler, m2: Handler)
    requires LifecycleModule(m1, "m1") && LifecycleModule(m2, "m2")
    ensures Navigate(NavState(Some(m1), []), TestRegistry(m1, m2), SiteConfig.SetCacheSize(SiteConfig.Defaults, 0),
                     "app", "#m2", None).status.Panic?
  {
    FindsTestModules(m1, m2);
    TestRoutes();
    var cfg := SiteConfig.SetCacheSize(SiteConfig.Defaults, 0);
    assert cfg.defaultRoute == "home" && cfg.cacheSize == 0;
    var s := NavState(Some(m1), []);
    assert !IsActive(s, "m2") && !Vetoes(s);
    assert Cache.Without([], "m1") == [];
    assert !CanRetire(s, 0);
    assert Navigate(s, TestRegistry(m1, m2), cfg, "app", "#m2", None) == Step(s, LeaveEvents(s), Panic(SlicePanic));
  }
}
