/** The site configuration record of config.go and the package state its
    setters write: the cache bound and default route the client router reads,
    the output directory, and the development-mode flag that config.go keeps
    in two places at once. */
module SiteConfig {
  import opened Handlers

  datatype Config = Config(cacheSize: int, defaultRoute: string, outputDir: string, devMode: bool)

  /** The configuration before any setter runs. */
  const Defaults: Config := Config(3, "home", "./public", false)

  /** The `siteHandler` singleton of site.go: the module registry and its own
      copy of the development-mode flag. */
  datatype SiteHandler = SiteHandler(registeredModules: seq<RegisteredModule>, devMode: bool)

  /** The package-level state the setters reach: `config` and `handler`. */
  datatype Globals = Globals(config: Config, handler: SiteHandler)

  /** The state at program start: default configuration, empty registry. */
  const Initial: Globals := Globals(Defaults, SiteHandler([], false))

  /** `SetCacheSize`: stores the bound as given, without validation. */
  function SetCacheSize(c: Config, size: int): (r: Config)
    ensures r.cacheSize == size
    ensures r.defaultRoute == c.defaultRoute && r.outputDir == c.outputDir && r.devMode == c.devMode
  {
    c.(cacheSize := size)
  }

  /** `SetDefaultRoute`: the module shown for an empty route. */
  function SetDefaultRoute(c: Config, route: string): (r: Config)
    ensures r.defaultRoute == route
    ensures r.cacheSize == c.cacheSize && r.outputDir == c.outputDir && r.devMode == c.devMode
  {
    c.(defaultRoute := route)
  }

  /** `SetOutputDir`: where the aggregated assets are written. */
  function SetOutputDir(c: Config, dir: string): (r: Config)
    ensures r.outputDir == dir
    ensures r.cacheSize == c.cacheSize && r.defaultRoute == c.defaultRoute && r.devMode == c.devMode
  {
    c.(outputDir := dir)
  }

  /** `SetDevMode`: writes the flag into the configuration and into the site
      handler together; nothing else changes. */
  function SetDevMode(g: Globals, enabled: bool): (r: Globals)
    ensures r.config.devMode == enabled && r.handler.devMode == enabled
    ensures r.config.cacheSize == g.config.cacheSize
    ensures r.config.defaultRoute == g.config.defaultRoute
    ensures r.config.outputDir == g.config.outputDir
    ensures r.handler.registeredModules == g.handler.registeredModules
  {
    Globals(g.config.(devMode := enabled), g.handler.(devMode := enabled))
  }

  /** Both copies of the development-mode flag agree. */
  predicate DevModeInSync(g: Globals) {
    g.config.devMode == g.handler.devMode
  }

  /** The program starts with both copies in agreement, and `SetDevMode`
      keeps them in agreement whatever state it starts from. */
  lemma DevModeStaysInSync(g: Globals, enabled: bool)
    ensures DevModeInSync(Initial)
    ensures DevModeInSync(SetDevMode(g, enabled))
  {
  }

  /** Setters of different fields commute, and a second call of the same
      setter overrides the first. */
  lemma SettersCommute(c: Config, size: int, route: string, dir: string, size2: int)
    ensures SetCacheSize(SetDefaultRoute(c, route), size) == SetDefaultRoute(SetCacheSize(c, size), route)
    ensures SetOutputDir(SetCacheSize(c, size), dir) == SetCacheSize(SetOutputDir(c, dir), size)
    ensures SetOutputDir(SetDefaultRoute(c, route), dir) == SetDefaultRoute(SetOutputDir(c, dir), route)
    ensures SetCacheSize(SetCacheSize(c, size), size2) == SetCacheSize(c, size2)
  {
  }

  /** The configuration test: starting from the defaults, each setter's value
      is read back, the others keep theirs until set. */
  lemma ConfigurationScenario()
    ensures Defaults.cacheSize == 3 && Defaults.defaultRoute == "home"
    ensures Defaults.outputDir == "./public" && !Defaults.devMode
    ensures var g := SetDevMode(Globals(SetOutputDir(SetDefaultRoute(SetCacheSize(Defaults, 5), "dashboard"), "./dist"), Initial.handler), true);
            g.config == Config(5, "dashboard", "./dist", true) && g.handler.devMode
  {
  }
}
