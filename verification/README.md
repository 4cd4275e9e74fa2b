# tinywasm/site in Dafny

A model of the core of `tinywasm/site`, a Go library for modular web
applications. One binary serves two roles:

- On the browser (WebAssembly), a client-side router moves between registered
  modules. It keeps a small cache of module instances and calls the modules'
  lifecycle hooks.
- On the server, a build step walks the same registry and feeds the asset
  pipeline. The calls it makes are style and script blocks, SVG sprites,
  module HTML and a navigation menu.

The model covers these parts of the library:

- the handler registry;
- both routers (manager.go, and the hooked manager_wasm.go);
- the route parser and the bounded module cache;
- the navigation menu;
- the server-side component registry and its CSS, JS and icon collectors;
- both asset builds (ssr.build.go and the older build.go);
- the colour palette and the configuration setters;
- the `--ssr-static-build` switch, and the `sitebuild` command that drives it.

Everything is a pure function over immutable values:

- A Go handler is a `Handlers.Handler` record. For each optional interface it
  records whether the handler implements it and what the method answers.
- The router's package variables (`activeModule`, `cache`) become a
  `Manager.NavState`.
- A call into the DOM, a lifecycle hook or `SetParams` becomes an
  `Handlers.Event` in the trace that a transition returns. A call into the
  asset pipeline becomes a `Handlers.Injection`.
- An error that the DOM, the asset pipeline, crudp, the compiler or the
  operating system could return is an `Option<string>` parameter.
- Go's map iteration order is an explicit order parameter. It must enumerate
  the map's keys, as `Common.Enumerates` states.

Modules, one per source file:

| module | source |
|---|---|
| `Common` | shared helpers: `Option`, `Status` (ok, error or panic), string and sequence lemmas |
| `Handlers` | the handler interfaces of module.go and dom, `module` of register.go |
| `Route` | `parseRoute`, fixed by verify_test.go and test/route_parsing_test.go |
| `Cache` | `addToCache` / `getFromCache` of manager_wasm.go |
| `Manager` | manager.go: `registerModule`, `findModule`, `Start`, `Navigate` |
| `ManagerWasm` | manager_wasm.go: `Start`, `Navigate` |
| `Register` | register.go: `RegisterHandlers`, `GetModules` |
| `Navigation` | navigation.go: `renderNavigation`, `isPublicReadable` |
| `Components` | site.back.go: `register`, `collectCSS`, `collectJS`, `collectIcons` |
| `SsrBuild` | ssr.build.go: `ssrBuild` |
| `LegacyBuild` | build.go: `Build`, `hasModuleInFirstLine` |
| `Palette` | palette.go: `SetColorPalette`, `renderPalette` |
| `SiteConfig` | config.go: the setters |
| `StaticBuild` | build.back.go: `BuildStatic`, `AutoBuild` |
| `SiteBuildCli` | cmd/sitebuild/main.go: `run` |

The source does not compile as it is written: several files redefine or
misname each other's symbols. The model settles each conflict as follows:

- build.go calls `RenderNavigation`, but navigation.go defines
  `renderNavigation`. Both are taken to be the same function,
  `Navigation.RenderNavigation`.
- manager.go appends a `&registeredModule{handler, name}`, a type that is
  declared nowhere. register.go and site.go each declare a `module` struct,
  and they keep two registries: the package variable `registeredModules` and
  the field `handler.registeredModules`. The model has one entry type,
  `Handlers.RegisteredModule`, and one registry. Each operation takes that
  registry as a parameter.
- manager.go and manager_wasm.go both define `Start` and `Navigate`. Both
  routers are modelled, each in its own module. manager_wasm.go has no
  `findModule`, so the hooked router uses manager.go's `findModule`
  (`Manager.FindModule`).
- palette.go writes `ssr.cssRoot`, but the `ssrState` of site.back.go has no
  such field. `Palette.CssRoot` is that missing field, and it is passed
  explicitly.
- navigation.go and ssr.build.go both declare `isPublicReadable`. One tests
  `dom.AccessLevel`, the other the local `accessLevel`. Both are modelled:
  `Navigation.IsPublicReadable` and `SsrBuild.WildcardFrom`.
  `SsrBuild.PublicReadableAgrees` shows that they agree on every handler.
- helper_test.go and site_test.go both declare `mockHandler`. The two
  declarations differ: only helper_test.go's has `ModuleTitle`, `ID`, `SetID`
  and `Children`. The model follows helper_test.go, the richer one.

Where the documentation and the code disagree, the model follows the code.
`getFromCache` does not take the module out of the cache: it moves the
module to the newest end. `ManagerWasm.ActiveModuleCanStayCached` shows the
consequence: the active module can also sit in the cache.

The comment at the top of cmd/sitebuild/main.go says the command exits with
the subprocess's own exit code. `run` returns 1 whenever the subprocess
fails, whatever its code. `SiteBuildCli.Run` follows the code: its exit code
is always 0 or 1.

## Model

| member | source | states |
|---|---|---|
| Handlers.ParamsEvent | manager_wasm.go:26-28 | a handler receives `SetParams(params)` exactly when it implements `Parameterized`, and nothing otherwise |
| Handlers.AfterEvent | manager_wasm.go:37-39 | `AfterNavigateTo` is called exactly on handlers implementing `ModuleLifecycle` |
| Route.ParseRoute | verify_test.go:29-59 | an empty path (after `#` and one leading `/`) selects the default route with no parameters; otherwise the module name and the parameters hold no `/`, and joined with `/` they give back the path |
| Route.ParseRouteInvertsRouteHash | test/route_parsing_test.go:9-41 | parsing inverts writing: `#m/p1/…` and `#/m/p1/…` parse back to `m` and its parameters in order, whatever the default route |
| Route.ModuleHash | test/route_parsing_test.go:15 | `#m` is module `m` with no parameters, for every such `m` |
| Route.ParamHash | test/route_parsing_test.go:16 | `#m/p` is module `m` with the single parameter `p` |
| Route.SlashModuleHash | test/route_parsing_test.go:20 | `#/m` parses like `#m` |
| Route.EmptyRoutesUseDefault | verify_test.go:40-41 | `""` and `"#"` select the configured default route, with no parameters |
| Route.ModuleOnlyRoute | verify_test.go:37 | `#users` is module `users` with no parameters |
| Route.OneParamRoute | verify_test.go:38 | `#users/123` is `users` with `["123"]` |
| Route.TwoParamRoute | verify_test.go:39 | `#users/123/edit` is `users` with `["123", "edit"]` |
| Route.LeadingSlashRoute | verify_test.go:42 | `#/users` is `users` with no parameters |
| Cache.IndexOfKey | manager_wasm.go:104-106 | the loop finds the first entry named like the key, or reports that none is |
| Cache.RemoveAt | manager_wasm.go:107 | `append(s[:i], s[i+1:]...)` removes exactly the element at `i` and keeps the rest in order |
| Cache.Without | manager_wasm.go:104-110 | without a same-name entry the cache is unchanged; with one, exactly one such entry goes and the rest keep their order; distinct names stay distinct and the name is gone |
| Cache.WithoutDropsFirst | manager_wasm.go:104-110 | the entry removed is the first one of that name (the `break`) |
| Cache.AddToCache | manager_wasm.go:102-116 | the added module ends up newest; the cache holds the remaining entries, oldest first, dropping the oldest when the bound is reached; it stays within a positive bound |
| Cache.AddKeepsDistinct | manager_wasm.go:102-116 | adding keeps one entry per name |
| Cache.AddWithRoom | manager_wasm.go:112-115 | with room and no entry of its name, the module is appended |
| Cache.EvictsOldest | manager_wasm.go:112-115 | a full cache without the module's name evicts exactly its oldest entry |
| Cache.ReAddKeepsSize | manager_wasm.go:104-115 | re-adding a cached name moves it to the newest end without growing the cache |
| Cache.GetFromCache | manager_wasm.go:118-128 | a hit returns the first entry of that name and moves it to the newest end; a miss changes nothing; the cache keeps its entries (same multiset) and distinct names |
| Cache.HitIsFirstOfName | manager_wasm.go:118-128 | a hit is the entry where the scan stops; it is now the newest, and the other entries keep their order |
| Cache.GetOldest | manager_wasm.go:118-128 | the oldest entry is found by its own name |
| Cache.AddThenGet | manager_wasm.go:102-128 | a module just added is found by its name and the lookup leaves the cache as adding left it |
| Cache.GetTwiceIsGetOnce | manager_wasm.go:118-128 | looking the same name up twice is looking it up once |
| Cache.AddAllKeepsInvariant | manager_wasm.go:102-116 | however many modules are added, the cache stays within its bound with one entry per name |
| Manager.RegisterModule | manager.go:14-29 | a module is appended under its `HandlerName()` unless that name is taken, in which case nothing changes; names stay unique |
| Manager.FindModule | manager.go:76-85 | finds nothing exactly when no entry of that name holds a `Module`; otherwise the first such entry's handler |
| Manager.RegisterThenFind | manager.go:14-29 | after registering under a fresh name, that module is the one found by it, and registering the name again changes nothing |
| Manager.AddToCache | manager.go:87-101 | manager.go's cache: newest last, bounded by `maxCache`, names kept distinct |
| Manager.GetFromCache | manager.go:103-113 | manager.go's lookup: hit iff the name is cached, the hit moved to the newest end, entries and invariant kept |
| Manager.StartName | manager.go:33-38 | an empty hash reads as `home`; otherwise the hash without its first character |
| Manager.StartNameVectors | manager.go:33-38 | `""` reads as `home`, `#users` as `users`, and `#users/1` keeps its slash |
| Manager.Start | manager.go:32-46 | an unknown name mounts nothing; a known one becomes active and is hydrated; the error is the DOM's; the cache is untouched |
| Manager.StartAfterRegister | manager.go:32-46 | loading `#name` after registering a module under a fresh name hydrates that module |
| Manager.Navigate | manager.go:49-74 | navigating to the active or an unknown module does nothing; otherwise the old module is unmounted and cached, the target (named `name`) becomes active, the hash is set and it is mounted; the cache invariant is kept |
| Manager.NavigatePrefersCached | manager.go:59-67 | when the cache, with the module being left retired into it, holds the target's name, the target is the oldest entry of that name and becomes the newest; otherwise it is the registry's handler and the cache stays as retired; either way the cache keeps the same entries |
| ManagerWasm.LeaveEvents | manager_wasm.go:67-72 | only the module being left, and only if it has hooks, is asked `BeforeNavigateAway` |
| ManagerWasm.Start | manager_wasm.go:16-42 | an unregistered name is the error "module not found: name" and changes nothing; otherwise the module gets its parameters, becomes active, is rendered and, only if rendering succeeded, hears `AfterNavigateTo`; the cache is untouched |
| ManagerWasm.StartOnRouteHash | manager_wasm.go:16-42 | loading the hash the router writes for `m` and its parameters starts `m` with those parameters, delivered before the render |
| ManagerWasm.Switch | manager_wasm.go:73-99 | a module is always active after a switch, even when rendering fails; a target the retired cache lacks is the registry's handler, and the cache stays as retiring left it; the status is the render's error, or ok |
| ManagerWasm.SwitchTarget | manager_wasm.go:74-80 | a target the retired cache holds is its oldest entry of that name and moves to the newest end; the cache keeps the same entries, among them the module left behind |
| ManagerWasm.SwitchEvents | manager_wasm.go:66-99 | the events, in order: the leave hook of the module being left, the new active module's parameters, the hash, its render, and its arrival hook exactly when rendering succeeded |
| ManagerWasm.NavigateSameModule | manager_wasm.go:48-59 | re-navigating to the active module only delivers parameters and `AfterNavigateTo` |
| ManagerWasm.NavigateUnregistered | manager_wasm.go:61-64 | an unregistered target is ignored without error |
| ManagerWasm.NavigateVetoed | manager_wasm.go:66-72 | a veto stops the navigation after asking the module being left, changing nothing |
| ManagerWasm.NavigatePanicsOnlyOnBadBound | manager_wasm.go:104-113 | the only panic is `cache[1:]` on an empty cache under a bound below 1; the cache has then lost the leaving module's entry |
| ManagerWasm.NavigateKeepsCacheInv | manager_wasm.go:45-100 | with a positive bound, every navigation keeps the cache within the bound with one entry per name |
| ManagerWasm.SwitchRetiresOldModule | manager_wasm.go:73-75 | the module left behind is in the new cache |
| ManagerWasm.SwitchToUncached | manager_wasm.go:77-99 | a target not in the cache is the registry's handler, and it goes through params, hash, render and arrival |
| ManagerWasm.NavigateToCached | manager_wasm.go:77-80 | a cached target is the instance that becomes active, and it stays in the cache |
| ManagerWasm.LeaveLifecycle | manager_wasm.go:67-72 | leaving a module with hooks asks it first |
| ManagerWasm.TestModule | test/lifecycle_wasm_test.go:12-40 | the lifecycle test's module: a `Module` under its name, parameterised, with hooks whose `BeforeNavigateAway` allows leaving |
| ManagerWasm.FindsTestModules | test/lifecycle_wasm_test.go:44-51 | registering m1 and m2 makes each findable by its name |
| ManagerWasm.TestRoutes | test/lifecycle_wasm_test.go:54-79 | the test's hashes parse to m1, m2 and m2 with `["123"]` |
| ManagerWasm.LifecycleFirstNavigation | test/lifecycle_wasm_test.go:53-62 | navigating to m1 from nothing makes m1 active and calls its `AfterNavigateTo` |
| ManagerWasm.LifecycleSecondNavigation | test/lifecycle_wasm_test.go:64-76 | navigating on to m2 asks m1 to leave, retires it, and m2 hears `AfterNavigateTo` |
| ManagerWasm.LifecycleParamNavigation | test/lifecycle_wasm_test.go:78-87 | `#m2/123` on the active m2 sets its parameters to `["123"]` |
| ManagerWasm.ActiveModuleCanStayCached | manager_wasm.go:118-128 | returning to a cached module activates the cached instance and leaves it in the cache |
| ManagerWasm.ZeroCacheSizePanics | manager_wasm.go:112-113 | with `SetCacheSize(0)` the first switch away from a module panics |
| Register.Entry | register.go:31-34 | the entry holds the handler and its `HandlerName()`, or `""` without one |
| Register.Entries | register.go:30-36 | one entry per handler, in argument order |
| Register.RegisterHandlers | register.go:20-43 | an empty call does nothing and returns nil; otherwise every handler is appended before crudp is called, and crudp's error is returned without undoing the entries |
| Register.GetModules | register.go:50-53 | the registry as registered, in order |
| Register.RegisterTwiceIsRegisterBoth | register.go:30-36 | two calls register what one call with both batches registers |
| Register.CrudpErrorKeepsEntries | register.go:38-41 | a crudp failure changes only the returned error |
| Register.NoDeduplication | register.go:30-36 | the same module registered twice gets two entries here, but one through manager.go's `registerModule` |
| Register.RegistrationFlow | site_test.go:29-54 | the three mock handlers register in order under their names: three modules |
| Navigation.HasWildcard | navigation.go:59-63 | the role scan succeeds exactly when `'*'` is among the read roles |
| Navigation.IsPublicReadable | navigation.go:57-66 | public exactly when the handler declares read roles and `'*'` is one of them |
| Navigation.DisplayName | navigation.go:18-21 | the link text is `Title()` when implemented, else the entry name |
| Navigation.IconId | navigation.go:23-29 | the icon reference is some id of the handler's icon map, or none without icons |
| Navigation.Public | navigation.go:14-17 | the entries the loop links are the public non-help entries, in order |
| Navigation.RenderNavigation | navigation.go:11-55 | the menu is empty exactly when no entry is public and not `help`; otherwise the header, one line per such entry in order, and the footer |
| Navigation.NoneListed | navigation.go:14-17 | no entry gets a link exactly when the filter keeps none |
| Navigation.ScanWrites | navigation.go:12-52 | the loop counts one link per public entry and writes the header once, before the first link |
| Navigation.ListedEntryAppears | navigation.go:14-47 | every public non-help entry's line is in the menu |
| Navigation.OnlyPublicMatters | navigation.go:15-17 | private modules and `help` do not affect the menu |
| Navigation.PublicIdempotent | navigation.go:15-17 | filtering the linked entries again changes nothing |
| Navigation.PlainItem | navigation.go:36-47 | a module without title or icons links its own name |
| Navigation.RenderSome | navigation.go:31-52 | with at least one link, the menu is the header, the lines and the footer |
| Navigation.Mock | helper_test.go:3-24 | the test handler is public exactly when its role is `'*'`; it has no `Title` and no icons |
| Navigation.TestRegistryPublic | register_test.go:16-30 | of the three mocks, `nav-module` and `no-marker-module` are linked, `private-module` is not |
| Navigation.RegistrationFlowNavigation | register_test.go:42-49 | the test's menu links `nav-module` and not `private-module` |
| Components.Register | site.back.go:43-54 | a nil component is ignored; a new type is added with that component; a known type keeps its first component; nothing registered is lost |
| Components.RegisterAllGrows | site.back.go:43-54 | the registry ends with exactly its old types plus those registered, and old entries unchanged |
| Components.FirstOfTypeWins | site.back.go:50-53 | a new type is represented by its first registered component |
| Components.RegistrySize | site.back.go:43-54 | the registry holds one entry per distinct type |
| Components.Piece | site.back.go:60-66 | a component adds its text and a newline exactly when it provides non-empty text |
| Components.Collect | site.back.go:57-69 | the collected text is empty exactly when no registered component provides non-empty text |
| Components.CollectContents | site.back.go:57-69 | the collected text is the pieces written out: every contributor's text plus newline is among them, and every piece is some contributor's |
| Components.PiecesCount | site.back.go:59-66 | one piece per contributing type |
| Components.CollectOrderIrrelevant | site.back.go:59 | whatever order Go ranges the registry in, the same pieces are written, one per contributor |
| Components.CollectIconsContents | site.back.go:72-82 | every collected id comes from a registered component with that id, and every component's ids are collected |
| Components.IconCountOrderIrrelevant | site.back.go:74-80 | the number of collected icons does not depend on the map order |
| Components.IconIdsOrderIrrelevant | site.back.go:74-80 | the collected ids do not depend on the map order |
| SsrBuild.WildcardFrom | ssr.build.go:83-87 | the index scan finds the wildcard exactly when `'*'` occurs from that index on |
| SsrBuild.PublicReadableAgrees | ssr.build.go:81-90 | ssr.build.go's `isPublicReadable` agrees with navigation.go's on every handler |
| SsrBuild.Found | ssr.build.go:29-44 | an HTML-rendering module is registered first, then each tracked component |
| SsrBuild.Discover | ssr.build.go:27-45 | discovery adds exactly the types it found and keeps earlier entries |
| SsrBuild.FoundRegistered | ssr.build.go:27-45 | every component found for a module has its type registered |
| SsrBuild.DiscoveryRegisters | ssr.build.go:27-45 | every HTML-rendering module and every component it tracked has its type registered |
| SsrBuild.Block | ssr.build.go:50-57 | empty text injects nothing; otherwise one block wrapped in its tags |
| SsrBuild.Sprites | ssr.build.go:60-62 | one sprite per collected icon, with its own svg |
| SsrBuild.BlockOfCollect | ssr.build.go:50-57 | a style or script block is there exactly when some component contributes |
| SsrBuild.InjectionsShape | ssr.build.go:47-76 | style block iff some CSS, script block iff some JS, one sprite per icon, then the pages |
| SsrBuild.SsrBuild | ssr.build.go:25-79 | the build never fails, registers the discovered types, injects the style block iff a component has CSS, then the script block iff one has JS, one sprite per collected icon, and ends with the pages |
| SsrBuild.BuildOrderIrrelevant | ssr.build.go:25-79 | whatever orders Go ranges the maps in, a build registers the same components and makes as many calls, with the same pages last |
| SsrBuild.PagesAreShownModules | ssr.build.go:64-76 | the HTML injected is exactly that of the public modules with non-empty HTML, in registration order |
| SsrBuild.PagesOfModule | ssr.build.go:65-76 | a module's page is injected exactly when it renders non-empty HTML and is public |
| SsrBuild.PagesOnly | ssr.build.go:47-76 | with no CSS, JS or icons, a build injects only the pages |
| SsrBuild.MockDiscovered | register_test.go:51-59 | discovery finds the three mocks, each once, in registration order |
| SsrBuild.MockDiscover | register_test.go:51-59 | the three mocks share one concrete type, so one component is registered |
| SsrBuild.MockPages | register_test.go:51-59 | the private mock's page is left out; the other two are injected in order |
| SsrBuild.RegistrationFlowBuild | register_test.go:51-59 | the test's build succeeds and injects just those two pages |
| LegacyBuild.FirstLine | build.go:62-65 | the text before the first newline, or all of it without one |
| LegacyBuild.MarkerBeforeNewline | build.go:61-67 | the marker check holds exactly when "module", in any letter case, occurs before the first newline |
| LegacyBuild.NoLetterUNoMarker | build.go:61-67 | text without the letter u has no marker |
| LegacyBuild.MarkerAtStart | build.go:61-67 | text starting with "module" in any case carries the marker |
| LegacyBuild.MarkedPage | site_test.go:33-38 | the test's `nav-module` page carries the marker |
| LegacyBuild.CapitalisedMarker | build.go:66 | the marker is recognised in any letter case |
| LegacyBuild.UnmarkedPages | site_test.go:44-48 | the unmarked page and the empty page carry no marker |
| LegacyBuild.CssCalls | build.go:34-38 | `AddCSS(name, css)` exactly for non-empty CSS |
| LegacyBuild.IconCalls | build.go:41-45 | one `AddIcon` per icon, with its `id` and `svg` fields (empty when absent) |
| LegacyBuild.ModuleCssFirst | build.go:34-38 | a module's calls start with its CSS exactly when it has non-empty CSS |
| LegacyBuild.ModulePageLast | build.go:47-55 | a module's page is injected, last of its calls, exactly when it renders HTML, is public and is marked |
| LegacyBuild.Build | build.go:13-59 | an empty registry builds nothing; with no menu entry the build fails with "no public modules for navigation" before injecting; otherwise the menu, the main container, then every module's calls |
| LegacyBuild.MenuFirst | build.go:18-27 | a successful non-empty build injects the non-empty menu first, then the container |
| LegacyBuild.ModuleCallsAppear | build.go:30-56 | each module's calls appear in the loop at its registration position |
| LegacyBuild.LoopCallsSound | build.go:30-56 | every page the loop injects is that of a module that shows it, and every CSS call is some module's non-empty CSS |
| LegacyBuild.LoopPage | build.go:47-55 | every module that shows its page has it injected by the loop |
| LegacyBuild.LoopAfterMenu | build.go:23-56 | after the menu and the container come exactly the loop's calls |
| LegacyBuild.PageInjected | build.go:47-55 | every shown page is among the build's injections |
| LegacyBuild.OnlyPagesInjected | build.go:30-56 | every page injected after the menu belongs to a module that shows it |
| LegacyBuild.NoTypeDedup | build.go:30-56 | unlike the server registry, this loop repeats a handler's calls for each entry |
| LegacyBuild.ValidationFails | site_test.go:80-95 | a registry holding only a private module fails with "no public modules for navigation" |
| LegacyBuild.HelpOnlyFails | build.go:18-21 | a registry holding only `help` fails too |
| LegacyBuild.PageWithCss | build.go:30-56 | a marked public module with CSS adds its CSS and then its page |
| LegacyBuild.FirstMockCalls | site_test.go:33-38 | the `nav-module` mock adds its CSS and its page |
| LegacyBuild.OtherMocksCalls | site_test.go:39-48 | the private and the unmarked mocks add nothing |
| LegacyBuild.SiteMocksLoop | site_test.go:29-78 | the loop over the test's mocks makes exactly the `nav-module` calls |
| LegacyBuild.RegistrationFlowLegacy | site_test.go:29-78 | the test's build succeeds: the menu, the container, then the `nav-module` CSS and page |
| LegacyBuild.BuildWithCalls | build.go:13-59 | a build whose loop makes two calls injects the menu, the container and those two calls |
| LegacyBuild.BuildSucceeds | build.go:13-59 | a registry with a linked module builds without error: the menu, the container, then the loop's calls |
| Palette.Effective | palette.go:22-35 | without a primary colour the whole default palette is used, and every colour is then set; otherwise the palette as given |
| Palette.WriteVar | palette.go:55-59 | an empty value writes nothing; otherwise one `name: value;` line |
| Palette.Writes | palette.go:41-49 | one write per variable |
| Palette.Present | palette.go:41-49 | one line per non-empty colour, each that colour's line |
| Palette.Rule | palette.go:37-52 | the `:root` rule opens with its comment, holds the lines of the set colours and closes |
| Palette.RenderPalette | palette.go:20-53 | the rule for the effective palette: opening, one line per set colour in field order, closing |
| Palette.WritesSkipEmpty | palette.go:55-59 | writing every variable equals writing just the set ones |
| Palette.PresentHasLine | palette.go:41-49 | every set colour has its line |
| Palette.AllPresent | palette.go:41-49 | with every colour set, every variable is written, in order |
| Palette.NonePresent | palette.go:41-49 | with no colour set, nothing is written |
| Palette.RuleHasLine | palette.go:37-52 | every set colour's line is in the rule |
| Palette.LineAppears | palette.go:20-53 | every set colour of the effective palette appears in the CSS |
| Palette.DefaultPaletteLines | palette.go:23-35 | without a primary colour all nine default colours are written |
| Palette.EmptyPrimaryDiscards | palette.go:23-35 | without a primary colour the other colours given are ignored |
| Palette.LinesCountFields | palette.go:41-49 | with a primary colour, as many lines as set colours |
| Palette.RenderPaletteVector | palette_test.go:21-35 | primary `#ffffff` and secondary `#000000` render exactly their two lines |
| Palette.SetColorPalette | palette.go:15-17 | the palette is stored as given |
| Palette.SetThenRender | palette_test.go:10-19 | after setting a palette the rendering depends on it alone; setting primary "red" stores "red" |
| SiteConfig.SetCacheSize | config.go:20-22 | sets the cache bound as given, without validation; nothing else changes |
| SiteConfig.SetDefaultRoute | config.go:25-27 | sets the default route; nothing else changes |
| SiteConfig.SetOutputDir | config.go:30-32 | sets the output directory; nothing else changes |
| SiteConfig.SetDevMode | config.go:35-38 | sets both development-mode flags; nothing else changes |
| SiteConfig.DevModeStaysInSync | config.go:35-38 | the two development-mode flags agree at start and after every `SetDevMode` |
| SiteConfig.SettersCommute | config.go:20-32 | setters of different fields commute, and the last of two writes wins |
| SiteConfig.ConfigurationScenario | verify_test.go:7-27 | the defaults are 3, "home", "./public", false; the test's four setter calls store 5, "dashboard", "./dist", true |
| SiteBuildCli.ScanFrom | cmd/sitebuild/main.go:52-68 | the loop settles on values taken from the arguments; it stops early only on a dangling flag or a second package |
| SiteBuildCli.Parse | cmd/sitebuild/main.go:47-74 | a successful parse has a non-empty package from the arguments and an output directory that is "dist" or from the arguments |
| SiteBuildCli.BinPath | cmd/sitebuild/main.go:84 | the binary's path is the temporary directory followed by `/sitebuild_app`, so it ends in `p` and is never the static-build flag |
| SiteBuildCli.Run | cmd/sitebuild/main.go:47-102 | exit code 0 exactly when parsing, the temporary directory, compiling and running all succeed; no builder call without a parse and a directory; compile before run, run with `--ssr-static-build <outDir>` |
| SiteBuildCli.LastOutWins | cmd/sitebuild/main.go:54-60 | a later `--out` overrides an earlier one and changes nothing else |
| SiteBuildCli.SecondPackageRejected | cmd/sitebuild/main.go:61-66 | a second package path is rejected |
| SiteBuildCli.DanglingOutFlag | cmd/sitebuild/main.go:54-58 | an output flag with nothing after it is rejected |
| SiteBuildCli.ParseVectors | cmd/sitebuild/main.go:51-74 | the usage line's cases: default "dist", `--out dist/`, the dangling flag, the missing package, a second package |
| SiteBuildCli.RunArgsReachAutoBuild | cmd/sitebuild/main.go:93-98 | the program `sitebuild` runs finds the output directory where `AutoBuild` looks |
| StaticBuild.FlagValueFrom | build.back.go:39-48 | the first flag with an argument after it decides; none means no static build |
| StaticBuild.FlagValue | build.back.go:39-48 | the directory after the first usable `--ssr-static-build`, if any |
| StaticBuild.AutoBuild | build.back.go:38-50 | carries on exactly when no usable flag is present; builds into the directory named; exits 1 only when the build fails |
| StaticBuild.BuildStaticStatus | build.back.go:16-26 | `BuildStatic` returns `ssrBuild`'s error, which is always nil |
| StaticBuild.AutoBuildNeverExits | build.back.go:38-50 | a program asked for a static build always builds and never exits |
| StaticBuild.FirstFlagWins | build.back.go:39-41 | a later flag is ignored once an earlier one is usable |
| StaticBuild.TrailingFlagIgnored | build.back.go:40 | a flag with nothing after it is ignored |

## Left out

- Route.ParseRoute: the Go body of `parseRoute` is not part of this model. The definition (drop `#`, drop one leading `/`, split on `/`) is the simplest one that meets the test tables. The tables do not fix `#users/` (the model yields the parameter list `[""]`, see `Route.TrailingSlashKeepsEmptyParam`), a hash without `#` (read like one with it), or `#//x` (the model yields module `""` with the parameter `x`).
- Manager.StartName: drops the first character where `hash[1:]` drops the first byte. The two agree when the hash starts with an ASCII `#`, as every hash the router writes does.
- LegacyBuild.HasModuleInFirstLine: lower-cases ASCII letters only (`Common.Lower`), where `strings.ToLower` maps all of Unicode. The marker "module" is ASCII, so the two differ only on letters that lower-case to ASCII, such as the Kelvin sign.
- SiteBuildCli.BinPath: joins with `/` where `filepath.Join` also cleans the path (double slashes, `.`, a trailing separator). The two agree when the temporary directory is already a clean path without a trailing separator, which is what `os.MkdirTemp` returns.
- Register.RegisterHandlers: the lazy `crudp.New()` and `SetDevMode(true)` on the first call, and the log line printed on a crudp error, are not modelled. crudp is outside the model: its result is the `crudpErr` parameter.
- Go's map iteration order (the component registry, the icon map, an icon provider's map) is unspecified. Every loop over a map takes an explicit order that must enumerate the map's keys. The order lemmas (`Components.CollectOrderIrrelevant`, `IconIdsOrderIrrelevant`, `SsrBuild.BuildOrderIrrelevant`) state what does not depend on it. The text order of the collected CSS and JS does depend on it, and the model does not fix it.
- Navigation.IconId: the menu's icon is the first key Go's map iteration yields. The model picks some key, not a particular one.
- Handlers.Handler: the model lets a handler have both a map-shaped and a list-shaped `IconSvg` at once. A Go type has one `IconSvg` method, so it has one of the two. Each build reads only the shape it asserts (`Navigation` and `Components` the map, `LegacyBuild` the list), so no property depends on the other.
- DOM calls (`GetHash`, `Render`, `Mount`, `Hydrate`, `Unmount`, `SetHash`) are trace events. Their errors are parameters, and the hash is an argument.
- The asset pipeline (`assetmin`): its calls are `Injection` values. Its output files, minification and `SetBuildOnDisk` are not modelled.
- StaticBuild.BuildStaticStatus: `NewAssetMin`, `EnsureOutputDirectoryExists` and `SetBuildOnDisk` are not modelled. The output directory only configures them.
- The standard-library side of `sitebuild` is not modelled: printing, `os.Exit`, `exec.Command`, `os.MkdirTemp` and the deferred `os.RemoveAll`. Their outcomes are parameters.
- The environment and argument scan of site.back.go's `init` (`APP_ENV`, `-dev`), the rbac, mount and serve files, and the example application are outside the core.
- palette_wasm.go's `SetColorPalette` is a no-op on the browser side and has no model.
- `GetCrudP`, the internal test exports and `TrackedComponents`' own builder are not modelled. A handler's tracked components are a field of the handler.
- ManagerWasm.Navigate: the state the panic leaves is the one after `addToCache` dropped the module's entry. Go does not recover from the panic, so no later call runs on that state.
- Integer widths: `CacheSize` is an unbounded integer. No arithmetic in the core can overflow.
