/** The server-side asset build of ssr.build.go: a discovery pass that
    registers every HTML-rendering module and the components it tracked,
    then the injections into the asset pipeline: one style block, one script
    block, the sprite icons, and the HTML of the public modules. */
module SsrBuild {
  import opened Common
  import opened Handlers
  import Components
  import Navigation

  /** This file's own `isPublicReadable`: an index scan of the read roles
      for the wildcard. */
  function IsPublicReadable(h: Handler): bool {
    h.readRoles.Some? && WildcardFrom(h.readRoles.value, 0)
  }

  /** Some role at or after index `i` is the wildcard. */
  function WildcardFrom(roles: seq<char>, i: nat): (r: bool)
    requires i <= |roles|
    ensures r <==> exists j :: i <= j < |roles| && roles[j] == '*'
    decreases |roles| - i
  {
    if i == |roles| then false else roles[i] == '*' || WildcardFrom(roles, i + 1)
  }

  /** The two `isPublicReadable` functions of the repository agree on every
      handler. */
  lemma PublicReadableAgrees(h: Handler)
    ensures IsPublicReadable(h) == Navigation.IsPublicReadable(h)
  {
    if h.readRoles.Some? && '*' in h.readRoles.value {
      var roles := h.readRoles.value;
      var j :| 0 <= j < |roles| && roles[j] == '*';
    }
  }

  // -------------------------------------------------------------- discovery

  /** The components the discovery pass registers for one module: the
      handler itself when it renders HTML, then its tracked components. */
  function Found(h: Handler): (cs: seq<Option<Handler>>)
    ensures forall i :: 0 <= i < |cs| ==> cs[i].Some?
    ensures h.html.Some? ==> |cs| > 0 && cs[0] == Some(h)
    ensures h.tracked.Some? ==> |cs| >= |h.tracked.value|
                                && forall k :: 0 <= k < |h.tracked.value| ==>
                                     cs[|cs| - |h.tracked.value| + k] == Some(h.tracked.value[k])
    ensures h.tracked.None? ==> cs == (if h.html.Some? then [Some(h)] else [])
    // Nothing else is found: the handler at most once, then its tracked
    // components.
    ensures |cs| == (if h.html.Some? then 1 else 0) + (if h.tracked.Some? then |h.tracked.value| else 0)
  {
    var own := if h.html.Some? then [Some(h)] else [];
    var nested := if h.tracked.Some? then seq(|h.tracked.value|, k requires 0 <= k < |h.tracked.value| => Some(h.tracked.value[k])) else [];
    own + nested
  }

  /** The components of all modules, in registration order. */
  function Discovered(mods: seq<RegisteredModule>): seq<Option<Handler>>
    decreases |mods|
  {
    if |mods| == 0 then [] else Found(mods[0].handler) + Discovered(mods[1..])
  }

  /** The components a module offers, as a function of the module. */
  function FoundIn(m: RegisteredModule): seq<Option<Handler>> {
    Found(m.handler)
  }

  /** The discovery order is the modules' findings, flattened. */
  lemma {:induction false} DiscoveredFlat(mods: seq<RegisteredModule>)
    ensures Discovered(mods) == FlatMap(mods, FoundIn)
    decreases |mods|
  {
    if |mods| > 0 {
      DiscoveredFlat(mods[1..]);
    }
  }

  /** What the discovery pass finds is found for some module. */
  lemma DiscoveredCovers(mods: seq<RegisteredModule>, i: nat, c: Option<Handler>)
    requires i < |mods| && c in Found(mods[i].handler)
    ensures c in Discovered(mods)
  {
    DiscoveredFlat(mods);
    assert FoundIn(mods[i]) == Found(mods[i].handler);
    FlatMapCovers(mods, i, FoundIn, c);
  }

  /** The discovery pass: the registry after every HTML-rendering module and
      every tracked component has been offered to `register`.  The registry
      persists across builds, so it starts from `reg0`. */
  function Discover(reg0: Components.Registry, mods: seq<RegisteredModule>): (reg: Components.Registry)
    ensures reg.Keys == reg0.Keys + Components.Tags(Discovered(mods))
    ensures forall t :: t in reg0 ==> reg[t] == reg0[t]
  {
    Components.RegisterAllGrows(reg0, Discovered(mods));
    Components.RegisterAll(reg0, Discovered(mods))
  }

  /** A component found for some module has its type registered after
      discovery. */
  lemma FoundRegistered(reg0: Components.Registry, mods: seq<RegisteredModule>, i: nat, c: Option<Handler>)
    requires i < |mods| && c in Found(mods[i].handler) && c.Some?
    ensures c.value.typeTag in Discover(reg0, mods)
  {
    DiscoveredCovers(mods, i, c);
    var all := Discovered(mods);
    var j :| 0 <= j < |all| && all[j] == c;
    assert c.value.typeTag in Components.Tags(all);
  }

  /** Every HTML-rendering module and every component it tracked has its
      type registered after discovery. */
  lemma DiscoveryRegisters(reg0: Components.Registry, mods: seq<RegisteredModule>, i: nat)
    requires i < |mods|
    ensures mods[i].handler.html.Some? ==> mods[i].handler.typeTag in Discover(reg0, mods)
    ensures mods[i].handler.tracked.Some? ==>
              forall k :: 0 <= k < |mods[i].handler.tracked.value| ==>
                mods[i].handler.tracked.value[k].typeTag in Discover(reg0, mods)
  {
    var h := mods[i].handler;
    var f := Found(h);
    if h.html.Some? {
      assert f[0] == Some(h);
      FoundRegistered(reg0, mods, i, Some(h));
    }
    if h.tracked.Some? {
      var ts := h.tracked.value;
      forall k | 0 <= k < |ts|
        ensures ts[k].typeTag in Discover(reg0, mods)
      {
        assert f[|f| - |ts| + k] == Some(ts[k]);
        FoundRegistered(reg0, mods, i, Some(ts[k]));
      }
    }
  }

  // -------------------------------------------------------------- injection

  /** The style or script block: nothing for empty text, else the text
      between the opening and closing tags. */
  function Block(open: string, text: string, close: string): (r: seq<Injection>)
    ensures text == "" <==> r == []
    ensures text != "" ==> r == [InjectHTML(open + text + close)]
  {
    if text == "" then [] else [InjectHTML(open + text + close)]
  }

  /** One sprite per collected icon, in the order the icon map is ranged over. */
  function Sprites(icons: map<string, string>, order: seq<string>): (r: seq<Injection>)
    requires forall i :: 0 <= i < |order| ==> order[i] in icons
    ensures |r| == |order|
    ensures forall i :: 0 <= i < |order| ==> r[i] == InjectSpriteIcon(order[i], icons[order[i]])
    decreases |order|
  {
    if |order| == 0 then [] else [InjectSpriteIcon(order[0], icons[order[0]])] + Sprites(icons, order[1..])
  }

  /** A module whose HTML is injected: it renders HTML, is public, and its
      HTML is not empty. */
  predicate Shows(e: RegisteredModule) {
    e.handler.html.Some? && IsPublicReadable(e.handler) && e.handler.html.value != ""
  }

  /** The module HTML injections, in registration order. */
  function Pages(mods: seq<RegisteredModule>): seq<Injection>
    decreases |mods|
  {
    if |mods| == 0 then []
    else (if Shows(mods[0]) then [InjectHTML(mods[0].handler.html.value)] else []) + Pages(mods[1..])
  }

  /** The orders in which Go ranges over the maps of one build: the registry
      once each for CSS, JavaScript and icons, and the collected icons. */
  datatype Orders = Orders(css: seq<string>, js: seq<string>, icons: seq<string>, sprites: seq<string>)

  /** The orders are orders of the maps they range over. */
  predicate ValidOrders(reg: Components.Registry, o: Orders) {
    && Enumerates(o.css, reg.Keys) && Enumerates(o.js, reg.Keys) && Enumerates(o.icons, reg.Keys)
    && Enumerates(o.sprites, Components.CollectIcons(reg, o.icons).Keys)
  }

  /** What a build leaves behind: the component registry, the injections in
      call order, and the returned `error`. */
  datatype Build = Build(registry: Components.Registry, injections: seq<Injection>, status: Status)

  /** The calls into the asset pipeline, in the order `ssrBuild` makes
      them. */
  function Injections(reg: Components.Registry, mods: seq<RegisteredModule>, o: Orders): seq<Injection>
    requires ValidOrders(reg, o)
  {
    var css := Components.Collect(reg, o.css, Components.Css);
    var js := Components.Collect(reg, o.js, Components.Js);
    var icons := Components.CollectIcons(reg, o.icons);
    Block("<style>\n", css, "</style>\n") + Block("<script>\n", js, "</script>\n")
    + Sprites(icons, o.sprites) + Pages(mods)
  }

  /** How many of the two text blocks a registry yields. */
  function BlockCount(reg: Components.Registry): nat {
    (if Components.Contributors(reg, Components.Css) != {} then 1 else 0)
    + (if Components.Contributors(reg, Components.Js) != {} then 1 else 0)
  }

  /** A text block is there exactly when some component contributes. */
  lemma BlockOfCollect(reg: Components.Registry, order: seq<string>, kind: Components.TextKind,
                       open: string, close: string)
    requires Enumerates(order, reg.Keys)
    ensures var block := Block(open, Components.Collect(reg, order, kind), close);
            && |block| == (if Components.Contributors(reg, kind) != {} then 1 else 0)
            && (Components.Contributors(reg, kind) != {} ==>
                  block[0] == InjectHTML(open + Components.Collect(reg, order, kind) + close))
  {
    var text := Components.Collect(reg, order, kind);
    if Components.Contributors(reg, kind) != {} {
      var t :| t in Components.Contributors(reg, kind);
      assert text != "";
    } else {
      assert forall t :: t in reg && Components.Contributes(reg[t], kind) ==> t in Components.Contributors(reg, kind);
    }
  }

  /** Positions within four sequences written one after another. */
  lemma FourParts<T>(a: seq<T>, b: seq<T>, c: seq<T>, d: seq<T>)
    ensures |a + b + c + d| == |a| + |b| + |c| + |d|
    ensures |a| > 0 ==> (a + b + c + d)[0] == a[0]
    ensures |b| > 0 ==> (a + b + c + d)[|a| + |b| - 1] == b[|b| - 1]
    ensures forall k :: 0 <= k < |c| ==> (a + b + c + d)[|a| + |b| + k] == c[k]
    ensures forall k :: 0 <= k < |d| ==> (a + b + c + d)[|a| + |b| + |c| + k] == d[k]
  {
  }

  /** The four parts of the injections: the style block, the script block,
      the sprites and the pages. */
  lemma InjectionParts(reg: Components.Registry, mods: seq<RegisteredModule>, o: Orders)
      returns (style: seq<Injection>, script: seq<Injection>, sprites: seq<Injection>, pages: seq<Injection>)
    requires ValidOrders(reg, o)
    ensures Injections(reg, mods, o) == style + script + sprites + pages
    ensures |style| + |script| == BlockCount(reg)
    ensures Components.Contributors(reg, Components.Css) != {} ==>
              style == [InjectHTML("<style>\n" + Components.Collect(reg, o.css, Components.Css) + "</style>\n")]
    ensures Components.Contributors(reg, Components.Js) != {} ==>
              script == [InjectHTML("<script>\n" + Components.Collect(reg, o.js, Components.Js) + "</script>\n")]
    ensures forall i :: 0 <= i < |o.sprites| ==> o.sprites[i] in Components.CollectIcons(reg, o.icons)
    ensures sprites == Sprites(Components.CollectIcons(reg, o.icons), o.sprites)
    ensures |sprites| == |Components.CollectIcons(reg, o.icons)|
    ensures pages == Pages(mods)
  {
    var icons := Components.CollectIcons(reg, o.icons);
    style := Block("<style>\n", Components.Collect(reg, o.css, Components.Css), "</style>\n");
    script := Block("<script>\n", Components.Collect(reg, o.js, Components.Js), "</script>\n");
    sprites := Sprites(icons, o.sprites);
    pages := Pages(mods);
    BlockOfCollect(reg, o.css, Components.Css, "<style>\n", "</style>\n");
    BlockOfCollect(reg, o.js, Components.Js, "<script>\n", "</script>\n");
    SetOfEnumeration(o.sprites, icons.Keys);
  }

  /** The injections are: a style block exactly when some component has
      CSS, then a script block exactly when some has JavaScript, then one
      sprite per collected icon id, then the HTML of the modules that show,
      in registration order. */
  lemma InjectionsShape(reg: Components.Registry, mods: seq<RegisteredModule>, o: Orders)
    requires ValidOrders(reg, o)
    ensures |o.sprites| == |Components.CollectIcons(reg, o.icons)|
    ensures |Injections(reg, mods, o)| == BlockCount(reg) + |o.sprites| + |Filter(mods, Shows)|
    ensures Components.Contributors(reg, Components.Css) != {} ==>
              Injections(reg, mods, o)[0]
              == InjectHTML("<style>\n" + Components.Collect(reg, o.css, Components.Css) + "</style>\n")
    ensures Components.Contributors(reg, Components.Js) != {} ==>
              Injections(reg, mods, o)[BlockCount(reg) - 1]
              == InjectHTML("<script>\n" + Components.Collect(reg, o.js, Components.Js) + "</script>\n")
    ensures Injections(reg, mods, o)[BlockCount(reg)..BlockCount(reg) + |o.sprites|]
            == Sprites(Components.CollectIcons(reg, o.icons), o.sprites)
    ensures Injections(reg, mods, o)[BlockCount(reg) + |o.sprites|..] == Pages(mods)
  {
    var style, script, sprites, pages := InjectionParts(reg, mods, o);
    PagesAreShownModules(mods);
    FourParts(style, script, sprites, pages);
    ThreeParts(Injections(reg, mods, o), style + script, sprites, pages);
  }

  /** The slices of three sequences written one after another. */
  lemma ThreeParts<T>(s: seq<T>, head: seq<T>, mid: seq<T>, tail: seq<T>)
    requires s == head + mid + tail
    ensures s[|head|..|head| + |mid|] == mid
    ensures s[|head| + |mid|..] == tail
  {
  }

  /** `ssrBuild`.  It always returns nil, leaves the discovered registry
      behind, and makes the calls `InjectionsShape` describes. */
  function SsrBuild(reg0: Components.Registry, mods: seq<RegisteredModule>, o: Orders): (r: Build)
    requires ValidOrders(Discover(reg0, mods), o)
    ensures r.status == Ok
    // The registry is what discovery leaves: the earlier entries and one
    // per newly discovered type.
    ensures r.registry == Discover(reg0, mods)
    ensures r.registry.Keys == reg0.Keys + Components.Tags(Discovered(mods))
    ensures forall t :: t in reg0 ==> r.registry[t] == reg0[t]
    ensures |o.sprites| == |Components.CollectIcons(r.registry, o.icons)|
    ensures |r.injections| == BlockCount(r.registry) + |o.sprites| + |Filter(mods, Shows)|
    // A style block comes first exactly when some component has CSS ...
    ensures Components.Contributors(r.registry, Components.Css) != {} ==>
              r.injections[0]
              == InjectHTML("<style>\n" + Components.Collect(r.registry, o.css, Components.Css) + "</style>\n")
    // ... then a script block exactly when some component has JavaScript ...
    ensures Components.Contributors(r.registry, Components.Js) != {} ==>
              r.injections[BlockCount(r.registry) - 1]
              == InjectHTML("<script>\n" + Components.Collect(r.registry, o.js, Components.Js) + "</script>\n")
    // ... then one sprite per collected icon id ...
    ensures r.injections[BlockCount(r.registry)..BlockCount(r.registry) + |o.sprites|]
            == Sprites(Components.CollectIcons(r.registry, o.icons), o.sprites)
    // ... then the pages: by `PagesAreShownModules`, the HTML of the
    // modules that show, in registration order.
    ensures r.injections[BlockCount(r.registry) + |o.sprites|..] == Pages(mods)
    ensures r.injections[|r.injections| - |Filter(mods, Shows)|..] == Pages(mods)
  {
    var reg := Discover(reg0, mods);
    InjectionsShape(reg, mods, o);
    Build(reg, Injections(reg, mods, o), Ok)
  }

  /** Whichever orders Go ranges over the maps in, a build registers the
      same components, makes the same number of calls, and injects the same
      pages last. */
  lemma BuildOrderIrrelevant(reg0: Components.Registry, mods: seq<RegisteredModule>, o1: Orders, o2: Orders)
    requires ValidOrders(Discover(reg0, mods), o1) && ValidOrders(Discover(reg0, mods), o2)
    ensures var r1 := SsrBuild(reg0, mods, o1);
            var r2 := SsrBuild(reg0, mods, o2);
            var n := |Filter(mods, Shows)|;
            && r1.registry == r2.registry
            && |r1.injections| == |r2.injections|
            && r1.injections[|r1.injections| - n..] == r2.injections[|r2.injections| - n..]
  {
    Components.IconCountOrderIrrelevant(Discover(reg0, mods), o1.icons, o2.icons);
  }

  /** The first module's page, if it shows, then the pages of the rest;
      likewise for the modules that show. */
  lemma PagesCons(mods: seq<RegisteredModule>)
    requires |mods| > 0
    ensures Shows(mods[0]) ==> Pages(mods) == [InjectHTML(mods[0].handler.html.value)] + Pages(mods[1..])
                               && Filter(mods, Shows) == [mods[0]] + Filter(mods[1..], Shows)
    ensures !Shows(mods[0]) ==> Pages(mods) == Pages(mods[1..]) && Filter(mods, Shows) == Filter(mods[1..], Shows)
  {
  }

  /** The module HTML injected is exactly the HTML of the modules that
      show, in registration order: the same as filtering the registry. */
  lemma {:induction false} PagesAreShownModules(mods: seq<RegisteredModule>)
    ensures |Pages(mods)| == |Filter(mods, Shows)|
    ensures forall k :: 0 <= k < |Filter(mods, Shows)| ==> Shows(Filter(mods, Shows)[k])
    ensures forall k :: 0 <= k < |Pages(mods)| ==> Pages(mods)[k] == InjectHTML(Filter(mods, Shows)[k].handler.html.value)
    decreases |mods|
  {
    if |mods| > 0 {
      PagesAreShownModules(mods[1..]);
      PagesCons(mods);
      var ps := Pages(mods);
      var fs := Filter(mods, Shows);
      var ps' := Pages(mods[1..]);
      var fs' := Filter(mods[1..], Shows);
      if Shows(mods[0]) {
        forall k | 0 <= k < |ps|
          ensures ps[k] == InjectHTML(fs[k].handler.html.value)
        {
          if k > 0 {
            assert ps[k] == ps'[k - 1] && fs[k] == fs'[k - 1];
          }
        }
      }
    }
  }

  /** A private module, an empty page or a handler that renders no HTML is
      never injected; every module that shows is. */
  lemma PagesOfModule(mods: seq<RegisteredModule>, i: nat)
    requires i < |mods|
    ensures Shows(mods[i]) ==> mods[i] in Filter(mods, Shows)
    ensures !Shows(mods[i]) ==> mods[i] !in Filter(mods, Shows)
  {
    if mods[i] in Filter(mods, Shows) {
      var k :| 0 <= k < |Filter(mods, Shows)| && Filter(mods, Shows)[k] == mods[i];
    }
  }

  /** An enumeration of a set is as long as the set is large. */
  lemma {:induction false} SetOfEnumeration(order: seq<string>, keys: set<string>)
    requires Enumerates(order, keys)
    ensures |order| == |keys|
    decreases |order|
  {
    if |order| > 0 {
      var rest := order[1..];
      assert Enumerates(rest, keys - {order[0]}) by {
        forall a, b | 0 <= a < b < |rest|
          ensures rest[a] != rest[b]
        {
          assert rest[a] == order[a + 1] && rest[b] == order[b + 1];
        }
        forall i | 0 <= i < |rest|
          ensures rest[i] in keys - {order[0]}
        {
          assert rest[i] == order[i + 1];
        }
        forall k | k in keys - {order[0]}
          ensures k in rest
        {
          var j :| 0 <= j < |order| && order[j] == k;
          assert rest[j - 1] == k;
        }
      }
      SetOfEnumeration(rest, keys - {order[0]});
    } else {
      assert forall k :: k in keys ==> k in order;
      assert keys == {};
    }
  }

  // --------------------------------------------------------------- scenario

  /** The registration test's three mock handlers. */
  function MockModules(): seq<RegisteredModule> {
    [Navigation.NavEntry, Navigation.PrivateEntry, Navigation.NoMarkerEntry]
  }

  /** Each mock renders HTML and tracks nothing, so discovery finds the
      three handlers themselves. */
  lemma MockDiscovered()
    ensures Discovered(MockModules())
            == [Some(Navigation.NavEntry.handler), Some(Navigation.PrivateEntry.handler),
                Some(Navigation.NoMarkerEntry.handler)]
  {
    var mods := MockModules();
    assert mods[1..] == [Navigation.PrivateEntry, Navigation.NoMarkerEntry];
    assert mods[1..][1..] == [Navigation.NoMarkerEntry];
    assert mods[1..][1..][1..] == [];
    assert Found(Navigation.NavEntry.handler) == [Some(Navigation.NavEntry.handler)];
    assert Found(Navigation.PrivateEntry.handler) == [Some(Navigation.PrivateEntry.handler)];
    assert Found(Navigation.NoMarkerEntry.handler) == [Some(Navigation.NoMarkerEntry.handler)];
  }

  /** The three mocks share one concrete type, so only the first is
      registered. */
  lemma MockDiscover()
    ensures Discover(map[], MockModules()) == map["*site.mockHandler" := Navigation.NavEntry.handler]
  {
    MockDiscovered();
    var cs := Discovered(MockModules());
    var tag := "*site.mockHandler";
    var reg := map[tag := Navigation.NavEntry.handler];
    assert Components.Register(map[], cs[0]) == reg;
    var cs1 := cs[1..];
    assert cs1[0].value.typeTag == tag && cs1[1..][0].value.typeTag == tag;
    assert cs1[1..][1..] == [];
    assert Components.RegisterAll(reg, cs1[1..]) == reg;
    assert Components.RegisterAll(reg, cs1) == reg;
  }

  /** The private mock is left out; the other two pages are injected in
      order. */
  lemma MockPages()
    ensures Pages(MockModules()) == [InjectHTML("<div>Nav</div>"), InjectHTML("<div>No marker</div>")]
  {
    var mods := MockModules();
    assert Shows(Navigation.NavEntry) && !Shows(Navigation.PrivateEntry) && Shows(Navigation.NoMarkerEntry);
    assert mods[1..] == [Navigation.PrivateEntry, Navigation.NoMarkerEntry];
    assert mods[1..][1..] == [Navigation.NoMarkerEntry];
    assert mods[1..][1..][1..] == [];
    assert Pages([Navigation.NoMarkerEntry]) == [InjectHTML("<div>No marker</div>")];
  }

  /** The registration test's build: one component registered, no style or
      script block since none has CSS or JavaScript, no icons, and the two
      public pages injected in order. */
  lemma RegistrationFlowBuild()
    ensures var o := Orders(["*site.mockHandler"], ["*site.mockHandler"], ["*site.mockHandler"], []);
            && ValidOrders(Discover(map[], MockModules()), o)
            && SsrBuild(map[], MockModules(), o)
               == Build(map["*site.mockHandler" := Navigation.NavEntry.handler],
                        [InjectHTML("<div>Nav</div>"), InjectHTML("<div>No marker</div>")], Ok)
  {
    var tag := "*site.mockHandler";
    var h := Navigation.NavEntry.handler;
    var reg := map[tag := h];
    MockDiscover();
    MockPages();
    var o := Orders([tag], [tag], [tag], []);
    assert Components.CollectIcons(reg, [tag]) == map[] by {
      assert [tag][..0] == [];
    }
    assert ValidOrders(reg, o);
    assert !Components.Contributes(h, Components.Css) && !Components.Contributes(h, Components.Js);
    assert Components.Contributors(reg, Components.Css) == {};
    assert Components.Contributors(reg, Components.Js) == {};
    PagesOnly(map[], MockModules(), o);
  }

  /** When no component brings CSS, JavaScript or icons, a build injects the
      pages and nothing else. */
  lemma PagesOnly(reg0: Components.Registry, mods: seq<RegisteredModule>, o: Orders)
    requires ValidOrders(Discover(reg0, mods), o)
    requires Components.Contributors(Discover(reg0, mods), Components.Css) == {}
    requires Components.Contributors(Discover(reg0, mods), Components.Js) == {}
    requires Components.CollectIcons(Discover(reg0, mods), o.icons) == map[]
    ensures SsrBuild(reg0, mods, o) == Build(Discover(reg0, mods), Pages(mods), Ok)
  {
    var r := SsrBuild(reg0, mods, o);
    assert BlockCount(r.registry) == 0 && |o.sprites| == 0;
    assert r.injections == r.injections[0..];
  }
}
