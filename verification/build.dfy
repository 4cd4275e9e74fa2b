/** The legacy asset build of build.go: the navigation menu and the main
    container are injected into the page body, then, module by module, its
    CSS, its icons, and its HTML when the module is public and its first
    line carries the word "module". */
module LegacyBuild {
  import opened Common
  import opened Handlers
  import Navigation

  // ------------------------------------------------------------ first line

  /** The text before the first newline, or all of `html` without one. */
  function FirstLine(html: string): (r: string)
    ensures IsPrefix(r, html)
    ensures '\n' !in r
    ensures |r| < |html| ==> html[|r|] == '\n'
  {
    if '\n' in html then html[..IndexOfChar(html, '\n')] else html
  }

  /** `hasModuleInFirstLine`: the lower-cased first line contains "module". */
  function HasModuleInFirstLine(html: string): bool {
    Contains(Lower(FirstLine(html)), "module")
  }

  /** The marker check holds exactly when "module", in any letter case,
      starts at some index with no newline before its end. */
  lemma MarkerBeforeNewline(html: string)
    ensures HasModuleInFirstLine(html)
            <==> exists i :: OccursAt(Lower(html), "module", i) && '\n' !in html[..i + 6]
  {
    var fl := FirstLine(html);
    var n := |fl|;
    assert Lower(fl) == Lower(html)[..n];
    if HasModuleInFirstLine(html) {
      var i :| OccursAt(Lower(fl), "module", i);
      assert Lower(html)[i..i + 6] == Lower(fl)[i..i + 6];
      assert html[..i + 6] == fl[..i + 6];
      assert OccursAt(Lower(html), "module", i) && '\n' !in html[..i + 6];
    }
    if exists i :: OccursAt(Lower(html), "module", i) && '\n' !in html[..i + 6] {
      var i :| OccursAt(Lower(html), "module", i) && '\n' !in html[..i + 6];
      assert forall j :: 0 <= j < i + 6 ==> html[..i + 6][j] == html[j];
      assert n < |html| ==> i + 6 <= n;
      assert Lower(fl)[i..i + 6] == Lower(html)[i..i + 6];
      assert OccursAt(Lower(fl), "module", i);
    }
  }

  /** Text without the letter u, in either case, has no marker. */
  lemma NoLetterUNoMarker(html: string)
    requires 'u' !in html && 'U' !in html
    ensures !HasModuleInFirstLine(html)
  {
    var fl := FirstLine(html);
    var low := Lower(fl);
    assert forall j :: 0 <= j < |fl| ==> fl[j] in html;
    assert forall j :: 0 <= j < |low| ==> low[j] != 'u';
    assert forall i :: OccursAt(low, "module", i) ==> low[i..i + 6][3] == low[i + 3];
  }

  /** A page that starts with "module", in any letter case, carries the
      marker. */
  lemma MarkerAtStart(html: string)
    requires |html| >= 6 && Lower(html[..6]) == "module"
    ensures HasModuleInFirstLine(html)
  {
    var fl := FirstLine(html);
    assert forall j :: 0 <= j < 6 ==> LowerChar(html[j]) == Lower(html[..6])[j];
    assert forall j :: 0 <= j < 6 ==> html[j] != '\n';
    assert |fl| >= 6;
    var low := Lower(fl);
    assert low[..6] == Lower(html[..6]) by {
      assert fl[..6] == html[..6];
    }
    assert OccursAt(low, "module", 0);
  }

  /** A page whose first line is exactly "module" carries the marker. */
  lemma MarkedPage()
    ensures HasModuleInFirstLine("module\n<nav>Nav</nav>")
  {
    var s := "module\n<nav>Nav</nav>";
    assert s[..6] == "module";
    assert Lower("module") == "module";
    MarkerAtStart(s);
  }

  /** The marker is recognised in any letter case. */
  lemma CapitalisedMarker()
    ensures HasModuleInFirstLine("Module")
  {
    assert "Module"[..6] == "Module";
    assert Lower("Module") == "module";
    MarkerAtStart("Module");
  }

  /** The site test's unmarked page and the empty page carry no marker. */
  lemma UnmarkedPages()
    ensures !HasModuleInFirstLine("<div>No marker</div>")
    ensures !HasModuleInFirstLine("")
  {
    NoLetterUNoMarker("<div>No marker</div>");
    NoLetterUNoMarker("");
  }

  // ------------------------------------------------------------ per module

  /** A key of an icon map, or Go's zero value "" when it is absent. */
  function Field(icon: map<string, string>, key: string): string {
    if key in icon then icon[key] else ""
  }

  /** The CSS call for one module: `AddCSS(name, css)` when it renders
      non-empty CSS. */
  function CssCalls(m: RegisteredModule): (r: seq<Injection>)
    ensures r != [] <==> m.handler.css.Some? && m.handler.css.value != ""
    ensures r != [] ==> r == [AddCSS(m.name, m.handler.css.value)]
  {
    if m.handler.css.Some? && m.handler.css.value != "" then [AddCSS(m.name, m.handler.css.value)] else []
  }

  /** One `AddIcon(id, svg)` per element of the icon list, in list order. */
  function IconCalls(icons: seq<map<string, string>>): (r: seq<Injection>)
    ensures |r| == |icons|
    ensures forall i :: 0 <= i < |icons| ==> r[i] == AddIcon(Field(icons[i], "id"), Field(icons[i], "svg"))
    decreases |icons|
  {
    if |icons| == 0 then [] else [AddIcon(Field(icons[0], "id"), Field(icons[0], "svg"))] + IconCalls(icons[1..])
  }

  /** A module whose HTML is injected: it renders HTML, is public, and the
      HTML is non-empty and carries the marker on its first line. */
  predicate ShowsPage(m: RegisteredModule) {
    && m.handler.html.Some? && Navigation.IsPublicReadable(m.handler)
    && m.handler.html.value != "" && HasModuleInFirstLine(m.handler.html.value)
  }

  /** Everything the loop injects for one module: its CSS, its icons, then
      its page; `ModuleCssFirst` and `ModulePageLast` state what that
      sequence holds. */
  function ModuleCalls(m: RegisteredModule): seq<Injection> {
    var icons := if m.handler.iconList.Some? then IconCalls(m.handler.iconList.value) else [];
    CssCalls(m) + icons + (if ShowsPage(m) then [InjectBodyContent(m.handler.html.value)] else [])
  }

  /** A module's calls start with its CSS exactly when it renders non-empty
      CSS. */
  lemma ModuleCssFirst(m: RegisteredModule)
    ensures var r := ModuleCalls(m);
            (m.handler.css.Some? && m.handler.css.value != "") <==> |r| > 0 && r[0].AddCSS?
    ensures var r := ModuleCalls(m);
            m.handler.css.Some? && m.handler.css.value != "" ==> r[0] == AddCSS(m.name, m.handler.css.value)
  {
    var css := CssCalls(m);
    var icons := if m.handler.iconList.Some? then IconCalls(m.handler.iconList.value) else [];
    var page := if ShowsPage(m) then [InjectBodyContent(m.handler.html.value)] else [];
    var r := ModuleCalls(m);
    assert r == css + (icons + page);
    if css == [] && |r| > 0 {
      assert r[0] == (icons + page)[0];
      if icons != [] {
        assert r[0] == icons[0];
      }
    }
  }

  /** A module's calls end with its page exactly when it shows it, and
      inject nothing into the body before that last call. */
  lemma ModulePageLast(m: RegisteredModule)
    ensures var r := ModuleCalls(m);
            ShowsPage(m) <==> |r| > 0 && r[|r| - 1].InjectBodyContent?
    ensures var r := ModuleCalls(m);
            ShowsPage(m) ==> r[|r| - 1] == InjectBodyContent(m.handler.html.value)
    ensures var r := ModuleCalls(m);
            forall k :: 0 <= k < |r| - 1 ==> !r[k].InjectBodyContent?
  {
    var icons := if m.handler.iconList.Some? then IconCalls(m.handler.iconList.value) else [];
    var page := if ShowsPage(m) then [InjectBodyContent(m.handler.html.value)] else [];
    assert forall k :: 0 <= k < |icons| ==> icons[k].AddIcon?;
    NoBodyBefore(CssCalls(m), icons, page);
  }

  /** CSS calls, then icon calls, then at most one page: only the last call
      can inject into the body. */
  lemma NoBodyBefore(css: seq<Injection>, icons: seq<Injection>, page: seq<Injection>)
    requires |css| <= 1 && (css != [] ==> css[0].AddCSS?)
    requires forall k :: 0 <= k < |icons| ==> icons[k].AddIcon?
    requires |page| <= 1 && (page != [] ==> page[0].InjectBodyContent?)
    ensures var r := css + icons + page;
            page != [] <==> |r| > 0 && r[|r| - 1].InjectBodyContent?
    ensures var r := css + icons + page;
            page != [] ==> r[|r| - 1] == page[0]
    ensures var r := css + icons + page;
            forall k :: 0 <= k < |r| - 1 ==> !r[k].InjectBodyContent?
  {
    var head := css + icons;
    var r := head + page;
    forall k | 0 <= k < |head|
      ensures !head[k].InjectBodyContent?
    {
      if k >= |css| {
        assert head[k] == icons[k - |css|];
      }
    }
    forall k | 0 <= k < |r| - 1
      ensures !r[k].InjectBodyContent?
    {
      assert r[k] == head[k];
    }
    if page == [] && |r| > 0 {
      assert r[|r| - 1] == head[|head| - 1];
    }
  }

  /** The calls of the loop over the registry, in registration order. */
  function LoopCalls(reg: seq<RegisteredModule>): seq<Injection>
    decreases |reg|
  {
    if |reg| == 0 then [] else ModuleCalls(reg[0]) + LoopCalls(reg[1..])
  }

  // ----------------------------------------------------------------- build

  const AppContainer: string := "<div id=\"app\"></div>"
  const NoPublicModules: string := "site: modules registered but no public modules for navigation"

  /** What a build leaves behind: the calls into the asset pipeline in call
      order, and the returned `error`. */
  datatype Assets = Assets(injections: seq<Injection>, status: Status)

  /** `Build`.  An empty registry builds nothing; a registry with no module
      in the menu fails before injecting anything; otherwise the menu and
      the main container come first, then each module's calls. */
  ghost function Build(reg: seq<RegisteredModule>): (r: Assets)
    ensures reg == [] ==> r == Assets([], Ok)
    ensures r.status == Ok <==> reg == [] || exists i :: 0 <= i < |reg| && Navigation.Listed(reg[i])
    ensures r.status != Ok ==> r == Assets([], Error(NoPublicModules))
    ensures reg != [] && r.status == Ok ==>
              r.injections == [InjectBodyContent(Navigation.RenderNavigation(reg)), InjectBodyContent(AppContainer)]
                              + LoopCalls(reg)
  {
    if |reg| == 0 then Assets([], Ok)
    else
      var nav := Navigation.RenderNavigation(reg);
      if nav == "" then Assets([], Error(NoPublicModules))
      else Assets([InjectBodyContent(nav), InjectBodyContent(AppContainer)] + LoopCalls(reg), Ok)
  }

  /** The menu is injected first on every successful non-empty build, and
      it is never empty there. */
  lemma MenuFirst(reg: seq<RegisteredModule>)
    requires reg != [] && Build(reg).status == Ok
    ensures |Build(reg).injections| >= 2
    ensures Build(reg).injections[0] == InjectBodyContent(Navigation.RenderNavigation(reg))
    ensures Navigation.RenderNavigation(reg) != ""
    ensures Build(reg).injections[1] == InjectBodyContent(AppContainer)
  {
  }

  // ---------------------------------------------------------- loop calls

  /** The loop's calls for two registries are those of the first, then
      those of the second. */
  lemma {:induction false} LoopCallsAppend(a: seq<RegisteredModule>, b: seq<RegisteredModule>)
    ensures LoopCalls(a + b) == LoopCalls(a) + LoopCalls(b)
    decreases |a|
  {
    if |a| > 0 {
      assert (a + b)[0] == a[0] && (a + b)[1..] == a[1..] + b;
      LoopCallsAppend(a[1..], b);
      assert LoopCalls(a + b) == ModuleCalls(a[0]) + (LoopCalls(a[1..]) + LoopCalls(b));
    } else {
      assert a + b == b;
    }
  }

  /** Every module's calls appear, in one contiguous run, after the calls of
      the modules registered before it. */
  lemma ModuleCallsAppear(reg: seq<RegisteredModule>, i: nat)
    requires i < |reg|
    ensures var k := |LoopCalls(reg[..i])|;
            k + |ModuleCalls(reg[i])| <= |LoopCalls(reg)|
            && LoopCalls(reg)[k..k + |ModuleCalls(reg[i])|] == ModuleCalls(reg[i])
  {
    assert reg == reg[..i] + ([reg[i]] + reg[i + 1..]);
    LoopCallsAppend(reg[..i], [reg[i]] + reg[i + 1..]);
    assert LoopCalls([reg[i]] + reg[i + 1..]) == ModuleCalls(reg[i]) + LoopCalls(reg[i + 1..]) by {
      assert ([reg[i]] + reg[i + 1..])[1..] == reg[i + 1..];
    }
  }

  /** A page the loop injects is the HTML of a module that shows it, and CSS
      it adds is the non-empty CSS of a module under that module's name. */
  lemma {:induction false} LoopCallsSound(reg: seq<RegisteredModule>)
    ensures forall x :: x in LoopCalls(reg) && x.InjectBodyContent? ==>
              exists i :: 0 <= i < |reg| && ShowsPage(reg[i]) && x.content == reg[i].handler.html.value
    ensures forall x :: x in LoopCalls(reg) && x.AddCSS? ==>
              exists i :: 0 <= i < |reg| && reg[i].name == x.moduleName && reg[i].handler.css == Some(x.css)
                          && x.css != ""
    decreases |reg|
  {
    if |reg| > 0 {
      LoopCallsSound(reg[1..]);
      var m := reg[0];
      var icons := if m.handler.iconList.Some? then IconCalls(m.handler.iconList.value) else [];
      forall x | x in LoopCalls(reg)
        ensures x.InjectBodyContent? ==>
                  exists i :: 0 <= i < |reg| && ShowsPage(reg[i]) && x.content == reg[i].handler.html.value
        ensures x.AddCSS? ==>
                  exists i :: 0 <= i < |reg| && reg[i].name == x.moduleName && reg[i].handler.css == Some(x.css)
                              && x.css != ""
      {
        if x in ModuleCalls(m) {
          assert x !in icons ==> x in CssCalls(m) || (ShowsPage(m) && x == InjectBodyContent(m.handler.html.value));
          if x in icons {
            var j :| 0 <= j < |icons| && icons[j] == x;
          }
          assert reg[0] == m;
        } else {
          assert x in LoopCalls(reg[1..]);
          if x.InjectBodyContent? {
            var i :| 0 <= i < |reg[1..]| && ShowsPage(reg[1..][i]) && x.content == reg[1..][i].handler.html.value;
            assert reg[i + 1] == reg[1..][i];
          }
          if x.AddCSS? {
            var i :| 0 <= i < |reg[1..]| && reg[1..][i].name == x.moduleName && reg[1..][i].handler.css == Some(x.css)
                     && x.css != "";
            assert reg[i + 1] == reg[1..][i];
          }
        }
      }
    }
  }

  /** The loop injects the HTML of every module that shows it. */
  lemma {:induction false} LoopPage(reg: seq<RegisteredModule>, i: nat)
    requires i < |reg| && ShowsPage(reg[i])
    ensures InjectBodyContent(reg[i].handler.html.value) in LoopCalls(reg)
    decreases i
  {
    var x := InjectBodyContent(reg[i].handler.html.value);
    var mc := ModuleCalls(reg[0]);
    var rest := LoopCalls(reg[1..]);
    assert LoopCalls(reg) == mc + rest;
    if i == 0 {
      assert mc[|mc| - 1] == x;
      InConcat(mc, rest, x);
    } else {
      assert reg[1..][i - 1] == reg[i];
      LoopPage(reg[1..], i - 1);
      InConcat(mc, rest, x);
    }
  }

  /** After the menu and the container come the loop's calls. */
  lemma LoopAfterMenu(reg: seq<RegisteredModule>)
    requires Build(reg).status == Ok
    ensures reg != [] ==> |Build(reg).injections| >= 2 && Build(reg).injections[2..] == LoopCalls(reg)
  {
    if reg != [] {
      var inj := Build(reg).injections;
      assert inj[2..] == LoopCalls(reg);
    }
  }

  /** An element of a suffix is an element of the sequence. */
  lemma InTail<T>(s: seq<T>, k: nat, x: T)
    requires k <= |s| && x in s[k..]
    ensures x in s
  {
    var j :| 0 <= j < |s[k..]| && s[k..][j] == x;
    assert s[k + j] == x;
  }

  /** The HTML of every module that shows it is injected by a successful
      build. */
  lemma PageInjected(reg: seq<RegisteredModule>, i: nat)
    requires i < |reg| && Build(reg).status == Ok
    ensures ShowsPage(reg[i]) ==> InjectBodyContent(reg[i].handler.html.value) in Build(reg).injections
  {
    if ShowsPage(reg[i]) {
      LoopPage(reg, i);
      LoopAfterMenu(reg);
      InTail(Build(reg).injections, 2, InjectBodyContent(reg[i].handler.html.value));
    }
  }

  /** Nothing reaches the page body besides the menu, the main container
      and the HTML of modules that show it. */
  lemma OnlyPagesInjected(reg: seq<RegisteredModule>)
    requires Build(reg).status == Ok
    ensures forall k :: 2 <= k < |Build(reg).injections| && Build(reg).injections[k].InjectBodyContent? ==>
              exists j :: 0 <= j < |reg| && ShowsPage(reg[j]) && Build(reg).injections[k].content == reg[j].handler.html.value
  {
    var inj := Build(reg).injections;
    if reg != [] {
      var loop := LoopCalls(reg);
      LoopCallsSound(reg);
      forall k | 2 <= k < |inj| && inj[k].InjectBodyContent?
        ensures exists j :: 0 <= j < |reg| && ShowsPage(reg[j]) && inj[k].content == reg[j].handler.html.value
      {
        assert inj[k] == loop[k - 2];
        assert loop[k - 2] in loop;
      }
    }
  }

  // ------------------------------------------------------------- scenarios

  /** The mock handler of the site test: the navigation mock with CSS. */
  function CssMock(name: string, html: string, css: string, public: bool): (h: Handler)
    ensures Navigation.IsPublicReadable(h) <==> public
    ensures h.html == Some(html) && h.css == Some(css) && h.iconList.None?
  {
    Navigation.Mock(name, html, public).(css := Some(css))
  }

  /** Two modules of one Go type each get their own CSS call: the legacy
      build does not deduplicate by type. */
  lemma NoTypeDedup(h: Handler, a: string, b: string)
    requires h.css.Some? && h.css.value != "" && h.iconList.None? && h.html.None?
    ensures LoopCalls([RegisteredModule(h, a), RegisteredModule(h, b)])
            == [AddCSS(a, h.css.value), AddCSS(b, h.css.value)]
  {
    var reg := [RegisteredModule(h, a), RegisteredModule(h, b)];
    assert ModuleCalls(reg[0]) == [AddCSS(a, h.css.value)];
    assert ModuleCalls(reg[1]) == [AddCSS(b, h.css.value)];
    assert reg[1..] == [RegisteredModule(h, b)] && reg[1..][1..] == [];
    assert LoopCalls(reg[1..]) == [AddCSS(b, h.css.value)];
  }

  /** The validation test: a single private module with no HTML makes the
      build fail with the no-public-modules error. */
  lemma ValidationFails()
    ensures Build([RegisteredModule(CssMock("private", "", "", false), "private")]) == Assets([], Error(NoPublicModules))
  {
    var reg := [RegisteredModule(CssMock("private", "", "", false), "private")];
    assert !Navigation.Listed(reg[0]);
  }

  /** A registry whose only public module is named "help" has an empty
      menu, so its build fails as well. */
  lemma HelpOnlyFails(h: Handler)
    requires Navigation.IsPublicReadable(h)
    ensures Build([RegisteredModule(h, "help")]).status == Error(NoPublicModules)
  {
    var reg := [RegisteredModule(h, "help")];
    assert !Navigation.Listed(reg[0]);
  }

  /** The site test's three mock modules. */
  function SiteMocks(): seq<RegisteredModule> {
    [RegisteredModule(CssMock("nav-module", "module\n<nav>Nav</nav>", ".nav { color: red; }", true), "nav-module"),
     RegisteredModule(CssMock("private-module", "module\n<div>Private</div>", "", false), "private-module"),
     RegisteredModule(CssMock("no-marker-module", "<div>No marker</div>", "", true), "no-marker-module")]
  }

  /** A module without icons that has CSS and shows its page adds the CSS,
      then injects the page. */
  lemma PageWithCss(m: RegisteredModule)
    requires ShowsPage(m) && m.handler.css.Some? && m.handler.css.value != "" && m.handler.iconList.None?
    ensures ModuleCalls(m) == [AddCSS(m.name, m.handler.css.value), InjectBodyContent(m.handler.html.value)]
  {
  }

  /** The first mock: public with a marked page and CSS. */
  lemma FirstMockCalls()
    ensures ModuleCalls(SiteMocks()[0])
            == [AddCSS("nav-module", ".nav { color: red; }"), InjectBodyContent("module\n<nav>Nav</nav>")]
  {
    MarkedPage();
    var h := CssMock("nav-module", "module\n<nav>Nav</nav>", ".nav { color: red; }", true);
    var m := RegisteredModule(h, "nav-module");
    assert SiteMocks()[0] == m;
    assert h.html == Some("module\n<nav>Nav</nav>") && Navigation.IsPublicReadable(h);
    assert |h.html.value| > 0;
    assert ShowsPage(m);
    assert |h.css.value| > 0;
    PageWithCss(m);
  }

  /** The private mock and the unmarked page contribute nothing. */
  lemma OtherMocksCalls()
    ensures ModuleCalls(SiteMocks()[1]) == [] && ModuleCalls(SiteMocks()[2]) == []
  {
    UnmarkedPages();
    var m1 := SiteMocks()[1];
    var m2 := SiteMocks()[2];
    assert !Navigation.IsPublicReadable(m1.handler);
    assert !ShowsPage(m1) && !ShowsPage(m2);
    assert CssCalls(m1) == [] && CssCalls(m2) == [];
  }

  /** The loop adds the first mock's CSS and injects its page; the private
      module and the unmarked page contribute nothing. */
  lemma SiteMocksLoop()
    ensures LoopCalls(SiteMocks())
            == [AddCSS("nav-module", ".nav { color: red; }"), InjectBodyContent("module\n<nav>Nav</nav>")]
  {
    var reg := SiteMocks();
    FirstMockCalls();
    OtherMocksCalls();
    assert reg[1..] == [reg[1], reg[2]] && reg[1..][1..] == [reg[2]] && reg[1..][1..][1..] == [];
    assert LoopCalls(reg[1..][1..]) == [];
    assert LoopCalls(reg[1..]) == [];
  }

  /** The site test: the build succeeds with the menu, the container, the
      first module's CSS and its page, in that order. */
  lemma RegistrationFlowLegacy()
    ensures Build(SiteMocks())
            == Assets([InjectBodyContent(Navigation.RenderNavigation(SiteMocks())), InjectBodyContent(AppContainer),
                       AddCSS("nav-module", ".nav { color: red; }"), InjectBodyContent("module\n<nav>Nav</nav>")], Ok)
  {
    var reg := SiteMocks();
    assert Navigation.Listed(reg[0]) by {
      assert reg[0].name == "nav-module" && reg[0].name[0] != "help"[0];
    }
    SiteMocksLoop();
    BuildWithCalls(reg, 0, AddCSS("nav-module", ".nav { color: red; }"), InjectBodyContent("module\n<nav>Nav</nav>"));
  }

  /** A registry with a module in the menu whose loop makes two calls
      builds into the menu, the container and those calls. */
  lemma BuildWithCalls(reg: seq<RegisteredModule>, i: nat, c0: Injection, c1: Injection)
    requires i < |reg| && Navigation.Listed(reg[i]) && LoopCalls(reg) == [c0, c1]
    ensures Build(reg) == Assets([InjectBodyContent(Navigation.RenderNavigation(reg)), InjectBodyContent(AppContainer), c0, c1], Ok)
  {
    var menu, container := InjectBodyContent(Navigation.RenderNavigation(reg)), InjectBodyContent(AppContainer);
    assert [menu, container] + [c0, c1] == [menu, container, c0, c1];
    BuildSucceeds(reg, i);
  }

  /** A registry with some module in the menu builds successfully. */
  lemma BuildSucceeds(reg: seq<RegisteredModule>, i: nat)
    requires i < |reg| && Navigation.Listed(reg[i])
    ensures Build(reg) == Assets([InjectBodyContent(Navigation.RenderNavigation(reg)), InjectBodyContent(AppContainer)]
                                 + LoopCalls(reg), Ok)
  {
  }
}
