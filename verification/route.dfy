/** The route parser: a location hash such as `#users/123/edit` becomes a
    module name and the ordered list of its parameters.  Its Go body is not
    part of this model; what it must do is fixed by the test tables in
    verify_test.go and test/route_parsing_test.go, and the definition below
    is the simplest one meeting them: drop the `#`, drop one more leading `/`,
    split the rest on `/`. */
module Route {
  import opened Common

  /** `s` without one leading `c`, if it starts with one. */
  function StripLeading(s: string, c: char): (r: string)
    ensures s == (if |s| > 0 && s[0] == c then [c] + r else r)
  {
    if |s| > 0 && s[0] == c then s[1..] else s
  }

  /** The part of the hash that names the module and its parameters: the
      hash without its `#` fragment marker and then without one leading `/`,
      so that `#/users` reads as `#users`. */
  function RoutePath(hash: string): string {
    StripLeading(StripLeading(hash, '#'), '/')
  }

  datatype ParsedRoute = Route(moduleName: string, params: seq<string>)

  /** `parseRoute`: an empty path selects `defaultRoute` with no parameters;
      otherwise the first `/`-separated segment is the module and the
      remaining segments, empty ones included, are the parameters, in order. */
  function ParseRoute(hash: string, defaultRoute: string): (r: ParsedRoute)
    ensures RoutePath(hash) == "" ==> r == Route(defaultRoute, [])
    ensures RoutePath(hash) != "" ==>
              && '/' !in r.moduleName
              && (forall i :: 0 <= i < |r.params| ==> '/' !in r.params[i])
              && Join([r.moduleName] + r.params, '/') == RoutePath(hash)
  {
    var path := RoutePath(hash);
    if path == "" then Route(defaultRoute, [])
    else
      var segs := Split(path, '/');
      assert segs == [segs[0]] + segs[1..];
      Route(segs[0], segs[1..])
  }

  /** The hash the router writes for a module and its parameters. */
  function RouteHash(moduleName: string, params: seq<string>): string {
    "#" + Join([moduleName] + params, '/')
  }

  /** Parsing inverts writing: for a non-empty module name and segments that
      contain no `/`, both `#m/p…` and `#/m/p…` parse back to the same
      module and parameters, whatever the default route. */
  lemma {:induction false} ParseRouteInvertsRouteHash(moduleName: string, params: seq<string>, defaultRoute: string)
    requires moduleName != "" && '/' !in moduleName
    requires forall i :: 0 <= i < |params| ==> '/' !in params[i]
    ensures ParseRoute(RouteHash(moduleName, params), defaultRoute) == Route(moduleName, params)
    ensures ParseRoute("#/" + Join([moduleName] + params, '/'), defaultRoute) == Route(moduleName, params)
  {
    var segs := [moduleName] + params;
    var path := Join(segs, '/');
    assert forall i :: 0 <= i < |segs| ==> '/' !in segs[i] by {
      forall i | 0 <= i < |segs|
        ensures '/' !in segs[i]
      {
        if i > 0 {
          assert segs[i] == params[i - 1];
        }
      }
    }
    assert |path| > 0 && path[0] == moduleName[0] by {
      JoinStartsWithFirst(segs, '/');
    }
    assert RoutePath(RouteHash(moduleName, params)) == path by {
      assert ("#" + path)[1..] == path;
    }
    assert RoutePath("#/" + path) == path by {
      assert ("#/" + path)[1..] == "/" + path;
      assert ("/" + path)[1..] == path;
    }
    SplitJoin(segs, '/');
    assert segs[1..] == params;
  }

  /** A joined route begins with its first segment. */
  lemma {:induction false} JoinStartsWithFirst(segs: seq<string>, sep: char)
    requires |segs| >= 1
    ensures IsPrefix(segs[0], Join(segs, sep))
  {
    if |segs| > 1 {
      assert Join(segs, sep) == segs[0] + ([sep] + Join(segs[1..], sep));
    }
  }

  // ---------------------------------------------- the tabled test vectors

  /** `#m` parses to module `m` with no parameters. */
  lemma ModuleHash(m: string, hash: string, defaultRoute: string)
    requires m != "" && '/' !in m && hash == "#" + m
    ensures ParseRoute(hash, defaultRoute) == Route(m, [])
  {
    ParseRouteInvertsRouteHash(m, [], defaultRoute);
    assert [m] + [] == [m];
    assert RouteHash(m, []) == hash;
  }

  /** `#m/p` parses to module `m` with the single parameter `p`. */
  lemma ParamHash(m: string, p: string, hash: string, defaultRoute: string)
    requires m != "" && '/' !in m && '/' !in p && hash == "#" + (m + "/" + p)
    ensures ParseRoute(hash, defaultRoute) == Route(m, [p])
  {
    ParseRouteInvertsRouteHash(m, [p], defaultRoute);
    var segs := [m] + [p];
    assert segs[1..] == [p];
    assert Join(segs, '/') == m + "/" + p;
    assert RouteHash(m, [p]) == hash;
  }

  /** `""` and `"#"` select the configured default module, whatever it is,
      with no parameters. */
  lemma EmptyRoutesUseDefault(defaultRoute: string)
    ensures ParseRoute("", defaultRoute) == Route(defaultRoute, [])
    ensures ParseRoute("#", defaultRoute) == Route(defaultRoute, [])
  {
    assert RoutePath("#") == "";
  }

  /** A bare module name parses to that module with no parameters. */
  lemma ModuleOnlyRoute()
    ensures ParseRoute("#users", "home") == Route("users", [])
  {
    ModuleHash("users", "#users", "home");
  }

  /** A single parameter follows the module. */
  lemma OneParamRoute()
    ensures ParseRoute("#users/123", "home") == Route("users", ["123"])
  {
    ParamHash("users", "123", "#users/123", "home");
  }

  /** Several parameters follow the module in their order. */
  lemma TwoParamRoute()
    ensures ParseRoute("#users/123/edit", "home") == Route("users", ["123", "edit"])
  {
    ParseRouteInvertsRouteHash("users", ["123", "edit"], "home");
    TwoParamHash();
  }

  lemma TwoParamHash()
    ensures RouteHash("users", ["123", "edit"]) == "#users/123/edit"
  {
    var segs := ["users"] + ["123", "edit"];
    assert segs[1..] == ["123", "edit"];
    assert segs[1..][1..] == ["edit"];
    assert Join(segs[1..][1..], '/') == "edit";
    assert Join(segs[1..], '/') == "123" + "/" + "edit";
    assert Join(segs, '/') == "users" + "/" + ("123" + "/" + "edit");
  }

  /** One leading slash after the `#` is ignored. */
  lemma LeadingSlashRoute()
    ensures ParseRoute("#/users", "home") == Route("users", [])
  {
    SlashModuleHash("users", "#/users", "home");
  }

  /** `#/m` parses like `#m`. */
  lemma SlashModuleHash(m: string, hash: string, defaultRoute: string)
    requires m != "" && '/' !in m && hash == "#/" + m
    ensures ParseRoute(hash, defaultRoute) == Route(m, [])
  {
    ParseRouteInvertsRouteHash(m, [], defaultRoute);
    assert [m] + [] == [m];
    assert Join([m], '/') == m;
  }

  // ------------------------------------- beyond the tabled test vectors

  /** An empty trailing segment is kept as an empty parameter.  No test
      fixes this case; it follows from the definition chosen above. */
  lemma TrailingSlashKeepsEmptyParam()
    ensures ParseRoute("#users/", "home") == Route("users", [""])
  {
    ParamHash("users", "", "#users/", "home");
  }
}
