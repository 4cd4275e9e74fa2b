/** The navigation menu of navigation.go: one link per registered module
    that anyone may read, except the help module, wrapped in a `<nav><ul>`
    block that is written only when there is at least one link. */
module Navigation {
  import opened Common
  import opened Handlers

  /** The `for _, r := range AllowedRoles('r')` scan for the wildcard role. */
  function HasWildcard(roles: seq<char>): (r: bool)
    ensures r <==> '*' in roles
    decreases |roles|
  {
    if |roles| == 0 then false
    else if roles[0] == '*' then true
    else
      assert roles == [roles[0]] + roles[1..];
      HasWildcard(roles[1..])
  }

  /** `isPublicReadable`: the handler declares its read roles and `'*'` is
      among them; a handler without `AllowedRoles` is not public. */
  function IsPublicReadable(h: Handler): (r: bool)
    ensures r <==> h.readRoles.Some? && '*' in h.readRoles.value
  {
    h.readRoles.Some? && HasWildcard(h.readRoles.value)
  }

  /** An entry gets a menu link: public, and not the help module. */
  predicate Listed(e: RegisteredModule) {
    IsPublicReadable(e.handler) && e.name != "help"
  }

  /** The link text: the handler's `Title()` when it has one, else the entry
      name. */
  function DisplayName(e: RegisteredModule): (r: string)
    ensures e.handler.title.None? ==> r == e.name
    ensures e.handler.title.Some? ==> r == e.handler.title.value
  {
    e.handler.title.GetOr(e.name)
  }

  /** The key the first step of `range IconSvg()` yields: some key of the
      map, which one being up to the Go runtime; `""` for a handler without
      icons. */
  ghost function IconId(h: Handler): (id: string)
    ensures h.iconSvg.Some? && |h.iconSvg.value| > 0 ==> id in h.iconSvg.value
    ensures h.iconSvg.None? || |h.iconSvg.value| == 0 ==> id == ""
  {
    if h.iconSvg.Some? && |h.iconSvg.value| > 0 then var k :| k in h.iconSvg.value; k else ""
  }

  const Header: string := "<nav><ul>\n"
  const Footer: string := "</ul></nav>\n"

  /** The icon reference written before the link text. */
  function IconRef(id: string): string {
    if id == "" then "" else "<svg><use href='#" + id + "'></use></svg> "
  }

  /** One menu line. */
  ghost function Item(e: RegisteredModule): string {
    Concat(["<li><a href='#", e.name, "' id='nav-", e.name, "'>", IconRef(IconId(e.handler)), DisplayName(e),
            "</a></li>\n"])
  }

  /** The registry loop: `count` links written so far, `html` the output so
      far; the header goes out with the first link. */
  ghost function Scan(reg: seq<RegisteredModule>, count: nat, html: string): (nat, string)
    decreases |reg|
  {
    if |reg| == 0 then (count, html)
    else if !Listed(reg[0]) then Scan(reg[1..], count, html)
    else Scan(reg[1..], count + 1, html + (if count == 0 then Header else "") + Item(reg[0]))
  }

  /** The entries that get links, in registration order. */
  function Public(reg: seq<RegisteredModule>): (r: seq<RegisteredModule>)
    ensures forall i :: 0 <= i < |r| ==> Listed(r[i])
  {
    Filter(reg, Listed)
  }

  /** The menu lines of a list of entries, in order. */
  ghost function Lines(es: seq<RegisteredModule>): (r: seq<string>)
    ensures |r| == |es|
    decreases |es|
  {
    if |es| == 0 then [] else [Item(es[0])] + Lines(es[1..])
  }

  /** The `j`th line is the line of the `j`th entry. */
  lemma {:induction false} LinesAt(es: seq<RegisteredModule>, j: nat)
    requires j < |es|
    ensures Lines(es)[j] == Item(es[j])
    decreases |es|
  {
    if j > 0 {
      LinesAt(es[1..], j - 1);
    }
  }

  /** The menu lines of a list of entries, written one after another. */
  ghost function Items(es: seq<RegisteredModule>): string {
    Concat(Lines(es))
  }

  /** `renderNavigation`: the empty string when no entry gets a link;
      otherwise the header, one line per linked entry in registration order,
      and the footer. */
  ghost function RenderNavigation(reg: seq<RegisteredModule>): (nav: string)
    ensures nav == "" <==> forall i :: 0 <= i < |reg| ==> !Listed(reg[i])
    ensures nav != "" ==> nav == Header + Items(Public(reg)) + Footer
  {
    var (count, html) := Scan(reg, 0, "");
    ScanWrites(reg, 0, "");
    NoneListed(reg);
    if count > 0 then html + Footer else html
  }

  /** Nothing is public exactly when the filter keeps nothing. */
  lemma NoneListed(reg: seq<RegisteredModule>)
    ensures Public(reg) == [] <==> forall i :: 0 <= i < |reg| ==> !Listed(reg[i])
  {
    if Public(reg) != [] {
      assert Public(reg)[0] in reg;
    }
  }

  /** The loop adds one link per public entry and writes the header once,
      before the first. */
  lemma {:induction false} ScanWrites(reg: seq<RegisteredModule>, count: nat, html: string)
    ensures Scan(reg, count, html).0 == count + |Public(reg)|
    ensures Scan(reg, count, html).1
            == html + (if count == 0 && |Public(reg)| > 0 then Header else "") + Items(Public(reg))
    decreases |reg|
  {
    if |reg| > 0 {
      PublicCons(reg);
      if Listed(reg[0]) {
        var h := if count == 0 then Header else "";
        var line := Item(reg[0]);
        var rest := Items(Public(reg[1..]));
        var acc := html + h + line;
        ScanWrites(reg[1..], count + 1, acc);
        assert Scan(reg, count, html) == Scan(reg[1..], count + 1, acc);
        Glue(Scan(reg, count, html).1, html, h, line, rest, Items(Public(reg)));
      } else {
        ScanWrites(reg[1..], count, html);
      }
    } else {
      assert Lines([]) == [];
    }
  }

  lemma Glue(out: string, html: string, h: string, line: string, rest: string, items: string)
    requires out == html + h + line + "" + rest && items == line + rest
    ensures out == html + h + items
  {
  }

  /** Every public entry other than help has its link in the menu. */
  lemma {:induction false} ListedEntryAppears(reg: seq<RegisteredModule>, i: nat)
    requires i < |reg| && Listed(reg[i])
    ensures Contains(RenderNavigation(reg), Item(reg[i]))
    decreases |reg|
  {
    var nav := RenderNavigation(reg);
    var items := Items(Public(reg));
    var k := ItemPosition(reg, i);
    assert OccursAt(nav, Item(reg[i]), |Header| + k) by {
      assert nav == Header + items + Footer;
      assert nav[|Header| + k..|Header| + k + |Item(reg[i])|] == items[k..k + |Item(reg[i])|];
    }
  }

  /** The menu lines of a registry: the line of its first entry if that
      entry is listed, then the lines of the rest. */
  lemma PublicCons(reg: seq<RegisteredModule>)
    requires |reg| > 0
    ensures Listed(reg[0]) ==> Items(Public(reg)) == Item(reg[0]) + Items(Public(reg[1..]))
    ensures !Listed(reg[0]) ==> Items(Public(reg)) == Items(Public(reg[1..]))
    ensures |Public(reg)| == (if Listed(reg[0]) then 1 else 0) + |Public(reg[1..])|
  {
    if Listed(reg[0]) {
      var es := Public(reg);
      assert es == [reg[0]] + Public(reg[1..]);
      assert Lines(es) == [Item(reg[0])] + Lines(Public(reg[1..]));
      assert Lines(es)[1..] == Lines(Public(reg[1..]));
    } else {
      assert Public(reg) == Public(reg[1..]);
    }
  }

  /** The line of every listed entry is among the menu lines. */
  lemma ItemPosition(reg: seq<RegisteredModule>, i: nat) returns (k: nat)
    requires i < |reg| && Listed(reg[i])
    ensures OccursAt(Items(Public(reg)), Item(reg[i]), k)
  {
    var es := Public(reg);
    assert reg[i] in es;
    var j :| 0 <= j < |es| && es[j] == reg[i];
    LinesAt(es, j);
    ConcatOccurs(Lines(es), j);
    k := |Concat(Lines(es)[..j])|;
  }

  /** Private modules and the help module get no link: the menu is built
      from public non-help entries only, so removing every other entry
      changes nothing. */
  lemma {:induction false} OnlyPublicMatters(reg: seq<RegisteredModule>)
    ensures RenderNavigation(Public(reg)) == RenderNavigation(reg)
  {
    PublicIdempotent(reg);
  }

  lemma {:induction false} PublicIdempotent(reg: seq<RegisteredModule>)
    ensures Public(Public(reg)) == Public(reg)
    decreases |reg|
  {
    if |reg| > 0 {
      PublicIdempotent(reg[1..]);
      if Listed(reg[0]) {
        assert Public(reg) == [reg[0]] + Public(reg[1..]);
        assert Public(reg)[1..] == Public(reg[1..]);
      } else {
        assert Public(reg) == Public(reg[1..]);
      }
    }
  }

  // ------------------------------------------------------------- scenario

  /** The registration test's mock handler: named, titled by its name, with
      HTML and read roles `['*']` when public, `['u']` otherwise. */
  function Mock(name: string, html: string, public: bool): (h: Handler)
    ensures IsPublicReadable(h) <==> public
    ensures h.iconSvg.None? && h.title.None?
  {
    Bare("*site.mockHandler").(name := Some(name), moduleTitle := Some(name), component := true, html := Some(html),
                               css := Some(""), readRoles := Some(if public then "*" else "u"))
  }

  /** The menu line of a module named `name` that has no title and no icons. */
  function PlainLine(name: string): string {
    "<li><a href='#" + name + "' id='nav-" + name + "'>" + name + "</a></li>\n"
  }

  /** The line of a module without title or icons links its name. */
  lemma PlainItem(e: RegisteredModule)
    requires e.handler.iconSvg.None? && e.handler.title.None?
    ensures Item(e) == PlainLine(e.name)
  {
    assert IconRef(IconId(e.handler)) == "";
    assert DisplayName(e) == e.name;
    Concat8("<li><a href='#", e.name, "' id='nav-", e.name, "'>", "", e.name, "</a></li>\n");
  }

  const NavEntry: RegisteredModule := RegisteredModule(Mock("nav-module", "<div>Nav</div>", true), "nav-module")
  const PrivateEntry: RegisteredModule :=
    RegisteredModule(Mock("private-module", "<div>Private</div>", false), "private-module")
  const NoMarkerEntry: RegisteredModule :=
    RegisteredModule(Mock("no-marker-module", "<div>No marker</div>", true), "no-marker-module")

  /** With at least one link, the menu is the header, the lines and the
      footer. */
  lemma RenderSome(reg: seq<RegisteredModule>)
    requires |Public(reg)| > 0
    ensures RenderNavigation(reg) == Header + Items(Public(reg)) + Footer
  {
    NoneListed(reg);
  }

  /** Of three entries, the first and the last listed. */
  lemma PublicOfThree(a: RegisteredModule, b: RegisteredModule, c: RegisteredModule)
    requires Listed(a) && !Listed(b) && Listed(c)
    ensures Public([a, b, c]) == [a, c]
  {
    assert [a, b, c][1..] == [b, c] && [b, c][1..] == [c] && [c][1..] == [];
    assert Filter([c], Listed) == [c] + Filter([], Listed) == [c];
    assert Filter([b, c], Listed) == Filter([c], Listed);
    assert Filter([a, b, c], Listed) == [a] + Filter([b, c], Listed);
  }

  /** The lines of two entries. */
  lemma ItemsOfTwo(a: RegisteredModule, b: RegisteredModule)
    ensures Items([a, b]) == Item(a) + Item(b)
  {
    var lines := Lines([a, b]);
    LinesAt([a, b], 0);
    LinesAt([a, b], 1);
    assert lines == [Item(a), Item(b)];
    ConcatStep(lines, 0);
    ConcatStep(lines, 1);
    assert lines[0..] == lines && lines[2..] == [];
  }

  lemma TestRegistryPublic()
    ensures Public([NavEntry, PrivateEntry, NoMarkerEntry]) == [NavEntry, NoMarkerEntry]
  {
    assert Listed(NavEntry) && !Listed(PrivateEntry) && Listed(NoMarkerEntry);
    PublicOfThree(NavEntry, PrivateEntry, NoMarkerEntry);
  }

  /** A menu of two links. */
  lemma RenderTwo(reg: seq<RegisteredModule>, x: RegisteredModule, y: RegisteredModule)
    requires Public(reg) == [x, y]
    ensures RenderNavigation(reg) == Header + Item(x) + Item(y) + Footer
  {
    RenderSome(reg);
    ItemsOfTwo(x, y);
  }

  /** The registration test: the public modules are linked in order, and the
      private one is not. */
  lemma RegistrationFlowNavigation()
    ensures RenderNavigation([NavEntry, PrivateEntry, NoMarkerEntry])
            == Header + PlainLine("nav-module") + PlainLine("no-marker-module") + Footer
  {
    TestRegistryPublic();
    RenderTwo([NavEntry, PrivateEntry, NoMarkerEntry], NavEntry, NoMarkerEntry);
    PlainItem(NavEntry);
    PlainItem(NoMarkerEntry);
  }
}
