/** The server-side component registry of site.back.go: one component per
    concrete Go type, and the CSS, JavaScript and icon sprites gathered from
    the registered components.  Go ranges over the registry map in an order
    it does not specify; each collector takes that order as a parameter, and
    the lemmas state what holds whichever order the runtime picks. */
module Components {
  import opened Common
  import opened Handlers

  /** `registered map[reflect.Type]dom.Component`, keyed by type tag. */
  type Registry = map<string, Handler>

  /** `register`: a nil component is ignored; otherwise the component is
      kept unless one of its concrete type is already registered, so the
      first of each type wins. */
  function Register(reg: Registry, c: Option<Handler>): (r: Registry)
    ensures c.None? ==> r == reg
    ensures c.Some? ==> r.Keys == reg.Keys + {c.value.typeTag}
    ensures c.Some? && c.value.typeTag in reg ==> r == reg
    ensures c.Some? && c.value.typeTag !in reg ==> r[c.value.typeTag] == c.value
    ensures forall t :: t in reg ==> t in r && r[t] == reg[t]
  {
    if c.None? || c.value.typeTag in reg then reg else reg[c.value.typeTag := c.value]
  }

  /** Registering several components one after another. */
  function RegisterAll(reg: Registry, cs: seq<Option<Handler>>): Registry
    decreases |cs|
  {
    if |cs| == 0 then reg else RegisterAll(Register(reg, cs[0]), cs[1..])
  }

  /** The type tags of the non-nil components of `cs`. */
  function Tags(cs: seq<Option<Handler>>): (r: set<string>)
    ensures forall i :: 0 <= i < |cs| && cs[i].Some? ==> cs[i].value.typeTag in r
    ensures forall t :: t in r ==> exists i :: 0 <= i < |cs| && cs[i].Some? && cs[i].value.typeTag == t
  {
    set i | 0 <= i < |cs| && cs[i].Some? :: cs[i].value.typeTag
  }

  /** The registry only grows: it ends up with exactly the types it had and
      the types registered, and an entry once present never changes. */
  lemma {:induction false} RegisterAllGrows(reg: Registry, cs: seq<Option<Handler>>)
    ensures RegisterAll(reg, cs).Keys == reg.Keys + Tags(cs)
    ensures forall t :: t in reg ==> RegisterAll(reg, cs)[t] == reg[t]
    decreases |cs|
  {
    if |cs| > 0 {
      RegisterAllGrows(Register(reg, cs[0]), cs[1..]);
      TagsCons(cs);
    }
  }

  /** The tags of a sequence: the first component's, if any, and those of
      the rest. */
  lemma TagsCons(cs: seq<Option<Handler>>)
    requires |cs| > 0
    ensures Tags(cs) == (if cs[0].Some? then {cs[0].value.typeTag} else {}) + Tags(cs[1..])
  {
    var head: set<string> := if cs[0].Some? then {cs[0].value.typeTag} else {};
    forall t | t in Tags(cs)
      ensures t in head + Tags(cs[1..])
    {
      var i :| 0 <= i < |cs| && cs[i].Some? && cs[i].value.typeTag == t;
      if i > 0 {
        assert cs[1..][i - 1] == cs[i];
      }
    }
    forall t | t in Tags(cs[1..])
      ensures t in Tags(cs)
    {
      var i :| 0 <= i < |cs[1..]| && cs[1..][i].Some? && cs[1..][i].value.typeTag == t;
      assert cs[i + 1] == cs[1..][i];
    }
  }

  /** A new type is represented by its first registered component. */
  lemma {:induction false} FirstOfTypeWins(reg: Registry, cs: seq<Option<Handler>>, i: nat)
    requires i < |cs| && cs[i].Some? && cs[i].value.typeTag !in reg
    requires forall j :: 0 <= j < i ==> !(cs[j].Some? && cs[j].value.typeTag == cs[i].value.typeTag)
    ensures cs[i].value.typeTag in RegisterAll(reg, cs) && RegisterAll(reg, cs)[cs[i].value.typeTag] == cs[i].value
    decreases |cs|
  {
    var t := cs[i].value.typeTag;
    var reg' := Register(reg, cs[0]);
    RegisterAllGrows(reg', cs[1..]);
    if i > 0 {
      assert t !in reg';
      forall j | 0 <= j < i - 1
        ensures !(cs[1..][j].Some? && cs[1..][j].value.typeTag == t)
      {
        assert cs[1..][j] == cs[j + 1];
      }
      FirstOfTypeWins(reg', cs[1..], i - 1);
    }
  }

  /** There are never more entries than distinct types registered. */
  lemma RegistrySize(cs: seq<Option<Handler>>)
    ensures |RegisterAll(map[], cs)| == |Tags(cs)|
  {
    RegisterAllGrows(map[], cs);
    assert RegisterAll(map[], cs).Keys == Tags(cs);
  }

  // ------------------------------------------------------------ collection

  /** The two text assets a component can provide. */
  datatype TextKind = Css | Js

  /** What `RenderCSS` or `RenderJS` answers, when implemented. */
  function TextOf(h: Handler, kind: TextKind): Option<string> {
    match kind
    case Css => h.css
    case Js => h.js
  }

  /** The component adds to the collected text: it implements the provider
      and its text is not empty. */
  predicate Contributes(h: Handler, kind: TextKind) {
    TextOf(h, kind).Some? && TextOf(h, kind).value != ""
  }

  /** What one component adds: its text and a newline, or nothing. */
  function Piece(h: Handler, kind: TextKind): (r: seq<string>)
    ensures Contributes(h, kind) <==> |r| == 1
    ensures !Contributes(h, kind) <==> r == []
    ensures |r| == 1 ==> r[0] == TextOf(h, kind).value + "\n"
  {
    if Contributes(h, kind) then [TextOf(h, kind).value + "\n"] else []
  }

  /** The pieces in the order the registry is ranged over. */
  function Pieces(reg: Registry, order: seq<string>, kind: TextKind): seq<string>
    requires forall i :: 0 <= i < |order| ==> order[i] in reg
    decreases |order|
  {
    if |order| == 0 then [] else Piece(reg[order[0]], kind) + Pieces(reg, order[1..], kind)
  }

  /** The types whose component contributes text. */
  function Contributors(reg: Registry, kind: TextKind): set<string> {
    set t | t in reg && Contributes(reg[t], kind)
  }

  /** `collectCSS` and `collectJS`: the text of every contributing
      component followed by a newline, in the order `order` ranges over the
      registry; empty exactly when no component contributes. */
  function Collect(reg: Registry, order: seq<string>, kind: TextKind): (r: string)
    requires Enumerates(order, reg.Keys)
    ensures r == "" <==> forall t :: t in reg ==> !Contributes(reg[t], kind)
  {
    var ps := Pieces(reg, order, kind);
    ConcatEmpty(ps);
    PiecesEmpty(reg, order, kind);
    Concat(ps)
  }

  /** Every piece is non-empty, and there is none exactly when no type
      contributes. */
  lemma PiecesEmpty(reg: Registry, order: seq<string>, kind: TextKind)
    requires Enumerates(order, reg.Keys)
    ensures (forall i :: 0 <= i < |Pieces(reg, order, kind)| ==> Pieces(reg, order, kind)[i] == "")
            <==> forall t :: t in reg ==> !Contributes(reg[t], kind)
  {
    PiecesNonEmpty(reg, order, kind);
    PiecesCount(reg, order, kind);
    ContributorsOfEnumeration(reg, order, kind);
    var ps := Pieces(reg, order, kind);
    if exists t :: t in reg && Contributes(reg[t], kind) {
      var t :| t in reg && Contributes(reg[t], kind);
      assert t in Contributors(reg, kind);
      assert |ps| > 0 && ps[0] != "";
    } else {
      assert Contributors(reg, kind) == {};
    }
  }

  /** Every piece holds at least its newline. */
  lemma {:induction false} PiecesNonEmpty(reg: Registry, order: seq<string>, kind: TextKind)
    requires forall i :: 0 <= i < |order| ==> order[i] in reg
    ensures forall i :: 0 <= i < |Pieces(reg, order, kind)| ==> |Pieces(reg, order, kind)[i]| > 0
    decreases |order|
  {
    if |order| > 0 {
      PiecesNonEmpty(reg, order[1..], kind);
      var ps := Pieces(reg, order, kind);
      var p := Piece(reg[order[0]], kind);
      var rest := Pieces(reg, order[1..], kind);
      assert ps == p + rest;
      forall i | 0 <= i < |ps|
        ensures |ps[i]| > 0
      {
        if i >= |p| {
          assert ps[i] == rest[i - |p|];
        }
      }
    }
  }

  /** The types of `order` whose component contributes. */
  function ContributorsIn(reg: Registry, order: seq<string>, kind: TextKind): set<string>
    requires forall i :: 0 <= i < |order| ==> order[i] in reg
  {
    set i | 0 <= i < |order| && Contributes(reg[order[i]], kind) :: order[i]
  }

  /** One piece per contributing type of a repetition-free order. */
  lemma {:induction false} PiecesCount(reg: Registry, order: seq<string>, kind: TextKind)
    requires Distinct(order) && forall i :: 0 <= i < |order| ==> order[i] in reg
    ensures |Pieces(reg, order, kind)| == |ContributorsIn(reg, order, kind)|
    decreases |order|
  {
    if |order| > 0 {
      var rest := order[1..];
      ContributorsInCons(reg, order, kind);
      PiecesCount(reg, rest, kind);
      var head: set<string> := if Contributes(reg[order[0]], kind) then {order[0]} else {};
      var later := ContributorsIn(reg, rest, kind);
      assert |Piece(reg[order[0]], kind)| == |head|;
      assert |head + later| == |head| + |later|;
    } else {
      assert ContributorsIn(reg, order, kind) == {};
    }
  }

  /** The contributing types of a distinct order: its first type, if that
      contributes, and, apart from it, those of the rest. */
  lemma ContributorsInCons(reg: Registry, order: seq<string>, kind: TextKind)
    requires |order| > 0 && Distinct(order) && forall i :: 0 <= i < |order| ==> order[i] in reg
    ensures Distinct(order[1..])
    ensures order[0] !in ContributorsIn(reg, order[1..], kind)
    ensures ContributorsIn(reg, order, kind)
            == (if Contributes(reg[order[0]], kind) then {order[0]} else {}) + ContributorsIn(reg, order[1..], kind)
  {
    var rest := order[1..];
    forall a, b | 0 <= a < b < |rest|
      ensures rest[a] != rest[b]
    {
      assert rest[a] == order[a + 1] && rest[b] == order[b + 1];
    }
    var later := ContributorsIn(reg, rest, kind);
    forall j | 0 <= j < |rest|
      ensures rest[j] != order[0]
    {
      assert rest[j] == order[j + 1];
    }
    var head: set<string> := if Contributes(reg[order[0]], kind) then {order[0]} else {};
    forall t | t in ContributorsIn(reg, order, kind)
      ensures t in head + later
    {
      var i :| 0 <= i < |order| && Contributes(reg[order[i]], kind) && order[i] == t;
      if i > 0 {
        assert rest[i - 1] == t;
      }
    }
    forall t | t in later
      ensures t in ContributorsIn(reg, order, kind)
    {
      var i :| 0 <= i < |rest| && Contributes(reg[rest[i]], kind) && rest[i] == t;
      assert order[i + 1] == t;
    }
  }

  /** Over an enumeration of the registry, the contributing types of the
      order are all the contributing types. */
  lemma ContributorsOfEnumeration(reg: Registry, order: seq<string>, kind: TextKind)
    requires Enumerates(order, reg.Keys)
    ensures ContributorsIn(reg, order, kind) == Contributors(reg, kind)
  {
    forall t | t in Contributors(reg, kind)
      ensures t in ContributorsIn(reg, order, kind)
    {
      var i :| 0 <= i < |order| && order[i] == t;
    }
  }

  /** Whatever order Go ranges over the registry in, the same pieces are
      collected: the collected text is some permutation of one piece per
      contributing component. */
  lemma CollectOrderIrrelevant(reg: Registry, o1: seq<string>, o2: seq<string>, kind: TextKind)
    requires Enumerates(o1, reg.Keys) && Enumerates(o2, reg.Keys)
    ensures multiset(Pieces(reg, o1, kind)) == multiset(Pieces(reg, o2, kind))
    ensures |Pieces(reg, o1, kind)| == |Contributors(reg, kind)|
  {
    EnumerationsPermute(o1, o2, reg.Keys);
    PiecesPermute(reg, o1, o2, kind);
    PiecesCount(reg, o1, kind);
    ContributorsOfEnumeration(reg, o1, kind);
  }

  /** The piece of each type, as a total function on type names. */
  function PieceOf(reg: Registry, kind: TextKind): string -> seq<string> {
    t => if t in reg then Piece(reg[t], kind) else []
  }

  /** The pieces of an order are its types' pieces, flattened. */
  lemma {:induction false} PiecesFlat(reg: Registry, order: seq<string>, kind: TextKind)
    requires forall i :: 0 <= i < |order| ==> order[i] in reg
    ensures Pieces(reg, order, kind) == FlatMap(order, PieceOf(reg, kind))
    decreases |order|
  {
    if |order| > 0 {
      PiecesFlat(reg, order[1..], kind);
      assert PieceOf(reg, kind)(order[0]) == Piece(reg[order[0]], kind);
    }
  }

  /** Orders holding the same types yield the same pieces, in some order. */
  lemma PiecesPermute(reg: Registry, o1: seq<string>, o2: seq<string>, kind: TextKind)
    requires forall i :: 0 <= i < |o1| ==> o1[i] in reg
    requires forall i :: 0 <= i < |o2| ==> o2[i] in reg
    requires multiset(o1) == multiset(o2)
    ensures multiset(Pieces(reg, o1, kind)) == multiset(Pieces(reg, o2, kind))
  {
    PiecesFlat(reg, o1, kind);
    PiecesFlat(reg, o2, kind);
    FlatMapPermute(o1, o2, PieceOf(reg, kind));
  }

  /** The collected text is made of exactly the contributors' pieces: each
      contributing component's text followed by a newline is among them,
      and every piece is some contributor's text and a newline. */
  lemma CollectContents(reg: Registry, order: seq<string>, kind: TextKind)
    requires Enumerates(order, reg.Keys)
    ensures Collect(reg, order, kind) == Concat(Pieces(reg, order, kind))
    ensures forall t :: t in Contributors(reg, kind) ==> TextOf(reg[t], kind).value + "\n" in Pieces(reg, order, kind)
    ensures forall p :: p in Pieces(reg, order, kind) ==>
              exists t :: t in Contributors(reg, kind) && p == TextOf(reg[t], kind).value + "\n"
  {
    var f := PieceOf(reg, kind);
    var ps := Pieces(reg, order, kind);
    PiecesFlat(reg, order, kind);
    forall t | t in Contributors(reg, kind)
      ensures TextOf(reg[t], kind).value + "\n" in ps
    {
      var i :| 0 <= i < |order| && order[i] == t;
      assert f(order[i]) == [TextOf(reg[t], kind).value + "\n"];
      FlatMapCovers(order, i, f, TextOf(reg[t], kind).value + "\n");
    }
    forall p | p in ps
      ensures exists t :: t in Contributors(reg, kind) && p == TextOf(reg[t], kind).value + "\n"
    {
      var i := FlatMapFrom(order, f, p);
      var t := order[i];
      assert f(t) == Piece(reg[t], kind);
      assert t in Contributors(reg, kind);
    }
  }

  // ----------------------------------------------------------------- icons

  /** Merges the icon maps of the components in `order`; a later id
      overwrites an earlier one, as `icons[id] = svg` does. What it holds is
      stated by `CollectIconsContents`. */
  function CollectIcons(reg: Registry, order: seq<string>): map<string, string>
    requires forall i :: 0 <= i < |order| ==> order[i] in reg
    decreases |order|
  {
    if |order| == 0 then map[]
    else
      var last := order[|order| - 1];
      var init := order[..|order| - 1];
      assert forall i :: 0 <= i < |init| ==> init[i] == order[i];
      var mine := if reg[last].iconSvg.Some? then reg[last].iconSvg.value else map[];
      CollectIcons(reg, init) + mine
  }

  /** Every collected id comes from some component in the order, with that
      component's svg, and every id of every component in the order is
      collected. */
  lemma {:induction false} CollectIconsContents(reg: Registry, order: seq<string>)
    requires forall i :: 0 <= i < |order| ==> order[i] in reg
    ensures forall id :: id in CollectIcons(reg, order) ==>
              exists i :: 0 <= i < |order| && reg[order[i]].iconSvg.Some? && id in reg[order[i]].iconSvg.value
                          && CollectIcons(reg, order)[id] == reg[order[i]].iconSvg.value[id]
    ensures forall i, id :: 0 <= i < |order| && reg[order[i]].iconSvg.Some? && id in reg[order[i]].iconSvg.value
              ==> id in CollectIcons(reg, order)
    decreases |order|
  {
    if |order| > 0 {
      var n := |order| - 1;
      var init := order[..n];
      assert forall i :: 0 <= i < |init| ==> init[i] == order[i];
      CollectIconsContents(reg, init);
      var before := CollectIcons(reg, init);
      var mine := if reg[order[n]].iconSvg.Some? then reg[order[n]].iconSvg.value else map[];
      var icons := CollectIcons(reg, order);
      assert icons == before + mine;
      forall id | id in icons
        ensures exists i :: 0 <= i < |order| && reg[order[i]].iconSvg.Some? && id in reg[order[i]].iconSvg.value
                            && icons[id] == reg[order[i]].iconSvg.value[id]
      {
        if id in mine {
          assert icons[id] == reg[order[n]].iconSvg.value[id];
        } else {
          var i :| 0 <= i < |init| && reg[init[i]].iconSvg.Some? && id in reg[init[i]].iconSvg.value
                   && before[id] == reg[init[i]].iconSvg.value[id];
          assert init[i] == order[i];
        }
      }
      forall i, id | 0 <= i < |order| && reg[order[i]].iconSvg.Some? && id in reg[order[i]].iconSvg.value
        ensures id in icons
      {
        if i < n {
          assert init[i] == order[i];
        }
      }
    }
  }

  /** However the registry is ranged over, as many icons are collected. */
  lemma IconCountOrderIrrelevant(reg: Registry, o1: seq<string>, o2: seq<string>)
    requires Enumerates(o1, reg.Keys) && Enumerates(o2, reg.Keys)
    ensures |CollectIcons(reg, o1)| == |CollectIcons(reg, o2)|
  {
    IconIdsOrderIrrelevant(reg, o1, o2);
    var a, b := CollectIcons(reg, o1), CollectIcons(reg, o2);
    assert |a| == |a.Keys| == |b.Keys| == |b|;
  }

  /** The collected ids are the union of the components' ids, whatever the
      order: only which svg wins a shared id depends on it. */
  lemma IconIdsOrderIrrelevant(reg: Registry, o1: seq<string>, o2: seq<string>)
    requires Enumerates(o1, reg.Keys) && Enumerates(o2, reg.Keys)
    ensures CollectIcons(reg, o1).Keys == CollectIcons(reg, o2).Keys
  {
    CollectIconsContents(reg, o1);
    CollectIconsContents(reg, o2);
    var a := CollectIcons(reg, o1);
    var b := CollectIcons(reg, o2);
    forall id | id in a
      ensures id in b
    {
      var i :| 0 <= i < |o1| && reg[o1[i]].iconSvg.Some? && id in reg[o1[i]].iconSvg.value;
      assert o1[i] in o2;
    }
    forall id | id in b
      ensures id in a
    {
      var i :| 0 <= i < |o2| && reg[o2[i]].iconSvg.Some? && id in reg[o2[i]].iconSvg.value;
      assert o2[i] in o1;
    }
  }
}
