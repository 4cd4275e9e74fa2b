/** The application-supplied handler and the registry entry that wraps it.

    A Go handler is an `any` value that implements some subset of small
    interfaces; the model records, for each interface, whether the handler
    implements it and what its method answers.  Handlers are values: a call
    that in Go mutates the handler (`SetParams`) or reaches the DOM is an
    `Event` of the trace the router returns, and a call into the asset
    pipeline is an `Injection`. */
module Handlers {
  import opened Common

  datatype Handler = Handler(
    /** The concrete Go type, `reflect.TypeOf(h)`: what the server-side
        component registry deduplicates by. */
    typeTag: string,
    /** `HandlerName()`, when implemented. */
    name: Option<string>,
    /** `ModuleTitle()`, when implemented (part of the `Module` interface). */
    moduleTitle: Option<string>,
    /** Implements `dom.Component` (the rest of the `Module` interface). */
    component: bool,
    /** `Title()`, when implemented: the navigation link text. */
    title: Option<string>,
    /** `RenderHTML()`, when implemented (`dom.HTMLRenderer`). */
    html: Option<string>,
    /** `RenderCSS()`, when implemented (`dom.CSSProvider`). */
    css: Option<string>,
    /** `RenderJS()`, when implemented (`dom.JSProvider`). */
    js: Option<string>,
    /** `IconSvg() map[string]string`, id to svg (`dom.IconSvgProvider`). */
    iconSvg: Option<map<string, string>>,
    /** `IconSvg() []map[string]string`, the list shape build.go asserts. */
    iconList: Option<seq<map<string, string>>>,
    /** `AllowedRoles('r')`, when the handler is access-controlled. */
    readRoles: Option<seq<char>>,
    /** Implements `Parameterized` (`SetParams`). */
    parameterized: bool,
    /** Implements `ModuleLifecycle`; the value is what `BeforeNavigateAway`
        answers. */
    beforeLeave: Option<bool>,
    /** `TrackedComponents()`, the nested components a module builder used. */
    tracked: Option<seq<Handler>>
  )

  /** A handler of type `tag` that implements nothing. */
  function Bare(tag: string): (h: Handler)
    ensures h.typeTag == tag && h.name.None? && h.html.None? && h.readRoles.None?
  {
    Handler(tag, None, None, false, None, None, None, None, None, None, None, false, None, None)
  }

  /** The name a handler goes by: `HandlerName()`, or "" without one. */
  function HandlerName(h: Handler): string {
    h.name.GetOr("")
  }

  /** The handler satisfies Go's `Module` interface. */
  predicate IsModule(h: Handler) {
    h.name.Some? && h.moduleTitle.Some? && h.component
  }

  /** The handler implements `ModuleLifecycle`. */
  predicate HasLifecycle(h: Handler) {
    h.beforeLeave.Some?
  }

  /** A registry entry: the `module` struct of register.go and site.go. */
  datatype RegisteredModule = RegisteredModule(handler: Handler, name: string)

  /** The calls the navigation state machine makes on handlers and on the DOM,
      in the order it makes them. */
  datatype Event =
    | SetParams(target: Handler, params: seq<string>)
    | BeforeNavigateAway(target: Handler)
    | AfterNavigateTo(target: Handler)
    | SetHash(hash: string)
    | Render(parentID: string, target: Handler)
    | Mount(parentID: string, mounted: Option<Handler>)
    | Unmount(target: Handler)
    | Hydrate(parentID: string, target: Handler)

  /** The calls the server side makes on the asset pipeline. */
  datatype Injection =
    | InjectHTML(html: string)
    | InjectSpriteIcon(id: string, svg: string)
    | InjectBodyContent(content: string)
    | AddCSS(moduleName: string, css: string)
    | AddIcon(id: string, svg: string)

  /** `SetParams(params)` when the handler is `Parameterized`, nothing otherwise. */
  function ParamsEvent(h: Handler, params: seq<string>): (evs: seq<Event>)
    ensures h.parameterized <==> evs == [SetParams(h, params)]
    ensures !h.parameterized <==> evs == []
  {
    if h.parameterized then [SetParams(h, params)] else []
  }

  /** `AfterNavigateTo()` when the handler has lifecycle hooks, nothing otherwise. */
  function AfterEvent(h: Handler): (evs: seq<Event>)
    ensures HasLifecycle(h) <==> evs == [AfterNavigateTo(h)]
    ensures !HasLifecycle(h) <==> evs == []
  {
    if HasLifecycle(h) then [AfterNavigateTo(h)] else []
  }
}
