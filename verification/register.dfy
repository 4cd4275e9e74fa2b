/** The append-only handler registry of register.go: every handler passed to
    `RegisterHandlers` gets one entry, named by its `HandlerName()` when it
    has one, and the whole batch is then handed to crudp.  Unlike manager.go's
    `registerModule`, nothing is de-duplicated. */
module Register {
  import opened Common
  import opened Handlers
  import Manager

  /** The entry `RegisterHandlers` builds for one handler. */
  function Entry(h: Handler): (e: RegisteredModule)
    ensures e.handler == h
    ensures h.name.Some? ==> e.name == h.name.value
    ensures h.name.None? ==> e.name == ""
  {
    RegisteredModule(h, HandlerName(h))
  }

  /** One entry per handler, in argument order. */
  function Entries(handlers: seq<Handler>): (r: seq<RegisteredModule>)
    ensures |r| == |handlers|
    ensures forall i :: 0 <= i < |handlers| ==> r[i] == Entry(handlers[i])
    decreases |handlers|
  {
    if |handlers| == 0 then [] else [Entry(handlers[0])] + Entries(handlers[1..])
  }

  /** What one call leaves behind: the registry, the batch handed to crudp
      (`None` when crudp was not called), and the returned `error`. */
  datatype Registration = Registration(modules: seq<RegisteredModule>, crudpBatch: Option<seq<Handler>>,
                                       status: Status)

  /** `RegisterHandlers`: an empty call does nothing and returns nil;
      otherwise the entries are appended first and crudp's answer is
      returned, so a crudp failure still leaves them registered. */
  function RegisterHandlers(reg: seq<RegisteredModule>, handlers: seq<Handler>, crudpErr: Option<string>)
    : (r: Registration)
    ensures handlers == [] ==> r == Registration(reg, None, Ok)
    ensures handlers != [] ==>
              && |r.modules| == |reg| + |handlers|
              && r.modules[..|reg|] == reg
              && (forall i :: 0 <= i < |handlers| ==>
                    r.modules[|reg| + i].handler == handlers[i]
                    && r.modules[|reg| + i].name == HandlerName(handlers[i]))
              && r.crudpBatch == Some(handlers)
              && r.status == StatusOf(crudpErr)
  {
    if |handlers| == 0 then Registration(reg, None, Ok)
    else
      var modules := reg + Entries(handlers);
      assert modules[..|reg|] == reg;
      Registration(modules, Some(handlers), StatusOf(crudpErr))
  }

  /** `GetModules`: the registry in registration order. */
  function GetModules(reg: seq<RegisteredModule>): (r: seq<RegisteredModule>)
    ensures forall i :: 0 <= i < |r| ==> r[i] in reg
    ensures |r| == |reg| && forall i :: 0 <= i < |reg| ==> r[i] == reg[i]
  {
    reg
  }

  /** Entries of two batches are the entries of the first, then those of
      the second. */
  lemma {:induction false} EntriesAppend(a: seq<Handler>, b: seq<Handler>)
    ensures Entries(a + b) == Entries(a) + Entries(b)
    decreases |a|
  {
    if |a| > 0 {
      assert (a + b)[1..] == a[1..] + b;
      EntriesAppend(a[1..], b);
    }
  }

  /** Two calls register what one call with both batches registers. */
  lemma RegisterTwiceIsRegisterBoth(reg: seq<RegisteredModule>, a: seq<Handler>, b: seq<Handler>,
                                    e1: Option<string>, e2: Option<string>, e3: Option<string>)
    ensures RegisterHandlers(RegisterHandlers(reg, a, e1).modules, b, e2).modules
            == RegisterHandlers(reg, a + b, e3).modules
  {
    if a == [] {
      assert a + b == b;
    } else if b == [] {
      assert a + b == a;
    } else {
      EntriesAppend(a, b);
      assert reg + Entries(a) + Entries(b) == reg + Entries(a + b);
    }
  }

  /** A crudp failure changes the returned error only: the entries are
      registered either way. */
  lemma CrudpErrorKeepsEntries(reg: seq<RegisteredModule>, handlers: seq<Handler>, err: string)
    requires handlers != []
    ensures RegisterHandlers(reg, handlers, Some(err)).modules == RegisterHandlers(reg, handlers, None).modules
    ensures RegisterHandlers(reg, handlers, Some(err)).status == Error(err)
  {
  }

  /** The same module registered twice gets two entries here, while
      manager.go's `registerModule` keeps only the first. */
  lemma NoDeduplication(reg: seq<RegisteredModule>, m: Handler)
    requires IsModule(m)
    ensures |GetModules(RegisterHandlers(reg, [m, m], None).modules)| == |reg| + 2
    ensures |Manager.RegisterModule(Manager.RegisterModule(reg, m), m)| <= |reg| + 1
  {
  }

  /** The registration test: the three mock handlers register in order under
      their names, whatever their access level. */
  lemma RegistrationFlow(h1: Handler, h2: Handler, h3: Handler)
    requires h1.name == Some("nav-module") && h2.name == Some("private-module")
    requires h3.name == Some("no-marker-module")
    ensures var r := RegisterHandlers([], [h1, h2, h3], None);
            && r.status == Ok
            && GetModules(r.modules) == [RegisteredModule(h1, "nav-module"), RegisteredModule(h2, "private-module"),
                                         RegisteredModule(h3, "no-marker-module")]
  {
    var r := RegisterHandlers([], [h1, h2, h3], None);
    assert r.modules[0] == Entry(h1) && r.modules[1] == Entry(h2) && r.modules[2] == Entry(h3);
  }
}
