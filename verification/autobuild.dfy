/** The static-build switch of build.back.go: a program that calls
    `AutoBuild` early in `main` builds the site into a directory and stops
    when its command line holds `--ssr-static-build <dir>`, and carries on
    otherwise. */
module StaticBuild {
  import opened Common
  import SsrBuild
  import Components
  import Handlers

  const StaticBuildFlag: string := "--ssr-static-build"

  /** A flag at index `k` with an argument after it. */
  predicate Usable(args: seq<string>, k: nat)
    requires k < |args|
  {
    args[k] == StaticBuildFlag && k + 1 < |args|
  }

  /** No usable flag at an index from `i` up to, not including, `j`. */
  predicate NoneUsable(args: seq<string>, i: nat, j: nat)
    requires j <= |args|
  {
    forall k :: i <= k < j ==> !Usable(args, k)
  }

  /** The directory named after the first usable flag at or after index
      `i`. */
  function FlagValueFrom(args: seq<string>, i: nat): (r: Option<string>)
    requires i <= |args|
    ensures r.Some? ==> exists j :: i <= j < |args| && Usable(args, j) && r.value == args[j + 1]
                                    && NoneUsable(args, i, j)
    ensures r.None? <==> NoneUsable(args, i, |args|)
    decreases |args| - i
  {
    if i == |args| then None
    else if Usable(args, i) then Some(args[i + 1])
    else FlagValueFrom(args, i + 1)
  }

  /** The output directory `AutoBuild` finds in `os.Args` (the program name
      included), if any. */
  function FlagValue(args: seq<string>): (r: Option<string>)
    ensures r.Some? ==> exists j :: 0 <= j < |args| && Usable(args, j) && r.value == args[j + 1]
                                    && NoneUsable(args, 0, j)
    ensures r.None? <==> NoneUsable(args, 0, |args|)
  {
    FlagValueFrom(args, 0)
  }

  /** What `AutoBuild` does: carries on (returns false), built the site
      (returns true), or exits with status 1 after a failed build. */
  datatype AutoResult = Continue | Built(outputDir: string) | Exit(code: int, outputDir: string)

  /** `AutoBuild`, with the result of `BuildStatic` on the directory found
      as a parameter. */
  function AutoBuild(args: seq<string>, buildStatic: Status): (r: AutoResult)
    ensures r.Continue? <==> FlagValue(args).None?
    ensures r.Built? <==> FlagValue(args).Some? && buildStatic.Ok?
    ensures r.Exit? ==> r.code == 1 && !buildStatic.Ok?
    ensures !r.Continue? ==> r.outputDir == FlagValue(args).value
  {
    var found := FlagValue(args);
    if found.None? then Continue
    else if buildStatic.Ok? then Built(found.value)
    else Exit(1, found.value)
  }

  /** `BuildStatic`: the status of `ssrBuild` on the registered modules; the
      output directory only configures the asset pipeline. */
  function BuildStaticStatus(reg0: Components.Registry, mods: seq<Handlers.RegisteredModule>, o: SsrBuild.Orders)
    : (s: Status)
    requires SsrBuild.ValidOrders(SsrBuild.Discover(reg0, mods), o)
    ensures s == Ok
  {
    SsrBuild.SsrBuild(reg0, mods, o).status
  }

  /** Since `ssrBuild` never fails, a program asked for a static build always
      builds and returns true; it never exits. */
  lemma AutoBuildNeverExits(args: seq<string>, reg0: Components.Registry, mods: seq<Handlers.RegisteredModule>,
                            o: SsrBuild.Orders)
    requires SsrBuild.ValidOrders(SsrBuild.Discover(reg0, mods), o)
    ensures !AutoBuild(args, BuildStaticStatus(reg0, mods, o)).Exit?
    ensures FlagValue(args).Some? ==> AutoBuild(args, BuildStaticStatus(reg0, mods, o)) == Built(FlagValue(args).value)
  {
  }

  /** The first usable flag decides: what follows a later flag is ignored. */
  lemma FirstFlagWins(prefix: seq<string>, dir: string, rest: seq<string>)
    requires FlagValue(prefix).None? && (|prefix| == 0 || prefix[|prefix| - 1] != StaticBuildFlag)
    ensures FlagValue(prefix + [StaticBuildFlag, dir] + rest) == Some(dir)
  {
    var args := prefix + [StaticBuildFlag, dir] + rest;
    var n := |prefix|;
    assert Usable(args, n) && args[n + 1] == dir;
    forall k | 0 <= k < n
      ensures !Usable(args, k)
    {
      assert args[k] == prefix[k];
      if k + 1 < n {
        assert !Usable(prefix, k);
      }
    }
    FromSkips(args, 0, n);
  }

  /** Skipping indices where no usable flag sits. */
  lemma {:induction false} FromSkips(args: seq<string>, i: nat, n: nat)
    requires i <= n < |args| && Usable(args, n) && NoneUsable(args, i, n)
    ensures FlagValueFrom(args, i) == Some(args[n + 1])
    decreases n - i
  {
    if i < n {
      FromSkips(args, i + 1, n);
    }
  }

  /** A flag with nothing after it is ignored, so the program carries on
      (unless the program's own name is the flag, which then counts). */
  lemma TrailingFlagIgnored(bin: string)
    requires bin != StaticBuildFlag
    ensures AutoBuild([bin, StaticBuildFlag], Ok) == Continue
    ensures AutoBuild([bin], Ok) == Continue
  {
    var args := [bin, StaticBuildFlag];
    assert args[0] != StaticBuildFlag;
    assert !Usable(args, 0);
    assert !Usable(args, 1);
    assert NoneUsable(args, 0, 2);
    assert !Usable([bin], 0);
  }
}
