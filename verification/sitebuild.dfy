/** The `sitebuild` command of cmd/sitebuild/main.go: it parses
    `[--out <dir>] <package-path>`, compiles the package into a temporary
    binary, runs that binary with `--ssr-static-build <dir>`, and exits 0
    only when every step succeeds.  The compiler, the subprocess and the
    temporary directory are oracles: each step's error is a parameter. */
module SiteBuildCli {
  import opened Common
  import StaticBuild

  const DefaultOutDir: string := "dist"

  /** `--out`, `-out` and `-o` all name the output directory. */
  predicate IsOutFlag(a: string) {
    a == "--out" || a == "-out" || a == "-o"
  }

  /** Why the argument loop stopped early. */
  datatype ParseError = MissingOutValue | Unexpected(arg: string) | MissingPackage

  /** Where the argument loop ends: the output directory and package it
      settled on, or the reason it returned 1. */
  datatype Scan = Scanned(outDir: string, pkg: string) | Failed(error: ParseError)

  /** The argument loop from index `i`, with the output directory and
      package read so far. */
  function ScanFrom(args: seq<string>, i: nat, outDir: string, pkg: string): (r: Scan)
    requires i <= |args|
    ensures r.Scanned? && r.pkg != pkg ==> r.pkg in args[i..]
    ensures r.Scanned? && r.outDir != outDir ==> r.outDir in args[i..]
    ensures r.Failed? ==> r.error != MissingPackage
    decreases |args| - i
  {
    if i == |args| then Scanned(outDir, pkg)
    else if IsOutFlag(args[i]) then
      if i + 1 >= |args| then Failed(MissingOutValue)
      else
        var r := ScanFrom(args, i + 2, args[i + 1], pkg);
        assert args[i + 2..] == args[i..][2..];
        r
    else if pkg != "" then Failed(Unexpected(args[i]))
    else
      var r := ScanFrom(args, i + 1, outDir, args[i]);
      assert args[i + 1..] == args[i..][1..];
      r
  }

  /** The arguments as `run` reads them: a package path is required. */
  function Parse(args: seq<string>): (r: Scan)
    ensures r.Scanned? ==> r.pkg != "" && r.pkg in args
    ensures r.Scanned? ==> r.outDir == DefaultOutDir || r.outDir in args
  {
    var s := ScanFrom(args, 0, DefaultOutDir, "");
    assert args[0..] == args;
    if s.Scanned? && s.pkg == "" then Failed(MissingPackage) else s
  }

  /** A call `run` makes on the builder. */
  datatype Call = Compile(pkg: string, outBin: string) | RunBinary(bin: string, args: seq<string>)

  /** The exit code and the builder calls, in order. */
  datatype Outcome = Outcome(code: int, calls: seq<Call>)

  /** The compiled binary's path inside the temporary directory. */
  function BinPath(tmpDir: string): (bin: string)
    ensures |bin| > 0 && bin[|bin| - 1] == 'p'
    ensures |bin| == |tmpDir| + |"/sitebuild_app"|
    ensures bin[..|tmpDir|] == tmpDir && bin[|tmpDir|..] == "/sitebuild_app"
  {
    tmpDir + "/sitebuild_app"
  }

  /** `run`, given the temporary directory `os.MkdirTemp` made or its error,
      and the errors of compiling and of running the binary. */
  function Run(args: seq<string>, tmpErr: Option<string>, tmpDir: string,
               buildErr: Option<string>, runErr: Option<string>): (r: Outcome)
    ensures r.code == 0 || r.code == 1
    ensures r.code == 0 <==> Parse(args).Scanned? && tmpErr.None? && buildErr.None? && runErr.None?
    ensures Parse(args).Failed? || tmpErr.Some? ==> r.calls == []
    ensures Parse(args).Scanned? && tmpErr.None? ==>
              && |r.calls| == (if buildErr.None? then 2 else 1)
              && r.calls[0] == Compile(Parse(args).pkg, BinPath(tmpDir))
              && (buildErr.None? ==>
                    r.calls[1] == RunBinary(BinPath(tmpDir), [StaticBuild.StaticBuildFlag, Parse(args).outDir]))
  {
    var p := Parse(args);
    var outBin := BinPath(tmpDir);
    if p.Failed? || tmpErr.Some? then Outcome(1, [])
    else
      var compile := Compile(p.pkg, outBin);
      if buildErr.Some? then Outcome(1, [compile])
      else
        var runCall := RunBinary(outBin, [StaticBuild.StaticBuildFlag, p.outDir]);
        Outcome(if runErr.Some? then 1 else 0, [compile, runCall])
  }

  // ------------------------------------------------------------- properties

  /** The loop run over `a + b` reaches the end of `a` in the state it
      reaches on `a` alone, provided `a` does not end on a dangling flag. */
  lemma {:induction false} ScanAppend(a: seq<string>, b: seq<string>, i: nat, outDir: string, pkg: string)
    requires i <= |a| && ScanFrom(a, i, outDir, pkg).Scanned?
    ensures var s := ScanFrom(a, i, outDir, pkg);
            ScanFrom(a + b, i, outDir, pkg) == ScanFrom(a + b, |a|, s.outDir, s.pkg)
    decreases |a| - i
  {
    var ab := a + b;
    if i < |a| {
      assert ab[i] == a[i];
      if IsOutFlag(a[i]) {
        assert ab[i + 1] == a[i + 1];
        ScanAppend(a, b, i + 2, a[i + 1], pkg);
      } else if pkg == "" {
        ScanAppend(a, b, i + 1, outDir, a[i]);
      }
    }
  }

  /** The loop over `a + b` from the end of `a` is the loop over `b`. */
  lemma {:induction false} ScanShift(a: seq<string>, b: seq<string>, j: nat, outDir: string, pkg: string)
    requires j <= |b|
    ensures ScanFrom(a + b, |a| + j, outDir, pkg) == ScanFrom(b, j, outDir, pkg)
    decreases |b| - j
  {
    var ab := a + b;
    if j < |b| {
      assert ab[|a| + j] == b[j];
      if IsOutFlag(b[j]) {
        if j + 1 < |b| {
          assert ab[|a| + j + 1] == b[j + 1];
          ScanShift(a, b, j + 2, b[j + 1], pkg);
        }
      } else if pkg == "" {
        ScanShift(a, b, j + 1, outDir, b[j]);
      }
    }
  }

  /** The last `--out` wins: appending `--out <dir>` to arguments that
      parse changes the output directory only. */
  lemma LastOutWins(args: seq<string>, flag: string, dir: string)
    requires IsOutFlag(flag) && Parse(args).Scanned?
    ensures Parse(args + [flag, dir]) == Scanned(dir, Parse(args).pkg)
  {
    assert args[0..] == args;
    ScanAppend(args, [flag, dir], 0, DefaultOutDir, "");
    var s := ScanFrom(args, 0, DefaultOutDir, "");
    ScanShift(args, [flag, dir], 0, s.outDir, s.pkg);
    assert [flag, dir][0] == flag && [flag, dir][1] == dir;
  }

  /** A second package path is rejected. */
  lemma SecondPackageRejected(args: seq<string>, extra: string)
    requires Parse(args).Scanned? && !IsOutFlag(extra)
    ensures Parse(args + [extra]) == Failed(Unexpected(extra))
  {
    assert args[0..] == args;
    ScanAppend(args, [extra], 0, DefaultOutDir, "");
    var s := ScanFrom(args, 0, DefaultOutDir, "");
    ScanShift(args, [extra], 0, s.outDir, s.pkg);
    assert [extra][0] == extra;
  }

  /** An output flag at the end is rejected when no output flag before it
      could have taken it as its value. */
  lemma {:induction false} DanglingOutFlag(args: seq<string>, i: nat, outDir: string, pkg: string)
    requires |args| > 0 && i < |args| && IsOutFlag(args[|args| - 1])
    requires forall k :: i <= k < |args| - 1 ==> !IsOutFlag(args[k])
    ensures ScanFrom(args, i, outDir, pkg).Failed?
    decreases |args| - i
  {
    if i < |args| - 1 {
      DanglingOutFlag(args, i + 1, outDir, args[i]);
    }
  }

  /** The usage vectors: a package alone builds into "dist"; `-o` before
      it changes the directory; a dangling `--out`, a missing package and
      a second package are each rejected; and a flag can be the value of
      the flag before it. */
  lemma ParseVectors()
    ensures Parse(["./cmd/myapp"]) == Scanned("dist", "./cmd/myapp")
    ensures Parse(["--out", "dist/", "./cmd/myapp"]) == Scanned("dist/", "./cmd/myapp")
    ensures Parse(["./cmd/myapp", "--out"]) == Failed(MissingOutValue)
    ensures Parse([]) == Failed(MissingPackage)
    ensures Parse(["-o", "out"]) == Failed(MissingPackage)
    ensures Parse(["a", "b"]) == Failed(Unexpected("b"))
    ensures Parse(["a", "-o", "--out"]) == Scanned("--out", "a")
  {
  }

  /** `run` hands the binary exactly the arguments `AutoBuild` looks for:
      the program sees `--ssr-static-build <outDir>` and builds into the
      directory `sitebuild` parsed. */
  lemma RunArgsReachAutoBuild(args: seq<string>, tmpDir: string, runErr: Option<string>)
    requires Parse(args).Scanned?
    ensures var r := Run(args, None, tmpDir, None, runErr);
            && |r.calls| == 2 && r.calls[1].RunBinary?
            && StaticBuild.FlagValue([r.calls[1].bin] + r.calls[1].args) == Some(Parse(args).outDir)
  {
    var r := Run(args, None, tmpDir, None, runErr);
    var bin := BinPath(tmpDir);
    var argv := [bin] + r.calls[1].args;
    assert bin != StaticBuild.StaticBuildFlag by {
      assert StaticBuild.StaticBuildFlag[|StaticBuild.StaticBuildFlag| - 1] == 'd';
    }
    assert !StaticBuild.Usable(argv, 0);
    assert StaticBuild.Usable(argv, 1);
    assert StaticBuild.FlagValueFrom(argv, 1) == Some(argv[2]);
  }
}
