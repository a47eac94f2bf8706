/**
 * The decisions the library makes around the Solidity compiler processes it runs:
 * reading the version banner, choosing between the `solc` and `solcjs` backends,
 * picking the Solidity files of a directory, and classifying what each process reports.
 */
module SolcLib {
  import opened Common
  import opened Utf8
  import opened Lines
  import opened Paths
  import opened Process

  /** The two interchangeable compiler executables. */
  datatype Backend = Solc | SolcJs

  function Name(b: Backend): string
  {
    match b
    case Solc => "solc"
    case SolcJs => "solcjs"
  }

  // ---------------------------------------------------------------- version probe

  function VersionCommand(commandName: string): Command
  {
    Command(commandName, ["--version"])
  }

  /**
   * `common_version`: the last line of the standard output of `<commandName> --version`.
   * The exit status is judged before the output is decoded.
   */
  function CommonVersion(commandName: string, outcome: Outcome): (r: Result<string>)
    ensures outcome.SpawnError? ==> r == Err(SpawnFailed(commandName + " --version"))
    ensures outcome.Finished? && !outcome.output.status.Success() ==>
      r == Err(ExitStatusNotSuccess(commandName, outcome.output.status))
    ensures outcome.Finished? && outcome.output.status.Success() ==>
      (Decode(outcome.output.stdout).None? ==> r == Err(OutputNotUtf8(commandName + " --version"))) &&
      (outcome.output.stdout == [] ==> r == Err(OutputEmpty(commandName + " --version")))
    ensures r.Ok? <==>
      outcome.Finished? && outcome.output.status.Success() &&
      Decode(outcome.output.stdout).Some? && outcome.output.stdout != []
    ensures r.Ok? ==>
      r.value == LastLine(Decode(outcome.output.stdout).value).value && LF !in r.value
  {
    match outcome
    case SpawnError => Err(SpawnFailed(commandName + " --version"))
    case Finished(output) =>
      if !output.status.Success() then
        Err(ExitStatusNotSuccess(commandName, output.status))
      else
        match Decode(output.stdout)
        case None => Err(OutputNotUtf8(commandName + " --version"))
        case Some(text) =>
          LastLineNone(text);
          DecodeIffEncode(output.stdout, text);
          match LastLine(text)
          case None => Err(OutputEmpty(commandName + " --version"))
          case Some(line) =>
            LastLineHasNoNewline(text);
            Ok(line)
  }

  /** `solc_version` and `solcjs_version`: the probe of one backend, as the host answers it. */
  function Version(b: Backend, run: Command -> Outcome): Result<string>
  {
    CommonVersion(Name(b), run(VersionCommand(Name(b))))
  }

  /** `is_solc_available` and `is_solcjs_available`. */
  predicate IsAvailable(b: Backend, run: Command -> Outcome)
  {
    Version(b, run).Ok?
  }

  /**
   * A backend is available exactly when its `--version` process starts, exits successfully
   * and prints non-empty, well-formed UTF-8.
   */
  lemma AvailableIff(b: Backend, run: Command -> Outcome)
    ensures var outcome := run(VersionCommand(Name(b)));
      IsAvailable(b, run) <==>
        outcome.Finished? && outcome.output.status.Success() &&
        Decode(outcome.output.stdout).Some? && outcome.output.stdout != []
  {
  }

  /** A banner whose last line is preceded by a blank line and followed by a newline. */
  lemma BannerVersion(commandName: string, stderr: seq<Byte>)
    ensures CommonVersion(commandName,
      Finished(Output(Exited(0), Encode("\nfoo\nv0.8.1+commit\n"), stderr))) == Ok("v0.8.1+commit")
  {
    DecodeEncode("\nfoo\nv0.8.1+commit\n");
    BannerLastLine();
  }

  // ---------------------------------------------------------------- backend selection

  /** The backend chosen, if any, and the version probes launched to choose it. */
  datatype Selection = Selection(backend: Option<Backend>, launched: seq<Command>)

  /**
   * The choice made by `compile` and `standard_json`: `solc` is probed first, `solcjs` only
   * when `solc` is unavailable, and `solc` is preferred.
   */
  function SelectBackend(run: Command -> Outcome): (s: Selection)
    ensures s.backend.Some? ==> IsAvailable(s.backend.value, run)
    ensures s.backend.None? <==> forall b: Backend :: !IsAvailable(b, run)
    ensures IsAvailable(Solc, run) ==> s.backend == Some(Solc)
    ensures s.launched ==
      if IsAvailable(Solc, run) then [VersionCommand("solc")]
      else [VersionCommand("solc"), VersionCommand("solcjs")]
  {
    var isSolcAvailable := IsAvailable(Solc, run);
    if !isSolcAvailable && !IsAvailable(SolcJs, run) then
      Selection(None, [VersionCommand("solc"), VersionCommand("solcjs")])
    else if isSolcAvailable then
      Selection(Some(Solc), [VersionCommand("solc")])
    else
      Selection(Some(SolcJs), [VersionCommand("solc"), VersionCommand("solcjs")])
  }

  // ---------------------------------------------------------------- argument mode

  /** The argument vector of `solc_compile` and `solcjs_compile`. */
  function CompileCommand(b: Backend, inputFile: Path, outputDir: Path): Command
  {
    Command(Name(b), ["--bin", "--abi", "--overwrite", "--optimize", "--output-dir", outputDir, inputFile])
  }

  /**
   * `solc_compile` and `solcjs_compile`: the outcome of the compile process, unchanged when it
   * exits successfully; a failure names the bare backend.
   */
  function CompileFile(b: Backend, inputFile: Path, outputDir: Path, run: Command -> Outcome): (r: Result<Output>)
    ensures var outcome := run(CompileCommand(b, inputFile, outputDir));
      && (r.Ok? <==> outcome.Finished? && outcome.output.status.Success())
      && (r.Ok? ==> r.value == outcome.output)
      && (outcome.SpawnError? ==> r == Err(SpawnFailed(Name(b))))
      && (outcome.Finished? && !outcome.output.status.Success() ==>
            r == Err(ExitStatusNotSuccess(Name(b), outcome.output.status)))
  {
    match run(CompileCommand(b, inputFile, outputDir))
    case SpawnError => Err(SpawnFailed(Name(b)))
    case Finished(output) =>
      if !output.status.Success() then Err(ExitStatusNotSuccess(Name(b), output.status))
      else Ok(output)
  }

  /**
   * `solcjs_compile` is `solc_compile` under another name: the same arguments, and the same
   * classification of the same outcome, up to the name in the error.
   */
  lemma CompileBackendsAgree(inputFile: Path, outputDir: Path, run: Command -> Outcome)
    requires run(CompileCommand(Solc, inputFile, outputDir)) == run(CompileCommand(SolcJs, inputFile, outputDir))
    ensures CompileCommand(Solc, inputFile, outputDir).args == CompileCommand(SolcJs, inputFile, outputDir).args
    ensures var r1, r2 := CompileFile(Solc, inputFile, outputDir, run), CompileFile(SolcJs, inputFile, outputDir, run);
      && r1.Ok? == r2.Ok?
      && (r1.Ok? ==> r1.value == r2.value)
      && (r1.Err? ==> r1.error.command == "solc" && r2.error.command == "solcjs" &&
                      r1.error.ExitStatusNotSuccess? == r2.error.ExitStatusNotSuccess?)
      && (r1.Err? && r1.error.ExitStatusNotSuccess? ==> r1.error.status == r2.error.status)
  {
  }

  // ---------------------------------------------------------------- Solidity files

  /** The filter of `solidity_file_paths`: no extension, or exactly `sol`. */
  predicate IsSolidityPath(p: Path)
  {
    var ext := Extension(p);
    ext.None? || ext.value == "sol"
  }

  /** The entries that `keep` accepts, in listing order. */
  function Filter(keep: Path -> bool, entries: seq<Path>): seq<Path>
  {
    if entries == [] then []
    else (if keep(entries[0]) then [entries[0]] else []) + Filter(keep, entries[1..])
  }

  lemma {:induction false} FilterAppend(keep: Path -> bool, a: seq<Path>, b: seq<Path>)
    ensures Filter(keep, a + b) == Filter(keep, a) + Filter(keep, b)
  {
    if a == [] {
      assert a + b == b;
    } else {
      var head := if keep(a[0]) then [a[0]] else [];
      assert (a + b)[0] == a[0] && (a + b)[1..] == a[1..] + b;
      assert Filter(keep, a + b) == head + Filter(keep, a[1..] + b);
      FilterAppend(keep, a[1..], b);
      assert head + (Filter(keep, a[1..]) + Filter(keep, b)) == (head + Filter(keep, a[1..])) + Filter(keep, b);
    }
  }

  lemma {:induction false} FilterMembers(keep: Path -> bool, entries: seq<Path>, p: Path)
    ensures p in Filter(keep, entries) <==> p in entries && keep(p)
  {
    if entries != [] {
      FilterMembers(keep, entries[1..], p);
      assert entries == [entries[0]] + entries[1..];
    }
  }

  /** The entries that `solidity_file_paths` keeps, in listing order. */
  function SolidityPaths(entries: seq<Path>): seq<Path>
  {
    Filter(IsSolidityPath, entries)
  }

  /** Filtering a concatenation filters each part, so the kept entries keep their order. */
  lemma SolidityPathsAppend(a: seq<Path>, b: seq<Path>)
    ensures SolidityPaths(a + b) == SolidityPaths(a) + SolidityPaths(b)
  {
    FilterAppend(IsSolidityPath, a, b);
  }

  /** An entry is kept exactly when it is listed and passes the filter. */
  lemma SolidityPathsMembers(entries: seq<Path>, p: Path)
    ensures p in SolidityPaths(entries) <==> p in entries && IsSolidityPath(p)
  {
    FilterMembers(IsSolidityPath, entries, p);
  }

  /** One more listed entry adds itself to the kept paths exactly when it passes the filter. */
  lemma FilterStep(keep: Path -> bool, entries: seq<Path>, i: nat)
    requires i < |entries|
    ensures Filter(keep, entries[..i + 1]) == Filter(keep, entries[..i]) + if keep(entries[i]) then [entries[i]] else []
  {
    var last := [entries[i]];
    assert entries[..i + 1] == entries[..i] + last;
    FilterAppend(keep, entries[..i], last);
    assert last[1..] == [];
    assert Filter(keep, last) == (if keep(entries[i]) then last else []) + Filter(keep, []);
  }

  lemma SolidityPathsStep(entries: seq<Path>, i: nat)
    requires i < |entries|
    ensures SolidityPaths(entries[..i + 1]) ==
      SolidityPaths(entries[..i]) + if IsSolidityPath(entries[i]) then [entries[i]] else []
  {
    FilterStep(IsSolidityPath, entries, i);
  }

  /** A directory path as `read_dir` joins it with entry names: it ends with `'/'`. */
  predicate IsDirPrefix(dir: Path)
  {
    dir != [] && dir[|dir| - 1] == Slash
  }

  /** An entry named `<stem>.sol`, with a non-empty stem, passes the filter. */
  lemma SolFileKept(dir: Path, stem: string)
    requires IsDirPrefix(dir) && stem != [] && Slash !in stem
    ensures IsSolidityPath(dir + stem + ".sol")
  {
    var sol := "sol";
    var name := stem + [Dot] + sol;
    assert |name| > 2;
    ExtensionOf(stem, sol);
    assert dir + stem + ".sol" == dir + name;
    FileNameAfterSlash(dir, name);
    assert Extension(dir + name) == Some(sol);
  }

  /** An entry whose name has no dot after its first character has no extension and passes the filter. */
  lemma ExtensionlessKept(dir: Path, name: string)
    requires IsDirPrefix(dir) && Slash !in name
    requires name == [] || Dot !in name[1..]
    ensures IsSolidityPath(dir + name)
  {
    FileNameAfterSlash(dir, name);
    NoExtension(name);
  }

  /** An entry with any other extension is dropped; the comparison is case-sensitive, so `SOL` is dropped. */
  lemma OtherExtensionDropped(dir: Path, stem: string, ext: string)
    requires IsDirPrefix(dir) && stem != [] && Slash !in stem && Slash !in ext
    requires Dot !in ext && ext != "sol" && stem + [Dot] + ext != ".."
    ensures !IsSolidityPath(dir + stem + [Dot] + ext)
  {
    var name := stem + [Dot] + ext;
    assert dir + stem + [Dot] + ext == dir + name;
    FileNameAfterSlash(dir, name);
    ExtensionOf(stem, ext);
  }

  /** `solidity_file_paths`, over the paths `read_dir` listed. */
  method SolidityFilePaths(entries: seq<Path>) returns (results: seq<Path>)
    ensures results == SolidityPaths(entries)
  {
    results := [];
    for i := 0 to |entries|
      invariant results == SolidityPaths(entries[..i])
    {
      var path := entries[i];
      SolidityPathsStep(entries, i);
      var extension := Extension(path);
      if extension.Some? && extension.value != "sol" {
        assert !IsSolidityPath(path);
        continue;
      }
      assert IsSolidityPath(path);
      results := results + [path];
    }
    assert entries[..|entries|] == entries;
  }

  // ---------------------------------------------------------------- directory compile

  /** The compile commands for `paths`, in order. */
  function CompileCommands(b: Backend, paths: seq<Path>, outputDir: Path): (cs: seq<Command>)
    ensures |cs| == |paths|
  {
    seq(|paths|, i requires 0 <= i < |paths| => CompileCommand(b, paths[i], outputDir))
  }

  /** The position of the first of `paths` that fails to compile, or `|paths|` when none does. */
  function FirstFailure(b: Backend, paths: seq<Path>, outputDir: Path, run: Command -> Outcome): (k: nat)
    ensures k <= |paths|
    ensures forall i :: 0 <= i < k ==> CompileFile(b, paths[i], outputDir, run).Ok?
    ensures k < |paths| ==> CompileFile(b, paths[k], outputDir, run).Err?
  {
    if paths == [] then 0
    else if CompileFile(b, paths[0], outputDir, run).Err? then 0
    else 1 + FirstFailure(b, paths[1..], outputDir, run)
  }

  /** How many of `paths` a fail-fast run attempts: up to and including the first failure. */
  function Attempted(b: Backend, paths: seq<Path>, outputDir: Path, run: Command -> Outcome): (n: nat)
    ensures n <= |paths|
  {
    var k := FirstFailure(b, paths, outputDir, run);
    if k < |paths| then k + 1 else k
  }

  lemma CompileCommandsStep(b: Backend, paths: seq<Path>, outputDir: Path, i: nat)
    requires i < |paths|
    ensures CompileCommands(b, paths[..i + 1], outputDir) ==
      CompileCommands(b, paths[..i], outputDir) + [CompileCommand(b, paths[i], outputDir)]
  {
  }

  /**
   * The loop of `compile`: compiles `paths` in order with `b` and stops at the first failure,
   * which it returns.
   */
  method CompileFiles(b: Backend, paths: seq<Path>, outputDir: Path, run: Command -> Outcome)
    returns (r: Result<()>, launched: seq<Command>)
    ensures launched == CompileCommands(b, paths[..Attempted(b, paths, outputDir, run)], outputDir)
    ensures var k := FirstFailure(b, paths, outputDir, run);
      r == if k < |paths| then Err(CompileFile(b, paths[k], outputDir, run).error) else Ok(())
    ensures r.Ok? <==> forall p :: p in paths ==> CompileFile(b, p, outputDir, run).Ok?
  {
    launched := [];
    for i := 0 to |paths|
      invariant launched == CompileCommands(b, paths[..i], outputDir)
      invariant forall j :: 0 <= j < i ==> CompileFile(b, paths[j], outputDir, run).Ok?
    {
      var result := CompileFile(b, paths[i], outputDir, run);
      CompileCommandsStep(b, paths, outputDir, i);
      launched := launched + [CompileCommand(b, paths[i], outputDir)];
      if result.Err? {
        ghost var k := FirstFailure(b, paths, outputDir, run);
        assert k == i;
        return Err(result.error), launched;
      }
    }
    ghost var k := FirstFailure(b, paths, outputDir, run);
    assert k == |paths|;
    assert paths[..|paths|] == paths;
    return Ok(()), launched;
  }

  /**
   * `compile`: selects a backend once, then compiles every Solidity file of the listing with
   * it, in listing order, and stops at the first failure.
   */
  method Compile(entries: seq<Path>, outputDir: Path, run: Command -> Outcome)
    returns (r: Result<()>, launched: seq<Command>)
    ensures var sel := SelectBackend(run);
      sel.backend.None? ==> r == Err(NoSolidityCompilerFound) && launched == sel.launched
    ensures var sel, paths := SelectBackend(run), SolidityPaths(entries);
      sel.backend.Some? ==>
        var b := sel.backend.value;
        var k := FirstFailure(b, paths, outputDir, run);
        && launched == sel.launched + CompileCommands(b, paths[..Attempted(b, paths, outputDir, run)], outputDir)
        && r == if k < |paths| then Err(CompileFile(b, paths[k], outputDir, run).error) else Ok(())
    ensures var sel := SelectBackend(run);
      r.Ok? <==> (sel.backend.Some? &&
        forall p :: p in SolidityPaths(entries) ==> CompileFile(sel.backend.value, p, outputDir, run).Ok?)
  {
    var isSolcAvailable := IsAvailable(Solc, run);
    launched := [VersionCommand("solc")];
    if !isSolcAvailable {
      launched := launched + [VersionCommand("solcjs")];
      if !IsAvailable(SolcJs, run) {
        return Err(NoSolidityCompilerFound), launched;
      }
    }
    var b := if isSolcAvailable then Solc else SolcJs;
    assert SelectBackend(run) == Selection(Some(b), launched);
    var paths := SolidityFilePaths(entries);
    var compiled;
    r, compiled := CompileFiles(b, paths, outputDir, run);
    launched := launched + compiled;
  }

  /** Compiling `a`, `b`, `d` where `a` compiles and `b` does not attempts `a` and `b` only. */
  lemma FailFastPlan(a: Path, b: Path, d: Path, outputDir: Path, run: Command -> Outcome)
    requires CompileFile(Solc, a, outputDir, run).Ok? && CompileFile(Solc, b, outputDir, run).Err?
    ensures FirstFailure(Solc, [a, b, d], outputDir, run) == 1
    ensures CompileCommands(Solc, [a, b, d][..Attempted(Solc, [a, b, d], outputDir, run)], outputDir) ==
      [CompileCommand(Solc, a, outputDir), CompileCommand(Solc, b, outputDir)]
  {
    var paths := [a, b, d];
    assert paths[1..] == [b, d];
    assert FirstFailure(Solc, paths, outputDir, run) == 1;
    assert paths[..2] == [a, b];
  }

  /**
   * The loop of `compile` over the Solidity files `a`, `b` and `d`, with `a` compiling and
   * `b` failing: exactly `a` and `b` are compiled, `b`'s failure is returned, and `d` is
   * never attempted.
   */
  method FailFastExample(a: Path, b: Path, d: Path, outputDir: Path, run: Command -> Outcome)
    returns (r: Result<()>, launched: seq<Command>)
    requires CompileFile(Solc, a, outputDir, run).Ok? && CompileFile(Solc, b, outputDir, run).Err?
    ensures launched == [CompileCommand(Solc, a, outputDir), CompileCommand(Solc, b, outputDir)]
    ensures r == Err(CompileFile(Solc, b, outputDir, run).error)
  {
    FailFastPlan(a, b, d, outputDir, run);
    r, launched := CompileFiles(Solc, [a, b, d], outputDir, run);
  }

  // ---------------------------------------------------------------- standard-JSON mode

  function JsonCommand(commandName: string): Command
  {
    Command(commandName, ["--standard-json"])
  }

  /**
   * `common_standard_json`: writes the request to `<commandName> --standard-json` and returns
   * its standard output decoded as UTF-8; every failure is labelled with the full command.
   */
  function CommonStandardJson(commandName: string, inputJson: string, pipe: (Command, seq<Byte>) -> Session)
    : (r: Result<string>)
    ensures r.Err? ==> r.error.HasCommand() && r.error.command == commandName + " --standard-json"
    ensures var session, full := pipe(JsonCommand(commandName), Encode(inputJson)), commandName + " --standard-json";
      && (session.SessionSpawnError? ==> r == Err(SpawnFailed(full)))
      && (session.NoStdin? ==> r == Err(StdinUnavailable(full)))
      && (session.WriteError? ==> r == Err(StdinWriteFailed(full)))
      && (session.WaitError? ==> r == Err(OutputReadFailed(full)))
      && (session.Completed? && !session.output.status.Success() ==>
            r == Err(ExitStatusNotSuccess(full, session.output.status)))
      && (session.Completed? && session.output.status.Success() && Decode(session.output.stdout).None? ==>
            r == Err(OutputNotUtf8(full)))
    ensures var session := pipe(JsonCommand(commandName), Encode(inputJson));
      && (r.Ok? <==> session.Completed? && session.output.status.Success() && Decode(session.output.stdout).Some?)
      && (r.Ok? ==> Encode(r.value) == session.output.stdout)
  {
    var fullCommand := commandName + " --standard-json";
    match pipe(JsonCommand(commandName), Encode(inputJson))
    case SessionSpawnError => Err(SpawnFailed(fullCommand))
    case NoStdin => Err(StdinUnavailable(fullCommand))
    case WriteError => Err(StdinWriteFailed(fullCommand))
    case WaitError => Err(OutputReadFailed(fullCommand))
    case Completed(output) =>
      if !output.status.Success() then
        Err(ExitStatusNotSuccess(fullCommand, output.status))
      else
        match Decode(output.stdout)
        case None => Err(OutputNotUtf8(fullCommand))
        case Some(outputJson) =>
          EncodeDecode(output.stdout);
          Ok(outputJson)
  }

  /** A compiler that echoes its request back returns the request itself. */
  lemma EchoRoundTrip(commandName: string, inputJson: string, pipe: (Command, seq<Byte>) -> Session)
    requires var session := pipe(JsonCommand(commandName), Encode(inputJson));
      session.Completed? && session.output.status.Success() && session.output.stdout == Encode(inputJson)
    ensures CommonStandardJson(commandName, inputJson, pipe) == Ok(inputJson)
  {
    var session := pipe(JsonCommand(commandName), Encode(inputJson));
    DecodeEncode(inputJson);
    assert Decode(session.output.stdout) == Some(inputJson);
  }

  /** `standard_json`: selects a backend as `compile` does, then runs `common_standard_json` with it. */
  function StandardJson(inputJson: string, run: Command -> Outcome, pipe: (Command, seq<Byte>) -> Session)
    : (t: Traced<string>)
    ensures t.result == Err(NoSolidityCompilerFound) <==> forall b: Backend :: !IsAvailable(b, run)
    ensures (forall b: Backend :: !IsAvailable(b, run)) ==>
      t.launched == [VersionCommand("solc"), VersionCommand("solcjs")]
    ensures IsAvailable(Solc, run) ==>
      t == Traced(CommonStandardJson("solc", inputJson, pipe), [VersionCommand("solc"), JsonCommand("solc")])
    ensures !IsAvailable(Solc, run) && IsAvailable(SolcJs, run) ==>
      t == Traced(CommonStandardJson("solcjs", inputJson, pipe),
                  [VersionCommand("solc"), VersionCommand("solcjs"), JsonCommand("solcjs")])
  {
    var sel := SelectBackend(run);
    match sel.backend
    case None => Traced(Err(NoSolidityCompilerFound), sel.launched)
    case Some(b) =>
      Traced(CommonStandardJson(Name(b), inputJson, pipe), sel.launched + [JsonCommand(Name(b))])
  }

  // ---------------------------------------------------------------- failing toolchain

  /**
   * A toolchain whose every process exits unsuccessfully: each probe and each compile reports
   * that exact status whatever was printed, no backend is available, and both entry points
   * report that no compiler was found, having launched nothing but the two probes.
   */
  lemma FailingToolchain(status: ExitStatus, run: Command -> Outcome, pipe: (Command, seq<Byte>) -> Session,
                         b: Backend, inputFile: Path, outputDir: Path, inputJson: string)
    requires !status.Success()
    requires forall c :: run(c).Finished? && run(c).output.status == status
    ensures Version(b, run) == Err(ExitStatusNotSuccess(Name(b), status))
    ensures CompileFile(b, inputFile, outputDir, run) == Err(ExitStatusNotSuccess(Name(b), status))
    ensures SelectBackend(run) == Selection(None, [VersionCommand("solc"), VersionCommand("solcjs")])
    ensures StandardJson(inputJson, run, pipe) ==
      Traced(Err(NoSolidityCompilerFound), [VersionCommand("solc"), VersionCommand("solcjs")])
  {
    assert !IsAvailable(Solc, run) && !IsAvailable(SolcJs, run);
  }
}
