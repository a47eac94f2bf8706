# rust_solc in Dafny

`rust_solc` is a small Rust library that drives the Solidity compiler as an external process.
It runs either the native `solc` or the JavaScript `solcjs`, whichever is available, in that order.
This project models the decisions `src/lib.rs` makes around those processes:

- **Version probe** (`common_version`): runs `<cmd> --version` and classifies the outcome.
  A process that could not be started, a non-success exit status (checked before anything is
  decoded), standard output that is not UTF-8, and empty output are four distinct errors.
  Otherwise the result is the last line of the output, as Rust's `str::lines().last()` gives it.
- **Availability and backend selection** (`is_solc_available`, `is_solcjs_available`, and the
  prologue of `compile` and `standard_json`): a backend is available when its probe succeeds.
  `solc` is probed first; `solcjs` is probed only when `solc` is unavailable; `solc` wins when
  both are there; with neither, the result is `NoSolidityCompilerFound` and nothing else runs.
- **Solidity file filter** (`solidity_file_paths`): a loop that keeps a directory entry unless
  it has an extension other than exactly `sol`, with Rust's `Path::extension` rules.
- **Directory compile** (`compile`, `solc_compile`, `solcjs_compile`): the backend is chosen once,
  then every kept file is compiled in listing order with the fixed argument vector
  `--bin --abi --overwrite --optimize --output-dir <out> <file>`, stopping at the first failure.
- **Standard-JSON mode** (`standard_json`, `common_standard_json`): the request is written to
  `<cmd> --standard-json`, and its standard output, decoded as UTF-8, is returned verbatim.
  Every failure of `common_standard_json` is labelled with the full command `<cmd> --standard-json`,
  and each failing step (spawn, stdin, write, wait, exit status, UTF-8) gives its own error kind.

The model is arranged in these modules:

| file | module | contents |
|---|---|---|
| `common.dfy` | `Common` | `Option` |
| `utf8.dfy` | `Utf8` | well-formed UTF-8: an encoder (`str::as_bytes`) and a decoder (`String::from_utf8`), proved inverse |
| `lines.dfy` | `Lines` | `str::lines` and `last()` |
| `paths.dfy` | `Paths` | `Path::file_name` and `Path::extension` |
| `process.dfy` | `Process` | commands, exit statuses, process outcomes, the library's error kinds |
| `solc_lib.dfy` | `SolcLib` | the operations of `src/lib.rs` |

Processes are not run. Each operation receives the host's answers as oracle functions:

- `run: Command -> Outcome` answers `Command::output`.
- `pipe: (Command, seq<Byte>) -> Session` answers the sequence "spawn with pipes, write the
  request to standard input, `wait_with_output`".

The entry points also return the commands they launch, in order. That is how the contracts
state the probe order, the fail-fast loop, and that no compiler process runs when no backend is
available.

The two loops of the source are methods proved against specification functions:

- `SolidityFilePaths` ensures its result equals `SolidityPaths(entries)`.
- `CompileFiles` ensures its result and launched commands are given by `FirstFailure` and `Attempted`.

`Compile` composes them after the backend selection.

## Model

| member | source | states |
|---|---|---|
| `Utf8.EncodeChar` | src/lib.rs:191 | one scalar value encodes to 1 to 4 bytes; a single byte exactly for ASCII; every byte after the first is a continuation byte |
| `Utf8.Encode` | src/lib.rs:191 | the bytes of a string are at least as many as its characters, and empty exactly for the empty string |
| `Utf8.DecodeFirst` | src/lib.rs:149 | a successful decode of the leading sequence consumes 1 to 4 bytes, never more than there are |
| `Utf8.Decode` | src/lib.rs:149 | `String::from_utf8`: never more characters than bytes; `DecodeIffEncode` proves it the exact inverse of `Encode` |
| `Utf8.DecodeFirstEncodeChar` | src/lib.rs:149 | decoding the encoding of a character, whatever follows it, gives that character and its byte count |
| `Utf8.EncodeCharDecodeFirst` | src/lib.rs:149 | the bytes a successful leading decode consumes are exactly the encoding of the character it returns |
| `Utf8.DecodeCons` | src/lib.rs:212 | a successful decode is the first decoded character followed by the successful decode of the remaining bytes |
| `Utf8.EncodeCons` | src/lib.rs:191 | the bytes of a string are those of its first character followed by those of the rest |
| `Utf8.DecodeEncode` | src/lib.rs:149 | `String::from_utf8` of the bytes of a string gives back that string |
| `Utf8.EncodeDecode` | src/lib.rs:212 | whatever decodes successfully is re-encoded to exactly the same bytes |
| `Utf8.DecodeIffEncode` | src/lib.rs:212 | bytes decode to a string if and only if that string encodes to those bytes |
| `Lines.Split` | src/lib.rs:152 | `str::split('\n')`: always at least one piece; `JoinSplit` and `SplitJoin` make it the inverse of joining with `'\n'` |
| `Lines.SplitTerminator` | src/lib.rs:152 | `str::split_terminator('\n')`: the pieces of `Split` without an empty final one; used by `Lines` and characterised through `LastLineAt` |
| `Lines.Lines` | src/lib.rs:152 | `str::lines`: each piece of `SplitTerminator` with one trailing `'\r'` removed; its last element is characterised by `LastLineAt` and `LastLineNone` |
| `Lines.JoinSplit` | src/lib.rs:152 | splitting at `'\n'` loses nothing: the pieces hold no `'\n'` and joining them restores the text |
| `Lines.SplitJoin` | src/lib.rs:152 | splitting the join of separator-free pieces gives the pieces back |
| `Lines.LastLine` | src/lib.rs:151-153 | `str::lines().last()`; characterised by `LastLineAt` (the closed form), `LastLineNone` and `LastLineHasNoNewline` |
| `Lines.LastLineAt` | src/lib.rs:151-153 | the last line is the text after the last `'\n'` of the output once one final `'\n'` is removed, without one trailing `'\r'` |
| `Lines.LastLineNone` | src/lib.rs:151-154 | there is no last line (the "empty" error) exactly when the output is empty |
| `Lines.LastLineHasNoNewline` | src/lib.rs:151-155 | the version returned is a single line: it holds no `'\n'` |
| `Lines.BannerLastLine` | src/lib.rs:151-155 | `"\nfoo\nv0.8.1+commit\n"` has last line `"v0.8.1+commit"` |
| `Lines.BlankLastLine` | src/lib.rs:151-155 | `"a\n\n"` has last line `""`: empty lines are not skipped |
| `Lines.CrLfLastLine` | src/lib.rs:151-155 | a `"\r\n"` terminator is removed entirely |
| `Paths.FileName` | src/lib.rs:125-126 | the file name is a `'/'`-free suffix of the path, preceded by `'/'` when shorter than it |
| `Paths.FileNameAfterSlash` | src/lib.rs:124-126 | the file name of a directory path joined with an entry name is that entry name |
| `Paths.NameExtension` | src/lib.rs:126 | `Path::extension` of a file name: a dot-free text shorter than the name by more than its dot; `ExtensionShape`, `ExtensionOf` and `NoExtension` pin it down, and the body maps `".."` to None as Rust does |
| `Paths.Extension` | src/lib.rs:126 | the extension of a path holds neither `'.'` nor `'/'`; it is the extension of the path's file name |
| `Paths.ExtensionShape` | src/lib.rs:126 | an extension is the dot-free text after a dot that is not the first character of the name |
| `Paths.ExtensionOf` | src/lib.rs:126 | a non-empty stem, a dot and a dot-free tail has that tail as its extension |
| `Paths.NoExtension` | src/lib.rs:126 | a name with no dot after its first character (`Makefile`, `.sol`) has no extension |
| `SolcLib.CommonVersion` | src/lib.rs:138-157 | spawn failure, then a non-success status with that exact status whatever the output, then non-UTF-8, then empty output are the errors; Ok exactly when the process succeeded with non-empty UTF-8 output; the value is its last line and holds no `'\n'` |
| `SolcLib.Version` | src/lib.rs:45-47 | `solc_version` and `solcjs_version`: `CommonVersion` of the host's answer to `<name> --version`; `BannerVersion` shows a banner's version extracted |
| `SolcLib.IsAvailable` | src/lib.rs:37-39 | `is_solc_available` and `is_solcjs_available`: the probe returned Ok; `AvailableIff` states when that is |
| `SolcLib.AvailableIff` | src/lib.rs:37-39 | a backend is available exactly when its `--version` process starts, succeeds and prints non-empty UTF-8 |
| `SolcLib.BannerVersion` | src/lib.rs:149-156 | a successful probe printing `"\nfoo\nv0.8.1+commit\n"` reports `"v0.8.1+commit"` |
| `SolcLib.SelectBackend` | src/lib.rs:18-22 | the chosen backend is available; none is chosen exactly when neither is available; `solc` is chosen whenever it is available; `solcjs` is probed only when `solc` is not |
| `SolcLib.CompileCommand` | src/lib.rs:57-64 | the argv `--bin --abi --overwrite --optimize --output-dir <out> <file>` of either backend; `CompileBackendsAgree` proves both share it |
| `SolcLib.CompileFile` | src/lib.rs:53-75 | Ok exactly when the compile process ran and succeeded, and then the output is returned unchanged; a spawn failure or a non-success status names the bare backend, with that exact status |
| `SolcLib.CompileBackendsAgree` | src/lib.rs:96-118 | `solcjs_compile` builds the same arguments as `solc_compile` and classifies the same outcome the same way, up to the backend named in the error |
| `SolcLib.IsSolidityPath` | src/lib.rs:126-130 | the test of the loop: no extension, or exactly `sol`; `SolFileKept`, `ExtensionlessKept` and `OtherExtensionDropped` show each case |
| `SolcLib.SolidityPaths` | src/lib.rs:121-135 | the listed entries that pass `IsSolidityPath`, in order (`Filter` with that test); `SolidityPathsMembers` and `SolidityPathsAppend` characterise it |
| `SolcLib.FilterAppend` | src/lib.rs:124-132 | for any test, filtering a concatenation filters each part in turn |
| `SolcLib.FilterMembers` | src/lib.rs:126-131 | for any test, an entry is kept if and only if it is listed and passes the test |
| `SolcLib.FilterStep` | src/lib.rs:124-131 | for any test, one more entry is appended to the kept ones exactly when it passes |
| `SolcLib.SolidityPathsAppend` | src/lib.rs:124-132 | filtering a concatenation filters each part: the kept entries keep their listing order |
| `SolcLib.SolidityPathsMembers` | src/lib.rs:126-131 | an entry is kept if and only if it was listed and has no extension or exactly `sol` |
| `SolcLib.SolidityPathsStep` | src/lib.rs:124-131 | each further entry appends itself to the kept paths exactly when it passes the filter |
| `SolcLib.SolFileKept` | src/lib.rs:126-131 | an entry `<stem>.sol` is kept |
| `SolcLib.ExtensionlessKept` | src/lib.rs:126-131 | an entry without an extension, such as `Makefile` or `.sol`, is kept |
| `SolcLib.OtherExtensionDropped` | src/lib.rs:126-129 | an entry with any other extension, `SOL` included, is dropped |
| `SolcLib.SolidityFilePaths` | src/lib.rs:121-135 | the loop returns exactly the listed entries that pass the filter, in listing order |
| `SolcLib.FirstFailure` | src/lib.rs:24-30 | every path before the returned position compiles, and the path at that position, if any, fails |
| `SolcLib.CompileCommandsStep` | src/lib.rs:24-30 | compiling one more path launches its compile command after the earlier ones |
| `SolcLib.CompileFiles` | src/lib.rs:24-31 | the paths are compiled in order up to and including the first failure and no further; that failure is returned; Ok exactly when every path compiles |
| `SolcLib.Compile` | src/lib.rs:14-32 | with no backend, `NoSolidityCompilerFound` after launching only the probes; otherwise the probes, then the compiles of the kept files with the one backend chosen, fail-fast; Ok exactly when a backend exists and every kept file compiles |
| `SolcLib.FailFastPlan` | src/lib.rs:24-30 | with `a` compiling and `b` failing, the run over `[a, b, d]` stops at `b` and attempts `a` and `b` only |
| `SolcLib.FailFastExample` | src/lib.rs:24-30 | over the kept files `a`, `b`, `d` with `a` compiling and `b` failing: exactly `a` and then `b` are compiled, and `b`'s failure is returned |
| `SolcLib.JsonCommand` | src/lib.rs:176-179 | the command `<cmd> --standard-json`, whose full text labels every error of `CommonStandardJson` |
| `SolcLib.CommonStandardJson` | src/lib.rs:175-220 | every error names `<cmd> --standard-json`; a spawn failure, a missing stdin, a failed write, a failed wait, a non-success status (with that status) and non-UTF-8 output each give their own error kind; Ok exactly when the session completed with success status and UTF-8 output; the value re-encodes to exactly the output bytes |
| `SolcLib.EchoRoundTrip` | src/lib.rs:191-219 | a compiler that echoes the request back makes the call return the request itself |
| `SolcLib.StandardJson` | src/lib.rs:159-173 | `NoSolidityCompilerFound` exactly when no backend is available, having launched exactly the `solc` probe and then the `solcjs` probe; otherwise the probes, then one `--standard-json` session with `solc` if available, else `solcjs` |
| `SolcLib.FailingToolchain` | src/lib.rs:18-22 | when every process fails with one status: each probe and compile reports that status, neither backend is available, and both probes run before `NoSolidityCompilerFound` |

## Left out

- Process creation, pipes, `write_all` and `wait_with_output` are I/O. They are the oracle functions `run` and `pipe`. The write-then-wait order, and the deadlock it can cause with a large response, is not modelled.
- `std::fs::read_dir` and its per-entry errors (src/lib.rs:124-125) are I/O. The listing is an input sequence of the paths it yields, each the directory joined with an entry name. So `Compile` has no I/O error case for the listing.
- The `error_chain` context messages (src/lib.rs:66, 142, 150, 154, 183-203) are not modelled. Each context is a variant of the model's own `Error` datatype that carries the command it names. `src/error.rs` is not part of this model.
- The contents of the JSON request and response are passed through as opaque strings.
- `NoStdin`: with `Stdio::piped()`, `process.stdin` is always present in practice. The model still keeps the error path of src/lib.rs:186-189.
- `compile` tests `is_solc_available` again on every iteration (src/lib.rs:25). It is the same immutable flag each time, so the model chooses the backend once.
- `Lines.LastLine` follows `str::lines` as the crate's toolchain defined it: split at `'\n'`, then remove one trailing `'\r'` from every piece. Recent Rust releases keep a bare `'\r'` at the very end of the text (`"v1\r"` gives `"v1\r"` there and `"v1"` here).
- The last line is taken as the code takes it, even when it is empty (`"a\n\n"` gives `""`). The code does not look for the last non-empty line.
- The filter keeps entries without an extension (directories, `Makefile`, `.sol`) as well as `*.sol` files, because the code only skips entries whose extension is present and different from `sol`.
- Paths are `string`s of Unicode scalar values. On Unix a `PathBuf` is a byte string, so an entry whose name is not valid UTF-8 but ends in `.sol` is kept by the source and cannot be expressed here.
- `Paths.FileName`: only paths of the form that `read_dir` yields matter here (a directory joined with one entry name). Rust's special handling of `.`, `..` and trailing slashes in other paths is not modelled, except that `".."` has no extension.
- The example programs under `example/` are demos that print results. They call a function that `src/lib.rs` does not define.
- Exit statuses are an exit code or a signal number. Platform-specific status encodings are not modelled.
