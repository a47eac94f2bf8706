/**
 * The process boundary of the library: the commands it launches, what the operating system
 * reports back, and the library's error kinds. Processes themselves are not modelled: an
 * operation receives the host's answer to each command as an oracle function.
 */
module Process {
  import opened Utf8

  /** A program name and its argument vector. */
  datatype Command = Command(program: string, args: seq<string>)

  /** How a process ended: with an exit code, or killed by a signal (Unix). */
  datatype ExitStatus = Exited(code: int) | Signaled(signal: int) {
    /** `ExitStatus::success`: exited with code 0. */
    predicate Success() {
      this == Exited(0)
    }
  }

  /** `std::process::Output`: the status and the captured output streams. */
  datatype Output = Output(status: ExitStatus, stdout: seq<Byte>, stderr: seq<Byte>)

  /** What `Command::output` gives: the process could not be started, or it ran to completion. */
  datatype Outcome = SpawnError | Finished(output: Output)

  /**
   * A piped session: `spawn` with piped standard streams, writing the request to standard
   * input, then `wait_with_output`. Each step may fail; otherwise the process completes.
   */
  datatype Session = SessionSpawnError | NoStdin | WriteError | WaitError | Completed(output: Output)

  /** The failures the library reports; each but the first names the command concerned. */
  datatype Error =
    | NoSolidityCompilerFound
    | SpawnFailed(command: string)
    | StdinUnavailable(command: string)
    | StdinWriteFailed(command: string)
    | OutputReadFailed(command: string)
    | ExitStatusNotSuccess(command: string, status: ExitStatus)
    | OutputNotUtf8(command: string)
    | OutputEmpty(command: string)
  {
    predicate HasCommand() {
      !NoSolidityCompilerFound?
    }
  }

  datatype Result<T> = Ok(value: T) | Err(error: Error)

  /** A result together with every command launched to obtain it, in launch order. */
  datatype Traced<T> = Traced(result: Result<T>, launched: seq<Command>)
}
