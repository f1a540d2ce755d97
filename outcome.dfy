/**
 * What the daemon's operations hand back to the library: a value, or an error
 * that the daemon reports with reply_with_error.  External tools are not run
 * here; what a run of one printed, or that it failed, is an input (ToolRun).
 */
module Outcome {

  datatype Option<+T> = None | Some(value: T)

  /** Why a daemon operation failed; the text of the reported message is not modelled. */
  datatype Error =
    | ToolFailed(stderr: string)          // the external program exited with an error
    | TruncatedOutput                     // tune2fs printed its banner line and nothing else
    | NoFilesystemUuid                    // no "Filesystem UUID:" line in tune2fs -l output
    | MalformedUuid                       // that line has no UUID, or it is not terminated
    | NoMke2fsBinary                      // neither /sbin/mke4fs nor /sbin/mke2fs exists
    | BadBlockSize                        // block size not > 0 or not a power of 2
    | SectorSizeUnavailable               // the device sector size could not be read
    | UnsupportedClusterSize(sectorsPerCluster: int)

  datatype Reply<+T> = Ok(value: T) | Err(error: Error)

  /** The outcome of running an external program: its standard output or its error text. */
  datatype ToolRun = Succeeded(stdout: string) | Failed(stderr: string)

  /**
   * Running the command `cmd`, when it could be built: the daemon replies with
   * success exactly when the tool succeeds, and the argument vector that was run
   * is carried in the reply so that it stays observable.
   */
  function RunCommand(cmd: Reply<seq<string>>, run: ToolRun): (r: Reply<seq<string>>)
    ensures r.Ok? <==> cmd.Ok? && run.Succeeded?
    ensures r.Ok? ==> r.value == cmd.value
    ensures cmd.Err? ==> r.error == cmd.error
    ensures cmd.Ok? && run.Failed? ==> r.error == ToolFailed(run.stderr)
  {
    match cmd
    case Err(e) => Err(e)
    case Ok(argv) =>
      match run
      case Succeeded(_) => Ok(argv)
      case Failed(err) => Err(ToolFailed(err))
  }
}
