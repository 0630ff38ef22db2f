/** The shared run-scoped state and the manifest record of a module, as the
    downloader reads them. */
module Core {
  import opened Wrappers

  type byte = b: int | 0 <= b < 256

  /** A module entry of the distribution manifest. `splitFileCount` is None when
      the field is undefined or not a finite number; `completeFileSize` is None
      when undefined. */
  datatype DistributionModule = DistributionModule(
    name: string,
    hash: string,
    splitFileCount: Option<int>,
    completeFileSize: Option<nat>)

  datatype Operation = InstallModuleDownload

  /** `ctx.currentPhase`: what the run is doing now. */
  datatype Phase = Phase(op: Operation, distributionModule: DistributionModule, moduleIndex: nat)

  /** The context shared by every downloader of one install run. */
  class FragmenterContext {
    var currentPhase: Option<Phase>
    /** Set once an unrecoverable error has been classified; never reset. */
    var unrecoverableErrorEncountered: bool
    /** `signal.aborted`: whether the run's abort signal has fired. */
    var signalAborted: bool
    /** `options.userAgent`. */
    const userAgent: Option<string>

    constructor (userAgent: Option<string>)
      ensures this.userAgent == userAgent
      ensures currentPhase == None && !unrecoverableErrorEncountered && !signalAborted
    {
      this.userAgent := userAgent;
      currentPhase := None;
      unrecoverableErrorEncountered := false;
      signalAborted := false;
    }
  }
}
