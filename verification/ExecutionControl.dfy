/** `TranscriptionExecutionControl`: the cancellation and cleanup signals of one execution. */
module ExecutionControl {

  class TranscriptionExecutionControl {
    var providerCancellation: bool
    var cancellationRequested: bool
    var cleanupComplete: bool

    constructor ()
      ensures !providerCancellation && !cancellationRequested && !cleanupComplete
    {
      providerCancellation := false;
      cancellationRequested := false;
      cleanupComplete := false;
    }

    /** Signals are only ever set. */
    method RequestCancellation()
      modifies this
      ensures providerCancellation && cancellationRequested && cleanupComplete == old(cleanupComplete)
    {
      providerCancellation := true;
      cancellationRequested := true;
    }
  }
}
