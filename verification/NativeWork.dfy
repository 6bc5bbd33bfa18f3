/**
 Native inference permits and the hand-off of media: `TranscriptionOwnership`, `WhisperAcquirer` and
 the `finally` block of `TranscriptionExecutor.execute`.

 Any number of executions run interleaved. Each is in one of the phases below at a suspension
 point; an event lets one of them go on to its next one, or is a signal from outside.
 */
module NativeWork {
  import opened Options
  import opened StoreInvariant
  import opened ExecutionControl

  type ExecutionId = nat

  // ---------------------------------------------------------------- ownership of media

  /** The flags of an ownership, with how often its prepared audio was removed and its signal set. */
  datatype Ownership = Ownership(
    hasPrepared: bool,
    isRetained: bool,
    isCallerFinished: bool,
    isNativeCompleted: bool,
    isReleased: bool,
    removals: nat,
    isCleanupComplete: bool)

  function NewOwnership(hasPrepared: bool): Ownership {
    Ownership(hasPrepared, false, false, false, false, 0, false)
  }

  function ReleasedWhenFinished(own: Ownership): Ownership {
    if own.isReleased || !own.isCallerFinished then own
    else if own.isRetained && !own.isNativeCompleted then own
    else own.(isReleased := true, removals := own.removals + (if own.hasPrepared then 1 else 0),
        isCleanupComplete := true)
  }

  function Retained(own: Ownership): Ownership { ReleasedWhenFinished(own.(isRetained := true)) }

  function CallerFinished(own: Ownership): Ownership { ReleasedWhenFinished(own.(isCallerFinished := true)) }

  function NativeCompleted(own: Ownership): Ownership { ReleasedWhenFinished(own.(isNativeCompleted := true)) }

  class PreparedAudio {
    var removals: nat

    constructor ()
      ensures removals == 0
    {
      removals := 0;
    }

    method Cleanup()
      modifies this
      ensures removals == old(removals) + 1
    {
      removals := removals + 1;
    }
  }

  class TranscriptionOwnership {
    const preparedAudio: PreparedAudio?
    const control: TranscriptionExecutionControl

    var nativeRetained: bool
    var callerFinished: bool
    var nativeCompleted: bool
    var released: bool

    ghost function View(): Ownership
      reads this, control, preparedAudio
    {
      Ownership(preparedAudio != null, nativeRetained, callerFinished, nativeCompleted, released,
                if preparedAudio != null then preparedAudio.removals else 0, control.cleanupComplete)
    }

    constructor (preparedAudio: PreparedAudio?, control: TranscriptionExecutionControl)
      requires preparedAudio != null ==> preparedAudio.removals == 0
      requires !control.cleanupComplete
      ensures View() == NewOwnership(preparedAudio != null)
      ensures this.preparedAudio == preparedAudio && this.control == control
    {
      this.preparedAudio := preparedAudio;
      this.control := control;
      nativeRetained, callerFinished, nativeCompleted, released := false, false, false, false;
    }

    method RetainNativeWork()
      modifies this, control`cleanupComplete, preparedAudio
      ensures View() == Retained(old(View()))
    {
      nativeRetained := true;
      ReleaseWhenFinished();
    }

    method FinishCaller()
      modifies this, control`cleanupComplete, control`providerCancellation, preparedAudio
      ensures View() == CallerFinished(old(View())) && control.providerCancellation
    {
      callerFinished := true;
      control.providerCancellation := true;
      ReleaseWhenFinished();
    }

    method CompleteNativeWork()
      modifies this, control`cleanupComplete, preparedAudio
      ensures View() == NativeCompleted(old(View()))
    {
      nativeCompleted := true;
      ReleaseWhenFinished();
    }

    method ReleaseWhenFinished()
      modifies this`released, control`cleanupComplete, preparedAudio
      ensures View() == ReleasedWhenFinished(old(View()))
    {
      if released || !callerFinished {
        return;
      }
      if nativeRetained && !nativeCompleted {
        return;
      }
      released := true;
      if preparedAudio != null {
        preparedAudio.Cleanup();
      }
      control.cleanupComplete := true;
    }
  }

  /**
   The `finally` block of `execute`: without an ownership the caller cleans up itself and at once,
   with one it leaves that to whichever owner is done last.
   */
  method FinishExecution(
    ownership: TranscriptionOwnership?, preparedAudio: PreparedAudio?, control: TranscriptionExecutionControl)
    requires ownership != null ==> ownership.control == control && preparedAudio == null
    modifies control`cleanupComplete, control`providerCancellation
    modifies preparedAudio, ownership, if ownership != null then {ownership.preparedAudio} else {}
    ensures control.providerCancellation
    ensures ownership == null ==>
      control.cleanupComplete && (preparedAudio != null ==> preparedAudio.removals == old(preparedAudio.removals) + 1)
    ensures ownership != null ==> ownership.View() == CallerFinished(old(ownership.View()))
  {
    if ownership == null {
      control.providerCancellation := true;
      if preparedAudio != null {
        preparedAudio.Cleanup();
      }
      control.cleanupComplete := true;
    } else {
      ownership.FinishCaller();
    }
  }

  // ---------------------------------------------------------------- one execution

  /** Where the coroutine of `acquire` is; the `finally` of `execute` follows its end at once. */
  datatype Caller =
    | Preparing          // audio is prepared or downloaded
    | Queued             // waits for its permit request or for cancellation
    | Withdrawing        // waits for its permit request to be cancelled
    | Settling           // has its permit and waits for the cancellation waiter to end
    | Inferring          // waits for the native thread
    | Gone

  datatype Native = NotStarted | Running | Finished

  /** The task that waits for an abandoned native thread, with the directory it was given. */
  datatype Finalizer = NoFinalizer | Awaiting(requestDirectory: bool) | Completed

  /**
   One execution. The two locals are those of `acquire`, as its `finally` blocks read them; the counts
   are what the execution has done to the semaphore and to its request directory.
   */
  datatype Execution = Execution(
    caller: Caller,
    isCancellationRequested: bool,
    inferencePermitAcquired: bool,      // local of `acquire`
    requestDirectory: bool,             // local of `acquire`: is not None
    native: Native,
    finalizer: Finalizer,
    acquisitions: nat,
    releases: nat,
    directoriesMade: nat,
    directoryRemovals: nat,
    own: Ownership)

  function NewExecution(hasPrepared: bool): Execution {
    Execution(Preparing, false, false, false, NotStarted, NoFinalizer, 0, 0, 0, 0, NewOwnership(hasPrepared))
  }

  function Released(e: Execution): Execution { e.(releases := e.releases + 1) }

  /** The inner `finally` of `acquire`. */
  function InnerFinally(e: Execution): Execution {
    if e.inferencePermitAcquired then Released(e) else e
  }

  /** The outer `finally` of `acquire`. */
  function OuterFinally(e: Execution): Execution {
    if e.requestDirectory then e.(directoryRemovals := e.directoryRemovals + 1) else e
  }

  /** `acquire` is left from outside its inner `try`; `execute` finishes its ownership. */
  function Left(e: Execution): Execution {
    OuterFinally(e).(caller := Gone, own := CallerFinished(e.own))
  }

  /** `acquire` is left from inside its inner `try`. */
  function LeftInference(e: Execution): Execution { Left(InnerFinally(e)) }

  /** `_retain_abandoned_native_work`, and the two locals that its caller then clears. */
  function HandedOver(e: Execution): Execution {
    e.(own := Retained(e.own), finalizer := Awaiting(e.requestDirectory),
       inferencePermitAcquired := false, requestDirectory := false)
  }

  /** The `finally` of `_finalize_abandoned_native_work`. */
  function Finalized(e: Execution): Execution
    requires e.finalizer.Awaiting?
  {
    var cleaned := if e.finalizer.requestDirectory then e.(directoryRemovals := e.directoryRemovals + 1) else e;
    Released(cleaned).(own := NativeCompleted(e.own), finalizer := Completed)
  }

  datatype Event =
    | Start(id: ExecutionId, hasPrepared: bool)
    | RequestCancellation(id: ExecutionId)
    | FailPreparation(id: ExecutionId, madeDirectory: bool)
    | EndPreparation(id: ExecutionId)
    | GrantPermit(id: ExecutionId)
    | ResumeWait(id: ExecutionId, sawCancellation: bool)
    | EndWithdrawal(id: ExecutionId)
    | ResumeSettling(id: ExecutionId)
    | EndWorker(id: ExecutionId)
    | ResumeCaller(id: ExecutionId)
    | TimeOut(id: ExecutionId)
    | CancelTask(id: ExecutionId)
    | ResumeFinalizer(id: ExecutionId)
    | ConsumeFinalizer(id: ExecutionId)

  /** The permit request is given up: a permit that it got is released, a pending request is cancelled. */
  function GivenUp(e: Execution): Execution {
    if e.acquisitions > 0 then Left(Released(e)) else e.(caller := Withdrawing)
  }

  /** An execution goes on; an event that does not apply changes nothing. */
  function Continued(e: Execution, event: Event, permits: int): Execution {
    match event
    case Start(_, _) => e
    case RequestCancellation(_) => e.(isCancellationRequested := true)
    case FailPreparation(_, madeDirectory) =>
      // A directory that preparation made is removed by its own `finally`, ahead of the assignment.
      if !e.caller.Preparing? then e
      else if madeDirectory && !e.own.hasPrepared then Left(e.(directoriesMade := 1, directoryRemovals := 1))
      else Left(e)
    case EndPreparation(_) =>
      if !e.caller.Preparing? then e
      else
        var prepared := if e.own.hasPrepared then e else e.(directoriesMade := 1, requestDirectory := true);
        if e.isCancellationRequested then Left(prepared) else prepared.(caller := Queued)
    case GrantPermit(_) =>
      if e.caller.Queued? && e.acquisitions == 0 && permits > 0 then e.(acquisitions := 1) else e
    case ResumeWait(_, sawCancellation) =>
      if !e.caller.Queued? then e
      else if sawCancellation then if e.isCancellationRequested then GivenUp(e) else e
      else if e.acquisitions > 0 then e.(caller := Settling, inferencePermitAcquired := true)
      else e
    case EndWithdrawal(_) => if e.caller.Withdrawing? then Left(e) else e
    case ResumeSettling(_) =>
      if !e.caller.Settling? then e
      else if e.isCancellationRequested then Left(e)
      else e.(caller := Inferring, native := Running)
    case EndWorker(_) => if e.native.Running? then e.(native := Finished) else e
    case ResumeCaller(_) => if e.caller.Inferring? && e.native.Finished? then LeftInference(e) else e
    case TimeOut(_) => if e.caller.Inferring? then LeftInference(HandedOver(e)) else e
    case CancelTask(_) =>
      if e.caller.Queued? then GivenUp(e)
      else if e.caller.Inferring? then LeftInference(HandedOver(e))
      else e
    case ResumeFinalizer(_) => if e.finalizer.Awaiting? && e.native.Finished? then Finalized(e) else e
    case ConsumeFinalizer(_) => e
  }

  // ---------------------------------------------------------------- all executions

  /** All executions, the value of the semaphore, and the set of finalizer tasks. */
  datatype World = World(
    executions: map<ExecutionId, Execution>,
    permits: int,
    finalizers: set<ExecutionId>)

  function NewWorld(concurrency: nat): World { World(map[], concurrency, {}) }

  /** The semaphore loses what the execution acquired in the step, and gains what it released. */
  function WithExecution(w: World, id: ExecutionId, e: Execution): World
    requires id in w.executions
  {
    var before := w.executions[id];
    w.(executions := w.executions[id := e],
       permits := w.permits - (e.acquisitions - before.acquisitions) + (e.releases - before.releases))
  }

  function Stepped(w: World, event: Event): World {
    var id := event.id;
    if id !in w.executions then
      if event.Start? then w.(executions := w.executions[id := NewExecution(event.hasPrepared)]) else w
    else
      var e := Continued(w.executions[id], event, w.permits);
      var after := WithExecution(w, id, e);
      if e.finalizer.Awaiting? then after.(finalizers := w.finalizers + {id})
      else if event.ConsumeFinalizer? && e.finalizer.Completed? then after.(finalizers := w.finalizers - {id})
      else after
  }

  function Run(w: World, run: seq<Event>): World
    decreases run
  {
    if run == [] then w else Run(Stepped(w, run[0]), run[1..])
  }

  /** The executions that have a permit and have not given it back. */
  function Holding(w: World): set<ExecutionId> {
    set id | id in w.executions && w.executions[id].acquisitions > w.executions[id].releases
  }

  function RunningInferences(w: World): set<ExecutionId> {
    set id | id in w.executions && w.executions[id].native.Running?
  }

  /** Neither the caller nor a finalizer will act any more. */
  predicate IsOver(e: Execution) { e.caller.Gone? && !e.finalizer.Awaiting? }

  /** Over, and its permit never came back. */
  predicate HasLeaked(e: Execution) { IsOver(e) && e.acquisitions > e.releases }

  function Leaked(w: World): set<ExecutionId> {
    set id | id in w.executions && HasLeaked(w.executions[id])
  }

  // ---------------------------------------------------------------- what one execution keeps

  /** What holds while the caller is in `acquire`. */
  predicate CallerInvariant(e: Execution) {
    && e.finalizer.NoFinalizer? && e.releases == 0 && e.directoryRemovals == 0
    && e.directoriesMade == (if e.requestDirectory then 1 else 0)
    && e.own == NewOwnership(e.own.hasPrepared)
    && (e.inferencePermitAcquired <==> e.caller.Settling? || e.caller.Inferring?)
    && (e.inferencePermitAcquired ==> e.acquisitions == 1)
    && (e.caller.Preparing? ==> !e.requestDirectory)
    && (e.caller.Preparing? || e.caller.Withdrawing? ==> e.acquisitions == 0)
    && (e.native.NotStarted? <==> !e.caller.Inferring?)
  }

  /** What holds once the caller has left: by itself, leaving work to a finalizer, or after that finalizer. */
  predicate LeftInvariant(e: Execution) {
    && e.own.isCallerFinished
    && (e.own.isRetained <==> !e.finalizer.NoFinalizer?)
    && (e.own.isNativeCompleted <==> e.finalizer.Completed?)
    && (e.own.isReleased <==> !e.finalizer.Awaiting?)
    && (e.own.isCleanupComplete <==> e.own.isReleased)
    && e.own.removals == (if e.own.isReleased && e.own.hasPrepared then 1 else 0)
    && e.directoryRemovals == (if e.finalizer.Awaiting? then 0 else e.directoriesMade)
    && match e.finalizer
       case NoFinalizer => e.native.NotStarted? || (e.native.Finished? && e.releases == e.acquisitions)
       case Awaiting(given) =>
         && !e.native.NotStarted? && e.acquisitions == 1 && e.releases == 0
         && e.directoriesMade == (if given then 1 else 0)
       case Completed => e.native.Finished? && e.acquisitions == 1 && e.releases == 1
  }

  predicate ExecutionInvariant(e: Execution) {
    && e.releases <= e.acquisitions <= 1
    && e.directoriesMade <= 1
    && (e.own.hasPrepared ==> e.directoriesMade == 0)
    && if e.caller.Gone? then LeftInvariant(e) else CallerInvariant(e)
  }

  lemma LeavingKeepsExecution(e: Execution)
    requires ExecutionInvariant(e) && !e.caller.Gone?
    ensures !e.caller.Inferring? ==> ExecutionInvariant(Left(e)) && Left(e).releases == e.releases
    ensures e.caller.Inferring? && e.native.Finished? ==> ExecutionInvariant(LeftInference(e))
    ensures e.caller.Inferring? ==> ExecutionInvariant(LeftInference(HandedOver(e)))
    ensures e.caller.Queued? ==> ExecutionInvariant(GivenUp(e))
  {
  }

  lemma FinalizingKeepsExecution(e: Execution)
    requires ExecutionInvariant(e) && e.finalizer.Awaiting? && e.native.Finished?
    ensures ExecutionInvariant(Finalized(e))
  {
  }

  lemma PreparingKeepsExecution(e: Execution, permits: int, madeDirectory: bool, id: ExecutionId)
    requires ExecutionInvariant(e) && e.caller.Preparing?
    ensures ExecutionInvariant(Continued(e, FailPreparation(id, madeDirectory), permits))
    ensures ExecutionInvariant(Continued(e, EndPreparation(id), permits))
  {
  }

  /** The steps inside `acquire` that leave the caller there. */
  lemma MovingKeepsExecution(e: Execution)
    requires ExecutionInvariant(e)
    ensures ExecutionInvariant(e.(isCancellationRequested := true))
    ensures e.caller.Queued? && e.acquisitions == 0 ==> ExecutionInvariant(e.(acquisitions := 1))
    ensures e.caller.Queued? && e.acquisitions > 0 ==>
      ExecutionInvariant(e.(caller := Settling, inferencePermitAcquired := true))
    ensures e.caller.Settling? ==> ExecutionInvariant(e.(caller := Inferring, native := Running))
    ensures e.native.Running? ==> ExecutionInvariant(e.(native := Finished))
  {
  }

  /** Every step of an execution keeps its books: locals, semaphore, directory and ownership agree. */
  lemma StepKeepsExecution(e: Execution, event: Event, permits: int)
    requires ExecutionInvariant(e)
    ensures ExecutionInvariant(Continued(e, event, permits))
  {
    if e.caller.Preparing? && (event.FailPreparation? || event.EndPreparation?) {
      PreparingKeepsExecution(e, permits, event.FailPreparation? && event.madeDirectory, event.id);
      return;
    }
    MovingKeepsExecution(e);
    if !e.caller.Gone? {
      LeavingKeepsExecution(e);
    }
    if e.finalizer.Awaiting? && e.native.Finished? {
      FinalizingKeepsExecution(e);
    }
    hide ExecutionInvariant;
    hide Left;
    hide LeftInference;
    hide HandedOver;
    hide GivenUp;
    hide Finalized;
  }

  // ---------------------------------------------------------------- what every run keeps

  predicate WorldInvariant(w: World, concurrency: nat) {
    && (forall id | id in w.executions :: ExecutionInvariant(w.executions[id]))
    && w.permits >= 0
    && w.permits + |Holding(w)| == concurrency
    && (forall id | id in w.executions && w.executions[id].finalizer.Awaiting? :: id in w.finalizers)
  }

  lemma NewWorldInvariant(concurrency: nat)
    ensures WorldInvariant(NewWorld(concurrency), concurrency)
  {
    assert Holding(NewWorld(concurrency)) == {};
  }

  lemma OneMemberChanges(before: set<ExecutionId>, after: set<ExecutionId>, id: ExecutionId)
    requires forall other | other != id :: other in before <==> other in after
    ensures |after| - (if id in after then 1 else 0) == |before| - (if id in before then 1 else 0)
  {
    var rest := before - {id};
    assert after - {id} == rest by {
      forall other ensures other in after - {id} <==> other in rest {
      }
    }
    assert before == if id in before then rest + {id} else rest;
    assert after == if id in after then rest + {id} else rest;
  }

  /** A permit is acquired only when the semaphore has one. */
  lemma AcquiresOnlyFree(e: Execution, event: Event, permits: int)
    requires permits >= 0
    ensures var after := Continued(e, event, permits);
      && after.releases >= e.releases && after.acquisitions >= e.acquisitions
      && permits - (after.acquisitions - e.acquisitions) >= 0
  {
  }

  /** A step changes one execution, and the finalizers only by that execution's. */
  lemma StepChangesOne(w: World, event: Event)
    requires event.id in w.executions
    ensures var id, after := event.id, Stepped(w, event);
      && (forall other :: other in after.executions <==> other in w.executions)
      && (forall other | other in w.executions && other != id :: after.executions[other] == w.executions[other])
      && after.executions[id] == Continued(w.executions[id], event, w.permits)
      && (after.executions[id].finalizer.Awaiting? ==> id in after.finalizers)
      && (forall other | other in w.finalizers && other != id :: other in after.finalizers)
  {
    hide Continued;
  }

  /** What the execution acquires and releases in a step is what the semaphore loses and gains. */
  lemma StepKeepsPermits(w: World, event: Event, concurrency: nat)
    requires WorldInvariant(w, concurrency) && event.id in w.executions
    requires ExecutionInvariant(Continued(w.executions[event.id], event, w.permits))
    ensures Stepped(w, event).permits >= 0
    ensures Stepped(w, event).permits + |Holding(Stepped(w, event))| == concurrency
  {
    var id, after := event.id, Stepped(w, event);
    AcquiresOnlyFree(w.executions[id], event, w.permits);
    AtMostOnePermit(w.executions[id]);
    AtMostOnePermit(after.executions[id]);
    StepChangesOne(w, event);
    hide Continued;
    hide ExecutionInvariant;
    OneMemberChanges(Holding(w), Holding(after), id);
  }

  lemma StepKeepsWorld(w: World, event: Event, concurrency: nat)
    requires WorldInvariant(w, concurrency)
    ensures WorldInvariant(Stepped(w, event), concurrency)
  {
    var id, after := event.id, Stepped(w, event);
    if id in w.executions {
      StepKeepsExecution(w.executions[id], event, w.permits);
      StepKeepsPermits(w, event, concurrency);
      StepChangesOne(w, event);
      hide Stepped;
      hide Continued;
      hide ExecutionInvariant;
      hide Holding;
    } else if event.Start? {
      OneMemberChanges(Holding(w), Holding(after), id);
    }
  }

  lemma AtMostOnePermit(e: Execution)
    ensures ExecutionInvariant(e) ==> e.releases <= e.acquisitions <= 1
  {
  }

  /** In every run the locals, the semaphore, the directories and the ownerships of all executions agree. */
  lemma {:induction false} RunKeepsWorld(w: World, run: seq<Event>, concurrency: nat)
    requires WorldInvariant(w, concurrency)
    ensures WorldInvariant(Run(w, run), concurrency)
    decreases run
  {
    hide WorldInvariant;
    hide Stepped;
    if run != [] {
      StepKeepsWorld(w, run[0], concurrency);
      RunKeepsWorld(Stepped(w, run[0]), run[1..], concurrency);
    }
  }

  /** A native thread runs only for an execution that holds a permit. */
  lemma RunningHolds(e: Execution)
    requires ExecutionInvariant(e) && e.native.Running?
    ensures e.acquisitions == 1 && e.releases == 0
    ensures e.directoryRemovals == 0 && e.own.removals == 0 && !e.own.isCleanupComplete
  {
  }

  /**
   In every interleaving of completions, timeouts, task cancellations and durable cancellations, at
   most `concurrency` native inferences run, abandoned ones included.
   */
  lemma InferencesAreBounded(run: seq<Event>, concurrency: nat)
    ensures |RunningInferences(Run(NewWorld(concurrency), run))| <= concurrency
  {
    var w := Run(NewWorld(concurrency), run);
    NewWorldInvariant(concurrency);
    RunKeepsWorld(NewWorld(concurrency), run, concurrency);
    hide ExecutionInvariant;
    forall id | id in RunningInferences(w) ensures id in Holding(w) {
      RunningHolds(w.executions[id]);
    }
    SubsetIsSmaller(RunningInferences(w), Holding(w));
  }

  /**
   No permit is released twice, by the caller, a withdrawal or a finalizer, and none that was not
   acquired; and the executions that lost theirs are the only ones over that still count as holding.
   */
  lemma PermitsAreReleasedOnce(run: seq<Event>, concurrency: nat, id: ExecutionId)
    requires id in Run(NewWorld(concurrency), run).executions
    ensures var e := Run(NewWorld(concurrency), run).executions[id];
      && e.releases <= e.acquisitions <= 1
      && (IsOver(e) ==> (e.releases == e.acquisitions <==> !HasLeaked(e)))
      && (HasLeaked(e) ==> e.native.NotStarted?)
  {
    NewWorldInvariant(concurrency);
    RunKeepsWorld(NewWorld(concurrency), run, concurrency);
    assert ExecutionInvariant(Run(NewWorld(concurrency), run).executions[id]);
  }

  /**
   The media of an execution, its request directory or its prepared audio, is there as long as its
   inference runs. Whichever of caller, preparation and finalizer removes it, it is removed once, when
   the last owner is done; and cleanup is complete exactly then.
   */
  lemma MediaIsRemovedOnce(run: seq<Event>, concurrency: nat, id: ExecutionId)
    requires id in Run(NewWorld(concurrency), run).executions
    ensures var e := Run(NewWorld(concurrency), run).executions[id];
      && (e.native.Running? ==> e.directoryRemovals == 0 && e.own.removals == 0 && !e.own.isCleanupComplete)
      && (e.own.isCleanupComplete <==> IsOver(e))
      && e.directoryRemovals == (if IsOver(e) then e.directoriesMade else 0)
      && e.own.removals == (if IsOver(e) && e.own.hasPrepared then 1 else 0)
      && e.directoriesMade + (if e.own.hasPrepared then 1 else 0) <= 1
  {
    NewWorldInvariant(concurrency);
    RunKeepsWorld(NewWorld(concurrency), run, concurrency);
    assert ExecutionInvariant(Run(NewWorld(concurrency), run).executions[id]);
  }

  /** `shutdown` waits for all finalizers, and then every execution whose caller has left is over. */
  lemma NoFinalizerNoAbandonedWork(run: seq<Event>, concurrency: nat)
    requires Run(NewWorld(concurrency), run).finalizers == {}
    ensures var w := Run(NewWorld(concurrency), run);
      forall id | id in w.executions && w.executions[id].caller.Gone? :: IsOver(w.executions[id])
  {
    NewWorldInvariant(concurrency);
    RunKeepsWorld(NewWorld(concurrency), run, concurrency);
  }

  // ---------------------------------------------------------------- progress

  /** How many events of its own an execution still has ahead at most. */
  function Remaining(e: Execution): nat {
    match e.caller
    case Preparing => 8
    case Queued => if e.acquisitions == 0 then 7 else 6
    case Settling => 5
    case Inferring => if e.native.Running? then 4 else 3
    case Withdrawing => 1
    case Gone => if e.finalizer.Awaiting? then (if e.native.Running? then 2 else 1) else 0
  }

  /** The execution waits for a permit, and nobody asks it to stop. */
  predicate NeedsPermit(e: Execution) {
    e.caller.Queued? && e.acquisitions == 0 && !e.isCancellationRequested
  }

  /** What the execution waits for. */
  function Awaited(e: Execution, id: ExecutionId): Event {
    match e.caller
    case Preparing => EndPreparation(id)
    case Queued =>
      if e.isCancellationRequested then ResumeWait(id, true)
      else if e.acquisitions == 0 then GrantPermit(id) else ResumeWait(id, false)
    case Settling => ResumeSettling(id)
    case Inferring => if e.native.Running? then EndWorker(id) else ResumeCaller(id)
    case Withdrawing => EndWithdrawal(id)
    case Gone => if e.native.Running? then EndWorker(id) else ResumeFinalizer(id)
  }

  /** No event takes an execution further from its end, be it a timeout or a cancellation. */
  lemma NothingGoesBack(e: Execution, permits: int, event: Event)
    requires ExecutionInvariant(e)
    ensures Remaining(Continued(e, event, permits)) <= Remaining(e)
  {
  }

  /** No execution gets stuck, except for want of a permit: what it waits for takes it nearer to its end. */
  lemma NothingIsStuck(e: Execution, permits: int, id: ExecutionId)
    requires ExecutionInvariant(e)
    ensures IsOver(e) <==> Remaining(e) == 0
    ensures !IsOver(e) && (NeedsPermit(e) ==> permits > 0) ==>
      Remaining(Continued(e, Awaited(e, id), permits)) < Remaining(e)
  {
  }

  /** Without a cancellation, timeout or failure, the thread runs once and everything is given back. */
  lemma UndisturbedEnds(id: ExecutionId, hasPrepared: bool, permits: int)
    requires permits > 0
    ensures var queued := Continued(NewExecution(hasPrepared), EndPreparation(id), permits);
      var settling := Continued(Continued(queued, GrantPermit(id), permits), ResumeWait(id, false), permits);
      var inferring := Continued(settling, ResumeSettling(id), permits);
      var last := Continued(Continued(inferring, EndWorker(id), permits), ResumeCaller(id), permits);
      && inferring.native.Running? && inferring.acquisitions == 1 && inferring.releases == 0
      && inferring.directoryRemovals == 0 && inferring.own.removals == 0
      && IsOver(last) && last.native.Finished? && last.releases == 1 && last.own.isCleanupComplete
      && last.directoryRemovals == (if hasPrepared then 0 else 1)
      && last.own.removals == (if hasPrepared then 1 else 0)
  {
  }

  // ---------------------------------------------------------------- cancellation

  /** Cancellation has been requested, and the native thread was not started before. */
  predicate CancelledInTime(e: Execution) { e.isCancellationRequested && e.native.NotStarted? }

  /** A cancellation in time keeps the thread from starting, and ends preparation without a wait for a permit. */
  lemma CancellationWins(e: Execution, event: Event, permits: int)
    requires CancelledInTime(e)
    ensures CancelledInTime(Continued(e, event, permits))
    ensures e.caller.Preparing? && event.EndPreparation? ==> Continued(e, event, permits).caller.Gone?
    ensures e.acquisitions == 0 && e.caller.Queued? && event == ResumeWait(event.id, true) ==>
      Continued(e, event, permits).caller.Withdrawing?
  {
  }

  /** Once cancellation has been requested ahead of its inference, an execution never infers in any run. */
  lemma {:induction false} CancelledNeverInfers(w: World, run: seq<Event>, id: ExecutionId)
    requires id in w.executions && CancelledInTime(w.executions[id])
    ensures id in Run(w, run).executions && CancelledInTime(Run(w, run).executions[id])
    decreases run
  {
    if run != [] {
      var event := run[0];
      if event.id in w.executions {
        StepChangesOne(w, event);
      }
      if event.id == id {
        CancellationWins(w.executions[id], event, w.permits);
      }
      hide Continued;
      hide CancelledInTime;
      CancelledNeverInfers(Stepped(w, event), run[1..], id);
    }
  }

  // ---------------------------------------------------------------- lost permits

  /** The last check of `acquire` meets a requested cancellation. */
  predicate LosesPermit(w: World, event: Event) {
    && event.ResumeSettling? && event.id in w.executions
    && w.executions[event.id].caller.Settling? && w.executions[event.id].isCancellationRequested
  }

  function Losses(w: World, run: seq<Event>): nat
    decreases run
  {
    if run == [] then 0 else (if LosesPermit(w, run[0]) then 1 else 0) + Losses(Stepped(w, run[0]), run[1..])
  }

  /**
   An execution loses its permit exactly in a step in which the last check meets a requested
   cancellation: that raises ahead of the block that releases. A lost permit stays lost.
   */
  lemma LeaksIff(e: Execution, event: Event, permits: int)
    requires ExecutionInvariant(e)
    ensures HasLeaked(Continued(e, event, permits)) <==>
      (HasLeaked(e) || (event.ResumeSettling? && e.caller.Settling? && e.isCancellationRequested))
  {
  }

  lemma StepLeaks(w: World, event: Event, concurrency: nat)
    requires WorldInvariant(w, concurrency)
    ensures |Leaked(Stepped(w, event))| == |Leaked(w)| + (if LosesPermit(w, event) then 1 else 0)
  {
    var id, after := event.id, Stepped(w, event);
    if id in w.executions {
      LeaksIff(w.executions[id], event, w.permits);
      StepChangesOne(w, event);
      assert LosesPermit(w, event) ==> !HasLeaked(w.executions[id]);
      hide Stepped;
      hide Continued;
      hide ExecutionInvariant;
      hide HasLeaked;
      OneMemberChanges(Leaked(w), Leaked(after), id);
    } else {
      OneMemberChanges(Leaked(w), Leaked(after), id);
    }
  }

  /** Over every run, the permits lost are as many as the steps that lose one, and no more. */
  lemma {:induction false} LeaksAreCounted(w: World, run: seq<Event>, concurrency: nat)
    requires WorldInvariant(w, concurrency)
    ensures |Leaked(Run(w, run))| == |Leaked(w)| + Losses(w, run)
    decreases run
  {
    hide WorldInvariant;
    hide Stepped;
    hide Leaked;
    hide LosesPermit;
    if run != [] {
      StepLeaks(w, run[0], concurrency);
      StepKeepsWorld(w, run[0], concurrency);
      LeaksAreCounted(Stepped(w, run[0]), run[1..], concurrency);
    }
  }

  /** With one permit: a cancellation between the grant and the last check leaves no permit for good. */
  const LEAKING_RUN := [
    Start(1, false), EndPreparation(1), GrantPermit(1), ResumeWait(1, false), RequestCancellation(1), ResumeSettling(1)]

  lemma LeakExample()
    ensures var w := Run(NewWorld(1), LEAKING_RUN);
      w.permits == 0 && 1 in Leaked(w) && RunningInferences(w) == {} && w.finalizers == {}
  {
    var w0 := NewWorld(1);
    var w1 := Stepped(w0, LEAKING_RUN[0]);
    var w2 := Stepped(w1, LEAKING_RUN[1]);
    var w3 := Stepped(w2, LEAKING_RUN[2]);
    var w4 := Stepped(w3, LEAKING_RUN[3]);
    var w5 := Stepped(w4, LEAKING_RUN[4]);
    var w6 := Stepped(w5, LEAKING_RUN[5]);
    RunOfSix(w0, LEAKING_RUN);
    assert w6.executions[1].caller.Gone? && w6.executions[1].acquisitions == 1 && w6.executions[1].releases == 0;
  }

  lemma RunOfSix(w: World, run: seq<Event>)
    requires |run| == 6
    ensures Run(w, run) == Stepped(Stepped(Stepped(Stepped(Stepped(Stepped(
      w, run[0]), run[1]), run[2]), run[3]), run[4]), run[5])
  {
    hide Stepped;
    assert run[1..][0] == run[1] && run[1..][1..] == run[2..];
    assert run[2..][0] == run[2] && run[2..][1..] == run[3..];
    assert run[3..][0] == run[3] && run[3..][1..] == run[4..];
    assert run[4..][0] == run[4] && run[4..][1..] == run[5..];
    assert run[5..][0] == run[5] && run[5..][1..] == [];
    var w3 := Stepped(Stepped(Stepped(w, run[0]), run[1]), run[2]);
    assert Run(w, run) == Run(Stepped(w, run[0]), run[1..]);
    assert Run(Stepped(w, run[0]), run[1..]) == Run(Stepped(Stepped(w, run[0]), run[1]), run[2..]);
    assert Run(Stepped(Stepped(w, run[0]), run[1]), run[2..]) == Run(w3, run[3..]);
    assert Run(w3, run[3..]) == Run(Stepped(w3, run[3]), run[4..]);
    assert Run(Stepped(w3, run[3]), run[4..]) == Run(Stepped(Stepped(w3, run[3]), run[4]), run[5..]);
  }

  // ---------------------------------------------------------------- the acquirer

  class RequestDirectory {
    var removals: nat

    constructor ()
      ensures removals == 0
    {
      removals := 0;
    }

    method Remove()
      modifies this
      ensures removals == old(removals) + 1
    {
      removals := removals + 1;
    }
  }

  /** `asyncio.Semaphore`, as far as its holder sees it. */
  class Semaphore {
    var value: int

    constructor (value: nat)
      ensures this.value == value
    {
      this.value := value;
    }

    method Release()
      modifies this
      ensures value == old(value) + 1
    {
      value := value + 1;
    }
  }

  /** The arguments of one `_finalize_abandoned_native_work` task. */
  class NativeFinalizer {
    const requestDirectory: RequestDirectory?
    const ownership: TranscriptionOwnership

    constructor (requestDirectory: RequestDirectory?, ownership: TranscriptionOwnership)
      ensures this.requestDirectory == requestDirectory && this.ownership == ownership
    {
      this.requestDirectory := requestDirectory;
      this.ownership := ownership;
    }
  }

  /** How the wait for the native thread ends for the caller. */
  datatype Wait = ReturnsTranscript | ProviderRaises | TimesOut | CoroutineCancelled

  predicate IsAbandoned(isCancellationRequested: bool, wait: Wait) {
    !isCancellationRequested && (wait.TimesOut? || wait.CoroutineCancelled?)
  }

  /** The execution that has its permit, ready for the last check. */
  function Settled(own: Ownership, hasDirectory: bool, isCancellationRequested: bool): Execution {
    Execution(Settling, isCancellationRequested, true, hasDirectory, NotStarted, NoFinalizer, 1, 0,
              if hasDirectory then 1 else 0, 0, own)
  }

  /** The steps of the machine from the last check to the end of `acquire`. */
  function FromSettling(e: Execution, wait: Wait, permits: int): Execution {
    var resumed := Continued(e, ResumeSettling(0), permits);
    if IsAbandoned(e.isCancellationRequested, wait) then Continued(resumed, TimeOut(0), permits)
    else Continued(Continued(resumed, EndWorker(0), permits), ResumeCaller(0), permits)
  }

  lemma SettlingEnds(own: Ownership, hasDirectory: bool, isCancellationRequested: bool, wait: Wait)
    ensures var e := FromSettling(Settled(own, hasDirectory, isCancellationRequested), wait, 0);
      var abandoned := IsAbandoned(isCancellationRequested, wait);
      && e.own == CallerFinished(if abandoned then Retained(own) else own)
      && e.releases == (if abandoned || isCancellationRequested then 0 else 1)
      && e.directoryRemovals == (if hasDirectory && !abandoned then 1 else 0)
      && (e.finalizer.Awaiting? <==> abandoned)
  {
  }

  class WhisperAcquirer {
    const inferenceSemaphore: Semaphore
    var nativeFinalizers: set<NativeFinalizer>

    constructor (concurrency: nat)
      ensures fresh(inferenceSemaphore) && inferenceSemaphore.value == concurrency && nativeFinalizers == {}
    {
      inferenceSemaphore := new Semaphore(concurrency);
      nativeFinalizers := {};
    }

    /**
     `acquire` from the granted permit to its end, and the `finally` of `execute`. Unless the wait is
     abandoned, media is gone and cleanup complete; an abandoned wait leaves permit, directory and
     media to a finalizer, untouched; and the permit comes back at once unless the work is abandoned or
     the last check meets a cancellation.
     */
    method Transcribe(
      ownership: TranscriptionOwnership, requestDirectory: RequestDirectory?, isCancellationRequested: bool, wait: Wait)
      returns (finalizer: NativeFinalizer?)
      requires ownership.View() == NewOwnership(ownership.preparedAudio != null)
      requires requestDirectory != null ==> requestDirectory.removals == 0 && ownership.preparedAudio == null
      modifies this, inferenceSemaphore, ownership, ownership.control, ownership.preparedAudio, requestDirectory
      ensures var abandoned := IsAbandoned(isCancellationRequested, wait);
        && (finalizer != null <==> abandoned)
        && inferenceSemaphore.value
             == old(inferenceSemaphore.value) + (if abandoned || isCancellationRequested then 0 else 1)
        && (requestDirectory != null ==> requestDirectory.removals == if abandoned then 0 else 1)
        && (ownership.preparedAudio != null ==> ownership.preparedAudio.removals == if abandoned then 0 else 1)
        && (ownership.control.cleanupComplete <==> !abandoned)
        && nativeFinalizers == old(nativeFinalizers) + (if finalizer != null then {finalizer} else {})
      ensures finalizer != null ==>
        && fresh(finalizer) && finalizer.ownership == ownership && finalizer.requestDirectory == requestDirectory
        && IsHandedOver(finalizer)
      ensures var e := FromSettling(
          Settled(old(ownership.View()), requestDirectory != null, isCancellationRequested), wait, 0);
        && ownership.View() == e.own
        && inferenceSemaphore.value == old(inferenceSemaphore.value) + e.releases
        && (requestDirectory != null ==> requestDirectory.removals == e.directoryRemovals)
        && (finalizer != null <==> e.finalizer.Awaiting?)
    {
      SettlingEnds(ownership.View(), requestDirectory != null, isCancellationRequested, wait);
      hide FromSettling;
      hide Settled;
      var inferencePermitAcquired := true;
      var directory := requestDirectory;
      finalizer := null;
      if !isCancellationRequested {
        if wait.TimesOut? || wait.CoroutineCancelled? {
          finalizer := RetainAbandonedNativeWork(directory, ownership);
          inferencePermitAcquired := false;
          directory := null;
        }
        if inferencePermitAcquired {
          inferenceSemaphore.Release();
        }
      }
      if directory != null {
        directory.Remove();
      }
      ownership.FinishCaller();
    }

    /** The ownership waits for its native work, and nothing of its media is gone. */
    ghost predicate IsHandedOver(finalizer: NativeFinalizer)
      reads finalizer.ownership, finalizer.ownership.control, finalizer.ownership.preparedAudio,
            finalizer.requestDirectory
    {
      var own := finalizer.ownership.View();
      && own.isRetained && own.isCallerFinished && !own.isNativeCompleted && !own.isReleased && own.removals == 0
      && !own.isCleanupComplete
      && (finalizer.requestDirectory != null ==> finalizer.requestDirectory.removals == 0)
    }

    /** The ownership gets a second owner, and the finalizer is kept until it is done. */
    method RetainAbandonedNativeWork(requestDirectory: RequestDirectory?, ownership: TranscriptionOwnership)
      returns (finalizer: NativeFinalizer)
      modifies this, ownership, ownership.control, ownership.preparedAudio
      ensures fresh(finalizer) && finalizer.requestDirectory == requestDirectory && finalizer.ownership == ownership
      ensures nativeFinalizers == old(nativeFinalizers) + {finalizer}
      ensures ownership.View() == Retained(old(ownership.View()))
    {
      ownership.RetainNativeWork();
      finalizer := new NativeFinalizer(requestDirectory, ownership);
      nativeFinalizers := nativeFinalizers + {finalizer};
    }

    /**
     The finalizer of an abandoned wait, once the native thread has ended: the permit comes back, the
     directory and the prepared audio are removed once, and cleanup is complete.
     */
    method FinalizeAbandonedNativeWork(finalizer: NativeFinalizer)
      requires IsHandedOver(finalizer) && finalizer in nativeFinalizers
      modifies this, inferenceSemaphore, finalizer.ownership, finalizer.ownership.control
      modifies finalizer.ownership.preparedAudio, finalizer.requestDirectory
      ensures inferenceSemaphore.value == old(inferenceSemaphore.value) + 1
      ensures finalizer.requestDirectory != null ==> finalizer.requestDirectory.removals == 1
      ensures finalizer.ownership.preparedAudio != null ==> finalizer.ownership.preparedAudio.removals == 1
      ensures finalizer.ownership.control.cleanupComplete && finalizer.ownership.released
      ensures nativeFinalizers == old(nativeFinalizers) - {finalizer}
    {
      if finalizer.requestDirectory != null {
        finalizer.requestDirectory.Remove();
      }
      inferenceSemaphore.Release();
      finalizer.ownership.CompleteNativeWork();
      nativeFinalizers := nativeFinalizers - {finalizer};
    }
  }
}
