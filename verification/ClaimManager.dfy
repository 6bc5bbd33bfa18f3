/**
 `ExecutionClaimManager`: the bounded claim registry of one worker and its heartbeat monitor.

 The worker is one event loop, so what can be observed are the states at suspension points. Each
 method of the class is what runs between two of them, and each is proved to be one step of the
 registry below; whole runs interleave the steps of any number of tasks in any order.
 */
module ClaimManager {
  import opened Options
  import opened JobTypes
  import opened JobProtocol
  import opened ClaimFencing
  import opened ExecutionControl

  type Control = TranscriptionExecutionControl

  /** The registry; `isWaiting` and `isWoken` are the shutdown task's wait for the drained event. */
  datatype Registry = Registry(
    claims: map<ExecutionClaim, Control>,
    lost: set<ExecutionClaim>,
    pending: int,
    isDrained: bool,
    isAccepting: bool,
    isWaiting: bool,
    isWoken: bool)

  datatype Action =
    | Reserve                                                      // both admission checks, then the pending count
    | Abandon                                                      // the durable claim gave nothing or raised
    | Register(claim: ExecutionClaim, control: Control)            // the durable claim gave a job
    | Release(claim: ExecutionClaim)
    | StopAccepting
    | AwaitDrained                                                 // shutdown, up to its wait
    | Poll                                                         // the monitor collects its batch
    | Apply(batch: seq<ExecutionClaim>, heartbeats: seq<ClaimHeartbeat>)

  const EMPTY_REGISTRY := Registry(map[], {}, 0, true, true, false, false)

  function Active(r: Registry): int { |r.claims| + r.pending }

  predicate Admits(r: Registry, maximum: int) { r.isAccepting && Active(r) < maximum }

  predicate IsIdle(r: Registry) { r.pending == 0 && |r.claims| == 0 }

  /** `_update_drained_state`; setting the event wakes a waiter for good. */
  function DrainedUpdated(r: Registry): Registry {
    if IsIdle(r) then r.(isDrained := true, isWoken := r.isWoken || r.isWaiting) else r.(isDrained := false)
  }

  /** The claims of the next heartbeat batch. */
  function Batch(r: Registry): set<ExecutionClaim> { r.claims.Keys - r.lost }

  predicate IsRenewed(heartbeats: seq<ClaimHeartbeat>, claim: ExecutionClaim) {
    exists i :: 0 <= i < |heartbeats| && heartbeats[i].claim == claim
  }

  /** The dictionary built from the heartbeats keeps the last one of each claim. */
  predicate IsToldToCancel(heartbeats: seq<ClaimHeartbeat>, claim: ExecutionClaim)
    decreases |heartbeats|
  {
    heartbeats != [] &&
    var last := heartbeats[|heartbeats| - 1];
    if last.claim == claim then last.cancellationRequested
    else IsToldToCancel(heartbeats[..|heartbeats| - 1], claim)
  }

  function NewlyLost(r: Registry, batch: seq<ExecutionClaim>, heartbeats: seq<ClaimHeartbeat>): set<ExecutionClaim> {
    set claim | claim in batch && claim in r.claims && !IsRenewed(heartbeats, claim)
  }

  function Stepped(r: Registry, action: Action, maximum: int): Registry {
    match action
    case Reserve => if Admits(r, maximum) then DrainedUpdated(r.(pending := r.pending + 1)) else r
    case Abandon => DrainedUpdated(r.(pending := r.pending - 1))
    case Register(claim, control) =>
      var settled := DrainedUpdated(r.(pending := r.pending - 1));
      DrainedUpdated(settled.(claims := settled.claims[claim := control]))
    case Release(claim) => DrainedUpdated(r.(claims := r.claims - {claim}, lost := r.lost - {claim}))
    case StopAccepting => r.(isAccepting := false)
    case AwaitDrained => r.(isAccepting := false, isWaiting := true, isWoken := r.isWoken || r.isDrained)
    case Poll => r
    case Apply(batch, heartbeats) => r.(lost := r.lost + NewlyLost(r, batch, heartbeats))
  }

  /** The claims whose controls a step signals. */
  function Signalled(r: Registry, action: Action): set<ExecutionClaim> {
    match action
    case Apply(batch, heartbeats) =>
      set claim | claim in batch && claim in r.claims
                  && (!IsRenewed(heartbeats, claim) || IsToldToCancel(heartbeats, claim))
    case _ => {}
  }

  /** A durable claim can only come back while it is counted as pending. */
  predicate Possible(r: Registry, action: Action) {
    action.Abandon? || action.Register? ==> r.pending > 0
  }

  // ---------------------------------------------------------------- one step

  /** The step puts this much work into the pending count. */
  function PendingDelta(r: Registry, action: Action, maximum: int): int {
    match action
    case Reserve => if r.isAccepting && |r.claims| + r.pending < maximum then 1 else 0
    case Abandon => -1
    case Register(_, _) => -1
    case _ => 0
  }

  /** The batch has the claim, but no heartbeat answers for it. */
  predicate LeftOut(batch: seq<ExecutionClaim>, heartbeats: seq<ClaimHeartbeat>, claim: ExecutionClaim) {
    claim in batch && forall heartbeat | heartbeat in heartbeats :: heartbeat.claim != claim
  }

  /** A reservation counts exactly if admission is open and there is room; only shutdown closes admission. */
  lemma StepAdmits(r: Registry, action: Action, maximum: int)
    ensures Stepped(r, action, maximum).pending == r.pending + PendingDelta(r, action, maximum)
    ensures Stepped(r, action, maximum).isAccepting ==
      (r.isAccepting && !action.StopAccepting? && !action.AwaitDrained?)
  {
    hide NewlyLost;
    hide IsIdle;
  }

  lemma ClaimsAfter(r: Registry, action: Action, maximum: int)
    ensures Stepped(r, action, maximum).claims ==
      match action
      case Register(claim, control) => r.claims[claim := control]
      case Release(claim) => r.claims - {claim}
      case _ => r.claims
  {
    hide NewlyLost;
    hide IsIdle;
    hide Admits;
  }

  /** A claim is registered with its control, and released, exactly by the step that says so. */
  lemma StepRegisters(r: Registry, action: Action, maximum: int, claim: ExecutionClaim)
    ensures var after := Stepped(r, action, maximum);
      && (claim in after.claims <==>
            (action.Register? && action.claim == claim) || (claim in r.claims && action != Release(claim)))
      && (claim in after.claims ==>
            after.claims[claim] ==
              if action.Register? && action.claim == claim then action.control else r.claims[claim])
  {
    ClaimsAfter(r, action, maximum);
    hide Stepped;
  }

  /** A claim becomes lost exactly by a batch that leaves it out, and stays so until its release. */
  lemma StepLoses(r: Registry, action: Action, maximum: int, claim: ExecutionClaim)
    ensures claim in Stepped(r, action, maximum).lost <==>
      || (claim in r.lost && action != Release(claim))
      || (action.Apply? && claim in r.claims && LeftOut(action.batch, action.heartbeats, claim))
  {
    hide IsIdle;
    hide Admits;
    if action.Apply? {
      assert IsRenewed(action.heartbeats, claim) <==>
        exists heartbeat :: heartbeat in action.heartbeats && heartbeat.claim == claim;
    }
  }

  // ---------------------------------------------------------------- every suspension point

  predicate RegistryInvariant(r: Registry, maximum: int) {
    && r.pending >= 0
    && Active(r) <= maximum
    && (r.isDrained <==> IsIdle(r))
    && r.lost <= r.claims.Keys
  }

  lemma WithoutClaim(claims: map<ExecutionClaim, Control>, claim: ExecutionClaim)
    ensures |claims - {claim}| <= |claims|
    ensures (claims - {claim}).Keys == claims.Keys - {claim}
  {
    assert (claims - {claim}).Keys == claims.Keys - {claim};
    assert |(claims - {claim}).Keys| == |claims - {claim}| && |claims.Keys| == |claims|;
    if claim !in claims {
      assert claims - {claim} == claims;
    }
  }

  lemma WithClaim(claims: map<ExecutionClaim, Control>, claim: ExecutionClaim, control: Control)
    ensures 0 < |claims[claim := control]| <= |claims| + 1
    ensures claims[claim := control].Keys == claims.Keys + {claim}
  {
    assert claims[claim := control].Keys == claims.Keys + {claim};
    assert |claims[claim := control].Keys| == |claims[claim := control]| && |claims.Keys| == |claims|;
    assert claim in claims[claim := control].Keys;
  }

  lemma RegisterKeepsRegistry(r: Registry, claim: ExecutionClaim, control: Control, maximum: int)
    requires RegistryInvariant(r, maximum) && r.pending > 0
    ensures RegistryInvariant(Stepped(r, Register(claim, control), maximum), maximum)
    ensures Active(Stepped(r, Register(claim, control), maximum)) <= Active(r)
    ensures !IsIdle(Stepped(r, Register(claim, control), maximum))
  {
    WithClaim(r.claims, claim, control);
  }

  lemma ReleaseKeepsRegistry(r: Registry, claim: ExecutionClaim, maximum: int)
    requires RegistryInvariant(r, maximum)
    ensures RegistryInvariant(Stepped(r, Release(claim), maximum), maximum)
    ensures Active(Stepped(r, Release(claim), maximum)) <= Active(r)
  {
    WithoutClaim(r.claims, claim);
    var left := r.(claims := r.claims - {claim}, lost := r.lost - {claim});
    assert left.lost <= left.claims.Keys;
    assert Stepped(r, Release(claim), maximum) == DrainedUpdated(left);
    hide Stepped;
  }

  lemma StepKeepsRegistry(r: Registry, action: Action, maximum: int)
    requires RegistryInvariant(r, maximum) && Possible(r, action)
    ensures RegistryInvariant(Stepped(r, action, maximum), maximum)
    ensures !action.Reserve? || !r.isAccepting ==> Active(Stepped(r, action, maximum)) <= Active(r)
    ensures Stepped(r, action, maximum).isAccepting ==> r.isAccepting
  {
    if action.Register? {
      RegisterKeepsRegistry(r, action.claim, action.control, maximum);
    } else if action.Release? {
      ReleaseKeepsRegistry(r, action.claim, maximum);
    }
  }

  function Run(r: Registry, run: seq<Action>, maximum: int): Registry
    decreases run
  {
    if run == [] then r else Run(Stepped(r, run[0], maximum), run[1..], maximum)
  }

  predicate PossibleRun(r: Registry, run: seq<Action>, maximum: int)
    decreases run
  {
    run == [] || (Possible(r, run[0]) && PossibleRun(Stepped(r, run[0], maximum), run[1..], maximum))
  }

  /** In every interleaving: the bound, the drained event and the lost claims are right at every suspension point. */
  lemma {:induction false} RunKeepsRegistry(r: Registry, run: seq<Action>, maximum: int)
    requires RegistryInvariant(r, maximum) && PossibleRun(r, run, maximum)
    ensures RegistryInvariant(Run(r, run, maximum), maximum)
    decreases run
  {
    hide Stepped;
    if run != [] {
      StepKeepsRegistry(r, run[0], maximum);
      RunKeepsRegistry(Stepped(r, run[0], maximum), run[1..], maximum);
    }
  }

  // ---------------------------------------------------------------- lost claims

  /** The claims of every batch that the monitor collects in a run. */
  function Polled(r: Registry, run: seq<Action>, maximum: int): set<ExecutionClaim>
    decreases run
  {
    if run == [] then {}
    else (if run[0].Poll? then Batch(r) else {}) + Polled(Stepped(r, run[0], maximum), run[1..], maximum)
  }

  lemma LostStaysLost(r: Registry, action: Action, maximum: int, claim: ExecutionClaim)
    requires claim in r.lost && action != Release(claim)
    ensures claim in Stepped(r, action, maximum).lost && claim !in Batch(r)
  {
  }

  /** Once lost, a claim is never heartbeaten again: not before its release, whatever happens. */
  lemma {:induction false} LostIsNotPolled(r: Registry, run: seq<Action>, maximum: int, claim: ExecutionClaim)
    requires claim in r.lost && Release(claim) !in run
    ensures claim !in Polled(r, run, maximum) && claim in Run(r, run, maximum).lost
    decreases run
  {
    if run != [] {
      assert run[0] in run;
      LostStaysLost(r, run[0], maximum, claim);
      hide Stepped;
      LostIsNotPolled(Stepped(r, run[0], maximum), run[1..], maximum, claim);
    }
  }

  /**
   A batch that comes back: a claim still registered is lost and signalled if it was left out, is
   signalled if cancellation was requested, and otherwise goes on unsignalled in the next batch.
   */
  lemma AppliedBatch(r: Registry, batch: seq<ExecutionClaim>, heartbeats: seq<ClaimHeartbeat>, maximum: int,
      claim: ExecutionClaim)
    requires claim in batch && claim in r.claims && claim !in r.lost
    ensures var after := Stepped(r, Apply(batch, heartbeats), maximum);
      && (claim in after.lost <==> !IsRenewed(heartbeats, claim))
      && (claim in Batch(after) <==> IsRenewed(heartbeats, claim))
      && (claim in Signalled(r, Apply(batch, heartbeats)) <==>
            (!IsRenewed(heartbeats, claim) || IsToldToCancel(heartbeats, claim)))
  {
  }

  /** When the repository names each claim at most once, being told to cancel is what its heartbeat says. */
  lemma {:induction false} ToldByItsHeartbeat(heartbeats: seq<ClaimHeartbeat>, i: nat)
    requires i < |heartbeats|
    requires forall j, k | 0 <= j < k < |heartbeats| :: heartbeats[j].claim != heartbeats[k].claim
    ensures IsToldToCancel(heartbeats, heartbeats[i].claim) <==> heartbeats[i].cancellationRequested
  {
    var last := |heartbeats| - 1;
    if i < last {
      ToldByItsHeartbeat(heartbeats[..last], i);
    }
  }

  predicate EachOnce(claims: seq<ExecutionClaim>) {
    forall i, j | 0 <= i < j < |claims| :: claims[i] != claims[j]
  }

  lemma {:induction false} HeartbeatsOnce(rows: Rows, claims: seq<ExecutionClaim>, now: Instant)
    requires EachOnce(claims)
    ensures forall j, k | 0 <= j < k < |Heartbeats(rows, claims, now)| ::
      Heartbeats(rows, claims, now)[j].claim != Heartbeats(rows, claims, now)[k].claim
  {
    if claims != [] {
      var rest := Heartbeats(rows, claims[1..], now);
      HeartbeatsOnce(rows, claims[1..], now);
      HeartbeatsAreRenewable(rows, claims[1..], now);
      forall k | 0 <= k < |rest| ensures rest[k].claim != claims[0] {
        assert rest[k] in rest && rest[k].claim in claims[1..];
      }
    }
  }

  /**
   The monitor and the repository together: after a batch is answered, a registered claim is lost
   exactly if the database no longer held it for this worker, and its control is signalled exactly
   if it is lost or its job's cancellation is requested.
   */
  lemma MonitorTellsTheTruth(
    r: Registry, rows: Rows, batch: seq<ExecutionClaim>, now: Instant, maximum: int, claim: ExecutionClaim)
    requires EachOnce(batch) && claim in batch && claim in r.claims && claim !in r.lost
    ensures var action := Apply(batch, Heartbeats(rows, batch, now));
      && (claim in Stepped(r, action, maximum).lost <==> !Renewable(rows, claim, now))
      && (claim in Signalled(r, action) <==>
            (Renewable(rows, claim, now) ==> rows[claim.dispatch.internalJobId].job.cancellationRequested))
  {
    var heartbeats := Heartbeats(rows, batch, now);
    HeartbeatsAreRenewable(rows, batch, now);
    HeartbeatsOnce(rows, batch, now);
    assert forall i | 0 <= i < |heartbeats| :: heartbeats[i] in heartbeats;
    if Renewable(rows, claim, now) {
      var heartbeat :| heartbeat in heartbeats && heartbeat.claim == claim;
      var i :| 0 <= i < |heartbeats| && heartbeats[i] == heartbeat;
      ToldByItsHeartbeat(heartbeats, i);
      assert IsRenewed(heartbeats, claim);
    }
    AppliedBatch(r, batch, heartbeats, maximum, claim);
  }

  // ---------------------------------------------------------------- shutdown

  /** Once admission is closed, work only drains, and a drained worker stays drained. */
  lemma {:induction false} ClosedOnlyDrains(r: Registry, run: seq<Action>, maximum: int)
    requires RegistryInvariant(r, maximum) && PossibleRun(r, run, maximum) && !r.isAccepting
    ensures var last := Run(r, run, maximum);
      && !last.isAccepting && Active(last) <= Active(r)
      && (r.isDrained ==> last.isDrained && IsIdle(last))
    decreases run
  {
    hide Stepped;
    if run != [] {
      StepKeepsRegistry(r, run[0], maximum);
      ClosedOnlyDrains(Stepped(r, run[0], maximum), run[1..], maximum);
    }
  }

  /**
   The shutdown task can be woken while a claim is registered, and exactly so: the last pending
   claim comes back with a job while nothing else is registered. The drained event is set between
   dropping the pending count and registering the claim, and a wake-up is not taken back.
   */
  lemma WokenWithWorkIff(r: Registry, action: Action, maximum: int)
    requires RegistryInvariant(r, maximum) && Possible(r, action) && r.isWaiting && !r.isWoken
    ensures var after := Stepped(r, action, maximum);
      (after.isWoken && !IsIdle(after)) <==> (action.Register? && r.pending == 1 && |r.claims| == 0)
  {
    match action
    case Register(claim, control) => WithClaim(r.claims, claim, control);
    case Release(claim) => WithoutClaim(r.claims, claim);
    case _ =>
  }

  /** From an empty registry: a claim under way, shutdown, and the claim that comes back with a job. */
  lemma WokenExample(claim: ExecutionClaim, control: Control)
    ensures var stopping := [Reserve, AwaitDrained];
      var before := Run(EMPTY_REGISTRY, stopping, 1);
      var after := Stepped(before, Register(claim, control), 1);
      && PossibleRun(EMPTY_REGISTRY, stopping, 1) && Possible(before, Register(claim, control))
      && !before.isWoken && after.isWoken && claim in after.claims && !IsIdle(after)
  {
    var stopping := [Reserve, AwaitDrained];
    assert stopping[1..] == [AwaitDrained] && stopping[1..][1..] == [];
    var before := Stepped(Stepped(EMPTY_REGISTRY, Reserve, 1), AwaitDrained, 1);
    assert Run(EMPTY_REGISTRY, stopping, 1) == Run(Stepped(EMPTY_REGISTRY, Reserve, 1), stopping[1..], 1) == before;
    WithClaim(before.claims, claim, control);
  }

  // ---------------------------------------------------------------- the manager

  function SignalledControls(r: Registry, action: Action): set<Control> {
    set claim | claim in Signalled(r, action) && claim in r.claims :: r.claims[claim]
  }

  /** Which of the controls are signalled. */
  ghost function Flags(controls: set<Control>): map<Control, bool>
    reads controls
  {
    map control | control in controls :: control.cancellationRequested
  }

  function WithSignals(flags: map<Control, bool>, signalled: set<Control>): map<Control, bool> {
    map control | control in flags :: flags[control] || control in signalled
  }

  lemma SignalsAdd(flags: map<Control, bool>, a: set<Control>, b: set<Control>)
    ensures WithSignals(WithSignals(flags, a), b) == WithSignals(flags, a + b)
    ensures WithSignals(flags, {}) == flags
  {
  }

  class ExecutionClaimManager {
    const workerOwner: Uuid
    const maxActiveClaims: int

    var claims: map<ExecutionClaim, Control>
    var ownershipLost: set<ExecutionClaim>
    var pendingClaims: int
    var drained: bool
    var accepting: bool

    /** Whether the shutdown task waits for the drained event, and whether that wait has been woken. */
    ghost var isWaiting: bool
    ghost var isWoken: bool

    ghost function View(): Registry
      reads this
    {
      Registry(claims, ownershipLost, pendingClaims, drained, accepting, isWaiting, isWoken)
    }

    ghost predicate Valid()
      reads this
    {
      RegistryInvariant(View(), maxActiveClaims)
    }

    constructor (workerOwner: Uuid, maxActiveClaims: int)
      requires maxActiveClaims > 0
      ensures Valid() && View() == EMPTY_REGISTRY
      ensures this.workerOwner == workerOwner && this.maxActiveClaims == maxActiveClaims
    {
      this.workerOwner := workerOwner;
      this.maxActiveClaims := maxActiveClaims;
      claims, ownershipLost, pendingClaims := map[], {}, 0;
      drained, accepting := true, true;
      isWaiting, isWoken := false, false;
    }

    method UpdateDrainedState()
      modifies this`drained, this`isWoken
      ensures View() == DrainedUpdated(old(View()))
    {
      if pendingClaims == 0 && |claims| == 0 {
        drained := true;
        isWoken := isWoken || isWaiting;
        return;
      }
      drained := false;
    }

    /** `claim` up to the ownership probe, and the same check after it. */
    method MayClaim() returns (may: bool)
      ensures may <==> Admits(View(), maxActiveClaims)
    {
      may := !(!accepting || |claims| + pendingClaims >= maxActiveClaims);
    }

    /** `claim` from the end of the ownership probe to the durable claim. */
    method ReserveClaim() returns (reserved: bool)
      requires Valid()
      modifies this
      ensures Valid() && View() == Stepped(old(View()), Reserve, maxActiveClaims)
      ensures reserved <==> old(Admits(View(), maxActiveClaims))
    {
      StepKeepsRegistry(View(), Reserve, maxActiveClaims);
      reserved := MayClaim();
      if reserved {
        pendingClaims := pendingClaims + 1;
        UpdateDrainedState();
      }
    }

    /** `claim` from the durable claim to its end; an answer for another delivery raises. */
    method FinishClaim(dispatch: JobDispatch, answer: Answer, control: Control) returns (claimed: Option<ClaimedJob>)
      requires Valid() && pendingClaims > 0
      modifies this
      ensures claimed == if answer.Claimed? && answer.claimed.claim == ExecutionClaim(dispatch, workerOwner)
                         then Some(answer.claimed) else None
      ensures Valid()
      ensures View() == Stepped(
        old(View()), if claimed.Some? then Register(claimed.value.claim, control) else Abandon, maxActiveClaims)
    {
      hide RegistryInvariant;
      hide IsIdle;
      ghost var r := View();
      pendingClaims := pendingClaims - 1;
      UpdateDrainedState();
      claimed := None;
      StepKeepsRegistry(r, Abandon, maxActiveClaims);
      if answer.Claimed? {
        if answer.claimed.claim.dispatch != dispatch || answer.claimed.claim.workerOwner != workerOwner {
          return;
        }
        claims := claims[answer.claimed.claim := control];
        claimed := Some(answer.claimed);
        RegisterKeepsRegistry(r, answer.claimed.claim, control, maxActiveClaims);
      }
      UpdateDrainedState();
    }

    method ReleaseClaim(claim: ExecutionClaim)
      requires Valid()
      modifies this
      ensures Valid() && View() == Stepped(old(View()), Release(claim), maxActiveClaims)
    {
      ReleaseKeepsRegistry(View(), claim, maxActiveClaims);
      claims := claims - {claim};
      ownershipLost := ownershipLost - {claim};
      UpdateDrainedState();
    }

    /** `stop_accepting`. */
    method CloseAdmission()
      requires Valid()
      modifies this
      ensures Valid() && View() == Stepped(old(View()), StopAccepting, maxActiveClaims)
    {
      accepting := false;
    }

    /** `shutdown` up to its wait, which is over at once if the worker is drained. */
    method BeginShutdown() returns (isOver: bool)
      requires Valid()
      modifies this
      ensures Valid() && View() == Stepped(old(View()), AwaitDrained, maxActiveClaims)
      ensures isOver == old(drained)
    {
      CloseAdmission();
      isWaiting, isWoken := true, isWoken || drained;
      isOver := drained;
    }

    /** The batch of the next heartbeat, each claim once. */
    method CollectBatch() returns (batch: seq<ExecutionClaim>)
      ensures forall claim :: claim in batch <==> claim in Batch(View())
      ensures EachOnce(batch)
    {
      batch := [];
      var rest := claims.Keys;
      while rest != {}
        invariant rest <= claims.Keys
        invariant forall claim :: claim in batch <==> claim in Batch(View()) && claim !in rest
        invariant EachOnce(batch)
      {
        var claim :| claim in rest;
        rest := rest - {claim};
        if claim !in ownershipLost {
          batch := batch + [claim];
        }
      }
    }

    /** What the monitor does with the answer to a batch that it collected earlier. */
    method ApplyHeartbeats(batch: seq<ExecutionClaim>, heartbeats: seq<ClaimHeartbeat>)
      requires Valid()
      modifies this, claims.Values
      ensures Valid() && View() == Stepped(old(View()), Apply(batch, heartbeats), maxActiveClaims)
      ensures Flags(claims.Values)
        == WithSignals(old(Flags(claims.Values)), SignalledControls(old(View()), Apply(batch, heartbeats)))
    {
      hide IsRenewed;
      hide IsToldToCancel;
      hide NewlyLost;
      hide SignalledControls;
      hide RegistryInvariant;
      hide Stepped;
      hide DrainedUpdated;
      hide Flags;
      hide WithSignals;
      hide LostBy;
      hide HitBy;
      ghost var r := View();
      StepKeepsRegistry(r, Apply(batch, heartbeats), maxActiveClaims);
      BatchEnds(r, batch, heartbeats, maxActiveClaims);
      hide LostUpTo;
      hide SignalledUpTo;
      var byClaim := IndexHeartbeats(heartbeats);
      ghost var flags := Flags(claims.Values);
      SignalsAdd(flags, {}, {});
      for i := 0 to |batch|
        invariant View() == r.(lost := LostUpTo(r, batch, i, heartbeats))
        invariant Flags(claims.Values) == WithSignals(flags, SignalledUpTo(r, batch, i, heartbeats))
      {
        MoreApplied(r, batch, i, heartbeats);
        var heartbeat := if batch[i] in byClaim then Some(byClaim[batch[i]]) else None;
        ApplyHeartbeat(batch[i], heartbeat, heartbeats);
        SignalsAdd(flags, SignalledUpTo(r, batch, i, heartbeats), HitBy(r.claims, batch[i], heartbeats));
      }
    }

    /** One claim of the batch, if it is still registered; without a heartbeat its ownership is lost. */
    method ApplyHeartbeat(claim: ExecutionClaim, heartbeat: Option<ClaimHeartbeat>,
        ghost heartbeats: seq<ClaimHeartbeat>)
      requires heartbeat.Some? <==> IsRenewed(heartbeats, claim)
      requires heartbeat.Some? ==> (heartbeat.value.cancellationRequested <==> IsToldToCancel(heartbeats, claim))
      modifies this`ownershipLost, claims.Values
      ensures ownershipLost == old(ownershipLost) + LostBy(claims, claim, heartbeats)
      ensures Flags(claims.Values) == WithSignals(old(Flags(claims.Values)), HitBy(claims, claim, heartbeats))
    {
      if claim !in claims {
        return;
      }
      var control := claims[claim];
      if heartbeat.None? {
        ownershipLost := ownershipLost + {claim};
        control.RequestCancellation();
      } else if heartbeat.value.cancellationRequested {
        control.RequestCancellation();
      }
    }

    static method IndexHeartbeats(heartbeats: seq<ClaimHeartbeat>)
        returns (byClaim: map<ExecutionClaim, ClaimHeartbeat>)
      ensures forall claim :: claim in byClaim <==> IsRenewed(heartbeats, claim)
      ensures forall claim | claim in byClaim ::
          byClaim[claim].cancellationRequested <==> IsToldToCancel(heartbeats, claim)
    {
      byClaim := map[];
      for i := 0 to |heartbeats|
        invariant forall claim :: claim in byClaim <==> IsRenewed(heartbeats[..i], claim)
        invariant forall claim | claim in byClaim ::
          byClaim[claim].cancellationRequested <==> IsToldToCancel(heartbeats[..i], claim)
      {
        var heartbeat := heartbeats[i];
        assert heartbeats[..i + 1][..i] == heartbeats[..i];
        forall claim
          ensures IsRenewed(heartbeats[..i + 1], claim) <==>
              IsRenewed(heartbeats[..i], claim) || claim == heartbeat.claim
        {
          if IsRenewed(heartbeats[..i], claim) {
            var k :| 0 <= k < i && heartbeats[..i][k].claim == claim;
            assert heartbeats[..i + 1][k].claim == claim;
          }
          if claim == heartbeat.claim {
            assert heartbeats[..i + 1][i].claim == claim;
          }
        }
        byClaim := byClaim[heartbeat.claim := heartbeat];
      }
      assert heartbeats[..|heartbeats|] == heartbeats;
    }
  }

  /** The lost claims, and the signalled controls, after the first `i` claims of a batch. */
  function LostUpTo(r: Registry, batch: seq<ExecutionClaim>, i: nat, heartbeats: seq<ClaimHeartbeat>)
    : set<ExecutionClaim>
    requires i <= |batch|
  {
    r.lost + NewlyLost(r, batch[..i], heartbeats)
  }

  function SignalledUpTo(r: Registry, batch: seq<ExecutionClaim>, i: nat, heartbeats: seq<ClaimHeartbeat>): set<Control>
    requires i <= |batch|
  {
    SignalledControls(r, Apply(batch[..i], heartbeats))
  }

  lemma BatchEnds(r: Registry, batch: seq<ExecutionClaim>, heartbeats: seq<ClaimHeartbeat>, maximum: int)
    ensures LostUpTo(r, batch, 0, heartbeats) == r.lost && SignalledUpTo(r, batch, 0, heartbeats) == {}
    ensures Stepped(r, Apply(batch, heartbeats), maximum) == r.(lost := LostUpTo(r, batch, |batch|, heartbeats))
    ensures SignalledControls(r, Apply(batch, heartbeats)) == SignalledUpTo(r, batch, |batch|, heartbeats)
  {
    assert batch[..0] == [] && batch[..|batch|] == batch;
  }

  function LostBy(claims: map<ExecutionClaim, Control>, claim: ExecutionClaim, heartbeats: seq<ClaimHeartbeat>)
    : set<ExecutionClaim>
  {
    if claim in claims && !IsRenewed(heartbeats, claim) then {claim} else {}
  }

  function HitBy(claims: map<ExecutionClaim, Control>, claim: ExecutionClaim, heartbeats: seq<ClaimHeartbeat>)
    : set<Control>
  {
    if claim in claims && (!IsRenewed(heartbeats, claim) || IsToldToCancel(heartbeats, claim)) then
      {claims[claim]}
    else
      {}
  }

  /** One more claim of the batch is applied. */
  lemma MoreApplied(r: Registry, batch: seq<ExecutionClaim>, i: nat, heartbeats: seq<ClaimHeartbeat>)
    requires i < |batch|
    ensures LostUpTo(r, batch, i + 1, heartbeats)
      == LostUpTo(r, batch, i, heartbeats) + LostBy(r.claims, batch[i], heartbeats)
    ensures SignalledUpTo(r, batch, i + 1, heartbeats)
      == SignalledUpTo(r, batch, i, heartbeats) + HitBy(r.claims, batch[i], heartbeats)
  {
    assert batch[..i + 1] == batch[..i] + [batch[i]];
    var before, after := Signalled(r, Apply(batch[..i], heartbeats)), Signalled(r, Apply(batch[..i + 1], heartbeats));
    forall claim
      ensures claim in after <==>
        (claim in before
         || (claim == batch[i] && claim in r.claims
             && (!IsRenewed(heartbeats, claim) || IsToldToCancel(heartbeats, claim))))
    {
    }
  }
}
