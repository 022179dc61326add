/** Runtime enables and disables of providers on an owned session, racing each other and the dispatch of
    events whose callbacks may themselves enable and disable.

    Every lock acquisition, OS call and registry update is a step of its own; a schedule picks which
    thread moves next and whether an OS call succeeds. A lock is free when no thread holds it. */
module SessionProtocol {
  import opened Wrappers
  import opened ProviderRegistry

  /** Where an `enable_provider` or `disable_provider` call stands. The session-mutation lock is held
      from `Locked` to `Ends`; the registry lock in `Registers`, `RollsBack`, `Checks` and `Removes`. */
  datatype Mutation =
    | EnableWaits(p: Provider)
    | EnableLocked(p: Provider)
    | EnableRegisters(p: Provider)
    | EnableCallsOs(p: Provider)
    | EnableRejected(p: Provider)
    | EnableRollsBack(p: Provider)
    | EnableEnds(p: Provider, ok: bool)
    | DisableWaits(guid: Guid)
    | DisableLocked(guid: Guid)
    | DisableChecks(guid: Guid)
    | DisableCallsOs(guid: Guid)
    | DisableAccepted(guid: Guid)
    | DisableRemoves(guid: Guid)
    | DisableEnds(guid: Guid, outcome: DisableOutcome)

  datatype DisableOutcome = Removed(count: nat) | NotRegistered | RejectedByOs

  /** A thread: idle, in a mutation called directly, or dispatching an event. A dispatch snapshots the
      providers of the event's GUID, then runs the callbacks of each in turn under that provider's
      callback lock; `nested` is the mutation the running callback is in. */
  datatype Thread =
    | Idle
    | Mutating(m: Mutation)
    | DispatchWaits(guid: Guid)
    | DispatchReads(guid: Guid)
    | Delivering(snapshot: seq<Provider>, next: nat)
    | InCallback(snapshot: seq<Provider>, next: nat, nested: Option<Mutation>)

  /** What the mutations are about: the registered providers, and the GUIDs enabled at OS level. */
  datatype Session = Session(providers: seq<Provider>, enabled: set<Guid>)

  /** A completed mutation, in completion order. */
  datatype Commit =
    | Enabled(p: Provider)
    | EnableFailed(p: Provider)
    | Disabled(guid: Guid, count: nat)
    | DisableSkipped(guid: Guid)
    | DisableFailed(guid: Guid)

  datatype State = State(
    threads: seq<Thread>, session: Session, nextInstance: nat, ghost log: seq<Commit>)

  // ---------- locks ----------

  datatype Lock = CallbackLock(p: Provider) | SessionMutations | RegistryRead | RegistryWrite

  /** The order locks are taken in. */
  function Rank(lock: Lock): nat {
    match lock
    case CallbackLock(_) => 0
    case SessionMutations => 1
    case RegistryRead => 2
    case RegistryWrite => 2
  }

  function MutationHolds(m: Mutation): set<Lock> {
    match m
    case EnableWaits(_) => {}
    case DisableWaits(_) => {}
    case EnableRegisters(_) => {SessionMutations, RegistryWrite}
    case EnableRollsBack(_) => {SessionMutations, RegistryWrite}
    case DisableChecks(_) => {SessionMutations, RegistryRead}
    case DisableRemoves(_) => {SessionMutations, RegistryWrite}
    case _ => {SessionMutations}
  }

  function MutationWants(m: Mutation): Option<Lock> {
    match m
    case EnableWaits(_) => Some(SessionMutations)
    case EnableLocked(_) => Some(RegistryWrite)
    case EnableRejected(_) => Some(RegistryWrite)
    case DisableWaits(_) => Some(SessionMutations)
    case DisableLocked(_) => Some(RegistryRead)
    case DisableAccepted(_) => Some(RegistryWrite)
    case _ => None
  }

  function Holds(th: Thread): set<Lock> {
    match th
    case Mutating(m) => MutationHolds(m)
    case DispatchReads(_) => {RegistryRead}
    case InCallback(snapshot, next, nested) =>
      (if next < |snapshot| then {CallbackLock(snapshot[next])} else {})
      + (if nested.Some? then MutationHolds(nested.value) else {})
    case _ => {}
  }

  function Wants(th: Thread): Option<Lock> {
    match th
    case Mutating(m) => MutationWants(m)
    case DispatchWaits(_) => Some(RegistryRead)
    case Delivering(snapshot, next) => if next < |snapshot| then Some(CallbackLock(snapshot[next])) else None
    case InCallback(_, _, nested) => if nested.Some? then MutationWants(nested.value) else None
    case _ => None
  }

  predicate Conflicts(a: Lock, b: Lock) {
    || (a == b && !a.RegistryRead?)
    || (a.RegistryRead? && b.RegistryWrite?)
    || (a.RegistryWrite? && b.RegistryRead?)
  }

  ghost predicate Available(s: State, lock: Lock) {
    forall t, held :: 0 <= t < |s.threads| && held in Holds(s.threads[t]) ==> !Conflicts(lock, held)
  }

  // ---------- steps ----------

  /** What the scheduler decides besides the thread that moves. */
  datatype Choice = Enable(guid: Guid) | Disable(guid: Guid) | Event(guid: Guid) | Go(osAccepts: bool)

  /** One step of a mutation whose wanted lock, if any, is available: the mutation's next stage (`None`
      when it is over) and the session. */
  function MutationStep(m: Mutation, session: Session, osAccepts: bool): (Option<Mutation>, Session) {
    match m
    case EnableWaits(p) => (Some(EnableLocked(p)), session)
    case EnableLocked(p) => (Some(EnableRegisters(p)), session)
    case EnableRegisters(p) =>
      (Some(EnableCallsOs(p)), session.(providers := session.providers + [p]))
    case EnableCallsOs(p) =>
      if osAccepts then (Some(EnableEnds(p, true)), session.(enabled := session.enabled + {p.guid}))
      else (Some(EnableRejected(p)), session)
    case EnableRejected(p) => (Some(EnableRollsBack(p)), session)
    case EnableRollsBack(p) =>
      (Some(EnableEnds(p, false)), session.(providers := Without(session.providers, p)))
    case EnableEnds(_, _) => (None, session)
    case DisableWaits(guid) => (Some(DisableLocked(guid)), session)
    case DisableLocked(guid) => (Some(DisableChecks(guid)), session)
    case DisableChecks(guid) =>
      if OfGuid(session.providers, guid) == [] then (Some(DisableEnds(guid, NotRegistered)), session)
      else (Some(DisableCallsOs(guid)), session)
    case DisableCallsOs(guid) =>
      if osAccepts then (Some(DisableAccepted(guid)), session.(enabled := session.enabled - {guid}))
      else (Some(DisableEnds(guid, RejectedByOs)), session)
    case DisableAccepted(guid) => (Some(DisableRemoves(guid)), session)
    case DisableRemoves(guid) =>
      (Some(DisableEnds(guid, Removed(|OfGuid(session.providers, guid)|))),
       session.(providers := WithoutGuid(session.providers, guid)))
    case DisableEnds(_, _) => (None, session)
  }

  /** The commits a step of `m` adds to the log: one, when it releases the session-mutation lock. */
  function Commits(m: Mutation): seq<Commit> {
    match m
    case EnableEnds(p, ok) => [if ok then Enabled(p) else EnableFailed(p)]
    case DisableEnds(guid, Removed(count)) => [Disabled(guid, count)]
    case DisableEnds(guid, NotRegistered) => [DisableSkipped(guid)]
    case DisableEnds(guid, RejectedByOs) => [DisableFailed(guid)]
    case _ => []
  }

  function MutationOf(th: Thread): Option<Mutation> {
    match th
    case Mutating(m) => Some(m)
    case InCallback(_, _, nested) => nested
    case _ => None
  }

  function WithMutation(th: Thread, m: Option<Mutation>): Thread
    requires MutationOf(th).Some?
  {
    match th
    case Mutating(_) => if m.Some? then Mutating(m.value) else Idle
    case InCallback(snapshot, next, _) => InCallback(snapshot, next, m)
  }

  /** A thread may call a mutation when it is idle, or from a callback it is running. */
  predicate MayCall(th: Thread) {
    th.Idle? || (th.InCallback? && th.nested.None?)
  }

  function Calling(th: Thread, m: Mutation): Thread
    requires MayCall(th)
  {
    if th.Idle? then Mutating(m) else th.(nested := Some(m))
  }

  /** The state after thread `t` takes a step, `None` when it cannot take that one. */
  ghost function Step(s: State, t: nat, choice: Choice): Option<State>
    requires t < |s.threads|
  {
    var th := s.threads[t];
    match choice
    case Enable(guid) =>
      if !MayCall(th) then None
      else
        var p := Provider(s.nextInstance, guid);
        Some(s.(threads := s.threads[t := Calling(th, EnableWaits(p))], nextInstance := s.nextInstance + 1))
    case Disable(guid) =>
      if !MayCall(th) then None
      else Some(s.(threads := s.threads[t := Calling(th, DisableWaits(guid))]))
    case Event(guid) =>
      if !th.Idle? then None else Some(s.(threads := s.threads[t := DispatchWaits(guid)]))
    case Go(osAccepts) =>
      if th.Idle? || (Wants(th).Some? && !Available(s, Wants(th).value)) then None
      else if MutationOf(th).Some? then
        var m := MutationOf(th).value;
        var (m', session') := MutationStep(m, s.session, osAccepts);
        Some(s.(threads := s.threads[t := WithMutation(th, m')], session := session', log := s.log + Commits(m)))
      else Some(s.(threads := s.threads[t := DispatchStep(th, s.session)]))
  }

  function DispatchStep(th: Thread, session: Session): Thread
    requires !th.Idle? && MutationOf(th).None?
  {
    match th
    case DispatchWaits(guid) => DispatchReads(guid)
    case DispatchReads(guid) => Delivering(OfGuid(session.providers, guid), 0)
    case Delivering(snapshot, next) => if next < |snapshot| then InCallback(snapshot, next, None) else Idle
    case InCallback(snapshot, next, _) => Delivering(snapshot, next + 1)
  }

  /** A trace just started: its threads idle, and exactly the registered GUIDs enabled. */
  ghost predicate Initial(s: State) {
    && (forall t :: 0 <= t < |s.threads| ==> s.threads[t] == Idle)
    && (forall guid :: guid in s.session.enabled <==> Registers(s.session, guid))
    && (forall p :: p in s.session.providers ==> p.instance < s.nextInstance)
    && s.log == []
  }

  ghost predicate Registers(session: Session, guid: Guid) {
    OfGuid(session.providers, guid) != []
  }

  /** A schedule: which thread moves, and how. */
  type Schedule = seq<(nat, Choice)>

  /** The state a schedule leads to, `None` when some step of it cannot be taken. */
  ghost function Run(init: State, schedule: Schedule): Option<State> {
    if schedule == [] then Some(init)
    else
      var before :- Run(init, schedule[..|schedule| - 1]);
      var (t, choice) := schedule[|schedule| - 1];
      if t < |before.threads| then Step(before, t, choice) else None
  }

  // ---------- the serial meaning of a log ----------

  /** A completed mutation, as if it had run alone. */
  function Perform(session: Session, commit: Commit): Session {
    match commit
    case Enabled(p) => Session(session.providers + [p], session.enabled + {p.guid})
    case Disabled(guid, _) => Session(WithoutGuid(session.providers, guid), session.enabled - {guid})
    case _ => session
  }

  function Replay(session: Session, log: seq<Commit>): Session {
    if log == [] then session
    else Perform(Replay(session, log[..|log| - 1]), log[|log| - 1])
  }

  /** What a mutation reports is true of the session it ran on. */
  ghost predicate Truthful(session: Session, commit: Commit) {
    match commit
    case Disabled(guid, count) => count == |OfGuid(session.providers, guid)| > 0
    case DisableSkipped(guid) => !Registers(session, guid)
    case DisableFailed(guid) => Registers(session, guid)
    case _ => true
  }

  ghost predicate LogTruthful(session: Session, log: seq<Commit>) {
    forall k :: 0 <= k < |log| ==> Truthful(Replay(session, log[..k]), log[k])
  }

  /** The session while `m` holds the mutation lock, `base` being what it found. */
  ghost predicate Underway(base: Session, m: Mutation, session: Session) {
    match m
    case EnableWaits(_) => false
    case EnableLocked(_) => session == base
    case EnableRegisters(_) => session == base
    case EnableCallsOs(p) => session == base.(providers := base.providers + [p])
    case EnableRejected(p) => session == base.(providers := base.providers + [p])
    case EnableRollsBack(p) => session == base.(providers := base.providers + [p])
    case EnableEnds(p, ok) => session == if ok then Perform(base, Enabled(p)) else base
    case DisableWaits(_) => false
    case DisableLocked(_) => session == base
    case DisableChecks(_) => session == base
    case DisableCallsOs(guid) => session == base && Registers(base, guid)
    case DisableAccepted(guid) => session == base.(enabled := base.enabled - {guid}) && Registers(base, guid)
    case DisableRemoves(guid) => session == base.(enabled := base.enabled - {guid}) && Registers(base, guid)
    case DisableEnds(guid, outcome) =>
      var commit := Commits(m)[0];
      Truthful(base, commit) && session == Perform(base, commit)
  }
}
