/** What a schedule decides, read off its steps: a mutation's outcome is the OS's answer to its call, and a
    dispatch runs every callback of its snapshot once, in order. */
module SessionOutcomes {
  import opened Wrappers
  import opened ProviderRegistry
  import opened SessionProtocol
  import opened SessionSafety

  // ---------- outcomes ----------

  /** A call to the OS, by the mutation that makes it, and the OS's answer. */
  datatype OsAnswer = OsAnswer(call: Mutation, accepted: bool)

  /** The call, and its answer, of the mutation thread `t` began last: nothing until it made one. */
  ghost function LastAnswer(init: State, schedule: Schedule, t: nat): Option<OsAnswer>
    requires Run(init, schedule).Some?
  {
    if schedule == [] then None
    else
      var (u, choice) := schedule[|schedule| - 1];
      var earlier := LastAnswer(init, schedule[..|schedule| - 1], t);
      var m := MutationOf(Run(init, schedule[..|schedule| - 1]).value.threads[u]);
      if u != t then earlier
      else if choice.Enable? || choice.Disable? then None
      else if choice.Go? && m.Some? && (m.value.EnableCallsOs? || m.value.DisableCallsOs?) then
        Some(OsAnswer(m.value, choice.osAccepts))
      else earlier
  }

  /** What a mutation's stage says of its call: before it nothing, after it the answer. An enable succeeds
      exactly when the OS accepted; a disable removes exactly then, is rejected exactly when the OS refused,
      and finds nothing registered exactly when it never asked. */
  predicate Outcome(m: Mutation, answer: Option<OsAnswer>) {
    match m
    case EnableRejected(p) => answer == Some(OsAnswer(EnableCallsOs(p), false))
    case EnableRollsBack(p) => answer == Some(OsAnswer(EnableCallsOs(p), false))
    case EnableEnds(p, ok) => answer == Some(OsAnswer(EnableCallsOs(p), ok))
    case DisableAccepted(guid) => answer == Some(OsAnswer(DisableCallsOs(guid), true))
    case DisableRemoves(guid) => answer == Some(OsAnswer(DisableCallsOs(guid), true))
    case DisableEnds(guid, Removed(_)) => answer == Some(OsAnswer(DisableCallsOs(guid), true))
    case DisableEnds(guid, RejectedByOs) => answer == Some(OsAnswer(DisableCallsOs(guid), false))
    case _ => answer == None
  }

  /** Over every schedule, every mutation is where the OS's answer to its own call puts it. */
  lemma {:induction false} OutcomeIsOsAnswer(init: State, schedule: Schedule, t: nat)
    requires Initial(init) && Run(init, schedule).Some?
    requires t < |Run(init, schedule).value.threads|
    requires MutationOf(Run(init, schedule).value.threads[t]).Some?
    ensures Outcome(MutationOf(Run(init, schedule).value.threads[t]).value, LastAnswer(init, schedule, t))
    decreases |schedule|
  {
    if schedule != [] {
      hide Outcome, Step;
      var (u, choice) := schedule[|schedule| - 1];
      var s := Run(init, schedule[..|schedule| - 1]).value;
      StepFrame(s, u, choice);
      if u != t {
        OutcomeIsOsAnswer(init, schedule[..|schedule| - 1], t);
      } else if choice.Go? {
        OutcomeCarriesOn(init, schedule, t, choice.osAccepts);
      } else {
        FreshMutation(s, t, choice);
      }
    }
  }

  lemma FreshMutation(s: State, t: nat, choice: Choice)
    requires t < |s.threads| && Step(s, t, choice).Some? && !choice.Go?
    requires MutationOf(Step(s, t, choice).value.threads[t]).Some?
    ensures choice.Enable? || choice.Disable?
    ensures Outcome(MutationOf(Step(s, t, choice).value.threads[t]).value, None)
  {
  }

  lemma {:induction false} OutcomeCarriesOn(init: State, schedule: Schedule, t: nat, osAccepts: bool)
    requires Initial(init) && Run(init, schedule).Some? && schedule != []
    requires schedule[|schedule| - 1] == (t, Go(osAccepts))
    requires MutationOf(Run(init, schedule).value.threads[t]).Some?
    ensures Outcome(MutationOf(Run(init, schedule).value.threads[t]).value, LastAnswer(init, schedule, t))
    decreases |schedule|, 0
  {
    hide Outcome, Step;
    var s := Run(init, schedule[..|schedule| - 1]).value;
    MutationGoesOn(s, t, osAccepts);
    OutcomeIsOsAnswer(init, schedule[..|schedule| - 1], t);
    OutcomeStep(s, MutationOf(s.threads[t]).value, LastAnswer(init, schedule[..|schedule| - 1], t), osAccepts);
  }

  /** Going on, a thread in a mutation was in it before. */
  lemma MutationGoesOn(s: State, t: nat, osAccepts: bool)
    requires t < |s.threads| && Step(s, t, Go(osAccepts)).Some?
    requires MutationOf(Step(s, t, Go(osAccepts)).value.threads[t]).Some?
    ensures MutationOf(s.threads[t]).Some?
    ensures MutationOf(Step(s, t, Go(osAccepts)).value.threads[t])
            == MutationStep(MutationOf(s.threads[t]).value, s.session, osAccepts).0
  {
  }

  lemma OutcomeStep(s: State, m: Mutation, answer: Option<OsAnswer>, osAccepts: bool)
    requires Outcome(m, answer)
    requires MutationStep(m, s.session, osAccepts).0.Some?
    ensures Outcome(
              MutationStep(m, s.session, osAccepts).0.value,
              if m.EnableCallsOs? || m.DisableCallsOs? then Some(OsAnswer(m, osAccepts)) else answer)
  {
  }

  /** The outcome a caller gets, in both directions: success if and only if the OS accepted the call. */
  lemma MutationSucceedsIff(init: State, schedule: Schedule, t: nat)
    requires Initial(init) && Run(init, schedule).Some?
    requires t < |Run(init, schedule).value.threads|
    requires MutationOf(Run(init, schedule).value.threads[t]).Some?
    ensures match MutationOf(Run(init, schedule).value.threads[t]).value
            case EnableEnds(p, ok) =>
              && LastAnswer(init, schedule, t).Some?
              && (ok <==> LastAnswer(init, schedule, t).value == OsAnswer(EnableCallsOs(p), true))
              && (!ok <==> LastAnswer(init, schedule, t).value == OsAnswer(EnableCallsOs(p), false))
            case DisableEnds(guid, outcome) =>
              && (outcome.Removed? <==> LastAnswer(init, schedule, t) == Some(OsAnswer(DisableCallsOs(guid), true)))
              && (outcome.RejectedByOs? <==>
                    LastAnswer(init, schedule, t) == Some(OsAnswer(DisableCallsOs(guid), false)))
              && (outcome.NotRegistered? <==> LastAnswer(init, schedule, t) == None)
            case _ => true
  {
    hide Run;
    OutcomeIsOsAnswer(init, schedule, t);
  }

  // ---------- dispatches ----------

  /** The dispatch a thread began last: the event's GUID, the entries of that GUID when it read the registry,
      and the callbacks it entered since, in order. */
  datatype Dispatch = Dispatch(guid: Guid, snapshot: seq<Provider>, entered: seq<Provider>)

  ghost function LastDispatch(init: State, schedule: Schedule, t: nat): Dispatch
    requires Run(init, schedule).Some?
  {
    if schedule == [] then Dispatch(0, [], [])
    else
      var (u, choice) := schedule[|schedule| - 1];
      var earlier := LastDispatch(init, schedule[..|schedule| - 1], t);
      var before, after := Run(init, schedule[..|schedule| - 1]).value, Run(init, schedule).value;
      if u != t then earlier
      else if choice.Event? then Dispatch(choice.guid, [], [])
      else if before.threads[t].DispatchReads? then
        earlier.(snapshot := OfGuid(before.session.providers, earlier.guid))
      else if before.threads[t].Delivering? && after.threads[t].InCallback? then
        earlier.(entered := earlier.entered + EnteredCallback(after.threads[t]))
      else earlier
  }

  /** The provider whose callback is running. */
  function EnteredCallback(th: Thread): seq<Provider> {
    if th.InCallback? && th.next < |th.snapshot| then [th.snapshot[th.next]] else []
  }

  /** How far a dispatch is: the callbacks entered are those of its snapshot so far, each once. */
  predicate Progress(th: Thread, d: Dispatch) {
    match th
    case DispatchWaits(guid) => d == Dispatch(guid, [], [])
    case DispatchReads(guid) => d == Dispatch(guid, [], [])
    case Delivering(snapshot, next) =>
      snapshot == d.snapshot && next <= |snapshot| && d.entered == snapshot[..next]
    case InCallback(snapshot, next, _) =>
      snapshot == d.snapshot && next < |snapshot| && d.entered == snapshot[..next + 1]
    case _ => true
  }

  lemma {:induction false} DispatchInOrder(init: State, schedule: Schedule, t: nat)
    requires Initial(init) && Run(init, schedule).Some?
    requires t < |Run(init, schedule).value.threads|
    ensures Progress(Run(init, schedule).value.threads[t], LastDispatch(init, schedule, t))
    decreases |schedule|
  {
    if schedule != [] {
      hide Progress, Step;
      var (u, choice) := schedule[|schedule| - 1];
      var s := Run(init, schedule[..|schedule| - 1]).value;
      StepFrame(s, u, choice);
      DispatchInOrder(init, schedule[..|schedule| - 1], t);
      if u == t {
        ProgressStep(s, t, choice, LastDispatch(init, schedule[..|schedule| - 1], t));
      }
    }
  }

  lemma ProgressStep(s: State, t: nat, choice: Choice, d: Dispatch)
    requires t < |s.threads| && Step(s, t, choice).Some?
    requires Progress(s.threads[t], d)
    ensures var th, th' := s.threads[t], Step(s, t, choice).value.threads[t];
            Progress(th',
                     if choice.Event? then Dispatch(choice.guid, [], [])
                     else if th.DispatchReads? then d.(snapshot := OfGuid(s.session.providers, d.guid))
                     else if th.Delivering? && th'.InCallback? then d.(entered := d.entered + EnteredCallback(th'))
                     else d)
  {
    hide Available;
  }

  /** A dispatch that is over has run the callback of every provider of its snapshot once, in order. */
  lemma FinishedDispatchRanAll(init: State, schedule: Schedule, t: nat, osAccepts: bool)
    requires Initial(init) && Run(init, schedule).Some?
    requires t < |Run(init, schedule).value.threads|
    requires Run(init, schedule).value.threads[t].Delivering?
    requires Step(Run(init, schedule).value, t, Go(osAccepts)).Some?
    requires Step(Run(init, schedule).value, t, Go(osAccepts)).value.threads[t] == Idle
    ensures LastDispatch(init, schedule, t).entered == LastDispatch(init, schedule, t).snapshot
  {
    hide Run;
    DispatchInOrder(init, schedule, t);
    var th := Run(init, schedule).value.threads[t];
    assert th.snapshot[..|th.snapshot|] == th.snapshot;
  }

  // ---------- what may happen ----------

  /** A callback may enable and disable providers while it runs, as an idle thread may; an idle thread may
      receive any event. */
  lemma CallbacksMayMutate(s: State, t: nat, guid: Guid)
    requires t < |s.threads|
    ensures s.threads[t] == Idle || (s.threads[t].InCallback? && MutationOf(s.threads[t]) == None) ==>
              && Step(s, t, Enable(guid)).Some?
              && MutationOf(Step(s, t, Enable(guid)).value.threads[t])
                 == Some(EnableWaits(Provider(s.nextInstance, guid)))
              && Step(s, t, Disable(guid)).Some?
              && MutationOf(Step(s, t, Disable(guid)).value.threads[t]) == Some(DisableWaits(guid))
    ensures s.threads[t] == Idle ==>
              && Step(s, t, Event(guid)).Some?
              && Step(s, t, Event(guid)).value.threads[t] == DispatchWaits(guid)
  {
  }
}
