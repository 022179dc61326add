/** Safety of the session protocol over every schedule: enables and disables behave as if they ran one
    at a time, no GUID is enabled without being registered, and no reachable state is stuck. */
module SessionSafety {
  import opened Wrappers
  import opened ProviderRegistry
  import opened SessionProtocol

  /** The GUIDs enabled at OS level are exactly the registered ones. */
  ghost predicate Consistent(session: Session) {
    forall guid :: guid in session.enabled <==> Registers(session, guid)
  }

  /** The instance an unfinished enable is about. */
  function Pending(th: Thread): Option<Provider> {
    match MutationOf(th)
    case Some(EnableWaits(p)) => Some(p)
    case Some(EnableLocked(p)) => Some(p)
    case Some(EnableRegisters(p)) => Some(p)
    case Some(EnableCallsOs(p)) => Some(p)
    case Some(EnableRejected(p)) => Some(p)
    case Some(EnableRollsBack(p)) => Some(p)
    case Some(EnableEnds(p, _)) => Some(p)
    case _ => None
  }

  ghost predicate HoldsSession(s: State, t: nat) {
    t < |s.threads| && SessionMutations in Holds(s.threads[t])
  }

  ghost predicate Exclusive(threads: seq<Thread>) {
    forall t, u :: 0 <= t < |threads| && 0 <= u < |threads| && t != u ==> Compatible(threads[t], threads[u])
  }

  ghost predicate Compatible(th: Thread, other: Thread) {
    forall a, b :: a in Holds(th) && b in Holds(other) ==> !Conflicts(a, b)
  }

  ghost predicate Fresh(s: State, base: Session) {
    && (forall p :: p in base.providers ==> p.instance < s.nextInstance)
    && (forall t :: 0 <= t < |s.threads| && Pending(s.threads[t]).Some? ==>
          var p := Pending(s.threads[t]).value;
          p.instance < s.nextInstance && p !in base.providers)
    && (forall t, u :: 0 <= t < u < |s.threads| && Pending(s.threads[t]).Some? ==>
          Pending(s.threads[t]) != Pending(s.threads[u]))
  }

  ghost predicate Serial(s: State, base: Session) {
    && (forall t: nat :: HoldsSession(s, t) ==>
          MutationOf(s.threads[t]).Some? && Underway(base, MutationOf(s.threads[t]).value, s.session))
    && ((forall t: nat :: !HoldsSession(s, t)) ==> s.session == base)
  }

  ghost predicate Invariant(init: Session, s: State) {
    var base := Replay(init, s.log);
    && Exclusive(s.threads)
    && (forall t :: 0 <= t < |s.threads| && s.threads[t].InCallback? ==> s.threads[t].next < |s.threads[t].snapshot|)
    && Serial(s, base)
    && Fresh(s, base)
    && Consistent(base)
    && LogTruthful(init, s.log)
  }

  // ---------- one mutation ----------

  lemma OfGuidAppend(providers: seq<Provider>, p: Provider, guid: Guid)
    ensures OfGuid(providers + [p], guid)
            == if p.guid == guid then OfGuid(providers, guid) + [p] else OfGuid(providers, guid)
  {
    assert (providers + [p])[..|providers|] == providers;
  }

  lemma WithoutAppended(providers: seq<Provider>, p: Provider)
    requires p !in providers
    ensures Without(providers + [p], p) == providers
  {
    assert (providers + [p])[..|providers|] == providers;
    WithoutAbsent(providers, p);
  }

  lemma ReplayAppend(init: Session, log: seq<Commit>, commit: Commit)
    ensures Replay(init, log + [commit]) == Perform(Replay(init, log), commit)
  {
    assert (log + [commit])[..|log|] == log;
  }

  /** A mutation's step keeps the session what it should be, and its last step is its commit. */
  lemma UnderwayStep(base: Session, m: Mutation, session: Session, osAccepts: bool)
    requires Underway(base, m, session)
    requires Pending(Mutating(m)).Some? ==> Pending(Mutating(m)).value !in base.providers
    ensures var (m', session') := MutationStep(m, session, osAccepts);
            && (m'.Some? ==> Underway(base, m'.value, session') && Commits(m) == [])
            && (m'.None? ==>
                  && |Commits(m)| == 1 && Truthful(base, Commits(m)[0])
                  && session' == session == Perform(base, Commits(m)[0]))
  {
    match m
    case EnableRollsBack(p) => WithoutAppended(base.providers, p);
    case _ =>
  }

  lemma PerformConsistent(base: Session, commit: Commit)
    requires Consistent(base)
    ensures Consistent(Perform(base, commit))
  {
    var after := Perform(base, commit);
    forall guid ensures guid in after.enabled <==> Registers(after, guid) {
      match commit
      case Enabled(p) => OfGuidAppend(base.providers, p, guid);
      case Disabled(g, _) => OfGuidWithoutGuid(base.providers, g, guid);
      case _ =>
    }
  }

  lemma LogGrowsTruthful(init: Session, log: seq<Commit>, commit: Commit)
    requires LogTruthful(init, log) && Truthful(Replay(init, log), commit)
    ensures LogTruthful(init, log + [commit])
  {
    var longer := log + [commit];
    forall k | 0 <= k < |longer| ensures Truthful(Replay(init, longer[..k]), longer[k]) {
      assert longer[..k] == log[..k];
      if k == |log| {
        assert log[..k] == log;
      }
    }
  }

  /** Underway, whatever is enabled is registered. */
  lemma UnderwayCovers(base: Session, m: Mutation, session: Session, guid: Guid)
    requires Consistent(base) && Underway(base, m, session)
    requires guid in session.enabled
    ensures Registers(session, guid)
  {
    match m
    case EnableCallsOs(p) => OfGuidAppend(base.providers, p, guid);
    case EnableRejected(p) => OfGuidAppend(base.providers, p, guid);
    case EnableRollsBack(p) => OfGuidAppend(base.providers, p, guid);
    case EnableEnds(p, _) => OfGuidAppend(base.providers, p, guid);
    case DisableEnds(_, _) => PerformConsistent(base, Commits(m)[0]);
    case _ =>
  }

  // ---------- every step keeps the invariant ----------

  /** A step touches one thread only. */
  lemma StepFrame(s: State, t: nat, choice: Choice)
    requires t < |s.threads| && Step(s, t, choice).Some?
    ensures var s' := Step(s, t, choice).value;
            && |s'.threads| == |s.threads|
            && forall u :: 0 <= u < |s.threads| && u != t ==> s'.threads[u] == s.threads[u]
  {
  }

  /** What a thread holds after a step, it held before or was available. */
  lemma HoldsAfterStep(s: State, t: nat, choice: Choice, lock: Lock)
    requires t < |s.threads| && Step(s, t, choice).Some?
    requires lock in Holds(Step(s, t, choice).value.threads[t])
    ensures lock in Holds(s.threads[t]) || (Wants(s.threads[t]) == Some(lock) && Available(s, lock))
  {
  }

  lemma StepKeepsExclusive(s: State, t: nat, choice: Choice)
    requires t < |s.threads| && Step(s, t, choice).Some?
    requires Exclusive(s.threads)
    ensures Exclusive(Step(s, t, choice).value.threads)
  {
    hide Step, Holds, Wants;
    var s' := Step(s, t, choice).value;
    StepFrame(s, t, choice);
    forall u | 0 <= u < |s.threads| && u != t
      ensures Compatible(s'.threads[t], s'.threads[u]) && Compatible(s'.threads[u], s'.threads[t])
    {
      forall a, b | a in Holds(s'.threads[t]) && b in Holds(s'.threads[u])
        ensures !Conflicts(a, b) && !Conflicts(b, a)
      {
        HoldsAfterStep(s, t, choice, a);
        assert Compatible(s.threads[t], s.threads[u]);
      }
    }
  }

  lemma HolderIsMutating(s: State, t: nat)
    requires t < |s.threads|
    ensures HoldsSession(s, t) <==>
              && MutationOf(s.threads[t]).Some?
              && !MutationOf(s.threads[t]).value.EnableWaits?
              && !MutationOf(s.threads[t]).value.DisableWaits?
  {
  }

  lemma OnlyHolder(s: State, t: nat, u: nat)
    requires Exclusive(s.threads) && HoldsSession(s, t) && HoldsSession(s, u)
    ensures t == u
  {
    if t != u {
      assert Compatible(s.threads[t], s.threads[u]);
      assert Conflicts(SessionMutations, SessionMutations);
    }
  }

  /** The mutation a step advances: its stage before, and what the step makes of it. */
  lemma MutationAdvances(s: State, t: nat, osAccepts: bool)
    requires t < |s.threads| && Step(s, t, Go(osAccepts)).Some? && MutationOf(s.threads[t]).Some?
    ensures var m, s' := MutationOf(s.threads[t]).value, Step(s, t, Go(osAccepts)).value;
            var (m', session') := MutationStep(m, s.session, osAccepts);
            && s'.session == session' && s'.log == s.log + Commits(m)
            && s'.nextInstance == s.nextInstance && MutationOf(s'.threads[t]) == m'
            && (MutationWants(m).Some? ==> Available(s, MutationWants(m).value))
  {
  }

  /** Any other step leaves the session and the log alone, and holds the session lock no more and no
      less than before. */
  lemma OtherStepsAreQuiet(s: State, t: nat, choice: Choice)
    requires t < |s.threads| && Step(s, t, choice).Some?
    requires choice.Go? ==> MutationOf(s.threads[t]).None?
    ensures var s' := Step(s, t, choice).value;
            && s'.session == s.session && s'.log == s.log
            && !HoldsSession(s, t) && !HoldsSession(s', t)
            && (choice.Enable? ==>
                  && Pending(s'.threads[t]) == Some(Provider(s.nextInstance, choice.guid))
                  && s'.nextInstance == s.nextInstance + 1)
            && (!choice.Enable? ==> Pending(s'.threads[t]) == None && s'.nextInstance == s.nextInstance)
  {
  }

  lemma StepKeepsSerial(init: Session, s: State, t: nat, choice: Choice)
    requires Invariant(init, s)
    requires t < |s.threads| && Step(s, t, choice).Some?
    ensures var s' := Step(s, t, choice).value;
            Serial(s', Replay(init, s'.log)) && Consistent(Replay(init, s'.log)) && LogTruthful(init, s'.log)
  {
    hide Step, Holds, MutationHolds, Underway, MutationStep, Commits, Perform, Consistent, LogTruthful, Truthful;
    hide Pending, Replay, HoldsSession;
    var s', base := Step(s, t, choice).value, Replay(init, s.log);
    StepFrame(s, t, choice);
    forall u: nat | u < |s.threads| && u != t ensures HoldsSession(s', u) == HoldsSession(s, u) {
      HolderIsMutating(s, u);
      HolderIsMutating(s', u);
    }
    HolderIsMutating(s, t);
    HolderIsMutating(s', t);
    forall u: nat | u >= |s.threads| ensures !HoldsSession(s', u) && !HoldsSession(s, u) {
      OutsideHoldsNothing(s, u);
      OutsideHoldsNothing(s', u);
    }
    if !choice.Go? || MutationOf(s.threads[t]).None? {
      OtherStepsAreQuiet(s, t, choice);
    } else {
      MutationAdvances(s, t, choice.osAccepts);
      HolderStepKeepsSerial(init, s, t, choice.osAccepts);
      var m' := MutationOf(s'.threads[t]);
      if m'.Some? {
        UnderwayIsHeld(Replay(init, s'.log), m'.value, s'.session);
      }
    }
  }

  lemma OutsideHoldsNothing(s: State, t: nat)
    requires t >= |s.threads|
    ensures !HoldsSession(s, t)
  {
  }

  lemma WaitingAcquires(base: Session, m: Mutation, session: Session, osAccepts: bool)
    requires m.EnableWaits? || m.DisableWaits?
    requires session == base
    ensures var (m', session') := MutationStep(m, session, osAccepts);
            m'.Some? && Underway(base, m'.value, session') && Commits(m) == []
            && MutationWants(m) == Some(SessionMutations)
  {
  }

  lemma AvailableMeansFree(s: State, t: nat)
    requires Available(s, SessionMutations)
    ensures !HoldsSession(s, t)
  {
    assert Conflicts(SessionMutations, SessionMutations);
  }

  lemma UnderwayIsHeld(base: Session, m: Mutation, session: Session)
    requires Underway(base, m, session)
    ensures !m.EnableWaits? && !m.DisableWaits?
  {
  }

  lemma HolderStepKeepsSerial(init: Session, s: State, t: nat, osAccepts: bool)
    requires Invariant(init, s)
    requires t < |s.threads| && Step(s, t, Go(osAccepts)).Some? && MutationOf(s.threads[t]).Some?
    ensures var s' := Step(s, t, Go(osAccepts)).value;
            var base' := Replay(init, s'.log);
            && Consistent(base') && LogTruthful(init, s'.log)
            && (forall u: nat :: u != t ==> !HoldsSession(s, u))
            && match MutationOf(s'.threads[t])
               case Some(m') => Underway(base', m', s'.session) && s'.log == s.log
               case None => s'.session == base'
  {
    hide Step, Holds, MutationHolds, Underway, MutationStep, Commits, Perform, Consistent, LogTruthful, Truthful;
    hide Replay, Available;
    var base, m := Replay(init, s.log), MutationOf(s.threads[t]).value;
    MutationAdvances(s, t, osAccepts);
    HolderIsMutating(s, t);
    assert s.log + [] == s.log;
    if HoldsSession(s, t) {
      forall u: nat | u != t ensures !HoldsSession(s, u) {
        if HoldsSession(s, u) {
          OnlyHolder(s, t, u);
        }
      }
      UnderwayStep(base, m, s.session, osAccepts);
      if MutationStep(m, s.session, osAccepts).0.None? {
        var commit := Commits(m)[0];
        assert Commits(m) == [commit];
        ReplayAppend(init, s.log, commit);
        PerformConsistent(base, commit);
        LogGrowsTruthful(init, s.log, commit);
      }
    } else {
      WaitingAcquires(base, m, base, osAccepts);
      forall u: nat ensures !HoldsSession(s, u) {
        AvailableMeansFree(s, u);
      }
    }
  }

  lemma StepKeepsFresh(init: Session, s: State, t: nat, choice: Choice)
    requires Invariant(init, s)
    requires t < |s.threads| && Step(s, t, choice).Some?
    ensures Fresh(Step(s, t, choice).value, Replay(init, Step(s, t, choice).value.log))
  {
    hide Step, MutationStep, Commits, Replay, Pending, Perform, Serial, Exclusive, LogTruthful, Consistent;
    var s', base := Step(s, t, choice).value, Replay(init, s.log);
    StepFrame(s, t, choice);
    if !choice.Go? || MutationOf(s.threads[t]).None? {
      OtherStepsAreQuiet(s, t, choice);
    } else {
      MutationAdvances(s, t, choice.osAccepts);
      var m := MutationOf(s.threads[t]).value;
      PendingAdvances(s.threads[t], s'.threads[t], s.session, choice.osAccepts);
      if Commits(m) != [] {
        ReplayAppend(init, s.log, Commits(m)[0]);
        CommitsAtMostOne(m);
        forall p | p in Perform(base, Commits(m)[0]).providers
          ensures p in base.providers || Pending(s.threads[t]) == Some(p)
        {
          CommitAddsPending(s.threads[t], base, p);
        }
      } else {
        assert s.log + [] == s.log;
      }
    }
  }

  lemma PendingAdvances(th: Thread, th': Thread, session: Session, osAccepts: bool)
    requires MutationOf(th).Some?
    requires MutationOf(th') == MutationStep(MutationOf(th).value, session, osAccepts).0
    ensures Pending(th') == if Commits(MutationOf(th).value) == [] then Pending(th) else None
  {
  }

  lemma CommitsAtMostOne(m: Mutation)
    ensures |Commits(m)| <= 1
    ensures |Commits(m)| == 1 ==> Commits(m) == [Commits(m)[0]]
  {
  }

  lemma CommitAddsPending(th: Thread, base: Session, p: Provider)
    requires MutationOf(th).Some? && Commits(MutationOf(th).value) != []
    requires p in Perform(base, Commits(MutationOf(th).value)[0]).providers
    ensures p in base.providers || Pending(th) == Some(p)
  {
    var commit := Commits(MutationOf(th).value)[0];
    if commit.Disabled? {
      WithoutGuidContains(base.providers, commit.guid, p);
    }
  }

  lemma StepKeepsInvariant(init: Session, s: State, t: nat, choice: Choice)
    requires Invariant(init, s)
    requires t < |s.threads| && Step(s, t, choice).Some?
    ensures Invariant(init, Step(s, t, choice).value)
  {
    hide Serial, Fresh, Exclusive, Consistent, LogTruthful;
    StepKeepsExclusive(s, t, choice);
    StepKeepsSerial(init, s, t, choice);
    StepKeepsFresh(init, s, t, choice);
    StepFrame(s, t, choice);
  }

  /** The invariant holds in every state a schedule leads to. */
  lemma {:induction false} InvariantHolds(init: State, schedule: Schedule)
    requires Initial(init)
    requires Run(init, schedule).Some?
    ensures Invariant(init.session, Run(init, schedule).value)
  {
    if schedule == [] {
      assert forall t: nat :: !HoldsSession(init, t);
    } else {
      hide Step, Invariant;
      var (t, choice) := schedule[|schedule| - 1];
      InvariantHolds(init, schedule[..|schedule| - 1]);
      StepKeepsInvariant(init.session, Run(init, schedule[..|schedule| - 1]).value, t, choice);
    }
  }

  // ---------- the results ----------

  /** Over every interleaving of enables, disables and OS failures: at every step, a GUID enabled at OS
      level is registered; and whenever no mutation is under way, the enabled GUIDs are exactly the
      registered ones. */
  lemma EnabledIsRegistered(init: State, schedule: Schedule)
    requires Initial(init) && Run(init, schedule).Some?
    ensures var s := Run(init, schedule).value;
            && (forall guid :: guid in s.session.enabled ==> Registers(s.session, guid))
            && ((forall t: nat :: !HoldsSession(s, t)) ==> Consistent(s.session))
  {
    hide Registers, Underway, Run;
    InvariantHolds(init, schedule);
    var s := Run(init, schedule).value;
    if t: nat :| HoldsSession(s, t) {
      forall guid | guid in s.session.enabled ensures Registers(s.session, guid) {
        UnderwayCovers(Replay(init.session, s.log), MutationOf(s.threads[t]).value, s.session, guid);
      }
    }
  }

  /** The mutations are serializable: whenever none is under way, the session is what its completed
      mutations give when run one at a time in completion order, and each reported the truth about the
      session it met. */
  lemma MutationsAreSerial(init: State, schedule: Schedule)
    requires Initial(init) && Run(init, schedule).Some?
    ensures var s := Run(init, schedule).value;
            && LogTruthful(init.session, s.log)
            && ((forall t: nat :: !HoldsSession(s, t)) ==> s.session == Replay(init.session, s.log))
  {
    hide LogTruthful;
    InvariantHolds(init, schedule);
  }

  /** Whether the mutation has just acquired the session lock. */
  predicate JustLocked(th: Thread) {
    MutationOf(th).Some? && (MutationOf(th).value.EnableLocked? || MutationOf(th).value.DisableLocked?)
  }

  /** Whether the mutation is about to release the session lock without having done what it was for. */
  predicate EndsInFailure(th: Thread) {
    match MutationOf(th)
    case Some(EnableEnds(_, ok)) => !ok
    case Some(DisableEnds(_, outcome)) => !outcome.Removed?
    case _ => false
  }

  /** A failed enable, a rejected disable and a disable of an unregistered GUID leave the registry and
      the OS as they found them. */
  lemma FailureLeavesNoTrace(init: State, schedule: Schedule, t: nat)
    requires Initial(init) && Run(init, schedule).Some?
    requires t < |Run(init, schedule).value.threads|
    requires EndsInFailure(Run(init, schedule).value.threads[t])
    ensures Run(init, schedule).value.session
            == Replay(init.session, Run(init, schedule).value.log)
    ensures var m := MutationOf(Run(init, schedule).value.threads[t]).value;
            Replay(init.session, Run(init, schedule).value.log + Commits(m))
            == Replay(init.session, Run(init, schedule).value.log)
  {
    hide LogTruthful, Consistent, Replay;
    InvariantHolds(init, schedule);
    var s := Run(init, schedule).value;
    HolderIsMutating(s, t);
    ReplayAppend(init.session, s.log, Commits(MutationOf(s.threads[t]).value)[0]);
  }

  /** Every state along a schedule is the one its first steps lead to. */
  lemma {:induction false} RunPrefix(init: State, schedule: Schedule, n: nat)
    requires Run(init, schedule).Some? && n <= |schedule|
    ensures Run(init, schedule[..n]).Some?
    decreases |schedule|
  {
    hide Step;
    if n == |schedule| {
      assert schedule[..n] == schedule;
    } else {
      var shorter := schedule[..|schedule| - 1];
      RunPrefix(init, shorter, n);
      assert shorter[..n] == schedule[..n];
    }
  }

  /** From its first `n` steps to the end of the schedule, thread `t` holds the session lock. */
  ghost predicate HoldsFrom(init: State, schedule: Schedule, n: nat, t: nat) {
    forall m :: n <= m <= |schedule| ==>
      Run(init, schedule[..m]).Some? && HoldsSession(Run(init, schedule[..m]).value, t)
  }

  /** As long as one thread holds the session lock, no mutation completes. */
  lemma {:induction false} HoldingKeepsLog(init: State, schedule: Schedule, n: nat, t: nat)
    requires Initial(init) && Run(init, schedule).Some? && n <= |schedule|
    requires HoldsFrom(init, schedule, n, t)
    ensures Run(init, schedule[..n]).Some?
    ensures Run(init, schedule).value.log == Run(init, schedule[..n]).value.log
    decreases |schedule|
  {
    hide Step;
    if n == |schedule| {
      assert schedule[..n] == schedule;
    } else {
      var last := |schedule| - 1;
      var (u, choice) := schedule[last];
      assert schedule[..last][..n] == schedule[..n];
      assert schedule[..|schedule|] == schedule;
      forall m | n <= m <= last
        ensures Run(init, schedule[..last][..m]).Some? && HoldsSession(Run(init, schedule[..last][..m]).value, t)
      {
        assert schedule[..last][..m] == schedule[..m];
      }
      HoldingKeepsLog(init, schedule[..last], n, t);
      if u == t {
        HolderStaysUncommitted(init, schedule[..last], t, choice);
      } else {
        HolderExcludesOthers(init, schedule[..last], t, u, choice);
      }
    }
  }

  /** A step of the holder that leaves it holding the lock completes nothing. */
  lemma HolderStaysUncommitted(init: State, schedule: Schedule, t: nat, choice: Choice)
    requires Initial(init) && Run(init, schedule).Some?
    requires HoldsSession(Run(init, schedule).value, t) && Step(Run(init, schedule).value, t, choice).Some?
    requires HoldsSession(Step(Run(init, schedule).value, t, choice).value, t)
    ensures Step(Run(init, schedule).value, t, choice).value.log == Run(init, schedule).value.log
  {
    hide Run, Holds;
    HolderIsMutating(Run(init, schedule).value, t);
    HolderIsMutating(Step(Run(init, schedule).value, t, choice).value, t);
  }

  /** Across the two states: when a failed mutation is about to release the lock, the registry and the
      OS are exactly as they were when it acquired it, whatever other threads did meanwhile. */
  lemma FailureRestores(init: State, schedule: Schedule, n: nat, t: nat)
    requires Initial(init) && Run(init, schedule).Some? && n <= |schedule|
    requires HoldsFrom(init, schedule, n, t)
    requires Run(init, schedule[..n]).Some? && JustLocked(Run(init, schedule[..n]).value.threads[t])
    requires t < |Run(init, schedule).value.threads|
    requires EndsInFailure(Run(init, schedule).value.threads[t])
    ensures Run(init, schedule).value.session == Run(init, schedule[..n]).value.session
  {
    hide Run, Holds, LogTruthful, Consistent, Replay;
    HoldingKeepsLog(init, schedule, n, t);
    InvariantHolds(init, schedule[..n]);
    FailureLeavesNoTrace(init, schedule, t);
    HolderIsMutating(Run(init, schedule[..n]).value, t);
  }

  /** While a mutation holds the session lock, no other thread's step changes the registry, the OS, or
      what has completed. */
  lemma HolderExcludesOthers(init: State, schedule: Schedule, t: nat, u: nat, choice: Choice)
    requires Initial(init) && Run(init, schedule).Some?
    requires HoldsSession(Run(init, schedule).value, t)
    requires u != t && u < |Run(init, schedule).value.threads|
    requires Step(Run(init, schedule).value, u, choice).Some?
    ensures var s := Run(init, schedule).value;
            var s' := Step(s, u, choice).value;
            s'.session == s.session && s'.log == s.log && HoldsSession(s', t)
  {
    hide LogTruthful, Consistent, Replay, Run, Step, Available;
    InvariantHolds(init, schedule);
    var s := Run(init, schedule).value;
    StepFrame(s, u, choice);
    HolderIsMutating(s, u);
    if HoldsSession(s, u) {
      OnlyHolder(s, t, u);
    }
    if !choice.Go? || MutationOf(s.threads[u]).None? {
      OtherStepsAreQuiet(s, u, choice);
    } else {
      MutationAdvances(s, u, choice.osAccepts);
      AvailableMeansFree(s, t);
    }
  }

  /** Locks are taken in order: callback lock, session mutations, registry. */
  lemma LocksAreOrdered(th: Thread, lock: Lock)
    requires lock in Holds(th) && Wants(th).Some?
    ensures Rank(lock) < Rank(Wants(th).value)
  {
  }

  ghost predicate CanGo(s: State, t: nat) {
    t < |s.threads| && s.threads[t] != Idle && Step(s, t, Go(true)).Some?
  }

  lemma GoesWhenAvailable(s: State, t: nat)
    requires t < |s.threads| && s.threads[t] != Idle
    requires Wants(s.threads[t]).Some? ==> Available(s, Wants(s.threads[t]).value)
    ensures CanGo(s, t)
  {
  }

  /** Thread `t` waits for a lock that thread `v` holds. */
  ghost predicate BlockedBy(s: State, t: nat, v: nat) {
    && t < |s.threads| && v < |s.threads|
    && Wants(s.threads[t]).Some?
    && exists held :: held in Holds(s.threads[v]) && Conflicts(Wants(s.threads[t]).value, held)
  }

  /** Each thread of `path` waits for the next, and the last one can move. */
  ghost predicate LeadsToProgress(s: State, path: seq<nat>) {
    && path != []
    && (forall k :: 0 < k < |path| ==> BlockedBy(s, path[k - 1], path[k]))
    && CanGo(s, path[|path| - 1])
  }

  /** No reachable state holds a deadlock: whatever a started thread waits for is, through at most three
      others, in the hands of a thread that can move. */
  lemma NoDeadlock(init: State, schedule: Schedule, t: nat)
    requires Initial(init) && Run(init, schedule).Some?
    requires t < |Run(init, schedule).value.threads| && Run(init, schedule).value.threads[t] != Idle
    ensures exists path: seq<nat> ::
              LeadsToProgress(Run(init, schedule).value, path) && path[0] == t && |path| <= 4
  {
    hide Run, LeadsToProgress;
    var path := Unblocked(Run(init, schedule).value, t, 3);
  }

  /** Follows who blocks whom: each holder waits for a lock of higher rank, so the chain is short. */
  lemma {:induction false} Unblocked(s: State, t: nat, slack: nat) returns (path: seq<nat>)
    requires t < |s.threads| && s.threads[t] != Idle
    requires Wants(s.threads[t]).Some? ==> Rank(Wants(s.threads[t]).value) + slack >= 3
    ensures LeadsToProgress(s, path) && path[0] == t && |path| <= slack + 1
    decreases slack
  {
    hide Step, CanGo, Holds, Wants;
    if Wants(s.threads[t]).None? || Available(s, Wants(s.threads[t]).value) {
      GoesWhenAvailable(s, t);
      path := [t];
    } else {
      var lock := Wants(s.threads[t]).value;
      var v, held :| 0 <= v < |s.threads| && held in Holds(s.threads[v]) && Conflicts(lock, held);
      assert Rank(held) == Rank(lock);
      IdleHoldsNothing(s.threads[v], held);
      RankBound(lock);
      if Wants(s.threads[v]).Some? {
        LocksAreOrdered(s.threads[v], held);
        RankBound(Wants(s.threads[v]).value);
      }
      var rest := Unblocked(s, v, slack - 1);
      path := [t] + rest;
      assert BlockedBy(s, t, v);
      forall k | 0 < k < |path| ensures BlockedBy(s, path[k - 1], path[k]) {
        if k > 1 {
          assert BlockedBy(s, rest[(k - 1) - 1], rest[k - 1]);
        }
      }
    }
  }

  lemma IdleHoldsNothing(th: Thread, lock: Lock)
    requires lock in Holds(th)
    ensures th != Idle
  {
  }

  lemma RankBound(lock: Lock)
    ensures Rank(lock) <= 2
  {
  }
}
