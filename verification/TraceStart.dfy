/** Starting a trace: the sequence of OS calls of `TraceBuilder::start`, any of which may fail, and the guard
    that stops the half-started session on the way out. */
module TraceStart {
  import opened Wrappers

  datatype OsCall =
    | StopByName | StartTrace | QueryInformation | SetInformation
    | EnableProvider(guid: nat) | OpenTrace | CaptureState(guid: nat) | CloseTrace | ControlStop

  /** What the OS answers. `NothingToStop` only means something to `StopByName`, `InvalidHandle` to the
      calls that return a handle, `ClosePending` to `CloseTrace`. */
  datatype Answer = Success | Failure | NothingToStop | InvalidHandle | ClosePending

  /** Whether the source goes on after this answer. */
  predicate Accepted(call: OsCall, answer: Answer) {
    answer == Success || (call == StopByName && answer == NothingToStop)
    || (call == CloseTrace && answer == ClosePending)
  }

  /** A provider to enable: whether it carries filters, whether descriptors can be built from them, and
      whether its state is captured once the consumer is attached. */
  datatype TraceProvider = TraceProvider(guid: nat, hasFilters: bool, filtersUsable: bool, capturesState: bool)

  datatype TraceKind = User | Kernel

  datatype TraceBuilder = TraceBuilder(
    name: string, kind: TraceKind, stopIfExist: bool, stackTracing: bool, extendedGroups: bool, win8OrGreater: bool,
    providers: seq<TraceProvider>)

  /** An opened consumer, and the id its callback context is registered under. */
  datatype Consumer = Consumer(contextId: nat)

  /** The calls that start, open, close or stop something; the others only configure the session. */
  predicate IsLifecycle(call: OsCall) {
    call == StartTrace || call == OpenTrace || call == CloseTrace || call == ControlStop
  }

  predicate OnlyConfigures(made: seq<OsCall>) {
    forall c :: c in made ==> !IsLifecycle(c)
  }

  /** Every call of `made`, the first of which is the script's `at`-th, was accepted. */
  predicate AllAccepted(made: seq<OsCall>, script: nat -> Answer, at: nat) {
    forall i :: 0 <= i < |made| ==> Accepted(made[i], script(at + i))
  }

  predicate AllButLastAccepted(made: seq<OsCall>, script: nat -> Answer, at: nat) {
    forall i :: 0 <= i < |made| - 1 ==> Accepted(made[i], script(at + i))
  }

  predicate LastRefused(made: seq<OsCall>, script: nat -> Answer, at: nat) {
    made != [] && !Accepted(made[|made| - 1], script(at + |made| - 1))
  }

  /** A configuration phase: it goes on as long as its calls are accepted, and to the end if `ok`. */
  ghost predicate Phase(made: seq<OsCall>, ok: bool, script: nat -> Answer, at: nat) {
    && OnlyConfigures(made)
    && AllButLastAccepted(made, script, at)
    && (ok ==> AllAccepted(made, script, at))
  }

  lemma PhasesJoin(made: seq<OsCall>, more: seq<OsCall>, ok: bool, script: nat -> Answer, at: nat)
    requires Phase(made, true, script, at)
    requires Phase(more, ok, script, at + |made|)
    ensures Phase(made + more, ok, script, at)
    ensures LastRefused(more, script, at + |made|) ==> LastRefused(made + more, script, at)
  {
    forall i | 0 <= i < |made + more| - (if ok then 0 else 1)
      ensures Accepted((made + more)[i], script(at + i))
    {
      if i >= |made| {
        assert Accepted(more[i - |made|], script(at + |made| + (i - |made|)));
      }
    }
  }

  lemma NothingMade(script: nat -> Answer, at: nat)
    ensures Phase([], true, script, at)
  {
  }

  predicate NeedsEnable(builder: TraceBuilder, p: TraceProvider) {
    builder.kind == User || p.hasFilters
  }

  /** Everything the session needs before its consumer is opened: on a kernel trace the settings asked for,
      the extended groups being read before they are written; then the enabling of every provider that
      needs it, and nothing else. */
  ghost predicate Prepared(builder: TraceBuilder, made: seq<OsCall>) {
    var stack := if builder.kind == Kernel && builder.stackTracing then 1 else 0;
    var groups := if builder.kind == Kernel && builder.extendedGroups then 2 else 0;
    && stack + groups <= |made|
    && (stack == 1 ==> made[0] == SetInformation)
    && (groups == 2 ==> made[stack] == QueryInformation && made[stack + 1] == SetInformation)
    && (forall i :: stack + groups <= i < |made| ==> made[i].EnableProvider?)
    && (forall p :: p in builder.providers && NeedsEnable(builder, p) ==> EnableProvider(p.guid) in made)
  }

  /** The rundown asked for once the consumer is attached: of every capturing provider of a user trace. */
  ghost predicate Captured(builder: TraceBuilder, made: seq<OsCall>) {
    && (builder.kind == Kernel ==> made == [])
    && (forall p :: p in builder.providers && builder.kind == User && p.capturesState ==> CaptureState(p.guid) in made)
  }

  /** A session set up in full: prepared, then opened, then captured. */
  ghost predicate SetUp(builder: TraceBuilder, made: seq<OsCall>) {
    exists o :: 0 <= o < |made| && made[o] == OpenTrace
                && Prepared(builder, made[..o]) && Captured(builder, made[o + 1..])
  }

  /** The OS as a script of answers, one per call, together with the registry of callback contexts. */
  class Os {
    const script: nat -> Answer
    var calls: seq<OsCall>
    var registered: set<nat>
    var nextId: nat

    ghost predicate Valid()
      reads this
    {
      forall id :: id in registered ==> id < nextId
    }

    constructor (script: nat -> Answer)
      ensures Valid() && calls == [] && registered == {} && this.script == script
    {
      this.script := script;
      calls, registered, nextId := [], {}, 1;
    }

    method Call(call: OsCall) returns (ok: bool)
      modifies this`calls
      ensures calls == old(calls) + [call]
      ensures ok <==> Accepted(call, script(|old(calls)|))
    {
      ok := Accepted(call, script(|calls|));
      calls := calls + [call];
    }

    /** `open_trace`: the context is registered before the call, and dropped if it fails. */
    method Open() returns (consumer: Option<Consumer>)
      requires Valid()
      modifies this
      ensures Valid()
      ensures calls == old(calls) + [OpenTrace]
      ensures consumer.Some? <==> Accepted(OpenTrace, script(|old(calls)|))
      ensures consumer.Some? ==> consumer.value.contextId !in old(registered)
      ensures registered == old(registered) + if consumer.Some? then {consumer.value.contextId} else {}
    {
      var id := nextId;
      nextId := nextId + 1;
      registered := registered + {id};
      var ok := Call(OpenTrace);
      if !ok {
        registered := registered - {id};
        return None;
      }
      return Some(Consumer(id));
    }

    /** `close_trace`: the context is retired before the call. */
    method Close(consumer: Consumer) returns (ok: bool)
      requires Valid()
      modifies this
      ensures Valid()
      ensures calls == old(calls) + [CloseTrace]
      ensures registered == old(registered) - {consumer.contextId}
    {
      registered := registered - {consumer.contextId};
      ok := Call(CloseTrace);
    }

    /** `enable_provider`: filters that cannot be built are an error before any call. */
    method Enable(p: TraceProvider) returns (ok: bool, ghost made: seq<OsCall>)
      modifies this`calls
      ensures calls == old(calls) + made && Phase(made, ok, script, |old(calls)|)
      ensures ok ==> p.filtersUsable && made == [EnableProvider(p.guid)]
      ensures !p.filtersUsable ==> !ok && made == []
      ensures p.filtersUsable ==> made == [EnableProvider(p.guid)]
      ensures !ok ==> !p.filtersUsable || LastRefused(made, script, |old(calls)|)
    {
      if !p.filtersUsable {
        return false, [];
      }
      made := [EnableProvider(p.guid)];
      ok := Call(EnableProvider(p.guid));
    }

    method EnableAll(providers: seq<TraceProvider>) returns (ok: bool, ghost made: seq<OsCall>)
      modifies this`calls
      ensures calls == old(calls) + made && Phase(made, ok, script, |old(calls)|)
      ensures ok ==> |made| == |providers|
                     && forall i :: 0 <= i < |made| ==> made[i] == EnableProvider(providers[i].guid)
      ensures !ok ==> LastRefused(made, script, |old(calls)|) || exists p :: p in providers && !p.filtersUsable
    {
      made := [];
      for i := 0 to |providers|
        invariant calls == old(calls) + made && Phase(made, true, script, |old(calls)|)
        invariant |made| == i
        invariant forall j :: 0 <= j < i ==> made[j] == EnableProvider(providers[j].guid)
      {
        ghost var more;
        ok, more := Enable(providers[i]);
        PhasesJoin(made, more, ok, script, |old(calls)|);
        made := made + more;
        if !ok {
          return;
        }
      }
      ok := true;
    }

    /** The rundown requests, once the consumer is attached. */
    method CaptureStates(providers: seq<TraceProvider>) returns (ok: bool, ghost made: seq<OsCall>)
      modifies this`calls
      ensures calls == old(calls) + made && Phase(made, ok, script, |old(calls)|)
      ensures ok ==> forall p :: p in providers && p.capturesState ==> CaptureState(p.guid) in made
      ensures !ok ==> LastRefused(made, script, |old(calls)|)
    {
      made := [];
      for i := 0 to |providers|
        invariant calls == old(calls) + made && Phase(made, true, script, |old(calls)|)
        invariant forall p :: p in providers[..i] && p.capturesState ==> CaptureState(p.guid) in made
      {
        if providers[i].capturesState {
          var captured := Call(CaptureState(providers[i].guid));
          PhasesJoin(made, [CaptureState(providers[i].guid)], captured, script, |old(calls)|);
          made := made + [CaptureState(providers[i].guid)];
          if !captured {
            return false, made;
          }
        }
      }
      ok := true;
    }

    /** A chain of calls given up at the first refusal. */
    method CallAll(planned: seq<OsCall>) returns (ok: bool, ghost made: seq<OsCall>)
      requires OnlyConfigures(planned)
      modifies this`calls
      ensures calls == old(calls) + made && Phase(made, ok, script, |old(calls)|)
      ensures ok ==> made == planned
      ensures !ok ==> LastRefused(made, script, |old(calls)|)
    {
      made := [];
      for i := 0 to |planned|
        invariant calls == old(calls) + made && Phase(made, true, script, |old(calls)|)
        invariant made == planned[..i]
      {
        ok := Call(planned[i]);
        PhasesJoin(made, [planned[i]], ok, script, |old(calls)|);
        made := made + [planned[i]];
        if !ok {
          return;
        }
      }
      ok := true;
    }

    /** What is configured between starting the session and opening its consumer. */
    method Configure(builder: TraceBuilder) returns (ok: bool, ghost made: seq<OsCall>)
      modifies this`calls
      ensures calls == old(calls) + made && Phase(made, ok, script, |old(calls)|)
      ensures ok ==> Prepared(builder, made)
      ensures ok && builder.kind == Kernel && Filtered(builder.providers) != [] ==> builder.win8OrGreater
      ensures !ok ==> LastRefused(made, script, |old(calls)|) || Unusable(builder)
    {
      hide AllAccepted, AllButLastAccepted, LastRefused, Accepted, OnlyConfigures, Filtered, Settings;
      var providers := builder.providers;
      made := [];
      NothingMade(script, |old(calls)|);
      if builder.kind == Kernel {
        providers := Filtered(builder.providers);
        ok, made := CallAll(Settings(builder));
        if !ok {
          return;
        }
        if providers != [] && !builder.win8OrGreater {
          return false, made;
        }
      }
      ghost var enabled;
      ok, enabled := EnableAll(providers);
      PhasesJoin(made, enabled, ok, script, |old(calls)|);
      if ok {
        EnabledAll(providers, enabled);
        SettingsThenEnables(builder, made, providers, enabled);
      }
      made := made + enabled;
    }
  }

  lemma SettingsThenEnables(
    builder: TraceBuilder, settings: seq<OsCall>, providers: seq<TraceProvider>, enabled: seq<OsCall>)
    requires settings == if builder.kind == Kernel then Settings(builder) else []
    requires providers == if builder.kind == Kernel then Filtered(builder.providers) else builder.providers
    requires forall i :: 0 <= i < |enabled| ==> enabled[i].EnableProvider?
    requires forall p :: p in providers ==> EnableProvider(p.guid) in enabled
    ensures Prepared(builder, settings + enabled)
  {
  }

  lemma EnabledAll(providers: seq<TraceProvider>, enabled: seq<OsCall>)
    requires |enabled| == |providers|
    requires forall i :: 0 <= i < |enabled| ==> enabled[i] == EnableProvider(providers[i].guid)
    ensures forall p :: p in providers ==> EnableProvider(p.guid) in enabled
  {
    forall p | p in providers ensures EnableProvider(p.guid) in enabled {
      var i :| 0 <= i < |providers| && providers[i] == p;
      assert enabled[i] == EnableProvider(p.guid);
    }
  }

  /** A builder that cannot start whatever the OS answers: filters that cannot be built, or filters on a
      kernel trace before Windows 8. */
  ghost predicate Unusable(builder: TraceBuilder) {
    || (exists p :: p in builder.providers && (builder.kind == User || p.hasFilters) && !p.filtersUsable)
    || (builder.kind == Kernel && Filtered(builder.providers) != [] && !builder.win8OrGreater)
  }

  /** The kernel-only settings: stack tracing, then the extended groups. */
  function Settings(builder: TraceBuilder): (planned: seq<OsCall>)
    ensures OnlyConfigures(planned)
  {
    (if builder.stackTracing then [SetInformation] else [])
    + (if builder.extendedGroups then [QueryInformation, SetInformation] else [])
  }

  /** `kernel_filter_providers`. */
  function Filtered(providers: seq<TraceProvider>): (r: seq<TraceProvider>)
    ensures forall p :: p in r <==> p in providers && p.hasFilters
  {
    if providers == [] then []
    else (if providers[0].hasFilters then [providers[0]] else []) + Filtered(providers[1..])
  }

  /** Stops a session whose start could not be finished; `Drop` runs on every way out. */
  class StartedSessionGuard {
    const os: Os
    var consumer: Option<Consumer>
    var handedOver: bool

    constructor (os: Os)
      ensures this.os == os && consumer == None && !handedOver
    {
      this.os := os;
      consumer, handedOver := None, false;
    }

    /** Marks the session as owned by the built trace. */
    method HandOver() returns (c: Consumer)
      requires consumer.Some?
      modifies this
      ensures handedOver && consumer == None
      ensures c == old(consumer).value
    {
      handedOver := true;
      c := consumer.value;
      consumer := None;
    }

    method Drop()
      requires os.Valid()
      modifies this, os
      ensures os.Valid()
      ensures old(handedOver) ==> os.calls == old(os.calls) && os.registered == old(os.registered)
      ensures !old(handedOver) ==>
                && os.calls == old(os.calls) + (if old(consumer).Some? then [CloseTrace] else []) + [ControlStop]
                && os.registered
                   == old(os.registered) - (if old(consumer).Some? then {old(consumer).value.contextId} else {})
    {
      if handedOver {
        return;
      }
      if consumer.Some? {
        var taken := consumer.value;
        consumer := None;
        var _ := os.Close(taken);
      }
      var _ := os.Call(ControlStop);
    }
  }

  /** How many times the call was made. */
  function Count(made: seq<OsCall>, call: OsCall): nat {
    multiset(made)[call]
  }

  /** The calls of a failed start before its cleanup. */
  function Work(made: seq<OsCall>, consumerOpened: bool): seq<OsCall> {
    var cleanup := if consumerOpened then 2 else 1;
    if |made| < cleanup then [] else made[..|made| - cleanup]
  }

  /** The promise of `start` once the session runs, about the calls made from there on: either the
      consumer is handed over and nothing is closed or stopped, or the session is stopped exactly once, as
      the last thing done, its consumer closed just before if and only if it had been opened. */
  ghost predicate Promise(made: seq<OsCall>, accepted: bool, ok: bool, script: nat -> Answer, at: nat) {
    && (ok ==>
          && Count(made, ControlStop) == 0 && Count(made, CloseTrace) == 0 && Count(made, OpenTrace) == 1
          && AllAccepted(made, script, at))
    && (!ok ==>
          && made != [] && made[|made| - 1] == ControlStop && Count(made, ControlStop) == 1
          && Count(made, OpenTrace) <= 1
          && AllButLastAccepted(Work(made, accepted), script, at)
          && (if accepted then |made| > 1 && made[|made| - 2] == CloseTrace && Count(made, CloseTrace) == 1
              else Count(made, CloseTrace) == 0))
  }

  /** Whether a consumer was opened by these calls. */
  ghost predicate Opens(made: seq<OsCall>, script: nat -> Answer, at: nat) {
    exists i :: 0 <= i < |made| && made[i] == OpenTrace && Accepted(OpenTrace, script(at + i))
  }

  /** `TraceBuilder::start` once the session runs, under the guard. */
  method StartGuarded(os: Os, builder: TraceBuilder) returns (consumer: Option<Consumer>, ghost made: seq<OsCall>)
    requires os.Valid()
    modifies os
    ensures os.Valid()
    ensures os.calls == old(os.calls) + made
    ensures Promise(made, Opens(made, os.script, |old(os.calls)|), consumer.Some?, os.script, |old(os.calls)|)
    ensures Count(made, StartTrace) == 0
    ensures consumer.Some? ==> SetUp(builder, made)
    ensures consumer.None? ==>
              || LastRefused(Work(made, Opens(made, os.script, |old(os.calls)|)), os.script, |old(os.calls)|)
              || Unusable(builder)
    ensures consumer.Some? ==> consumer.value.contextId !in old(os.registered)
    ensures os.registered == old(os.registered) + if consumer.Some? then {consumer.value.contextId} else {}
  {
    hide Promise, Opens, Count, Accepted, OnlyConfigures, AllAccepted, AllButLastAccepted, LastRefused, Unusable, Work;
    hide Phase, Filtered, Prepared, Captured, SetUp;
    ghost var at := |os.calls|;
    var guard := new StartedSessionGuard(os);
    var ok;
    ghost var configured, captured;
    ok, configured := os.Configure(builder);
    if !ok {
      guard.Drop();
      made := configured + [] + [ControlStop];
      FailedBeforeOpening(configured, [], os.script, at);
      return None, made;
    }
    ok, captured := OpenGuarded(os, builder, guard);
    if guard.consumer.None? {
      guard.Drop();
      made := configured + [OpenTrace] + [ControlStop];
      FailedBeforeOpening(configured, [OpenTrace], os.script, at);
      return None, made;
    }
    if !ok {
      guard.Drop();
      made := configured + [OpenTrace] + captured + [CloseTrace, ControlStop];
      FailedAfterOpening(configured, captured, os.script, at);
      return None, made;
    }
    var c := guard.HandOver();
    guard.Drop();
    made := configured + [OpenTrace] + captured;
    HandedOver(configured, captured, os.script, at);
    InOrder(builder, configured, captured);
    return Some(c), made;
  }

  /** What follows a successful configuration: the consumer is opened, then the providers' states captured. */
  method OpenGuarded(os: Os, builder: TraceBuilder, guard: StartedSessionGuard)
    returns (ok: bool, ghost more: seq<OsCall>)
    requires os.Valid() && guard.os == os && !guard.handedOver && guard.consumer == None
    modifies os, guard
    ensures os.Valid() && !guard.handedOver
    ensures os.calls == old(os.calls) + [OpenTrace] + more
    ensures guard.consumer.Some? <==> Accepted(OpenTrace, os.script(|old(os.calls)|))
    ensures guard.consumer.Some? ==> guard.consumer.value.contextId !in old(os.registered)
    ensures os.registered
            == old(os.registered) + if guard.consumer.Some? then {guard.consumer.value.contextId} else {}
    ensures guard.consumer.None? ==> !ok && more == []
    ensures guard.consumer.Some? ==> Phase(more, ok, os.script, |old(os.calls)| + 1)
    ensures ok ==> Captured(builder, more)
    ensures guard.consumer.Some? && !ok ==> LastRefused(more, os.script, |old(os.calls)| + 1)
  {
    hide Phase, LastRefused, Accepted;
    more := [];
    guard.consumer := os.Open();
    if guard.consumer.None? {
      return false, [];
    }
    NothingMade(os.script, |os.calls|);
    ok := true;
    if builder.kind == User {
      ok, more := os.CaptureStates(builder.providers);
    }
  }

  /** The calls up to the one that starts the session. */
  function Prelude(builder: TraceBuilder): seq<OsCall> {
    (if builder.stopIfExist then [StopByName] else []) + [StartTrace]
  }

  /** An earlier session can only be stopped by a name without NUL; starting one merely cuts the name. */
  predicate NameRefused(builder: TraceBuilder) {
    builder.stopIfExist && '\0' in builder.name
  }

  /** `TraceBuilder::start`, for every script of OS answers. `since` counts the calls up to the one that
      started the session, if one did. */
  method Start(os: Os, builder: TraceBuilder) returns (consumer: Option<Consumer>, ghost since: Option<nat>)
    requires os.Valid()
    modifies os
    ensures os.Valid()
    ensures old(os.calls) <= os.calls
    ensures since.None? ==>
              && consumer == None && os.registered == old(os.registered)
              && var made := os.calls[|old(os.calls)|..];
              && made <= Prelude(builder)
              && AllButLastAccepted(made, os.script, |old(os.calls)|)
              && (made == [] <==> NameRefused(builder))
              && (made != [] ==> LastRefused(made, os.script, |old(os.calls)|))
    ensures since.Some? ==>
              && !NameRefused(builder)
              && |old(os.calls)| <= since.value <= |os.calls|
              && os.calls[|old(os.calls)|..since.value] == Prelude(builder)
              && AllAccepted(Prelude(builder), os.script, |old(os.calls)|)
    ensures since.Some? ==>
              var made := os.calls[since.value..];
              && Count(made, StartTrace) == 0
              && Promise(made, Opens(made, os.script, since.value), consumer.Some?, os.script, since.value)
              && (consumer.Some? ==> SetUp(builder, made))
              && (consumer.None? ==>
                    || LastRefused(Work(made, Opens(made, os.script, since.value)), os.script, since.value)
                    || Unusable(builder))
    ensures consumer.Some? ==> consumer.value.contextId !in old(os.registered)
    ensures os.registered == old(os.registered) + if consumer.Some? then {consumer.value.contextId} else {}
  {
    hide Promise, Opens, Count, Unusable, Work, SetUp;
    if builder.stopIfExist {
      if '\0' in builder.name {
        return None, None;
      }
      var stopped := os.Call(StopByName);
      if !stopped {
        return None, None;
      }
    }
    var started := os.Call(StartTrace);
    if !started {
      return None, None;
    }
    since := Some(|os.calls|);
    ghost var made;
    consumer, made := StartGuarded(os, builder);
    assert os.calls[since.value..] == made;
  }

  lemma InOrder(builder: TraceBuilder, configured: seq<OsCall>, captured: seq<OsCall>)
    requires Prepared(builder, configured) && Captured(builder, captured)
    ensures SetUp(builder, configured + [OpenTrace] + captured)
  {
    hide Prepared, Captured;
    var made := configured + [OpenTrace] + captured;
    assert made[..|configured|] == configured && made[|configured| + 1..] == captured;
    assert made[|configured|] == OpenTrace;
  }

  lemma ConfiguringCounts(made: seq<OsCall>, call: OsCall)
    requires OnlyConfigures(made) && IsLifecycle(call)
    ensures Count(made, call) == 0
  {
  }

  /** What was done before the cleanup of a failed start: only its last call may have been refused. */
  lemma WorkBeforeOpening(configured: seq<OsCall>, refused: seq<OsCall>, script: nat -> Answer, at: nat)
    requires Phase(configured, refused != [], script, at)
    requires refused == [] || (refused == [OpenTrace] && !Accepted(OpenTrace, script(at + |configured|)))
    ensures var made := configured + refused + [ControlStop];
            && Work(made, false) == configured + refused
            && AllButLastAccepted(Work(made, false), script, at)
            && (refused != [] || LastRefused(configured, script, at) ==> LastRefused(Work(made, false), script, at))
  {
    hide OnlyConfigures;
    assert Work(configured + refused + [ControlStop], false) == configured + refused;
    assert configured + [] == configured;
  }

  lemma OpensNothing(configured: seq<OsCall>, refused: seq<OsCall>, script: nat -> Answer, at: nat)
    requires OnlyConfigures(configured)
    requires refused == [] || (refused == [OpenTrace] && !Accepted(OpenTrace, script(at + |configured|)))
    ensures !Opens(configured + refused + [ControlStop], script, at)
  {
    assert IsLifecycle(OpenTrace);
    forall i | 0 <= i < |configured| ensures configured[i] != OpenTrace {
      assert configured[i] in configured;
    }
  }

  /** A failure before the consumer is opened: the configuration, perhaps a refused open, then the stop. */
  lemma FailedBeforeOpening(configured: seq<OsCall>, refused: seq<OsCall>, script: nat -> Answer, at: nat)
    requires Phase(configured, refused != [], script, at)
    requires refused == [] || (refused == [OpenTrace] && !Accepted(OpenTrace, script(at + |configured|)))
    ensures var made := configured + refused + [ControlStop];
            && !Opens(made, script, at) && Count(made, StartTrace) == 0
            && Promise(made, false, false, script, at)
            && (refused != [] || LastRefused(configured, script, at) ==> LastRefused(Work(made, false), script, at))
  {
    hide Opens, Work, OnlyConfigures, AllAccepted, AllButLastAccepted, LastRefused;
    ConfiguringCounts(configured, ControlStop);
    ConfiguringCounts(configured, CloseTrace);
    ConfiguringCounts(configured, OpenTrace);
    ConfiguringCounts(configured, StartTrace);
    OpensNothing(configured, refused, script, at);
    WorkBeforeOpening(configured, refused, script, at);
  }

  lemma OpenedCounts(configured: seq<OsCall>, captured: seq<OsCall>, last: seq<OsCall>, script: nat -> Answer, at: nat)
    requires OnlyConfigures(configured) && OnlyConfigures(captured)
    requires Accepted(OpenTrace, script(at + |configured|))
    ensures var made := configured + [OpenTrace] + captured + last;
            && Opens(made, script, at)
            && forall c :: IsLifecycle(c) ==> Count(made, c) == Count(last, c) + if c == OpenTrace then 1 else 0
  {
    var made := configured + [OpenTrace] + captured + last;
    assert made[|configured|] == OpenTrace;
    forall c | IsLifecycle(c) ensures Count(made, c) == Count(last, c) + if c == OpenTrace then 1 else 0 {
      ConfiguringCounts(configured, c);
      ConfiguringCounts(captured, c);
    }
  }

  lemma WorkAfterOpening(configured: seq<OsCall>, captured: seq<OsCall>, script: nat -> Answer, at: nat)
    requires Phase(configured, true, script, at)
    requires Accepted(OpenTrace, script(at + |configured|))
    requires Phase(captured, false, script, at + |configured| + 1)
    ensures var made := configured + [OpenTrace] + captured + [CloseTrace, ControlStop];
            && AllButLastAccepted(Work(made, true), script, at)
            && (LastRefused(captured, script, at + |configured| + 1) ==> LastRefused(Work(made, true), script, at))
  {
    hide OnlyConfigures, Accepted;
    var work := configured + [OpenTrace] + captured;
    assert Work(work + [CloseTrace, ControlStop], true) == work;
    forall i | 0 <= i < |work| - 1 ensures Accepted(work[i], script(at + i)) {
      if i > |configured| {
        var j := i - |configured| - 1;
        assert Accepted(captured[j], script(at + |configured| + 1 + j));
      }
    }
  }

  /** A failure past opening: everything before it, then the close and the stop. */
  lemma FailedAfterOpening(configured: seq<OsCall>, captured: seq<OsCall>, script: nat -> Answer, at: nat)
    requires Phase(configured, true, script, at)
    requires Accepted(OpenTrace, script(at + |configured|))
    requires Phase(captured, false, script, at + |configured| + 1)
    ensures var made := configured + [OpenTrace] + captured + [CloseTrace, ControlStop];
            && Opens(made, script, at) && Count(made, StartTrace) == 0
            && Promise(made, true, false, script, at)
            && (LastRefused(captured, script, at + |configured| + 1) ==> LastRefused(Work(made, true), script, at))
  {
    hide Opens, Work, OnlyConfigures, AllAccepted, AllButLastAccepted, LastRefused;
    OpenedCounts(configured, captured, [CloseTrace, ControlStop], script, at);
    WorkAfterOpening(configured, captured, script, at);
  }

  lemma HandedOver(configured: seq<OsCall>, captured: seq<OsCall>, script: nat -> Answer, at: nat)
    requires Phase(configured, true, script, at)
    requires Accepted(OpenTrace, script(at + |configured|))
    requires Phase(captured, true, script, at + |configured| + 1)
    ensures var made := configured + [OpenTrace] + captured;
            && Opens(made, script, at) && Count(made, StartTrace) == 0
            && Promise(made, true, true, script, at)
  {
    OpenedCounts(configured, captured, [], script, at);
    var made := configured + [OpenTrace] + captured;
    assert made + [] == made;
    forall i | 0 <= i < |made| ensures Accepted(made[i], script(at + i)) {
      if i > |configured| {
        var j := i - |configured| - 1;
        assert Accepted(captured[j], script(at + |configured| + 1 + j));
      }
    }
  }
}
