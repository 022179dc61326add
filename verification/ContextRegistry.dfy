/** The registry that ties the ids ETW hands back with each event to the callback data of open traces.

    Traces are opened, closed and dropped while any number of delivery threads look ids up and dispatch.
    Each atomic operation is a step; callback data is reference counted, and freed with its last count. */
module ContextRegistry {
  import opened Wrappers

  /** A context id, and the identity of a callback data allocation. */
  type Id = nat
  type Data = nat

  /** `minting` and `contexts` own the data of each trace, before and after its id is registered, until
      its context is dropped; `inFlight` owns the data each delivery thread is dispatching to.
      `counts` are the reference counts of the data not freed yet. `minted` remembers which data each id
      was minted for, `retired` the ids unregistered so far, `dispatchedId` the id of the event a thread
      is dispatching. */
  datatype State = State(
    nextId: Id, nextData: Data,
    minting: map<Id, Data>, contexts: map<Id, Data>, registry: map<Id, Data>,
    inFlight: map<nat, Data>, counts: map<Data, nat>,
    ghost minted: map<Id, Data>, ghost retired: set<Id>, ghost dispatchedId: map<nat, Id>)

  const INITIAL := State(1, 0, map[], map[], map[], map[], map[], map[], {}, map[])

  /** An atomic step of some thread.
      `Mint` allocates the callback data of a new trace and mints its id; `Register` inserts it in the
      registry; `Unregister` retires it (a close, or the drop of a context never closed); `Drop` frees the
      context once unregistered. `Deliver` is an event with any user context reaching a thread, `Finish`
      the end of its dispatch. */
  datatype Action =
    | Mint | Register(id: Id) | Unregister(id: Id) | Drop(id: Id)
    | Deliver(thread: nat, id: Id) | Finish(thread: nat)

  function Acquire(counts: map<Data, nat>, d: Data): map<Data, nat> {
    counts[d := (if d in counts then counts[d] else 0) + 1]
  }

  /** Gives a reference back; the last one frees the data. */
  function Release(counts: map<Data, nat>, d: Data): map<Data, nat>
    requires d in counts
  {
    if counts[d] <= 1 then counts - {d} else counts[d := counts[d] - 1]
  }

  /** The state after an action, `None` when it cannot be taken. A reference to freed data would be a
      step that cannot be taken. */
  ghost function Step(s: State, action: Action): Option<State> {
    match action
    case Mint =>
      Some(s.(nextId := s.nextId + 1, nextData := s.nextData + 1,
              minting := s.minting[s.nextId := s.nextData],
              minted := s.minted[s.nextId := s.nextData],
              counts := Acquire(s.counts, s.nextData)))
    case Register(id) =>
      if id !in s.minting then None
      else
        var d := s.minting[id];
        Some(s.(minting := s.minting - {id},
                contexts := s.contexts[id := d],
                registry := s.registry[id := d],
                counts := Acquire(s.counts, d)))
    case Unregister(id) =>
      if id !in s.contexts then None
      else if id !in s.registry then Some(s)
      else if s.registry[id] !in s.counts then None
      else
        Some(s.(registry := s.registry - {id},
                counts := Release(s.counts, s.registry[id]),
                retired := s.retired + {id}))
    case Drop(id) =>
      if id !in s.contexts || id in s.registry || s.contexts[id] !in s.counts then None
      else Some(s.(contexts := s.contexts - {id}, counts := Release(s.counts, s.contexts[id])))
    case Deliver(thread, id) =>
      if thread in s.inFlight then None
      else if id !in s.registry then Some(s)
      else
        Some(s.(inFlight := s.inFlight[thread := s.registry[id]],
                counts := Acquire(s.counts, s.registry[id]),
                dispatchedId := s.dispatchedId[thread := id]))
    case Finish(thread) =>
      if thread !in s.inFlight || s.inFlight[thread] !in s.counts then None
      else
        Some(s.(inFlight := s.inFlight - {thread},
                counts := Release(s.counts, s.inFlight[thread]),
                dispatchedId := s.dispatchedId - {thread}))
  }

  ghost function Run(s: State, actions: seq<Action>): Option<State> {
    if actions == [] then Some(s)
    else
      var before :- Run(s, actions[..|actions| - 1]);
      Step(before, actions[|actions| - 1])
  }

  // ---------- counting the holders ----------

  function Holders(m: map<nat, Data>, d: Data): set<nat> {
    set k | k in m && m[k] == d
  }

  /** How many owners hold the data: its trace, its registry entry, and the dispatches in flight. */
  function Owners(s: State, d: Data): nat {
    |Holders(s.minting, d)| + |Holders(s.contexts, d)| + |Holders(s.registry, d)| + |Holders(s.inFlight, d)|
  }

  lemma HoldersAdded(m: map<nat, Data>, k: nat, v: Data, d: Data)
    requires k !in m
    ensures |Holders(m[k := v], d)| == |Holders(m, d)| + if v == d then 1 else 0
  {
    if v == d {
      assert Holders(m[k := v], d) == Holders(m, d) + {k};
    } else {
      assert Holders(m[k := v], d) == Holders(m, d);
    }
  }

  lemma HoldersRemoved(m: map<nat, Data>, k: nat, d: Data)
    requires k in m
    ensures |Holders(m, d)| == |Holders(m - {k}, d)| + if m[k] == d then 1 else 0
  {
    HoldersAdded(m - {k}, k, m[k], d);
    assert (m - {k})[k := m[k]] == m;
  }

  lemma NoHolders(m: map<nat, Data>, d: Data)
    requires forall k :: k in m ==> m[k] != d
    ensures |Holders(m, d)| == 0
  {
    assert Holders(m, d) == {};
  }

  /** The reference count of every data is the number of its owners, and data without owners is freed. */
  ghost predicate Counted(s: State) {
    forall d :: (d in s.counts <==> Owners(s, d) > 0) && (d in s.counts ==> s.counts[d] == Owners(s, d))
  }

  ghost predicate MadeFor(minted: map<Id, Data>, m: map<Id, Data>) {
    forall id :: id in m ==> id in minted && minted[id] == m[id]
  }

  /** Each dispatch runs on the data its event's id was minted for. */
  ghost predicate DispatchesRouted(s: State) {
    && s.inFlight.Keys == s.dispatchedId.Keys
    && forall t :: t in s.inFlight ==>
         s.dispatchedId[t] in s.minted && s.inFlight[t] == s.minted[s.dispatchedId[t]]
  }

  ghost predicate Injective(m: map<Id, Data>) {
    forall i, j :: i in m && j in m && i != j ==> m[i] != m[j]
  }

  /** How ids relate: each was minted below `nextId`, a registered one belongs to a live context, and a
      retired one is registered no more and never will be. */
  ghost predicate IdsWellFormed(s: State) {
    && 0 < s.nextId
    && (forall id :: id in s.minted ==> 0 < id < s.nextId && s.minted[id] < s.nextData)
    && MadeFor(s.minted, s.minting) && MadeFor(s.minted, s.contexts) && MadeFor(s.minted, s.registry)
    && s.minting.Keys !! s.contexts.Keys
    && s.registry.Keys <= s.contexts.Keys
    && s.retired <= s.minted.Keys
    && s.retired !! (s.registry.Keys + s.minting.Keys)
    && (forall id :: id in s.minted ==> id in s.minting || id in s.registry || id in s.retired)
    && DispatchesRouted(s)
    && Injective(s.minted)
  }

  ghost predicate Invariant(s: State) {
    Counted(s) && IdsWellFormed(s)
  }

  lemma AcquireCounts(s: State, s': State, v: Data)
    requires Counted(s)
    requires s'.counts == Acquire(s.counts, v)
    requires forall d :: Owners(s', d) == Owners(s, d) + if d == v then 1 else 0
    ensures Counted(s')
  {
    hide Owners;
  }

  lemma ReleaseCounts(s: State, s': State, v: Data)
    requires Counted(s) && v in s.counts
    requires s'.counts == Release(s.counts, v)
    requires forall d :: Owners(s, d) == Owners(s', d) + if d == v then 1 else 0
    ensures Counted(s')
  {
    hide Owners;
  }

  lemma RegisterKeepsCounts(s: State, id: Id)
    requires Invariant(s) && Step(s, Register(id)).Some?
    ensures Counted(Step(s, Register(id)).value)
  {
    hide Holders, Acquire, Release;
    var s', v := Step(s, Register(id)).value, s.minting[id];
    forall d ensures Owners(s', d) == Owners(s, d) + if d == v then 1 else 0 {
      HoldersRemoved(s.minting, id, d);
      HoldersAdded(s.contexts, id, v, d);
      HoldersAdded(s.registry, id, v, d);
    }
    AcquireCounts(s, s', v);
  }

  lemma StepKeepsCounts(s: State, action: Action)
    requires Invariant(s) && Step(s, action).Some?
    ensures Counted(Step(s, action).value)
  {
    hide Holders, Acquire, Release;
    var s' := Step(s, action).value;
    match action
    case Mint =>
      forall d ensures Owners(s', d) == Owners(s, d) + if d == s.nextData then 1 else 0 {
        HoldersAdded(s.minting, s.nextId, s.nextData, d);
      }
      AcquireCounts(s, s', s.nextData);
    case Register(id) => RegisterKeepsCounts(s, id);
    case Unregister(id) =>
      if id in s.registry {
        forall d ensures Owners(s, d) == Owners(s', d) + if d == s.registry[id] then 1 else 0 {
          HoldersRemoved(s.registry, id, d);
        }
        ReleaseCounts(s, s', s.registry[id]);
      }
    case Drop(id) =>
      forall d ensures Owners(s, d) == Owners(s', d) + if d == s.contexts[id] then 1 else 0 {
        HoldersRemoved(s.contexts, id, d);
      }
      ReleaseCounts(s, s', s.contexts[id]);
    case Deliver(thread, id) =>
      if id in s.registry {
        forall d ensures Owners(s', d) == Owners(s, d) + if d == s.registry[id] then 1 else 0 {
          HoldersAdded(s.inFlight, thread, s.registry[id], d);
        }
        AcquireCounts(s, s', s.registry[id]);
      }
    case Finish(thread) =>
      forall d ensures Owners(s, d) == Owners(s', d) + if d == s.inFlight[thread] then 1 else 0 {
        HoldersRemoved(s.inFlight, thread, d);
      }
      ReleaseCounts(s, s', s.inFlight[thread]);
  }

  lemma NotMinted(minted: map<Id, Data>, m: map<Id, Data>, id: Id)
    requires MadeFor(minted, m) && id !in minted
    ensures id !in m
  {
  }

  lemma InjectiveAdded(m: map<Id, Data>, id: Id, d: Data)
    requires Injective(m) && id !in m
    requires forall i :: i in m ==> m[i] != d
    ensures Injective(m[id := d])
  {
  }

  lemma MadeForNew(minted: map<Id, Data>, m: map<Id, Data>, id: Id, d: Data)
    requires MadeFor(minted, m) && id !in minted
    ensures MadeFor(minted[id := d], m) && MadeFor(minted[id := d], m[id := d])
  {
  }

  lemma MadeForChanged(minted: map<Id, Data>, m: map<Id, Data>, id: Id)
    requires MadeFor(minted, m)
    ensures MadeFor(minted, m - {id})
    ensures id in minted ==> MadeFor(minted, m[id := minted[id]])
  {
  }

  /** Every data is minted for one id, and the maps agree on which. */
  lemma MintedGrows(s: State, s': State, action: Action)
    requires IdsWellFormed(s) && Step(s, action) == Some(s')
    ensures Injective(s'.minted)
    ensures MadeFor(s'.minted, s'.minting) && MadeFor(s'.minted, s'.contexts) && MadeFor(s'.minted, s'.registry)
  {
    hide Acquire, Release, Injective, MadeFor;
    match action
    case Mint =>
      InjectiveAdded(s.minted, s.nextId, s.nextData);
      MadeForNew(s.minted, s.minting, s.nextId, s.nextData);
      MadeForNew(s.minted, s.contexts, s.nextId, s.nextData);
      MadeForNew(s.minted, s.registry, s.nextId, s.nextData);
    case Register(id) =>
      IdOf(s.minted, s.minting, id);
      MadeForChanged(s.minted, s.minting, id);
      MadeForChanged(s.minted, s.contexts, id);
      MadeForChanged(s.minted, s.registry, id);
    case Unregister(id) => MadeForChanged(s.minted, s.registry, id);
    case Drop(id) => MadeForChanged(s.minted, s.contexts, id);
    case _ =>
  }

  lemma IdOf(minted: map<Id, Data>, m: map<Id, Data>, id: Id)
    requires MadeFor(minted, m) && id in m
    ensures id in minted && minted[id] == m[id]
  {
  }

  lemma StepKeepsRouting(s: State, action: Action)
    requires IdsWellFormed(s) && Step(s, action).Some?
    ensures DispatchesRouted(Step(s, action).value)
  {
    hide Acquire, Release, Injective;
    var s' := Step(s, action).value;
    match action
    case Mint =>
    case Deliver(_, _) => assert s'.inFlight.Keys == s'.dispatchedId.Keys;
    case Finish(_) => assert s'.inFlight.Keys == s'.dispatchedId.Keys;
    case _ =>
  }

  lemma MintKeepsIds(s: State)
    requires Invariant(s)
    ensures IdsWellFormed(Step(s, Mint).value)
  {
    hide Counted, Acquire, Release, Injective, MadeFor, DispatchesRouted;
    MintedGrows(s, Step(s, Mint).value, Mint);
    StepKeepsRouting(s, Mint);
    NotMinted(s.minted, s.contexts, s.nextId);
    NotMinted(s.minted, s.registry, s.nextId);
  }

  lemma StepKeepsIds(s: State, action: Action)
    requires Invariant(s) && Step(s, action).Some?
    ensures IdsWellFormed(Step(s, action).value)
  {
    hide Counted, Acquire, Release, Injective, MadeFor, DispatchesRouted;
    MintedGrows(s, Step(s, action).value, action);
    StepKeepsRouting(s, action);
    match action
    case Mint => MintKeepsIds(s);
    case Register(id) => IdOf(s.minted, s.minting, id);
    case Unregister(id) => IdOf(s.minted, s.contexts, id);
    case _ =>
  }

  lemma {:induction false} InvariantHolds(actions: seq<Action>)
    requires Run(INITIAL, actions).Some?
    ensures Invariant(Run(INITIAL, actions).value)
  {
    if actions == [] {
      forall d ensures Owners(INITIAL, d) == 0 {
        NoHolders(map[], d);
      }
    } else {
      hide Step, Counted, IdsWellFormed;
      InvariantHolds(actions[..|actions| - 1]);
      var before := Run(INITIAL, actions[..|actions| - 1]).value;
      StepKeepsCounts(before, actions[|actions| - 1]);
      StepKeepsIds(before, actions[|actions| - 1]);
    }
  }

  // ---------- the results ----------

  /** Conservation: over every run, callback data is live exactly while its trace, the registry or a
      dispatch in flight holds it, and its reference count is the number of those holders. */
  lemma LiveExactlyWhileHeld(actions: seq<Action>, d: Data)
    requires Run(INITIAL, actions).Some?
    ensures var s := Run(INITIAL, actions).value;
            && (d in s.counts <==>
                  || (exists id :: id in s.minting && s.minting[id] == d)
                  || (exists id :: id in s.contexts && s.contexts[id] == d)
                  || (exists id :: id in s.registry && s.registry[id] == d)
                  || (exists t :: t in s.inFlight && s.inFlight[t] == d))
            && (d in s.counts ==> s.counts[d] == Owners(s, d))
  {
    InvariantHolds(actions);
    var s := Run(INITIAL, actions).value;
    HeldIffHolders(s.minting, d);
    HeldIffHolders(s.contexts, d);
    HeldIffHolders(s.registry, d);
    HeldIffHolders(s.inFlight, d);
  }

  lemma HeldIffHolders(m: map<nat, Data>, d: Data)
    ensures |Holders(m, d)| > 0 <==> exists k :: k in m && m[k] == d
  {
    if k :| k in m && m[k] == d {
      assert k in Holders(m, d);
    } else {
      NoHolders(m, d);
    }
  }

  /** No step ever needs freed data: whatever a thread, a context or the registry holds is live, so
      unregistering, dropping and finishing are always possible. */
  lemma HeldDataIsNeverFreed(actions: seq<Action>, id: Id, t: nat)
    requires Run(INITIAL, actions).Some?
    ensures var s := Run(INITIAL, actions).value;
            && (id in s.contexts ==> Step(s, Unregister(id)).Some?)
            && (id in s.contexts && id !in s.registry ==> Step(s, Drop(id)).Some?)
            && (t in s.inFlight ==> Step(s, Finish(t)).Some?)
  {
    var s := Run(INITIAL, actions).value;
    InvariantHolds(actions);
    if id in s.contexts {
      LiveExactlyWhileHeld(actions, s.contexts[id]);
    }
    if t in s.inFlight {
      LiveExactlyWhileHeld(actions, s.inFlight[t]);
    }
  }

  /** An event is dispatched to the callback data of the trace that minted its id, and no other trace was
      ever given that data. */
  lemma EventsReachTheirTrace(actions: seq<Action>, t: nat)
    requires Run(INITIAL, actions).Some?
    requires t in Run(INITIAL, actions).value.inFlight
    ensures var s := Run(INITIAL, actions).value;
            && t in s.dispatchedId && s.dispatchedId[t] in s.minted
            && s.inFlight[t] == s.minted[s.dispatchedId[t]]
            && forall id :: id in s.minted && s.minted[id] == s.inFlight[t] ==> id == s.dispatchedId[t]
  {
    InvariantHolds(actions);
  }

  /** Delivering an event whose id was registered and not retired since starts a dispatch, on the data
      minted for that id. */
  lemma RegisteredIdsAreDispatched(actions: seq<Action>, more: seq<Action>, id: Id, t: nat)
    requires Run(INITIAL, actions + [Register(id)] + more).Some?
    requires id !in Run(INITIAL, actions + [Register(id)] + more).value.retired
    requires t !in Run(INITIAL, actions + [Register(id)] + more).value.inFlight
    ensures var s := Run(INITIAL, actions + [Register(id)] + more).value;
            && Step(s, Deliver(t, id)).Some?
            && var s' := Step(s, Deliver(t, id)).value;
            && t in s'.inFlight && t in s'.dispatchedId && s'.dispatchedId[t] == id
            && id in s'.minted && s'.inFlight[t] == s'.minted[id]
  {
    InvariantHolds(actions + [Register(id)] + more);
    RegisteredOrRetired(actions, more, id);
  }

  lemma StepKeepsRegistered(s: State, action: Action, id: Id)
    requires Step(s, action).Some?
    ensures id in s.registry || id in s.retired || action == Register(id) ==>
              id in Step(s, action).value.registry || id in Step(s, action).value.retired
  {
    hide Acquire, Release;
  }

  /** Once registered, an id is in the registry until it is retired. */
  lemma {:induction false} RegisteredOrRetired(actions: seq<Action>, more: seq<Action>, id: Id)
    requires Run(INITIAL, actions + [Register(id)] + more).Some?
    ensures var s := Run(INITIAL, actions + [Register(id)] + more).value;
            id in s.registry || id in s.retired
    decreases |more|
  {
    hide Step;
    var run := actions + [Register(id)] + more;
    var init, last := run[..|run| - 1], run[|run| - 1];
    StepKeepsRegistered(Run(INITIAL, init).value, last, id);
    if more != [] {
      assert init == actions + [Register(id)] + more[..|more| - 1];
      RegisteredOrRetired(actions, more[..|more| - 1], id);
    }
  }

  lemma StepGrowsHistory(s: State, action: Action)
    requires IdsWellFormed(s) && Step(s, action).Some?
    ensures var s' := Step(s, action).value;
            s.retired <= s'.retired && s.nextId <= s'.nextId && MadeFor(s'.minted, s.minted)
  {
    hide Acquire, Release;
  }

  lemma {:induction false} HistoryGrows(actions: seq<Action>, more: seq<Action>)
    requires Run(INITIAL, actions + more).Some?
    ensures Run(INITIAL, actions).Some?
    ensures var s, s' := Run(INITIAL, actions).value, Run(INITIAL, actions + more).value;
            && s.retired <= s'.retired && s.nextId <= s'.nextId
            && MadeFor(s'.minted, s.minted)
    decreases |more|
  {
    if more == [] {
      assert actions + more == actions;
    } else {
      hide Step, IdsWellFormed, Counted;
      var longer, init := actions + more, actions + more[..|more| - 1];
      assert longer[..|longer| - 1] == init;
      HistoryGrows(actions, more[..|more| - 1]);
      InvariantHolds(init);
      StepGrowsHistory(Run(INITIAL, init).value, longer[|longer| - 1]);
    }
  }

  /** Ids are never reused: an id minted later differs from every id minted before. */
  lemma IdsAreNeverReused(actions: seq<Action>, more: seq<Action>, id: Id)
    requires Run(INITIAL, actions).Some? && Run(INITIAL, actions + more).Some?
    requires id in Run(INITIAL, actions).value.minted
    ensures Run(INITIAL, actions + more).value.nextId != id
    ensures id in Run(INITIAL, actions + more).value.minted
    ensures Run(INITIAL, actions + more).value.minted[id] == Run(INITIAL, actions).value.minted[id]
  {
    HistoryGrows(actions, more);
    InvariantHolds(actions + more);
  }

  /** Once an id is retired, an event carrying it misses the registry forever: delivering it starts no
      dispatch. */
  lemma RetiredIdsMissForever(actions: seq<Action>, more: seq<Action>, id: Id, t: nat)
    requires Run(INITIAL, actions).Some? && Run(INITIAL, actions + more).Some?
    requires id in Run(INITIAL, actions).value.retired
    ensures var s := Run(INITIAL, actions + more).value;
            t !in s.inFlight ==> Step(s, Deliver(t, id)) == Some(s)
  {
    HistoryGrows(actions, more);
    InvariantHolds(actions + more);
  }

  /** And unregistering retires: right after it, the id is retired. */
  lemma UnregisterRetires(actions: seq<Action>, id: Id)
    requires Run(INITIAL, actions + [Unregister(id)]).Some?
    ensures id in Run(INITIAL, actions + [Unregister(id)]).value.retired
  {
    assert (actions + [Unregister(id)])[..|actions|] == actions;
    InvariantHolds(actions);
  }
}
