/** The providers registered on a real-time trace, indexed by registration order and by GUID, and the
    counters its callbacks update. */
module ProviderRegistry {

  /** GUIDs are only compared. */
  type Guid = nat

  /** A registered provider. `instance` is the identity of the shared allocation: the same GUID may be
      registered several times. */
  datatype Provider = Provider(instance: nat, guid: Guid)

  /** The entries of a GUID, in registration order. */
  function OfGuid(providers: seq<Provider>, guid: Guid): seq<Provider> {
    if providers == [] then []
    else
      var rest := OfGuid(providers[..|providers| - 1], guid);
      var last := providers[|providers| - 1];
      if last.guid == guid then rest + [last] else rest
  }

  function WithoutGuid(providers: seq<Provider>, guid: Guid): seq<Provider> {
    if providers == [] then []
    else
      var rest := WithoutGuid(providers[..|providers| - 1], guid);
      var last := providers[|providers| - 1];
      if last.guid == guid then rest else rest + [last]
  }

  function Without(providers: seq<Provider>, p: Provider): seq<Provider> {
    if providers == [] then []
    else
      var rest := Without(providers[..|providers| - 1], p);
      var last := providers[|providers| - 1];
      if last == p then rest else rest + [last]
  }

  lemma {:induction false} OfGuidContains(providers: seq<Provider>, guid: Guid, p: Provider)
    ensures p in OfGuid(providers, guid) <==> p in providers && p.guid == guid
  {
    if providers != [] {
      OfGuidContains(providers[..|providers| - 1], guid, p);
      assert providers == providers[..|providers| - 1] + [providers[|providers| - 1]];
    }
  }

  lemma {:induction false} WithoutGuidContains(providers: seq<Provider>, guid: Guid, p: Provider)
    ensures p in WithoutGuid(providers, guid) <==> p in providers && p.guid != guid
  {
    if providers != [] {
      WithoutGuidContains(providers[..|providers| - 1], guid, p);
      assert providers == providers[..|providers| - 1] + [providers[|providers| - 1]];
    }
  }

  lemma {:induction false} WithoutContains(providers: seq<Provider>, p: Provider, q: Provider)
    ensures q in Without(providers, p) <==> q in providers && q != p
  {
    if providers != [] {
      WithoutContains(providers[..|providers| - 1], p, q);
      assert providers == providers[..|providers| - 1] + [providers[|providers| - 1]];
    }
  }

  /** Removing a GUID empties its bucket and leaves the others alone. */
  lemma {:induction false} OfGuidWithoutGuid(providers: seq<Provider>, guid: Guid, other: Guid)
    ensures OfGuid(WithoutGuid(providers, guid), other)
            == if other == guid then [] else OfGuid(providers, other)
  {
    if providers != [] {
      var init := providers[..|providers| - 1];
      var last := providers[|providers| - 1];
      OfGuidWithoutGuid(init, guid, other);
      if last.guid != guid {
        assert (WithoutGuid(init, guid) + [last])[..|WithoutGuid(init, guid)|] == WithoutGuid(init, guid);
      }
    }
  }

  /** Removing an instance removes it from its GUID's bucket. */
  lemma {:induction false} OfGuidWithout(providers: seq<Provider>, p: Provider, guid: Guid)
    ensures OfGuid(Without(providers, p), guid) == Without(OfGuid(providers, guid), p)
  {
    if providers != [] {
      var init := providers[..|providers| - 1];
      var last := providers[|providers| - 1];
      OfGuidWithout(init, p, guid);
      assert (Without(init, p) + [last])[..|Without(init, p)|] == Without(init, p);
      assert (OfGuid(init, guid) + [last])[..|OfGuid(init, guid)|] == OfGuid(init, guid);
    }
  }

  lemma {:induction false} WithoutAbsent(providers: seq<Provider>, p: Provider)
    requires p !in providers
    ensures Without(providers, p) == providers
  {
    if providers != [] {
      assert providers[|providers| - 1] in providers;
      WithoutAbsent(providers[..|providers| - 1], p);
      assert providers == providers[..|providers| - 1] + [providers[|providers| - 1]];
    }
  }

  class ProviderRegistry {
    var providers: seq<Provider>
    var byGuid: map<Guid, seq<Provider>>

    /** The index holds exactly the buckets that are not empty. */
    ghost predicate Valid()
      reads this
    {
      forall guid ::
        && (guid in byGuid <==> OfGuid(providers, guid) != [])
        && (guid in byGuid ==> byGuid[guid] == OfGuid(providers, guid))
    }

    constructor ()
      ensures Valid() && providers == []
    {
      providers := [];
      byGuid := map[];
    }

    method Add(p: Provider)
      requires Valid()
      modifies this
      ensures Valid()
      ensures providers == old(providers) + [p]
    {
      var bucket := if p.guid in byGuid then byGuid[p.guid] else [];
      byGuid := byGuid[p.guid := bucket + [p]];
      assert (providers + [p])[..|providers|] == providers;
      providers := providers + [p];
    }

    /** Removes every entry of the GUID, and says how many there were. */
    method RemoveAllByGuid(guid: Guid) returns (removed: nat)
      requires Valid()
      modifies this
      ensures Valid()
      ensures providers == WithoutGuid(old(providers), guid)
      ensures removed == |OfGuid(old(providers), guid)|
    {
      forall other ensures OfGuid(WithoutGuid(providers, guid), other)
                           == if other == guid then [] else OfGuid(providers, other) {
        OfGuidWithoutGuid(providers, guid, other);
      }
      if guid !in byGuid {
        NothingToRemove(providers, guid);
        return 0;
      }
      removed := |byGuid[guid]|;
      byGuid := byGuid - {guid};
      providers := WithoutGuid(providers, guid);
    }

    /** Removes one instance: the rollback of a registration. */
    method RemoveOne(p: Provider) returns (removed: bool)
      requires Valid()
      modifies this
      ensures Valid()
      ensures providers == Without(old(providers), p)
      ensures removed <==> p in old(providers)
    {
      OfGuidContains(providers, p.guid, p);
      forall guid ensures OfGuid(Without(providers, p), guid) == Without(OfGuid(providers, guid), p) {
        OfGuidWithout(providers, p, guid);
      }
      forall guid | guid != p.guid ensures Without(OfGuid(providers, guid), p) == OfGuid(providers, guid) {
        OfGuidContains(providers, guid, p);
        WithoutAbsent(OfGuid(providers, guid), p);
      }
      removed := false;
      if p.guid in byGuid {
        removed := p in byGuid[p.guid];
        byGuid := byGuid[p.guid := Without(byGuid[p.guid], p)];
      }
      if removed {
        if byGuid[p.guid] == [] {
          byGuid := byGuid - {p.guid};
        }
        providers := Without(providers, p);
      } else {
        WithoutAbsent(providers, p);
      }
    }

    /** The providers an event of this GUID is dispatched to, one after the other. */
    method OnEvent(guid: Guid) returns (dispatched: seq<Provider>)
      requires Valid()
      ensures dispatched == OfGuid(providers, guid)
    {
      if guid !in byGuid {
        return [];
      }
      var entries := byGuid[guid];
      if |entries| == 1 {
        return [entries[0]];
      }
      dispatched := [];
      for i := 0 to |entries|
        invariant dispatched == entries[..i]
      {
        dispatched := dispatched + [entries[i]];
      }
    }
  }

  lemma {:induction false} NothingToRemove(providers: seq<Provider>, guid: Guid)
    requires OfGuid(providers, guid) == []
    ensures WithoutGuid(providers, guid) == providers
  {
    if providers != [] {
      NothingToRemove(providers[..|providers| - 1], guid);
      assert providers == providers[..|providers| - 1] + [providers[|providers| - 1]];
    }
  }

  // ---------- histories ----------

  datatype Operation = AddOne(p: Provider) | RemoveGuid(guid: Guid) | Rollback(p: Provider)

  function Registered(ops: seq<Operation>): seq<Provider> {
    if ops == [] then []
    else
      var before := Registered(ops[..|ops| - 1]);
      match ops[|ops| - 1]
      case AddOne(p) => before + [p]
      case RemoveGuid(guid) => WithoutGuid(before, guid)
      case Rollback(p) => Without(before, p)
  }

  predicate Removes(op: Operation, p: Provider) {
    match op
    case AddOne(_) => false
    case RemoveGuid(guid) => p.guid == guid
    case Rollback(q) => p == q
  }

  ghost predicate AddedAndKept(ops: seq<Operation>, p: Provider) {
    exists i :: 0 <= i < |ops| && ops[i] == AddOne(p) && forall j :: i < j < |ops| ==> !Removes(ops[j], p)
  }

  /** Over every history, an event reaches exactly the instances of its GUID that were added and not
      removed since. */
  lemma DispatchedIffKept(ops: seq<Operation>, p: Provider, guid: Guid)
    ensures p in OfGuid(Registered(ops), guid) <==> p.guid == guid && AddedAndKept(ops, p)
  {
    RegisteredIffKept(ops, p);
    OfGuidContains(Registered(ops), guid, p);
  }

  lemma {:induction false} RegisteredIffKept(ops: seq<Operation>, p: Provider)
    ensures p in Registered(ops) <==> AddedAndKept(ops, p)
  {
    if ops != [] {
      var init, last := ops[..|ops| - 1], ops[|ops| - 1];
      RegisteredIffKept(init, p);
      WithoutGuidContains(Registered(init), if last.RemoveGuid? then last.guid else 0, p);
      WithoutContains(Registered(init), if last.Rollback? then last.p else p, p);
      KeptAfter(ops, p);
      hide AddedAndKept;
    }
  }

  /** The last operation settles it, or else it was settled before. */
  lemma KeptAfter(ops: seq<Operation>, p: Provider)
    requires ops != []
    ensures AddedAndKept(ops, p)
            <==> var last := ops[|ops| - 1];
                 last == AddOne(p) || (AddedAndKept(ops[..|ops| - 1], p) && !Removes(last, p))
  {
    var init, last := ops[..|ops| - 1], ops[|ops| - 1];
    if last == AddOne(p) {
      assert ops[|ops| - 1] == AddOne(p);
    } else if AddedAndKept(init, p) && !Removes(last, p) {
      var i :| 0 <= i < |init| && init[i] == AddOne(p) && forall j :: i < j < |init| ==> !Removes(init[j], p);
      assert ops[i] == AddOne(p);
      assert forall j :: i < j < |init| ==> ops[j] == init[j];
    }
  }

  // ---------- counters ----------

  /** One atomic step of a buffer callback: each callback takes one of either kind. */
  datatype Report = BuffersRead(total: nat) | EventsLost(total: nat)

  datatype Counters = Counters(buffersRead: nat, eventsLost: nat)

  function Max(a: nat, b: nat): nat {
    if a >= b then a else b
  }

  /** `fetch_max`. */
  function Record(c: Counters, report: Report): Counters {
    match report
    case BuffersRead(total) => c.(buffersRead := Max(c.buffersRead, total))
    case EventsLost(total) => c.(eventsLost := Max(c.eventsLost, total))
  }

  class BufferCounters {
    var buffersRead: nat
    var eventsLost: nat

    ghost function Value(): Counters
      reads this
    {
      Counters(buffersRead, eventsLost)
    }

    /** The two atomic steps of one callback. */
    method OnBuffer(reportedRead: nat, reportedLost: nat)
      modifies this
      ensures Value() == Record(Record(old(Value()), BuffersRead(reportedRead)), EventsLost(reportedLost))
      ensures buffersRead >= old(buffersRead) && buffersRead >= reportedRead
      ensures eventsLost >= old(eventsLost) && eventsLost >= reportedLost
      ensures buffersRead == old(buffersRead) || buffersRead == reportedRead
      ensures eventsLost == old(eventsLost) || eventsLost == reportedLost
    {
      buffersRead := Max(buffersRead, reportedRead);
      eventsLost := Max(eventsLost, reportedLost);
    }
  }

  function CountersAfter(reports: seq<Report>): Counters {
    if reports == [] then Counters(0, 0)
    else Record(CountersAfter(reports[..|reports| - 1]), reports[|reports| - 1])
  }

  /** `value` is the greatest of the totals reported, or zero when there is none. */
  ghost predicate IsMaximum(reports: seq<Report>, value: Counters) {
    && (forall i :: 0 <= i < |reports| ==> Record(value, reports[i]) == value)
    && (value.buffersRead == 0 || BuffersRead(value.buffersRead) in reports)
    && (value.eventsLost == 0 || EventsLost(value.eventsLost) in reports)
  }

  lemma {:induction false} CountersAreMaximum(reports: seq<Report>)
    ensures IsMaximum(reports, CountersAfter(reports))
  {
    if reports != [] {
      CountersAreMaximum(reports[..|reports| - 1]);
      assert reports == reports[..|reports| - 1] + [reports[|reports| - 1]];
    }
  }

  /** However the callbacks' steps interleave, the counters end at the same values. */
  lemma CountersIgnoreInterleaving(reports: seq<Report>, other: seq<Report>)
    requires multiset(reports) == multiset(other)
    ensures CountersAfter(reports) == CountersAfter(other)
  {
    CountersAreMaximum(reports);
    CountersAreMaximum(other);
    SameMaximum(reports, other);
    SameMaximum(other, reports);
  }

  lemma SameMaximum(reports: seq<Report>, other: seq<Report>)
    requires multiset(reports) == multiset(other)
    ensures IsMaximum(reports, CountersAfter(other))
  {
    CountersAreMaximum(other);
    var value := CountersAfter(other);
    forall i | 0 <= i < |reports| ensures Record(value, reports[i]) == value {
      assert reports[i] in multiset(reports);
      assert reports[i] in other;
    }
    if value.buffersRead != 0 {
      assert BuffersRead(value.buffersRead) in multiset(other);
    }
    if value.eventsLost != 0 {
      assert EventsLost(value.eventsLost) in multiset(other);
    }
  }
}
