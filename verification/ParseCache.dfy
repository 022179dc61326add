/** What the parser's operations do to its cache, and why the cache is never observable by position:
    it refines the from-scratch walk. */
module ParseCache {
  import opened Wrappers
  import opened Bytes
  import opened TdhTypes
  import opened Sizing
  import opened Walk

  /** The mutable part of the parser. */
  datatype Cache = Cache(slices: seq<PropertySlice>, nextProbe: nat, lastCachedOffset: nat)

  const EMPTY_CACHE := Cache([], 0, 0)

  /** What every operation keeps: the cached slices are a prefix of the from-scratch walk. */
  ghost predicate Refines(ev: Event, cache: Cache) {
    && WalkTo(ev, |cache.slices|) == Ok(cache.slices)
    && cache.lastCachedOffset == TotalSize(cache.slices)
    && (cache.nextProbe == 0 || cache.nextProbe < |cache.slices|)
  }

  /** Outcome of an operation: the cache it leaves behind, and its result. */
  datatype Outcome<+T> = Outcome(cache: Cache, result: Result<T, ParserError>)

  function ParseNext(ev: Event, cache: Cache): Outcome<()> {
    match NextSlice(ev, cache.slices, cache.lastCachedOffset)
    case Err(e) => Outcome(cache, Err(e))
    case Ok(slice) =>
      Outcome(Cache(cache.slices + [slice], cache.nextProbe, cache.lastCachedOffset + |slice.buffer|), Ok(()))
  }

  /** The cached entry a lookup hits: probing starts at `nextProbe` and wraps around, and the first
      `i` probes missed. */
  function Probe(cache: Cache, name: string, i: nat): (hit: Option<nat>)
    ensures hit.Some? ==> hit.value < |cache.slices| && cache.slices[hit.value].property.name == name
    decreases |cache.slices| - i
  {
    if i >= |cache.slices| then None
    else
      var idx := ProbeIndex(|cache.slices|, cache.nextProbe, i);
      if cache.slices[idx].property.name == name then Some(idx) else Probe(cache, name, i + 1)
  }

  /** Parses on until the name shows up. */
  function ParseUntil(ev: Event, cache: Cache, name: string): (r: Outcome<nat>)
    ensures r.result.Ok? ==> r.result.value < |r.cache.slices|
    decreases |ev.properties| - |cache.slices|
  {
    if |cache.slices| >= |ev.properties| then Outcome(cache, Err(NotFound))
    else
      var step := ParseNext(ev, cache);
      if step.result.Err? then Outcome(step.cache, Err(step.result.error))
      else
        var last := |step.cache.slices| - 1;
        if step.cache.slices[last].property.name == name then Outcome(step.cache, Ok(last))
        else ParseUntil(ev, step.cache, name)
  }

  /** `find_property`, returning the position of the slice it found. */
  function FindByName(ev: Event, cache: Cache, name: string): (r: Outcome<nat>)
    ensures r.result.Ok? ==> r.result.value < |r.cache.slices|
  {
    match Probe(cache, name, 0)
    case Some(idx) => Outcome(cache.(nextProbe := ProbeIndex(|cache.slices|, idx, 1)), Ok(idx))
    case None => ParseUntil(ev, cache, name)
  }

  /** Parses on until `n` properties are cached. */
  function ParseTo(ev: Event, cache: Cache, n: nat): (r: Outcome<()>)
    ensures r.result.Ok? ==> |r.cache.slices| >= n
    decreases n - |cache.slices|
  {
    if |cache.slices| >= n then Outcome(cache, Ok(()))
    else
      var step := ParseNext(ev, cache);
      if step.result.Err? then step else ParseTo(ev, step.cache, n)
  }

  /** `property_bytes_at`. */
  function BytesAt(ev: Event, cache: Cache, index: nat): Outcome<seq<byte>> {
    var r := ParseTo(ev, cache, index + 1);
    if r.result.Err? then Outcome(r.cache, Err(r.result.error))
    else Outcome(r.cache, Ok(r.cache.slices[index].buffer))
  }

  lemma ParseNextRefines(ev: Event, cache: Cache)
    requires Refines(ev, cache)
    ensures Refines(ev, ParseNext(ev, cache).cache)
    ensures ParseNext(ev, cache).result.Ok? <==> WalkTo(ev, |cache.slices| + 1).Ok?
    ensures ParseNext(ev, cache).result.Ok? ==>
              && |cache.slices| < |ev.properties|
              && |ParseNext(ev, cache).cache.slices| == |cache.slices| + 1
              && ParseNext(ev, cache).cache.slices[|cache.slices|].property == ev.properties[|cache.slices|]
    ensures ParseNext(ev, cache).result.Err? ==>
              WalkTo(ev, |cache.slices| + 1) == Err(ParseNext(ev, cache).result.error)
  {
    hide FindPropertySize;
    var slices := ParseNext(ev, cache).cache.slices;
    if |slices| > |cache.slices| {
      assert slices[..|slices| - 1] == cache.slices;
    }
  }

  lemma {:induction false} ParseUntilRefines(ev: Event, cache: Cache, name: string)
    requires Refines(ev, cache)
    ensures Refines(ev, ParseUntil(ev, cache, name).cache)
    ensures ParseUntil(ev, cache, name).result == FirstNamed(ev, name, |cache.slices|)
    decreases |ev.properties| - |cache.slices|
  {
    hide FindPropertySize;
    if |cache.slices| < |ev.properties| {
      ParseNextRefines(ev, cache);
      var step := ParseNext(ev, cache);
      if step.result.Ok? && ev.properties[|cache.slices|].name != name {
        ParseUntilRefines(ev, step.cache, name);
      }
    }
  }

  lemma {:induction false} ParseToRefines(ev: Event, cache: Cache, n: nat)
    requires Refines(ev, cache)
    ensures Refines(ev, ParseTo(ev, cache, n).cache)
    ensures |cache.slices| <= n ==>
              ParseTo(ev, cache, n).result == match WalkTo(ev, n) case Ok(_) => Ok(()) case Err(e) => Err(e)
    ensures |cache.slices| <= n && WalkTo(ev, n).Ok? ==> ParseTo(ev, cache, n).cache.slices == WalkTo(ev, n).value
    ensures |cache.slices| >= n ==> ParseTo(ev, cache, n) == Outcome(cache, Ok(()))
    ensures ParseTo(ev, cache, n).cache.nextProbe == cache.nextProbe
    decreases n - |cache.slices|
  {
    hide TotalSize;
    hide FindPropertySize;
    if |cache.slices| < n {
      ParseNextRefines(ev, cache);
      var step := ParseNext(ev, cache);
      if step.result.Ok? {
        ParseToRefines(ev, step.cache, n);
      } else {
        WalkErrorSticks(ev, |cache.slices| + 1, n);
      }
    }
  }

  // ---------- histories ----------

  datatype Lookup = ByName(name: string) | ByIndex(index: nat)

  function Apply(ev: Event, cache: Cache, op: Lookup): Cache {
    match op
    case ByName(name) => FindByName(ev, cache, name).cache
    case ByIndex(index) => BytesAt(ev, cache, index).cache
  }

  /** The cache after a sequence of lookups on a fresh parser, successful or not. */
  function Run(ev: Event, ops: seq<Lookup>): Cache {
    if ops == [] then EMPTY_CACHE
    else Apply(ev, Run(ev, ops[..|ops| - 1]), ops[|ops| - 1])
  }

  /** Whatever was looked up, the cache is a prefix of the from-scratch walk. */
  lemma {:induction false} EveryHistoryRefinesWalk(ev: Event, ops: seq<Lookup>)
    ensures Refines(ev, Run(ev, ops))
  {
    hide FindPropertySize, ProbeIndex;
    if ops != [] {
      EveryHistoryRefinesWalk(ev, ops[..|ops| - 1]);
      ApplyRefines(ev, Run(ev, ops[..|ops| - 1]), ops[|ops| - 1]);
    }
  }

  lemma ApplyRefines(ev: Event, cache: Cache, op: Lookup)
    requires Refines(ev, cache)
    ensures Refines(ev, Apply(ev, cache, op))
  {
    hide NextSlice, ProbeIndex;
    match op
    case ByName(name) => ParseUntilRefines(ev, cache, name);
    case ByIndex(index) => ParseToRefines(ev, cache, index + 1);
  }

  /** Whatever was looked up, the cached slices tile a prefix of the property values, and the cached
      offset is the sum of their sizes. */
  lemma EveryHistoryTiles(ev: Event, ops: seq<Lookup>)
    ensures var cache := Run(ev, ops);
            && cache.lastCachedOffset == TotalSize(cache.slices)
            && (cache.slices != [] ==>
                  && ev.dataStart.Some?
                  && var start := ev.dataStart.value;
                  && start + cache.lastCachedOffset <= |ev.record.userBuffer|
                  && Concatenated(cache.slices)
                     == ev.record.userBuffer[start..start + cache.lastCachedOffset])
  {
    hide NextSlice, Run;
    EveryHistoryRefinesWalk(ev, ops);
    if Run(ev, ops).slices != [] {
      WalkTiles(ev, |Run(ev, ops).slices|);
    }
  }

  lemma BytesAtIsSlice(ev: Event, cache: Cache, index: nat)
    requires Refines(ev, cache)
    ensures Refines(ev, BytesAt(ev, cache, index).cache)
    ensures BytesAt(ev, cache, index).result
            == match SliceAt(ev, index) case Ok(slice) => Ok(slice.buffer) case Err(e) => Err(e)
  {
    ParseToRefines(ev, cache, index + 1);
    if |cache.slices| > index {
      SliceAtWithin(ev, |cache.slices|, index);
    }
  }

  /** Positional access never depends on the history. */
  lemma IndexLookupIsHistoryFree(ev: Event, ops: seq<Lookup>, index: nat)
    ensures BytesAt(ev, Run(ev, ops), index).result
            == match SliceAt(ev, index) case Ok(slice) => Ok(slice.buffer) case Err(e) => Err(e)
  {
    EveryHistoryRefinesWalk(ev, ops);
    BytesAtIsSlice(ev, Run(ev, ops), index);
  }

  // ---------- lookups by name ----------

  /** The plain linear lookup: the first walked property from `k` on with this name. */
  function FirstNamed(ev: Event, name: string, k: nat): Result<nat, ParserError>
    decreases |ev.properties| - k
  {
    if k >= |ev.properties| then Err(NotFound)
    else
      match WalkTo(ev, k + 1)
      case Err(e) => Err(e)
      case Ok(_) => if ev.properties[k].name == name then Ok(k) else FirstNamed(ev, name, k + 1)
  }

  /** At most one of the properties the walk can locate bears this name. */
  ghost predicate UniqueName(ev: Event, name: string) {
    forall i, j :: 0 <= i < j < Walkable(ev) ==> !(ev.properties[i].name == name && ev.properties[j].name == name)
  }

  /** The entry the `i`-th probe looks at, starting from `start`. */
  function ProbeIndex(len: nat, start: nat, i: nat): (idx: nat)
    requires 0 < len
    ensures idx < len
  {
    (start + i) % len
  }

  /** The probe that looks at the entry `idx`. */
  function ProbeStep(len: nat, start: nat, idx: nat): (i: nat)
    requires start < len && idx < len
    ensures i < len
  {
    if idx >= start then idx - start else idx + len - start
  }

  /** The probe order visits every cached entry exactly once. */
  lemma ProbeOrderIsPermutation(len: nat, start: nat, k: nat)
    requires start < len && k < len
    ensures ProbeIndex(len, start, ProbeStep(len, start, k)) == k
    ensures ProbeStep(len, start, ProbeIndex(len, start, k)) == k
  {
    Wraps(len, start + k);
    Wraps(len, start + ProbeStep(len, start, k));
  }

  lemma Wraps(len: nat, x: nat)
    requires 0 < len && x < 2 * len
    ensures x % len == if x < len then x else x - len
  {
    assert x / len == if x < len then 0 else 1;
  }

  lemma ProbeDoesNotWrap(len: nat, start: nat, i: nat)
    requires start + i < len
    ensures ProbeIndex(len, start, i) == start + i
  {
    Wraps(len, start + i);
  }

  /** A probe stops at the first matching step. */
  lemma {:induction false} ProbeStopsBy(cache: Cache, name: string, i: nat, s: nat) returns (t: nat)
    requires i <= s < |cache.slices|
    requires cache.slices[ProbeIndex(|cache.slices|, cache.nextProbe, s)].property.name == name
    ensures i <= t <= s
    ensures Probe(cache, name, i) == Some(ProbeIndex(|cache.slices|, cache.nextProbe, t))
    decreases s - i
  {
    if cache.slices[ProbeIndex(|cache.slices|, cache.nextProbe, i)].property.name != name {
      t := ProbeStopsBy(cache, name, i + 1, s);
    } else {
      t := i;
    }
  }

  lemma ProbeMisses(cache: Cache, name: string)
    requires cache.nextProbe == 0 || cache.nextProbe < |cache.slices|
    requires Probe(cache, name, 0) == None
    ensures forall idx :: 0 <= idx < |cache.slices| ==> cache.slices[idx].property.name != name
  {
    forall idx | 0 <= idx < |cache.slices|
      ensures cache.slices[idx].property.name != name
    {
      if cache.slices[idx].property.name == name {
        ProbeOrderIsPermutation(|cache.slices|, cache.nextProbe, idx);
        var _ := ProbeStopsBy(cache, name, 0, ProbeStep(|cache.slices|, cache.nextProbe, idx));
      }
    }
  }

  /** The linear lookup skips the properties that do not bear the name. */
  lemma {:induction false} FirstNamedSkips(ev: Event, name: string, k: nat, n: nat)
    requires k <= n && WalkTo(ev, n).Ok?
    requires forall j :: k <= j < n ==> ev.properties[j].name != name
    ensures FirstNamed(ev, name, k) == FirstNamed(ev, name, n)
    decreases n - k
  {
    hide NextSlice;
    if k < n {
      WalkPrefix(ev, k + 1, n);
      FirstNamedSkips(ev, name, k + 1, n);
    }
  }

  /** With a unique name, a lookup on any reachable cache is the linear lookup. */
  lemma UniqueNameLookup(ev: Event, cache: Cache, name: string)
    requires Refines(ev, cache)
    requires UniqueName(ev, name)
    ensures FindByName(ev, cache, name).result == FirstNamed(ev, name, 0)
  {
    hide FindPropertySize, ProbeIndex;
    var n := |cache.slices|;
    assert n <= Walkable(ev);
    match Probe(cache, name, 0)
    case Some(idx) =>
      WalkFollowsSchema(ev, n, idx);
      WalkPrefix(ev, idx, n);
      WalkPrefix(ev, idx + 1, n);
      FirstNamedSkips(ev, name, 0, idx);
    case None =>
      forall j | 0 <= j < n ensures ev.properties[j].name != name {
        ProbeMisses(cache, name);
        WalkFollowsSchema(ev, n, j);
      }
      FirstNamedSkips(ev, name, 0, n);
      ParseUntilRefines(ev, cache, name);
  }

  /** On a cache holding two entries of the same name, the lookup after a hit finds another one. */
  lemma SecondProbeMoves(cache: Cache, name: string, i: nat, j: nat) returns (first: nat, second: nat)
    requires i < j < |cache.slices| && cache.nextProbe == 0
    requires cache.slices[i].property.name == name && cache.slices[j].property.name == name
    ensures first < second < |cache.slices|
    ensures Probe(cache, name, 0) == Some(first)
    ensures Probe(cache.(nextProbe := ProbeIndex(|cache.slices|, first, 1)), name, 0) == Some(second)
  {
    hide ProbeIndex;
    var len := |cache.slices|;
    ProbeDoesNotWrap(len, 0, i);
    first := ProbeStopsBy(cache, name, 0, i);
    ProbeDoesNotWrap(len, 0, first);
    ProbeDoesNotWrap(len, first, 1);
    ProbeDoesNotWrap(len, first + 1, j - first - 1);
    var step := ProbeStopsBy(cache.(nextProbe := first + 1), name, 0, j - first - 1);
    ProbeDoesNotWrap(len, first + 1, step);
    second := first + 1 + step;
  }

  /** Looking up a name no property bears caches every property the walk can locate. */
  lemma {:induction false} AbsentNameParsesAll(ev: Event, cache: Cache, absent: string)
    requires Refines(ev, cache)
    requires forall k :: 0 <= k < |ev.properties| ==> ev.properties[k].name != absent
    ensures ParseUntil(ev, cache, absent).result.Err?
    ensures |ParseUntil(ev, cache, absent).cache.slices| == Walkable(ev)
    ensures ParseUntil(ev, cache, absent).cache.nextProbe == cache.nextProbe
    decreases |ev.properties| - |cache.slices|
  {
    hide NextSlice, ParseNext;
    assert |cache.slices| <= Walkable(ev);
    if |cache.slices| < |ev.properties| {
      ParseNextRefines(ev, cache);
      ParseNextKeepsProbe(ev, cache);
      if ParseNext(ev, cache).result.Ok? {
        AbsentNameParsesAll(ev, ParseNext(ev, cache).cache, absent);
      }
    }
  }

  lemma ParseNextKeepsProbe(ev: Event, cache: Cache)
    ensures ParseNext(ev, cache).cache.nextProbe == cache.nextProbe
    ensures ParseNext(ev, cache).result.Err? ==> ParseNext(ev, cache).cache == cache
  {
    hide NextSlice;
  }

  lemma RunAbsentName(ev: Event, absent: string)
    requires forall k :: 0 <= k < |ev.properties| ==> ev.properties[k].name != absent
    ensures Refines(ev, Run(ev, [ByName(absent)]))
    ensures |Run(ev, [ByName(absent)]).slices| == Walkable(ev)
    ensures Run(ev, [ByName(absent)]).nextProbe == 0
  {
    hide NextSlice, ParseUntil;
    var ops := [ByName(absent)];
    assert ops[..0] == [];
    assert Run(ev, []) == EMPTY_CACHE;
    EveryHistoryRefinesWalk(ev, ops);
    AbsentNameParsesAll(ev, EMPTY_CACHE, absent);
  }

  lemma RunThenApply(ev: Event, ops: seq<Lookup>, op: Lookup)
    ensures Run(ev, ops + [op]) == Apply(ev, Run(ev, ops), op)
  {
    hide Apply;
    assert (ops + [op])[..|ops|] == ops;
  }

  /** With two walked properties of the same name: look up a name no property bears, which parses
      everything, then that name twice. The two lookups find two different properties. */
  lemma RepeatedNameLookup(ev: Event, name: string, i: nat, j: nat, absent: string)
    requires i < j < Walkable(ev)
    requires ev.properties[i].name == name && ev.properties[j].name == name
    requires forall k :: 0 <= k < |ev.properties| ==> ev.properties[k].name != absent
    ensures var once, twice := [ByName(absent)], [ByName(absent)] + [ByName(name)];
            && FindByName(ev, Run(ev, once), name).result.Ok?
            && FindByName(ev, Run(ev, twice), name).result.Ok?
            && FindByName(ev, Run(ev, once), name).result != FindByName(ev, Run(ev, twice), name).result
  {
    hide ProbeIndex, NextSlice, Run;
    RunAbsentName(ev, absent);
    RunThenApply(ev, [ByName(absent)], ByName(name));
    WalkFollowsSchema(ev, Walkable(ev), i);
    WalkFollowsSchema(ev, Walkable(ev), j);
    var _, _ := SecondProbeMoves(Run(ev, [ByName(absent)]), name, i, j);
  }

  /** A name longer than every name of the event. */
  lemma {:induction false} LongerName(properties: seq<Property>) returns (name: string)
    ensures forall k :: 0 <= k < |properties| ==> |properties[k].name| < |name|
  {
    if properties == [] {
      name := "";
    } else {
      var rest := LongerName(properties[1..]);
      name := properties[0].name + rest + "x";
      forall k | 0 <= k < |properties| ensures |properties[k].name| < |name| {
        assert k > 0 ==> properties[k] == properties[1..][k - 1];
      }
    }
  }

  ghost predicate OnlyByName(ops: seq<Lookup>) {
    forall k :: 0 <= k < |ops| ==> ops[k].ByName?
  }

  /** The exact condition for lookups by name to be independent of the history, whether it holds
      positional accesses or, as every caller's does, lookups by name only: a repeated lookup sees the
      same property unless the walk locates two of that name. */
  lemma NameLookupIsHistoryFreeIff(ev: Event, name: string)
    ensures (forall ops: seq<Lookup> :: FindByName(ev, Run(ev, ops), name).result == FirstNamed(ev, name, 0))
            <==> UniqueName(ev, name)
    ensures (forall ops: seq<Lookup> :: OnlyByName(ops) ==>
               FindByName(ev, Run(ev, ops), name).result == FirstNamed(ev, name, 0))
            <==> UniqueName(ev, name)
  {
    hide FindPropertySize, ProbeIndex, FindByName, Run;
    if UniqueName(ev, name) {
      forall ops: seq<Lookup>
        ensures FindByName(ev, Run(ev, ops), name).result == FirstNamed(ev, name, 0)
      {
        EveryHistoryRefinesWalk(ev, ops);
        UniqueNameLookup(ev, Run(ev, ops), name);
      }
    } else {
      var i, j :| 0 <= i < j < Walkable(ev) && ev.properties[i].name == name && ev.properties[j].name == name;
      var absent := LongerName(ev.properties);
      RepeatedNameLookup(ev, name, i, j, absent);
      assert OnlyByName([ByName(absent)]) && OnlyByName([ByName(absent)] + [ByName(name)]);
    }
  }
}
