/** The bounded cache of schemas. Looking a schema up, building it and storing it are three separate steps,
    taken by any number of threads without a lock held across them. */
module SchemaCache {
  import opened Wrappers

  datatype SchemaKey = SchemaKey(provider: nat, id: nat, version: nat, opcode: nat, level: nat)

  /** A built schema: the identity of the shared instance, and what it describes. */
  datatype Schema = Schema(instance: nat, content: string)

  const MAX_CACHED_SCHEMAS: nat := 4096

  datatype Cache = Cache(schemas: map<SchemaKey, map<string, Schema>>, len: nat)

  const EMPTY := Cache(map[], 0)

  /** Only manifest-free events are told apart by name. */
  function CacheName(key: SchemaKey, eventName: string): string {
    if key.id == 0 then eventName else ""
  }

  function Lookup(cache: Cache, key: SchemaKey, name: string): Option<Schema> {
    if key in cache.schemas && name in cache.schemas[key] then Some(cache.schemas[key][name]) else None
  }

  /** `store`: the cache it leaves, and the schema to use. The outer entry is created even when the cache
      is full. */
  function Store(cache: Cache, key: SchemaKey, name: string, built: Schema): (Cache, Schema) {
    var byName := if key in cache.schemas then cache.schemas[key] else map[];
    if name in byName then (cache, byName[name])
    else if cache.len < MAX_CACHED_SCHEMAS then
      (Cache(cache.schemas[key := byName[name := built]], cache.len + 1), built)
    else (cache.(schemas := cache.schemas[key := byName]), built)
  }

  /** The cached (key, name) pairs. */
  ghost function Entries(cache: Cache): set<(SchemaKey, string)> {
    set key, name | key in cache.schemas && name in cache.schemas[key] :: (key, name)
  }

  /** The bound is on the schemas, not on the outer keys. */
  ghost predicate Bounded(cache: Cache) {
    cache.len == |Entries(cache)| <= MAX_CACHED_SCHEMAS
  }

  class SchemaLocator {
    var schemas: map<SchemaKey, map<string, Schema>>
    var len: nat

    ghost function Value(): Cache
      reads this
    {
      Cache(schemas, len)
    }

    ghost predicate Valid()
      reads this
    {
      Bounded(Value())
    }

    constructor ()
      ensures Valid() && Value() == EMPTY
    {
      schemas := map[];
      len := 0;
      new;
      assert Entries(EMPTY) == {};
    }

    /** Whether or not the schema is cached, the caller gets the one to use from now on. */
    method StoreSchema(key: SchemaKey, name: string, built: Schema) returns (schema: Schema)
      requires Valid()
      modifies this
      ensures Valid()
      ensures (Value(), schema) == Store(old(Value()), key, name, built)
    {
      StoreKeepsBounded(Value(), key, name, built);
      var byName := if key in schemas then schemas[key] else map[];
      schemas := schemas[key := byName];
      assert key in old(schemas) ==> schemas == old(schemas);
      if name in byName {
        return byName[name];
      }
      if len < MAX_CACHED_SCHEMAS {
        byName := byName[name := built];
        schemas := schemas[key := byName];
        len := len + 1;
      }
      assert schemas == old(schemas)[key := byName];
      return built;
    }

    /** `event_schema` without interference: `build` is what building the schema would give, nothing when
        TDH fails. */
    method EventSchema(key: SchemaKey, eventName: string, build: Option<Schema>) returns (r: Option<Schema>)
      requires Valid()
      modifies this
      ensures Valid()
      ensures var name := CacheName(key, eventName);
              match Lookup(old(Value()), key, name)
              case Some(schema) => r == Some(schema) && Value() == old(Value())
              case None =>
                if build.None? then r == None && Value() == old(Value())
                else r == build && Value() == Store(old(Value()), key, name, build.value).0
    {
      var name := CacheName(key, eventName);
      if key in schemas {
        if name in schemas[key] {
          return Some(schemas[key][name]);
        }
      }
      if build.None? {
        return None;
      }
      var schema := StoreSchema(key, name, build.value);
      return Some(schema);
    }
  }

  lemma EntriesAfterStore(
    cache: Cache, key: SchemaKey, name: string, built: Schema, e: (SchemaKey, string))
    ensures e in Entries(Store(cache, key, name, built).0) <==>
              e in Entries(cache) || (e == (key, name) && cache.len < MAX_CACHED_SCHEMAS)
  {
  }

  lemma StoreKeepsBounded(cache: Cache, key: SchemaKey, name: string, built: Schema)
    requires Bounded(cache)
    ensures Bounded(Store(cache, key, name, built).0)
  {
    var after := Store(cache, key, name, built).0;
    forall e: (SchemaKey, string)
      ensures e in Entries(after) <==>
                e in Entries(cache) || (e == (key, name) && cache.len < MAX_CACHED_SCHEMAS)
    {
      EntriesAfterStore(cache, key, name, built, e);
    }
    if cache.len < MAX_CACHED_SCHEMAS {
      assert Entries(after) == Entries(cache) + {(key, name)};
    } else {
      assert Entries(after) == Entries(cache);
    }
  }

  /** Storing never replaces nor removes an entry, and hands out the cached one if there is one then. */
  lemma StoreKeepsEntries(cache: Cache, key: SchemaKey, name: string, built: Schema, key': SchemaKey, name': string)
    ensures var (after, schema) := Store(cache, key, name, built);
            && (Lookup(cache, key', name').Some? ==> Lookup(after, key', name') == Lookup(cache, key', name'))
            && (Lookup(after, key, name).Some? ==> schema == Lookup(after, key, name).value)
            && (Lookup(after, key, name).None? ==> cache.len >= MAX_CACHED_SCHEMAS && schema == built)
            && (Lookup(cache, key', name').None? && Lookup(after, key', name').Some? ==>
                  (key', name') == (key, name) && schema == built)
  {
  }

  // ---------- concurrent callers ----------

  datatype Thread =
    | Idle
    | Building(key: SchemaKey, name: string, ghost eventName: string)
    | Storing(key: SchemaKey, name: string, ghost eventName: string, built: Schema)

  /** A call that returned a schema, for an event of that name. */
  datatype Answer = Answer(key: SchemaKey, name: string, eventName: string, schema: Schema)

  datatype State = State(cache: Cache, threads: seq<Thread>, nextInstance: nat, ghost answers: seq<Answer>)

  datatype Action = Begin(key: SchemaKey, eventName: string) | Built(success: bool) | Finish

  /** What TDH decodes for an event, from its key and its own name. */
  type Builder = (SchemaKey, string) -> string

  /** The name only tells manifest-free events apart, those of id zero. */
  ghost predicate DependsOnKind(build: Builder) {
    forall key: SchemaKey, a, b :: key.id != 0 ==> build(key, a) == build(key, b)
  }

  ghost function Step(s: State, t: nat, action: Action, build: Builder): Option<State>
    requires t < |s.threads|
  {
    var th := s.threads[t];
    match action
    case Begin(key, eventName) =>
      if !th.Idle? then None
      else
        var name := CacheName(key, eventName);
        (match Lookup(s.cache, key, name)
         case Some(schema) => Some(s.(answers := s.answers + [Answer(key, name, eventName, schema)]))
         case None => Some(s.(threads := s.threads[t := Building(key, name, eventName)])))
    case Built(success) =>
      if !th.Building? then None
      else if !success then Some(s.(threads := s.threads[t := Idle]))
      else
        var built := Schema(s.nextInstance, build(th.key, th.eventName));
        Some(s.(threads := s.threads[t := Storing(th.key, th.name, th.eventName, built)],
                nextInstance := s.nextInstance + 1))
    case Finish =>
      if !th.Storing? then None
      else
        var (cache, schema) := Store(s.cache, th.key, th.name, th.built);
        Some(s.(cache := cache, threads := s.threads[t := Idle],
                answers := s.answers + [Answer(th.key, th.name, th.eventName, schema)]))
  }

  type Schedule = seq<(nat, Action)>

  /** The state a schedule leads to from an empty cache shared by `n` threads. */
  ghost function Run(n: nat, schedule: Schedule, build: Builder): Option<State> {
    if schedule == [] then Some(State(EMPTY, seq(n, _ => Idle), 0, []))
    else
      var before :- Run(n, schedule[..|schedule| - 1], build);
      var (t, action) := schedule[|schedule| - 1];
      if t < |before.threads| then Step(before, t, action, build) else None
  }

  /** Every schema handed out describes the very event it was asked for. */
  ghost predicate AnswersDescribe(s: State, build: Builder) {
    forall i :: 0 <= i < |s.answers| ==>
      s.answers[i].schema.content == build(s.answers[i].key, s.answers[i].eventName)
  }

  /** And so does every schema in the cache, for every event that will find it there, or on its way. */
  ghost predicate Faithful(s: State, build: Builder) {
    && AnswersDescribe(s, build)
    && (forall key, eventName :: Lookup(s.cache, key, CacheName(key, eventName)).Some? ==>
          Lookup(s.cache, key, CacheName(key, eventName)).value.content == build(key, eventName))
    && (forall t :: 0 <= t < |s.threads| && s.threads[t].Building? ==>
          s.threads[t].name == CacheName(s.threads[t].key, s.threads[t].eventName))
    && (forall t :: 0 <= t < |s.threads| && s.threads[t].Storing? ==>
          && s.threads[t].name == CacheName(s.threads[t].key, s.threads[t].eventName)
          && s.threads[t].built.content == build(s.threads[t].key, s.threads[t].eventName))
  }

  lemma StepKeepsFaithful(s: State, t: nat, action: Action, build: Builder)
    requires t < |s.threads| && Step(s, t, action, build).Some?
    requires Faithful(s, build) && DependsOnKind(build)
    ensures Faithful(Step(s, t, action, build).value, build)
  {
    hide Lookup, Store;
    var th := s.threads[t];
    if action.Finish? {
      var after := Step(s, t, action, build).value;
      forall key, eventName | Lookup(after.cache, key, CacheName(key, eventName)).Some?
        ensures Lookup(after.cache, key, CacheName(key, eventName)).value.content == build(key, eventName)
      {
        StoreKeepsEntries(s.cache, th.key, th.name, th.built, key, CacheName(key, eventName));
      }
      StoreKeepsEntries(s.cache, th.key, th.name, th.built, th.key, th.name);
    }
  }

  /** Over every interleaving: the cache counts its schemas and never exceeds the bound, and every caller
      gets what building afresh would describe. */
  lemma {:induction false} CacheStaysBoundedAndFaithful(n: nat, schedule: Schedule, build: Builder)
    requires Run(n, schedule, build).Some?
    ensures Bounded(Run(n, schedule, build).value.cache)
    ensures DependsOnKind(build) ==> Faithful(Run(n, schedule, build).value, build)
  {
    if schedule == [] {
      assert Entries(EMPTY) == {};
    } else {
      hide Faithful, Bounded, DependsOnKind;
      var (t, action) := schedule[|schedule| - 1];
      CacheStaysBoundedAndFaithful(n, schedule[..|schedule| - 1], build);
      var before := Run(n, schedule[..|schedule| - 1], build).value;
      if DependsOnKind(build) {
        StepKeepsFaithful(before, t, action, build);
      }
      if action.Finish? {
        var th := before.threads[t];
        StoreKeepsBounded(before.cache, th.key, th.name, th.built);
      }
    }
  }

  /** Entries survive every later step, and so do the answers given. */
  lemma {:induction false} EntriesPersist(
    n: nat, schedule: Schedule, more: Schedule, build: Builder, key: SchemaKey, name: string)
    requires Run(n, schedule + more, build).Some?
    ensures Run(n, schedule, build).Some?
    ensures var s, s' := Run(n, schedule, build).value, Run(n, schedule + more, build).value;
            && s.answers <= s'.answers
            && (Lookup(s.cache, key, name).Some? ==> Lookup(s'.cache, key, name) == Lookup(s.cache, key, name))
    decreases |more|
  {
    hide Lookup, Store;
    if more == [] {
      assert schedule + more == schedule;
    } else {
      var longer := schedule + more;
      assert longer[..|longer| - 1] == schedule + more[..|more| - 1];
      EntriesPersist(n, schedule, more[..|more| - 1], build, key, name);
      var (t, action) := longer[|longer| - 1];
      var before := Run(n, longer[..|longer| - 1], build).value;
      if action.Finish? {
        var th := before.threads[t];
        StoreKeepsEntries(before.cache, th.key, th.name, th.built, key, name);
      }
    }
  }

  /** Once a (key, name) is cached, every call for it that returns later returns that very instance,
      however the builds raced. */
  lemma {:induction false} LaterAnswersAgree(
    n: nat, schedule: Schedule, more: Schedule, build: Builder, key: SchemaKey, name: string, i: nat)
    requires Run(n, schedule + more, build).Some?
    requires Run(n, schedule, build).Some? && Lookup(Run(n, schedule, build).value.cache, key, name).Some?
    requires |Run(n, schedule, build).value.answers| <= i < |Run(n, schedule + more, build).value.answers|
    requires Run(n, schedule + more, build).value.answers[i].key == key
    requires Run(n, schedule + more, build).value.answers[i].name == name
    ensures Run(n, schedule + more, build).value.answers[i].schema
            == Lookup(Run(n, schedule, build).value.cache, key, name).value
    decreases |more|
  {
    hide Lookup, Store;
    assert schedule + [] == schedule;
    if more != [] {
      var longer := schedule + more;
      assert longer[..|longer| - 1] == schedule + more[..|more| - 1];
      var before := Run(n, longer[..|longer| - 1], build).value;
      EntriesPersist(n, schedule, more[..|more| - 1], build, key, name);
      if i < |before.answers| {
        LaterAnswersAgree(n, schedule, more[..|more| - 1], build, key, name, i);
      } else {
        var (t, action) := longer[|longer| - 1];
        if action.Finish? {
          var th := before.threads[t];
          StoreKeepsEntries(before.cache, th.key, th.name, th.built, key, name);
        }
      }
    }
  }

  /** A call that built its schema gets it back uncached only when the cache is full and nobody cached
      that kind first. */
  lemma UncachedOnlyWhenFull(n: nat, schedule: Schedule, build: Builder, t: nat)
    requires Run(n, schedule, build).Some?
    requires t < |Run(n, schedule, build).value.threads| && Run(n, schedule, build).value.threads[t].Storing?
    ensures var s := Run(n, schedule, build).value;
            var th, after := s.threads[t], Step(s, t, Finish, build).value;
            Lookup(after.cache, th.key, th.name).None?
            <==> |Entries(s.cache)| == MAX_CACHED_SCHEMAS && Lookup(s.cache, th.key, th.name).None?
  {
    CacheStaysBoundedAndFaithful(n, schedule, build);
  }

  /** Until the cache is full, every schema handed out is in it, under the name its event goes by. */
  ghost predicate AnswersCached(s: State) {
    && (forall t :: 0 <= t < |s.threads| && s.threads[t].Building? ==>
          s.threads[t].name == CacheName(s.threads[t].key, s.threads[t].eventName))
    && (forall t :: 0 <= t < |s.threads| && s.threads[t].Storing? ==>
          s.threads[t].name == CacheName(s.threads[t].key, s.threads[t].eventName))
    && (forall i :: 0 <= i < |s.answers| ==>
          && s.answers[i].name == CacheName(s.answers[i].key, s.answers[i].eventName)
          && (s.cache.len < MAX_CACHED_SCHEMAS ==>
                Lookup(s.cache, s.answers[i].key, s.answers[i].name) == Some(s.answers[i].schema)))
  }

  lemma StepKeepsCached(s: State, t: nat, action: Action, build: Builder)
    requires t < |s.threads| && Step(s, t, action, build).Some?
    requires AnswersCached(s)
    ensures AnswersCached(Step(s, t, action, build).value)
  {
    hide Lookup;
    var s', th := Step(s, t, action, build).value, s.threads[t];
    if action.Finish? {
      forall i | 0 <= i < |s'.answers| && s'.cache.len < MAX_CACHED_SCHEMAS
        ensures Lookup(s'.cache, s'.answers[i].key, s'.answers[i].name) == Some(s'.answers[i].schema)
      {
        StoreKeepsEntries(s.cache, th.key, th.name, th.built, s'.answers[i].key, s'.answers[i].name);
      }
    }
  }

  lemma {:induction false} AnswersStayCached(n: nat, schedule: Schedule, build: Builder)
    requires Run(n, schedule, build).Some?
    ensures AnswersCached(Run(n, schedule, build).value)
  {
    if schedule != [] {
      hide AnswersCached, Step;
      AnswersStayCached(n, schedule[..|schedule| - 1], build);
      var (t, action) := schedule[|schedule| - 1];
      StepKeepsCached(Run(n, schedule[..|schedule| - 1], build).value, t, action, build);
    }
  }

  /** Until the cache is full, all callers asking for events of one kind got the same instance, however their
      builds raced: events of one key, and of one name too when they are manifest-free. */
  lemma OneInstancePerKind(n: nat, schedule: Schedule, build: Builder, i: nat, j: nat)
    requires Run(n, schedule, build).Some?
    requires Run(n, schedule, build).value.cache.len < MAX_CACHED_SCHEMAS
    requires i < |Run(n, schedule, build).value.answers| && j < |Run(n, schedule, build).value.answers|
    ensures var a, b := Run(n, schedule, build).value.answers[i], Run(n, schedule, build).value.answers[j];
            a.key == b.key && (a.key.id != 0 || a.eventName == b.eventName) ==> a.schema == b.schema
  {
    hide Run;
    AnswersStayCached(n, schedule, build);
  }

  /** Asking again for a kind of event already answered, while the cache is not full, builds nothing: the
      same instance comes back at once. */
  lemma AnsweredKindIsNotRebuilt(n: nat, schedule: Schedule, build: Builder, i: nat, t: nat, eventName: string)
    requires Run(n, schedule, build).Some?
    requires Run(n, schedule, build).value.cache.len < MAX_CACHED_SCHEMAS
    requires i < |Run(n, schedule, build).value.answers|
    requires var a := Run(n, schedule, build).value.answers[i]; a.key.id != 0 || a.eventName == eventName
    requires t < |Run(n, schedule, build).value.threads| && Run(n, schedule, build).value.threads[t].Idle?
    ensures var s := Run(n, schedule, build).value;
            var s' := Step(s, t, Begin(s.answers[i].key, eventName), build);
            && s'.Some? && s'.value.threads == s.threads && s'.value.cache == s.cache
            && |s'.value.answers| == |s.answers| + 1
            && s'.value.answers[|s.answers|].schema == s.answers[i].schema
  {
    hide Run;
    AnswersStayCached(n, schedule, build);
  }
}
