# Verified model of ferrisetw2

ferrisetw2 consumes Event Tracing for Windows (ETW) sessions. This project models four of its components
in Dafny and proves properties of them over all inputs, runs and interleavings:

* **Decoding and serialization.** A schema, rebuilt as a tree from a flat array, drives an incremental and
  cached walk over the packed bytes of an event; the serializer slices structures again out of the located
  bytes. `Bytes`, `TdhTypes`, `Sizing`, `Walk`, `ParseCache`, `Parser`, `PropertyTable`, `SerializeSpec`,
  `Serializer`, `TwoPasses`, `FixedLayout`, `SerializeShape`, `Document`,
  `Decode`, `Scalars`, `WireFormat`, `StructFormat`.
* **Session and dispatch protocols.** Runtime enables and disables under a lock, the reference-counted
  registry of callback contexts, the provider registry, and the guard around a session being started.
  `ProviderRegistry`, `SessionProtocol`, `SessionSafety`, `SessionOutcomes`, `ContextRegistry`, `TraceStart`.
* **The schema cache**, whose lookup, build and store are separate steps. `SchemaCache`.
* **Calendar arithmetic and small binary formats.** `Time`, `EventFilters`, `EventName`, `SidItem`.

## How the system is represented

Objects the source mutates are classes (`Parser`, `PropertyIterator`, `FlatTable`, `ProviderRegistry`,
`BufferCounters`, `SchemaLocator`, `Os`, `StartedSessionGuard`) whose methods keep the source's loops and are
proved equal to functions on values; the lemmas are about those functions. Concurrent protocols are state
machines whose steps are single atomic operations, lock acquisitions or OS calls, run by schedules chosen
freely.

`usize` is 64 bits wide and the machine is little-endian. Multiplications the source checks are checked;
sums it does not check wrap around, as in a build without overflow checks (a build with them panics there).
Windows is an oracle: `TdhGetPropertySize` is any function of the record and the property's name, OS calls
succeed or fail as a script says, allocation succeeds or fails as told. Leaf values are rendered by an
arbitrary partial function, and UTF-8 validity is an arbitrary predicate. A build that overflows the 32-bit
event counters or the `usize` id counter is not considered: ids and counters are unbounded.

## Where the code is not what its comments suggest

* `src/parser.rs:455-458` says a lookup keeps first-match semantics for repeated names. Probing starts after
  the last hit, so repeating a lookup can return a later property of the same name.
  `ParseCache.NameLookupIsHistoryFreeIff` gives the exact condition, `ParseCache.RepeatedNameLookup` the
  failing history.
* `src/ser.rs:1587-1588` says strict mode fails instead of emitting null. It still writes null for a
  structure member or array element that cannot be located: `SerializeShape.StrictHasNoNullIff` says
  exactly when a strict document is free of nulls, `SerializeShape.StrictStillWritesNull` gives an event
  whose strict document holds one.
* `parse_property` has no guard against a structure that contains itself:
  `PropertyTable.ParsingTerminatesIff` says exactly when it returns, `PropertyTable.ParsingMayNotReturn`
  gives a table on which it does not.
* The sum of members' fixed sizes is not checked: `FixedLayout.FixedLayoutTilesIff` says exactly when the
  fixed size of a structure is what its members occupy, `FixedLayout.FixedSizeCanWrap` gives a structure
  whose fixed size is zero though its members take 2^64 bytes.

## Model

| member | source | states |
|---|---|---|
| TdhTypes.IndexValueFromBytes | src/native/tdh_types.rs:48-56 | a length or count is read from exactly the widths 1, 2, 4 and 8, little-endian, and always fits `usize` |
| TdhTypes.SchemaLengthBytes | src/native/tdh_types.rs:430-435 | a schema length converts to its exact number of bytes, or is refused when that does not fit |
| Sizing.FixedSizeIsWalkSize | src/parser.rs:182-434 | a size fixed by the schema is the size the walk uses, whatever was parsed, whatever follows, whatever TDH would answer |
| Sizing.MemberSizeIsWalkSize | src/ser.rs:1509-1575 | where the serializer sizes a structure member, the walk computes the same size on the same bytes |
| Sizing.ValueSizedWithoutTdhIff | src/parser.rs:205-342 | with TDH failing, the walk sizes a value exactly where the serializer sizes it as a member, or in the three cases only the walk handles and the serializer does not |
| Sizing.ByReferenceSizeIsExact | src/parser.rs:226-240 | a size held by another property is the exact unbounded product when it fits, deferred to TDH when it does not, for every carrier value |
| Sizing.ArrayByReferenceSizeIsExact | src/parser.rs:344-388 | the same for every plain array, empty ones included |
| Sizing.TdhAskedIff | src/parser.rs:182-434 | TDH is asked exactly where neither the schema, nor the bytes, nor an earlier property gives the size; its answer is then the size, and makes no difference anywhere else |
| Sizing.FixedArrayIff | src/native/tdh_types.rs:206-226 | the schema alone fixes the size of an array exactly when its count and element length are literal (or its type has its own) and the product fits |
| Walk.Walkable | src/parser.rs:476-508 | the walk succeeds exactly up to some number of properties |
| Walk.WalkPrefix | src/parser.rs:476-508 | a longer walk starts with every shorter one |
| Walk.WalkErrorSticks | src/parser.rs:476-508 | once the walk fails, every longer walk fails with that error |
| Walk.WalkFollowsSchema | src/parser.rs:476-508 | the k-th slice belongs to the k-th property |
| Walk.WalkTiles | src/parser.rs:476-508 | the slices laid end to end are exactly the buffer up to the sum of their sizes |
| ParseCache.ParseNextRefines | src/parser.rs:476-508 | one parsing step keeps the cache a prefix of the from-scratch walk, and fails exactly when that walk does |
| ParseCache.EveryHistoryRefinesWalk | src/parser.rs:442-508 | after any sequence of lookups by name and index, failed ones included, the cache is a prefix of the from-scratch walk |
| ParseCache.EveryHistoryTiles | src/parser.rs:476-508 | after any sequence of lookups the cached slices tile a prefix of the user buffer, and the cached offset is the sum of their sizes |
| ParseCache.IndexLookupIsHistoryFree | src/parser.rs:530-539 | positional access gives slice i of the from-scratch walk, or its error, whatever happened before |
| ParseCache.ProbeOrderIsPermutation | src/parser.rs:447-453 | the wrapping probe visits every cached entry exactly once |
| ParseCache.UniqueNameLookup | src/parser.rs:442-469 | with a unique name, a lookup on any reachable cache is the plain linear lookup |
| ParseCache.AbsentNameParsesAll | src/parser.rs:442-469 | looking up a name no property bears caches exactly what the walk can locate |
| ParseCache.RepeatedNameLookup | src/parser.rs:442-469 | with two located properties of one name, looking up an absent name and then that name twice finds two different ones |
| ParseCache.NameLookupIsHistoryFreeIff | src/parser.rs:442-469 | lookups of a name are independent of the history, and of the histories made of lookups by name only, if and only if the walk locates at most one property of that name |
| Parser.Parser.ParseNextProperty | src/parser.rs:476-508 | the method changes the cache as its specification does |
| Parser.Parser.FindProperty | src/parser.rs:442-469 | the probing and parsing loops return what the specification returns and leave its cache |
| Parser.Parser.PropertyBytesAt | src/parser.rs:530-539 | the loop returns what the specification returns and leaves its cache |
| PropertyTable.PropertyIterator.Next | src/native/tdh.rs:357-364 | yields the property at the next index, then stops at the top-level count |
| PropertyTable.PropertyIterator.ParseOne | src/native/tdh.rs:288-336 | the recursive method builds the specified property |
| PropertyTable.PropertyIterator.ParseRegion | src/native/tdh.rs:341-351 | the loop builds the members of a clamped region in order |
| PropertyTable.FlatTable.FlattenProps | src/parser.rs:1324-1342 | the two loops append what the flattening function says, or report an index that does not fit 16 bits |
| PropertyTable.FlattenRepresents | src/parser.rs:1324-1342 | flattening keeps earlier entries, and each specification is represented by its entry with its members' block behind it |
| PropertyTable.FlattenCounts | src/parser.rs:1324-1342 | flattening writes exactly one entry per property of the forest |
| PropertyTable.FlattenParsesBack | src/native/tdh.rs:225-241 | flattening succeeds whenever the entries are fewer than an index can tell apart; parsing the flattened forest yields exactly its top-level trees in order, within as many nested calls as entries |
| PropertyTable.SchemaRoundTrip | src/native/tdh_types.rs:255-325 | describe any forest of properties as entries, one flag telling each index from a literal and a count above one an array from a value; flattened and parsed back, the very same forest is there |
| PropertyTable.ParsedIsDescribable | src/native/tdh.rs:288-336 | nothing but such properties is ever parsed: no array has a literal count of zero or one |
| PropertyTable.IsTopLevel | src/native/tdh.rs:225-241 | all entries are top-level when TDH did not count them, else as many as it counted and there are |
| PropertyTable.ParsingTerminatesIff | src/native/tdh.rs:288-351 | parsing an entry returns if and only if no structure it meets contains itself, then within as many nested calls as entries |
| PropertyTable.ParsingMayNotReturn | src/native/tdh.rs:288-336 | a one-entry table whose structure contains itself is never parsed to the end |
| Serializer.TakeMember | src/ser.rs:1563-1575 | a member is sliced at the cursor and the cursor advances by its size |
| Serializer.FindElementEnd | src/ser.rs:1639-1645 | the loop finds where an element ends, or that it cannot be bounded |
| Serializer.ResolveCount | src/ser.rs:1760-1770 | resolving a count through the parser cache gives the value of the from-scratch walk |
| Serializer.SerializeProperty | src/ser.rs:1687-1746 | emits the specified value whatever the state of the parser cache |
| Serializer.SerializeStruct | src/ser.rs:1592-1619 | emits the specified entries |
| Serializer.SerializeStructArray | src/ser.rs:1648-1679 | emits the specified items |
| Serializer.SerializeEvent | src/ser.rs:490-522 | emits the specified document |
| TwoPasses.MemberSizeIgnoresTail | src/ser.rs:1509-1555 | cutting the buffer anywhere past a member leaves its size unchanged |
| TwoPasses.PassesAgree | src/ser.rs:1636-1679 | an element's own bytes yield the same member slices as the whole array, all of them, and together they are the element |
| TwoPasses.BoundedElementIsFullyLocated | src/ser.rs:1655-1676 | an element the first pass bounded is serialized member by member from where that pass found them, never taking the null branch |
| TwoPasses.SerSlicedEntries | src/ser.rs:1592-1619 | located members are serialized from their slices under their names, the others are null |
| FixedLayout.FixedLayoutTilesIff | src/native/tdh_types.rs:227-240 | given exactly its fixed size, a property is tiled by its parts at every level of nesting if and only if no declared sum wraps around |
| FixedLayout.FixedSizeCanWrap | src/native/tdh_types.rs:227-240 | a structure whose declared sum wraps to zero and whose members do not tile its bytes |
| FixedLayout.BackwardCountTilesIff | src/parser.rs:393-419 | an array counted by an earlier property has exactly the size for the count the serializer reads again, and that many elements tile it if and only if no sum wraps (or it is empty) |
| FixedLayout.TiledElementsAreMaps | src/ser.rs:1648-1679 | of elements that tile their buffer, the i-th item holds every member's own value, read from the i-th element |
| FixedLayout.FixedLayoutHasNoNull | src/ser.rs:1592-1679 | a fixed layout none of whose sums wraps serializes in strict mode without a null at any level |
| FixedLayout.ElementsTileIff | src/ser.rs:1648-1679 | the same for any number of elements over a buffer of the computed size |
| SerializeShape.EventShaped | src/ser.rs:490-522 | lenient serialization never fails; any document has one entry per property in schema order, shaped like its property at every level, null where the walk does not reach |
| SerializeShape.EntriesAreValues | src/ser.rs:499-519 | the entry of each located property is written by `ser_property` from that property's own bytes |
| Document.PropertyDescribed | src/ser.rs:1592-1746 | what is written for a property says exactly what its bytes do, at every level: leaves rendered by their decoder from their own slices, members by name, as many elements as declared; strict mode succeeds exactly when all of it decodes |
| Document.OneDocument | src/ser.rs:1592-1746 | only one document fits that description |
| Document.DocumentIff | src/ser.rs:490-522 | the event serializer returns a document if and only if it is the one the event's bytes describe and, in strict mode, every property is located and decodes |
| Document.LeafEntryIsDecoded | src/ser.rs:1724-1745 | the entry of a located plain property is a text exactly when it has a handler that decodes its bytes to that text; otherwise it is null, in lenient mode only |
| SerializeShape.PropertyShaped | src/ser.rs:1687-1746 | a structure is a map with one entry per member, a structure array has exactly the resolved number of items |
| SerializeShape.StrictSuccessIsLenient | src/ser.rs:490-522 | when strict serialization succeeds, the lenient document is identical and every property was located |
| SerializeShape.LocatedIffNoNull | src/ser.rs:1592-1679 | the same for one property: the null branches are exactly its unlocatable members and elements |
| SerializeShape.StrictHasNoNullIff | src/ser.rs:1592-1679 | a strict document has no null if and only if every member and element of every property can be located in its bytes, at every level |
| SerializeShape.StrictStillWritesNull | src/ser.rs:1600-1606 | an event that strict serialization accepts, writing null for a text whose length an earlier property carries |
| Decode.WalkedContentDecodes | src/parser.rs:742-812 | a slice located by content is never refused by its decoder for its length: strings only for their encoding, counted binaries never |
| Decode.WalkedWideStringIsEven | src/parser.rs:846-852 | a located wide string has an odd number of bytes only when TDH said so |
| Decode.StringDecodesIff | src/parser.rs:843-931 | exactly which bytes each text decoder accepts, and how much of a SID it reads |
| Scalars.ScalarReadsBack | src/parser.rs:644-1110 | every value of every fixed-width type, written in as many bytes as its decoder's result type has, is returned by that decoder |
| Scalars.WrittenWidth | src/native/tdh_types.rs:477-494 | the width sizing goes by is the width of what is written |
| Scalars.FileTimeIsItsBytes | src/native/time.rs:78-103 | the quad of a FILETIME is its eight bytes read as one little-endian signed integer |
| WireFormat.FieldSized | src/parser.rs:182-434 | in front of any bytes, the walk sizes a field as its encoding, ignoring the schema length of every field that has a size of its own |
| WireFormat.ArrayFieldSized | src/parser.rs:344-388 | an array of pointers, fixed-size, declared-length or carried-length elements, with a literal or carried count, is sized as its encoding |
| WireFormat.WalkUndoesLayout | src/parser.rs:476-508 | walking packed fields returns each field's encoding, carriers and trailing data included |
| WireFormat.LayoutDecodesBack | src/parser.rs:843-931 | every field of a layout is located where it was packed; integers, characters, strings (terminated, counted, of declared or carried length, trailing), counted and sized binaries and SIDs decode to their content |
| WireFormat.TextDecodes | src/parser.rs:742-812 | strings decode to the text that was encoded |
| WireFormat.SizedContentIsDecoded | src/parser.rs:843-871 | text of a declared length, or of a length an earlier field carries, decodes without its padding; a binary decodes whole |
| WireFormat.AnyBytesAreText | src/parser.rs:846-871 | every byte string is the encoding of such a narrow text, every even one of a wide text |
| WireFormat.BytesDecode | src/parser.rs:1190-1205 | counted binaries, hexdumps and SIDs decode to the bytes that were encoded |
| WireFormat.ScalarDecodes | src/parser.rs:644-666 | the slice of a fixed-width value, whatever length its schema gives, is accepted by its type's decoder and returns the value; a pointer too |
| StructFormat.MemberSized | src/ser.rs:1509-1575 | in front of any bytes, a structure member is sized as its encoding |
| StructFormat.StructureIsSlicedBack | src/ser.rs:1592-1645 | a packed structure is sliced back into the encodings of its fields and ends where they do |
| StructFormat.ElementsAreSlicedBack | src/ser.rs:1636-1679 | every element of a packed structure array, whatever its size, is found where it was packed and sliced back into the encodings of its own fields |
| ProviderRegistry.ProviderRegistry.Add | src/trace/callback_data.rs:77-83 | appends to the registration order and keeps the index exact |
| ProviderRegistry.ProviderRegistry.RemoveAllByGuid | src/trace/callback_data.rs:87-97 | removes every entry of the GUID, says how many, leaves no empty bucket |
| ProviderRegistry.ProviderRegistry.RemoveOne | src/trace/callback_data.rs:102-119 | removes one instance and says whether it was there, leaves no empty bucket |
| ProviderRegistry.ProviderRegistry.OnEvent | src/trace/callback_data.rs:251-276 | an event goes exactly once to each entry of its GUID, in registration order |
| ProviderRegistry.OfGuidWithoutGuid | src/trace/callback_data.rs:87-97 | removing a GUID empties its bucket and leaves the others alone |
| ProviderRegistry.OfGuidWithout | src/trace/callback_data.rs:102-119 | removing an instance from the order removes it from its bucket |
| ProviderRegistry.DispatchedIffKept | src/trace/callback_data.rs:76-120 | over every history, an event reaches exactly the instances of its GUID that were added and not removed since |
| ProviderRegistry.BufferCounters.OnBuffer | src/trace/callback_data.rs:278-286 | one buffer callback records both its reports: each counter becomes the greater of itself and the report |
| ProviderRegistry.CountersAreMaximum | src/trace/callback_data.rs:278-286 | the counters are the greatest of the reports |
| ProviderRegistry.CountersIgnoreInterleaving | src/trace/callback_data.rs:278-286 | the counters end the same however the callbacks' steps interleave |
| SessionSafety.UnderwayStep | src/trace.rs:756-850 | each stage of a mutation leaves the session where its commit says, a rollback exactly as it was found |
| SessionSafety.InvariantHolds | src/trace.rs:756-850 | mutual exclusion, freshness and serializability hold after every schedule |
| SessionSafety.EnabledIsRegistered | src/trace/callback_data.rs:45-56 | at every step a GUID enabled at OS level is registered; with no mutation under way the two sets are equal |
| SessionSafety.MutationsAreSerial | src/trace.rs:756-850 | with no mutation under way, the session is what the completed mutations give one at a time, and each reported the truth |
| SessionOutcomes.OutcomeIsOsAnswer | src/trace.rs:756-850 | over every schedule, every mutation is where the OS's answer to its own call puts it |
| SessionOutcomes.MutationSucceedsIff | src/trace.rs:756-850 | an enable succeeds, and a disable removes, if and only if the OS accepted its call; it is rejected if and only if the OS refused; a disable finds nothing registered exactly when it never asked |
| SessionOutcomes.DispatchInOrder | src/trace/callback_data.rs:251-276 | the callbacks a dispatch entered so far are those of its registry snapshot, in order, each once |
| SessionOutcomes.FinishedDispatchRanAll | src/trace/callback_data.rs:266-275 | a dispatch that is over ran all of them |
| SessionOutcomes.CallbacksMayMutate | src/trace/callback_data.rs:38-56 | a running callback may enable and disable providers, an idle thread may too and may receive any event |
| SessionSafety.FailureLeavesNoTrace | src/trace.rs:776-781 | a failed enable or disable leaves the registry and the OS as it found them |
| SessionSafety.FailureRestores | src/trace.rs:756-850 | when a failed mutation is about to release the lock, the registry and the OS are as they were when it acquired it, whatever others did meanwhile |
| SessionSafety.HoldingKeepsLog | src/trace/callback_data.rs:192-196 | as long as one thread holds the lock, no mutation completes |
| SessionSafety.HolderExcludesOthers | src/trace/callback_data.rs:192-196 | while a mutation holds its lock, no other thread changes the registry, the OS or the log |
| SessionSafety.LocksAreOrdered | src/trace/callback_data.rs:53-55 | locks are taken in the order callbacks, session mutations, registry |
| SessionSafety.NoDeadlock | src/trace/callback_data.rs:38-56 | in every reachable state, whatever a started thread waits for is, through at most three others each blocked by the next, held by a thread that can move |
| ContextRegistry.LiveExactlyWhileHeld | src/native/evntrace.rs:66-93 | callback data is live exactly while its trace, the registry or a dispatch holds it, its count being the number of holders |
| ContextRegistry.HeldDataIsNeverFreed | src/native/evntrace.rs:76-84 | unregistering, dropping and finishing never meet freed data |
| ContextRegistry.EventsReachTheirTrace | src/native/evntrace.rs:213-239 | a dispatch runs on the data of the trace that minted the event's id, and no other trace has it |
| ContextRegistry.RegisteredIdsAreDispatched | src/native/evntrace.rs:213-239 | delivering an event whose id was registered and not retired since starts a dispatch, on the data minted for it |
| ContextRegistry.IdsAreNeverReused | src/native/evntrace.rs:118-138 | an id minted later differs from every earlier one |
| ContextRegistry.UnregisterRetires | src/native/evntrace.rs:183-195 | unregistering a context retires its id |
| ContextRegistry.RetiredIdsMissForever | src/native/evntrace.rs:642-665 | once retired, an id misses the registry in every later state |
| ContextRegistry.StepKeepsCounts | src/native/evntrace.rs:92-203 | every step conserves the reference counts |
| TraceStart.Os.Open | src/native/evntrace.rs:356-389 | a context stays registered exactly when the consumer was opened |
| TraceStart.Os.Close | src/native/evntrace.rs:642-665 | closing retires the context |
| TraceStart.Os.Enable | src/native/evntrace.rs:420-459 | filters that cannot be built are an error and no call is made; otherwise one call is, and its refusal is the error |
| TraceStart.Os.Configure | src/trace.rs:1263-1294 | success means the kernel settings were made, then every provider that needs it enabled; failure stops at the first refusal, and there was one unless the builder is unusable |
| TraceStart.StartedSessionGuard.HandOver | src/trace.rs:1068-1075 | handing over takes the consumer and disarms the guard |
| TraceStart.StartedSessionGuard.Drop | src/trace.rs:1078-1099 | an armed guard closes the consumer it holds, then stops the session; a disarmed one does nothing |
| TraceStart.StartGuarded | src/trace.rs:1254-1329 | for every script: success without any close or stop, settings and enables before the opening and captures after it, or exactly one stop as the last call, after exactly one close if the consumer was opened, with no context left registered; before that cleanup only the last call was refused, and one was unless the builder is unusable |
| TraceStart.OpenGuarded | src/trace.rs:1296-1317 | the consumer is opened and handed to the guard, then every capturing provider of a user trace is asked for its state |
| TraceStart.Start | src/trace.rs:1215-1329 | for the whole start: a name that cannot be converted is refused before any call, a refused stop or start ends it with nothing opened or closed, and once the session runs the promise of `StartGuarded` holds, every provider that needs it being enabled before the consumer is opened |
| TraceStart.FailedAfterOpening | src/trace.rs:1300-1318 | a failure past opening closes once and stops once |
| SchemaCache.SchemaLocator.StoreSchema | src/schema_locator.rs:188-200 | stores as specified and keeps the count exact and bounded |
| SchemaCache.SchemaLocator.EventSchema | src/schema_locator.rs:155-181 | a hit changes nothing, a failed build changes nothing, a build is stored under its cache name |
| SchemaCache.StoreKeepsBounded | src/schema_locator.rs:188-200 | the count is the number of cached schemas, at most 4096 |
| SchemaCache.StoreKeepsEntries | src/schema_locator.rs:188-200 | no entry is replaced or removed, and the caller gets the cached instance if there is one |
| SchemaCache.CacheStaysBoundedAndFaithful | src/schema_locator.rs:155-201 | over every interleaving the cache is bounded, and every answer describes the very event that asked, as building afresh would |
| SchemaCache.EntriesPersist | src/schema_locator.rs:155-201 | a cached schema stays cached through every later step |
| SchemaCache.LaterAnswersAgree | src/schema_locator.rs:183-187 | once a key and name are cached, every later answer is that very instance |
| SchemaCache.OneInstancePerKind | src/schema_locator.rs:155-201 | until the cache is full, all callers asking for events of one kind got the same instance, however their builds raced |
| SchemaCache.AnsweredKindIsNotRebuilt | src/schema_locator.rs:158-168 | until then, asking again for a kind already answered builds nothing |
| SchemaCache.UncachedOnlyWhenFull | src/schema_locator.rs:195-199 | a built schema stays uncached if and only if the cache is full and has no entry of that kind |
| Time.DaysFromCivilCounts | src/native/time.rs:43-55 | the day computation is a naive year by year, month by month count, for every valid date |
| Time.NextDayIsOneMore | src/native/time.rs:43-55 | it advances by one per calendar day |
| Time.QuadIsClampedExact | src/native/time.rs:143-160 | for every SYSTEMTIME, malformed or not, the saturating steps give the exact count clamped to 64 bits |
| Time.QuadIsMonotone | src/native/time.rs:143-160 | the conversion keeps the order of valid times, strictly while 64 bits suffice |
| Time.UnixMillisCounts | src/native/time.rs:164-166 | the Unix timestamp is the naive count of days and milliseconds |
| Time.ClocksAgree | src/native/time.rs:60-69 | the FILETIME of a SYSTEMTIME has the same Unix timestamp |
| Time.QuadRoundTrip | src/native/time.rs:78-94 | splitting a 64-bit value into halves and joining them gives it back |
| Time.FileTimeRoundTrip | src/native/time.rs:78-94 | joining two halves and splitting them gives them back |
| Time.MillisRoundDownIff | src/native/time.rs:60-69 | the millisecond timestamp is the nanosecond one rounded down exactly from 1601 on or at whole milliseconds, and rounded up otherwise |
| Time.MillisMayRoundUp | src/native/time.rs:60-69 | one tick before 1601 the millisecond timestamp is later than the nanosecond one |
| EventFilters.TryNewByExecutableNames | src/provider/event_filter.rs:262-296 | exactly which name lists are accepted, and their payload |
| EventFilters.ExecutableNamesRecovered | src/provider/event_filter.rs:262-296 | splitting a payload at the semicolons up to the NUL recovers the names |
| EventFilters.FillNames | src/provider/event_filter.rs:339-345 | the fill loop ends exactly at the allocated size, having written every terminated name and not the header |
| EventFilters.TryNewByEventNames | src/provider/event_filter.rs:303-348 | exactly which filters are accepted, and their payload |
| EventFilters.EventNamesRecovered | src/provider/event_filter.rs:303-348 | the names, their count and every header field are read back from a payload |
| EventFilters.TryNewByEventIdList | src/provider/event_filter.rs:221-256 | exactly which id lists are accepted, their payload and its size |
| EventFilters.EventIdsRecovered | src/provider/event_filter.rs:221-256 | the ids, their count and the direction are read back from a payload |
| EventFilters.BuildDescriptors | src/native/evntrace.rs:396-417 | filters are accepted exactly when all can be built and their types are pairwise distinct |
| EventName.GetEventName | src/native/etw_types/extended_data.rs:409-441 | the tag loop terminates and the method returns the specified name |
| EventName.NameIffLaidOut | src/native/etw_types/extended_data.rs:409-441 | a name is found exactly in the blobs laid out within the trusted size, and is the name laid out there |
| EventName.WrittenNameIsRead | src/native/etw_types/extended_data.rs:380-390 | any tag chain, name without NUL and field data is read back |
| SidItem.FromRaw | src/native/etw_types/extended_data.rs:124-141 | a copied SID has exactly the size its header announces and starts the data |
| SidItem.SidRoundTrip | src/native/etw_types/extended_data.rs:111-167 | a whole SID is copied exactly and its sub-authorities read back; cut short anywhere it is dropped |

## Left out

- Win32, COM and TDH calls: oracles that succeed or fail.
- Where property values start (`property_values_start`): a parameter of the event.
- Numeric discriminants of in and out types, and out types other than IPv6: they select display formats only.
- Decoder selection (`get_parser`) and the rendering of leaves: an arbitrary partial function of the property and its bytes.
- Failures of the output serializer itself: emitting an entry always succeeds.
- Lossy UTF-16 decoding, UTF-8 validation and SID text: strings stop at code units, validated bytes and SID bytes.
- Array decoders: they depend on the alignment of the buffer, so nothing is claimed of decoding an array.
- IP and socket address decoders: flat field copies; floating-point values are their bits.
- Scalars with a declared length other than their own width: located like any field, but no decoder is claimed to read them.
- `stop` on a built trace followed by its drop: both attempt a close and a stop, only the guard promises exactly one.
- Panics in callbacks, lock poisoning, and the fairness of locks: a thread that may move need not be chosen.
- Callbacks reached through a file trace: a single callback behind one lock.
- Capturing provider state after a runtime enable: it changes neither the registry nor the enabled GUIDs.
- Filters by process id, kernel group masks, stack traces, and trace properties: fixed-layout copies.
- PropertyTable.FlatTable.FlattenProps: the list of structure positions the first loop collects is recomputed as base plus position in the second.
- ContextRegistry: the registry map is a field of the state machine, so the read and write locks around each access appear as atomic steps.
