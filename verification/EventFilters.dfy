/** Event filter payloads: the binary data handed to the OS when a provider is enabled with filters. */
module EventFilters {
  import opened Wrappers
  import opened Bytes
  import opened Decode
  import opened WireFormat

  datatype FilterError = EmptyFilter | BadName | TooLarge | TooMany | InvalidAllocation

  const MAX_EVENT_FILTER_DATA_SIZE: nat := 1024
  const MAX_EVENT_FILTER_EVENT_NAME_SIZE: nat := 4096
  const MAX_EVENT_FILTER_EVENT_ID_COUNT: nat := 64

  /** `try_new`: whether a payload of this size can be allocated. */
  function TryNew(dataSize: nat, maxSize: nat, allocates: bool): Result<(), FilterError> {
    if dataSize == 0 then Err(EmptyFilter)
    else if dataSize > maxSize then Err(TooLarge)
    else if !allocates then Err(InvalidAllocation)
    else Ok(())
  }

  // ---------- executable names ----------

  const SEMICOLON: u16 := 0x3B

  /** UTF-16 file names. */
  predicate UsableExecutableName(name: seq<u16>) {
    name != [] && SEMICOLON !in name && 0 !in name
  }

  predicate AllUsable(names: seq<seq<u16>>) {
    forall i :: 0 <= i < |names| ==> UsableExecutableName(names[i])
  }

  /** The names, separated by semicolons. */
  function Joined(names: seq<seq<u16>>): seq<u16> {
    if names == [] then []
    else if |names| == 1 then names[0]
    else Joined(names[..|names| - 1]) + [SEMICOLON] + names[|names| - 1]
  }

  /** The payload is one NUL-terminated string; the result is its data. */
  method TryNewByExecutableNames(names: seq<seq<u16>>, allocates: bool) returns (r: Result<seq<u16>, FilterError>)
    ensures r.Ok? <==> names != [] && AllUsable(names)
                       && 2 * (|Joined(names)| + 1) <= MAX_EVENT_FILTER_DATA_SIZE && allocates
    ensures r.Ok? ==> r.value == Joined(names) + [0]
  {
    if names == [] {
      return Err(EmptyFilter);
    }
    var wideNames: seq<u16> := [];
    for i := 0 to |names|
      invariant AllUsable(names[..i])
      invariant wideNames == Joined(names[..i])
    {
      var name := names[i];
      if name == [] || SEMICOLON in name || 0 in name {
        assert !UsableExecutableName(names[i]);
        return Err(BadName);
      }
      if i > 0 {
        wideNames := wideNames + [SEMICOLON];
      }
      wideNames := wideNames + name;
      assert names[..i + 1][..i] == names[..i];
    }
    assert names[..|names|] == names;
    wideNames := wideNames + [0];
    var allocation := TryNew(2 * |wideNames|, MAX_EVENT_FILTER_DATA_SIZE, allocates);
    if allocation.Err? {
      return Err(allocation.error);
    }
    return Ok(wideNames);
  }

  /** Reading a payload back: what comes before the first `end`. */
  function Until(units: seq<u16>, end: u16): seq<u16> {
    if units == [] || units[0] == end then [] else [units[0]] + Until(units[1..], end)
  }

  /** The pieces between separators. */
  function Split(units: seq<u16>, separator: u16): (r: seq<seq<u16>>)
    ensures |r| > 0
  {
    if units == [] then [[]]
    else
      var rest := Split(units[1..], separator);
      if units[0] == separator then [[]] + rest else [[units[0]] + rest[0]] + rest[1..]
  }

  lemma {:induction false} UntilStops(units: seq<u16>, end: u16)
    requires end !in units
    ensures Until(units + [end], end) == units
  {
    if units != [] {
      assert units[0] in units;
      assert (units + [end])[1..] == units[1..] + [end];
      UntilStops(units[1..], end);
    }
  }

  lemma {:induction false} SplitWhole(units: seq<u16>, separator: u16)
    requires separator !in units
    ensures Split(units, separator) == [units]
  {
    if units != [] {
      assert units[0] in units;
      SplitWhole(units[1..], separator);
      assert [units[0]] + units[1..] == units;
    }
  }

  lemma {:induction false} SplitAppend(front: seq<u16>, back: seq<u16>, separator: u16)
    ensures Split(front + [separator] + back, separator) == Split(front, separator) + Split(back, separator)
  {
    if front == [] {
      assert front + [separator] + back == [separator] + back;
      assert ([separator] + back)[1..] == back;
    } else {
      var whole := front + [separator] + back;
      assert whole[1..] == front[1..] + [separator] + back;
      SplitAppend(front[1..], back, separator);
    }
  }

  lemma {:induction false} JoinedSplits(names: seq<seq<u16>>)
    requires names != [] && AllUsable(names)
    ensures Split(Joined(names), SEMICOLON) == names
    ensures 0 !in Joined(names)
  {
    if |names| == 1 {
      assert UsableExecutableName(names[0]);
      SplitWhole(names[0], SEMICOLON);
    } else {
      var front, last := names[..|names| - 1], names[|names| - 1];
      assert AllUsable(front) by {
        forall i | 0 <= i < |front| ensures UsableExecutableName(front[i]) {
          assert front[i] == names[i];
        }
      }
      assert UsableExecutableName(last);
      JoinedSplits(front);
      SplitAppend(Joined(front), last, SEMICOLON);
      SplitWhole(last, SEMICOLON);
      assert names == front + [last];
    }
  }

  /** Unique decoding: splitting an accepted payload at the semicolons, up to the NUL, recovers exactly the
      names it was built from. */
  lemma ExecutableNamesRecovered(names: seq<seq<u16>>)
    requires names != [] && AllUsable(names)
    ensures Split(Until(Joined(names) + [0], 0), SEMICOLON) == names
  {
    JoinedSplits(names);
    UntilStops(Joined(names), 0);
  }

  // ---------- event names ----------

  /** The fixed part of EVENT_FILTER_EVENT_NAME, up to its `Names` field. */
  const EVENT_NAME_HEADER_SIZE: nat := 20

  datatype EventNamesFilter = EventNamesFilter(
    names: seq<seq<byte>>, matchAnyKeyword: nat, matchAllKeyword: nat, level: byte, filterIn: bool)

  predicate UsableEventName(name: seq<byte>) {
    name != [] && 0 !in name
  }

  predicate AllNamesUsable(names: seq<seq<byte>>) {
    forall i :: 0 <= i < |names| ==> UsableEventName(names[i])
  }

  /** The names, each NUL-terminated. */
  function Terminated(names: seq<seq<byte>>): seq<byte> {
    if names == [] then [] else Terminated(names[..|names| - 1]) + names[|names| - 1] + [0]
  }

  function Header(filter: EventNamesFilter): (r: seq<byte>)
    requires filter.matchAnyKeyword < Radix(8) && filter.matchAllKeyword < Radix(8) && |filter.names| < 0x1_0000
    ensures |r| == EVENT_NAME_HEADER_SIZE
  {
    ToLittleEndian(filter.matchAnyKeyword, 8) + ToLittleEndian(filter.matchAllKeyword, 8)
    + [filter.level, if filter.filterIn then 1 else 0] + [|filter.names| % 256, |filter.names| / 256]
  }

  lemma {:induction false} TerminatedSize(names: seq<seq<byte>>)
    requires AllNamesUsable(names)
    ensures |Terminated(names)| >= 2 * |names|
  {
    if names != [] {
      var front := names[..|names| - 1];
      forall i | 0 <= i < |front| ensures UsableEventName(front[i]) {
        assert front[i] == names[i];
      }
      assert UsableEventName(names[|names| - 1]);
      TerminatedSize(front);
    }
  }

  lemma {:induction false} TerminatedPrefix(names: seq<seq<byte>>, k: nat)
    requires k <= |names|
    ensures |Terminated(names[..k])| <= |Terminated(names)|
    decreases |names|
  {
    if k < |names| {
      var front := names[..|names| - 1];
      TerminatedPrefix(front, k);
      assert front[..k] == names[..k];
    } else {
      assert names[..k] == names;
    }
  }

  /** `names_size`. */
  method NamesSize(names: seq<seq<byte>>) returns (size: nat)
    ensures size == |Terminated(names)|
  {
    size := 0;
    for i := 0 to |names|
      invariant size == |Terminated(names[..i])|
    {
      size := size + |names[i]| + 1;
      assert names[..i + 1][..i] == names[..i];
    }
    assert names[..|names|] == names;
  }

  /** Copies bytes to `data`, from `dst` on. */
  method CopyTo(source: seq<byte>, data: array<byte>, dst: nat)
    requires dst + |source| <= data.Length
    modifies data
    ensures data[..] == old(data[..dst]) + source + old(data[dst + |source|..])
  {
    for i := 0 to |source|
      invariant data[..dst] == old(data[..dst])
      invariant data[dst..dst + i] == source[..i]
      invariant data[dst + i..] == old(data[dst + i..])
    {
      data[dst + i] := source[i];
    }
    assert data[..] == data[..dst] + data[dst..dst + |source|] + data[dst + |source|..];
  }

  /** Fills the names in: each one, then its NUL, at an advancing position that ends exactly at the
      allocated size. */
  method FillNames(names: seq<seq<byte>>, data: array<byte>) returns (dst: nat)
    requires data.Length == EVENT_NAME_HEADER_SIZE + |Terminated(names)|
    modifies data
    ensures dst == data.Length
    ensures data[..EVENT_NAME_HEADER_SIZE] == old(data[..EVENT_NAME_HEADER_SIZE])
    ensures data[EVENT_NAME_HEADER_SIZE..] == Terminated(names)
  {
    dst := EVENT_NAME_HEADER_SIZE;
    ghost var header := data[..dst];
    for i := 0 to |names|
      invariant dst == EVENT_NAME_HEADER_SIZE + |Terminated(names[..i])| <= data.Length
      invariant data[..dst] == header + Terminated(names[..i])
    {
      ghost var before := data[..dst];
      TerminatedPrefix(names, i + 1);
      assert names[..i + 1][..i] == names[..i];
      CopyTo(names[i], data, dst);
      dst := dst + |names[i]|;
      assert data[..dst] == before + names[i];
      data[dst] := 0;
      dst := dst + 1;
      assert data[..dst] == before + names[i] + [0];
    }
    assert names[..|names|] == names;
    assert data[..dst] == header + Terminated(names);
  }

  method TryNewByEventNames(filter: EventNamesFilter, allocates: bool) returns (r: Result<array<byte>, FilterError>)
    requires filter.matchAnyKeyword < Radix(8) && filter.matchAllKeyword < Radix(8)
    ensures r.Ok? <==> filter.names != [] && AllNamesUsable(filter.names) && allocates
                       && EVENT_NAME_HEADER_SIZE + |Terminated(filter.names)| <= MAX_EVENT_FILTER_EVENT_NAME_SIZE
    ensures r.Ok? ==> |filter.names| < 0x1_0000 && fresh(r.value)
                      && r.value[..] == Header(filter) + Terminated(filter.names)
  {
    if filter.names == [] {
      return Err(EmptyFilter);
    }
    if exists i :: 0 <= i < |filter.names| && (filter.names[i] == [] || 0 in filter.names[i]) {
      return Err(BadName);
    }
    var namesSize := NamesSize(filter.names);
    var allocation := TryNew(EVENT_NAME_HEADER_SIZE + namesSize, MAX_EVENT_FILTER_EVENT_NAME_SIZE, allocates);
    if allocation.Err? {
      return Err(allocation.error);
    }
    TerminatedSize(filter.names);
    var data := new byte[EVENT_NAME_HEADER_SIZE + namesSize];
    CopyTo(Header(filter), data, 0);
    assert data[..EVENT_NAME_HEADER_SIZE] == Header(filter);
    var end := FillNames(filter.names, data);
    assert data[..] == data[..EVENT_NAME_HEADER_SIZE] + data[EVENT_NAME_HEADER_SIZE..];
    return Ok(data);
  }

  /** Reads NUL-terminated names back. */
  function ReadNames(bytes: seq<byte>): seq<seq<byte>>
    decreases |bytes|
  {
    match FindNul(bytes)
    case None => []
    case Some(nul) => [bytes[..nul]] + ReadNames(bytes[nul + 1..])
  }

  lemma {:induction false} ReadNamesEnd(bytes: seq<byte>, name: seq<byte>)
    requires 0 !in name
    requires bytes == [] || bytes[|bytes| - 1] == 0
    ensures ReadNames(bytes + name + [0]) == ReadNames(bytes) + [name]
    decreases |bytes|
  {
    var all := bytes + name + [0];
    if bytes == [] {
      assert all == name + [0];
      assert all[..|name|] == name && all[|name| + 1..] == [];
      FirstNulIs(all, |name|);
    } else {
      var nul := FindNul(bytes).value;
      assert all[..nul] == bytes[..nul];
      FirstNulIs(all, nul);
      assert all[nul + 1..] == bytes[nul + 1..] + name + [0];
      ReadNamesEnd(bytes[nul + 1..], name);
    }
  }

  lemma {:induction false} EventNamesRead(names: seq<seq<byte>>)
    requires AllNamesUsable(names)
    ensures ReadNames(Terminated(names)) == names
  {
    if names != [] {
      var front, last := names[..|names| - 1], names[|names| - 1];
      forall i | 0 <= i < |front| ensures UsableEventName(front[i]) {
        assert front[i] == names[i];
      }
      assert UsableEventName(last);
      EventNamesRead(front);
      ReadNamesEnd(Terminated(front), last);
      assert names == front + [last];
    }
  }

  /** Unique decoding: the NUL-terminated names after the header of an accepted payload are exactly the
      names it was built from, as many as its header counts. */
  lemma EventNamesRecovered(filter: EventNamesFilter)
    requires filter.matchAnyKeyword < Radix(8) && filter.matchAllKeyword < Radix(8)
    requires AllNamesUsable(filter.names) && |filter.names| < 0x1_0000
    ensures var payload := Header(filter) + Terminated(filter.names);
            && ReadNames(payload[EVENT_NAME_HEADER_SIZE..]) == filter.names
            && U16FromLe(payload[18], payload[19]) == |filter.names|
            && payload[16] == filter.level && payload[17] == (if filter.filterIn then 1 else 0)
            && LittleEndian(payload[..8]) == filter.matchAnyKeyword
            && LittleEndian(payload[8..16]) == filter.matchAllKeyword
  {
    EventNamesRead(filter.names);
    var payload := Header(filter) + Terminated(filter.names);
    assert payload[EVENT_NAME_HEADER_SIZE..] == Terminated(filter.names);
    assert payload[..8] == ToLittleEndian(filter.matchAnyKeyword, 8);
    assert payload[8..16] == ToLittleEndian(filter.matchAllKeyword, 8);
  }

  // ---------- event ids ----------

  /** EVENT_FILTER_EVENT_ID: two flag bytes, the count, then the ids. */
  function EventIdPayload(eids: seq<u16>, filterIn: bool): seq<byte>
    requires |eids| < 0x1_0000
  {
    [if filterIn then 1 else 0, 0] + [Low(|eids|), High(|eids|)] + UnitsToBytes(eids)
  }

  /** Size of the structure, which includes room for one id. */
  const EVENT_ID_SIZE: nat := 6

  method TryNewByEventIdList(eids: seq<u16>, filterIn: bool, allocates: bool)
    returns (r: Result<seq<byte>, FilterError>)
    ensures r.Ok? <==> 0 < |eids| <= MAX_EVENT_FILTER_EVENT_ID_COUNT && allocates
    ensures r.Ok? ==> r.value == EventIdPayload(eids, filterIn)
    ensures r.Ok? ==> |r.value| == EVENT_ID_SIZE + (|eids| - 1) * 2
  {
    if eids == [] {
      return Err(EmptyFilter);
    }
    if |eids| > MAX_EVENT_FILTER_EVENT_ID_COUNT {
      return Err(TooMany);
    }
    var dataSize := EVENT_ID_SIZE + (|eids| - 1) * 2;
    var allocation := TryNew(dataSize, MAX_EVENT_FILTER_DATA_SIZE, allocates);
    if allocation.Err? {
      return Err(allocation.error);
    }
    return Ok(EventIdPayload(eids, filterIn));
  }

  /** Unique decoding of an id list. */
  lemma EventIdsRecovered(eids: seq<u16>, filterIn: bool)
    requires |eids| < 0x1_0000
    ensures var payload := EventIdPayload(eids, filterIn);
            && U16FromLe(payload[2], payload[3]) == |eids|
            && Units(payload[4..]) == eids
            && (payload[0] == 1 <==> filterIn)
  {
    hide Low, High, UnitsToBytes;
    var payload := EventIdPayload(eids, filterIn);
    LowAndHigh(|eids|);
    assert payload[4..] == UnitsToBytes(eids);
    UnitsOfBytes(eids);
  }

  // ---------- one filter of each type ----------

  /** A filter of a provider: its type, and whether its descriptor can be built. */
  datatype Filter = Filter(filterType: nat, usable: bool)

  ghost predicate DistinctTypes(filters: seq<Filter>) {
    forall i, j :: 0 <= i < j < |filters| ==> filters[i].filterType != filters[j].filterType
  }

  /** `build_event_filter_descriptors`: accepted exactly when every descriptor can be built and no two
      filters share a type; the descriptors then follow the filters one for one. */
  method BuildDescriptors(filters: seq<Filter>) returns (r: Option<seq<nat>>)
    ensures r.Some? <==> (forall i :: 0 <= i < |filters| ==> filters[i].usable) && DistinctTypes(filters)
    ensures r.Some? ==> |r.value| == |filters| && forall i :: 0 <= i < |filters| ==> r.value[i] == filters[i].filterType
  {
    var seenTypes: set<nat> := {};
    var descriptors: seq<nat> := [];
    for k := 0 to |filters|
      invariant forall i :: 0 <= i < k ==> filters[i].usable
      invariant DistinctTypes(filters[..k])
      invariant |descriptors| == k && forall i :: 0 <= i < k ==> descriptors[i] == filters[i].filterType
      invariant forall ty :: ty in seenTypes <==> exists i :: 0 <= i < k && filters[i].filterType == ty
    {
      if !filters[k].usable {
        return None;
      }
      if filters[k].filterType in seenTypes {
        return None;
      }
      seenTypes := seenTypes + {filters[k].filterType};
      descriptors := descriptors + [filters[k].filterType];
    }
    assert filters[..|filters|] == filters;
    return Some(descriptors);
  }
}
