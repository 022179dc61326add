/** The reference semantics of decoding: a from-scratch walk of the user buffer in schema order. */
module Walk {
  import opened Wrappers
  import opened Bytes
  import opened TdhTypes
  import opened Sizing

  /** An event and the schema to decode it with. `dataStart` is where the property values start, or
      `None` for the unsupported layout with inline metadata. */
  datatype Event = Event(record: EventRecord, properties: seq<Property>, dataStart: Option<nat>)

  function TotalSize(slices: seq<PropertySlice>): nat {
    if slices == [] then 0
    else TotalSize(slices[..|slices| - 1]) + |slices[|slices| - 1].buffer|
  }

  function Concatenated(slices: seq<PropertySlice>): seq<byte> {
    if slices == [] then []
    else Concatenated(slices[..|slices| - 1]) + slices[|slices| - 1].buffer
  }

  /** The property that follows `parsed`, located `offset` bytes into the property values. */
  function NextSlice(ev: Event, parsed: seq<PropertySlice>, offset: nat): Result<PropertySlice, ParserError> {
    if |parsed| >= |ev.properties| then Err(NotFound)
    else if ev.dataStart.None? then
      Err(PropertyError("unsupported event layout: inline TraceLogging metadata"))
    else if ev.dataStart.value + offset > |ev.record.userBuffer| then
      Err(PropertyError("Invalid buffer bounds"))
    else
      var property := ev.properties[|parsed|];
      var remaining := ev.record.userBuffer[ev.dataStart.value + offset..];
      var size :- FindPropertySize(ev.record, property, parsed, remaining);
      if size > |remaining| then Err(PropertyError("Property length out of buffer bounds"))
      else Ok(PropertySlice(property, remaining[..size]))
  }

  /** The first `n` properties, walked from the start of the buffer. */
  function WalkTo(ev: Event, n: nat): (r: Result<seq<PropertySlice>, ParserError>)
    ensures r.Ok? ==> n == |r.value| <= |ev.properties|
  {
    if n == 0 then Ok([])
    else
      var parsed :- WalkTo(ev, n - 1);
      var next :- NextSlice(ev, parsed, TotalSize(parsed));
      Ok(parsed + [next])
  }

  /** The `index`-th property of the from-scratch walk. */
  function SliceAt(ev: Event, index: nat): Result<PropertySlice, ParserError> {
    var slices :- WalkTo(ev, index + 1);
    Ok(slices[index])
  }

  lemma EarlierSlice(ev: Event, k: nat, j: nat)
    requires k <= j && SliceAt(ev, j).Ok?
    ensures SliceAt(ev, k).Ok?
  {
    hide NextSlice;
    WalkPrefix(ev, k + 1, j + 1);
  }

  /** The bytes left when the walk reaches the `k`-th property. */
  function RemainingAt(ev: Event, k: nat): seq<byte>
    requires SliceAt(ev, k).Ok?
  {
    ev.record.userBuffer[ev.dataStart.value + TotalSize(WalkTo(ev, k).value)..]
  }

  lemma SliceAtIsSized(ev: Event, k: nat)
    requires SliceAt(ev, k).Ok?
    ensures WalkTo(ev, k).Ok? && k < |ev.properties|
    ensures var slice := SliceAt(ev, k).value;
            && slice.property == ev.properties[k]
            && FindPropertySize(ev.record, ev.properties[k], WalkTo(ev, k).value, RemainingAt(ev, k))
               == Ok(|slice.buffer|)
            && |slice.buffer| <= |RemainingAt(ev, k)|
            && slice.buffer == RemainingAt(ev, k)[..|slice.buffer|]
  {
    hide FindPropertySize;
  }

  /** How many properties the walk locates before it ends or fails. */
  function Walkable(ev: Event): (n: nat)
    ensures n <= |ev.properties|
    ensures forall k: nat :: WalkTo(ev, k).Ok? <==> k <= n
  {
    WalkableFrom(ev, 0)
  }

  function WalkableFrom(ev: Event, k: nat): (n: nat)
    requires WalkTo(ev, k).Ok?
    ensures k <= n <= |ev.properties|
    ensures forall j: nat :: WalkTo(ev, j).Ok? <==> j <= n
    decreases |ev.properties| - k
  {
    WalkStopsForGood(ev, k);
    if WalkTo(ev, k + 1).Ok? then WalkableFrom(ev, k + 1) else k
  }

  lemma WalkStopsForGood(ev: Event, k: nat)
    requires WalkTo(ev, k).Ok?
    ensures forall j: nat :: j <= k ==> WalkTo(ev, j).Ok?
    ensures WalkTo(ev, k + 1).Err? ==> forall j: nat :: j > k ==> WalkTo(ev, j).Err?
  {
    forall j: nat | j <= k ensures WalkTo(ev, j).Ok? {
      WalkPrefix(ev, j, k);
    }
    if WalkTo(ev, k + 1).Err? {
      forall j: nat | j > k ensures WalkTo(ev, j).Err? {
        WalkErrorSticks(ev, k + 1, j);
      }
    }
  }

  /** A longer walk starts with every shorter one. */
  lemma {:induction false} WalkPrefix(ev: Event, m: nat, n: nat)
    requires m <= n
    requires WalkTo(ev, n).Ok?
    ensures WalkTo(ev, m) == Ok(WalkTo(ev, n).value[..m])
    decreases n
  {
    hide FindPropertySize;
    if m < n {
      WalkPrefix(ev, m, n - 1);
      var longer, shorter := WalkTo(ev, n).value, WalkTo(ev, n - 1).value;
      assert longer[..m] == shorter[..m];
    } else {
      assert WalkTo(ev, n).value[..m] == WalkTo(ev, n).value;
    }
  }

  /** Once the walk fails, every longer walk fails with the same error. */
  lemma {:induction false} WalkErrorSticks(ev: Event, m: nat, n: nat)
    requires m <= n
    requires WalkTo(ev, m).Err?
    ensures WalkTo(ev, n) == WalkTo(ev, m)
    decreases n
  {
    hide FindPropertySize;
    if m < n {
      WalkErrorSticks(ev, m, n - 1);
    }
  }

  lemma SliceAtWithin(ev: Event, n: nat, index: nat)
    requires WalkTo(ev, n).Ok?
    requires index < n
    ensures SliceAt(ev, index) == Ok(WalkTo(ev, n).value[index])
  {
    WalkPrefix(ev, index + 1, n);
  }

  /** The walked slices belong to the schema's properties, in order. */
  lemma {:induction false} WalkFollowsSchema(ev: Event, n: nat, i: nat)
    requires i < n && WalkTo(ev, n).Ok?
    ensures WalkTo(ev, n).value[i].property == ev.properties[i]
  {
    hide FindPropertySize;
    if i < n - 1 {
      WalkFollowsSchema(ev, n - 1, i);
    }
  }

  lemma NextSliceInPlace(ev: Event, parsed: seq<PropertySlice>, offset: nat)
    requires NextSlice(ev, parsed, offset).Ok?
    ensures ev.dataStart.Some?
    ensures var size, start := |NextSlice(ev, parsed, offset).value.buffer|, ev.dataStart.value;
            && start + offset + size <= |ev.record.userBuffer|
            && ev.record.userBuffer[start..start + offset] + NextSlice(ev, parsed, offset).value.buffer
               == ev.record.userBuffer[start..start + offset + size]
  {
    hide FindPropertySize;
  }

  /** The walked slices tile the property values: laid end to end they are exactly the bytes up to
      the walk's offset, which is the sum of their sizes. */
  lemma {:induction false} WalkTiles(ev: Event, n: nat)
    requires 0 < n && WalkTo(ev, n).Ok?
    ensures ev.dataStart.Some?
    ensures var slices, start := WalkTo(ev, n).value, ev.dataStart.value;
            && start + TotalSize(slices) <= |ev.record.userBuffer|
            && Concatenated(slices) == ev.record.userBuffer[start..start + TotalSize(slices)]
  {
    hide NextSlice;
    var slices, before := WalkTo(ev, n).value, WalkTo(ev, n - 1).value;
    NextSliceInPlace(ev, before, TotalSize(before));
    Extended(before, slices[n - 1]);
    if n > 1 {
      WalkTiles(ev, n - 1);
    }
  }

  lemma Extended(slices: seq<PropertySlice>, next: PropertySlice)
    ensures TotalSize(slices + [next]) == TotalSize(slices) + |next.buffer|
    ensures Concatenated(slices + [next]) == Concatenated(slices) + next.buffer
  {
    assert (slices + [next])[..|slices|] == slices;
  }
}
