/** The shape of the emitted document, and how strict and lenient serialization relate. */
module SerializeShape {
  import opened Wrappers
  import opened Bytes
  import opened TdhTypes
  import opened Sizing
  import opened Walk
  import opened SerializeSpec

  /** The document of a property, null where it was degraded: a structure is a map with one entry per
      member, under the member's name and in order; a structure array has exactly `count` items. */
  predicate Shaped(ctx: Context, property: Property, json: Json)
    decreases property, 1
  {
    match property.info
    case Struct(members) => json.Map? && EntriesShaped(ctx, members, json.entries)
    case StructArray(members, Count(count)) => json.List? && ItemsShaped(ctx, members, count, json.items)
    case StructArray(members, CountIndex(_)) =>
      (match ResolveStructCount(ctx.ev, property.info.count)
       case Some(count) => json.List? && ItemsShaped(ctx, members, count, json.items)
       case None => json == JsonNull)
    case _ => json.JsonNull? || json.Leaf?
  }

  predicate ItemsShaped(ctx: Context, members: seq<Property>, count: nat, items: seq<Json>)
    decreases members, 3
  {
    |items| == count && forall i :: 0 <= i < count ==> ItemShaped(ctx, members, items[i])
  }

  predicate ItemShaped(ctx: Context, members: seq<Property>, json: Json)
    decreases members, 2
  {
    json == JsonNull || (json.Map? && EntriesShaped(ctx, members, json.entries))
  }

  predicate EntriesShaped(ctx: Context, members: seq<Property>, entries: seq<(string, Json)>)
    decreases members, 0
  {
    if members == [] then entries == []
    else
      && entries != []
      && entries[0].0 == members[0].name
      && (entries[0].1 == JsonNull || Shaped(ctx, members[0], entries[0].1))
      && EntriesShaped(ctx, members[1..], entries[1..])
  }

  lemma {:induction false} NullEntriesShaped(ctx: Context, members: seq<Property>)
    ensures EntriesShaped(ctx, members, NullEntries(members))
    decreases |members|
  {
    hide Shaped;
    if members != [] {
      assert NullEntries(members)[1..] == NullEntries(members[1..]);
      NullEntriesShaped(ctx, members[1..]);
    }
  }

  lemma {:induction false} PropertyShaped(ctx: Context, property: Property, buffer: seq<byte>)
    ensures SerProperty(ctx, property, buffer).Ok? ==> Shaped(ctx, property, SerProperty(ctx, property, buffer).value)
    ensures !ctx.strict ==> SerProperty(ctx, property, buffer).Ok?
    decreases property, 2, 0
  {
    match property.info
    case Struct(members) => MembersShaped(ctx, members, buffer, 0);
    case StructArray(members, count) =>
      if ResolveStructCount(ctx.ev, count).Some? {
        ElementsShaped(ctx, members, ResolveStructCount(ctx.ev, count).value, buffer, 0);
      }
    case _ =>
  }

  lemma {:induction false} MembersShaped(ctx: Context, members: seq<Property>, bytes: seq<byte>, offset: nat)
    ensures SerMembers(ctx, members, bytes, offset).Ok? ==>
              EntriesShaped(ctx, members, SerMembers(ctx, members, bytes, offset).value)
    ensures !ctx.strict ==> SerMembers(ctx, members, bytes, offset).Ok?
    decreases members, 0, 0
  {
    hide MemberBuffer, Shaped;
    if members != [] {
      var buffer := MemberBuffer(members[0], bytes, offset, ctx.PointerSize());
      if buffer.Some? {
        PropertyShaped(ctx, members[0], buffer.value);
        MembersShaped(ctx, members[1..], bytes, offset + |buffer.value|);
      } else {
        NullEntriesShaped(ctx, members);
      }
    }
  }

  lemma {:induction false} ElementsShaped(
    ctx: Context, members: seq<Property>, count: nat, bytes: seq<byte>, offset: nat)
    requires offset <= |bytes|
    ensures SerElements(ctx, members, count, bytes, offset).Ok? ==>
              ItemsShaped(ctx, members, count, SerElements(ctx, members, count, bytes, offset).value)
    ensures !ctx.strict ==> SerElements(ctx, members, count, bytes, offset).Ok?
    decreases members, 1, count
  {
    hide ElementEnd, EntriesShaped;
    if count > 0 {
      var end := ElementEnd(members, bytes, offset, ctx.PointerSize());
      if end.Some? {
        MembersShaped(ctx, members, bytes[offset..end.value], 0);
        ElementsShaped(ctx, members, count - 1, bytes, end.value);
      }
    }
  }

  lemma {:induction false} EventShapedFrom(ctx: Context, k: nat)
    requires k <= |ctx.ev.properties|
    ensures SerFrom(ctx, k).Ok? ==> EntriesShaped(ctx, ctx.ev.properties[k..], SerFrom(ctx, k).value)
    ensures !ctx.strict ==> SerFrom(ctx, k).Ok?
    ensures SerFrom(ctx, k).Ok? ==> |SerFrom(ctx, k).value| == |ctx.ev.properties| - k
    ensures SerFrom(ctx, k).Ok? ==>
              forall j :: k <= j < |ctx.ev.properties| && SliceAt(ctx.ev, j).Err? ==>
                SerFrom(ctx, k).value[j - k].1 == JsonNull
    decreases |ctx.ev.properties| - k
  {
    hide SliceAt, Shaped, SerProperty, EntriesShaped;
    var rest := ctx.ev.properties[k..];
    if k == |ctx.ev.properties| {
      NullEntriesShaped(ctx, rest);
    } else {
      match SliceAt(ctx.ev, k)
      case Err(_) => NullEntriesShaped(ctx, rest);
      case Ok(slice) =>
        PropertyShaped(ctx, ctx.ev.properties[k], slice.buffer);
        EventShapedFrom(ctx, k + 1);
        assert rest[1..] == ctx.ev.properties[k + 1..];
        if SerFrom(ctx, k).Ok? {
          FirstEntryShaped(ctx, rest, SerProperty(ctx, rest[0], slice.buffer).value, SerFrom(ctx, k + 1).value);
        }
    }
  }

  lemma FirstEntryShaped(ctx: Context, members: seq<Property>, value: Json, rest: seq<(string, Json)>)
    requires members != [] && Shaped(ctx, members[0], value) && EntriesShaped(ctx, members[1..], rest)
    ensures EntriesShaped(ctx, members, [(members[0].name, value)] + rest)
  {
    hide Shaped;
    assert ([(members[0].name, value)] + rest)[1..] == rest;
  }

  /** Every entry of a located property is that property's own value, read from its own bytes. */
  lemma {:induction false} EntriesAreValuesFrom(ctx: Context, k: nat, j: nat)
    requires k <= j < |ctx.ev.properties| && SerFrom(ctx, k).Ok? && SliceAt(ctx.ev, j).Ok?
    ensures j - k < |SerFrom(ctx, k).value|
    ensures SerFrom(ctx, k).value[j - k].0 == ctx.ev.properties[j].name
    ensures SerProperty(ctx, ctx.ev.properties[j], SliceAt(ctx.ev, j).value.buffer)
            == Ok(SerFrom(ctx, k).value[j - k].1)
    decreases j - k
  {
    hide SerProperty, SliceAt;
    EarlierSlice(ctx.ev, k, j);
    if k < j {
      EntriesAreValuesFrom(ctx, k + 1, j);
    }
  }

  lemma EntriesAreValues(ctx: Context, j: nat)
    requires j < |ctx.ev.properties| && SerEvent(ctx).Ok? && SliceAt(ctx.ev, j).Ok?
    ensures SerEvent(ctx).value.Map? && j < |SerEvent(ctx).value.entries|
    ensures SerEvent(ctx).value.entries[j].0 == ctx.ev.properties[j].name
    ensures SerProperty(ctx, ctx.ev.properties[j], SliceAt(ctx.ev, j).value.buffer)
            == Ok(SerEvent(ctx).value.entries[j].1)
  {
    hide SerProperty, SliceAt;
    EntriesAreValuesFrom(ctx, 0, j);
  }

  /** Lenient serialization never fails, and any document it or strict serialization emits has one
      entry per property in schema order, shaped like its property at every level of nesting; the
      properties the walk cannot locate are null. */
  lemma EventShaped(ctx: Context)
    ensures !ctx.strict ==> SerEvent(ctx).Ok?
    ensures SerEvent(ctx).Ok? ==>
              && SerEvent(ctx).value.Map?
              && |SerEvent(ctx).value.entries| == |ctx.ev.properties|
              && EntriesShaped(ctx, ctx.ev.properties, SerEvent(ctx).value.entries)
              && forall j :: 0 <= j < |ctx.ev.properties| && SliceAt(ctx.ev, j).Err? ==>
                   SerEvent(ctx).value.entries[j].1 == JsonNull
  {
    hide SliceAt, SerProperty, EntriesShaped, SerFrom;
    assert ctx.ev.properties[0..] == ctx.ev.properties;
    EventShapedFrom(ctx, 0);
    if SerEvent(ctx).Ok? {
      EntriesCount(ctx, ctx.ev.properties, SerEvent(ctx).value.entries);
    }
  }

  lemma {:induction false} EntriesCount(ctx: Context, members: seq<Property>, entries: seq<(string, Json)>)
    requires EntriesShaped(ctx, members, entries)
    ensures |entries| == |members|
    ensures forall i :: 0 <= i < |members| ==> entries[i].0 == members[i].name
    decreases |members|
  {
    hide Shaped;
    if members != [] {
      EntriesCount(ctx, members[1..], entries[1..]);
    }
  }

  // ---------- strict and lenient ----------

  function Lenient(ctx: Context): Context {
    ctx.(strict := false)
  }

  lemma {:induction false} PropertyStrictIsLenient(ctx: Context, property: Property, buffer: seq<byte>)
    requires SerProperty(ctx, property, buffer).Ok?
    ensures SerProperty(Lenient(ctx), property, buffer) == SerProperty(ctx, property, buffer)
    decreases property, 2, 0
  {
    match property.info
    case Struct(members) => MembersStrictIsLenient(ctx, members, buffer, 0);
    case StructArray(members, count) =>
      if ResolveStructCount(ctx.ev, count).Some? {
        ElementsStrictIsLenient(ctx, members, ResolveStructCount(ctx.ev, count).value, buffer, 0);
      }
    case _ =>
  }

  lemma {:induction false} MembersStrictIsLenient(ctx: Context, members: seq<Property>, bytes: seq<byte>, offset: nat)
    requires SerMembers(ctx, members, bytes, offset).Ok?
    ensures SerMembers(Lenient(ctx), members, bytes, offset) == SerMembers(ctx, members, bytes, offset)
    decreases members, 0, 0
  {
    hide MemberBuffer;
    if members != [] {
      var buffer := MemberBuffer(members[0], bytes, offset, ctx.PointerSize());
      if buffer.Some? {
        PropertyStrictIsLenient(ctx, members[0], buffer.value);
        MembersStrictIsLenient(ctx, members[1..], bytes, offset + |buffer.value|);
      }
    }
  }

  lemma {:induction false} ElementsStrictIsLenient(
    ctx: Context, members: seq<Property>, count: nat, bytes: seq<byte>, offset: nat)
    requires offset <= |bytes|
    requires SerElements(ctx, members, count, bytes, offset).Ok?
    ensures SerElements(Lenient(ctx), members, count, bytes, offset) == SerElements(ctx, members, count, bytes, offset)
    decreases members, 1, count
  {
    hide ElementEnd;
    if count > 0 {
      var end := ElementEnd(members, bytes, offset, ctx.PointerSize());
      if end.Some? {
        MembersStrictIsLenient(ctx, members, bytes[offset..end.value], 0);
        ElementsStrictIsLenient(ctx, members, count - 1, bytes, end.value);
      }
    }
  }

  lemma {:induction false} StrictIsLenientFrom(ctx: Context, k: nat)
    requires k <= |ctx.ev.properties|
    requires SerFrom(ctx, k).Ok?
    ensures SerFrom(Lenient(ctx), k) == SerFrom(ctx, k)
    decreases |ctx.ev.properties| - k
  {
    hide SliceAt;
    if k < |ctx.ev.properties| && SliceAt(ctx.ev, k).Ok? {
      PropertyStrictIsLenient(ctx, ctx.ev.properties[k], SliceAt(ctx.ev, k).value.buffer);
      StrictIsLenientFrom(ctx, k + 1);
    }
  }

  /** Whenever strict serialization succeeds, the lenient one emits the identical document, and every
      property of the event was located. */
  lemma StrictSuccessIsLenient(ctx: Context)
    requires SerEvent(ctx).Ok?
    ensures SerEvent(Lenient(ctx)) == SerEvent(ctx)
    ensures ctx.strict ==> Walkable(ctx.ev) == |ctx.ev.properties|
  {
    hide SliceAt, SerProperty, NextSlice;
    StrictIsLenientFrom(ctx, 0);
    if ctx.strict {
      StrictLocatesAll(ctx, 0);
    }
  }

  lemma {:induction false} StrictLocatesAll(ctx: Context, k: nat)
    requires ctx.strict && k <= |ctx.ev.properties|
    requires SerFrom(ctx, k).Ok?
    requires WalkTo(ctx.ev, k).Ok?
    ensures WalkTo(ctx.ev, |ctx.ev.properties|).Ok?
    decreases |ctx.ev.properties| - k
  {
    hide NextSlice, SerProperty;
    if k < |ctx.ev.properties| {
      StrictLocatesAll(ctx, k + 1);
    }
  }

  // ---------- when a strict document is free of nulls ----------

  predicate NoNull(json: Json) {
    match json
    case JsonNull => false
    case Leaf(_) => true
    case Map(entries) => forall i :: 0 <= i < |entries| ==> NoNull(entries[i].1)
    case List(items) => forall i :: 0 <= i < |items| ==> NoNull(items[i])
  }

  /** Every member and every element of the property can be located in its bytes, at every level. */
  predicate Located(ctx: Context, property: Property, buffer: seq<byte>)
    decreases property, 2, 0
  {
    match property.info
    case Struct(members) => MembersLocated(ctx, members, buffer, 0)
    case StructArray(members, Count(count)) => ElementsLocated(ctx, members, count, buffer, 0)
    case StructArray(members, CountIndex(_)) =>
      ResolveStructCount(ctx.ev, property.info.count).Some? ==>
        ElementsLocated(ctx, members, ResolveStructCount(ctx.ev, property.info.count).value, buffer, 0)
    case _ => true
  }

  predicate MembersLocated(ctx: Context, members: seq<Property>, bytes: seq<byte>, offset: nat)
    decreases members, 0, 0
  {
    members == []
    || match MemberBuffer(members[0], bytes, offset, ctx.PointerSize())
       case None => false
       case Some(buffer) =>
         && Located(ctx, members[0], buffer)
         && MembersLocated(ctx, members[1..], bytes, offset + |buffer|)
  }

  predicate ElementsLocated(ctx: Context, members: seq<Property>, count: nat, bytes: seq<byte>, offset: nat)
    requires offset <= |bytes|
    decreases members, 1, count
  {
    count == 0
    || match ElementEnd(members, bytes, offset, ctx.PointerSize())
       case None => false
       case Some(end) =>
         && MembersLocated(ctx, members, bytes[offset..end], 0)
         && ElementsLocated(ctx, members, count - 1, bytes, end)
  }

  lemma {:induction false} LocatedIffNoNull(ctx: Context, property: Property, buffer: seq<byte>)
    requires ctx.strict && SerProperty(ctx, property, buffer).Ok?
    ensures NoNull(SerProperty(ctx, property, buffer).value) <==> Located(ctx, property, buffer)
    decreases property, 2, 0
  {
    match property.info
    case Struct(members) => MembersLocatedIffNoNull(ctx, members, buffer, 0);
    case StructArray(members, count) =>
      ElementsLocatedIffNoNull(ctx, members, ResolveStructCount(ctx.ev, count).value, buffer, 0);
    case _ =>
  }

  lemma FirstEntry(first: (string, Json), rest: seq<(string, Json)>)
    ensures NoNull(Map([first] + rest)) <==> NoNull(first.1) && NoNull(Map(rest))
  {
    var entries := [first] + rest;
    assert entries[0] == first;
    assert forall i :: 0 <= i < |rest| ==> entries[i + 1] == rest[i];
  }

  lemma FirstItem(first: Json, rest: seq<Json>)
    ensures NoNull(List([first] + rest)) <==> NoNull(first) && NoNull(List(rest))
  {
    var items := [first] + rest;
    assert items[0] == first;
    assert forall i :: 0 <= i < |rest| ==> items[i + 1] == rest[i];
  }

  lemma {:induction false} MembersLocatedIffNoNull(
    ctx: Context, members: seq<Property>, bytes: seq<byte>, offset: nat)
    requires ctx.strict && SerMembers(ctx, members, bytes, offset).Ok?
    ensures NoNull(Map(SerMembers(ctx, members, bytes, offset).value))
            <==> MembersLocated(ctx, members, bytes, offset)
    decreases members, 0, 0
  {
    hide MemberBuffer, NoNull, SerProperty, Located;
    if members == [] {
      NullEntriesAreNull(members);
    } else {
      match MemberBuffer(members[0], bytes, offset, ctx.PointerSize())
      case None => NullEntriesAreNull(members);
      case Some(buffer) =>
        LocatedIffNoNull(ctx, members[0], buffer);
        MembersLocatedIffNoNull(ctx, members[1..], bytes, offset + |buffer|);
        FirstEntry((members[0].name, SerProperty(ctx, members[0], buffer).value),
                   SerMembers(ctx, members[1..], bytes, offset + |buffer|).value);
    }
  }

  lemma NullEntriesAreNull(members: seq<Property>)
    ensures NoNull(Map(NullEntries(members))) <==> members == []
  {
    assert members != [] ==> NullEntries(members)[0].1 == JsonNull;
  }

  lemma NullsAreNull(count: nat)
    ensures NoNull(List(Nulls(count))) <==> count == 0
  {
    assert count > 0 ==> Nulls(count)[0] == JsonNull;
  }

  lemma {:induction false} ElementsLocatedIffNoNull(
    ctx: Context, members: seq<Property>, count: nat, bytes: seq<byte>, offset: nat)
    requires offset <= |bytes|
    requires ctx.strict && SerElements(ctx, members, count, bytes, offset).Ok?
    ensures NoNull(List(SerElements(ctx, members, count, bytes, offset).value))
            <==> ElementsLocated(ctx, members, count, bytes, offset)
    decreases members, 1, count
  {
    hide ElementEnd, NoNull, SerMembers, MembersLocated;
    NullsAreNull(count);
    if count > 0 {
      match ElementEnd(members, bytes, offset, ctx.PointerSize())
      case None =>
      case Some(end) =>
        MembersLocatedIffNoNull(ctx, members, bytes[offset..end], 0);
        ElementsLocatedIffNoNull(ctx, members, count - 1, bytes, end);
        FirstItem(Map(SerMembers(ctx, members, bytes[offset..end], 0).value),
                  SerElements(ctx, members, count - 1, bytes, end).value);
    }
  }

  lemma WalkedIsLocated(ev: Event)
    requires WalkTo(ev, |ev.properties|).Ok?
    ensures forall k :: 0 <= k < |ev.properties| ==> SliceAt(ev, k).Ok?
  {
    hide NextSlice;
    forall k | 0 <= k < |ev.properties| ensures SliceAt(ev, k).Ok? {
      WalkPrefix(ev, k + 1, |ev.properties|);
    }
  }

  /** Strict success alone does not exclude nulls: a strict document is free of them if and only if every
      property is located in full, down to the last member of the last element. */
  lemma StrictHasNoNullIff(ctx: Context)
    requires ctx.strict && SerEvent(ctx).Ok?
    ensures forall k :: 0 <= k < |ctx.ev.properties| ==> SliceAt(ctx.ev, k).Ok?
    ensures NoNull(SerEvent(ctx).value)
            <==> forall k :: 0 <= k < |ctx.ev.properties| ==>
                   Located(ctx, ctx.ev.properties[k], SliceAt(ctx.ev, k).value.buffer)
  {
    hide SliceAt, SerProperty, Located, NextSlice;
    var entries, n := SerEvent(ctx).value.entries, |ctx.ev.properties|;
    EventShaped(ctx);
    StrictLocatesAll(ctx, 0);
    WalkedIsLocated(ctx.ev);
    forall k | 0 <= k < n
      ensures SliceAt(ctx.ev, k).Ok?
      ensures NoNull(entries[k].1) <==> Located(ctx, ctx.ev.properties[k], SliceAt(ctx.ev, k).value.buffer)
    {
      EntriesAreValues(ctx, k);
      LocatedIffNoNull(ctx, ctx.ev.properties[k], SliceAt(ctx.ev, k).value.buffer);
    }
  }

  /** A structure holding one string, of the length the first property of the event carries. */
  function CarriedText(): (r: Property)
    ensures r.name == "s"
  {
    Property("s", Struct([Property("text", Value(AnsiString, OutTypeNull, LengthIndex(0)))]))
  }

  lemma CarriedTextIsNull(ctx: Context, bytes: seq<byte>)
    ensures FixedSize(CarriedText(), ctx.PointerSize()) == None
    ensures SerProperty(ctx, CarriedText(), bytes) == Ok(Map([("text", JsonNull)]))
  {
    var members := CarriedText().info.members;
    assert FixedSize(members[0], ctx.PointerSize()) == None;
    assert NullEntries(members) == [("text", JsonNull)];
  }

  /** An event whose strict document holds a null: the parser knows the length the text of a structure has,
      the serializer of structures does not look at it. */
  lemma StrictStillWritesNull()
    ensures exists ctx: Context ::
              && ctx.strict
              && SerEvent(ctx) == Ok(Map([("length", Leaf("1")), ("s", Map([("text", JsonNull)]))]))
  {
    hide WalkTo, SliceAt, SerFrom, SerMembers, FixedSize, CarriedText;
    var length := Property("length", Value(UInt16, OutTypeNull, Length(0)));
    var record := EventRecord([1, 0, 65], false, name => Some(if name == "length" then 2 else 1));
    var ctx := Context(Event(record, [length, CarriedText()], Some(0)), _ => true, (_, _) => Some("1"), true);
    var first, second := PropertySlice(length, [1, 0]), PropertySlice(CarriedText(), [65]);
    CarriedTextSized(record, [first], [65]);
    CarriedTextIsNull(ctx, [65]);
    var bytes := record.userBuffer;
    assert bytes[0 + 0..] == bytes && bytes[..2] == [1, 0];
    assert bytes[0 + 2..] == [65] && bytes[0 + 2..][..1] == [65];
    assert FindPropertySize(record, length, [], bytes) == Ok(2);
    assert NextSlice(ctx.ev, [], 0) == Ok(first);
    assert NextSlice(ctx.ev, [first], 2) == Ok(second);
    TwoEntries(ctx, first, second, Leaf("1"), Map([("text", JsonNull)]));
  }

  lemma CarriedTextSized(record: EventRecord, parsed: seq<PropertySlice>, remaining: seq<byte>)
    requires !record.is32Bit && record.tdhSize("s") == Some(1)
    ensures FindPropertySize(record, CarriedText(), parsed, remaining) == Ok(1)
  {
    var members := CarriedText().info.members;
    assert FixedSize(members[0], 8) == None;
  }

  lemma TwoEntries(ctx: Context, first: PropertySlice, second: PropertySlice, one: Json, two: Json)
    requires ctx.ev.properties == [first.property, second.property]
    requires NextSlice(ctx.ev, [], 0) == Ok(first)
    requires NextSlice(ctx.ev, [first], |first.buffer|) == Ok(second)
    requires SerProperty(ctx, first.property, first.buffer) == Ok(one)
    requires SerProperty(ctx, second.property, second.buffer) == Ok(two)
    ensures SerEvent(ctx) == Ok(Map([(first.property.name, one), (second.property.name, two)]))
  {
    hide NextSlice, SerProperty;
    assert WalkTo(ctx.ev, 1) == Ok([] + [first]);
    assert [] + [first] == [first] && TotalSize([first]) == |first.buffer|;
    assert WalkTo(ctx.ev, 2) == Ok([first] + [second]);
    assert SliceAt(ctx.ev, 0) == Ok(first) && SliceAt(ctx.ev, 1) == Ok(second);
    var last := [(second.property.name, two)];
    assert SerFrom(ctx, 2) == Ok([]) && last + [] == last;
    assert SerFrom(ctx, 1) == Ok(last);
    var both := [(first.property.name, one)] + last;
    assert SerFrom(ctx, 0) == Ok(both);
    assert both == [(first.property.name, one), (second.property.name, two)];
  }
}
