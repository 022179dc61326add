/** What a serialized document says, told without the serializer: every value is rendered from its own
    bytes, at every level, and a document exists exactly when everything it needs can be decoded. */
module Document {
  import opened Wrappers
  import opened Bytes
  import opened TdhTypes
  import opened Sizing
  import opened Walk
  import opened SerializeSpec
  import opened TwoPasses
  import opened SerializeShape

  /** The document of a property whose bytes are `buffer`. A leaf is what its decoder renders from those very
      bytes, null without a handler or when they do not decode; a structure holds its members' values, read
      from their own slices; a structure array holds as many elements as declared or carried. */
  predicate Describes(ctx: Context, property: Property, buffer: seq<byte>, json: Json)
    decreases property, 2, 0
  {
    match property.info
    case Struct(members) =>
      json.Map? && EntriesDescribe(ctx, members, MemberSlices(members, buffer, 0, ctx.PointerSize()), json.entries)
    case StructArray(members, Count(count)) => json.List? && ItemsDescribe(ctx, members, count, buffer, 0, json.items)
    case StructArray(members, CountIndex(index)) =>
      if CarriedCount(ctx.ev, index).Some? then
        json.List? && ItemsDescribe(ctx, members, CarriedCount(ctx.ev, index).value, buffer, 0, json.items)
      else json == JsonNull
    case _ =>
      var text := Rendered(ctx, property, buffer);
      json == if text.Some? then Leaf(text.value) else JsonNull
  }

  function Rendered(ctx: Context, property: Property, buffer: seq<byte>): Option<string> {
    if ctx.hasHandler(property) then ctx.decode(property, buffer) else None
  }

  /** The count held by a top-level property the walk locates, one, two, four or eight bytes wide. */
  function CarriedCount(ev: Event, index: nat): Option<nat> {
    if index < |ev.properties| && SliceAt(ev, index).Ok? then
      var bytes := SliceAt(ev, index).value.buffer;
      if |bytes| == 1 || |bytes| == 2 || |bytes| == 4 || |bytes| == 8 then Some(LittleEndian(bytes)) else None
    else None
  }

  /** One entry per member, under its name: the value of a located member, null for the others. */
  predicate EntriesDescribe(
    ctx: Context, members: seq<Property>, slices: seq<seq<byte>>, entries: seq<(string, Json)>)
    decreases members, 0, 0
  {
    if members == [] then entries == []
    else
      && entries != []
      && entries[0].0 == members[0].name
      && (if slices == [] then entries[0].1 == JsonNull else Describes(ctx, members[0], slices[0], entries[0].1))
      && EntriesDescribe(ctx, members[1..], if slices == [] then [] else slices[1..], entries[1..])
  }

  /** One item per element: the structure packed from `offset` on, then the next one where it ends; null from
      the first element whose end is unknown. */
  predicate ItemsDescribe(
    ctx: Context, members: seq<Property>, count: nat, bytes: seq<byte>, offset: nat, items: seq<Json>)
    decreases members, 1, count
  {
    && |items| == count
    && (count > 0 ==>
          match ElementEnd(members, bytes, offset, ctx.PointerSize())
          case None => forall i :: 0 <= i < count ==> items[i] == JsonNull
          case Some(end) =>
            && items[0].Map?
            && EntriesDescribe(ctx, members, MemberSlices(members, bytes, offset, ctx.PointerSize()), items[0].entries)
            && ItemsDescribe(ctx, members, count - 1, bytes, end, items[1..]))
  }

  /** Whether every located leaf renders and every needed count is carried, at every level. */
  predicate Decodable(ctx: Context, property: Property, buffer: seq<byte>)
    decreases property, 2, 0
  {
    match property.info
    case Struct(members) => MembersDecode(ctx, members, MemberSlices(members, buffer, 0, ctx.PointerSize()))
    case StructArray(members, Count(count)) => ElementsDecode(ctx, members, count, buffer, 0)
    case StructArray(members, CountIndex(index)) =>
      && CarriedCount(ctx.ev, index).Some?
      && ElementsDecode(ctx, members, CarriedCount(ctx.ev, index).value, buffer, 0)
    case _ => Rendered(ctx, property, buffer).Some?
  }

  predicate MembersDecode(ctx: Context, members: seq<Property>, slices: seq<seq<byte>>)
    decreases members, 0, 0
  {
    members != [] && slices != [] ==>
      Decodable(ctx, members[0], slices[0]) && MembersDecode(ctx, members[1..], slices[1..])
  }

  predicate ElementsDecode(ctx: Context, members: seq<Property>, count: nat, bytes: seq<byte>, offset: nat)
    decreases members, 1, count
  {
    count > 0 ==>
      match ElementEnd(members, bytes, offset, ctx.PointerSize())
      case None => true
      case Some(end) =>
        && MembersDecode(ctx, members, MemberSlices(members, bytes, offset, ctx.PointerSize()))
        && ElementsDecode(ctx, members, count - 1, bytes, end)
  }

  // ---------- one property ----------

  lemma ResolvedCount(ev: Event, count: PropertyCount)
    ensures count.Count? ==> ResolveStructCount(ev, count) == Some(count.count)
    ensures count.CountIndex? ==> ResolveStructCount(ev, count) == CarriedCount(ev, count.index)
  {
    hide SliceAt;
  }

  /** A property's document is exactly what describes it; in strict mode there is one exactly when it
      decodes. */
  lemma {:induction false} PropertyDescribed(ctx: Context, property: Property, buffer: seq<byte>)
    ensures SerProperty(ctx, property, buffer).Ok? <==> !ctx.strict || Decodable(ctx, property, buffer)
    ensures SerProperty(ctx, property, buffer).Ok? ==>
              Describes(ctx, property, buffer, SerProperty(ctx, property, buffer).value)
    decreases property, 2, 0
  {
    hide SliceAt, ElementEnd, MemberSlices, ResolveStructCount, CarriedCount;
    match property.info
    case Struct(members) => MembersDescribed(ctx, members, buffer, 0);
    case StructArray(members, count) =>
      ResolvedCount(ctx.ev, count);
      if ResolveStructCount(ctx.ev, count).Some? {
        ElementsDescribed(ctx, members, ResolveStructCount(ctx.ev, count).value, buffer, 0);
      }
    case _ =>
  }

  lemma {:induction false} NullsDescribe(ctx: Context, members: seq<Property>)
    ensures EntriesDescribe(ctx, members, [], NullEntries(members))
    decreases |members|
  {
    hide Describes;
    if members != [] {
      assert NullEntries(members)[1..] == NullEntries(members[1..]);
      NullsDescribe(ctx, members[1..]);
    }
  }

  lemma {:induction false} MembersDescribed(ctx: Context, members: seq<Property>, bytes: seq<byte>, offset: nat)
    ensures var slices := MemberSlices(members, bytes, offset, ctx.PointerSize());
            && (SerMembers(ctx, members, bytes, offset).Ok? <==> !ctx.strict || MembersDecode(ctx, members, slices))
            && (SerMembers(ctx, members, bytes, offset).Ok? ==>
                  EntriesDescribe(ctx, members, slices, SerMembers(ctx, members, bytes, offset).value))
    decreases members, 0, 0
  {
    hide MemberBuffer, Describes, Decodable, SerProperty, MemberSlices;
    if members == [] {
    } else {
      FirstMember(members, bytes, offset, ctx.PointerSize());
      match MemberBuffer(members[0], bytes, offset, ctx.PointerSize())
      case None => NullsDescribe(ctx, members);
      case Some(buffer) =>
        var rest := MemberSlices(members[1..], bytes, offset + |buffer|, ctx.PointerSize());
        assert ([buffer] + rest)[1..] == rest;
        PropertyDescribed(ctx, members[0], buffer);
        MembersDescribed(ctx, members[1..], bytes, offset + |buffer|);
    }
  }

  lemma {:induction false} ElementsDescribed(
    ctx: Context, members: seq<Property>, count: nat, bytes: seq<byte>, offset: nat)
    requires offset <= |bytes|
    ensures var result := SerElements(ctx, members, count, bytes, offset);
            && (result.Ok? <==> !ctx.strict || ElementsDecode(ctx, members, count, bytes, offset))
            && (result.Ok? ==> ItemsDescribe(ctx, members, count, bytes, offset, result.value))
    decreases members, 1, count
  {
    hide ElementEnd, EntriesDescribe, MembersDecode, SerMembers, MemberSlices;
    if count > 0 {
      match ElementEnd(members, bytes, offset, ctx.PointerSize())
      case None =>
      case Some(end) =>
        PassesAgree(members, bytes, ctx.PointerSize(), offset);
        MembersDescribed(ctx, members, bytes[offset..end], 0);
        ElementsDescribed(ctx, members, count - 1, bytes, end);
    }
  }

  /** There is only one such document: describing it is knowing it. */
  lemma {:induction false} OneDocument(ctx: Context, property: Property, buffer: seq<byte>, a: Json, b: Json)
    requires Describes(ctx, property, buffer, a) && Describes(ctx, property, buffer, b)
    ensures a == b
    decreases property, 2, 0
  {
    hide MemberSlices, CarriedCount, ElementEnd;
    match property.info
    case Struct(members) =>
      OneEntries(ctx, members, MemberSlices(members, buffer, 0, ctx.PointerSize()), a.entries, b.entries);
    case StructArray(members, count) =>
      if a.List? {
        OneItems(ctx, members, |a.items|, buffer, 0, a.items, b.items);
      }
    case _ =>
  }

  lemma {:induction false} OneEntries(
    ctx: Context, members: seq<Property>, slices: seq<seq<byte>>, a: seq<(string, Json)>, b: seq<(string, Json)>)
    requires EntriesDescribe(ctx, members, slices, a) && EntriesDescribe(ctx, members, slices, b)
    ensures a == b
    decreases members, 0, 0
  {
    hide Describes;
    if members != [] {
      if slices != [] {
        OneDocument(ctx, members[0], slices[0], a[0].1, b[0].1);
      }
      OneEntries(ctx, members[1..], if slices == [] then [] else slices[1..], a[1..], b[1..]);
      assert a == [a[0]] + a[1..] && b == [b[0]] + b[1..];
    }
  }

  lemma {:induction false} OneItems(
    ctx: Context, members: seq<Property>, count: nat, bytes: seq<byte>, offset: nat, a: seq<Json>, b: seq<Json>)
    requires ItemsDescribe(ctx, members, count, bytes, offset, a)
    requires ItemsDescribe(ctx, members, count, bytes, offset, b)
    ensures a == b
    decreases members, 1, count
  {
    hide ElementEnd, EntriesDescribe, MemberSlices;
    if count > 0 && ElementEnd(members, bytes, offset, ctx.PointerSize()).Some? {
      var end := ElementEnd(members, bytes, offset, ctx.PointerSize()).value;
      OneEntries(ctx, members, MemberSlices(members, bytes, offset, ctx.PointerSize()), a[0].entries, b[0].entries);
      OneItems(ctx, members, count - 1, bytes, end, a[1..], b[1..]);
      assert a == [a[0]] + a[1..] && b == [b[0]] + b[1..];
    }
  }

  // ---------- the whole event ----------

  /** The document of an event: one entry per property, in order and under its name. */
  predicate EventDescribed(ctx: Context, json: Json) {
    && json.Map?
    && |json.entries| == |ctx.ev.properties|
    && forall j :: 0 <= j < |ctx.ev.properties| ==>
         && json.entries[j].0 == ctx.ev.properties[j].name
         && match SliceAt(ctx.ev, j)
            case Ok(slice) => Describes(ctx, ctx.ev.properties[j], slice.buffer, json.entries[j].1)
            case Err(_) => json.entries[j].1 == JsonNull
  }

  /** Whether every property is located and decodes. */
  predicate EventDecodes(ctx: Context) {
    forall j :: 0 <= j < |ctx.ev.properties| ==>
      SliceAt(ctx.ev, j).Ok? && Decodable(ctx, ctx.ev.properties[j], SliceAt(ctx.ev, j).value.buffer)
  }

  /** The event serializer, in full: a strict document exists exactly when every property is located and
      decodes, a lenient one always does, and it is the one document the event's bytes describe. */
  lemma DocumentIff(ctx: Context, json: Json)
    ensures SerEvent(ctx) == Ok(json) <==> EventDescribed(ctx, json) && (ctx.strict ==> EventDecodes(ctx))
  {
    hide EventDescribed, SerEvent;
    EventSucceedsIff(ctx);
    if SerEvent(ctx).Ok? {
      EventIsDescribed(ctx);
      if EventDescribed(ctx, json) {
        OneEventDocument(ctx, json, SerEvent(ctx).value);
      }
    }
  }

  lemma EventIsDescribed(ctx: Context)
    requires SerEvent(ctx).Ok?
    ensures EventDescribed(ctx, SerEvent(ctx).value)
  {
    hide SliceAt, SerProperty, Describes, SerEvent;
    EventShaped(ctx);
    var entries := SerEvent(ctx).value.entries;
    EntriesCount(ctx, ctx.ev.properties, entries);
    forall j | 0 <= j < |ctx.ev.properties| && SliceAt(ctx.ev, j).Ok?
      ensures Describes(ctx, ctx.ev.properties[j], SliceAt(ctx.ev, j).value.buffer, entries[j].1)
    {
      EntriesAreValues(ctx, j);
      PropertyDescribed(ctx, ctx.ev.properties[j], SliceAt(ctx.ev, j).value.buffer);
    }
  }

  lemma OneEventDocument(ctx: Context, a: Json, b: Json)
    requires EventDescribed(ctx, a) && EventDescribed(ctx, b)
    ensures a == b
  {
    hide SliceAt, Describes;
    forall j | 0 <= j < |ctx.ev.properties| ensures a.entries[j] == b.entries[j] {
      if SliceAt(ctx.ev, j).Ok? {
        var slice := SliceAt(ctx.ev, j).value;
        OneDocument(ctx, ctx.ev.properties[j], slice.buffer, a.entries[j].1, b.entries[j].1);
      }
    }
    assert a.entries == b.entries;
  }

  lemma EventSucceedsIff(ctx: Context)
    ensures SerEvent(ctx).Ok? <==> !ctx.strict || EventDecodes(ctx)
  {
    hide SliceAt, SerProperty, Decodable;
    EventSucceedsFrom(ctx, 0);
  }

  lemma {:induction false} EventSucceedsFrom(ctx: Context, k: nat)
    requires k <= |ctx.ev.properties|
    ensures SerFrom(ctx, k).Ok?
            <==> !ctx.strict
                 || forall j :: k <= j < |ctx.ev.properties| ==>
                      SliceAt(ctx.ev, j).Ok? && Decodable(ctx, ctx.ev.properties[j], SliceAt(ctx.ev, j).value.buffer)
    decreases |ctx.ev.properties| - k
  {
    hide SliceAt, SerProperty, Decodable;
    if k < |ctx.ev.properties| {
      EventSucceedsFrom(ctx, k + 1);
      if SliceAt(ctx.ev, k).Ok? {
        PropertyDescribed(ctx, ctx.ev.properties[k], SliceAt(ctx.ev, k).value.buffer);
      }
    }
  }

  /** The entry of a located property that is no structure: what its decoder renders from its own bytes, or
      null, in lenient mode only, when it has no handler or does not decode. */
  lemma LeafEntryIsDecoded(ctx: Context, j: nat, text: string)
    requires j < |ctx.ev.properties| && SerEvent(ctx).Ok? && SliceAt(ctx.ev, j).Ok?
    requires !ctx.ev.properties[j].info.Struct? && !ctx.ev.properties[j].info.StructArray?
    ensures SerEvent(ctx).value.Map? && j < |SerEvent(ctx).value.entries|
    ensures var property, buffer := ctx.ev.properties[j], SliceAt(ctx.ev, j).value.buffer;
            var value := SerEvent(ctx).value.entries[j].1;
            && (value == Leaf(text) <==> ctx.hasHandler(property) && ctx.decode(property, buffer) == Some(text))
            && (value == JsonNull <==> !(ctx.hasHandler(property) && ctx.decode(property, buffer).Some?))
            && (value == JsonNull ==> !ctx.strict)
  {
    hide SliceAt, SerEvent;
    DocumentIff(ctx, SerEvent(ctx).value);
  }
}
