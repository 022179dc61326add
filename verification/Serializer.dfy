/** The event serializer: cursors over packed bytes, driving the parser's cache as it goes. */
module Serializer {
  import opened Wrappers
  import opened Bytes
  import opened TdhTypes
  import opened Sizing
  import opened Walk
  import opened ParseCache
  import opened Parser
  import opened SerializeSpec

  function Prepend<T>(front: seq<T>, back: Result<seq<T>, SerError>): Result<seq<T>, SerError> {
    match back
    case Ok(b) => Ok(front + b)
    case Err(e) => Err(e)
  }

  lemma PrependNothing<T>(back: Result<seq<T>, SerError>)
    ensures Prepend([], back) == back
  {
    assert back.Ok? ==> [] + back.value == back.value;
  }

  lemma PrependOneMore<T>(front: seq<T>, t: T, back: Result<seq<T>, SerError>)
    ensures Prepend(front + [t], back) == Prepend(front, Prepend([t], back))
  {
    assert back.Ok? ==> front + [t] + back.value == front + ([t] + back.value);
  }

  /** Slices a member out and advances past it. */
  method TakeMember(member: Property, bytes: seq<byte>, offset: nat, pointerSize: nat)
    returns (buffer: Option<seq<byte>>, newOffset: nat)
    requires pointerSize == 4 || pointerSize == 8
    ensures buffer == MemberBuffer(member, bytes, offset, pointerSize)
    ensures newOffset == offset + if buffer.Some? then |buffer.value| else 0
  {
    newOffset := offset;
    var size := FixedSize(member, pointerSize);
    if size.None? {
      if offset > |bytes| {
        return None, offset;
      }
      size := VariableMemberSize(member, bytes[offset..]);
      if size.None? {
        return None, offset;
      }
    }
    if offset > |bytes| || size.value > |bytes[offset..]| {
      return None, offset;
    }
    assert bytes[offset..][..size.value] == bytes[offset..offset + size.value];
    buffer := Some(bytes[offset..][..size.value]);
    newOffset := offset + size.value;
  }

  method FindElementEnd(members: seq<Property>, bytes: seq<byte>, start: nat, pointerSize: nat)
    returns (end: Option<nat>)
    requires pointerSize == 4 || pointerSize == 8
    ensures end == ElementEnd(members, bytes, start, pointerSize)
  {
    hide MemberBuffer;
    var offset := start;
    for pos := 0 to |members|
      invariant ElementEnd(members, bytes, start, pointerSize)
                == ElementEnd(members[pos..], bytes, offset, pointerSize)
    {
      var buffer;
      buffer, offset := TakeMember(members[pos], bytes, offset, pointerSize);
      if buffer.None? {
        return None;
      }
      assert members[pos..][1..] == members[pos + 1..];
    }
    return Some(offset);
  }

  method ResolveCount(parser: Parser, count: PropertyCount) returns (r: Option<nat>)
    requires parser.Valid()
    modifies parser
    ensures parser.Valid()
    ensures r == ResolveStructCount(parser.ev, count)
  {
    match count
    case Count(c) => return Some(c);
    case CountIndex(index) =>
      if index >= |parser.ev.properties| {
        return None;
      }
      BytesAtIsSlice(parser.ev, parser.Cached(), index);
      var bytes := parser.PropertyBytesAt(index);
      if bytes.Err? {
        return None;
      }
      return IndexValueFromBytes(bytes.value);
  }

  method SerializeProperty(parser: Parser, ctx: Context, property: Property, buffer: seq<byte>)
    returns (r: Result<Json, SerError>)
    requires parser.Valid() && parser.ev == ctx.ev
    modifies parser
    ensures parser.Valid()
    ensures r == SerProperty(ctx, property, buffer)
    decreases property, 2
  {
    match property.info
    case Struct(members) =>
      var entries := SerializeStruct(parser, ctx, members, buffer);
      if entries.Err? {
        return Err(entries.error);
      }
      return Ok(Map(entries.value));
    case StructArray(members, count) =>
      var c := ResolveCount(parser, count);
      if c.None? {
        if ctx.strict {
          return Err(UnresolvedCount(property.name));
        }
        return Ok(JsonNull);
      }
      var items := SerializeStructArray(parser, ctx, members, c.value, buffer);
      if items.Err? {
        return Err(items.error);
      }
      return Ok(List(items.value));
    case _ =>
      if !ctx.hasHandler(property) {
        return if ctx.strict then Err(NotImplemented(property.name)) else Ok(JsonNull);
      }
      var text := ctx.decode(property, buffer);
      if text.Some? {
        return Ok(Leaf(text.value));
      }
      return if ctx.strict then Err(DecodeFailed(property.name)) else Ok(JsonNull);
  }

  lemma NoMembers(ctx: Context, bytes: seq<byte>, offset: nat)
    ensures SerMembers(ctx, [], bytes, offset) == Ok([])
  {
  }

  /** What the member at `pos` adds to the entries from there on. */
  lemma NextMember(ctx: Context, members: seq<Property>, pos: nat, bytes: seq<byte>, offset: nat)
    requires pos < |members|
    ensures SerMembers(ctx, members[pos..], bytes, offset)
            == match MemberBuffer(members[pos], bytes, offset, ctx.PointerSize())
               case None => Ok(NullEntries(members[pos..]))
               case Some(buffer) =>
                 match SerProperty(ctx, members[pos], buffer)
                 case Err(e) => Err(e)
                 case Ok(value) =>
                   Prepend([(members[pos].name, value)], SerMembers(ctx, members[pos + 1..], bytes, offset + |buffer|))
  {
    hide SerProperty, MemberBuffer;
    assert members[pos..][1..] == members[pos + 1..];
  }

  /** One structure: its members sliced at a single advancing cursor. */
  method SerializeStruct(parser: Parser, ctx: Context, members: seq<Property>, bytes: seq<byte>)
    returns (r: Result<seq<(string, Json)>, SerError>)
    requires parser.Valid() && parser.ev == ctx.ev
    modifies parser
    ensures parser.Valid()
    ensures r == SerMembers(ctx, members, bytes, 0)
    decreases members, 0
  {
    hide SerProperty, MemberBuffer, SerMembers;
    var map': seq<(string, Json)> := [];
    var offset: nat := 0;
    PrependNothing(SerMembers(ctx, members, bytes, 0));
    for pos := 0 to |members|
      invariant parser.Valid()
      invariant SerMembers(ctx, members, bytes, 0)
                == Prepend(map', SerMembers(ctx, members[pos..], bytes, offset))
    {
      var member := members[pos];
      NextMember(ctx, members, pos, bytes, offset);
      var buffer;
      buffer, offset := TakeMember(member, bytes, offset, ctx.PointerSize());
      if buffer.None? {
        return Ok(map' + NullEntries(members[pos..]));
      }
      var value := SerializeProperty(parser, ctx, member, buffer.value);
      if value.Err? {
        return Err(value.error);
      }
      PrependOneMore(map', (member.name, value.value), SerMembers(ctx, members[pos + 1..], bytes, offset));
      map' := map' + [(member.name, value.value)];
    }
    NoMembers(ctx, bytes, offset);
    assert map' + [] == map';
    return Ok(map');
  }

  /** An array of structures: each element is bounded first, then serialized from its own bytes. */
  method SerializeStructArray(parser: Parser, ctx: Context, members: seq<Property>, count: nat, bytes: seq<byte>)
    returns (r: Result<seq<Json>, SerError>)
    requires parser.Valid() && parser.ev == ctx.ev
    modifies parser
    ensures parser.Valid()
    ensures r == SerElements(ctx, members, count, bytes, 0)
    decreases members, 1
  {
    hide SerMembers, ElementEnd;
    var items: seq<Json> := [];
    var offset: nat := 0;
    PrependNothing(SerElements(ctx, members, count, bytes, 0));
    for i := 0 to count
      invariant parser.Valid()
      invariant offset <= |bytes|
      invariant SerElements(ctx, members, count, bytes, 0)
                == Prepend(items, SerElements(ctx, members, count - i, bytes, offset))
    {
      var end := FindElementEnd(members, bytes, offset, ctx.PointerSize());
      if end.None? {
        return Ok(items + Nulls(count - i));
      }
      var entries := SerializeStruct(parser, ctx, members, bytes[offset..end.value]);
      if entries.Err? {
        return Err(entries.error);
      }
      PrependOneMore(items, Map(entries.value), SerElements(ctx, members, count - i - 1, bytes, end.value));
      items := items + [Map(entries.value)];
      offset := end.value;
    }
    assert items + [] == items;
    return Ok(items);
  }

  /** The whole event, one entry per top-level property. */
  method SerializeEvent(parser: Parser, ctx: Context) returns (r: Result<Json, SerError>)
    requires parser.Valid() && parser.ev == ctx.ev
    modifies parser
    ensures parser.Valid()
    ensures r == SerEvent(ctx)
  {
    hide SerProperty, SliceAt, BytesAt, WalkTo;
    var props := ctx.ev.properties;
    var state: seq<(string, Json)> := [];
    PrependNothing(SerFrom(ctx, 0));
    for index := 0 to |props|
      invariant parser.Valid()
      invariant SerFrom(ctx, 0) == Prepend(state, SerFrom(ctx, index))
    {
      BytesAtIsSlice(ctx.ev, parser.Cached(), index);
      var buffer := parser.PropertyBytesAt(index);
      if buffer.Err? {
        if ctx.strict {
          return Err(CannotLocate(buffer.error));
        }
        return Ok(Map(state + NullEntries(props[index..])));
      }
      var value := SerializeProperty(parser, ctx, props[index], buffer.value);
      if value.Err? {
        return Err(value.error);
      }
      PrependOneMore(state, (props[index].name, value.value), SerFrom(ctx, index + 1));
      state := state + [(props[index].name, value.value)];
    }
    assert state + [] == state;
    return Ok(Map(state));
  }
}
