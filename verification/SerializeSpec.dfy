/** What the event serializer emits: a walk of the properties whose structures are sliced again out of
    their own bytes. */
module SerializeSpec {
  import opened Wrappers
  import opened Bytes
  import opened TdhTypes
  import opened Sizing
  import opened Walk

  /** The emitted document. A leaf is a rendered value; `JsonNull` is the degraded form of a property that
      cannot be decoded. */
  datatype Json = JsonNull | Leaf(text: string) | Map(entries: seq<(string, Json)>) | List(items: seq<Json>)

  datatype SerError =
    | CannotLocate(cause: ParserError)
    | UnresolvedCount(name: string)
    | NotImplemented(name: string)
    | DecodeFailed(name: string)

  /** The event, the decoders of its leaves, and the `fail_unimplemented` option. `hasHandler` says
      whether a handler exists for a property, `decode` renders its bytes or fails. */
  datatype Context = Context(
    ev: Event, hasHandler: Property -> bool, decode: (Property, seq<byte>) -> Option<string>, strict: bool)
  {
    function PointerSize(): (n: nat)
      ensures n == 4 || n == 8
    {
      ev.record.PointerSize()
    }
  }

  /** `member_buffer`: the bytes of the member at `offset`, `None` when it cannot be located. */
  function MemberBuffer(member: Property, bytes: seq<byte>, offset: nat, pointerSize: nat): (r: Option<seq<byte>>)
    requires pointerSize == 4 || pointerSize == 8
    ensures r.Some? ==> offset + |r.value| <= |bytes| && r.value == bytes[offset..offset + |r.value|]
  {
    if offset > |bytes| then None
    else
      var size :- MemberSize(member, bytes[offset..], pointerSize);
      if size > |bytes| - offset then None else Some(bytes[offset..offset + size])
  }

  /** `element_end`: where the element starting at `start` ends. */
  function ElementEnd(members: seq<Property>, bytes: seq<byte>, start: nat, pointerSize: nat): (end: Option<nat>)
    requires pointerSize == 4 || pointerSize == 8
    ensures end.Some? && start <= |bytes| ==> start <= end.value <= |bytes|
  {
    if members == [] then Some(start)
    else
      var buffer :- MemberBuffer(members[0], bytes, start, pointerSize);
      ElementEnd(members[1..], bytes, start + |buffer|, pointerSize)
  }

  /** `resolve_struct_count`. */
  function ResolveStructCount(ev: Event, count: PropertyCount): (r: Option<nat>)
    ensures count.Count? ==> r == Some(count.count)
  {
    match count
    case Count(c) => Some(c)
    case CountIndex(index) =>
      if index >= |ev.properties| then None
      else
        match SliceAt(ev, index)
        case Ok(slice) => IndexValueFromBytes(slice.buffer)
        case Err(_) => None
  }

  function NullEntries(properties: seq<Property>): (r: seq<(string, Json)>)
    ensures |r| == |properties|
  {
    seq(|properties|, i requires 0 <= i < |properties| => (properties[i].name, JsonNull))
  }

  function Nulls(count: nat): (r: seq<Json>)
    ensures |r| == count
  {
    seq(count, _ => JsonNull)
  }

  /** `ser_property`: the value written for a property located at `buffer`. */
  function SerProperty(ctx: Context, property: Property, buffer: seq<byte>): Result<Json, SerError>
    decreases property, 2, 0
  {
    match property.info
    case Struct(members) =>
      var entries :- SerMembers(ctx, members, buffer, 0);
      Ok(Map(entries))
    case StructArray(members, count) =>
      (match ResolveStructCount(ctx.ev, count)
       case Some(c) =>
         var items :- SerElements(ctx, members, c, buffer, 0);
         Ok(List(items))
       case None => if ctx.strict then Err(UnresolvedCount(property.name)) else Ok(JsonNull))
    case _ => SerLeaf(ctx, property, buffer)
  }

  function SerLeaf(ctx: Context, property: Property, buffer: seq<byte>): Result<Json, SerError> {
    if !ctx.hasHandler(property) then
      if ctx.strict then Err(NotImplemented(property.name)) else Ok(JsonNull)
    else
      match ctx.decode(property, buffer)
      case Some(text) => Ok(Leaf(text))
      case None => if ctx.strict then Err(DecodeFailed(property.name)) else Ok(JsonNull)
  }

  /** The entries of the members from `offset` on: those past the first member that cannot be located
      are null, in strict mode too. */
  function SerMembers(ctx: Context, members: seq<Property>, bytes: seq<byte>, offset: nat)
    : Result<seq<(string, Json)>, SerError>
    decreases members, 0, 0
  {
    if members == [] then Ok([])
    else
      match MemberBuffer(members[0], bytes, offset, ctx.PointerSize())
      case None => Ok(NullEntries(members))
      case Some(buffer) =>
        var value :- SerProperty(ctx, members[0], buffer);
        var rest :- SerMembers(ctx, members[1..], bytes, offset + |buffer|);
        Ok([(members[0].name, value)] + rest)
  }

  /** The last `count` elements of a structure array, from `offset` on. */
  function SerElements(ctx: Context, members: seq<Property>, count: nat, bytes: seq<byte>, offset: nat)
    : Result<seq<Json>, SerError>
    requires offset <= |bytes|
    decreases members, 1, count
  {
    if count == 0 then Ok([])
    else
      var end := ElementEnd(members, bytes, offset, ctx.PointerSize());
      if end.None? then Ok(Nulls(count))
      else
        var entries :- SerMembers(ctx, members, bytes[offset..end.value], 0);
        var rest :- SerElements(ctx, members, count - 1, bytes, end.value);
        Ok([Map(entries)] + rest)
  }

  /** The entries of the top-level properties from the `k`-th on. */
  function SerFrom(ctx: Context, k: nat): Result<seq<(string, Json)>, SerError>
    requires k <= |ctx.ev.properties|
    decreases |ctx.ev.properties| - k
  {
    if k == |ctx.ev.properties| then Ok([])
    else
      match SliceAt(ctx.ev, k)
      case Err(e) => if ctx.strict then Err(CannotLocate(e)) else Ok(NullEntries(ctx.ev.properties[k..]))
      case Ok(slice) =>
        var property := ctx.ev.properties[k];
        var value :- SerProperty(ctx, property, slice.buffer);
        var rest :- SerFrom(ctx, k + 1);
        Ok([(property.name, value)] + rest)
  }

  function SerEvent(ctx: Context): Result<Json, SerError> {
    var entries :- SerFrom(ctx, 0);
    Ok(Map(entries))
  }
}
