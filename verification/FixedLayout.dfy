/** A structure given exactly as many bytes as its schema fixes is tiled by its members, unless adding
    up the declared sizes wrapped around. */
module FixedLayout {
  import opened Wrappers
  import opened Bytes
  import opened TdhTypes
  import opened Sizing
  import opened Walk
  import opened SerializeSpec
  import opened TwoPasses
  import opened SerializeShape

  /** The exact, unbounded sum of the members' fixed sizes. */
  function ExactSum(members: seq<Property>, pointerSize: nat): nat
    requires pointerSize == 4 || pointerSize == 8
    requires SumFixedSizes(members, pointerSize).Some?
  {
    if members == [] then 0
    else FixedSize(members[0], pointerSize).value + ExactSum(members[1..], pointerSize)
  }

  lemma {:induction false} SumWraps(members: seq<Property>, pointerSize: nat)
    requires pointerSize == 4 || pointerSize == 8
    requires SumFixedSizes(members, pointerSize).Some?
    ensures SumFixedSizes(members, pointerSize).value == ExactSum(members, pointerSize) % USIZE_LIMIT
    decreases |members|
  {
    hide FixedSize;
    if members != [] {
      SumWraps(members[1..], pointerSize);
      AddModulo(FixedSize(members[0], pointerSize).value, ExactSum(members[1..], pointerSize));
    }
  }

  lemma AddModulo(a: nat, b: nat)
    ensures (a + b % USIZE_LIMIT) % USIZE_LIMIT == (a + b) % USIZE_LIMIT
  {
  }

  /** No structure of the tree declares more bytes than `usize` can count. */
  predicate NoWrap(property: Property, pointerSize: nat)
    requires pointerSize == 4 || pointerSize == 8
    requires FixedSize(property, pointerSize).Some?
    decreases property, 1
  {
    match property.info
    case Struct(members) => NoWrapMembers(members, pointerSize)
    case StructArray(members, count) => count.count == 0 || NoWrapMembers(members, pointerSize)
    case _ => true
  }

  predicate NoWrapMembers(members: seq<Property>, pointerSize: nat)
    requires pointerSize == 4 || pointerSize == 8
    requires SumFixedSizes(members, pointerSize).Some?
    decreases members, 2
  {
    ExactSum(members, pointerSize) < USIZE_LIMIT && NoneWraps(members, pointerSize)
  }

  predicate NoneWraps(members: seq<Property>, pointerSize: nat)
    requires pointerSize == 4 || pointerSize == 8
    requires SumFixedSizes(members, pointerSize).Some?
    decreases members, 0
  {
    members == [] || (NoWrap(members[0], pointerSize) && NoneWraps(members[1..], pointerSize))
  }

  /** Every member and element is located, at every level of nesting, and they exhaust the bytes. */
  predicate Tiles(property: Property, bytes: seq<byte>, pointerSize: nat)
    requires pointerSize == 4 || pointerSize == 8
    decreases property, 2, 0
  {
    match property.info
    case Struct(members) => MembersTile(members, bytes, 0, pointerSize)
    case StructArray(members, count) =>
      count.Count? ==> ElementsTile(members, count.count, bytes, 0, pointerSize)
    case _ => true
  }

  predicate MembersTile(members: seq<Property>, bytes: seq<byte>, offset: nat, pointerSize: nat)
    requires pointerSize == 4 || pointerSize == 8
    decreases members, 0, 0
  {
    if members == [] then offset == |bytes|
    else
      match MemberBuffer(members[0], bytes, offset, pointerSize)
      case None => false
      case Some(buffer) =>
        && Tiles(members[0], buffer, pointerSize)
        && MembersTile(members[1..], bytes, offset + |buffer|, pointerSize)
  }

  predicate ElementsTile(members: seq<Property>, count: nat, bytes: seq<byte>, offset: nat, pointerSize: nat)
    requires pointerSize == 4 || pointerSize == 8
    requires offset <= |bytes|
    decreases members, 1, count
  {
    if count == 0 then offset == |bytes|
    else
      match ElementEnd(members, bytes, offset, pointerSize)
      case None => false
      case Some(end) =>
        && MembersTile(members, bytes[offset..end], 0, pointerSize)
        && ElementsTile(members, count - 1, bytes, end, pointerSize)
  }

  /** By induction on nesting: given exactly its fixed size, a property is tiled by its parts if and
      only if no declared sum wraps around. */
  lemma {:induction false} FixedLayoutTilesIff(property: Property, bytes: seq<byte>, pointerSize: nat)
    requires pointerSize == 4 || pointerSize == 8
    requires FixedSize(property, pointerSize) == Some(|bytes|)
    ensures Tiles(property, bytes, pointerSize) <==> NoWrap(property, pointerSize)
    decreases property, 2, 0
  {
    hide MembersTile, ElementsTile, NoneWraps, SumFixedSizes, MemberBuffer;
    match property.info
    case Struct(members) =>
      MembersTileIff(members, bytes, 0, pointerSize);
      SumWraps(members, pointerSize);
      WrapsUnless(ExactSum(members, pointerSize), |bytes|);
    case StructArray(members, count) => ElementsTileIff(members, count.count, bytes, pointerSize);
    case _ =>
  }

  lemma FixedMemberBuffer(member: Property, bytes: seq<byte>, offset: nat, pointerSize: nat)
    requires pointerSize == 4 || pointerSize == 8
    requires FixedSize(member, pointerSize).Some?
    ensures MemberBuffer(member, bytes, offset, pointerSize)
            == var end := offset + FixedSize(member, pointerSize).value;
               if end <= |bytes| then Some(bytes[offset..end]) else None
  {
  }

  lemma {:induction false} MembersTileIff(members: seq<Property>, bytes: seq<byte>, offset: nat, pointerSize: nat)
    requires pointerSize == 4 || pointerSize == 8
    requires SumFixedSizes(members, pointerSize).Some?
    requires offset <= |bytes|
    ensures MembersTile(members, bytes, offset, pointerSize)
            <==> offset + ExactSum(members, pointerSize) == |bytes| && NoneWraps(members, pointerSize)
    decreases members, 0, 0
  {
    hide MemberBuffer, FixedSize;
    if members != [] {
      var size := FixedSize(members[0], pointerSize).value;
      FixedMemberBuffer(members[0], bytes, offset, pointerSize);
      if offset + size <= |bytes| {
        FixedLayoutTilesIff(members[0], bytes[offset..offset + size], pointerSize);
        MembersTileIff(members[1..], bytes, offset + size, pointerSize);
      }
    }
  }

  lemma {:induction false} ElementEndOfFixed(members: seq<Property>, bytes: seq<byte>, start: nat, pointerSize: nat)
    requires pointerSize == 4 || pointerSize == 8
    requires SumFixedSizes(members, pointerSize).Some?
    requires start <= |bytes|
    ensures ElementEnd(members, bytes, start, pointerSize)
            == var end := start + ExactSum(members, pointerSize);
               if end <= |bytes| then Some(end) else None
    decreases |members|
  {
    hide MemberBuffer, FixedSize;
    if members != [] {
      var size := FixedSize(members[0], pointerSize).value;
      FixedMemberBuffer(members[0], bytes, start, pointerSize);
      if start + size <= |bytes| {
        ElementEndOfFixed(members[1..], bytes, start + size, pointerSize);
      }
    }
  }

  /** The elements from `offset` on tile the rest of the bytes exactly when they add up to it and
      nothing inside wraps. */
  lemma {:induction false} ElementsTileFrom(
    members: seq<Property>, count: nat, bytes: seq<byte>, offset: nat, pointerSize: nat)
    requires pointerSize == 4 || pointerSize == 8
    requires SumFixedSizes(members, pointerSize).Some?
    requires offset <= |bytes|
    ensures ElementsTile(members, count, bytes, offset, pointerSize)
            <==> && offset + count * ExactSum(members, pointerSize) == |bytes|
                 && (count > 0 ==> NoneWraps(members, pointerSize))
    decreases members, 1, count
  {
    hide FixedSize, ElementEnd, MembersTile;
    if count > 0 {
      var sum := ExactSum(members, pointerSize);
      var end := offset + sum;
      assert count * sum == sum + (count - 1) * sum;
      assert (count - 1) * sum >= 0;
      ElementEndOfFixed(members, bytes, offset, pointerSize);
      if end <= |bytes| {
        MembersTileIff(members, bytes[offset..end], 0, pointerSize);
        ElementsTileFrom(members, count - 1, bytes, end, pointerSize);
      }
    }
  }

  /** The elements tile a buffer of the computed array size exactly when there are none, or none of the
      sums wraps. */
  lemma {:induction false} ElementsTileIff(members: seq<Property>, count: nat, bytes: seq<byte>, pointerSize: nat)
    requires pointerSize == 4 || pointerSize == 8
    requires SumFixedSizes(members, pointerSize).Some?
    requires |bytes| == SumFixedSizes(members, pointerSize).value * count
    ensures ElementsTile(members, count, bytes, 0, pointerSize)
            <==> count == 0 || NoWrapMembers(members, pointerSize)
    decreases members, 1, count + 1
  {
    hide ElementsTile, NoneWraps, SumFixedSizes;
    ElementsTileFrom(members, count, bytes, 0, pointerSize);
    SumWraps(members, pointerSize);
    EqualProducts(SumFixedSizes(members, pointerSize).value, ExactSum(members, pointerSize), count);
    WrapsUnless(ExactSum(members, pointerSize), SumFixedSizes(members, pointerSize).value);
  }

  lemma WrapsUnless(sum: nat, wrapped: nat)
    requires wrapped == sum % USIZE_LIMIT
    ensures sum == wrapped <==> sum < USIZE_LIMIT
  {
  }

  lemma EqualProducts(a: nat, b: nat, count: nat)
    ensures count > 0 ==> (a * count == count * b <==> a == b)
  {
    if count > 0 && a * count == count * b {
      assert count * (a - b) == 0;
    }
  }

  /** A top-level structure array whose count is held by an earlier property: the count the walk sized
      it with is the one the serializer reads again, and with fixed-size elements exactly that many
      elements tile its bytes (unless a sum wraps, or it is empty). */
  lemma BackwardCountTilesIff(ev: Event, k: nat)
    requires k < |ev.properties| && SliceAt(ev, k).Ok?
    requires ev.properties[k].info.StructArray? && ev.properties[k].info.count.CountIndex?
    requires ev.properties[k].info.count.index < k
    requires SumFixedSizes(ev.properties[k].info.members, ev.record.PointerSize()).Some?
    requires ResolveStructCount(ev, ev.properties[k].info.count).Some?
    requires SumFixedSizes(ev.properties[k].info.members, ev.record.PointerSize()).value
             * ResolveStructCount(ev, ev.properties[k].info.count).value < USIZE_LIMIT
    ensures var info, buffer := ev.properties[k].info, SliceAt(ev, k).value.buffer;
            var count := ResolveStructCount(ev, info.count).value;
            && |buffer| == SumFixedSizes(info.members, ev.record.PointerSize()).value * count
            && (ElementsTile(info.members, count, buffer, 0, ev.record.PointerSize())
                <==> count == 0 || NoWrapMembers(info.members, ev.record.PointerSize()))
  {
    hide ElementsTile, NoneWraps, ContentSize, ElementSize, NextSlice;
    var info, buffer := ev.properties[k].info, SliceAt(ev, k).value.buffer;
    SliceAtIsSized(ev, k);
    SliceAtWithin(ev, k, info.count.index);
    ElementsTileIff(info.members, ResolveStructCount(ev, info.count).value, buffer, ev.record.PointerSize());
  }

  // ---------- what tiles is serialized in full ----------

  /** Where the `i`-th element of a structure array starts. */
  function ElementStart(members: seq<Property>, bytes: seq<byte>, offset: nat, i: nat, pointerSize: nat): (start: nat)
    requires pointerSize == 4 || pointerSize == 8
    requires offset <= |bytes|
    ensures offset <= start <= |bytes|
    decreases i
  {
    if i == 0 then offset
    else
      match ElementEnd(members, bytes, offset, pointerSize)
      case None => offset
      case Some(end) => ElementStart(members, bytes, end, i - 1, pointerSize)
  }

  /** The item holds one entry per member, each the member's own value read from the element's bytes. */
  ghost predicate ReadsElement(ctx: Context, members: seq<Property>, bytes: seq<byte>, start: nat, item: Json) {
    var slices := MemberSlices(members, bytes, start, ctx.PointerSize());
    && item.Map?
    && |item.entries| == |members| == |slices|
    && forall k :: 0 <= k < |members| ==>
         && item.entries[k].0 == members[k].name
         && SerProperty(ctx, members[k], slices[k]) == Ok(item.entries[k].1)
  }

  /** Elements that tile their buffer are serialized in full: the `i`-th item holds every member's own value,
      read from the `i`-th element. */
  lemma {:induction false} TiledElementsAreMaps(
    ctx: Context, members: seq<Property>, count: nat, bytes: seq<byte>, offset: nat)
    requires offset <= |bytes|
    requires ElementsTile(members, count, bytes, offset, ctx.PointerSize())
    requires SerElements(ctx, members, count, bytes, offset).Ok?
    ensures var items := SerElements(ctx, members, count, bytes, offset).value;
            && |items| == count
            && forall i :: 0 <= i < count ==>
                 ReadsElement(ctx, members, bytes, ElementStart(members, bytes, offset, i, ctx.PointerSize()), items[i])
    decreases count
  {
    hide SerMembers, SerProperty, ElementEnd, MemberSlices, MembersTile, ReadsElement;
    if count > 0 {
      var end := ElementEnd(members, bytes, offset, ctx.PointerSize()).value;
      BoundedElementIsRead(ctx, members, bytes, offset);
      TiledElementsAreMaps(ctx, members, count - 1, bytes, end);
      var items, rest := SerElements(ctx, members, count, bytes, offset).value,
                         SerElements(ctx, members, count - 1, bytes, end).value;
      forall i | 0 <= i < count
        ensures ReadsElement(ctx, members, bytes, ElementStart(members, bytes, offset, i, ctx.PointerSize()), items[i])
      {
        if i > 0 {
          assert items[i] == rest[i - 1];
        }
      }
    }
  }

  lemma BoundedElementIsRead(ctx: Context, members: seq<Property>, bytes: seq<byte>, start: nat)
    requires start <= |bytes|
    requires ElementEnd(members, bytes, start, ctx.PointerSize()).Some?
    ensures var end := ElementEnd(members, bytes, start, ctx.PointerSize()).value;
            var entries := SerMembers(ctx, members, bytes[start..end], 0);
            entries.Ok? ==> ReadsElement(ctx, members, bytes, start, Map(entries.value))
  {
    hide SerMembers, SerProperty, ElementEnd, MemberSlices;
    BoundedElementIsFullyLocated(ctx, members, bytes, start);
  }

  /** A property tiled by its parts is located in full, at every level of nesting. */
  lemma {:induction false} TiledIsLocated(ctx: Context, property: Property, bytes: seq<byte>)
    requires FixedSize(property, ctx.PointerSize()).Some?
    requires Tiles(property, bytes, ctx.PointerSize())
    ensures Located(ctx, property, bytes)
    decreases property, 2, 0
  {
    match property.info
    case Struct(members) => TiledMembersAreLocated(ctx, members, bytes, 0);
    case StructArray(members, count) => TiledElementsAreLocated(ctx, members, count.count, bytes, 0);
    case _ =>
  }

  lemma {:induction false} TiledMembersAreLocated(ctx: Context, members: seq<Property>, bytes: seq<byte>, offset: nat)
    requires SumFixedSizes(members, ctx.PointerSize()).Some?
    requires MembersTile(members, bytes, offset, ctx.PointerSize())
    ensures MembersLocated(ctx, members, bytes, offset)
    decreases members, 0, 0
  {
    hide MemberBuffer, FixedSize, Tiles, Located;
    if members != [] {
      var buffer := MemberBuffer(members[0], bytes, offset, ctx.PointerSize()).value;
      TiledIsLocated(ctx, members[0], buffer);
      TiledMembersAreLocated(ctx, members[1..], bytes, offset + |buffer|);
    }
  }

  lemma {:induction false} TiledElementsAreLocated(
    ctx: Context, members: seq<Property>, count: nat, bytes: seq<byte>, offset: nat)
    requires offset <= |bytes|
    requires SumFixedSizes(members, ctx.PointerSize()).Some?
    requires ElementsTile(members, count, bytes, offset, ctx.PointerSize())
    ensures ElementsLocated(ctx, members, count, bytes, offset)
    decreases members, 1, count
  {
    hide ElementEnd, MembersTile, MembersLocated, SumFixedSizes;
    if count > 0 {
      var end := ElementEnd(members, bytes, offset, ctx.PointerSize()).value;
      TiledMembersAreLocated(ctx, members, bytes[offset..end], 0);
      TiledElementsAreLocated(ctx, members, count - 1, bytes, end);
    }
  }

  /** A fixed layout given its fixed size, none of whose sums wraps, is serialized in strict mode without
      a single null. */
  lemma FixedLayoutHasNoNull(ctx: Context, property: Property, bytes: seq<byte>)
    requires FixedSize(property, ctx.PointerSize()) == Some(|bytes|) && NoWrap(property, ctx.PointerSize())
    requires ctx.strict && SerProperty(ctx, property, bytes).Ok?
    ensures NoNull(SerProperty(ctx, property, bytes).value)
  {
    hide FixedSize, NoWrap, Tiles, SerProperty, NoNull, Located;
    FixedLayoutTilesIff(property, bytes, ctx.PointerSize());
    TiledIsLocated(ctx, property, bytes);
    LocatedIffNoNull(ctx, property, bytes);
  }

  // ---------- a fixed size that wraps ----------

  function Repeated(property: Property, count: u16): Property {
    Property("repeated", StructArray([property], Count(count)))
  }

  lemma RepeatedSize(property: Property, count: u16, size: nat, total: nat)
    requires FixedSize(property, 8) == Some(size)
    requires size * count == total < USIZE_LIMIT
    ensures FixedSize(Repeated(property, count), 8) == Some(total)
  {
    assert SumFixedSizes([property][1..], 8) == Some(0);
    assert SumFixedSizes([property], 8) == Some(size);
  }

  /** A structure of two members of 2^63 bytes each declares no bytes at all: its fixed size is zero, and
      its members do not tile an empty buffer. */
  lemma FixedSizeCanWrap()
    ensures exists property :: FixedSize(property, 8) == Some(0) && !NoWrap(property, 8) && !Tiles(property, [], 8)
  {
    hide NoWrap, NoneWraps, Tiles, SumFixedSizes, Repeated;
    var block := Property("block", Value(Binary, OutTypeNull, Length(0x8000)));
    var gigabyte := Repeated(block, 0x8000);
    var terabytes := Repeated(gigabyte, 0x8000);
    var exabyte := Repeated(terabytes, 0x8000);
    var half := Repeated(exabyte, 8);
    RepeatedSize(block, 0x8000, 0x8000, 0x4000_0000);
    RepeatedSize(gigabyte, 0x8000, 0x4000_0000, 0x2000_0000_0000);
    RepeatedSize(terabytes, 0x8000, 0x2000_0000_0000, 0x1000_0000_0000_0000);
    RepeatedSize(exabyte, 8, 0x1000_0000_0000_0000, 0x8000_0000_0000_0000);
    TwoHalvesWrap(half);
  }

  lemma TwoHalvesWrap(half: Property)
    requires FixedSize(half, 8) == Some(0x8000_0000_0000_0000)
    ensures var whole := Property("whole", Struct([half, half]));
            FixedSize(whole, 8) == Some(0) && !NoWrap(whole, 8) && !Tiles(whole, [], 8)
  {
    hide Tiles;
    var members := [half, half];
    var whole := Property("whole", Struct(members));
    assert members[1..] == [half] && [half][1..] == [];
    assert SumFixedSizes([half], 8) == Some(0x8000_0000_0000_0000) && ExactSum([half], 8) == 0x8000_0000_0000_0000;
    assert SumFixedSizes(members, 8) == Some(0) && ExactSum(members, 8) == USIZE_LIMIT;
    FixedLayoutTilesIff(whole, [], 8);
  }
}
