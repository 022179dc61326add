/** The serializer walks a structure array twice: `element_end` bounds each element within the whole
    buffer, then the structure is sliced again out of the element's own bytes. The two passes agree,
    because no size depends on the bytes past the field it measures. */
module TwoPasses {
  import opened Wrappers
  import opened Bytes
  import opened TdhTypes
  import opened Sizing
  import opened SerializeSpec

  /** Cutting the buffer anywhere past a member leaves the member's size unchanged. */
  lemma MemberSizeIgnoresTail(member: Property, remaining: seq<byte>, pointerSize: nat, cut: nat)
    requires pointerSize == 4 || pointerSize == 8
    requires MemberSize(member, remaining, pointerSize).Some?
    requires MemberSize(member, remaining, pointerSize).value <= cut <= |remaining|
    ensures MemberSize(member, remaining[..cut], pointerSize) == MemberSize(member, remaining, pointerSize)
  {
    if FixedSize(member, pointerSize).None? {
      match member.info.inType
      case AnsiString => NulIgnoresTail(remaining, cut);
      case UnicodeString => NulUnitIgnoresTail(remaining, cut);
      case HexDump => assert remaining[..cut][..4] == remaining[..4];
      case NonNullTerminatedString | NonNullTerminatedAnsiString => assert remaining[..cut] == remaining;
      case _ =>
    }
  }

  lemma NulIgnoresTail(bytes: seq<byte>, cut: nat)
    requires FindNul(bytes).Some? && FindNul(bytes).value < cut <= |bytes|
    ensures FindNul(bytes[..cut]) == FindNul(bytes)
  {
    hide FindNul;
    assert bytes[..cut][FindNul(bytes).value] == 0;
  }

  lemma NulUnitIgnoresTail(bytes: seq<byte>, cut: nat)
    requires FindNulUnit(bytes).Some? && 2 * FindNulUnit(bytes).value + 2 <= cut <= |bytes|
    ensures FindNulUnit(bytes[..cut]) == FindNulUnit(bytes)
  {
    hide FindNulUnit, IsNulUnit;
    var nul, cutNul := FindNulUnit(bytes).value, FindNulUnit(bytes[..cut]);
    UnitIgnoresTail(bytes, cut, nul);
    if cutNul.Some? && cutNul.value < nul {
      UnitIgnoresTail(bytes, cut, cutNul.value);
    }
  }

  lemma UnitIgnoresTail(bytes: seq<byte>, cut: nat, k: nat)
    requires 2 * k + 2 <= cut <= |bytes|
    ensures IsNulUnit(bytes[..cut], k) == IsNulUnit(bytes, k)
  {
  }

  lemma SliceOfSlice(bytes: seq<byte>, start: nat, end: nat, offset: nat, size: nat)
    requires start + offset + size <= end <= |bytes|
    ensures bytes[start..end][offset..offset + size] == bytes[start + offset..start + offset + size]
  {
    var inner, outer := bytes[start..end][offset..offset + size], bytes[start + offset..start + offset + size];
    assert |inner| == |outer|;
    assert forall k :: 0 <= k < size ==> inner[k] == bytes[start + offset + k];
    assert forall k :: 0 <= k < size ==> outer[k] == bytes[start + offset + k];
  }

  lemma MemberBufferIgnoresTail(member: Property, bytes: seq<byte>, pointerSize: nat, start: nat, offset: nat, end: nat)
    requires pointerSize == 4 || pointerSize == 8
    requires MemberBuffer(member, bytes, start + offset, pointerSize).Some?
    requires start + offset + |MemberBuffer(member, bytes, start + offset, pointerSize).value| <= end <= |bytes|
    ensures MemberBuffer(member, bytes[start..end], offset, pointerSize)
            == MemberBuffer(member, bytes, start + offset, pointerSize)
  {
    hide MemberSize;
    var size := |MemberBuffer(member, bytes, start + offset, pointerSize).value|;
    assert bytes[start..end][offset..] == bytes[start + offset..][..end - start - offset];
    MemberSizeIgnoresTail(member, bytes[start + offset..], pointerSize, end - start - offset);
    SliceOfSlice(bytes, start, end, offset, size);
  }

  /** The bytes of the members that can be located, up to the first one that cannot. */
  function MemberSlices(members: seq<Property>, bytes: seq<byte>, offset: nat, pointerSize: nat)
    : (r: seq<seq<byte>>)
    requires pointerSize == 4 || pointerSize == 8
    ensures |r| <= |members|
  {
    if members == [] then []
    else
      match MemberBuffer(members[0], bytes, offset, pointerSize)
      case None => []
      case Some(buffer) => [buffer] + MemberSlices(members[1..], bytes, offset + |buffer|, pointerSize)
  }

  function Flatten(slices: seq<seq<byte>>): seq<byte> {
    if slices == [] then [] else slices[0] + Flatten(slices[1..])
  }

  lemma SplitSlice(bytes: seq<byte>, from: nat, mid: nat, to: nat)
    requires from <= mid <= to <= |bytes|
    ensures bytes[from..to] == bytes[from..mid] + bytes[mid..to]
  {
  }

  /** What the first member contributes to the end of an element and to its slices. */
  lemma FirstMember(members: seq<Property>, bytes: seq<byte>, offset: nat, pointerSize: nat)
    requires pointerSize == 4 || pointerSize == 8
    requires members != []
    ensures match MemberBuffer(members[0], bytes, offset, pointerSize)
            case None =>
              ElementEnd(members, bytes, offset, pointerSize) == None
              && MemberSlices(members, bytes, offset, pointerSize) == []
            case Some(buffer) =>
              && offset + |buffer| <= |bytes|
              && buffer == bytes[offset..offset + |buffer|]
              && ElementEnd(members, bytes, offset, pointerSize)
                 == ElementEnd(members[1..], bytes, offset + |buffer|, pointerSize)
              && MemberSlices(members, bytes, offset, pointerSize)
                 == [buffer] + MemberSlices(members[1..], bytes, offset + |buffer|, pointerSize)
  {
    hide MemberSize;
  }

  lemma FlattenFirst(first: seq<byte>, rest: seq<seq<byte>>)
    ensures Flatten([first] + rest) == first + Flatten(rest)
  {
    assert ([first] + rest)[1..] == rest;
  }

  /** The element's own bytes yield the very slices the whole buffer does from `offset` on: every member
      is located, at the same place and with the same size, and together they are exactly the rest of
      the element. */
  ghost predicate Agrees(
    members: seq<Property>, bytes: seq<byte>, pointerSize: nat, start: nat, offset: nat, end: nat)
    requires pointerSize == 4 || pointerSize == 8
    requires start + offset <= end <= |bytes|
  {
    && ElementEnd(members, bytes[start..end], offset, pointerSize) == Some(end - start)
    && MemberSlices(members, bytes[start..end], offset, pointerSize)
       == MemberSlices(members, bytes, start + offset, pointerSize)
    && |MemberSlices(members, bytes, start + offset, pointerSize)| == |members|
    && Flatten(MemberSlices(members, bytes, start + offset, pointerSize)) == bytes[start + offset..end]
  }

  lemma {:induction false} PassesAgreeFrom(
    members: seq<Property>, bytes: seq<byte>, pointerSize: nat, start: nat, offset: nat)
    requires pointerSize == 4 || pointerSize == 8
    requires start + offset <= |bytes|
    requires ElementEnd(members, bytes, start + offset, pointerSize).Some?
    ensures Agrees(members, bytes, pointerSize, start, offset,
                   ElementEnd(members, bytes, start + offset, pointerSize).value)
    decreases |members|, 1
  {
    if members == [] {
      assert bytes[start..start + offset][offset..] == [];
    } else {
      PassesAgreeStep(members, bytes, pointerSize, start, offset);
    }
  }

  lemma {:induction false} PassesAgreeStep(
    members: seq<Property>, bytes: seq<byte>, pointerSize: nat, start: nat, offset: nat)
    requires pointerSize == 4 || pointerSize == 8
    requires members != []
    requires start + offset <= |bytes|
    requires ElementEnd(members, bytes, start + offset, pointerSize).Some?
    ensures Agrees(members, bytes, pointerSize, start, offset,
                   ElementEnd(members, bytes, start + offset, pointerSize).value)
    decreases |members|, 0
  {
    hide MemberBuffer, ElementEnd, MemberSlices, Flatten;
    FirstMember(members, bytes, start + offset, pointerSize);
    var buffer := MemberBuffer(members[0], bytes, start + offset, pointerSize).value;
    var end := ElementEnd(members, bytes, start + offset, pointerSize).value;
    PassesAgreeFrom(members[1..], bytes, pointerSize, start, offset + |buffer|);
    MemberBufferIgnoresTail(members[0], bytes, pointerSize, start, offset, end);
    FirstMember(members, bytes[start..end], offset, pointerSize);
    FlattenFirst(buffer, MemberSlices(members[1..], bytes, start + offset + |buffer|, pointerSize));
    SplitSlice(bytes, start + offset, start + offset + |buffer|, end);
  }

  lemma PassesAgree(members: seq<Property>, bytes: seq<byte>, pointerSize: nat, start: nat)
    requires pointerSize == 4 || pointerSize == 8
    requires start <= |bytes|
    requires ElementEnd(members, bytes, start, pointerSize).Some?
    ensures var end := ElementEnd(members, bytes, start, pointerSize).value;
            && ElementEnd(members, bytes[start..end], 0, pointerSize) == Some(end - start)
            && MemberSlices(members, bytes[start..end], 0, pointerSize)
               == MemberSlices(members, bytes, start, pointerSize)
            && |MemberSlices(members, bytes, start, pointerSize)| == |members|
            && Flatten(MemberSlices(members, bytes, start, pointerSize)) == bytes[start..end]
  {
    hide ElementEnd, MemberSlices, Flatten, MemberBuffer;
    PassesAgreeFrom(members, bytes, pointerSize, start, 0);
  }

  /** The entries of members given their slices: the first `|slices|` are serialized, the rest null. */
  function SerSliced(ctx: Context, members: seq<Property>, slices: seq<seq<byte>>)
    : Result<seq<(string, Json)>, SerError>
    requires |slices| <= |members|
  {
    if slices == [] then Ok(NullEntries(members))
    else
      var value :- SerProperty(ctx, members[0], slices[0]);
      var rest :- SerSliced(ctx, members[1..], slices[1..]);
      Ok([(members[0].name, value)] + rest)
  }

  lemma {:induction false} SerMembersBySlices(ctx: Context, members: seq<Property>, bytes: seq<byte>, offset: nat)
    ensures SerMembers(ctx, members, bytes, offset)
            == SerSliced(ctx, members, MemberSlices(members, bytes, offset, ctx.PointerSize()))
    decreases |members|
  {
    hide MemberBuffer, SerProperty;
    if members == [] {
      assert NullEntries(members) == [];
    } else {
      var buffer := MemberBuffer(members[0], bytes, offset, ctx.PointerSize());
      if buffer.Some? {
        var slices := MemberSlices(members, bytes, offset, ctx.PointerSize());
        SerMembersBySlices(ctx, members[1..], bytes, offset + |buffer.value|);
        assert slices[1..] == MemberSlices(members[1..], bytes, offset + |buffer.value|, ctx.PointerSize());
      }
    }
  }

  lemma {:induction false} SerSlicedEntries(ctx: Context, members: seq<Property>, slices: seq<seq<byte>>)
    requires |slices| <= |members|
    requires SerSliced(ctx, members, slices).Ok?
    ensures var entries := SerSliced(ctx, members, slices).value;
            && |entries| == |members|
            && (forall k :: 0 <= k < |members| ==> entries[k].0 == members[k].name)
            && (forall k :: 0 <= k < |slices| ==> SerProperty(ctx, members[k], slices[k]) == Ok(entries[k].1))
            && (forall k :: |slices| <= k < |members| ==> entries[k].1 == JsonNull)
    decreases |slices|
  {
    hide SerProperty;
    if slices != [] {
      SerSlicedEntries(ctx, members[1..], slices[1..]);
    }
  }

  /** An element `element_end` bounded is serialized without ever taking the null branch: each entry
      is its member's value, read from where the first pass found it in the whole array. */
  lemma BoundedElementIsFullyLocated(ctx: Context, members: seq<Property>, bytes: seq<byte>, start: nat)
    requires start <= |bytes|
    requires ElementEnd(members, bytes, start, ctx.PointerSize()).Some?
    ensures var end := ElementEnd(members, bytes, start, ctx.PointerSize()).value;
            var slices := MemberSlices(members, bytes, start, ctx.PointerSize());
            var element := SerMembers(ctx, members, bytes[start..end], 0);
            && |slices| == |members|
            && (element.Ok? ==>
                  && |element.value| == |members|
                  && forall k :: 0 <= k < |members| ==>
                       && element.value[k].0 == members[k].name
                       && SerProperty(ctx, members[k], slices[k]) == Ok(element.value[k].1))
  {
    hide SerProperty, MemberSlices, ElementEnd, SerMembers, SerSliced;
    var end := ElementEnd(members, bytes, start, ctx.PointerSize()).value;
    PassesAgree(members, bytes, ctx.PointerSize(), start);
    SerMembersBySlices(ctx, members, bytes[start..end], 0);
    if SerMembers(ctx, members, bytes[start..end], 0).Ok? {
      SerSlicedEntries(ctx, members, MemberSlices(members, bytes, start, ctx.PointerSize()));
    }
  }
}
