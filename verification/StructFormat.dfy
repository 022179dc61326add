/** The wire format of structures: the serializer slices a packed structure, and every element of a packed
    structure array, back into the encodings of its fields. */
module StructFormat {
  import opened Wrappers
  import opened Bytes
  import opened TdhTypes
  import opened Sizing
  import opened SerializeSpec
  import opened TwoPasses
  import opened FixedLayout
  import opened Scalars
  import opened WireFormat

  /** The fields the serializer sizes as members: no carrier and no TDH is at hand. */
  predicate SizedAsMember(field: Field) {
    match field
    case SizedBy(_, _) => false
    case Ipv6(_) => false
    case ArrayField(_, elementLength, count, _) => count.Count? && elementLength.Length?
    case ScalarField(schema, _) => schema.Length?
    case Custom(schema, _) => schema.Length?
    case CountedWide(_, schema, _) => schema == Length(0)
    case CountedNarrow(_, schema, _) => schema == Length(0)
    case Hex(schema, _) => schema == Length(0)
    case SecurityId(_, schema, _, _, _) => schema == Length(0)
    case RestWide(schema, _) => schema == Length(0)
    case RestNarrow(schema, _) => schema == Length(0)
    case _ => true
  }

  /** A structure: its fields are sized from their own bytes, and only the last may span the rest. */
  predicate IsStructure(fields: seq<WireField>, tail: seq<byte>, pointerSize: nat) {
    forall k :: 0 <= k < |fields| ==>
      && WellFormed(fields[k].field, pointerSize)
      && CarrierFits(fields[k].field, [], pointerSize)
      && SizedAsMember(fields[k].field)
      && (SpansTheRest(fields[k].field) ==> k == |fields| - 1 && tail == [])
  }

  function Members(fields: seq<WireField>): (r: seq<Property>)
    ensures |r| == |fields|
  {
    seq(|fields|, k requires 0 <= k < |fields| => Property(fields[k].name, InfoOf(fields[k].field)))
  }

  /** In front of any bytes, a member is sized as its encoding. The walk sizes it so without TDH, and
      where it does the serializer does too. */
  lemma MemberSized(name: string, field: Field, rest: seq<byte>, pointerSize: nat)
    requires pointerSize == 4 || pointerSize == 8
    requires WellFormed(field, pointerSize) && CarrierFits(field, [], pointerSize) && SizedAsMember(field)
    requires SpansTheRest(field) ==> rest == []
    ensures var encoding := Encode(field, pointerSize);
            MemberSize(Property(name, InfoOf(field)), encoding + rest, pointerSize) == Some(|encoding|)
  {
    hide FindPropertySize, Encode, MemberSize;
    var record := EventRecord([], pointerSize == 4, _ => None);
    var member := Property(name, InfoOf(field));
    var bytes := Encode(field, pointerSize) + rest;
    FieldSized(record, name, field, [], [], rest);
    if field.ArrayField? || field.Custom? {
      LiteralMemberHasFixedSize(name, field, pointerSize, bytes);
    } else {
      ValueSizedWithoutTdhIff(record, member, [], bytes);
      NotOnlyTheWalkSizes(field, bytes);
    }
    MemberSizeIsWalkSize(record, member, [], bytes);
  }

  lemma LiteralMemberHasFixedSize(name: string, field: Field, pointerSize: nat, bytes: seq<byte>)
    requires pointerSize == 4 || pointerSize == 8
    requires WellFormed(field, pointerSize) && CarrierFits(field, [], pointerSize)
    requires (field.ArrayField? || field.Custom?) && SizedAsMember(field)
    ensures MemberSize(Property(name, InfoOf(field)), bytes, pointerSize).Some?
  {
    hide InTypeFixedSize, ScalarWidth;
    if field.ArrayField? {
      WidthsAgree(field.inType);
    }
  }

  lemma NotOnlyTheWalkSizes(field: Field, bytes: seq<byte>)
    requires exists pointerSize :: WellFormed(field, pointerSize)
    requires SizedAsMember(field) && !field.ArrayField? && !field.Custom?
    ensures !OnlyWalkSizes(InfoOf(field), [], bytes)
  {
    hide VariableMemberSize;
  }

  /** Where the `k`-th of the packed encodings starts. */
  function Offset(encodings: seq<seq<byte>>, k: nat): nat
    requires k <= |encodings|
  {
    |Packed(encodings[..k])|
  }

  lemma OffsetSteps(encodings: seq<seq<byte>>, k: nat)
    requires k < |encodings|
    ensures Offset(encodings, k + 1) == Offset(encodings, k) + |encodings[k]|
  {
    assert encodings[..k + 1][..k] == encodings[..k];
  }

  /** Members each located where its encoding was packed are sliced back, and end where the last one does. */
  lemma {:induction false} LocatedMembersAreSliced(
    members: seq<Property>, encodings: seq<seq<byte>>, bytes: seq<byte>, start: nat, pointerSize: nat, k: nat)
    requires pointerSize == 4 || pointerSize == 8
    requires |members| == |encodings| && k <= |members|
    requires forall j :: 0 <= j < |members| ==>
               MemberBuffer(members[j], bytes, start + Offset(encodings, j), pointerSize) == Some(encodings[j])
    ensures MemberSlices(members[k..], bytes, start + Offset(encodings, k), pointerSize) == encodings[k..]
    ensures ElementEnd(members[k..], bytes, start + Offset(encodings, k), pointerSize)
            == Some(start + Offset(encodings, |encodings|))
    decreases |members| - k
  {
    hide MemberBuffer, Offset, MemberSlices, ElementEnd;
    if k < |members| {
      LocatedMembersAreSliced(members, encodings, bytes, start, pointerSize, k + 1);
      FirstMember(members[k..], bytes, start + Offset(encodings, k), pointerSize);
      OffsetSteps(encodings, k);
      assert members[k..][1..] == members[k + 1..];
      assert encodings[k..] == [encodings[k]] + encodings[k + 1..];
    } else {
      assert members[k..] == [] && encodings[k..] == [];
      NoMembersLeft(bytes, start + Offset(encodings, k), pointerSize);
    }
  }

  lemma NoMembersLeft(bytes: seq<byte>, offset: nat, pointerSize: nat)
    requires pointerSize == 4 || pointerSize == 8
    ensures MemberSlices([], bytes, offset, pointerSize) == []
    ensures ElementEnd([], bytes, offset, pointerSize) == Some(offset)
  {
  }

  lemma PackedMember(
    fields: seq<WireField>, bytes: seq<byte>, start: nat, tail: seq<byte>, pointerSize: nat, k: nat)
    requires pointerSize == 4 || pointerSize == 8
    requires IsStructure(fields, tail, pointerSize) && k < |fields|
    requires start <= |bytes| && bytes[start..] == Packed(Encodings(fields, pointerSize)) + tail
    ensures var encodings := Encodings(fields, pointerSize);
            MemberBuffer(Members(fields)[k], bytes, start + Offset(encodings, k), pointerSize) == Some(encodings[k])
  {
    hide MemberSize, WellFormed, CarrierFits, Encode, InfoOf, SizedAsMember, SpansTheRest;
    var encodings := Encodings(fields, pointerSize);
    var offset := Offset(encodings, k);
    var rest := PackedAfter(encodings, k + 1) + tail;
    FieldInPlace(encodings, tail, k);
    if SpansTheRest(fields[k].field) {
      assert encodings[..k + 1] == encodings;
      assert PackedAfter(encodings, |encodings|) == [];
    }
    MemberSized(fields[k].name, fields[k].field, rest, pointerSize);
    assert bytes[start + offset..] == bytes[start..][offset..];
    assert bytes[start + offset..] == encodings[k] + rest;
    assert bytes[start + offset..][..|encodings[k]|] == bytes[start + offset..start + offset + |encodings[k]|];
  }

  /** The serializer undoes the packing of a structure. */
  lemma StructureIsSlicedBack(
    fields: seq<WireField>, bytes: seq<byte>, start: nat, tail: seq<byte>, pointerSize: nat)
    requires pointerSize == 4 || pointerSize == 8
    requires IsStructure(fields, tail, pointerSize)
    requires start <= |bytes| && bytes[start..] == Packed(Encodings(fields, pointerSize)) + tail
    ensures MemberSlices(Members(fields), bytes, start, pointerSize) == Encodings(fields, pointerSize)
    ensures ElementEnd(Members(fields), bytes, start, pointerSize)
            == Some(start + |Packed(Encodings(fields, pointerSize))|)
  {
    hide MemberBuffer, MemberSlices, ElementEnd, Offset, WellFormed, CarrierFits, SizedAsMember, SpansTheRest;
    hide Packed, Encode, InfoOf;
    var encodings, members := Encodings(fields, pointerSize), Members(fields);
    forall k | 0 <= k < |fields|
      ensures MemberBuffer(members[k], bytes, start + Offset(encodings, k), pointerSize) == Some(encodings[k])
    {
      PackedMember(fields, bytes, start, tail, pointerSize, k);
    }
    LocatedMembersAreSliced(members, encodings, bytes, start, pointerSize, 0);
    WholeOffset(encodings);
    assert members[0..] == members && encodings[0..] == encodings;
  }

  lemma WholeOffset(encodings: seq<seq<byte>>)
    ensures Offset(encodings, 0) == 0
    ensures Offset(encodings, |encodings|) == |Packed(encodings)|
  {
    assert encodings[..0] == [] && encodings[..|encodings|] == encodings;
  }

  // ---------- arrays of structures ----------

  /** Elements of one schema, which may differ in content and in size. */
  predicate AreElements(elements: seq<seq<WireField>>, members: seq<Property>, pointerSize: nat) {
    forall i :: 0 <= i < |elements| ==>
      && Members(elements[i]) == members
      && IsStructure(elements[i], [], pointerSize)
      && (forall k :: 0 <= k < |elements[i]| ==> !SpansTheRest(elements[i][k].field))
  }

  /** The bytes of each element. */
  function ElementEncodings(elements: seq<seq<WireField>>, members: seq<Property>, pointerSize: nat)
    : (r: seq<seq<byte>>)
    requires AreElements(elements, members, pointerSize)
    ensures |r| == |elements|
  {
    seq(|elements|, i requires 0 <= i < |elements| => Packed(Encodings(elements[i], pointerSize)))
  }

  /** The elements of a packed structure array start where they were packed, whatever their sizes, and each
      is sliced back into the encodings of its own fields. */
  lemma ElementsAreSlicedBack(
    elements: seq<seq<WireField>>, members: seq<Property>, tail: seq<byte>, pointerSize: nat, i: nat)
    requires pointerSize == 4 || pointerSize == 8
    requires AreElements(elements, members, pointerSize) && i < |elements|
    ensures var packed := ElementEncodings(elements, members, pointerSize);
            var bytes, start := Packed(packed) + tail, Offset(packed, i);
            && ElementStart(members, bytes, 0, i, pointerSize) == start
            && ElementEnd(members, bytes, start, pointerSize) == Some(start + |packed[i]|)
            && MemberSlices(members, bytes, start, pointerSize) == Encodings(elements[i], pointerSize)
  {
    hide MemberSlices, ElementEnd, ElementStart, AreElements, Offset, Encodings;
    var packed := ElementEncodings(elements, members, pointerSize);
    var bytes := Packed(packed) + tail;
    forall k | 0 <= k < |packed|
      ensures Offset(packed, k) <= |bytes|
      ensures ElementEnd(members, bytes, Offset(packed, k), pointerSize) == Some(Offset(packed, k + 1))
    {
      ElementInPlace(elements, members, tail, pointerSize, k);
    }
    WholeOffset(packed);
    BoundedElementsStart(members, packed, bytes, pointerSize, 0, i);
    ElementInPlace(elements, members, tail, pointerSize, i);
    OffsetSteps(packed, i);
  }

  lemma ElementInPlace(
    elements: seq<seq<WireField>>, members: seq<Property>, tail: seq<byte>, pointerSize: nat, i: nat)
    requires pointerSize == 4 || pointerSize == 8
    requires AreElements(elements, members, pointerSize) && i < |elements|
    ensures var packed := ElementEncodings(elements, members, pointerSize);
            var bytes, start := Packed(packed) + tail, Offset(packed, i);
            && start <= |bytes|
            && ElementEnd(members, bytes, start, pointerSize) == Some(Offset(packed, i + 1))
            && MemberSlices(members, bytes, start, pointerSize) == Encodings(elements[i], pointerSize)
  {
    hide MemberSlices, ElementEnd, WellFormed, CarrierFits, SizedAsMember, SpansTheRest;
    var packed := ElementEncodings(elements, members, pointerSize);
    var rest := PackedAfter(packed, i + 1) + tail;
    FieldInPlace(packed, tail, i);
    OffsetSteps(packed, i);
    assert IsStructure(elements[i], rest, pointerSize);
    StructureIsSlicedBack(elements[i], Packed(packed) + tail, Offset(packed, i), rest, pointerSize);
  }

  /** Elements each ending where the next one was packed start where they were packed. */
  lemma {:induction false} BoundedElementsStart(
    members: seq<Property>, packed: seq<seq<byte>>, bytes: seq<byte>, pointerSize: nat, from: nat, i: nat)
    requires pointerSize == 4 || pointerSize == 8
    requires from <= i < |packed|
    requires forall k :: 0 <= k < |packed| ==>
               && Offset(packed, k) <= |bytes|
               && ElementEnd(members, bytes, Offset(packed, k), pointerSize) == Some(Offset(packed, k + 1))
    ensures ElementStart(members, bytes, Offset(packed, from), i - from, pointerSize) == Offset(packed, i)
    decreases i - from
  {
    hide ElementEnd, Offset;
    if from < i {
      BoundedElementsStart(members, packed, bytes, pointerSize, from + 1, i);
    }
  }
}
