/** The flat property array of a TRACE_EVENT_INFO: structures refer to their members by position.
    Rebuilding the property tree from the array, and flattening a tree into it. */
module PropertyTable {
  import opened Wrappers
  import opened Bytes
  import opened TdhTypes

  datatype PropertyFlags = PropertyFlags(
    isStruct: bool, paramLength: bool, paramCount: bool, hasCustomSchema: bool)

  /** An EVENT_PROPERTY_INFO. `count` and `length` hold an index when the matching flag is set;
      `memberStart` and `memberCount` are meaningful for structures. */
  datatype RawProperty = RawProperty(
    name: string, flags: PropertyFlags, inType: TdhInType, outType: TdhOutType,
    count: u16, length: u16, memberStart: u16, memberCount: u16)

  // ---------- rebuilding the tree ----------

  /** `Property::new`: an entry that is not a structure. */
  function ScalarInfo(raw: RawProperty): PropertyInfo {
    var length := if raw.flags.paramLength then LengthIndex(raw.length) else Length(raw.length);
    if raw.flags.hasCustomSchema then Unsupported(length)
    else if raw.flags.paramCount then Array(raw.inType, raw.outType, length, CountIndex(raw.count))
    else if raw.count > 1 then Array(raw.inType, raw.outType, length, Count(raw.count))
    else Value(raw.inType, raw.outType, length)
  }

  function StructInfo(raw: RawProperty, members: seq<Property>): PropertyInfo {
    if raw.flags.paramCount then StructArray(members, CountIndex(raw.count))
    else if raw.count > 1 then StructArray(members, Count(raw.count))
    else Struct(members)
  }

  function Min(a: nat, b: nat): nat {
    if a < b then a else b
  }

  /** The member region of a structure entry, clamped to the array. */
  function RegionStart(es: seq<RawProperty>, raw: RawProperty): (n: nat)
    ensures n <= |es|
  {
    Min(raw.memberStart, |es|)
  }

  function RegionEnd(es: seq<RawProperty>, raw: RawProperty): (n: nat)
    ensures RegionStart(es, raw) <= n <= |es|
  {
    Min(RegionStart(es, raw) + raw.memberCount, |es|)
  }

  /** `parse_property`, given room for `depth` nested calls: `None` when they do not suffice. The
      source has no bound of its own. */
  function ParseProperty(es: seq<RawProperty>, index: nat, depth: nat): Option<Property>
    requires index < |es|
    decreases depth, |es|
  {
    if depth == 0 then None
    else
      var raw := es[index];
      if raw.flags.isStruct then
        var members :- ParseMembers(es, RegionStart(es, raw), RegionEnd(es, raw), depth - 1);
        Some(Property(raw.name, StructInfo(raw, members)))
      else Some(Property(raw.name, ScalarInfo(raw)))
  }

  /** The properties at `start .. end`. */
  function ParseMembers(es: seq<RawProperty>, start: nat, end: nat, depth: nat): (r: Option<seq<Property>>)
    requires start <= end <= |es|
    ensures r.Some? ==> |r.value| == end - start
    decreases depth, |es| + 1 + end - start
  {
    if start == end then Some([])
    else
      var first :- ParseProperty(es, start, depth);
      var rest :- ParseMembers(es, start + 1, end, depth);
      Some([first] + rest)
  }

  /** How many entries are top-level: a zero count means TDH did not fill it in. */
  function TopLevelCount(es: seq<RawProperty>, declared: nat): (n: nat)
    ensures n <= |es|
  {
    if declared == 0 then |es| else Min(declared, |es|)
  }

  class PropertyIterator {
    const es: seq<RawProperty>
    const topLevelCount: nat
    /** Room for nested calls. */
    const depth: nat
    var nextIndex: nat

    ghost predicate Valid()
      reads this
    {
      nextIndex <= topLevelCount <= |es|
    }

    constructor (es: seq<RawProperty>, declaredTopLevel: nat, depth: nat)
      ensures Valid() && nextIndex == 0 && this.es == es && this.depth == depth
      ensures topLevelCount == TopLevelCount(es, declaredTopLevel)
    {
      this.es := es;
      this.depth := depth;
      topLevelCount := TopLevelCount(es, declaredTopLevel);
      nextIndex := 0;
    }

    /** Yields the next top-level property; `overflow` reports that nested calls ran out of room. */
    method Next() returns (r: Option<Property>, overflow: bool)
      requires Valid()
      modifies this
      ensures Valid()
      ensures old(nextIndex) == topLevelCount ==> r == None && !overflow && nextIndex == old(nextIndex)
      ensures old(nextIndex) < topLevelCount ==>
                && r == ParseProperty(es, old(nextIndex), depth)
                && overflow == r.None?
                && nextIndex == old(nextIndex) + 1
    {
      if nextIndex >= topLevelCount {
        return None, false;
      }
      r := ParseOne(nextIndex, depth);
      nextIndex := nextIndex + 1;
      return r, r.None?;
    }

    method ParseOne(index: nat, depth: nat) returns (r: Option<Property>)
      requires index < |es|
      ensures r == ParseProperty(es, index, depth)
      decreases depth, |es|
    {
      if depth == 0 {
        return None;
      }
      var raw := es[index];
      if raw.flags.isStruct {
        var members := ParseRegion(RegionStart(es, raw), RegionEnd(es, raw), depth - 1);
        if members.None? {
          return None;
        }
        return Some(Property(raw.name, StructInfo(raw, members.value)));
      }
      return Some(Property(raw.name, ScalarInfo(raw)));
    }

    method ParseRegion(start: nat, end: nat, depth: nat) returns (r: Option<seq<Property>>)
      requires start <= end <= |es|
      ensures r == ParseMembers(es, start, end, depth)
      decreases depth, |es| + 1
    {
      var members: seq<Property> := [];
      PrependNothing(ParseMembers(es, start, end, depth));
      for index := start to end
        invariant ParseMembers(es, start, end, depth)
                  == Prepended(members, ParseMembers(es, index, end, depth))
      {
        var member := ParseOne(index, depth);
        if member.None? {
          return None;
        }
        PrependOneMore(members, member.value, ParseMembers(es, index + 1, end, depth));
        members := members + [member.value];
      }
      assert members + [] == members;
      return Some(members);
    }
  }

  function Prepended<T>(front: seq<T>, back: Option<seq<T>>): Option<seq<T>> {
    match back
    case Some(b) => Some(front + b)
    case None => None
  }

  lemma PrependNothing<T>(back: Option<seq<T>>)
    ensures Prepended([], back) == back
  {
    assert back.Some? ==> [] + back.value == back.value;
  }

  lemma PrependOneMore<T>(front: seq<T>, t: T, back: Option<seq<T>>)
    ensures Prepended(front + [t], back) == Prepended(front, Prepended([t], back))
  {
    assert back.Some? ==> front + [t] + back.value == front + ([t] + back.value);
  }

  // ---------- flattening a tree ----------

  /** One property of a schema specification: a structure lists its members. */
  datatype PropSpec = PropSpec(
    name: string, inType: TdhInType, outType: TdhOutType, flags: PropertyFlags,
    count: u16, length: u16, structure: SpecMembers)

  datatype SpecMembers = NotAStructure | Members(members: seq<PropSpec>)

  function ScalarEntry(spec: PropSpec): RawProperty {
    RawProperty(spec.name, spec.flags, spec.inType, spec.outType, spec.count, spec.length, 0, 0)
  }

  function ScalarEntries(specs: seq<PropSpec>): seq<RawProperty> {
    seq(|specs|, i requires 0 <= i < |specs| => ScalarEntry(specs[i]))
  }

  /** `flatten_props`: the entries of this level are appended to `es`, then those of each structure's
      members, depth first. `None` when an index does not fit 16 bits. */
  function Flatten(specs: seq<PropSpec>, es: seq<RawProperty>): (r: Option<seq<RawProperty>>)
    ensures r.Some? ==> |r.value| >= |es| + |specs|
    decreases specs, 1, 0
  {
    FlattenStructures(specs, |es|, 0, es + ScalarEntries(specs))
  }

  /** The member blocks of the structures from the `k`-th specification on; this level's entries
      start at `base`. */
  function FlattenStructures(specs: seq<PropSpec>, base: nat, k: nat, es: seq<RawProperty>)
    : (r: Option<seq<RawProperty>>)
    requires k <= |specs| && base + |specs| <= |es|
    ensures r.Some? ==> |r.value| >= |es|
    decreases specs, 0, |specs| - k
  {
    if k == |specs| then Some(es)
    else if specs[k].structure.NotAStructure? then FlattenStructures(specs, base, k + 1, es)
    else
      var members := specs[k].structure.members;
      if |es| >= 0x1_0000 || |members| >= 0x1_0000 then None
      else
        var linked := es[base + k := es[base + k].(memberStart := |es|, memberCount := |members|)];
        var flattened :- Flatten(members, linked);
        FlattenStructures(specs, base, k + 1, flattened)
  }

  /** How many entries the specifications and all their members take. */
  function EntryCount(specs: seq<PropSpec>): nat
    decreases specs, 1, 0
  {
    |specs| + NestedCount(specs, 0)
  }

  function NestedCount(specs: seq<PropSpec>, k: nat): nat
    requires k <= |specs|
    decreases specs, 0, |specs| - k
  {
    if k == |specs| then 0
    else
      (match specs[k].structure
       case NotAStructure => 0
       case Members(members) => EntryCount(members))
      + NestedCount(specs, k + 1)
  }

  /** Flattening writes one entry per property of the forest, and succeeds whenever they are fewer than
      an index can tell apart. */
  lemma {:induction false} FlattenCounts(specs: seq<PropSpec>, es: seq<RawProperty>)
    ensures Flatten(specs, es).Some? ==> |Flatten(specs, es).value| == |es| + EntryCount(specs)
    ensures |es| + EntryCount(specs) < 0x1_0000 ==> Flatten(specs, es).Some?
    decreases specs, 1, 0
  {
    FlattenStructuresCounts(specs, |es|, 0, es + ScalarEntries(specs));
  }

  lemma {:induction false} FlattenStructuresCounts(
    specs: seq<PropSpec>, base: nat, k: nat, es: seq<RawProperty>)
    requires k <= |specs| && base + |specs| <= |es|
    ensures var r := FlattenStructures(specs, base, k, es);
            && (r.Some? ==> |r.value| == |es| + NestedCount(specs, k))
            && (|es| + NestedCount(specs, k) < 0x1_0000 ==> r.Some?)
    decreases specs, 0, |specs| - k
  {
    hide Flatten;
    if k == |specs| {
    } else if specs[k].structure.NotAStructure? {
      FlattenStructuresCounts(specs, base, k + 1, es);
    } else {
      var members := specs[k].structure.members;
      assert NestedCount(specs, k) == EntryCount(members) + NestedCount(specs, k + 1);
      assert EntryCount(members) >= |members|;
      if |es| < 0x1_0000 && |members| < 0x1_0000 {
        var linked := es[base + k := es[base + k].(memberStart := |es|, memberCount := |members|)];
        FlattenCounts(members, linked);
        if Flatten(members, linked).Some? {
          var flattened := Flatten(members, linked).value;
          FlattenStructuresCounts(specs, base, k + 1, flattened);
          assert FlattenStructures(specs, base, k, es) == FlattenStructures(specs, base, k + 1, flattened);
        }
      }
    }
  }

  class FlatTable {
    var entries: seq<RawProperty>

    constructor ()
      ensures entries == []
    {
      entries := [];
    }

    /** Appends the specifications; `ok` is false when an index does not fit 16 bits. */
    method FlattenProps(specs: seq<PropSpec>) returns (ok: bool)
      modifies this
      ensures ok <==> Flatten(specs, old(entries)).Some?
      ensures ok ==> Some(entries) == Flatten(specs, old(entries))
      decreases specs
    {
      var base := |entries|;
      ghost var before := entries;
      for i := 0 to |specs|
        invariant entries == before + ScalarEntries(specs)[..i]
      {
        entries := entries + [ScalarEntry(specs[i])];
      }
      assert entries == before + ScalarEntries(specs);
      for k := 0 to |specs|
        invariant base + |specs| <= |entries|
        invariant Flatten(specs, before) == FlattenStructures(specs, base, k, entries)
      {
        if specs[k].structure.Members? {
          var members := specs[k].structure.members;
          if |entries| >= 0x1_0000 || |members| >= 0x1_0000 {
            return false;
          }
          entries := entries[base + k :=
            entries[base + k].(memberStart := |entries|, memberCount := |members|)];
          var ok' := FlattenProps(members);
          if !ok' {
            return false;
          }
        }
      }
      return true;
    }
  }

  // ---------- parsing undoes flattening ----------

  /** The property a specification describes. */
  function SpecProperty(spec: PropSpec): Property
    decreases spec, 1
  {
    if spec.flags.isStruct then
      Property(spec.name, StructInfo(ScalarEntry(spec),
                                     if spec.structure.Members? then SpecProperties(spec.structure.members) else []))
    else Property(spec.name, ScalarInfo(ScalarEntry(spec)))
  }

  function SpecProperties(specs: seq<PropSpec>): (r: seq<Property>)
    ensures |r| == |specs|
    ensures forall i :: 0 <= i < |specs| ==> r[i] == SpecProperty(specs[i])
    decreases specs, 0
  {
    if specs == [] then [] else [SpecProperty(specs[0])] + SpecProperties(specs[1..])
  }

  /** The array describes `spec` at `index`, its members' blocks lying at `floor` or further. */
  ghost predicate Represents(es: seq<RawProperty>, index: nat, spec: PropSpec, floor: nat)
    decreases spec
  {
    && index < |es| && index < floor
    && es[index] == ScalarEntry(spec).(memberStart := es[index].memberStart, memberCount := es[index].memberCount)
    && match spec.structure
       case NotAStructure => es[index] == ScalarEntry(spec)
       case Members(members) =>
         var start := es[index].memberStart;
         && floor <= start
         && es[index].memberCount == |members|
         && start + |members| <= |es|
         && forall j :: 0 <= j < |members| ==> Represents(es, start + j, members[j], start + |members|)
  }

  /** Growing the array, or changing entries below `floor` other than this one, keeps what it says. */
  lemma {:induction false} RepresentsKept(
    es: seq<RawProperty>, es': seq<RawProperty>, index: nat, spec: PropSpec, floor: nat)
    requires Represents(es, index, spec, floor)
    requires |es| <= |es'| && es'[index] == es[index]
    requires forall p :: floor <= p < |es| ==> es'[p] == es[p]
    ensures Represents(es', index, spec, floor)
    decreases spec
  {
    if spec.structure.Members? {
      var members, start := spec.structure.members, es[index].memberStart;
      forall j | 0 <= j < |members|
        ensures Represents(es', start + j, members[j], start + |members|)
      {
        RepresentsKept(es, es', start + j, members[j], start + |members|);
      }
    }
  }

  lemma {:induction false} FlattenRepresents(specs: seq<PropSpec>, es: seq<RawProperty>)
    requires Flatten(specs, es).Some?
    ensures var r := Flatten(specs, es).value;
            && r[..|es|] == es
            && forall i :: 0 <= i < |specs| ==> Represents(r, |es| + i, specs[i], |es| + |specs|)
    decreases specs, 1, 0
  {
    hide Represents, FlattenStructures;
    FlattenStructuresRepresents(specs, |es|, 0, es + ScalarEntries(specs));
    assert (es + ScalarEntries(specs))[..|es|] == es;
  }

  lemma {:induction false} FlattenStructuresRepresents(
    specs: seq<PropSpec>, base: nat, k: nat, es: seq<RawProperty>)
    requires k <= |specs| && base + |specs| <= |es|
    requires FlattenStructures(specs, base, k, es).Some?
    requires forall i :: 0 <= i < k ==> Represents(es, base + i, specs[i], base + |specs|)
    requires forall i :: k <= i < |specs| ==> es[base + i] == ScalarEntry(specs[i])
    ensures var r := FlattenStructures(specs, base, k, es).value;
            && r[..base] == es[..base]
            && forall i :: 0 <= i < |specs| ==> Represents(r, base + i, specs[i], base + |specs|)
    decreases specs, 0, |specs| - k
  {
    hide Flatten;
    if k == |specs| {
    } else if specs[k].structure.NotAStructure? {
      FlattenStructuresRepresents(specs, base, k + 1, es);
    } else {
      var members := specs[k].structure.members;
      var linked := es[base + k := es[base + k].(memberStart := |es|, memberCount := |members|)];
      var flattened := Flatten(members, linked).value;
      FlattenRepresents(members, linked);
      forall p | 0 <= p < |es| ensures flattened[p] == linked[p] {
        assert flattened[..|linked|][p] == flattened[p];
      }
      StructureLinked(specs, base, k, es, flattened);
      FlattenStructuresRepresents(specs, base, k + 1, flattened);
      assert flattened[..base] == es[..base];
    }
  }

  /** Once a structure's members are flattened behind its linked entry, the array describes it, and
      still describes what it did before. */
  lemma StructureLinked(
    specs: seq<PropSpec>, base: nat, k: nat, es: seq<RawProperty>, flattened: seq<RawProperty>)
    requires k < |specs| && base + |specs| <= |es| < 0x1_0000
    requires specs[k].structure.Members? && |specs[k].structure.members| < 0x1_0000
    requires forall i :: 0 <= i < k ==> Represents(es, base + i, specs[i], base + |specs|)
    requires |es| + |specs[k].structure.members| <= |flattened|
    requires forall p :: 0 <= p < |es| && p != base + k ==> flattened[p] == es[p]
    requires flattened[base + k]
             == ScalarEntry(specs[k]).(memberStart := |es|, memberCount := |specs[k].structure.members|)
    requires forall j :: 0 <= j < |specs[k].structure.members| ==>
               Represents(flattened, |es| + j, specs[k].structure.members[j], |es| + |specs[k].structure.members|)
    ensures forall i :: 0 <= i <= k ==> Represents(flattened, base + i, specs[i], base + |specs|)
  {
    hide Represents;
    forall i | 0 <= i < k ensures Represents(flattened, base + i, specs[i], base + |specs|) {
      RepresentsKept(es, flattened, base + i, specs[i], base + |specs|);
    }
    LinkedRepresents(flattened, base + k, specs[k], base + |specs|, |es|);
  }

  lemma LinkedRepresents(es: seq<RawProperty>, index: nat, spec: PropSpec, floor: nat, start: nat)
    requires spec.structure.Members? && |spec.structure.members| < 0x1_0000
    requires index < floor <= start < 0x1_0000
    requires start + |spec.structure.members| <= |es|
    requires es[index] == ScalarEntry(spec).(memberStart := start, memberCount := |spec.structure.members|)
    requires forall j :: 0 <= j < |spec.structure.members| ==>
               Represents(es, start + j, spec.structure.members[j], start + |spec.structure.members|)
    ensures Represents(es, index, spec, floor)
  {
  }

  lemma {:induction false} RepresentedParses(
    es: seq<RawProperty>, index: nat, spec: PropSpec, floor: nat, depth: nat)
    requires Represents(es, index, spec, floor)
    requires depth >= |es| - index
    ensures ParseProperty(es, index, depth) == Some(SpecProperty(spec))
    decreases spec, 0
  {
    if spec.flags.isStruct && spec.structure.Members? {
      var members, start := spec.structure.members, es[index].memberStart;
      RepresentedMembersParse(es, start, members, start + |members|, depth - 1);
      assert RegionStart(es, es[index]) == start && RegionEnd(es, es[index]) == start + |members|;
    }
  }

  lemma {:induction false} RepresentedMembersParse(
    es: seq<RawProperty>, start: nat, specs: seq<PropSpec>, floor: nat, depth: nat)
    requires start + |specs| <= |es| && depth >= |es| - start
    requires forall j :: 0 <= j < |specs| ==> Represents(es, start + j, specs[j], floor)
    ensures ParseMembers(es, start, start + |specs|, depth) == Some(SpecProperties(specs))
    decreases specs, 1
  {
    if specs != [] {
      RepresentedParses(es, start, specs[0], floor, depth);
      forall j | 0 <= j < |specs[1..]| ensures Represents(es, start + 1 + j, specs[1..][j], floor) {
        assert Represents(es, start + (j + 1), specs[j + 1], floor);
      }
      RepresentedMembersParse(es, start + 1, specs[1..], floor, depth);
    }
  }

  /** Round trip: the iterator over a flattened forest yields exactly its top-level trees, in order,
      members never showing up at the top level, within as many nested calls as there are entries. */
  lemma FlattenParsesBack(specs: seq<PropSpec>, depth: nat)
    requires depth >= EntryCount(specs)
    ensures EntryCount(specs) < 0x1_0000 ==> Flatten(specs, []).Some?
    ensures Flatten(specs, []).Some? ==>
              var es := Flatten(specs, []).value;
              && |es| == EntryCount(specs)
              && TopLevelCount(es, |specs|) == |specs|
              && ParseMembers(es, 0, |specs|, depth) == Some(SpecProperties(specs))
              && forall i :: 0 <= i < |specs| ==> ParseProperty(es, i, depth) == Some(SpecProperty(specs[i]))
  {
    FlattenCounts(specs, []);
    if Flatten(specs, []).Some? {
      FlattenedParses(specs, depth);
    }
  }

  lemma FlattenedParses(specs: seq<PropSpec>, depth: nat)
    requires Flatten(specs, []).Some?
    requires depth >= |Flatten(specs, []).value|
    ensures var es := Flatten(specs, []).value;
            && TopLevelCount(es, |specs|) == |specs|
            && ParseMembers(es, 0, |specs|, depth) == Some(SpecProperties(specs))
            && forall i :: 0 <= i < |specs| ==> ParseProperty(es, i, depth) == Some(SpecProperty(specs[i]))
  {
    var es := Flatten(specs, []).value;
    FlattenRepresents(specs, []);
    forall i | 0 <= i < |specs| ensures ParseProperty(es, i, depth) == Some(SpecProperty(specs[i])) {
      RepresentedParses(es, i, specs[i], |specs|, depth);
    }
    RepresentedMembersParse(es, 0, specs, |specs|, depth);
  }

  // ---------- every kind of property survives the array ----------

  /** What an entry may hold without meaning anything: a count of zero or one, and the fields its kind of
      property does not use. */
  datatype Unused = Unused(
    plainCount: u16, inType: TdhInType, outType: TdhOutType, length: u16, count: u16,
    paramLength: bool, paramCount: bool, customSchema: bool)

  function Flags(isStruct: bool, paramLength: bool, paramCount: bool, hasCustomSchema: bool): PropertyFlags {
    PropertyFlags(isStruct, paramLength, paramCount, hasCustomSchema)
  }

  function LengthField(length: PropertyLength): u16 {
    match length
    case Length(l) => l
    case LengthIndex(index) => index
  }

  function CountField(count: PropertyCount): u16 {
    match count
    case Count(c) => c
    case CountIndex(index) => index
  }

  /** How EVENT_PROPERTY_INFO describes each kind of property: a flag tells an index from a literal, a count
      above one or an index tells an array from a value. */
  function SpecFor(p: Property, u: Unused): PropSpec
    decreases p, 1
  {
    match p.info
    case Value(t, o, length) =>
      PropSpec(p.name, t, o, Flags(false, length.LengthIndex?, false, false), u.plainCount, LengthField(length),
               NotAStructure)
    case Array(t, o, length, count) =>
      PropSpec(p.name, t, o, Flags(false, length.LengthIndex?, count.CountIndex?, false), CountField(count),
               LengthField(length), NotAStructure)
    case Struct(members) =>
      PropSpec(p.name, u.inType, u.outType, Flags(true, u.paramLength, false, u.customSchema), u.plainCount, u.length,
               Members(SpecsFor(members, u)))
    case StructArray(members, count) =>
      PropSpec(p.name, u.inType, u.outType, Flags(true, u.paramLength, count.CountIndex?, u.customSchema),
               CountField(count), u.length, Members(SpecsFor(members, u)))
    case Unsupported(length) =>
      PropSpec(p.name, u.inType, u.outType, Flags(false, length.LengthIndex?, u.paramCount, true), u.count,
               LengthField(length), NotAStructure)
  }

  function SpecsFor(ps: seq<Property>, u: Unused): (r: seq<PropSpec>)
    ensures |r| == |ps|
    decreases ps, 0
  {
    if ps == [] then [] else [SpecFor(ps[0], u)] + SpecsFor(ps[1..], u)
  }

  /** The properties an array can describe: a literal element count is above one. */
  predicate Describable(p: Property)
    decreases p, 1
  {
    match p.info
    case Array(_, _, _, Count(c)) => c > 1
    case Struct(members) => AllDescribable(members)
    case StructArray(members, Count(c)) => c > 1 && AllDescribable(members)
    case StructArray(members, CountIndex(_)) => AllDescribable(members)
    case _ => true
  }

  predicate AllDescribable(ps: seq<Property>)
    decreases ps, 0
  {
    ps == [] || (Describable(ps[0]) && AllDescribable(ps[1..]))
  }

  lemma {:induction false} SpecDescribes(p: Property, u: Unused)
    requires Describable(p) && u.plainCount <= 1
    ensures SpecProperty(SpecFor(p, u)) == p
    decreases p, 1
  {
    match p.info
    case Struct(members) => SpecsDescribe(members, u);
    case StructArray(members, _) => SpecsDescribe(members, u);
    case _ =>
  }

  lemma {:induction false} SpecsDescribe(ps: seq<Property>, u: Unused)
    requires AllDescribable(ps) && u.plainCount <= 1
    ensures SpecProperties(SpecsFor(ps, u)) == ps
    decreases ps, 0
  {
    hide Describable, SpecProperty, SpecFor;
    if ps != [] {
      SpecDescribes(ps[0], u);
      SpecsDescribe(ps[1..], u);
      assert SpecsFor(ps, u)[1..] == SpecsFor(ps[1..], u);
    }
  }

  /** Round trip of whole schemas: describe any forest of properties as entries, flatten them, and parse the
      array: the very same forest comes back, every length and count still literal or indexed as it was. */
  lemma SchemaRoundTrip(forest: seq<Property>, u: Unused, depth: nat)
    requires AllDescribable(forest) && u.plainCount <= 1
    requires depth >= EntryCount(SpecsFor(forest, u))
    ensures var specs := SpecsFor(forest, u);
            && (EntryCount(specs) < 0x1_0000 ==> Flatten(specs, []).Some?)
            && (Flatten(specs, []).Some? ==>
                  && TopLevelCount(Flatten(specs, []).value, |forest|) == |forest|
                  && ParseMembers(Flatten(specs, []).value, 0, |forest|, depth) == Some(forest))
  {
    SpecsDescribe(forest, u);
    FlattenParsesBack(SpecsFor(forest, u), depth);
  }

  /** And nothing else ever comes out of an array. */
  lemma {:induction false} ParsedIsDescribable(es: seq<RawProperty>, index: nat, depth: nat)
    requires index < |es| && ParseProperty(es, index, depth).Some?
    ensures Describable(ParseProperty(es, index, depth).value)
    decreases depth, |es|
  {
    var raw := es[index];
    if raw.flags.isStruct {
      ParsedAreDescribable(es, RegionStart(es, raw), RegionEnd(es, raw), depth - 1);
    }
  }

  lemma {:induction false} ParsedAreDescribable(es: seq<RawProperty>, start: nat, end: nat, depth: nat)
    requires start <= end <= |es| && ParseMembers(es, start, end, depth).Some?
    ensures AllDescribable(ParseMembers(es, start, end, depth).value)
    decreases depth, |es| + 1 + end - start
  {
    if start < end {
      ParsedIsDescribable(es, start, depth);
      ParsedAreDescribable(es, start + 1, end, depth);
    }
  }

  /** Which entries are top-level: all of them when TDH did not say, else as many as it said and there are. */
  lemma IsTopLevel(es: seq<RawProperty>, declared: nat, index: nat)
    ensures index < TopLevelCount(es, declared) <==> index < |es| && (declared == 0 || index < declared)
  {
  }

  // ---------- when the recursion ends ----------

  /** Entries nested in one another: each one lies in the member region of the one before it. */
  ghost predicate Chain(es: seq<RawProperty>, path: seq<nat>) {
    && path != []
    && (forall k :: 0 <= k < |path| ==> path[k] < |es|)
    && (forall k :: 0 < k < |path| ==> Contains(es, path[k - 1], path[k]))
  }

  ghost predicate Contains(es: seq<RawProperty>, outer: nat, inner: nat) {
    && outer < |es| && es[outer].flags.isStruct
    && es[outer].memberStart <= inner < es[outer].memberStart + es[outer].memberCount && inner < |es|
  }

  /** Starting at `index`, some entry is reached again from within itself. */
  ghost predicate ContainsItself(es: seq<RawProperty>, index: nat) {
    exists path: seq<nat> :: Chain(es, path) && path[0] == index && Repeats(path)
  }

  ghost predicate Repeats(path: seq<nat>) {
    exists a, b :: 0 <= a < b < |path| && path[a] == path[b]
  }

  /** `parse_property` returns without nesting deeper than `depth`. */
  ghost predicate ReturnsWithin(es: seq<RawProperty>, index: nat, depth: nat)
    requires index < |es|
  {
    ParseProperty(es, index, depth).Some?
  }

  lemma ChainPrefix(es: seq<RawProperty>, path: seq<nat>, n: nat)
    requires Chain(es, path) && 0 < n <= |path|
    ensures Chain(es, path[..n])
  {
    var prefix := path[..n];
    forall k | 0 < k < |prefix| ensures Contains(es, prefix[k - 1], prefix[k]) {
      assert Contains(es, path[k - 1], path[k]);
    }
  }

  lemma {:induction false} ChainExceedsDepth(es: seq<RawProperty>, path: seq<nat>)
    requires Chain(es, path)
    ensures ParseProperty(es, path[0], |path| - 1) == None
    decreases |path|
  {
    if |path| > 1 {
      var raw := es[path[0]];
      forall k | 0 < k < |path[1..]| ensures Contains(es, path[1..][k - 1], path[1..][k]) {
        assert Contains(es, path[(k + 1) - 1], path[k + 1]);
      }
      ChainExceedsDepth(es, path[1..]);
      assert Contains(es, path[1 - 1], path[1]);
      MemberExceedsDepth(es, RegionStart(es, raw), RegionEnd(es, raw), |path| - 2, path[1]);
    }
  }

  lemma {:induction false} MemberExceedsDepth(es: seq<RawProperty>, start: nat, end: nat, depth: nat, i: nat)
    requires start <= i < end <= |es|
    requires ParseProperty(es, i, depth) == None
    ensures ParseMembers(es, start, end, depth) == None
    decreases end - start
  {
    if start < i {
      MemberExceedsDepth(es, start + 1, end, depth, i);
    }
  }

  lemma {:induction false} ExceededDepthChain(es: seq<RawProperty>, index: nat, depth: nat) returns (path: seq<nat>)
    requires index < |es| && ParseProperty(es, index, depth) == None
    ensures Chain(es, path) && path[0] == index && |path| == depth + 1
    decreases depth
  {
    if depth == 0 {
      path := [index];
    } else {
      var raw := es[index];
      var i := ExceedingMember(es, RegionStart(es, raw), RegionEnd(es, raw), depth - 1);
      var rest := ExceededDepthChain(es, i, depth - 1);
      path := [index] + rest;
      forall k | 0 < k < |path| ensures Contains(es, path[k - 1], path[k]) {
        if k > 1 {
          assert Contains(es, rest[(k - 1) - 1], rest[k - 1]);
        }
      }
    }
  }

  lemma {:induction false} ExceedingMember(es: seq<RawProperty>, start: nat, end: nat, depth: nat) returns (i: nat)
    requires start <= end <= |es| && ParseMembers(es, start, end, depth) == None
    ensures start <= i < end && ParseProperty(es, i, depth) == None
    decreases end - start
  {
    if ParseProperty(es, start, depth) == None {
      i := start;
    } else {
      i := ExceedingMember(es, start + 1, end, depth);
    }
  }

  /** Distinct numbers below `n` are at most `n`. */
  lemma {:induction false} LongPathRepeats(path: seq<nat>, n: nat)
    requires forall k :: 0 <= k < |path| ==> path[k] < n
    requires |path| > n
    ensures Repeats(path)
    decreases n
  {
    if !Repeats(path) {
      assert path[0] < n;
      if k :| 0 <= k < |path| && path[k] == n - 1 {
        var shorter := path[..k] + path[k + 1..];
        forall a, b | 0 <= a < b < |shorter| ensures shorter[a] != shorter[b] {
          var a', b' := if a < k then a else a + 1, if b < k then b else b + 1;
          assert shorter[a] == path[a'] && shorter[b] == path[b'] && a' < b';
        }
        forall j | 0 <= j < |shorter| ensures shorter[j] < n - 1 {
          var j' := if j < k then j else j + 1;
          assert shorter[j] == path[j'] && j' != k;
          assert path[j'] != path[k];
        }
        LongPathRepeats(shorter, n - 1);
      } else {
        LongPathRepeats(path, n - 1);
      }
    }
  }

  /** A chain that comes back to an entry can be walked round and round. */
  lemma {:induction false} WindUp(es: seq<RawProperty>, path: seq<nat>, a: nat, b: nat, n: nat)
    returns (longer: seq<nat>)
    requires Chain(es, path) && a < b < |path| && path[a] == path[b]
    ensures Chain(es, longer) && longer[0] == path[0] && |longer| > n
    decreases if n >= |path| then n - |path| + 1 else 0
  {
    if |path| > n {
      longer := path;
    } else {
      var wound := path[..b] + path[a..];
      forall k | 0 < k < |wound| ensures Contains(es, wound[k - 1], wound[k]) {
        if k <= b {
          assert Contains(es, path[k - 1], path[k]);
        } else {
          assert Contains(es, path[(k - b + a) - 1], path[k - b + a]);
        }
      }
      longer := WindUp(es, wound, a, b, n);
    }
  }

  /** `parse_property` has no guard against cycles: it returns exactly when no structure it meets
      contains itself, and then within as many nested calls as there are entries. */
  lemma ParsingTerminatesIff(es: seq<RawProperty>, index: nat)
    requires index < |es|
    ensures (exists depth: nat :: ReturnsWithin(es, index, depth)) <==> !ContainsItself(es, index)
    ensures !ContainsItself(es, index) ==> ReturnsWithin(es, index, |es|)
  {
    if ContainsItself(es, index) {
      var path :| Chain(es, path) && path[0] == index && Repeats(path);
      var a, b :| 0 <= a < b < |path| && path[a] == path[b];
      forall depth: nat ensures !ReturnsWithin(es, index, depth) {
        var longer := WindUp(es, path, a, b, depth);
        ChainPrefix(es, longer, depth + 1);
        ChainExceedsDepth(es, longer[..depth + 1]);
      }
    } else if !ReturnsWithin(es, index, |es|) {
      var path := ExceededDepthChain(es, index, |es|);
      LongPathRepeats(path, |es|);
    }
  }

  /** The structure of a one-entry table that names itself as its member: parsing it never returns. */
  lemma ParsingMayNotReturn()
    ensures exists es: seq<RawProperty> ::
              && |es| == 1
              && ContainsItself(es, 0)
              && forall depth: nat :: !ReturnsWithin(es, 0, depth)
  {
    var es := [RawProperty("s", PropertyFlags(true, false, false, false), Null, OutTypeNull, 1, 0, 0, 1)];
    assert Contains(es, 0, 0);
    var path: seq<nat> := [0, 0];
    assert Chain(es, path) && path[0] == 0 && path[1] == 0;
    assert Repeats(path);
    ParsingTerminatesIff(es, 0);
  }
}
