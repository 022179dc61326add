/** The incremental parser: a cache of walked properties, probed by name or indexed by position. */
module Parser {
  import opened Wrappers
  import opened Bytes
  import opened Sizing
  import opened Walk
  import opened ParseCache

  class Parser {
    const ev: Event
    var slices: seq<PropertySlice>
    var nextProbe: nat
    var lastCachedOffset: nat

    ghost function Cached(): Cache
      reads this
    {
      Cache(slices, nextProbe, lastCachedOffset)
    }

    ghost predicate Valid()
      reads this
    {
      Refines(ev, Cached())
    }

    constructor (ev: Event)
      ensures this.ev == ev
      ensures Valid() && Cached() == EMPTY_CACHE
    {
      this.ev := ev;
      slices, nextProbe, lastCachedOffset := [], 0, 0;
    }

    method ParseNextProperty() returns (r: Result<(), ParserError>)
      requires Valid()
      modifies this
      ensures Valid()
      ensures Outcome(Cached(), r) == ParseNext(ev, old(Cached()))
    {
      ParseNextRefines(ev, Cached());
      if |slices| >= |ev.properties| {
        return Err(NotFound);
      }
      var property := ev.properties[|slices|];
      if ev.dataStart.None? {
        return Err(PropertyError("unsupported event layout: inline TraceLogging metadata"));
      }
      if ev.dataStart.value + lastCachedOffset > |ev.record.userBuffer| {
        return Err(PropertyError("Invalid buffer bounds"));
      }
      var remaining := ev.record.userBuffer[ev.dataStart.value + lastCachedOffset..];
      var size := FindPropertySize(ev.record, property, slices, remaining);
      if size.Err? {
        return Err(size.error);
      }
      if size.value > |remaining| {
        return Err(PropertyError("Property length out of buffer bounds"));
      }
      slices := slices + [PropertySlice(property, remaining[..size.value])];
      lastCachedOffset := lastCachedOffset + size.value;
      return Ok(());
    }

    method FindProperty(name: string) returns (r: Result<PropertySlice, ParserError>)
      requires Valid()
      modifies this
      ensures Valid()
      ensures var spec := FindByName(ev, old(Cached()), name);
              && Cached() == spec.cache
              && r == match spec.result
                      case Ok(idx) => Ok(spec.cache.slices[idx])
                      case Err(e) => Err(e)
    {
      hide ProbeIndex, NextSlice;
      ghost var before := Cached();
      var i := 0;
      while i < |slices|
        invariant i <= |slices|
        invariant Cached() == before
        invariant Probe(before, name, 0) == Probe(before, name, i)
      {
        var idx := ProbeIndex(|slices|, nextProbe, i);
        if slices[idx].property.name == name {
          nextProbe := ProbeIndex(|slices|, idx, 1);
          return Ok(slices[idx]);
        }
        i := i + 1;
      }
      while |slices| < |ev.properties|
        invariant Valid()
        invariant ParseUntil(ev, before, name) == ParseUntil(ev, Cached(), name)
        decreases |ev.properties| - |slices|
      {
        var step := ParseNextProperty();
        if step.Err? {
          return Err(step.error);
        }
        var last := slices[|slices| - 1];
        if last.property.name == name {
          return Ok(last);
        }
      }
      return Err(NotFound);
    }

    method PropertyBytesAt(index: nat) returns (r: Result<seq<byte>, ParserError>)
      requires Valid()
      modifies this
      ensures Valid()
      ensures Outcome(Cached(), r) == BytesAt(ev, old(Cached()), index)
    {
      ghost var before := Cached();
      while |slices| <= index
        invariant Valid()
        invariant ParseTo(ev, before, index + 1) == ParseTo(ev, Cached(), index + 1)
        decreases index + 1 - |slices|
      {
        var step := ParseNextProperty();
        if step.Err? {
          return Err(step.error);
        }
      }
      return Ok(slices[index].buffer);
    }
  }
}
