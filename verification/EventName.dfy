/** The event name embedded in the metadata of a TraceLogging event. */
module EventName {
  import opened Wrappers
  import opened Bytes

  /** The metadata size to trust: the declared one, clamped to the bytes there are. */
  function TrustedSize(blob: seq<byte>): (n: nat)
    requires |blob| >= 2
    ensures n <= |blob|
  {
    var declared := U16FromLe(blob[0], blob[1]);
    if declared < |blob| then declared else |blob|
  }

  /** Past the tag bytes whose high bit says another one follows. */
  function TagsEnd(blob: seq<byte>, size: nat, at: nat): (end: nat)
    requires size <= |blob|
    ensures at <= end && (at <= size ==> end <= size)
    ensures forall j :: at <= j < end ==> j < size && blob[j] >= 0x80
    ensures end < size ==> blob[end] < 0x80
    decreases size - at
  {
    if at < size && blob[at] >= 0x80 then TagsEnd(blob, size, at + 1) else at
  }

  /** `get_event_name`, on the readable bytes of the metadata. */
  function NameIn(blob: seq<byte>): Option<seq<byte>> {
    if |blob| < 2 then None
    else
      var size := TrustedSize(blob);
      var end := TagsEnd(blob, size, 2);
      if end >= size then None
      else
        var rest := blob[end + 1..size];
        var nul :- FindNul(rest);
        Some(rest[..nul])
  }

  method GetEventName(blob: seq<byte>) returns (r: Option<seq<byte>>)
    ensures r == NameIn(blob)
  {
    if |blob| < 2 {
      return None;
    }
    var size := TrustedSize(blob);
    var tagsEnd := 2;
    while tagsEnd < size && blob[tagsEnd] >= 0x80
      invariant 2 <= tagsEnd
      invariant TagsEnd(blob, size, 2) == TagsEnd(blob, size, tagsEnd)
      decreases size - tagsEnd
    {
      tagsEnd := tagsEnd + 1;
    }
    if tagsEnd >= size {
      return None;
    }
    var name := blob[tagsEnd + 1..size];
    var nul := FindNul(name);
    if nul.None? {
      return None;
    }
    return Some(name[..nul.value]);
  }

  /** The metadata layout: a size, a chain of tag bytes of which only the last one has its high bit unset,
      and a NUL-terminated name, all within the trusted size; anything may follow. */
  ghost predicate LaidOut(blob: seq<byte>, tags: nat, name: seq<byte>) {
    && |blob| >= 2
    && 3 + tags + |name| < (blob[0] as int) + 256 * (blob[1] as int)
    && 3 + tags + |name| < |blob|
    && (forall j :: 2 <= j < 2 + tags ==> blob[j] >= 0x80)
    && blob[2 + tags] < 0x80
    && 0 !in name
    && blob[3 + tags..3 + tags + |name|] == name
    && blob[3 + tags + |name|] == 0
  }

  lemma TrustsTheSmaller(blob: seq<byte>)
    requires |blob| >= 2
    ensures var declared := (blob[0] as int) + 256 * (blob[1] as int);
            TrustedSize(blob) == if declared < |blob| then declared else |blob|
  {
  }

  lemma {:induction false} TagsEndIs(blob: seq<byte>, size: nat, at: nat, end: nat)
    requires at <= end < size <= |blob|
    requires forall j :: at <= j < end ==> blob[j] >= 0x80
    requires blob[end] < 0x80
    ensures TagsEnd(blob, size, at) == end
    decreases end - at
  {
    if at < end {
      TagsEndIs(blob, size, at + 1, end);
    }
  }

  /** The parser finds a name exactly in the blobs laid out that way, and it is that name: it inverts the
      layout for every tag chain and trailing data, and rejects every other blob. */
  lemma NameIffLaidOut(blob: seq<byte>, name: seq<byte>)
    ensures NameIn(blob) == Some(name) <==> exists tags: nat :: LaidOut(blob, tags, name)
  {
    if NameIn(blob) == Some(name) {
      FoundIsLaidOut(blob, name);
    }
    if tags: nat :| LaidOut(blob, tags, name) {
      LaidOutIsFound(blob, tags, name);
    }
  }

  lemma FoundIsLaidOut(blob: seq<byte>, name: seq<byte>)
    requires NameIn(blob) == Some(name)
    ensures exists tags: nat :: LaidOut(blob, tags, name)
  {
    hide FindNul, TagsEnd, TrustedSize;
    TrustsTheSmaller(blob);
    var size := TrustedSize(blob);
    var end := TagsEnd(blob, size, 2);
    NulAfterName(blob, end + 1, size, name);
    assert LaidOut(blob, end - 2, name);
  }

  lemma LaidOutIsFound(blob: seq<byte>, tags: nat, name: seq<byte>)
    requires LaidOut(blob, tags, name)
    ensures NameIn(blob) == Some(name)
  {
    hide FindNul, TagsEnd, TrustedSize;
    TrustsTheSmaller(blob);
    TagsEndIs(blob, TrustedSize(blob), 2, 2 + tags);
    NameBeforeNul(blob, 3 + tags, TrustedSize(blob), name);
  }

  /** The name found from `at` on is followed by its NUL. */
  lemma NulAfterName(blob: seq<byte>, at: nat, size: nat, name: seq<byte>)
    requires at <= size <= |blob|
    requires FindNul(blob[at..size]).Some? && blob[at..size][..FindNul(blob[at..size]).value] == name
    ensures at + |name| < size && blob[at + |name|] == 0
    ensures blob[at..at + |name|] == name && 0 !in name
  {
    hide FindNul;
    var rest := blob[at..size];
    assert rest[|name|] == blob[at + |name|];
    assert rest[..|name|] == blob[at..at + |name|];
  }

  lemma NameBeforeNul(blob: seq<byte>, at: nat, size: nat, name: seq<byte>)
    requires at + |name| < size <= |blob|
    requires 0 !in name && blob[at..at + |name|] == name && blob[at + |name|] == 0
    ensures FindNul(blob[at..size]) == Some(|name|) && blob[at..size][..|name|] == name
  {
    hide FindNul;
    var rest := blob[at..size];
    assert rest[..|name|] == blob[at..at + |name|];
    assert rest[|name|] == blob[at + |name|];
    FirstNulIs(rest, |name|);
  }

  /** Writing the metadata and parsing it back: any tag chain, any name without NUL, any field data. */
  lemma WrittenNameIsRead(tags: seq<byte>, lastTag: byte, name: seq<byte>, fields: seq<byte>)
    requires (forall t :: t in tags ==> t >= 0x80) && lastTag < 0x80 && 0 !in name
    requires 4 + |tags| + |name| + |fields| < 0x1_0000
    ensures var body := tags + [lastTag] + name + [0] + fields;
            NameIn(ToLittleEndian16(2 + |body|) + body) == Some(name)
  {
    hide NameIn, FindNul;
    var body := tags + [lastTag] + name + [0] + fields;
    var blob := ToLittleEndian16(2 + |body|) + body;
    assert blob[3 + |tags|..3 + |tags| + |name|] == name;
    forall j | 2 <= j < 2 + |tags| ensures blob[j] >= 0x80 {
      assert blob[j] == tags[j - 2] && tags[j - 2] in tags;
    }
    assert LaidOut(blob, |tags|, name);
    NameIffLaidOut(blob, name);
  }

  function ToLittleEndian16(x: u16): (r: seq<byte>)
    ensures |r| == 2 && U16FromLe(r[0], r[1]) == x
  {
    [x % 256, x / 256]
  }
}
