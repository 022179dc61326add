/** The security identifier of an extended data item, copied out of untrusted bytes. */
module SidItem {
  import opened Wrappers
  import opened Bytes
  import opened Sizing
  import opened WireFormat

  /** `Sid::from_raw`, on the readable bytes of the item. */
  function FromRaw(data: seq<byte>): (sid: Option<seq<byte>>)
    ensures sid.Some? ==> |sid.value| >= 8 && |sid.value| == SidSize(sid.value[1]) && sid.value <= data
  {
    if |data| < 2 then None
    else
      var fullLength := SidSize(data[1]);
      if fullLength > |data| then None else Some(data[..fullLength])
  }

  /** `Sid::sub_authority`: never out of the copied bytes. */
  function SubAuthority(sid: seq<byte>, index: nat): Option<nat>
    requires |sid| >= 8 && |sid| == SidSize(sid[1])
  {
    if index >= sid[1] then None else Some(LittleEndian(sid[8 + 4 * index..8 + 4 * index + 4]))
  }

  lemma {:induction false} SubAuthorityAt(subAuthorities: seq<u32>, i: nat)
    requires i < |subAuthorities|
    ensures LittleEndian(SubAuthorityBytes(subAuthorities)[4 * i..4 * i + 4]) == subAuthorities[i]
    decreases i
  {
    hide LittleEndian, ToLittleEndian, Radix;
    var bytes, rest := SubAuthorityBytes(subAuthorities), SubAuthorityBytes(subAuthorities[1..]);
    if i == 0 {
      FourBytes(subAuthorities[0]);
      assert bytes[0..4] == ToLittleEndian(subAuthorities[0], 4);
    } else {
      SubAuthorityAt(subAuthorities[1..], i - 1);
      assert bytes[4 * i..4 * i + 4] == rest[4 * (i - 1)..4 * (i - 1) + 4];
    }
  }

  lemma FourBytes(n: u32)
    ensures n < Radix(4)
  {
    assert Radix(4) == 256 * Radix(3) && Radix(3) == 256 * Radix(2) && Radix(2) == 256 * Radix(1);
  }

  /** Whatever follows it, a whole SID is copied exactly and its sub-authorities read back; cut short
      anywhere, it is dropped. */
  lemma SidRoundTrip(sid: Field, trailing: seq<byte>, pointerSize: nat, index: nat, cut: nat)
    requires sid.SecurityId? && WellFormed(sid, pointerSize)
    ensures var bytes := Encode(sid, pointerSize);
            && FromRaw(bytes + trailing) == Some(bytes)
            && SubAuthority(bytes, index)
               == (if index < |sid.subAuthorities| then Some(sid.subAuthorities[index]) else None)
            && (cut < |bytes| ==> FromRaw(bytes[..cut]) == None)
  {
    hide SubAuthorityBytes, LittleEndian;
    var bytes := Encode(sid, pointerSize);
    assert bytes[1] == |sid.subAuthorities|;
    assert (bytes + trailing)[..|bytes|] == bytes;
    if index < |sid.subAuthorities| {
      SubAuthorityAt(sid.subAuthorities, index);
      assert bytes[8 + 4 * index..8 + 4 * index + 4]
          == SubAuthorityBytes(sid.subAuthorities)[4 * index..4 * index + 4];
    }
  }
}
