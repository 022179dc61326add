/** Bytes, machine integers, and the byte scans shared by the decoder and the serializer. */
module Bytes {
  import opened Wrappers

  type byte = x: int | 0 <= x < 0x100
  type u16 = x: int | 0 <= x < 0x1_0000
  type u32 = x: int | 0 <= x < 0x1_0000_0000

  /** `usize` is 64 bits wide: the first value it cannot hold. */
  const USIZE_LIMIT: nat := 0x1_0000_0000_0000_0000

  /** `usize::checked_mul`. */
  function CheckedMul(a: nat, b: nat): (r: Option<nat>)
    ensures r.Some? <==> a * b < USIZE_LIMIT
  {
    if a * b < USIZE_LIMIT then Some(a * b) else None
  }

  /** `usize` addition in a build without overflow checks. */
  function WrappingAdd(a: nat, b: nat): (r: nat)
    ensures r < USIZE_LIMIT
    ensures a + b < USIZE_LIMIT ==> r == a + b
    ensures r <= a + b
  {
    (a + b) % USIZE_LIMIT
  }

  /** 256 to the `width`. */
  function Radix(width: nat): (r: nat)
    ensures r > 0
  {
    if width == 0 then 1 else 256 * Radix(width - 1)
  }

  function LittleEndian(bytes: seq<byte>): (n: nat)
    ensures n < Radix(|bytes|)
  {
    if bytes == [] then 0 else bytes[0] + 256 * LittleEndian(bytes[1..])
  }

  function ToLittleEndian(n: nat, width: nat): (bytes: seq<byte>)
    requires n < Radix(width)
    ensures |bytes| == width
    ensures LittleEndian(bytes) == n
  {
    if width == 0 then [] else [n % 256] + ToLittleEndian(n / 256, width - 1)
  }

  function U16FromLe(first: byte, second: byte): u16 {
    (first as int) + 256 * (second as int)
  }

  function U16FromBe(first: byte, second: byte): u16 {
    256 * (first as int) + (second as int)
  }

  /** Position of the first zero byte (`memchr::memchr(0, bytes)`). */
  function FindNul(bytes: seq<byte>): (r: Option<nat>)
    ensures r.Some? ==> r.value < |bytes| && bytes[r.value] == 0
    ensures forall j :: 0 <= j < (if r.Some? then r.value else |bytes|) ==> bytes[j] != 0
  {
    if bytes == [] then None
    else if bytes[0] == 0 then Some(0)
    else
      var rest :- FindNul(bytes[1..]);
      Some(rest + 1)
  }

  lemma FirstNulIs(bytes: seq<byte>, n: nat)
    requires n < |bytes| && bytes[n] == 0
    requires 0 !in bytes[..n]
    ensures FindNul(bytes) == Some(n)
  {
    forall j | 0 <= j < n ensures bytes[j] != 0 {
      assert bytes[j] in bytes[..n];
    }
  }

  /** Whether the `k`-th two-byte unit of `bytes` is zero. */
  predicate IsNulUnit(bytes: seq<byte>, k: nat) {
    2 * k + 1 < |bytes| && bytes[2 * k] == 0 && bytes[2 * k + 1] == 0
  }

  /** Position of the first zero UTF-16 unit (`chunks_exact(2).position(..)`): a trailing odd
      byte belongs to no unit. */
  function FindNulUnit(bytes: seq<byte>): (r: Option<nat>)
    ensures r.Some? ==> IsNulUnit(bytes, r.value)
    ensures forall k: nat :: (r.Some? ==> k < r.value) ==> !IsNulUnit(bytes, k)
  {
    if |bytes| < 2 then None
    else if bytes[0] == 0 && bytes[1] == 0 then Some(0)
    else
      assert forall k: nat :: k > 0 ==> (IsNulUnit(bytes, k) <==> IsNulUnit(bytes[2..], k - 1));
      var rest :- FindNulUnit(bytes[2..]);
      Some(rest + 1)
  }
}
