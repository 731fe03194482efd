/** Byte strings as the two scripts handle them (Python `bytes`), with the
    two byte-level operations the CBDT decoder needs: `bytes.find` and
    `struct.unpack(">I", ...)`. */
module Bytes {
  import opened Wrappers

  type byte = b: int | 0 <= b < 256
  type Bytes = seq<byte>

  const UInt32Limit: nat := 0x1_0000_0000

  /** The first four bytes of the PNG file signature, `\x89PNG`
      (section 5.2 of the PNG specification). */
  const PngSignaturePrefix: Bytes := [0x89, 0x50, 0x4E, 0x47]

  /** `pattern` occurs in `data` starting at offset `i`. */
  predicate OccursAt(pattern: Bytes, data: Bytes, i: nat) {
    i + |pattern| <= |data| && data[i..i + |pattern|] == pattern
  }

  /** Python's `data.find(pattern)`: the lowest offset at which `pattern`
      occurs, or `None` where Python answers -1. */
  function Find(pattern: Bytes, data: Bytes): (r: Option<nat>)
    ensures r.Some? ==> OccursAt(pattern, data, r.value)
    ensures r.Some? ==> forall j :: 0 <= j < r.value ==> !OccursAt(pattern, data, j)
    ensures r.None? <==> forall j :: !OccursAt(pattern, data, j)
  {
    FindFrom(pattern, data, 0)
  }

  function FindFrom(pattern: Bytes, data: Bytes, start: nat): (r: Option<nat>)
    requires start <= |data|
    ensures r.Some? ==> start <= r.value && OccursAt(pattern, data, r.value)
    ensures r.Some? ==> forall j :: start <= j < r.value ==> !OccursAt(pattern, data, j)
    ensures r.None? <==> forall j :: start <= j ==> !OccursAt(pattern, data, j)
    decreases |data| - start
  {
    if OccursAt(pattern, data, start) then Some(start)
    else if start + |pattern| >= |data| then
      None
    else FindFrom(pattern, data, start + 1)
  }

  /** `struct.unpack(">I", b)[0]`: four bytes read as a big-endian
      unsigned 32-bit integer. */
  function BigEndianUInt32(b: Bytes): (n: nat)
    requires |b| == 4
    ensures n < UInt32Limit
  {
    ((b[0] as int * 0x100 + b[1]) * 0x100 + b[2]) * 0x100 + b[3]
  }

  /** `struct.pack(">I", n)`, the inverse of `BigEndianUInt32`. */
  function UInt32BigEndian(n: nat): (b: Bytes)
    requires n < UInt32Limit
    ensures |b| == 4
  {
    var m1 := n / 0x100;
    var m2 := m1 / 0x100;
    [m2 / 0x100, m2 % 0x100, m1 % 0x100, n % 0x100]
  }

  lemma PackUnpack(n: nat)
    requires n < UInt32Limit
    ensures BigEndianUInt32(UInt32BigEndian(n)) == n
  {
    var m1 := n / 0x100;
    var m2 := m1 / 0x100;
    assert n == m1 * 0x100 + n % 0x100;
    assert m1 == m2 * 0x100 + m1 % 0x100;
    assert m2 == (m2 / 0x100) * 0x100 + m2 % 0x100;
  }

  lemma UnpackPack(b: Bytes)
    requires |b| == 4
    ensures UInt32BigEndian(BigEndianUInt32(b)) == b
  {
    var m2 := b[0] as int * 0x100 + b[1];
    var m1 := m2 * 0x100 + b[2];
    var n := m1 * 0x100 + b[3];
    assert n / 0x100 == m1 && n % 0x100 == b[3];
    assert m1 / 0x100 == m2 && m1 % 0x100 == b[2];
    assert m2 / 0x100 == b[0] && m2 % 0x100 == b[1];
  }
}
