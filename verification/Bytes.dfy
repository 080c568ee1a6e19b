// Bytes and little-endian integers, shared by the wire format and the matrix file.

module Bytes {
  type Byte = x: int | 0 <= x < 256

  const U32_LIMIT := 0x1_0000_0000
  const U64_LIMIT := 0x1_0000_0000_0000_0000

  /** The number that bytes spell, of any width, the least significant byte first. */
  function Value(bytes: seq<Byte>): nat {
    if bytes == [] then 0 else bytes[0] as int + 0x100 * Value(bytes[1..])
  }

  function ToLittleEndian(n: nat): (bytes: seq<Byte>)
    requires n < U32_LIMIT
    ensures |bytes| == 4
  {
    [n % 0x100, n / 0x100 % 0x100, n / 0x1_0000 % 0x100, n / 0x100_0000]
  }

  function FromLittleEndian(bytes: seq<Byte>): (n: nat)
    requires |bytes| == 4
    ensures n < U32_LIMIT
  {
    bytes[0] as int + 0x100 * bytes[1] as int + 0x1_0000 * bytes[2] as int + 0x100_0000 * bytes[3] as int
  }

  lemma LengthRoundTrip(n: nat)
    requires n < U32_LIMIT
    ensures FromLittleEndian(ToLittleEndian(n)) == n
  {
    var q := n / 0x100;
    assert n == 0x100 * q + n % 0x100;
    assert n / 0x1_0000 == q / 0x100 && q == 0x100 * (q / 0x100) + q % 0x100;
    var p := q / 0x100;
    assert n / 0x100_0000 == p / 0x100 && p == 0x100 * (p / 0x100) + p % 0x100;
  }

  lemma LengthRoundTripBack(bytes: seq<Byte>)
    requires |bytes| == 4
    ensures ToLittleEndian(FromLittleEndian(bytes)) == bytes
  {
    var n := FromLittleEndian(bytes);
    var b0: int, b1: int, b2: int, b3: int := bytes[0], bytes[1], bytes[2], bytes[3];
    var p := b2 + 0x100 * b3;
    var q := b1 + 0x100 * p;
    assert n == b0 + 0x100 * q;
    assert n / 0x100 == q && n % 0x100 == b0;
    assert q / 0x100 == p && q % 0x100 == b1;
    assert n / 0x1_0000 == p && n / 0x100_0000 == b3 && p % 0x100 == b2;
  }

  lemma FourBytes(bytes: seq<Byte>)
    requires |bytes| == 4
    ensures Value(bytes) == FromLittleEndian(bytes)
  {
    assert bytes[1..][1..] == bytes[2..] && bytes[2..][1..] == bytes[3..] && bytes[3..][1..] == [];
    assert Value(bytes[3..]) == bytes[3] as int;
    assert Value(bytes[2..]) == bytes[2] as int + 0x100 * Value(bytes[3..]);
    assert Value(bytes[1..]) == bytes[1] as int + 0x100 * Value(bytes[2..]);
  }

  lemma ValueConcat(a: seq<Byte>, b: seq<Byte>)
    requires |a| == 4
    ensures Value(a + b) == Value(a) + U32_LIMIT * Value(b)
  {
    FourBytes(a);
    var all := a + b;
    assert all[4..] == b && all[3..][1..] == all[4..] && all[2..][1..] == all[3..] && all[1..][1..] == all[2..];
    assert Value(all[3..]) == a[3] as int + 0x100 * Value(b);
    assert Value(all[2..]) == a[2] as int + 0x100 * Value(all[3..]);
    assert Value(all[1..]) == a[1] as int + 0x100 * Value(all[2..]);
    assert Value(all) == a[0] as int + 0x100 * Value(all[1..]);
  }

  function ToLittleEndian64(n: nat): (bytes: seq<Byte>)
    requires n < U64_LIMIT
    ensures |bytes| == 8
  {
    ToLittleEndian(n % U32_LIMIT) + ToLittleEndian(n / U32_LIMIT)
  }

  lemma ToLittleEndian64Value(n: nat)
    requires n < U64_LIMIT
    ensures Value(ToLittleEndian64(n)) == n
  {
    hide ToLittleEndian, FromLittleEndian;
    var low, high := ToLittleEndian(n % U32_LIMIT), ToLittleEndian(n / U32_LIMIT);
    LengthRoundTrip(n % U32_LIMIT);
    LengthRoundTrip(n / U32_LIMIT);
    FourBytes(low);
    FourBytes(high);
    ValueConcat(low, high);
  }

  lemma ToLittleEndianValue(n: nat)
    requires n < U32_LIMIT
    ensures Value(ToLittleEndian(n)) == n
  {
    hide ToLittleEndian, FromLittleEndian;
    LengthRoundTrip(n);
    FourBytes(ToLittleEndian(n));
  }

  function FromLittleEndian64(bytes: seq<Byte>): (n: nat)
    requires |bytes| == 8
    ensures n < U64_LIMIT
  {
    FromLittleEndian(bytes[..4]) + U32_LIMIT * FromLittleEndian(bytes[4..])
  }

  lemma LengthRoundTrip64(n: nat)
    requires n < U64_LIMIT
    ensures FromLittleEndian64(ToLittleEndian64(n)) == n
  {
    LengthRoundTrip(n % U32_LIMIT);
    LengthRoundTrip(n / U32_LIMIT);
    assert ToLittleEndian64(n)[..4] == ToLittleEndian(n % U32_LIMIT);
    assert ToLittleEndian64(n)[4..] == ToLittleEndian(n / U32_LIMIT);
  }

  lemma Halves(low: nat, high: nat)
    requires low < U32_LIMIT
    ensures (low + U32_LIMIT * high) % U32_LIMIT == low && (low + U32_LIMIT * high) / U32_LIMIT == high
  {
  }

  lemma LengthRoundTripBack64(bytes: seq<Byte>)
    requires |bytes| == 8
    ensures ToLittleEndian64(FromLittleEndian64(bytes)) == bytes
  {
    hide ToLittleEndian, FromLittleEndian;
    var low, high := FromLittleEndian(bytes[..4]), FromLittleEndian(bytes[4..]);
    LengthRoundTripBack(bytes[..4]);
    LengthRoundTripBack(bytes[4..]);
    Halves(low, high);
    assert bytes == bytes[..4] + bytes[4..];
  }

  // ---------- Characters as bytes ----------

  /** A character in UTF-8, as RFC 3629 lays it out in section 3. */
  function Utf8Char(c: char): seq<Byte> {
    var n := c as int;
    if n < 0x80 then [n]
    else if n < 0x800 then [0xC0 + n / 0x40, 0x80 + n % 0x40]
    else if n < 0x1_0000 then [0xE0 + n / 0x1000, 0x80 + n / 0x40 % 0x40, 0x80 + n % 0x40]
    else [0xF0 + n / 0x4_0000, 0x80 + n / 0x1000 % 0x40, 0x80 + n / 0x40 % 0x40, 0x80 + n % 0x40]
  }

  function Utf8(s: string): seq<Byte> {
    if s == "" then [] else Utf8Char(s[0]) + Utf8(s[1..])
  }
}
