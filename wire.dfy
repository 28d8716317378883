/**
 * Fixed-width integers and the big-endian byte order used on the wire
 * (Go's `encoding/binary.BigEndian`).
 *
 * Bytes are 8-bit bit-vectors so that the masks and shifts of the source
 * can be written as they are; multi-byte integers that take part in
 * arithmetic are kept as bounded integers.
 */
module Wire {

  type byte = bv8

  newtype uint16 = x: int | 0 <= x < 0x1_0000
  newtype uint32 = x: int | 0 <= x < 0x1_0000_0000

  /** The size of the NTP header `msg` on the wire, which precedes any MAC. */
  const HEADER_SIZE: int := 48

  /** `binary.BigEndian.PutUint32`: the four bytes of `x`, most significant first. */
  function Uint32Bytes(x: uint32): (r: seq<byte>)
    ensures |r| == 4
    ensures r[0] as int * 0x100_0000 + r[1] as int * 0x1_0000 + r[2] as int * 0x100 + r[3] as int == x as int
  {
    var n := x as int;
    ByteOfValue(n / 0x100_0000);
    ByteOfValue(n / 0x1_0000 % 0x100);
    ByteOfValue(n / 0x100 % 0x100);
    ByteOfValue(n % 0x100);
    JoinDigits(n);
    [ByteOf(x as int / 0x100_0000), ByteOf(x as int / 0x1_0000 % 0x100), ByteOf(x as int / 0x100 % 0x100), ByteOf(x as int % 0x100)]
  }

  /**
   * `binary.BigEndian.Uint32`: the integer whose big-endian bytes are
   * `b[..4]`, so that encoding it gives those four bytes back.
   */
  function Uint32Of(b: seq<byte>): (x: uint32)
    requires |b| >= 4
    ensures Uint32Bytes(x) == b[..4]
  {
    var n := b[0] as int * 0x100_0000 + b[1] as int * 0x1_0000 + b[2] as int * 0x100 + b[3] as int;
    ValueByteOf(b[0]);
    ValueByteOf(b[1]);
    ValueByteOf(b[2]);
    ValueByteOf(b[3]);
    BytesOfDigits(n as uint32, b[0] as int, b[1] as int, b[2] as int, b[3] as int);
    n as uint32
  }

  /**
   * The byte whose value is `n` (Go's `byte(n)` for an `n` that fits).
   * It is built by counting up so that its value can be proved by
   * induction instead of by the solver's integer-to-bit-vector reasoning.
   */
  function ByteOf(n: int): (b: byte)
    requires 0 <= n < 0x100
    decreases n
  {
    if n == 0 then 0 else ByteOf(n - 1) + 1
  }

  lemma {:induction false} ByteOfValue(n: int)
    requires 0 <= n < 0x100
    ensures ByteOf(n) as int == n
    decreases n
  {
    if n > 0 {
      ByteOfValue(n - 1);
    }
  }

  /** Every byte is the `ByteOf` its value. */
  lemma ValueByteOf(b: byte)
    ensures 0 <= b as int < 0x100 && ByteOf(b as int) == b
  {
    ByteOfValue(b as int);
  }

  /** Splitting a 32-bit value into base-256 digits and joining them again. */
  lemma JoinDigits(n: int)
    requires 0 <= n < 0x1_0000_0000
    ensures (n / 0x100_0000) * 0x100_0000 + (n / 0x1_0000 % 0x100) * 0x1_0000 + (n / 0x100 % 0x100) * 0x100 + n % 0x100 == n
  {
    var q1 := n / 0x100;
    var q2 := q1 / 0x100;
    var q3 := q2 / 0x100;
    assert n == q1 * 0x100 + n % 0x100;
    assert q1 == q2 * 0x100 + q1 % 0x100;
    assert q2 == q3 * 0x100 + q2 % 0x100;
    assert q2 == n / 0x1_0000 && q3 == n / 0x100_0000;
  }

  /** Joining four base-256 digits and splitting the result again. */
  lemma SplitDigits(a0: int, a1: int, a2: int, a3: int)
    requires 0 <= a0 < 0x100 && 0 <= a1 < 0x100 && 0 <= a2 < 0x100 && 0 <= a3 < 0x100
    ensures var n := a0 * 0x100_0000 + a1 * 0x1_0000 + a2 * 0x100 + a3;
      n / 0x100_0000 == a0 && n / 0x1_0000 % 0x100 == a1 && n / 0x100 % 0x100 == a2 && n % 0x100 == a3
  {
    var n := a0 * 0x100_0000 + a1 * 0x1_0000 + a2 * 0x100 + a3;
    assert n / 0x100 == a0 * 0x1_0000 + a1 * 0x100 + a2;
    assert n / 0x1_0000 == (n / 0x100) / 0x100 == a0 * 0x100 + a1;
    assert n / 0x100_0000 == (n / 0x1_0000) / 0x100 == a0;
  }

  /** Decoding the encoding of a 32-bit integer gives the integer back. */
  lemma Uint32RoundTrip(x: uint32)
    ensures Uint32Of(Uint32Bytes(x)) == x
  {
  }

  lemma BytesOfDigits(x: uint32, a0: int, a1: int, a2: int, a3: int)
    requires 0 <= a0 < 0x100 && 0 <= a1 < 0x100 && 0 <= a2 < 0x100 && 0 <= a3 < 0x100
    requires x as int == a0 * 0x100_0000 + a1 * 0x1_0000 + a2 * 0x100 + a3
    ensures Uint32Bytes(x) == [ByteOf(a0), ByteOf(a1), ByteOf(a2), ByteOf(a3)]
  {
    var n := x as int;
    SplitDigits(a0, a1, a2, a3);
    assert n / 0x100_0000 == a0;
    assert n / 0x1_0000 % 0x100 == a1;
    assert n / 0x100 % 0x100 == a2;
    assert n % 0x100 == a3;
  }

  /** Every character of `s` fits in one byte, as the characters of a Go string literal in ASCII do. */
  predicate Latin1(s: string)
  {
    forall i | 0 <= i < |s| :: s[i] as int < 0x100
  }

  /** The bytes of such a string (Go's `[]byte(s)`), one per character. */
  function Ascii(s: string): (r: seq<byte>)
    requires Latin1(s)
    ensures |r| == |s|
    ensures forall i | 0 <= i < |s| :: r[i] as int == s[i] as int
  {
    if s == [] then []
    else
      ByteOfValue(s[0] as int);
      [ByteOf(s[0] as int)] + Ascii(s[1..])
  }

  /** The big-endian encoding is one-to-one. */
  lemma Uint32BytesInjective(x: uint32, y: uint32)
    requires Uint32Bytes(x) == Uint32Bytes(y)
    ensures x == y
  {
    Uint32RoundTrip(x);
    Uint32RoundTrip(y);
  }

  /** The 32-bit word of four bytes, the first most significant. */
  function Word4(b0: byte, b1: byte, b2: byte, b3: byte): bv32
  {
    ((b0 as bv32) << 24) | ((b1 as bv32) << 16) | ((b2 as bv32) << 8) | (b3 as bv32)
  }

  /**
   * `binary.BigEndian.Uint32(b[off:off+4])` on words that only take part in
   * bit operations (shifts and exclusive or).
   */
  function WordAt(b: seq<byte>, off: nat): bv32
    requires off + 4 <= |b|
  {
    Word4(b[off], b[off + 1], b[off + 2], b[off + 3])
  }

  /** `binary.BigEndian.PutUint32` on such a word. */
  function WordBytes(x: bv32): (r: seq<byte>)
    ensures |r| == 4
  {
    [(x >> 24) as byte, ((x >> 16) & 0xff) as byte, ((x >> 8) & 0xff) as byte, (x & 0xff) as byte]
  }

  /** Multiplying by a non-negative number keeps the order. */
  lemma MulLeft(a: int, b: int, c: int)
    requires a <= b && c >= 0
    ensures a * c <= b * c
  {
  }

  /** The quotient and remainder of a division are the only ones that fit. */
  lemma DivUnique(x: int, d: int, q: int, r: int)
    requires d > 0 && 0 <= r < d && x == q * d + r
    ensures x / d == q && x % d == r
  {
    var q', r' := x / d, x % d;
    assert q' * d + r' == q * d + r;
    if q' > q {
      MulLeft(q + 1, q', d);
    } else if q' < q {
      MulLeft(q' + 1, q, d);
    }
  }
}
