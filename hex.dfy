/**
 * Hexadecimal decoding of a key string (Go's `hex.DecodeString`), and the
 * lower-case encoding it inverts.
 *
 * The string is taken as its bytes. Decoding reads the digits in pairs,
 * the first of each pair being the high nibble; it fails on an odd length
 * or on any byte that is not a digit `0-9`, `a-f` or `A-F`.
 */
module Hex {
  import opened Wire
  import opened Wrappers

  /** Whether `c` is a hexadecimal digit. */
  predicate IsHexDigit(c: byte)
  {
    ('0' as byte <= c <= '9' as byte) || ('a' as byte <= c <= 'f' as byte) || ('A' as byte <= c <= 'F' as byte)
  }

  /** The byte with `A`-`F` turned into `a`-`f`; every other byte is kept. */
  function Lower(c: byte): byte
  {
    if 'A' as byte <= c <= 'F' as byte then c - 'A' as byte + 'a' as byte else c
  }

  /**
   * `fromHexChar`: the value of a hexadecimal digit, or nothing for any
   * other byte. Upper- and lower-case letters have the same value: the
   * value's lower-case digit is the byte in lower case.
   */
  function FromHexChar(c: byte): (r: Option<byte>)
    ensures r.Some? <==> IsHexDigit(c)
    ensures r.Some? ==> r.value < 16 && HexChar(r.value) == Lower(c)
  {
    if '0' as byte <= c <= '9' as byte then Some(c - '0' as byte)
    else if 'a' as byte <= c <= 'f' as byte then Some(c - 'a' as byte + 10)
    else if 'A' as byte <= c <= 'F' as byte then Some(c - 'A' as byte + 10)
    else None
  }

  /** The byte whose high and low nibbles are `hi` and `lo`. */
  function Nibbles(hi: byte, lo: byte): byte
  {
    (hi << 4) | lo
  }

  /** Whether every byte of `s` is a hexadecimal digit. */
  predicate AllHex(s: seq<byte>)
  {
    forall i | 0 <= i < |s| :: IsHexDigit(s[i])
  }

  /** `hex.DecodeString`: the bytes the digit pairs of `s` spell, or nothing when `s` is not hexadecimal. */
  function HexDecode(s: seq<byte>): (r: Option<seq<byte>>)
    ensures r.Some? ==> 2 * |r.value| == |s|
    decreases |s|
  {
    if |s| == 0 then Some([])
    else if |s| == 1 then None
    else
      match (FromHexChar(s[0]), FromHexChar(s[1]), HexDecode(s[2..]))
      case (Some(hi), Some(lo), Some(rest)) => Some([Nibbles(hi, lo)] + rest)
      case _ => None
  }

  /** Decoding succeeds exactly on strings of even length made only of hexadecimal digits. */
  lemma {:induction false} HexDecodeSucceeds(s: seq<byte>)
    ensures HexDecode(s).Some? <==> |s| % 2 == 0 && AllHex(s)
    decreases |s|
  {
    if |s| >= 2 {
      HexDecodeSucceeds(s[2..]);
      assert AllHex(s) <==> IsHexDigit(s[0]) && IsHexDigit(s[1]) && AllHex(s[2..]) by {
        if IsHexDigit(s[0]) && IsHexDigit(s[1]) && AllHex(s[2..]) {
          forall i | 0 <= i < |s|
            ensures IsHexDigit(s[i])
          {
            if i >= 2 {
              assert s[i] == s[2..][i - 2];
            }
          }
        }
      }
    } else if |s| == 1 {
      assert |s| % 2 == 1;
    }
  }

  /** A successful decoding of a non-empty string starts with its first digit pair. */
  lemma HexDecodeStep(s: seq<byte>)
    requires HexDecode(s).Some? && |s| > 0
    ensures |s| >= 2 && FromHexChar(s[0]).Some? && FromHexChar(s[1]).Some? && HexDecode(s[2..]).Some?
    ensures HexDecode(s).value == [Nibbles(FromHexChar(s[0]).value, FromHexChar(s[1]).value)] + HexDecode(s[2..]).value
  {
  }

  /** Byte `i` of a successful decoding is the pair of digits at `2 * i`. */
  lemma {:induction false} HexDecodeBytes(s: seq<byte>, i: nat)
    requires HexDecode(s).Some? && i < |HexDecode(s).value|
    ensures FromHexChar(s[2 * i]).Some? && FromHexChar(s[2 * i + 1]).Some?
    ensures HexDecode(s).value[i] == Nibbles(FromHexChar(s[2 * i]).value, FromHexChar(s[2 * i + 1]).value)
    decreases i
  {
    HexDecodeStep(s);
    if i > 0 {
      var t := s[2..];
      HexDecodeBytes(t, i - 1);
      assert HexDecode(s).value[i] == HexDecode(t).value[i - 1];
      assert s[2 * i] == t[2 * (i - 1)] && s[2 * i + 1] == t[2 * (i - 1) + 1];
    }
  }

  /** The lower-case digit of a nibble (the alphabet of Go's `hex.EncodeToString`). */
  function HexChar(v: byte): (c: byte)
    requires v < 16
  {
    if v < 10 then '0' as byte + v else 'a' as byte + (v - 10)
  }

  lemma HexCharDigit(v: byte)
    requires v < 16
    ensures FromHexChar(HexChar(v)) == Some(v)
  {
  }

  /** A digit and its lower-case form have the same value. */
  lemma FromHexCharLower(c: byte)
    ensures FromHexChar(Lower(c)) == FromHexChar(c)
  {
    if 'A' as byte <= c <= 'F' as byte {
      var l := c - 'A' as byte + 'a' as byte;
      assert Lower(c) == l && 'a' as byte <= l <= 'f' as byte;
      assert l - 'a' as byte == c - 'A' as byte;
    }
  }

  /** Every byte of `s` in lower case. */
  function LowerAll(s: seq<byte>): (t: seq<byte>)
    ensures |t| == |s|
  {
    seq(|s|, i requires 0 <= i < |s| => Lower(s[i]))
  }

  /** Case does not matter to decoding: a string and its lower-case form decode alike. */
  lemma {:induction false} HexDecodeLower(s: seq<byte>)
    ensures HexDecode(LowerAll(s)) == HexDecode(s)
    decreases |s|
  {
    var t := LowerAll(s);
    if |s| >= 2 {
      FromHexCharLower(s[0]);
      FromHexCharLower(s[1]);
      assert t[2..] == LowerAll(s[2..]);
      HexDecodeLower(s[2..]);
    }
  }

  /** Splitting a byte into its nibbles and joining them again gives the byte back. */
  lemma NibblesJoin(b: byte)
    ensures b >> 4 < 16 && b & 0xf < 16
    ensures Nibbles(b >> 4, b & 0xf) == b
  {
  }

  /** The lower-case hexadecimal spelling of `b`, two digits per byte. */
  function HexEncode(b: seq<byte>): (s: seq<byte>)
    ensures |s| == 2 * |b|
  {
    if b == [] then []
    else
      NibblesJoin(b[0]);
      [HexChar(b[0] >> 4), HexChar(b[0] & 0xf)] + HexEncode(b[1..])
  }

  /** Decoding inverts encoding. */
  lemma {:induction false} HexRoundTrip(b: seq<byte>)
    ensures HexDecode(HexEncode(b)) == Some(b)
  {
    if b != [] {
      var s := HexEncode(b);
      NibblesJoin(b[0]);
      HexCharDigit(b[0] >> 4);
      HexCharDigit(b[0] & 0xf);
      HexRoundTrip(b[1..]);
      assert s[2..] == HexEncode(b[1..]);
      assert b == [b[0]] + b[1..];
    }
  }
}
