/**
 * AES-CMAC (RFC 4493) as the client computes it for the AES128 key type:
 * subkey generation by doubling in GF(2^128), exclusive or of 16-byte
 * blocks word by word, padding of the last partial block, and the chain of
 * block encryptions.
 *
 * The block cipher itself is a parameter: `aes(key, block)` stands for
 * `aes.NewCipher(key).Encrypt` on one block.
 */
module Cmac {
  import opened Wire

  /** A 16-byte cipher block. */
  type Block = b: seq<byte> | |b| == 16 witness [0, 0, 0, 0, 0, 0, 0, 0, 0, 0, 0, 0, 0, 0, 0, 0]

  /** A block cipher: the key and a plaintext block give a ciphertext block. */
  type Cipher = (seq<byte>, Block) -> Block

  const ZERO_BLOCK: Block := [0, 0, 0, 0, 0, 0, 0, 0, 0, 0, 0, 0, 0, 0, 0, 0]

  /** The constant R_128 of section 2.3 of RFC 4493 (`rb` in the source). */
  const RB: byte := 0x87

  function XorByte(a: byte, b: byte): byte
  {
    a ^ b
  }

  /** Exclusive or of two blocks, byte by byte; mixing in `b` a second time gives `a` back. */
  function XorBlock(a: seq<byte>, b: seq<byte>): (r: Block)
    requires |a| == 16 && |b| == 16
    ensures forall i | 0 <= i < 16 :: XorByte(r[i], b[i]) == a[i]
  {
    seq(16, i requires 0 <= i < 16 => XorByte(a[i], b[i]))
  }

  /** Byte `a` shifted left by one bit, taking in the top bit of the byte `b` after it. */
  function Shl(a: byte, b: byte): byte
  {
    (a << 1) | (b >> 7)
  }

  /** Byte `i` of the block shifted left by one bit as a 128-bit string. */
  function ShiftedByte(b: seq<byte>, i: nat): byte
    requires i < |b|
  {
    Shl(b[i], if i + 1 < |b| then b[i + 1] else 0)
  }

  /** Whether the top bit of a byte is set. */
  predicate TopBit(a: byte)
  {
    a >> 7 == 1
  }

  /** Byte `i` of the doubled block: `rb` is xored into the last byte when the top bit was set. */
  function DoubledByte(b: seq<byte>, rb: byte, i: nat): byte
    requires |b| == 16 && i < 16
  {
    if i == 15 && TopBit(b[0]) then XorByte(ShiftedByte(b, 15), rb) else ShiftedByte(b, i)
  }

  /**
   * Doubling in GF(2^128) as section 2.3 of RFC 4493 states it: the block
   * shifted left by one bit, exclusive-or `rb` when the bit shifted out was
   * set.
   */
  function DoubleBlock(b: seq<byte>, rb: byte): Block
    requires |b| == 16
  {
    seq(16, i requires 0 <= i < 16 => DoubledByte(b, rb, i))
  }

  /**
   * `pad`: a partial last block completed with a single one bit and then
   * zero bits. The source indexes the first padding byte, so it demands a
   * block shorter than 16 bytes.
   */
  function Pad(b: seq<byte>): (r: Block)
    requires |b| < 16
    ensures r[..|b|] == b && r[|b|] == 0x80
    ensures forall i | |b| < i < 16 :: r[i] == 0
  {
    b + [0x80] + seq(15 - |b|, _ => 0)
  }

  /** Padding loses nothing: two partial blocks with the same padding are equal. */
  lemma PadInjective(a: seq<byte>, b: seq<byte>)
    requires |a| < 16 && |b| < 16
    requires Pad(a) == Pad(b)
    ensures a == b
  {
  }

  function XorWord32(x: bv32, y: bv32): bv32
  {
    x ^ y
  }

  /** The source's word-at-a-time exclusive or computes the byte-wise one. */
  lemma XorWord(d0: byte, d1: byte, d2: byte, d3: byte, s0: byte, s1: byte, s2: byte, s3: byte)
    ensures WordBytes(XorWord32(Word4(s0, s1, s2, s3), Word4(d0, d1, d2, d3)))
      == [XorByte(d0, s0), XorByte(d1, s1), XorByte(d2, s2), XorByte(d3, s3)]
  {
  }

  lemma AssembleXor(p0: seq<byte>, p1: seq<byte>, p2: seq<byte>, p3: seq<byte>, d: seq<byte>, s: seq<byte>)
    requires |d| == 16 && |s| == 16
    requires p0 == [XorByte(d[0], s[0]), XorByte(d[1], s[1]), XorByte(d[2], s[2]), XorByte(d[3], s[3])]
    requires p1 == [XorByte(d[4], s[4]), XorByte(d[5], s[5]), XorByte(d[6], s[6]), XorByte(d[7], s[7])]
    requires p2 == [XorByte(d[8], s[8]), XorByte(d[9], s[9]), XorByte(d[10], s[10]), XorByte(d[11], s[11])]
    requires p3 == [XorByte(d[12], s[12]), XorByte(d[13], s[13]), XorByte(d[14], s[14]), XorByte(d[15], s[15])]
    ensures p0 + p1 + p2 + p3 == XorBlock(d, s)
  {
  }

  /** The four words `xor` stores: together they are the byte-wise exclusive or. */
  function XorWords(d: seq<byte>, s: seq<byte>): (w: (bv32, bv32, bv32, bv32))
    requires |d| == 16 && |s| == 16
    ensures WordBytes(w.0) + WordBytes(w.1) + WordBytes(w.2) + WordBytes(w.3) == XorBlock(d, s)
  {
    XorWord(d[0], d[1], d[2], d[3], s[0], s[1], s[2], s[3]);
    XorWord(d[4], d[5], d[6], d[7], s[4], s[5], s[6], s[7]);
    XorWord(d[8], d[9], d[10], d[11], s[8], s[9], s[10], s[11]);
    XorWord(d[12], d[13], d[14], d[15], s[12], s[13], s[14], s[15]);
    var w := (XorWord32(WordAt(s, 0), WordAt(d, 0)), XorWord32(WordAt(s, 4), WordAt(d, 4)),
              XorWord32(WordAt(s, 8), WordAt(d, 8)), XorWord32(WordAt(s, 12), WordAt(d, 12)));
    AssembleXor(WordBytes(w.0), WordBytes(w.1), WordBytes(w.2), WordBytes(w.3), d, s);
    w
  }

  /** A word shifted left by one bit, taking in the top bit of the word after it. */
  function ShiftPair(x: bv32, y: bv32): bv32
  {
    (x << 1) | (y >> 31)
  }

  /** The last word shifted left by one bit, exclusive-or `r`. */
  function ShiftLast(x: bv32, r: bv32): bv32
  {
    (x << 1) ^ r
  }

  /** Word by word, the shift takes the top bit of each byte into the byte before it. */
  lemma ShiftWord(c0: byte, c1: byte, c2: byte, c3: byte, d0: byte, d1: byte, d2: byte, d3: byte)
    ensures WordBytes(ShiftPair(Word4(c0, c1, c2, c3), Word4(d0, d1, d2, d3)))
      == [Shl(c0, c1), Shl(c1, c2), Shl(c2, c3), Shl(c3, d0)]
  {
  }

  /** The last word takes in no bit, and `r` is xored into its last byte. */
  lemma ShiftLastWord(c0: byte, c1: byte, c2: byte, c3: byte, r: byte)
    ensures WordBytes(ShiftLast(Word4(c0, c1, c2, c3), r as bv32))
      == [Shl(c0, c1), Shl(c1, c2), Shl(c2, c3), XorByte(Shl(c3, 0), r)]
  {
  }

  /** The top bit of a word is the top bit of its first byte. */
  lemma WordCarry(c0: byte, c1: byte, c2: byte, c3: byte)
    ensures (Word4(c0, c1, c2, c3) >> 31 == 1) == TopBit(c0)
  {
  }

  lemma XorZero(a: byte)
    ensures XorByte(a, 0) == a
  {
  }

  lemma AssembleDouble(p0: seq<byte>, p1: seq<byte>, p2: seq<byte>, p3: seq<byte>, s: seq<byte>, rb: byte, r: byte)
    requires |s| == 16
    requires r == if TopBit(s[0]) then rb else 0
    requires p0 == [Shl(s[0], s[1]), Shl(s[1], s[2]), Shl(s[2], s[3]), Shl(s[3], s[4])]
    requires p1 == [Shl(s[4], s[5]), Shl(s[5], s[6]), Shl(s[6], s[7]), Shl(s[7], s[8])]
    requires p2 == [Shl(s[8], s[9]), Shl(s[9], s[10]), Shl(s[10], s[11]), Shl(s[11], s[12])]
    requires p3 == [Shl(s[12], s[13]), Shl(s[13], s[14]), Shl(s[14], s[15]), XorByte(Shl(s[15], 0), r)]
    ensures p0 + p1 + p2 + p3 == DoubleBlock(s, rb)
  {
    XorZero(Shl(s[15], 0));
  }

  /** The four words `double` stores: together they are the doubled block. */
  function DoubleWords(s: seq<byte>, rb: byte): (w: (bv32, bv32, bv32, bv32))
    requires |s| == 16
    ensures WordBytes(w.0) + WordBytes(w.1) + WordBytes(w.2) + WordBytes(w.3) == DoubleBlock(s, rb)
  {
    var s0, s1, s2, s3 := WordAt(s, 0), WordAt(s, 4), WordAt(s, 8), WordAt(s, 12);
    var carry := s0 >> 31;
    var r: byte := if carry == 1 then rb else 0;
    ShiftWord(s[0], s[1], s[2], s[3], s[4], s[5], s[6], s[7]);
    ShiftWord(s[4], s[5], s[6], s[7], s[8], s[9], s[10], s[11]);
    ShiftWord(s[8], s[9], s[10], s[11], s[12], s[13], s[14], s[15]);
    ShiftLastWord(s[12], s[13], s[14], s[15], r);
    WordCarry(s[0], s[1], s[2], s[3]);
    var w := (ShiftPair(s0, s1), ShiftPair(s1, s2), ShiftPair(s2, s3), ShiftLast(s3, r as bv32));
    AssembleDouble(WordBytes(w.0), WordBytes(w.1), WordBytes(w.2), WordBytes(w.3), s, rb, r);
    w
  }

  /** `binary.BigEndian.PutUint32(dst[off:off+4], x)`. */
  method PutWord(dst: array<byte>, off: nat, x: bv32)
    requires off + 4 <= dst.Length
    modifies dst
    ensures dst[..off] == old(dst[..off]) && dst[off..off + 4] == WordBytes(x)
    ensures dst[off + 4..] == old(dst[off + 4..])
  {
    dst[off] := (x >> 24) as byte;
    dst[off + 1] := ((x >> 16) & 0xff) as byte;
    dst[off + 2] := ((x >> 8) & 0xff) as byte;
    dst[off + 3] := (x & 0xff) as byte;
  }

  /** Stores four words at the start of `dst`, leaving the rest as it was. */
  method PutWords(dst: array<byte>, w: (bv32, bv32, bv32, bv32))
    requires 16 <= dst.Length
    modifies dst
    ensures dst[..] == WordBytes(w.0) + WordBytes(w.1) + WordBytes(w.2) + WordBytes(w.3) + old(dst[16..])
  {
    ghost var d := dst[..];
    PutWord(dst, 0, w.0);
    assert dst[..4] == WordBytes(w.0) && dst[4..] == d[4..];
    PutWord(dst, 4, w.1);
    assert dst[..8] == WordBytes(w.0) + WordBytes(w.1) && dst[8..] == d[8..];
    PutWord(dst, 8, w.2);
    assert dst[..12] == WordBytes(w.0) + WordBytes(w.1) + WordBytes(w.2) && dst[12..] == d[12..];
    PutWord(dst, 12, w.3);
    assert dst[..16] == WordBytes(w.0) + WordBytes(w.1) + WordBytes(w.2) + WordBytes(w.3) && dst[16..] == d[16..];
    assert dst[..] == dst[..16] + dst[16..];
  }

  /** `xor`: the first block of `dst` becomes its exclusive or with the first block of `src`. */
  method Xor(dst: array<byte>, src: seq<byte>)
    requires 16 <= dst.Length && 16 <= |src|
    modifies dst
    ensures dst[..] == XorBlock(old(dst[..16]), src[..16]) + old(dst[16..])
  {
    var w := XorWords(dst[..16], src[..16]);
    PutWords(dst, w);
  }

  /**
   * `double`: the first block of `dst` becomes the doubling of the first
   * block of `src`. All four words are read before any is written, so
   * `dst` and `src` may be the same array.
   */
  method Double(dst: array<byte>, src: array<byte>, rb: byte)
    requires 16 <= dst.Length && 16 <= src.Length
    modifies dst
    ensures dst[..] == DoubleBlock(old(src[..16]), rb) + old(dst[16..])
  {
    var w := DoubleWords(src[..16], rb);
    PutWords(dst, w);
  }

  /** `c.Encrypt(dst, dst)`: the block is replaced by its encryption. */
  method EncryptInPlace(aes: Cipher, key: seq<byte>, dst: array<byte>)
    requires dst.Length == 16
    modifies dst
    ensures dst[..] == aes(key, old(dst[..]))
  {
    var out := aes(key, dst[..]);
    forall i | 0 <= i < 16 {
      dst[i] := out[i];
    }
    assert dst[..] == out;
  }

  /** The two subkeys: K1 is the doubled encryption of the zero block, K2 the doubled K1. */
  function Subkeys(aes: Cipher, key: seq<byte>): (Block, Block)
  {
    var k1 := DoubleBlock(aes(key, ZERO_BLOCK), RB);
    (k1, DoubleBlock(k1, RB))
  }

  /**
   * The source's loop from chaining value `x` over the remaining message
   * `m`: every block but the last is mixed into the chain and encrypted;
   * the last is mixed in with K1 when it is complete and padded and mixed
   * in with K2 when it is not (the empty message has one empty last block).
   */
  function Chain(aes: Cipher, key: seq<byte>, x: Block, m: seq<byte>, k1: Block, k2: Block): Block
    decreases |m|
  {
    if |m| > 16 then Chain(aes, key, aes(key, XorBlock(x, m[..16])), m[16..], k1, k2)
    else if |m| == 16 then aes(key, XorBlock(XorBlock(x, m), k1))
    else aes(key, XorBlock(XorBlock(x, Pad(m)), k2))
  }

  /** The tag the source computes for message `m`. */
  function Mac(aes: Cipher, key: seq<byte>, m: seq<byte>): Block
  {
    var (k1, k2) := Subkeys(aes, key);
    Chain(aes, key, ZERO_BLOCK, m, k1, k2)
  }

  /**
   * `calcCMAC_AES`. The source panics when `aes.NewCipher` rejects the key,
   * which it does for every length but 16, 24 and 32 bytes.
   */
  method CalcCmacAes(aes: Cipher, payload: seq<byte>, key: seq<byte>) returns (mac: seq<byte>)
    requires |key| == 16 || |key| == 24 || |key| == 32
    ensures mac == Mac(aes, key, payload)
    ensures mac == Rfc4493Mac(aes, key, payload)
  {
    var k1 := new byte[16](_ => 0);
    var k2 := new byte[16](_ => 0);
    assert k1[..] == ZERO_BLOCK;
    EncryptInPlace(aes, key, k1);
    ghost var l: Block := k1[..];
    assert l == aes(key, ZERO_BLOCK) && l[..16] == l;
    Double(k1, k1, RB);
    ghost var d1: Block := k1[..];
    assert d1 == DoubleBlock(l, RB) && d1[..16] == d1;
    Double(k2, k1, RB);
    assert k2[..] == DoubleBlock(d1, RB);
    ghost var keys := Subkeys(aes, key);
    assert k1[..] == keys.0 && k2[..] == keys.1;

    var cmac := new byte[16](_ => 0);
    var p := payload;
    assert cmac[..] == ZERO_BLOCK;
    while |p| > 16
      invariant k1[..] == keys.0 && k2[..] == keys.1
      invariant Chain(aes, key, cmac[..], p, keys.0, keys.1) == Mac(aes, key, payload)
      decreases |p|
    {
      ghost var x: Block := cmac[..];
      Xor(cmac, p[..16]);
      assert cmac[..] == XorBlock(x, p[..16]);
      EncryptInPlace(aes, key, cmac);
      p := p[16..];
    }

    ghost var x: Block := cmac[..];
    if |p| == 16 {
      Xor(cmac, p);
      assert cmac[..] == XorBlock(x, p);
      Xor(cmac, k1[..]);
      assert cmac[..] == XorBlock(XorBlock(x, p), keys.0);
    } else {
      Xor(cmac, Pad(p));
      assert cmac[..] == XorBlock(x, Pad(p));
      Xor(cmac, k2[..]);
      assert cmac[..] == XorBlock(XorBlock(x, Pad(p)), keys.1);
    }
    EncryptInPlace(aes, key, cmac);
    mac := cmac[..];
    MacIsRfc4493(aes, key, payload);
  }

  // ---------------------------------------------------------------------
  // Doubling as arithmetic on the block read as a 128-bit integer.
  // ---------------------------------------------------------------------

  function Pow256(n: nat): (p: nat)
    ensures p >= 1
  {
    if n == 0 then 1 else 256 * Pow256(n - 1)
  }

  const TWO_128: nat := 0x1_0000_0000_0000_0000_0000_0000_0000_0000

  /** The value of a byte string read big-endian. */
  function BlockValue(b: seq<byte>): nat
  {
    if b == [] then 0 else b[0] as int * Pow256(|b| - 1) + BlockValue(b[1..])
  }

  lemma {:induction false} BlockValueBound(b: seq<byte>)
    ensures BlockValue(b) < Pow256(|b|)
  {
    if b != [] {
      BlockValueBound(b[1..]);
      MulLeft(b[0] as int, 255, Pow256(|b| - 1));
    }
  }

  /** The string shifted left by one bit, the top bit dropped. */
  function Shifted(b: seq<byte>): (r: seq<byte>)
    ensures |r| == |b|
  {
    seq(|b|, i requires 0 <= i < |b| => ShiftedByte(b, i))
  }

  lemma ShiftedTail(b: seq<byte>)
    requires b != []
    ensures Shifted(b) == [ShiftedByte(b, 0)] + Shifted(b[1..])
  {
    forall i | 1 <= i < |b|
      ensures Shifted(b)[i] == Shifted(b[1..])[i - 1]
    {
      assert ShiftedByte(b, i) == ShiftedByte(b[1..], i - 1);
    }
  }

  /** The carry bit of a string: its top bit, 0 for the empty string. */
  function Carry(t: seq<byte>): int
  {
    if t != [] && TopBit(t[0]) then 1 else 0
  }

  lemma ShlValue(a: byte, c: byte)
    ensures Shl(a, c) as int == (2 * a as int) % 256 + (if TopBit(c) then 1 else 0)
  {
  }

  lemma TopBitValue(a: byte)
    ensures TopBit(a) <==> a as int >= 128
  {
  }

  /** With a top byte `a` over a remainder `r` below `q`, twice the value splits at `256 * q`. */
  lemma TwiceArith(a: int, q: int, r: int)
    requires 0 <= a < 256 && q >= 1 && 0 <= r < q
    ensures var c := if a >= 128 then 1 else 0;
      2 * (a * q + r) == c * (256 * q) + (((2 * a) % 256) * q + 2 * r)
    ensures 0 <= ((2 * a) % 256) * q + 2 * r < 256 * q
  {
    var c := if a >= 128 then 1 else 0;
    var h := (2 * a) % 256;
    assert 2 * a == 256 * c + h;
    assert 2 * (a * q + r) == (2 * a) * q + 2 * r;
    assert (2 * a) * q == c * (256 * q) + h * q;
    MulLeft(h, 254, q);
  }

  /** The value of the shifted string from the shifted first byte and the shifted rest. */
  lemma ShiftArith(a: int, c: int, q: int, v: int, m: int)
    requires 0 <= a < 256 && (c == 0 || c == 1) && q >= 1 && 0 <= m < q && 2 * v == c * q + m
    ensures ((2 * a) % 256 + c) * q + m == (2 * (a * q + v)) % (256 * q)
  {
    var top := if a >= 128 then 1 else 0;
    var h := (2 * a) % 256 + c;
    assert 2 * a + c == 256 * top + h;
    assert 2 * (a * q + v) == (2 * a + c) * q + m;
    assert (2 * a + c) * q == top * (256 * q) + h * q;
    MulLeft(h, 255, q);
    DivUnique(2 * (a * q + v), 256 * q, top, h * q + m);
  }

  /** Twice a string's value, less its carry times the next power, is what remains of it modulo that power. */
  lemma TwiceValue(t: seq<byte>)
    ensures (2 * BlockValue(t)) % Pow256(|t|) == 2 * BlockValue(t) - Carry(t) * Pow256(|t|)
  {
    if t != [] {
      var q := Pow256(|t| - 1);
      var a := t[0] as int;
      var r := BlockValue(t[1..]);
      BlockValueBound(t[1..]);
      TopBitValue(t[0]);
      TwiceArith(a, q, r);
      assert Pow256(|t|) == 256 * q;
      DivUnique(2 * BlockValue(t), 256 * q, Carry(t), ((2 * a) % 256) * q + 2 * r);
    }
  }

  /** Shifting left by one bit doubles the value, modulo the string's range. */
  lemma {:induction false} ShiftedValue(b: seq<byte>)
    ensures BlockValue(Shifted(b)) == (2 * BlockValue(b)) % Pow256(|b|)
  {
    if b != [] {
      var t := b[1..];
      var q := Pow256(|t|);
      ShiftedTail(b);
      ShiftedValue(t);
      TwiceValue(t);
      BlockValueBound(t);
      ShlValue(b[0], if 1 < |b| then b[1] else 0);
      assert Shifted(b)[0] as int == (2 * b[0] as int) % 256 + Carry(t);
      assert BlockValue(Shifted(b)) == Shifted(b)[0] as int * q + BlockValue(Shifted(t));
      ShiftArith(b[0] as int, Carry(t), q, BlockValue(t), (2 * BlockValue(t)) % q);
      assert Pow256(|b|) == 256 * q;
    }
  }

  lemma Pow256Of16()
    ensures Pow256(15) == TWO_128 / 256 && Pow256(16) == TWO_128
  {
    assert Pow256(4) == 0x1_0000_0000;
    assert Pow256(8) == 0x1_0000_0000_0000_0000;
    assert Pow256(12) == 0x1_0000_0000_0000_0000_0000_0000;
    assert Pow256(15) == 0x1_0000_0000_0000_0000_0000_0000_0000_00;
  }

  /** A block's top bit is set exactly when its value is at least 2^127. */
  lemma TopBitOfBlock(b: Block)
    ensures TopBit(b[0]) <==> BlockValue(b) >= TWO_128 / 2
  {
    var q := Pow256(15);
    Pow256Of16();
    BlockValueBound(b[1..]);
    TopBitValue(b[0]);
    if b[0] as int >= 128 {
      MulLeft(128, b[0] as int, q);
    } else {
      MulLeft(b[0] as int, 127, q);
    }
  }

  /**
   * The doubling of section 2.3 of RFC 4493 on integers: without `rb` it
   * is the block's value times two modulo 2^128, and `rb` is xored into
   * the last byte exactly when the value is at least 2^127.
   */
  lemma DoubleIsShift(b: Block, rb: byte)
    ensures BlockValue(DoubleBlock(b, 0)) == (2 * BlockValue(b)) % TWO_128
    ensures DoubleBlock(b, rb)
      == DoubleBlock(b, 0)[..15] + [XorByte(DoubleBlock(b, 0)[15], if BlockValue(b) >= TWO_128 / 2 then rb else 0)]
  {
    XorZero(ShiftedByte(b, 15));
    assert DoubleBlock(b, 0) == Shifted(b);
    ShiftedValue(b);
    Pow256Of16();
    TopBitOfBlock(b);
    if !TopBit(b[0]) {
      XorZero(DoubleBlock(b, 0)[15]);
    }
  }

  // ---------------------------------------------------------------------
  // The algorithm as section 2.4 of RFC 4493 writes it, for comparison.
  // ---------------------------------------------------------------------

  /**
   * The number of blocks n: the message length in blocks, rounded up, and
   * at least one. A non-empty message fits in n blocks but not in n - 1.
   */
  function BlockCount(m: seq<byte>): (n: nat)
    ensures n >= 1 && 16 * (n - 1) <= |m| <= 16 * n
    ensures |m| > 0 ==> 16 * (n - 1) < |m|
  {
    if |m| == 0 then 1 else (|m| + 15) / 16
  }

  /** Whether the last block is complete (the flag of the RFC). */
  predicate Complete(m: seq<byte>)
  {
    |m| > 0 && |m| % 16 == 0
  }

  /** M_last: the last block, mixed with K1 when complete and padded and mixed with K2 otherwise. */
  function LastBlock(m: seq<byte>, k1: Block, k2: Block): Block
  {
    var last := m[16 * (BlockCount(m) - 1)..];
    if Complete(m) then XorBlock(last, k1) else XorBlock(Pad(last), k2)
  }

  /** CBC-MAC of the first `n` blocks of `m`, starting from chaining value `x`. */
  function CbcMac(aes: Cipher, key: seq<byte>, x: Block, m: seq<byte>, n: nat): Block
    requires 16 * n <= |m|
    decreases n
  {
    if n == 0 then x else CbcMac(aes, key, aes(key, XorBlock(x, m[..16])), m[16..], n - 1)
  }

  /** AES-CMAC of section 2.4 of RFC 4493, with the subkeys of section 2.3. */
  function Rfc4493Mac(aes: Cipher, key: seq<byte>, m: seq<byte>): Block
  {
    var (k1, k2) := Subkeys(aes, key);
    var x := CbcMac(aes, key, ZERO_BLOCK, m, BlockCount(m) - 1);
    aes(key, XorBlock(LastBlock(m, k1, k2), x))
  }

  /** Mixing the chain and the last block in either order gives the same block. */
  lemma XorSwap(x: Block, b: Block, k: Block)
    ensures XorBlock(XorBlock(x, b), k) == XorBlock(XorBlock(b, k), x)
  {
    forall i | 0 <= i < 16
      ensures XorBlock(XorBlock(x, b), k)[i] == XorBlock(XorBlock(b, k), x)[i]
    {
      assert XorByte(XorByte(x[i], b[i]), k[i]) == XorByte(XorByte(b[i], k[i]), x[i]);
    }
  }

  /** From any chaining value, the source's loop is the RFC's CBC-MAC followed by the last block. */
  lemma {:induction false} ChainIsRfc4493(aes: Cipher, key: seq<byte>, x: Block, m: seq<byte>, k1: Block, k2: Block)
    ensures Chain(aes, key, x, m, k1, k2)
      == aes(key, XorBlock(LastBlock(m, k1, k2), CbcMac(aes, key, x, m, BlockCount(m) - 1)))
    decreases |m|
  {
    var n := BlockCount(m);
    if |m| > 16 {
      var y := aes(key, XorBlock(x, m[..16]));
      var t := m[16..];
      ChainIsRfc4493(aes, key, y, t, k1, k2);
      assert BlockCount(t) == n - 1;
      assert Complete(t) == Complete(m);
      assert t[16 * (BlockCount(t) - 1)..] == m[16 * (n - 1)..];
      assert LastBlock(t, k1, k2) == LastBlock(m, k1, k2);
      assert CbcMac(aes, key, x, m, n - 1) == CbcMac(aes, key, y, t, n - 2);
    } else if |m| == 16 {
      assert n == 1 && Complete(m) && m[16 * (n - 1)..] == m;
      XorSwap(x, m, k1);
    } else {
      assert n == 1 && !Complete(m) && m[16 * (n - 1)..] == m;
      XorSwap(x, Pad(m), k2);
    }
  }

  /** The tag the source computes is the AES-CMAC of RFC 4493. */
  lemma MacIsRfc4493(aes: Cipher, key: seq<byte>, m: seq<byte>)
    ensures Mac(aes, key, m) == Rfc4493Mac(aes, key, m)
  {
    var (k1, k2) := Subkeys(aes, key);
    ChainIsRfc4493(aes, key, ZERO_BLOCK, m, k1, k2);
  }
}
