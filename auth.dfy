/**
 * Symmetric-key authentication of NTP messages: the table of algorithms,
 * the decoding of the configured key, and the MAC trailer (a 4-byte key
 * identifier and a digest, the MAC field of section 7.3 of RFC 5905) that
 * the client appends to a request and checks on a response.
 *
 * The hash functions and the AES block cipher are parameters, gathered in
 * `Crypto`; only the length of what they return is known.
 */
module Auth {
  import opened Wire
  import opened Wrappers
  import Hex
  import Cmac

  /** `AuthType`: the algorithm that computes the digest. */
  datatype AuthType = AuthNone | AuthMD5 | AuthSHA1 | AuthSHA256 | AuthSHA512 | AuthAES128

  /** `AuthOptions`: the key is the bytes of the configured key string. */
  datatype AuthOptions = AuthOptions(authType: AuthType, key: seq<byte>, keyId: uint16)

  /** The two authentication errors of the package. */
  datatype AuthError = ErrInvalidAuthKey | ErrAuthFailed

  /** One row of the `algorithms` table (its digest function is `CalcDigest`). */
  datatype Algorithm = Algorithm(minKeySize: nat, maxKeySize: nat, digestSize: nat)

  /**
   * `algorithms[t]`. In every row the minimum key size is at most the
   * maximum, so a key cut to the maximum still meets the minimum; keys
   * are at most 32 bytes; and only `AuthNone` has no digest.
   */
  function AlgorithmOf(t: AuthType): (a: Algorithm)
    ensures a.minKeySize <= a.maxKeySize <= 32
    ensures a.digestSize == 0 <==> t == AuthNone
    ensures t != AuthNone ==> 4 <= a.minKeySize && (a.digestSize == 16 || a.digestSize == 20)
  {
    match t
    case AuthNone => Algorithm(0, 0, 0)
    case AuthMD5 => Algorithm(4, 32, 16)
    case AuthSHA1 => Algorithm(4, 32, 20)
    case AuthSHA256 => Algorithm(4, 32, 20)
    case AuthSHA512 => Algorithm(4, 32, 20)
    case AuthAES128 => Algorithm(16, 16, 16)
  }

  const ZEROS64: seq<byte> := seq(64, _ => 0)

  type Digest16 = s: seq<byte> | |s| == 16 witness ZEROS64[..16]
  type Digest20 = s: seq<byte> | |s| == 20 witness ZEROS64[..20]
  type Digest32 = s: seq<byte> | |s| == 32 witness ZEROS64[..32]
  type Digest64 = s: seq<byte> | |s| == 64 witness ZEROS64

  /** The library primitives: `md5.Sum`, `sha1.Sum`, `sha256.Sum256`, `sha512.Sum512` and AES. */
  datatype Crypto = Crypto(
    md5: seq<byte> -> Digest16,
    sha1: seq<byte> -> Digest20,
    sha256: seq<byte> -> Digest32,
    sha512: seq<byte> -> Digest64,
    aes: Cmac.Cipher)

  /** What `aes.NewCipher` accepts; with any other key the source panics. */
  predicate KeyFits(t: AuthType, key: seq<byte>)
  {
    t == AuthAES128 ==> |key| == 16 || |key| == 24 || |key| == 32
  }

  /**
   * `algorithms[t].CalcDigest(payload, key)`: the hashes digest the key
   * followed by the payload (the two SHA-2 digests cut to 20 bytes), and
   * AES128 is the CMAC of the payload. `AuthNone` has no digest function.
   */
  function CalcDigest(c: Crypto, t: AuthType, payload: seq<byte>, key: seq<byte>): (d: seq<byte>)
    requires t != AuthNone && KeyFits(t, key)
    ensures |d| == AlgorithmOf(t).digestSize
  {
    match t
    case AuthMD5 => c.md5(key + payload)
    case AuthSHA1 => c.sha1(key + payload)
    case AuthSHA256 => c.sha256(key + payload)[..20]
    case AuthSHA512 => c.sha512(key + payload)[..20]
    case AuthAES128 => Cmac.Mac(c.aes, key, payload)
  }

  /**
   * The key bytes before the size checks: a key of at most 20 characters
   * is taken as it is, a longer one is hex-decoded into half as many bytes.
   */
  function KeyBytes(key: seq<byte>): (r: Option<seq<byte>>)
    ensures |key| <= 20 ==> r == Some(key)
    ensures |key| > 20 && r.Some? ==> 2 * |r.value| == |key|
  {
    if |key| > 20 then Hex.HexDecode(key) else Some(key)
  }

  function Min(a: int, b: int): int
  {
    if a < b then a else b
  }

  /** `decodeAuthKey`: an accepted key lies between the algorithm's sizes; every failure is `ErrInvalidAuthKey`. */
  function DecodeAuthKey(opt: AuthOptions): (r: Result<seq<byte>, AuthError>)
    ensures r.Ok? ==> AlgorithmOf(opt.authType).minKeySize <= |r.value| <= AlgorithmOf(opt.authType).maxKeySize
    ensures r.Err? ==> r.error == ErrInvalidAuthKey
  {
    match KeyBytes(opt.key)
    case None => Err(ErrInvalidAuthKey)
    case Some(key) =>
      var a := AlgorithmOf(opt.authType);
      if |key| < a.minKeySize then Err(ErrInvalidAuthKey)
      else if |key| > a.maxKeySize then Ok(key[..a.maxKeySize])
      else Ok(key)
  }

  /**
   * A key is accepted exactly when it decodes and is at least the minimum
   * size, and the accepted key is the decoded key cut to the maximum size.
   */
  lemma DecodeAuthKeyResult(opt: AuthOptions)
    ensures var r := DecodeAuthKey(opt);
      r.Ok? <==> KeyBytes(opt.key).Some? && |KeyBytes(opt.key).value| >= AlgorithmOf(opt.authType).minKeySize
    ensures var r := DecodeAuthKey(opt); var a := AlgorithmOf(opt.authType);
      r.Ok? ==> (|r.value| == Min(|KeyBytes(opt.key).value|, a.maxKeySize)
                 && r.value == KeyBytes(opt.key).value[..|r.value|])
  {
  }

  /** A key string longer than 20 characters that has odd length or a non-hex character is rejected. */
  lemma DecodeAuthKeyRejectsBadHex(opt: AuthOptions)
    requires |opt.key| > 20
    requires |opt.key| % 2 == 1 || !Hex.AllHex(opt.key)
    ensures DecodeAuthKey(opt) == Err(ErrInvalidAuthKey)
  {
    Hex.HexDecodeSucceeds(opt.key);
  }

  /** A long key string of hex digits is decoded into half as many bytes. */
  lemma DecodeAuthKeyHex(opt: AuthOptions)
    requires |opt.key| > 20 && |opt.key| % 2 == 0 && Hex.AllHex(opt.key)
    ensures KeyBytes(opt.key).Some? && 2 * |KeyBytes(opt.key).value| == |opt.key|
  {
    Hex.HexDecodeSucceeds(opt.key);
  }

  /** An empty key is rejected by every algorithm but `AuthNone`, whose minimum size is 0. */
  lemma DecodeAuthKeyRejectsEmpty(opt: AuthOptions)
    requires opt.key == [] && opt.authType != AuthNone
    ensures DecodeAuthKey(opt) == Err(ErrInvalidAuthKey)
  {
  }

  /** A 40-digit hex AES key decodes to 20 bytes and is accepted cut to its first 16. */
  lemma DecodeAuthKeyAesTruncates(opt: AuthOptions)
    requires opt.authType == AuthAES128 && |opt.key| == 40 && Hex.AllHex(opt.key)
    ensures DecodeAuthKey(opt).Ok?
    ensures DecodeAuthKey(opt).value == Hex.HexDecode(opt.key).value[..16]
  {
    Hex.HexDecodeSucceeds(opt.key);
  }

  /** Every key `decodeAuthKey` accepts is one the digest can be computed with. */
  lemma DecodedKeyFits(opt: AuthOptions)
    requires DecodeAuthKey(opt).Ok?
    ensures KeyFits(opt.authType, DecodeAuthKey(opt).value)
  {
  }

  /** The MAC trailer: the big-endian key identifier, then the digest of the payload. */
  function MacTrailer(c: Crypto, opt: AuthOptions, key: seq<byte>, payload: seq<byte>): (t: seq<byte>)
    requires opt.authType != AuthNone && KeyFits(opt.authType, key)
    ensures |t| == 4 + AlgorithmOf(opt.authType).digestSize
  {
    Uint32Bytes(opt.keyId as uint32) + CalcDigest(c, opt.authType, payload, key)
  }

  /** The key identifier is 16 bits wide, so the first two bytes of its 32-bit field are zero. */
  lemma KeyIdBytes(k: uint16)
    ensures Uint32Bytes(k as uint32)[0] == 0 && Uint32Bytes(k as uint32)[1] == 0
  {
    var n := k as int;
    assert n / 0x100_0000 == 0 && n / 0x1_0000 % 0x100 == 0;
  }

  /** A `bytes.Buffer`, appended to in place. */
  class Buffer {
    var bytes: seq<byte>

    constructor (b: seq<byte>)
      ensures bytes == b
    {
      bytes := b;
    }

    /** `Write` (and `binary.Write` of a value): the data goes after what is there. */
    method Write(data: seq<byte>)
      modifies this
      ensures bytes == old(bytes) + data
    {
      bytes := bytes + data;
    }
  }

  /**
   * `appendMAC`: the digest of the whole buffer is computed first, then the
   * key identifier and the digest are written after it. The source calls the
   * table's digest function, which `AuthNone` does not have.
   */
  method AppendMAC(buf: Buffer, c: Crypto, opt: AuthOptions, key: seq<byte>)
    requires opt.authType != AuthNone && KeyFits(opt.authType, key)
    modifies buf
    ensures buf.bytes == old(buf.bytes) + MacTrailer(c, opt, key, old(buf.bytes))
  {
    var payload := buf.bytes;
    var digest := CalcDigest(c, opt.authType, payload, key);
    buf.Write(Uint32Bytes(opt.keyId as uint32));
    buf.Write(digest);
  }

  /** Whether the bytes after the header have room for a MAC and come in whole 4-byte words. */
  predicate MacRoom(t: AuthType, n: int)
  {
    var remain := n - HEADER_SIZE;
    remain >= 4 + AlgorithmOf(t).digestSize && remain % 4 == 0
  }

  /** The length of the trailer: the key identifier and the digest. */
  function MacLen(t: AuthType): (n: nat)
    ensures n >= 4
  {
    4 + AlgorithmOf(t).digestSize
  }

  /**
   * Whether `verifyMAC` gets as far as computing a digest: there is room
   * for a trailer and the trailer carries the expected key identifier.
   */
  predicate ReachesDigest(buf: seq<byte>, opt: AuthOptions)
  {
    MacRoom(opt.authType, |buf|) && Uint32Of(buf[|buf| - MacLen(opt.authType)..]) == opt.keyId as uint32
  }

  /**
   * `verifyMAC`, reading `buf[:payloadLen]` as a payload of its own:
   * `None` (Go's nil) when the trailer is the right size and carries the
   * expected key identifier and the digest of the bytes before it,
   * `Some(ErrAuthFailed)` otherwise. The length and key identifier checks
   * come first; the digest function, which `AuthNone` lacks and which
   * panics on an AES key of the wrong size, is reached only after them.
   */
  function VerifyMAC(c: Crypto, buf: seq<byte>, opt: AuthOptions, key: seq<byte>): (r: Option<AuthError>)
    requires ReachesDigest(buf, opt) ==> opt.authType != AuthNone && KeyFits(opt.authType, key)
    ensures r.Some? ==> r.value == ErrAuthFailed
    ensures r.None? ==> ReachesDigest(buf, opt)
  {
    var macLen := MacLen(opt.authType);
    var remain := |buf| - HEADER_SIZE;
    if remain < macLen || remain % 4 != 0 then Some(ErrAuthFailed)
    else
      var payloadLen := |buf| - macLen;
      var mac := buf[payloadLen..];
      if Uint32Of(mac[..4]) != opt.keyId as uint32 then Some(ErrAuthFailed)
      else if CalcDigest(c, opt.authType, buf[..payloadLen], key) != mac[4..] then Some(ErrAuthFailed)
      else None
  }

  /** Too few bytes after the header, or a count that is not a multiple of four, fails for every algorithm. */
  lemma VerifyMACNeedsRoom(c: Crypto, buf: seq<byte>, opt: AuthOptions, key: seq<byte>)
    requires !MacRoom(opt.authType, |buf|)
    ensures VerifyMAC(c, buf, opt, key) == Some(ErrAuthFailed)
  {
  }

  /**
   * A message passes exactly when it has room for a MAC and ends with the
   * trailer `appendMAC` would write for the bytes before it.
   */
  lemma VerifyMACPasses(c: Crypto, buf: seq<byte>, opt: AuthOptions, key: seq<byte>)
    requires opt.authType != AuthNone && KeyFits(opt.authType, key)
    ensures VerifyMAC(c, buf, opt, key).None? <==>
      MacRoom(opt.authType, |buf|)
      && var p := buf[..|buf| - (4 + AlgorithmOf(opt.authType).digestSize)];
         buf == p + MacTrailer(c, opt, key, p)
  {
    var macLen := MacLen(opt.authType);
    if MacRoom(opt.authType, |buf|) {
      var p := buf[..|buf| - macLen];
      var mac := buf[|buf| - macLen..];
      var id := Uint32Bytes(opt.keyId as uint32);
      var d := CalcDigest(c, opt.authType, p, key);
      assert buf == p + mac;
      Uint32RoundTrip(opt.keyId as uint32);
      assert mac == mac[..4] + mac[4..];
      if buf == p + MacTrailer(c, opt, key, p) {
        assert mac == id + d;
        assert mac[..4] == id && mac[4..] == d;
      }
      if VerifyMAC(c, buf, opt, key).None? {
        assert mac[..4] == id && mac[4..] == d;
        assert mac == id + d;
      }
    }
  }

  /**
   * A request whose bytes after the header are whole words, once
   * `appendMAC` has added its trailer, passes `verifyMAC` with the same
   * options and key, when the payload is read as bytes of its own (for
   * the source as written, see `AppendThenVerifyInPlace`).
   */
  lemma AppendThenVerify(c: Crypto, payload: seq<byte>, opt: AuthOptions, key: seq<byte>)
    requires opt.authType != AuthNone && KeyFits(opt.authType, key)
    requires |payload| >= HEADER_SIZE && (|payload| - HEADER_SIZE) % 4 == 0
    ensures VerifyMAC(c, payload + MacTrailer(c, opt, key, payload), opt, key) == None
  {
    TrailerParts(c, payload, opt, key);
  }

  /** The parts `verifyMAC` cuts from a message `appendMAC` has completed. */
  lemma TrailerParts(c: Crypto, payload: seq<byte>, opt: AuthOptions, key: seq<byte>)
    requires opt.authType != AuthNone && KeyFits(opt.authType, key)
    ensures var buf := payload + MacTrailer(c, opt, key, payload);
      && |buf| - MacLen(opt.authType) == |payload|
      && buf[..|payload|] == payload
      && buf[|payload|..] == Uint32Bytes(opt.keyId as uint32) + CalcDigest(c, opt.authType, payload, key)
      && Uint32Of(buf[|payload|..]) == opt.keyId as uint32
  {
    var buf := payload + MacTrailer(c, opt, key, payload);
    assert buf[..|payload|] == payload;
    assert buf[|payload|..] == MacTrailer(c, opt, key, payload);
    Uint32RoundTrip(opt.keyId as uint32);
    assert buf[|payload|..][..4] == Uint32Bytes(opt.keyId as uint32);
  }

  /** The same trailer checked against a different key identifier fails. */
  lemma VerifyMACOtherKeyId(c: Crypto, payload: seq<byte>, opt: AuthOptions, key: seq<byte>, id: uint16)
    requires opt.authType != AuthNone && KeyFits(opt.authType, key)
    requires id != opt.keyId
    ensures VerifyMAC(c, payload + MacTrailer(c, opt, key, payload), opt.(keyId := id), key) == Some(ErrAuthFailed)
  {
    var buf := payload + MacTrailer(c, opt, key, payload);
    var macLen := 4 + AlgorithmOf(opt.authType).digestSize;
    if MacRoom(opt.authType, |buf|) {
      var mac := buf[|buf| - macLen..];
      assert mac[..4] == Uint32Bytes(opt.keyId as uint32);
      Uint32RoundTrip(opt.keyId as uint32);
    }
  }

  // ---------------------------------------------------------------------
  // `verifyMAC` as written: `pad` appends into the received trailer.
  // ---------------------------------------------------------------------

  /**
   * The bytes `pad` writes just past `payload` when the payload is a
   * slice with room after it. `verifyMAC` digests `buf[:payloadLen]`,
   * whose spare capacity is the received trailer; `calcCMAC_AES` walks
   * the payload by reslicing, and `pad` extends a short last block with
   * `append`, which writes the 0x80 byte and the zeros into that spare
   * capacity in place. Only AES128 pads, and only a short last block.
   */
  function PadSpill(t: AuthType, payload: seq<byte>): (w: seq<byte>)
    ensures |w| <= 16
    ensures w != [] <==> t == AuthAES128 && !Cmac.Complete(payload)
    ensures w != [] ==> t == AuthAES128 && |w| == 16 - |payload| % 16
    ensures w != [] ==> w[0] == 0x80 && forall i | 1 <= i < |w| :: w[i] == 0
  {
    if t == AuthAES128 && !Cmac.Complete(payload) then
      var last := payload[16 * (Cmac.BlockCount(payload) - 1)..];
      Cmac.Pad(last)[|last|..]
    else []
  }

  /**
   * `verifyMAC` as the source runs it: the digest is computed as before,
   * but by the time it is compared the first bytes of the received
   * trailer have been overwritten by `PadSpill`.
   */
  function VerifyMACInPlace(c: Crypto, buf: seq<byte>, opt: AuthOptions, key: seq<byte>): (r: Option<AuthError>)
    requires ReachesDigest(buf, opt) ==> opt.authType != AuthNone && KeyFits(opt.authType, key)
    ensures r.Some? ==> r.value == ErrAuthFailed
    ensures r.None? ==> ReachesDigest(buf, opt)
  {
    var macLen := MacLen(opt.authType);
    var remain := |buf| - HEADER_SIZE;
    if remain < macLen || remain % 4 != 0 then Some(ErrAuthFailed)
    else
      var payloadLen := |buf| - macLen;
      var mac := buf[payloadLen..];
      if Uint32Of(mac[..4]) != opt.keyId as uint32 then Some(ErrAuthFailed)
      else
        var digest := CalcDigest(c, opt.authType, buf[..payloadLen], key);
        var spill := PadSpill(opt.authType, buf[..payloadLen]);
        var seen := spill + mac[|spill|..];
        if digest != seen[4..] then Some(ErrAuthFailed) else None
  }

  /**
   * A trailer `id + d` whose first bytes are overwritten by `spill` (a
   * 0x80 byte and zeros) still shows `d` after the key identifier exactly
   * when `d` begins with as many zeros as the spill reaches into it.
   */
  lemma SpillOverDigest(spill: seq<byte>, id: seq<byte>, d: seq<byte>)
    requires |id| == 4 && |spill| <= 4 + |d|
    requires forall i | 1 <= i < |spill| :: spill[i] == 0
    ensures (spill + (id + d)[|spill|..])[4..] == d <==> forall i | 0 <= i < |spill| - 4 :: d[i] == 0
  {
    var seen := spill + (id + d)[|spill|..];
    var z := |spill| - 4;
    if z > 0 {
      assert seen[4..] == spill[4..] + d[z..];
      assert d == d[..z] + d[z..];
      if forall i | 0 <= i < z :: d[i] == 0 {
        assert d[..z] == spill[4..];
      }
      if seen[4..] == d {
        assert forall i | 0 <= i < z :: d[i] == seen[4..][i] == spill[4 + i];
      }
    } else {
      assert seen[4..] == d;
    }
  }

  /**
   * A request's own trailer passes `verifyMAC` as written exactly when
   * the digest begins with as many zero bytes as the padding overwrote
   * past the key identifier: 8 for an AES128 payload whose last block
   * holds 4 bytes, 4 when it holds 8, none otherwise.
   */
  lemma AppendThenVerifyInPlace(c: Crypto, payload: seq<byte>, opt: AuthOptions, key: seq<byte>)
    requires opt.authType != AuthNone && KeyFits(opt.authType, key)
    requires |payload| >= HEADER_SIZE && (|payload| - HEADER_SIZE) % 4 == 0
    ensures VerifyMACInPlace(c, payload + MacTrailer(c, opt, key, payload), opt, key).None?
      <==> forall i | 0 <= i < |PadSpill(opt.authType, payload)| - 4 :: CalcDigest(c, opt.authType, payload, key)[i] == 0
  {
    var id := Uint32Bytes(opt.keyId as uint32);
    var d := CalcDigest(c, opt.authType, payload, key);
    var buf := payload + MacTrailer(c, opt, key, payload);
    TrailerParts(c, payload, opt, key);
    InPlaceVerdict(c, buf, opt, key);
    SpillOverDigest(PadSpill(opt.authType, payload), id, d);
  }

  /** Past the length and key identifier checks, the verdict as written is the compare with the overwritten trailer. */
  lemma InPlaceVerdict(c: Crypto, buf: seq<byte>, opt: AuthOptions, key: seq<byte>)
    requires opt.authType != AuthNone && KeyFits(opt.authType, key)
    requires ReachesDigest(buf, opt)
    ensures var n := |buf| - MacLen(opt.authType); var spill := PadSpill(opt.authType, buf[..n]);
      (VerifyMACInPlace(c, buf, opt, key).None?
       <==> CalcDigest(c, opt.authType, buf[..n], key) == (spill + buf[n..][|spill|..])[4..])
  {
  }

  /**
   * As written, a request's own trailer passes for every algorithm but
   * AES128, and for AES128 when the payload's last block does not hold
   * 4 or 8 bytes (a bare 48-byte header, for one).
   */
  lemma AppendThenVerifyInPlacePasses(c: Crypto, payload: seq<byte>, opt: AuthOptions, key: seq<byte>)
    requires opt.authType != AuthNone && KeyFits(opt.authType, key)
    requires |payload| >= HEADER_SIZE && (|payload| - HEADER_SIZE) % 4 == 0
    requires opt.authType == AuthAES128 ==> |payload| % 16 != 4 && |payload| % 16 != 8
    ensures VerifyMACInPlace(c, payload + MacTrailer(c, opt, key, payload), opt, key) == None
  {
    AppendThenVerifyInPlace(c, payload, opt, key);
    assert |payload| % 4 == 0;
    assert |PadSpill(opt.authType, payload)| <= 4;
  }

  /** A cipher that maps every block to sixteen bytes of 1. */
  const ONES: Cmac.Block := [1, 1, 1, 1, 1, 1, 1, 1, 1, 1, 1, 1, 1, 1, 1, 1]

  const CONSTANT_CRYPTO: Crypto := Crypto(_ => ZEROS64[..16], _ => ZEROS64[..20], _ => ZEROS64[..32], _ => ZEROS64, (_, _) => ONES)

  /**
   * A 52-byte AES128 request, whose last block holds 4 bytes, with its own
   * trailer: it passes `verifyMAC` read on its own bytes, and fails as
   * written because its digest does not start with eight zero bytes.
   */
  lemma InPlaceRejectsOwnTrailer()
    ensures var p := seq(52, _ => 0); var opt := AuthOptions(AuthAES128, ZEROS64[..16], 1);
      && VerifyMAC(CONSTANT_CRYPTO, p + MacTrailer(CONSTANT_CRYPTO, opt, opt.key, p), opt, opt.key) == None
      && VerifyMACInPlace(CONSTANT_CRYPTO, p + MacTrailer(CONSTANT_CRYPTO, opt, opt.key, p), opt, opt.key) == Some(ErrAuthFailed)
  {
    var p: seq<byte> := seq(52, _ => 0);
    var opt := AuthOptions(AuthAES128, ZEROS64[..16], 1);
    AppendThenVerify(CONSTANT_CRYPTO, p, opt, opt.key);
    AppendThenVerifyInPlace(CONSTANT_CRYPTO, p, opt, opt.key);
    Cmac.MacIsRfc4493(CONSTANT_CRYPTO.aes, opt.key, p);
    assert CalcDigest(CONSTANT_CRYPTO, AuthAES128, p, opt.key) == ONES;
  }
}
