/**
 * The NTP client's message and time arithmetic (RFC 5905): the mode
 * numbers, the 32.32 fixed-point timestamp with its 1900 epoch, the
 * 48-byte header and its big-endian serialisation, the request the
 * client sends, and the clock offset of section 5 of RFC 2030.
 *
 * An instant is an integer count of nanoseconds since the Unix epoch
 * (1970-01-01 UTC); the clock that supplies "now" is a parameter.
 */
module Ntp {
  import opened Wire
  import opened Wrappers

  /** `mode`: the association mode, numbered from zero in declaration order. */
  datatype Mode =
    | Reserved
    | SymmetricActive
    | SymmetricPassive
    | Client
    | Server
    | Broadcast
    | ControlMessage
    | ReservedPrivate

  /** `byte(md)`: the number of a mode, which fits the three mode bits. */
  function ModeByte(md: Mode): (b: byte)
    ensures b < 8
  {
    match md
    case Reserved => 0
    case SymmetricActive => 1
    case SymmetricPassive => 2
    case Client => 3
    case Server => 4
    case Broadcast => 5
    case ControlMessage => 6
    case ReservedPrivate => 7
  }

  /** The mode a three-bit number stands for. */
  function ModeOf(b: byte): Mode
    requires b < 8
  {
    if b == 0 then Reserved
    else if b == 1 then SymmetricActive
    else if b == 2 then SymmetricPassive
    else if b == 3 then Client
    else if b == 4 then Server
    else if b == 5 then Broadcast
    else if b == 6 then ControlMessage
    else ReservedPrivate
  }

  /** The eight modes are the eight three-bit numbers, one each. */
  lemma ModeNumbering(md: Mode, b: byte)
    ensures ModeOf(ModeByte(md)) == md
    ensures b < 8 ==> ModeByte(ModeOf(b)) == b
  {
  }

  // The first header byte: leap indicator (bits 6-7), version (bits 3-5), mode (bits 0-2).

  function LeapBits(b: byte): byte
  {
    b >> 6
  }

  function VersionBits(b: byte): byte
  {
    (b >> 3) & 7
  }

  function ModeBits(b: byte): byte
  {
    b & 7
  }

  /** The three fields determine the byte. */
  lemma FirstByteFields(b: byte)
    ensures LeapBits(b) < 4 && VersionBits(b) < 8 && ModeBits(b) < 8
    ensures b == (LeapBits(b) << 6) | (VersionBits(b) << 3) | ModeBits(b)
  {
  }

  /**
   * The byte `SetVersion` leaves: the leap and mode bits kept (mask 0xc7),
   * `v` shifted into place (wrapping at 8 bits). The mode bits are always
   * kept; a version below 8 lands in the version bits and keeps the leap
   * bits too.
   */
  function WithVersion(b: byte, v: byte): (r: byte)
    ensures ModeBits(r) == ModeBits(b)
    ensures v < 8 ==> VersionBits(r) == v && LeapBits(r) == LeapBits(b)
  {
    (b & 0xc7) | (v << 3)
  }

  /**
   * The byte `SetMode` leaves: the leap and version bits kept (mask 0xf8),
   * the mode number or-ed in, so that the mode bits read back as `md`.
   */
  function WithMode(b: byte, md: Mode): (r: byte)
    ensures ModeBits(r) == ModeByte(md) && ModeOf(ModeBits(r)) == md
    ensures LeapBits(r) == LeapBits(b) && VersionBits(r) == VersionBits(b)
  {
    (b & 0xf8) | ModeByte(md)
  }

  /** Nothing in the setter keeps a version of 8 or more out of the leap bits. */
  lemma WideVersionReachesLeap()
    ensures LeapBits(WithVersion(0, 8)) == 1
  {
  }

  /** `ntpTime`: whole seconds since 1900-01-01 UTC and a binary fraction of a second, in 32 bits each. */
  datatype NtpTime = NtpTime(seconds: uint32, fraction: uint32)

  const NANOS_PER_SECOND: int := 1_000_000_000
  const TWO_32: int := 0x1_0000_0000

  /** Seconds from 1900-01-01 to 1970-01-01 UTC: the Unix time of the NTP epoch, negated. */
  const EPOCH_OFFSET: int := 2_208_988_800

  /** Go's conversion of a signed integer to `uint32`: the value modulo 2^32. */
  function Uint32Wrap(x: int): (r: uint32)
    ensures (x - r as int) % TWO_32 == 0
  {
    (x % TWO_32) as uint32
  }

  /** `fraction / 1e9` where `fraction` is a nanosecond count shifted left by 32. */
  function NanosToFraction(n: int): (f: uint32)
    requires 0 <= n < NANOS_PER_SECOND
    ensures f as int * NANOS_PER_SECOND <= n * TWO_32 < (f as int + 1) * NANOS_PER_SECOND
  {
    FractionFits(n);
    (n * TWO_32 / NANOS_PER_SECOND) as uint32
  }

  lemma FractionFits(n: int)
    requires 0 <= n < NANOS_PER_SECOND
    ensures 0 <= n * TWO_32 / NANOS_PER_SECOND < TWO_32
  {
    var q := n * TWO_32 / NANOS_PER_SECOND;
    assert q * NANOS_PER_SECOND <= n * TWO_32;
    if q >= TWO_32 {
      MulLeft(TWO_32, q, NANOS_PER_SECOND);
      MulLeft(n, NANOS_PER_SECOND - 1, TWO_32);
    }
  }

  /** `uint64(Fraction) * 1e9 >> 32`: the whole nanoseconds of a fraction, which make less than a second. */
  function FractionToNanos(f: uint32): (n: int)
    ensures 0 <= n < NANOS_PER_SECOND
    ensures n * TWO_32 <= f as int * NANOS_PER_SECOND < (n + 1) * TWO_32
  {
    NanosFit(f);
    f as int * NANOS_PER_SECOND / TWO_32
  }

  lemma NanosFit(f: uint32)
    ensures 0 <= f as int * NANOS_PER_SECOND / TWO_32 < NANOS_PER_SECOND
  {
    var q := f as int * NANOS_PER_SECOND / TWO_32;
    assert q * TWO_32 <= f as int * NANOS_PER_SECOND;
    if q >= NANOS_PER_SECOND {
      MulLeft(NANOS_PER_SECOND, q, TWO_32);
      MulLeft(f as int, TWO_32 - 1, NANOS_PER_SECOND);
    }
  }

  /** A nanosecond count taken to a fraction and back is never larger and at most one nanosecond smaller. */
  lemma NanosRoundTrip(n: int)
    requires 0 <= n < NANOS_PER_SECOND
    ensures n - 1 <= FractionToNanos(NanosToFraction(n)) <= n
  {
    var f := NanosToFraction(n) as int;
    var m := FractionToNanos(f as uint32);
    if m > n {
      MulLeft(n + 1, m, TWO_32);
      MulLeft(f * NANOS_PER_SECOND, n * TWO_32, 1);
    }
    if m < n - 1 {
      MulLeft(m + 1, n - 1, TWO_32);
    }
  }

  /** A fraction taken to nanoseconds and back is never larger and at most five units (about 1.2 ns) smaller. */
  lemma FractionRoundTrip(f: uint32)
    ensures f as int - 5 <= NanosToFraction(FractionToNanos(f)) as int <= f as int
  {
    var n := FractionToNanos(f);
    var g := NanosToFraction(n) as int;
    if g > f as int {
      MulLeft(f as int + 1, g, NANOS_PER_SECOND);
    }
    if g < f as int - 5 {
      MulLeft(g + 6, f as int, NANOS_PER_SECOND);
    }
  }

  /**
   * `toNtpTime`: the seconds are the Unix seconds (rounded down) plus the
   * epoch offset, modulo 2^32; the fraction is the nanoseconds within the
   * second scaled to 2^32 and rounded down.
   */
  function ToNtpTime(t: int): (x: NtpTime)
    ensures (x.seconds as int - (t / NANOS_PER_SECOND + EPOCH_OFFSET)) % TWO_32 == 0
    ensures InFirstEra(t) ==> x.seconds as int == t / NANOS_PER_SECOND + EPOCH_OFFSET
    ensures x.fraction as int * NANOS_PER_SECOND <= (t % NANOS_PER_SECOND) * TWO_32 < (x.fraction as int + 1) * NANOS_PER_SECOND
  {
    NtpTime(Uint32Wrap(t / NANOS_PER_SECOND + EPOCH_OFFSET), NanosToFraction(t % NANOS_PER_SECOND))
  }

  /** The NTP seconds count repeats every 2^32 seconds (one era). */
  lemma ToNtpTimeEra(t: int)
    ensures ToNtpTime(t + TWO_32 * NANOS_PER_SECOND) == ToNtpTime(t)
  {
    var u := t + TWO_32 * NANOS_PER_SECOND;
    assert u / NANOS_PER_SECOND == t / NANOS_PER_SECOND + TWO_32 && u % NANOS_PER_SECOND == t % NANOS_PER_SECOND by {
      DivShift(t, TWO_32, NANOS_PER_SECOND);
    }
  }

  lemma DivShift(t: int, k: int, d: int)
    requires d > 0
    ensures (t + k * d) / d == t / d + k && (t + k * d) % d == t % d
  {
    var q, r := t / d, t % d;
    assert t == q * d + r;
    assert t + k * d == (q + k) * d + r;
    DivUnique(t + k * d, d, q + k, r);
  }

  /** The instants the first era covers: from 1900-01-01 up to 2^32 seconds later (early 2036). */
  predicate InFirstEra(t: int)
  {
    -EPOCH_OFFSET * NANOS_PER_SECOND <= t < (TWO_32 - EPOCH_OFFSET) * NANOS_PER_SECOND
  }

  /**
   * `ntpTime.UTC`, as nanoseconds since the Unix epoch: the seconds and
   * the whole nanoseconds of the fraction, counted from 1900. The result
   * is an instant of the first era.
   */
  function Utc(x: NtpTime): (t: int)
    ensures InFirstEra(t)
  {
    x.seconds as int * NANOS_PER_SECOND + FractionToNanos(x.fraction) - EPOCH_OFFSET * NANOS_PER_SECOND
  }

  /**
   * The count since 1900 that the source computes in `uint64` and then
   * converts to a `time.Duration` (`int64`) stays below 2^63, so neither
   * step wraps.
   */
  lemma UtcNoOverflow(x: NtpTime)
    ensures 0 <= x.seconds as int * NANOS_PER_SECOND
    ensures x.seconds as int * NANOS_PER_SECOND + FractionToNanos(x.fraction) < 0x8000_0000_0000_0000
    ensures x.fraction as int * NANOS_PER_SECOND < 0x1_0000_0000_0000_0000
  {
    MulLeft(x.seconds as int, TWO_32 - 1, NANOS_PER_SECOND);
    MulLeft(x.fraction as int, TWO_32 - 1, NANOS_PER_SECOND);
  }

  /** The whole seconds of `Utc(x)` are the NTP seconds less the epoch offset; the rest is the fraction's nanoseconds. */
  lemma UtcSplit(x: NtpTime)
    ensures Utc(x) / NANOS_PER_SECOND == x.seconds as int - EPOCH_OFFSET
    ensures Utc(x) % NANOS_PER_SECOND == FractionToNanos(x.fraction)
  {
    var s := x.seconds as int - EPOCH_OFFSET;
    var n := FractionToNanos(x.fraction);
    assert Utc(x) == s * NANOS_PER_SECOND + n;
  }

  /** Converting a timestamp to an instant and back keeps the seconds and loses at most five fraction units. */
  lemma NtpTimeRoundTrip(x: NtpTime)
    ensures ToNtpTime(Utc(x)).seconds == x.seconds
    ensures x.fraction as int - 5 <= ToNtpTime(Utc(x)).fraction as int <= x.fraction as int
  {
    UtcSplit(x);
    FractionRoundTrip(x.fraction);
  }

  /** An instant of the first era taken to a timestamp and back is at most one nanosecond earlier. */
  lemma InstantRoundTrip(t: int)
    requires InFirstEra(t)
    ensures t - 1 <= Utc(ToNtpTime(t)) <= t
  {
    var s := t / NANOS_PER_SECOND;
    var n := t % NANOS_PER_SECOND;
    assert t == s * NANOS_PER_SECOND + n;
    assert -EPOCH_OFFSET <= s < TWO_32 - EPOCH_OFFSET;
    assert ToNtpTime(t).seconds as int == s + EPOCH_OFFSET;
    NanosRoundTrip(n);
  }

  /** `msg`: the 48-byte NTP header. */
  datatype Header = Header(
    liVnMode: byte,
    stratum: byte,
    poll: byte,
    precision: byte,
    rootDelay: uint32,
    rootDispersion: uint32,
    referenceId: uint32,
    referenceTime: NtpTime,
    originTime: NtpTime,
    receiveTime: NtpTime,
    transmitTime: NtpTime)

  /** `new(msg)`: every field zero. */
  const ZERO_HEADER: Header := Header(0, 0, 0, 0, 0, 0, 0, NtpTime(0, 0), NtpTime(0, 0), NtpTime(0, 0), NtpTime(0, 0))


  /** The eleven 32-bit fields in wire order, each timestamp as its seconds then its fraction. */
  function Words(h: Header): (ws: seq<uint32>)
    ensures |ws| == 11
  {
    [h.rootDelay, h.rootDispersion, h.referenceId,
     h.referenceTime.seconds, h.referenceTime.fraction,
     h.originTime.seconds, h.originTime.fraction,
     h.receiveTime.seconds, h.receiveTime.fraction,
     h.transmitTime.seconds, h.transmitTime.fraction]
  }

  /** The header with the given first four bytes and eleven 32-bit fields. */
  function HeaderOf(b: seq<byte>, ws: seq<uint32>): Header
    requires |b| == 4 && |ws| == 11
  {
    Header(b[0], b[1], b[2], b[3], ws[0], ws[1], ws[2],
      NtpTime(ws[3], ws[4]), NtpTime(ws[5], ws[6]), NtpTime(ws[7], ws[8]), NtpTime(ws[9], ws[10]))
  }

  lemma WordsOfHeader(b: seq<byte>, ws: seq<uint32>, h: Header)
    requires |b| == 4 && |ws| == 11
    ensures Words(HeaderOf(b, ws)) == ws
    ensures HeaderOf([h.liVnMode, h.stratum, h.poll, h.precision], Words(h)) == h
  {
  }

  /** A run of 32-bit integers, each written big-endian. */
  function WordsBytes(ws: seq<uint32>): (r: seq<byte>)
    ensures |r| == 4 * |ws|
  {
    if ws == [] then [] else Uint32Bytes(ws[0]) + WordsBytes(ws[1..])
  }

  /** The 32-bit integers a run of bytes spells, four bytes each. */
  function BytesWords(b: seq<byte>): (ws: seq<uint32>)
    requires |b| % 4 == 0
    ensures 4 * |ws| == |b|
  {
    if b == [] then [] else [Uint32Of(b[..4])] + BytesWords(b[4..])
  }

  lemma {:induction false} WordsRoundTrip(ws: seq<uint32>)
    ensures BytesWords(WordsBytes(ws)) == ws
  {
    if ws != [] {
      var b := WordsBytes(ws);
      assert b[..4] == Uint32Bytes(ws[0]) && b[4..] == WordsBytes(ws[1..]);
      Uint32RoundTrip(ws[0]);
      WordsRoundTrip(ws[1..]);
    }
  }

  lemma {:induction false} BytesRoundTripWords(b: seq<byte>)
    requires |b| % 4 == 0
    ensures WordsBytes(BytesWords(b)) == b
  {
    if b != [] {
      var ws := BytesWords(b);
      assert ws[0] == Uint32Of(b[..4]) && ws[1..] == BytesWords(b[4..]);
      BytesRoundTripWords(b[4..]);
      assert b == b[..4] + b[4..];
    }
  }

  /** `binary.Write(_, binary.BigEndian, m)`: the four single bytes, then the eleven words in field order. */
  function Encode(h: Header): (b: seq<byte>)
    ensures |b| == HEADER_SIZE
  {
    [h.liVnMode, h.stratum, h.poll, h.precision] + WordsBytes(Words(h))
  }

  /**
   * `binary.Read(_, binary.BigEndian, m)`: the header spelled by the first
   * 48 bytes, which written again give those bytes back; fewer bytes are
   * an error.
   */
  function Decode(b: seq<byte>): (r: Option<Header>)
    ensures r.None? <==> |b| < HEADER_SIZE
    ensures r.Some? ==> Encode(r.value) == b[..HEADER_SIZE]
  {
    if |b| < HEADER_SIZE then None
    else
      var ws := BytesWords(b[4..HEADER_SIZE]);
      var h := HeaderOf(b[..4], ws);
      WordsOfHeader(b[..4], ws, h);
      BytesRoundTripWords(b[4..HEADER_SIZE]);
      assert b[..HEADER_SIZE] == b[..4] + b[4..HEADER_SIZE];
      Some(h)
  }

  /** Reading back what was written gives the same header. */
  lemma DecodeEncode(h: Header)
    ensures Decode(Encode(h)) == Some(h)
  {
    var b := Encode(h);
    assert b[..4] == [h.liVnMode, h.stratum, h.poll, h.precision];
    assert b[4..HEADER_SIZE] == WordsBytes(Words(h));
    WordsRoundTrip(Words(h));
    WordsOfHeader(b[..4], Words(h), h);
  }

  /** The value semantics of `msg`, a header that the setters update in place. */
  class Msg {
    var liVnMode: byte
    var stratum: byte
    var poll: byte
    var precision: byte
    var rootDelay: uint32
    var rootDispersion: uint32
    var referenceId: uint32
    var referenceTime: NtpTime
    var originTime: NtpTime
    var receiveTime: NtpTime
    var transmitTime: NtpTime

    /** The header the fields hold. */
    function Value(): Header
      reads this
    {
      Header(liVnMode, stratum, poll, precision, rootDelay, rootDispersion, referenceId,
        referenceTime, originTime, receiveTime, transmitTime)
    }

    /** `new(msg)`. */
    constructor ()
      ensures Value() == ZERO_HEADER
    {
      liVnMode, stratum, poll, precision := 0, 0, 0, 0;
      rootDelay, rootDispersion, referenceId := 0, 0, 0;
      referenceTime, originTime, receiveTime, transmitTime := NtpTime(0, 0), NtpTime(0, 0), NtpTime(0, 0), NtpTime(0, 0);
    }

    /** `SetVersion`: only the first byte changes. */
    method SetVersion(v: byte)
      modifies this
      ensures Value() == old(Value()).(liVnMode := WithVersion(old(liVnMode), v))
    {
      liVnMode := (liVnMode & 0xc7) | (v << 3);
    }

    /** `SetMode`: only the first byte changes. */
    method SetMode(md: Mode)
      modifies this
      ensures Value() == old(Value()).(liVnMode := WithMode(old(liVnMode), md))
    {
      liVnMode := (liVnMode & 0xf8) | ModeByte(md);
    }

    /** `SetTransmitTime`: the transmit timestamp becomes the instant `t`. */
    method SetTransmitTime(t: int)
      modifies this
      ensures Value() == old(Value()).(transmitTime := ToNtpTime(t))
    {
      transmitTime := ToNtpTime(t);
    }
  }

  /**
   * The header `getTime` sends for `version` at the instant `now`: the
   * first byte is `version << 3` or-ed with the client mode, so for a
   * version below 8 the leap indicator is 0; the transmit timestamp is
   * `now`; every other field is that of `new(msg)`.
   */
  function Request(version: byte, now: int): (h: Header)
    ensures h.liVnMode == (version << 3) | 3 && ModeOf(ModeBits(h.liVnMode)) == Client
    ensures version < 8 ==> LeapBits(h.liVnMode) == 0 && VersionBits(h.liVnMode) == version
    ensures h.transmitTime == ToNtpTime(now)
    ensures h == ZERO_HEADER.(liVnMode := h.liVnMode, transmitTime := h.transmitTime)
  {
    ZERO_HEADER.(liVnMode := WithVersion(WithMode(0, Client), version), transmitTime := ToNtpTime(now))
  }

  /**
   * The request building of `getTime`: a zero message, the client mode,
   * the version and the transmit time. The source panics on a version
   * outside 2..4.
   */
  method NewRequest(version: byte, now: int) returns (m: Msg)
    requires 2 <= version <= 4
    ensures fresh(m) && m.Value() == Request(version, now)
  {
    m := new Msg();
    m.SetMode(Client);
    m.SetVersion(version);
    m.SetTransmitTime(now);
  }

  /** On the wire a request is its first byte, 39 zero bytes, then the transmit seconds and fraction. */
  lemma RequestBytes(version: byte, now: int)
    requires 2 <= version <= 4
    ensures var b := Encode(Request(version, now)); var x := ToNtpTime(now);
      && b[0] == (version << 3) | 3
      && (forall i | 1 <= i < 40 :: b[i] == 0)
      && b[40..] == Uint32Bytes(x.seconds) + Uint32Bytes(x.fraction)
  {
    var h := Request(version, now);
    var x := h.transmitTime;
    var zs: seq<uint32> := [0, 0, 0, 0, 0, 0, 0, 0, 0];
    assert Words(h) == zs + [x.seconds, x.fraction];
    ZeroWords(zs);
    WordsBytesAppend(zs, [x.seconds, x.fraction]);
    TwoWordsBytes(x.seconds, x.fraction);
    assert Encode(h) == [h.liVnMode, 0, 0, 0] + WordsBytes(zs) + (Uint32Bytes(x.seconds) + Uint32Bytes(x.fraction));
  }

  lemma TwoWordsBytes(a: uint32, b: uint32)
    ensures WordsBytes([a, b]) == Uint32Bytes(a) + Uint32Bytes(b)
  {
    assert [a, b][1..] == [b];
    assert WordsBytes([b]) == Uint32Bytes(b) + WordsBytes([]);
  }

  lemma {:induction false} ZeroWords(ws: seq<uint32>)
    requires forall i | 0 <= i < |ws| :: ws[i] == 0
    ensures forall i | 0 <= i < |WordsBytes(ws)| :: WordsBytes(ws)[i] == 0
  {
    if ws != [] {
      ZeroWords(ws[1..]);
      BytesOfDigits(0, 0, 0, 0, 0);
      ByteOfValue(0);
    }
  }

  lemma {:induction false} WordsBytesAppend(us: seq<uint32>, vs: seq<uint32>)
    ensures WordsBytes(us + vs) == WordsBytes(us) + WordsBytes(vs)
  {
    if us != [] {
      assert (us + vs)[0] == us[0] && (us + vs)[1..] == us[1..] + vs;
      WordsBytesAppend(us[1..], vs);
      assert WordsBytes(us + vs) == Uint32Bytes(us[0]) + (WordsBytes(us[1..]) + WordsBytes(vs));
    } else {
      assert us + vs == vs;
    }
  }

  /** A signed 64-bit integer, as `UnixNano` returns and `offset` computes with. */
  newtype int64 = x: int | -0x8000_0000_0000_0000 <= x < 0x8000_0000_0000_0000

  const TWO_64: int := 0x1_0000_0000_0000_0000

  /** The two's-complement wrap-around of a Go `int64` operation. */
  function Wrap64(x: int): (r: int64)
    ensures (x - r as int) % TWO_64 == 0
  {
    ((x + 0x8000_0000_0000_0000) % TWO_64 - 0x8000_0000_0000_0000) as int64
  }

  /** Go's `a / 2` on integers: the half rounded toward zero. */
  function Half(a: int): (q: int)
    ensures a >= 0 ==> 0 <= 2 * q <= a < 2 * q + 2
    ensures a < 0 ==> 2 * q - 2 < a <= 2 * q <= 0
  {
    if a >= 0 then a / 2 else -((-a) / 2)
  }

  /** Rounding toward zero treats a number and its negation alike. */
  lemma HalfNegate(a: int)
    ensures Half(-a) == -Half(a)
  {
  }

  /**
   * `offset`: half the sum of the two one-way differences, in nanoseconds,
   * with Go's 64-bit arithmetic. When neither the differences nor their
   * sum overflow, it is their exact sum halved toward zero.
   */
  function Offset(t1: int64, t2: int64, t3: int64, t4: int64): (r: int64)
    ensures Fits64(t2 as int - t1 as int) && Fits64(t3 as int - t4 as int)
      && Fits64((t2 as int - t1 as int) + (t3 as int - t4 as int))
      ==> r as int == Half((t2 as int - t1 as int) + (t3 as int - t4 as int))
  {
    var sum := Wrap64(Wrap64(t2 as int - t1 as int) as int + Wrap64(t3 as int - t4 as int) as int);
    Half(sum as int) as int64
  }

  /** Whether `x` is a value of a Go `int64`. */
  predicate Fits64(x: int)
  {
    -0x8000_0000_0000_0000 <= x < 0x8000_0000_0000_0000
  }

  /** Instants within 2^61 ns (about 73 years) of the Unix epoch never overflow the computation. */
  predicate NearEpoch(t: int64)
  {
    -0x2000_0000_0000_0000 <= t < 0x2000_0000_0000_0000
  }

  lemma OffsetNearEpoch(t1: int64, t2: int64, t3: int64, t4: int64)
    requires NearEpoch(t1) && NearEpoch(t2) && NearEpoch(t3) && NearEpoch(t4)
    ensures Offset(t1, t2, t3, t4) as int == Half((t2 as int - t1 as int) + (t3 as int - t4 as int))
  {
  }

  /** Swapping the client's and the server's clocks negates the offset. */
  lemma OffsetAntisymmetric(t1: int64, t2: int64, t3: int64, t4: int64)
    requires NearEpoch(t1) && NearEpoch(t2) && NearEpoch(t3) && NearEpoch(t4)
    ensures Offset(t2, t1, t4, t3) == -Offset(t1, t2, t3, t4)
  {
    OffsetNearEpoch(t1, t2, t3, t4);
    OffsetNearEpoch(t2, t1, t4, t3);
    HalfNegate((t2 as int - t1 as int) + (t3 as int - t4 as int));
  }

  /** Server clock 20 s and 21 s ahead at receive and transmit, reply back after 5 s: an offset of 18 s. */
  lemma OffsetPositiveExample(t: int64)
    requires -0x1000_0000_0000_0000 <= t < 0x1000_0000_0000_0000
    ensures Offset(t, t + 20 * NANOS_PER_SECOND as int64, t + 21 * NANOS_PER_SECOND as int64,
      t + 5 * NANOS_PER_SECOND as int64) == 18 * NANOS_PER_SECOND as int64
  {
    OffsetNearEpoch(t, t + 20 * NANOS_PER_SECOND as int64, t + 21 * NANOS_PER_SECOND as int64,
      t + 5 * NANOS_PER_SECOND as int64);
  }

  /** Four instants 101 s, 102 s, 103 s and 105 s after `t`: an offset of minus half a second. */
  lemma OffsetNegativeExample(t: int64)
    requires -0x1000_0000_0000_0000 <= t < 0x1000_0000_0000_0000
    ensures Offset(t + 101 * NANOS_PER_SECOND as int64, t + 102 * NANOS_PER_SECOND as int64,
      t + 103 * NANOS_PER_SECOND as int64, t + 105 * NANOS_PER_SECOND as int64) == -500_000_000
  {
    OffsetNearEpoch(t + 101 * NANOS_PER_SECOND as int64, t + 102 * NANOS_PER_SECOND as int64,
      t + 103 * NANOS_PER_SECOND as int64, t + 105 * NANOS_PER_SECOND as int64);
  }

  /** A sum of -1 ns gives an offset of 0, not -1: the division rounds toward zero. */
  lemma OffsetRoundsTowardZero(t: int64)
    requires NearEpoch(t) && NearEpoch(t + 1)
    ensures Offset(t, t, t, t + 1) == 0
  {
    OffsetNearEpoch(t, t, t, t + 1);
  }

  /** The instants `Utc` gives are near the Unix epoch, so offsets of timestamps never overflow. */
  lemma UtcNearEpoch(x: NtpTime)
    ensures Fits64(Utc(x)) && NearEpoch(Utc(x) as int64)
  {
  }
}
