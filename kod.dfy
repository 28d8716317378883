/**
 * Kiss-o'-Death codes (section 7.4 of RFC 5905): a server that answers with
 * stratum 0 puts a four-letter ASCII code in the reference identifier, and
 * the client maps the packed code to one of fourteen errors.
 */
module Kod {
  import opened Wire

  /** The fourteen error values `ErrorACST` ... `ErrorSTEP`. */
  datatype KodError =
    | ErrorACST  // the association belongs to a unicast server
    | ErrorAUTH  // server authentication failed
    | ErrorAUTO  // autokey sequence failed
    | ErrorBCST  // the association belongs to a broadcast server
    | ErrorCRYP  // cryptographic authentication or identification failed
    | ErrorDENY  // access denied by remote server
    | ErrorDROP  // lost peer in symmetric mode
    | ErrorRSTR  // access denied due to local policy
    | ErrorINIT  // the association has not yet synchronized for the first time
    | ErrorMCST  // the association belongs to a dynamically discovered server
    | ErrorNKEY  // no key found
    | ErrorRATE  // rate exceeded
    | ErrorRMOT  // alteration of association from a remote host running ntpdc
    | ErrorSTEP  // a step change in system time has occurred, but the association has not yet resynchronized

  /**
   * `stringToUint32`: the first four bytes of `s` packed most significant
   * first, as the sum of the shifted bytes. Each base-256 digit of the
   * result is one character, so the shifted bytes never overlap, and the
   * range check of the conversion to `uint32` is the proof that the Go
   * sum never wraps.
   */
  function StringToUint32(s: string): (r: uint32)
    requires |s| >= 4 && Latin1(s[..4])
    ensures r as int / 0x100_0000 == s[0] as int && r as int / 0x1_0000 % 0x100 == s[1] as int
    ensures r as int / 0x100 % 0x100 == s[2] as int && r as int % 0x100 == s[3] as int
  {
    assert s[0] as int < 0x100 && s[1] as int < 0x100 && s[2] as int < 0x100 && s[3] as int < 0x100 by {
      assert s[0] == s[..4][0] && s[1] == s[..4][1] && s[2] == s[..4][2] && s[3] == s[..4][3];
    }
    SplitDigits(s[0] as int, s[1] as int, s[2] as int, s[3] as int);
    (s[0] as int * 0x100_0000 + s[1] as int * 0x1_0000 + s[2] as int * 0x100 + s[3] as int) as uint32
  }

  /** The packed value is the big-endian word whose four bytes are the code's bytes. */
  lemma PackedBytes(s: string)
    requires |s| >= 4 && Latin1(s[..4])
    ensures Uint32Bytes(StringToUint32(s)) == Ascii(s[..4])
  {
    var a := Ascii(s[..4]);
    assert a[0] as int == s[0] as int && a[1] as int == s[1] as int;
    assert a[2] as int == s[2] as int && a[3] as int == s[3] as int;
    ValueByteOf(a[0]);
    ValueByteOf(a[1]);
    ValueByteOf(a[2]);
    ValueByteOf(a[3]);
    BytesOfDigits(StringToUint32(s), a[0] as int, a[1] as int, a[2] as int, a[3] as int);
  }

  /** `kodErrorMap`: packed code to error, built once from the fourteen codes. */
  const KOD_ERROR_MAP: map<uint32, KodError> := map[
    StringToUint32("ACST") := ErrorACST,
    StringToUint32("AUTH") := ErrorAUTH,
    StringToUint32("AUTO") := ErrorAUTO,
    StringToUint32("BCST") := ErrorBCST,
    StringToUint32("CRYP") := ErrorCRYP,
    StringToUint32("DENY") := ErrorDENY,
    StringToUint32("DROP") := ErrorDROP,
    StringToUint32("RSTR") := ErrorRSTR,
    StringToUint32("INIT") := ErrorINIT,
    StringToUint32("MCST") := ErrorMCST,
    StringToUint32("NKEY") := ErrorNKEY,
    StringToUint32("RATE") := ErrorRATE,
    StringToUint32("RMOT") := ErrorRMOT,
    StringToUint32("STEP") := ErrorSTEP
  ]

  /** The packed codes of the table, as the test lists them. */
  const KOD_CODES: set<uint32> := {
    0x41435354, 0x41555448, 0x4155544f, 0x42435354, 0x43525950, 0x44454e59, 0x44524f50,
    0x52535452, 0x494e4954, 0x4d435354, 0x4e4b4559, 0x52415445, 0x524d4f54, 0x53544550
  }

  /** Two four-character codes pack to the same value only if they are the same code. */
  lemma StringToUint32Injective(s: string, t: string)
    requires |s| == 4 && |t| == 4 && Latin1(s) && Latin1(t)
    requires StringToUint32(s) == StringToUint32(t)
    ensures s == t
  {
    assert s == s[..4] && t == t[..4];
    PackedBytes(s);
    PackedBytes(t);
    var a, b := Ascii(s), Ascii(t);
    forall i | 0 <= i < 4
      ensures s[i] == t[i]
    {
      assert a[i] == b[i];
    }
  }

  /** The fourteen keys of the table are the packed codes the test lists. */
  lemma TableKeyValues()
    ensures StringToUint32("ACST") == 0x41435354 && StringToUint32("AUTH") == 0x41555448
    ensures StringToUint32("AUTO") == 0x4155544f && StringToUint32("BCST") == 0x42435354
    ensures StringToUint32("CRYP") == 0x43525950 && StringToUint32("DENY") == 0x44454e59
    ensures StringToUint32("DROP") == 0x44524f50 && StringToUint32("RSTR") == 0x52535452
    ensures StringToUint32("INIT") == 0x494e4954 && StringToUint32("MCST") == 0x4d435354
    ensures StringToUint32("NKEY") == 0x4e4b4559 && StringToUint32("RATE") == 0x52415445
    ensures StringToUint32("RMOT") == 0x524d4f54 && StringToUint32("STEP") == 0x53544550
  {
  }

  /** The table, with its keys written out as the packed codes. */
  lemma TableLiteral()
    ensures KOD_ERROR_MAP == map[
      0x41435354 := ErrorACST,
      0x41555448 := ErrorAUTH,
      0x4155544f := ErrorAUTO,
      0x42435354 := ErrorBCST,
      0x43525950 := ErrorCRYP,
      0x44454e59 := ErrorDENY,
      0x44524f50 := ErrorDROP,
      0x52535452 := ErrorRSTR,
      0x494e4954 := ErrorINIT,
      0x4d435354 := ErrorMCST,
      0x4e4b4559 := ErrorNKEY,
      0x52415445 := ErrorRATE,
      0x524d4f54 := ErrorRMOT,
      0x53544550 := ErrorSTEP
    ]
  {
    TableKeyValues();
  }

  /** The packed code each error is filed under, as the test lists them. */
  function CodeOf(e: KodError): uint32
  {
    match e
    case ErrorACST => 0x41435354
    case ErrorAUTH => 0x41555448
    case ErrorAUTO => 0x4155544f
    case ErrorBCST => 0x42435354
    case ErrorCRYP => 0x43525950
    case ErrorDENY => 0x44454e59
    case ErrorDROP => 0x44524f50
    case ErrorRSTR => 0x52535452
    case ErrorINIT => 0x494e4954
    case ErrorMCST => 0x4d435354
    case ErrorNKEY => 0x4e4b4559
    case ErrorRATE => 0x52415445
    case ErrorRMOT => 0x524d4f54
    case ErrorSTEP => 0x53544550
  }

  /** A strictly increasing list of codes. */
  predicate Increasing(s: seq<uint32>)
  {
    forall i, j | 0 <= i < j < |s| :: s[i] < s[j]
  }

  /** A strictly increasing list has no repeats, so its set has as many codes as the list. */
  lemma {:induction false} IncreasingCard(s: seq<uint32>)
    requires Increasing(s)
    ensures |set x | x in s| == |s|
  {
    if s != [] {
      IncreasingCard(s[1..]);
      assert (set x | x in s) == {s[0]} + (set x | x in s[1..]);
    }
  }

  /** The fourteen listed codes are all different. */
  lemma CodesCard()
    ensures |KOD_CODES| == 14
  {
    var sorted: seq<uint32> := [
      0x41435354, 0x41555448, 0x4155544f, 0x42435354, 0x43525950, 0x44454e59, 0x44524f50,
      0x494e4954, 0x4d435354, 0x4e4b4559, 0x52415445, 0x524d4f54, 0x52535452, 0x53544550];
    assert Increasing(sorted);
    assert KOD_CODES == set x | x in sorted;
    IncreasingCard(sorted);
  }

  /** The table has exactly the fourteen listed codes; any other code has no entry. */
  lemma TableKeys()
    ensures KOD_ERROR_MAP.Keys == KOD_CODES
    ensures |KOD_ERROR_MAP| == 14
  {
    TableLiteral();
    assert KOD_ERROR_MAP.Keys == KOD_CODES;
    CodesCard();
  }

  /**
   * `CodeOf` inverts the table: every error is reached from its own code,
   * and every entry's error leads back to its key, so no two codes share
   * an error.
   */
  lemma TableInverse()
    ensures forall e: KodError :: CodeOf(e) in KOD_ERROR_MAP && KOD_ERROR_MAP[CodeOf(e)] == e
    ensures forall code | code in KOD_ERROR_MAP :: CodeOf(KOD_ERROR_MAP[code]) == code
  {
    TableLiteral();
  }

  /** Different codes map to different errors. */
  lemma TableIsOneToOne(c: uint32, d: uint32)
    requires c in KOD_ERROR_MAP && d in KOD_ERROR_MAP && c != d
    ensures KOD_ERROR_MAP[c] != KOD_ERROR_MAP[d]
  {
    TableInverse();
  }
}
