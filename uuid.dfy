/** The identifier type of uuid.go: a 16-byte RFC 4122 UUID, its generation
    from random bytes (NewUUID), its canonical text form (UUID.String) and the
    parsing of text back into bytes (ParseUUID). */
module Uuid {
  import opened Hex

  /** A UUID is a value of exactly 16 bytes. */
  type Uuid = s: seq<byte> | |s| == 16 witness seq(16, _ => 0)

  /** The all-zero UUID, the zero value of the Go array type. */
  const Nil: Uuid := seq(16, _ => 0)

  /** ASCII '-'. */
  const Hyphen: byte := 0x2d

  /** The sentinel errors of uuid.go that parsing can produce. */
  datatype Kind = InvalidFormat | InvalidLength | InvalidHex | FailedToDecode

  /** The error wrapped second: a sentinel of this package, or the error
      reported by hex.DecodeString. */
  datatype Cause = Sentinel(kind: Kind) | HexCause(hexError: DecodeError)

  /** An error built as fmt.Errorf("%w: %w", outer, inner). */
  datatype Error = Wrapped(outer: Kind, inner: Cause)

  /** errors.Is(e, k): k is one of the two errors that e wraps. */
  predicate Is(e: Error, k: Kind) {
    e.outer == k || e.inner == Sentinel(k)
  }

  // ---------------------------------------------------------------------------
  // Generation

  /** Version 4 in the high nibble of byte 6 (section 4.1.3 of RFC 4122) and the
      RFC 4122 variant in the top bits of byte 8 (section 4.1.1), tested with the
      masks of the source. */
  predicate IsVersion4(u: Uuid) {
    (u[6] as bv8) & 0xf0 == 0x40 && (u[8] as bv8) & 0xc0 == 0x80
  }

  /** The masks of IsVersion4 read as arithmetic on a byte. */
  lemma HighBits(b: byte)
    ensures (b as bv8) & 0xf0 == 0x40 <==> b / 16 == 4
    ensures (b as bv8) & 0xc0 == 0x80 <==> b / 64 == 2
  {
  }

  /** The byte-6 patch (g & 0x0f) | 0x40: the low nibble g & 0x0f is g % 16,
      and or-ing 0x40 into a value below 16 adds 0x40. */
  function WithVersion(b: byte): (r: byte)
    ensures r / 16 == 4 && r % 16 == b % 16
  {
    b % 16 + 0x40
  }

  /** The byte-8 patch (g & 0x3f) | 0x80: the low six bits g & 0x3f are g % 64,
      and or-ing 0x80 into a value below 64 adds 0x80. */
  function WithVariant(b: byte): (r: byte)
    ensures r / 64 == 2 && r % 64 == b % 64
  {
    b % 64 + 0x80
  }

  /** The arithmetic patches are the source's bit operations (g & 0x0f) | 0x40
      and (g & 0x3f) | 0x80. */
  lemma PatchBits(g: bv8)
    ensures ((g & 0x0f) | 0x40) as int == WithVersion(g as int as byte) as int
    ensures ((g & 0x3f) | 0x80) as int == WithVariant(g as int as byte) as int
  {
    PatchMasks(g);
  }

  /** The bit patches read as integers. */
  lemma PatchMasks(g: bv8)
    ensures ((g & 0x0f) | 0x40) as int == g as int % 16 + 0x40
    ensures ((g & 0x3f) | 0x80) as int == g as int % 64 + 0x80
  {
    assert (g & 0x0f) | 0x40 == g % 16 + 0x40;
    assert (g & 0x3f) | 0x80 == g % 64 + 0x80;
  }

  /** Patching bytes that already carry the version and variant bits changes
      nothing. */
  lemma PatchesKeepVersion4(u: Uuid)
    requires IsVersion4(u)
    ensures WithVersion(u[6]) == u[6] && WithVariant(u[8]) == u[8]
  {
    HighBits(u[6]);
    HighBits(u[8]);
  }

  /** NewUUID, given the 16 bytes that crypto/rand delivered: the bytes are
      copied into a fresh array, then the version and variant bits are forced. */
  method NewUUID(random: Uuid) returns (g: Uuid)
    ensures IsVersion4(g)
    ensures g[6] % 16 == random[6] % 16 && g[8] % 64 == random[8] % 64
    ensures forall i :: 0 <= i < 16 && i != 6 && i != 8 ==> g[i] == random[i]
    ensures IsVersion4(random) ==> g == random
  {
    var a := new byte[16](i requires 0 <= i < 16 => random[i]);
    a[6] := WithVersion(a[6]);
    a[8] := WithVariant(a[8]);
    g := a[..];
    HighBits(g[6]);
    HighBits(g[8]);
    if IsVersion4(random) {
      PatchesKeepVersion4(random);
      assert g == random;
    }
  }

  // ---------------------------------------------------------------------------
  // Formatting

  /** UUID.String: the lower-case hex encodings of bytes 0-3, 4-5, 6-7, 8-9 and
      10-15 joined by hyphens (fmt.Sprint puts no spaces between strings). */
  function Format(u: Uuid): (s: seq<byte>)
    ensures |s| == 36
    ensures forall i :: 0 <= i < 36 ==> (s[i] == Hyphen <==> i in {8, 13, 18, 23})
    ensures forall i :: 0 <= i < 36 && s[i] != Hyphen ==> IsLowerDigit(s[i])
  {
    Encode(u[..4]) + [Hyphen] + Encode(u[4..6]) + [Hyphen] + Encode(u[6..8]) + [Hyphen]
      + Encode(u[8..10]) + [Hyphen] + Encode(u[10..])
  }

  /** The number of hyphens in front of the digits of byte i in the text form. */
  function HyphensBefore(i: nat): nat {
    if i < 4 then 0 else if i < 6 then 1 else if i < 8 then 2 else if i < 10 then 3 else 4
  }

  /** Byte i is spelled by two digits, high nibble first, at offset 2 * i
      plus the hyphens before it. */
  lemma FormatLayout(u: Uuid)
    ensures forall i :: 0 <= i < 16 ==>
      Format(u)[2 * i + HyphensBefore(i)] == Digit(u[i] / 16) &&
      Format(u)[2 * i + HyphensBefore(i) + 1] == Digit(u[i] % 16)
  {
    var s := Format(u);
    forall i | 0 <= i < 16
      ensures s[2 * i + HyphensBefore(i)] == Digit(u[i] / 16)
      ensures s[2 * i + HyphensBefore(i) + 1] == Digit(u[i] % 16)
    {
      if i < 4 {
        EncodeDigits(u[..4]);
      } else if i < 6 {
        EncodeDigits(u[4..6]);
        assert u[4..6][i - 4] == u[i];
      } else if i < 8 {
        EncodeDigits(u[6..8]);
        assert u[6..8][i - 6] == u[i];
      } else if i < 10 {
        EncodeDigits(u[8..10]);
        assert u[8..10][i - 8] == u[i];
      } else {
        EncodeDigits(u[10..]);
        assert u[10..][i - 10] == u[i];
      }
    }
  }

  /** In the text form of a version-4 UUID, digit 14 is '4' and digit 19 is
      one of '8', '9', 'a', 'b'. */
  lemma FormatVersion4(u: Uuid)
    requires IsVersion4(u)
    ensures Format(u)[14] == 0x34
    ensures Format(u)[19] in {0x38, 0x39, 0x61, 0x62}
  {
    FormatLayout(u);
    HighBits(u[6]);
    HighBits(u[8]);
  }

  // ---------------------------------------------------------------------------
  // Parsing

  /** strings.ReplaceAll(s, "-", ""). */
  function RemoveHyphens(s: seq<byte>): (r: seq<byte>)
    ensures Hyphen !in r
    ensures |r| <= |s|
  {
    if s == [] then []
    else if s[0] == Hyphen then RemoveHyphens(s[1..])
    else [s[0]] + RemoveHyphens(s[1..])
  }

  lemma {:induction false} RemoveHyphensConcat(a: seq<byte>, b: seq<byte>)
    ensures RemoveHyphens(a + b) == RemoveHyphens(a) + RemoveHyphens(b)
  {
    if a == [] {
      assert a + b == b;
    } else {
      assert (a + b)[1..] == a[1..] + b;
      RemoveHyphensConcat(a[1..], b);
    }
  }

  lemma {:induction false} RemoveHyphensKeeps(s: seq<byte>)
    requires Hyphen !in s
    ensures RemoveHyphens(s) == s
  {
    if s != [] {
      RemoveHyphensKeeps(s[1..]);
    }
  }

  /** copy(uuid[:], bytes) into the zero UUID: as many bytes as fit. */
  function CopyInto(bytes: seq<byte>): (u: Uuid)
    ensures forall i :: 0 <= i < 16 ==> u[i] == if i < |bytes| then bytes[i] else 0
  {
    if |bytes| >= 16 then bytes[..16] else bytes + seq(16 - |bytes|, _ => 0)
  }

  /** What ParseUUID returns for the text s. */
  function Parse(s: seq<byte>): (r: Result<Uuid, Error>)
    ensures r.Success? ==> |RemoveHyphens(s)| == 32 && AllDigits(RemoveHyphens(s))
    ensures r.Failure? && r.error.outer == InvalidFormat ==> r.error.inner.Sentinel?
  {
    var t := RemoveHyphens(s);
    if |t| != 32 then Failure(Wrapped(InvalidFormat, Sentinel(InvalidLength)))
    else if !AllDigits(t) then Failure(Wrapped(InvalidFormat, Sentinel(InvalidHex)))
    else
      match Decode(t)
      case Failure(e) => Failure(Wrapped(FailedToDecode, HexCause(e)))
      case Success(bytes) => Success(CopyInto(bytes))
  }

  /** ParseUUID: drop the hyphens, check the length, check every digit, decode. */
  method ParseUUID(s: seq<byte>) returns (r: Result<Uuid, Error>)
    ensures r == Parse(s)
  {
    var t := RemoveHyphens(s);
    if |t| != 32 {
      return Failure(Wrapped(InvalidFormat, Sentinel(InvalidLength)));
    }
    for i := 0 to |t|
      invariant forall j :: 0 <= j < i ==> IsDigit(t[j])
    {
      if !IsDigit(t[i]) {
        return Failure(Wrapped(InvalidFormat, Sentinel(InvalidHex)));
      }
    }
    var decoded := Decode(t);
    if decoded.Failure? {
      return Failure(Wrapped(FailedToDecode, HexCause(decoded.error)));
    }
    var bytes := decoded.value;
    var uuid := new byte[16](_ => 0);
    var n := if |bytes| < 16 then |bytes| else 16;
    forall i | 0 <= i < n {
      uuid[i] := bytes[i];
    }
    assert uuid[..] == CopyInto(bytes);
    r := Success(uuid[..]);
  }

  // ---------------------------------------------------------------------------
  // Properties of parsing

  /** A wrong length after removing hyphens is reported before any digit is
      looked at. */
  lemma ParseRejectsLength(s: seq<byte>)
    requires |RemoveHyphens(s)| != 32
    ensures Parse(s).Failure?
    ensures Is(Parse(s).error, InvalidFormat) && Is(Parse(s).error, InvalidLength)
    ensures !Is(Parse(s).error, InvalidHex)
  {
  }

  /** 32 characters of which one is not a hexadecimal digit. */
  lemma ParseRejectsNonDigit(s: seq<byte>)
    requires |RemoveHyphens(s)| == 32 && !AllDigits(RemoveHyphens(s))
    ensures Parse(s).Failure?
    ensures Is(Parse(s).error, InvalidFormat) && Is(Parse(s).error, InvalidHex)
    ensures !Is(Parse(s).error, InvalidLength)
  {
  }

  /** 32 digits always parse, byte i from digits 2i and 2i+1 of the text
      without hyphens, with no version or variant bits forced. */
  lemma ParseDigits(s: seq<byte>)
    requires |RemoveHyphens(s)| == 32 && AllDigits(RemoveHyphens(s))
    ensures Parse(s).Success?
    ensures forall i :: 0 <= i < 16 ==>
      Parse(s).value[i] == 16 * DigitValue(RemoveHyphens(s)[2 * i]) + DigitValue(RemoveHyphens(s)[2 * i + 1])
  {
    var t := RemoveHyphens(s);
    DecodeDigits(t);
  }

  /** Parsing succeeds exactly on 32 digits, and every failure is an invalid
      format: the failed-to-decode branch of ParseUUID cannot be taken. */
  lemma ParseOutcome(s: seq<byte>)
    ensures Parse(s).Success? <==> |RemoveHyphens(s)| == 32 && AllDigits(RemoveHyphens(s))
    ensures Parse(s).Failure? ==> Parse(s).error.outer == InvalidFormat
  {
    var t := RemoveHyphens(s);
    if |t| == 32 && AllDigits(t) {
      DecodeDigits(t);
    }
  }

  /** Without its hyphens, the text form is the hex encoding of the 16 bytes. */
  lemma FormatDigits(u: Uuid)
    ensures RemoveHyphens(Format(u)) == Encode(u)
  {
    RemoveHyphensKeeps(Encode(u[..4]));
    AppendGroup(Encode(u[..4]), u[..4], u[4..6]);
    assert u[..4] + u[4..6] == u[..6];
    ExtendGroups(Encode(u[..4]) + [Hyphen] + Encode(u[4..6]), u);
  }

  /** The rest of FormatDigits, after the first two groups. */
  lemma ExtendGroups(x: seq<byte>, u: Uuid)
    requires RemoveHyphens(x) == Encode(u[..6])
    ensures RemoveHyphens(x + [Hyphen] + Encode(u[6..8]) + [Hyphen] + Encode(u[8..10]) + [Hyphen] + Encode(u[10..])) == Encode(u)
  {
    AppendGroup(x, u[..6], u[6..8]);
    assert u[..6] + u[6..8] == u[..8];
    var y := x + [Hyphen] + Encode(u[6..8]);
    AppendGroup(y, u[..8], u[8..10]);
    assert u[..8] + u[8..10] == u[..10];
    var z := y + [Hyphen] + Encode(u[8..10]);
    AppendGroup(z, u[..10], u[10..]);
    assert u[..10] + u[10..] == u;
  }

  /** A lone hyphen leaves nothing behind. */
  lemma HyphenRemoved()
    ensures RemoveHyphens([Hyphen]) == []
  {
    assert [Hyphen][1..] == [];
  }

  /** One step of FormatDigits: a hyphen and the next group of bytes. */
  lemma AppendGroup(x: seq<byte>, a: seq<byte>, b: seq<byte>)
    requires RemoveHyphens(x) == Encode(a)
    ensures RemoveHyphens(x + [Hyphen] + Encode(b)) == Encode(a + b)
  {
    var e := Encode(b);
    calc {
      RemoveHyphens(x + [Hyphen] + e);
      { RemoveHyphensConcat(x + [Hyphen], e); }
      RemoveHyphens(x + [Hyphen]) + RemoveHyphens(e);
      { RemoveHyphensConcat(x, [Hyphen]); HyphenRemoved(); }
      Encode(a) + RemoveHyphens(e);
      { RemoveHyphensKeeps(e); }
      Encode(a) + e;
      { EncodeConcat(a, b); }
      Encode(a + b);
    }
  }

  /** Parsing the text form gives back the UUID. */
  lemma ParseFormat(u: Uuid)
    ensures Parse(Format(u)) == Success(u)
  {
    FormatDigits(u);
    DecodeEncode(u);
    assert CopyInto(u) == u;
  }

  /** The hyphen-free spelling of the text form parses too. */
  lemma ParseEncoded(u: Uuid)
    ensures Parse(Encode(u)) == Success(u)
  {
    RemoveHyphensKeeps(Encode(u));
    DecodeEncode(u);
    assert CopyInto(u) == u;
  }

  /** A hyphen inserted anywhere does not change the outcome of parsing. */
  lemma ParseWithHyphenInserted(s: seq<byte>, k: nat)
    requires k <= |s|
    ensures Parse(s[..k] + [Hyphen] + s[k..]) == Parse(s)
  {
    calc {
      RemoveHyphens(s[..k] + [Hyphen] + s[k..]);
      { RemoveHyphensConcat(s[..k] + [Hyphen], s[k..]); }
      RemoveHyphens(s[..k] + [Hyphen]) + RemoveHyphens(s[k..]);
      { RemoveHyphensConcat(s[..k], [Hyphen]); HyphenRemoved(); }
      RemoveHyphens(s[..k]) + RemoveHyphens(s[k..]);
      { RemoveHyphensConcat(s[..k], s[k..]); assert s[..k] + s[k..] == s; }
      RemoveHyphens(s);
    }
  }

  /** a and b are the same bytes up to the case of ASCII letters. */
  predicate SameIgnoringCase(a: seq<byte>, b: seq<byte>) {
    |a| == |b| && forall i :: 0 <= i < |a| ==> ToLower(a[i]) == ToLower(b[i])
  }

  lemma {:induction false} RemoveHyphensIgnoresCase(a: seq<byte>, b: seq<byte>)
    requires SameIgnoringCase(a, b)
    ensures SameIgnoringCase(RemoveHyphens(a), RemoveHyphens(b))
  {
    if a != [] {
      assert ToLower(a[0]) == ToLower(b[0]);
      RemoveHyphensIgnoresCase(a[1..], b[1..]);
    }
  }

  /** Upper-case and lower-case spellings parse alike. */
  lemma ParseIgnoresCase(a: seq<byte>, b: seq<byte>)
    requires SameIgnoringCase(a, b)
    ensures Parse(a) == Parse(b)
  {
    var ta, tb := RemoveHyphens(a), RemoveHyphens(b);
    RemoveHyphensIgnoresCase(a, b);
    assert AllDigits(ta) <==> AllDigits(tb) by {
      assert forall i :: 0 <= i < |ta| ==> (IsDigit(ta[i]) <==> IsDigit(ToLower(ta[i])));
      assert forall i :: 0 <= i < |tb| ==> (IsDigit(tb[i]) <==> IsDigit(ToLower(tb[i])));
    }
    if |ta| == 32 && AllDigits(ta) {
      DecodeDigits(ta);
      DecodeDigits(tb);
      forall i | 0 <= i < 32
        ensures DigitValue(ta[i]) == DigitValue(tb[i])
      {
        DigitValueIgnoresCase(ta[i]);
        DigitValueIgnoresCase(tb[i]);
      }
      assert Decode(ta).value == Decode(tb).value;
    }
  }

  // ---------------------------------------------------------------------------
  // The zero value

  lemma {:induction false} EncodeZeros(n: nat)
    ensures Encode(seq(n, _ => 0)) == seq(2 * n, _ => 0x30)
  {
    if n > 0 {
      var z := seq(n, _ => 0 as byte);
      assert z[1..] == seq(n - 1, _ => 0);
      EncodeZeros(n - 1);
    }
  }

  /** The text form of the zero UUID is "00000000-0000-0000-0000-000000000000". */
  lemma FormatNil()
    ensures forall j :: 0 <= j < 36 ==> Format(Nil)[j] == if j in {8, 13, 18, 23} then Hyphen else 0x30
  {
    assert Nil[..4] == seq(4, _ => 0);
    assert Nil[4..6] == Nil[6..8] == Nil[8..10] == seq(2, _ => 0);
    assert Nil[10..] == seq(6, _ => 0);
    EncodeZeros(4);
    EncodeZeros(2);
    EncodeZeros(6);
  }
}
