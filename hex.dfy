/** The effect of Go's encoding/hex package as uuid.go uses it: lower-case
    encoding of a byte string (hex.EncodeToString) and case-insensitive
    decoding of one (hex.DecodeString).  Go strings are byte strings, so text
    is modelled as a sequence of bytes. */
module Hex {

  newtype byte = x: int | 0 <= x < 256

  /** A decoding failure of hex.DecodeString: the first byte that is not a
      hexadecimal digit (InvalidByteError), or an odd number of digits (ErrLength). */
  datatype DecodeError = InvalidByte(b: byte) | OddLength

  datatype Result<+T, +E> = Success(value: T) | Failure(error: E)

  /** A lower-case ASCII hexadecimal digit: 0-9, a-f. */
  predicate IsLowerDigit(c: byte) {
    0x30 <= c <= 0x39 || 0x61 <= c <= 0x66
  }

  /** An ASCII hexadecimal digit in either case: 0-9, a-f, A-F. */
  predicate IsDigit(c: byte) {
    IsLowerDigit(c) || 0x41 <= c <= 0x46
  }

  predicate AllDigits(t: seq<byte>) {
    forall i :: 0 <= i < |t| ==> IsDigit(t[i])
  }

  /** ASCII case folding: upper-case letters become lower-case, every other
      byte is kept. */
  function ToLower(c: byte): (r: byte)
    ensures IsDigit(c) <==> IsDigit(r)
    ensures IsDigit(c) ==> IsLowerDigit(r)
    ensures IsLowerDigit(c) ==> r == c
  {
    if 0x41 <= c <= 0x5a then c + 0x20 else c
  }

  /** The value of one hexadecimal digit. */
  function DigitValue(c: byte): (v: byte)
    requires IsDigit(c)
    ensures v < 16
  {
    if 0x30 <= c <= 0x39 then c - 0x30
    else if 0x61 <= c <= 0x66 then c - 0x61 + 10
    else c - 0x41 + 10
  }

  /** The lower-case digit of a value below 16 ("0123456789abcdef"). */
  function Digit(n: byte): (c: byte)
    requires n < 16
    ensures IsLowerDigit(c) && IsDigit(c)
    ensures DigitValue(c) == n
  {
    if n < 10 then 0x30 + n else 0x61 + (n - 10)
  }

  /** A digit has the same value in either case, and Digit gives back its
      lower-case spelling. */
  lemma DigitValueIgnoresCase(c: byte)
    requires IsDigit(c)
    ensures DigitValue(ToLower(c)) == DigitValue(c)
    ensures Digit(DigitValue(c)) == ToLower(c)
  {
  }

  /** Two digits, most significant first. */
  function Pair(hi: byte, lo: byte): (b: byte)
    requires IsDigit(hi) && IsDigit(lo)
    ensures b / 16 == DigitValue(hi) && b % 16 == DigitValue(lo)
  {
    DigitValue(hi) * 16 + DigitValue(lo)
  }

  /** hex.EncodeToString: two lower-case digits per byte, high nibble first
      (the nibbles v >> 4 and v & 0x0f of a byte v are v / 16 and v % 16). */
  function Encode(bs: seq<byte>): (s: seq<byte>)
    ensures |s| == 2 * |bs|
    ensures forall j :: 0 <= j < |s| ==> IsLowerDigit(s[j])
  {
    if bs == [] then [] else [Digit(bs[0] / 16), Digit(bs[0] % 16)] + Encode(bs[1..])
  }

  /** Character 2i of the encoding is the digit of the high nibble of byte i,
      character 2i+1 that of its low nibble. */
  lemma {:induction false} EncodeDigits(bs: seq<byte>)
    ensures forall i :: 0 <= i < |bs| ==> Encode(bs)[2 * i] == Digit(bs[i] / 16) && Encode(bs)[2 * i + 1] == Digit(bs[i] % 16)
  {
    if bs != [] {
      EncodeDigits(bs[1..]);
      var s, rest := Encode(bs), Encode(bs[1..]);
      assert forall i :: 1 <= i < |bs| ==> s[2 * i] == rest[2 * (i - 1)] && s[2 * i + 1] == rest[2 * (i - 1) + 1];
    }
  }

  lemma {:induction false} EncodeConcat(a: seq<byte>, b: seq<byte>)
    ensures Encode(a + b) == Encode(a) + Encode(b)
  {
    if a == [] {
      assert a + b == b;
    } else {
      assert (a + b)[1..] == a[1..] + b;
      EncodeConcat(a[1..], b);
    }
  }

  /** hex.DecodeString: pairs of digits are decoded left to right; the first
      non-digit met in a pair is reported, and a final unpaired byte is reported
      as an invalid byte when it is not a digit and as an odd length otherwise. */
  function Decode(t: seq<byte>): (r: Result<seq<byte>, DecodeError>)
    ensures r.Success? ==> 2 * |r.value| == |t|
    ensures r == Failure(OddLength) ==> |t| % 2 == 1
    ensures r.Failure? && r.error.InvalidByte? ==> r.error.b in t && !IsDigit(r.error.b)
  {
    if |t| == 0 then Success([])
    else if |t| == 1 then
      if IsDigit(t[0]) then Failure(OddLength) else Failure(InvalidByte(t[0]))
    else if !IsDigit(t[0]) then Failure(InvalidByte(t[0]))
    else if !IsDigit(t[1]) then Failure(InvalidByte(t[1]))
    else
      match Decode(t[2..])
      case Failure(e) => Failure(e)
      case Success(rest) => Success([Pair(t[0], t[1])] + rest)
  }

  /** An even number of digits always decodes, byte i from digits 2i and 2i+1. */
  lemma {:induction false} DecodeDigits(t: seq<byte>)
    requires |t| % 2 == 0 && AllDigits(t)
    ensures Decode(t).Success?
    ensures |Decode(t).value| * 2 == |t|
    ensures forall i :: 0 <= i < |t| / 2 ==> Decode(t).value[i] == Pair(t[2 * i], t[2 * i + 1])
  {
    if |t| > 0 {
      DecodeDigits(t[2..]);
      var rest := Decode(t[2..]).value;
      assert forall i :: 1 <= i < |t| / 2 ==> t[2 * i] == t[2..][2 * (i - 1)] && t[2 * i + 1] == t[2..][2 * (i - 1) + 1];
      assert forall i :: 1 <= i < |t| / 2 ==> Decode(t).value[i] == rest[i - 1];
    }
  }

  /** Anything that is not an even number of digits fails to decode. */
  lemma {:induction false} DecodeFails(t: seq<byte>)
    requires |t| % 2 == 1 || !AllDigits(t)
    ensures Decode(t).Failure?
  {
    if |t| >= 2 && IsDigit(t[0]) && IsDigit(t[1]) {
      assert !AllDigits(t) ==> !AllDigits(t[2..]) by {
        if !AllDigits(t) {
          var k :| 0 <= k < |t| && !IsDigit(t[k]);
          assert t[2..][k - 2] == t[k];
        }
      }
      DecodeFails(t[2..]);
    }
  }

  /** Decoding undoes encoding. */
  lemma {:induction false} DecodeEncode(bs: seq<byte>)
    ensures Decode(Encode(bs)) == Success(bs)
  {
    if bs != [] {
      var s := Encode(bs);
      assert s[2..] == Encode(bs[1..]);
      DecodeEncode(bs[1..]);
      assert Pair(s[0], s[1]) == bs[0];
      assert [bs[0]] + bs[1..] == bs;
    }
  }
}
