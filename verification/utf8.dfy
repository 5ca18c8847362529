/** The `\uXXXX` escape of `JsonParser::parseString`: `std::stoul(hex, nullptr, 16)`
    on the four characters after `\u`, the cast to `uint32_t`, and
    `JsonParser::decodeUnicode` (jsonparser.cpp:214-235), which writes the code point
    as UTF-8 (section 3 of RFC 3629). */
module UnicodeEscape {
  import opened Wrappers
  import opened CharClasses

  /** 2^64: `unsigned long` arithmetic wraps modulo this. */
  const UlongModulus: nat := 0x1_0000_0000_0000_0000
  /** 2^32: `static_cast<uint32_t>` keeps the value modulo this. */
  const Uint32Modulus: nat := 0x1_0000_0000

  /** The end of the run of hexadecimal digits starting at `i`. */
  function HexRunEnd(t: string, i: nat): (j: nat)
    requires i <= |t|
    ensures i <= j <= |t|
    ensures j == |t| || !IsHexDigit(t[j])
    decreases |t| - i
  {
    if i < |t| && IsHexDigit(t[i]) then HexRunEnd(t, i + 1) else i
  }

  lemma {:induction false} HexRunAllHex(t: string, i: nat)
    requires i <= |t|
    ensures AllHex(t[i..HexRunEnd(t, i)])
    decreases |t| - i
  {
    if i < |t| && IsHexDigit(t[i]) {
      HexRunAllHex(t, i + 1);
      assert forall k | 0 < k < HexRunEnd(t, i) - i :: t[i..HexRunEnd(t, i)][k] == t[i + 1..HexRunEnd(t, i + 1)][k - 1];
    }
  }

  predicate AllHex(t: string) {
    forall k | 0 <= k < |t| :: IsHexDigit(t[k])
  }

  /** The value of a string of hexadecimal digits, most significant first. */
  function HexNumber(t: string): (n: nat)
    requires AllHex(t)
    ensures n < Pow16(|t|)
    decreases |t|
  {
    if |t| == 0 then 0 else 16 * HexNumber(t[..|t| - 1]) + HexDigitValue(t[|t| - 1])
  }

  function Pow16(n: nat): nat {
    if n == 0 then 1 else 16 * Pow16(n - 1)
  }

  /** `std::stoul(t, nullptr, 16)` as glibc's `strtoul` computes it: leading white
      space is skipped, one `+` or `-` is accepted, a `0x`/`0X` prefix is skipped
      when a hexadecimal digit follows it, then the longest run of hexadecimal digits
      is read and anything after it is ignored. No digit at all raises
      `std::invalid_argument("stoul")`, a magnitude beyond `unsigned long` raises
      `std::out_of_range("stoul")`, and a minus sign negates modulo 2^64. */
  function Stoul16(t: string): Result<nat> {
    var c := Stoul16Start(t);
    var e := HexRunEnd(t, c);
    if e == c then Failure("stoul")
    else
      HexRunAllHex(t, c);
      Stoul16Value(Stoul16Negative(t), HexNumber(t[c..e]))
  }

  /** Where `Stoul16` finds its digits: after the white space, the sign and a `0x`
      prefix that has a digit after it. */
  function Stoul16Start(t: string): (c: nat)
    ensures c <= |t|
  {
    var a := SpaceRunEnd(t, 0);
    var b := if a < |t| && (t[a] == '+' || t[a] == '-') then a + 1 else a;
    if b + 2 < |t| && t[b] == '0' && (t[b + 1] == 'x' || t[b + 1] == 'X') && IsHexDigit(t[b + 2])
    then b + 2 else b
  }

  /** Whether the sign after the white space is `-`. */
  predicate Stoul16Negative(t: string) {
    var a := SpaceRunEnd(t, 0);
    a < |t| && t[a] == '-'
  }

  /** The result for the digits read: out of range beyond `unsigned long`, and
      negated modulo 2^64 after a `-`. */
  function Stoul16Value(negative: bool, magnitude: nat): Result<nat> {
    if magnitude >= UlongModulus then Failure("stoul")
    else if negative then Success((UlongModulus - magnitude) % UlongModulus)
    else Success(magnitude)
  }

  /** The conversion stays within `unsigned long`; four hexadecimal digits read as
      their value; and at most four characters of any kind give either a value below
      2^16 or a small magnitude negated modulo 2^64. */
  lemma Stoul16Spec(t: string)
    ensures Stoul16(t).Success? ==> Stoul16(t).value < UlongModulus
    ensures AllHex(t) && 0 < |t| <= 4 ==> Stoul16(t) == Success(HexNumber(t))
    ensures Stoul16(t).Success? && |t| <= 4 ==>
      Stoul16(t).value < 0x10000 || Stoul16(t).value >= UlongModulus - 0x10000
  {
    var c := Stoul16Start(t);
    var e := HexRunEnd(t, c);
    if e > c {
      HexRunAllHex(t, c);
      var magnitude := HexNumber(t[c..e]);
      if AllHex(t) && |t| > 0 {
        assert c == 0 && e == |t| && t[c..e] == t;
      }
      if |t| <= 4 {
        Pow16Monotone(|t[c..e]|, 4);
        assert Pow16(4) == 0x10000;
        SmallValue(Stoul16Negative(t), magnitude);
      }
    }
  }

  /** A magnitude below 2^16 converts, to itself or, negated, to zero or a value
      near 2^64. */
  lemma SmallValue(negative: bool, magnitude: nat)
    requires magnitude < 0x10000
    ensures Stoul16Value(negative, magnitude).Success?
    ensures var v := Stoul16Value(negative, magnitude).value;
      v < 0x10000 || v >= UlongModulus - 0x10000
  {
  }

  lemma {:induction false} Pow16Monotone(m: nat, n: nat)
    requires m <= n
    ensures Pow16(m) <= Pow16(n)
    decreases n
  {
    if m < n {
      Pow16Monotone(m, n - 1);
    }
  }

  /** A byte of a `std::string`, as the unsigned value of its `char`. */
  type Byte = b: nat | b < 0x100

  /** `decodeUnicode` after the conversion: the UTF-8 bytes of code point `cp`. The
      source builds each byte as `tag | bits`; the payload bits never overlap the tag
      in the range of each branch, so the OR is an addition: `0xC0 | (cp >> 6)` is
      `0xC0 + cp / 64`, `0x80 | (cp & 0x3F)` is `0x80 + cp % 64`, and so on.
      The leading byte carries the tag 0xxxxxxx, 110xxxxx, 1110xxxx or 11110xxx (the
      ranges below 0x80, 0xC0-0xDF, 0xE0-0xEF, 0xF0-0xF7) for one, two, three or four
      bytes, every further byte carries 10xxxxxx (0x80-0xBF), and the byte count is
      the smallest the code point fits in. Beyond U+10FFFF it fails. */
  function Utf8Encode(cp: nat): Result<seq<Byte>>
  {
    if cp <= 0x7F then
      Success([cp])
    else if cp <= 0x7FF then
      Success([0xC0 + cp / 64, 0x80 + cp % 64])
    else if cp <= 0xFFFF then
      Success([0xE0 + cp / 4096, 0x80 + (cp / 64) % 64, 0x80 + cp % 64])
    else if cp <= 0x10FFFF then
      Success([0xF0 + cp / 262144, 0x80 + (cp / 4096) % 64, 0x80 + (cp / 64) % 64, 0x80 + cp % 64])
    else
      Failure("Unicode codepoint out of range")
  }

  /** The shape of the encoding, byte by byte. */
  lemma Utf8EncodeSpec(cp: nat)
    ensures Utf8Encode(cp).Success? <==> cp <= 0x10FFFF
    ensures Utf8Encode(cp).Success? ==> |Utf8Encode(cp).value| == Utf8Length(cp)
    ensures var r := Utf8Encode(cp);
      r.Success? ==>
        && (|r.value| == 1 ==> r.value[0] < 0x80)
        && (|r.value| == 2 ==> 0xC0 <= r.value[0] < 0xE0)
        && (|r.value| == 3 ==> 0xE0 <= r.value[0] < 0xF0)
        && (|r.value| == 4 ==> 0xF0 <= r.value[0] < 0xF8)
        && (forall k | 1 <= k < |r.value| :: IsContinuation(r.value[k]))
  {
  }

  /** The UTF-8 length class of a code point: ranges end at 0x7F, 0x7FF and 0xFFFF. */
  function Utf8Length(cp: nat): nat {
    if cp <= 0x7F then 1 else if cp <= 0x7FF then 2 else if cp <= 0xFFFF then 3 else 4
  }

  /** The tag 10xxxxxx of a continuation byte. */
  predicate IsContinuation(b: Byte) {
    0x80 <= b < 0xC0
  }

  /** A UTF-8 reader for one encoded code point: it checks the tags and collects the
      payload bits. It does not reject surrogates or overlong forms. */
  function Utf8Decode(bs: seq<Byte>): Option<nat> {
    if |bs| == 1 && bs[0] < 0x80 then
      Some(bs[0] as nat)
    else if |bs| == 2 && 0xC0 <= bs[0] < 0xE0 && IsContinuation(bs[1]) then
      Some((bs[0] as int - 0xC0) * 64 + (bs[1] as int - 0x80))
    else if |bs| == 3 && 0xE0 <= bs[0] < 0xF0 && IsContinuation(bs[1]) && IsContinuation(bs[2]) then
      Some((bs[0] as int - 0xE0) * 4096 + (bs[1] as int - 0x80) * 64 + (bs[2] as int - 0x80))
    else if |bs| == 4 && 0xF0 <= bs[0] < 0xF8 && IsContinuation(bs[1]) && IsContinuation(bs[2])
            && IsContinuation(bs[3]) then
      Some((bs[0] as int - 0xF0) * 262144 + (bs[1] as int - 0x80) * 4096 + (bs[2] as int - 0x80) * 64 + (bs[3] as int - 0x80))
    else
      None
  }

  /** Reading back what `decodeUnicode` wrote gives the code point again. */
  lemma Utf8RoundTrip(cp: nat)
    requires cp <= 0x10FFFF
    ensures Utf8Decode(Utf8Encode(cp).value) == Some(cp)
  {
    if cp <= 0x7F {
    } else if cp <= 0x7FF {
      assert (cp / 64) * 64 + cp % 64 == cp;
    } else if cp <= 0xFFFF {
      DigitsOfSixteenBits(cp);
    } else {
      DigitsOfTwentyOneBits(cp);
    }
  }

  lemma DigitsOfSixteenBits(cp: nat)
    requires cp <= 0xFFFF
    ensures (cp / 4096) * 4096 + ((cp / 64) % 64) * 64 + cp % 64 == cp
  {
    var q := cp / 64;
    assert q * 64 + cp % 64 == cp;
    assert (q / 64) * 64 + q % 64 == q;
    assert q / 64 == cp / 4096;
  }

  lemma DigitsOfTwentyOneBits(cp: nat)
    requires cp <= 0x10FFFF
    ensures (cp / 262144) * 262144 + ((cp / 4096) % 64) * 4096 + ((cp / 64) % 64) * 64 + cp % 64 == cp
  {
    var q := cp / 64;
    var q2 := q / 64;
    assert q * 64 + cp % 64 == cp;
    assert q2 * 64 + q % 64 == q;
    assert (q2 / 64) * 64 + q2 % 64 == q2;
    assert q2 == cp / 4096;
    assert q2 / 64 == cp / 262144;
  }

  /** A byte as the `char` that holds it in a `std::string`. */
  function ByteChar(b: Byte): char {
    b as char
  }

  /** The bytes appended to a `std::string`, one `char` each. */
  function BytesToString(bs: seq<Byte>): string {
    seq(|bs|, k requires 0 <= k < |bs| => ByteChar(bs[k]))
  }

  /** `decodeUnicode(hex)` with its `stoul`: the characters appended to the string for
      one `\uXXXX` escape. */
  function DecodeUnicode(hex: string): Result<string> {
    match Stoul16(hex)
    case Failure(e) => Failure(e)
    case Success(v) =>
      var cp := ToUint32(v);
      match Utf8Encode(cp)
      case Failure(e) => Failure(e)
      case Success(bytes) => Success(BytesToString(bytes))
  }

  /** A proper escape (four hexadecimal digits) always succeeds with the UTF-8 of its
      value; whatever the four characters, the decoded code point never exceeds
      U+FFFF, so at most three bytes come out and a surrogate half is written on its
      own. */
  lemma DecodeUnicodeSpec(hex: string)
    ensures AllHex(hex) && |hex| == 4 ==>
      && DecodeUnicode(hex).Success?
      && Utf8Encode(HexNumber(hex)).Success?
      && DecodeUnicode(hex).value == BytesToString(Utf8Encode(HexNumber(hex)).value)
    ensures |hex| == 4 && DecodeUnicode(hex).Success? ==> 1 <= |DecodeUnicode(hex).value| <= 3
  {
    Stoul16Spec(hex);
    if Stoul16(hex).Success? {
      var v := Stoul16(hex).value;
      ToUint32Spec(v);
      Utf8EncodeSpec(ToUint32(v));
    }
  }

  /** `static_cast<uint32_t>` of an `unsigned long`. */
  function ToUint32(v: nat): nat {
    v % Uint32Modulus
  }

  /** A value below 2^16 is kept; a small magnitude negated modulo 2^64 stays far
      above U+10FFFF. */
  lemma ToUint32Spec(v: nat)
    ensures ToUint32(v) < Uint32Modulus
    ensures v < 0x10000 ==> ToUint32(v) == v
    ensures UlongModulus - 0x10000 <= v < UlongModulus ==> ToUint32(v) >= Uint32Modulus - 0x10000
  {
    if UlongModulus - 0x10000 <= v < UlongModulus {
      var high := 0xFFFF_FFFF;
      assert v == high * Uint32Modulus + (v - high * Uint32Modulus);
    }
  }
}
