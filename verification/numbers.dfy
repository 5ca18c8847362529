/** Number lexing of `JsonParser::parseNumber` (jsonparser.cpp:192-211): the run of
    characters it collects, and how much of that run `std::stod` converts. The
    conversion to a `double` itself is not modelled; see `JsonValues.Num`. */
module NumberLexing {
  import opened CharClasses

  /** The characters `parseNumber` keeps reading: digits, `.`, `e`, `E`, `+`, `-`. */
  predicate IsNumberChar(c: char) {
    IsDigit(c) || c == '.' || c == 'e' || c == 'E' || c == '+' || c == '-'
  }

  predicate IsSign(c: char) {
    c == '+' || c == '-'
  }

  predicate IsExponentMark(c: char) {
    c == 'e' || c == 'E'
  }

  predicate HasDigit(t: string) {
    exists k | 0 <= k < |t| :: IsDigit(t[k])
  }

  /** `parseNumber`'s `hasDigit` flag once the characters from `i` on are read. */
  predicate DigitFrom(t: string, i: nat)
    requires i <= |t|
    decreases |t| - i
  {
    i < |t| && (IsDigit(t[i]) || DigitFrom(t, i + 1))
  }

  /** The flag is set exactly when a digit occurs from `i` on. */
  lemma {:induction false} DigitFromIff(t: string, i: nat)
    requires i <= |t|
    ensures DigitFrom(t, i) <==> exists k | i <= k < |t| :: IsDigit(t[k])
    decreases |t| - i
  {
    if i < |t| {
      DigitFromIff(t, i + 1);
      if !IsDigit(t[i]) && !DigitFrom(t, i + 1) {
        assert forall k | i <= k < |t| :: !IsDigit(t[k]) by {
          forall k | i <= k < |t| ensures !IsDigit(t[k]) {
            if k > i {}
          }
        }
      }
    }
  }

  predicate AllDigits(t: string) {
    forall k | 0 <= k < |t| :: IsDigit(t[k])
  }

  /** The end of the run of number characters starting at `i`. */
  function NumberRunEnd(s: string, i: nat): (j: nat)
    requires i <= |s|
    ensures i <= j <= |s|
    ensures j == |s| || !IsNumberChar(s[j])
    decreases |s| - i
  {
    if i < |s| && IsNumberChar(s[i]) then NumberRunEnd(s, i + 1) else i
  }

  lemma {:induction false} NumberRunAllNumberChars(s: string, i: nat)
    requires i <= |s|
    ensures forall k | i <= k < NumberRunEnd(s, i) :: IsNumberChar(s[k])
    decreases |s| - i
  {
    if i < |s| && IsNumberChar(s[i]) {
      NumberRunAllNumberChars(s, i + 1);
    }
  }

  /** The end of the run of decimal digits starting at `i`. */
  function DigitRunEnd(s: string, i: nat): (j: nat)
    requires i <= |s|
    ensures i <= j <= |s|
    ensures j == |s| || !IsDigit(s[j])
    decreases |s| - i
  {
    if i < |s| && IsDigit(s[i]) then DigitRunEnd(s, i + 1) else i
  }

  lemma {:induction false} DigitRunAllDigits(s: string, i: nat)
    requires i <= |s|
    ensures forall k | i <= k < DigitRunEnd(s, i) :: IsDigit(s[k])
    decreases |s| - i
  {
    if i < |s| && IsDigit(s[i]) {
      DigitRunAllDigits(s, i + 1);
    }
  }

  /** A run of digits is determined by where it starts. */
  lemma {:induction false} DigitRunIs(s: string, i: nat, j: nat)
    requires i <= j <= |s|
    requires forall k | i <= k < j :: IsDigit(s[k])
    requires j == |s| || !IsDigit(s[j])
    ensures DigitRunEnd(s, i) == j
    decreases j - i
  {
    if i < j {
      DigitRunIs(s, i + 1, j);
    }
  }

  // ---------------------------------------------------------------------------
  // What `std::stod` reads: the decimal form of glibc's `strtod`. On the number
  // alphabet the hexadecimal, infinity and NaN forms cannot occur (they need `x`,
  // `i` or `n`), and there is no leading white space.

  /** The end of the mantissa of `t`: digits, then optionally `.` and more digits. */
  function MantissaEnd(t: string): (m: nat)
    ensures m <= |t|
  {
    var d := DigitRunEnd(t, 0);
    if d < |t| && t[d] == '.' then DigitRunEnd(t, d + 1) else d
  }

  /** How many digits the mantissa of `t` holds. */
  function MantissaDigits(t: string): nat {
    var d := DigitRunEnd(t, 0);
    if d < |t| && t[d] == '.' then d + (DigitRunEnd(t, d + 1) - d - 1) else d
  }

  /** The end of the number once the mantissa ends at `m`: an exponent mark, an
      optional sign and at least one digit are taken together or not at all. */
  function ExponentEnd(t: string, m: nat): (e: nat)
    requires m <= |t|
    ensures m <= e <= |t|
  {
    if m < |t| && IsExponentMark(t[m]) then
      var b := if m + 1 < |t| && IsSign(t[m + 1]) then m + 2 else m + 1;
      var f := DigitRunEnd(t, b);
      if f > b then f else m
    else m
  }

  /** How many characters of `s` `strtod` consumes; 0 means no conversion, which
      `std::stod` reports by throwing `std::invalid_argument`. */
  function StrtodLength(s: string): (n: nat)
    ensures n <= |s|
  {
    var a := if 0 < |s| && IsSign(s[0]) then 1 else 0;
    var body := s[a..];
    if MantissaDigits(body) == 0 then 0 else a + ExponentEnd(body, MantissaEnd(body))
  }

  // ---------------------------------------------------------------------------
  // The same language, stated as a shape rather than as a scan.

  /** The index of the first exponent mark, or the length when there is none. */
  function ExponentStart(t: string): (e: nat)
    ensures e <= |t|
    ensures forall k | 0 <= k < e :: !IsExponentMark(t[k])
    ensures e == |t| || IsExponentMark(t[e])
    decreases |t|
  {
    if |t| == 0 then 0
    else if IsExponentMark(t[0]) then 0
    else 1 + ExponentStart(t[1..])
  }

  /** Digits with at most one decimal point, and at least one digit. */
  predicate MantissaShape(t: string) {
    && HasDigit(t)
    && (forall k | 0 <= k < |t| :: IsDigit(t[k]) || t[k] == '.')
    && (forall i, j | 0 <= i < j < |t| && t[i] == '.' :: t[j] != '.')
  }

  /** An exponent mark, an optional sign, and at least one digit. */
  predicate ExponentShape(t: string) {
    && |t| >= 2
    && IsExponentMark(t[0])
    && var digits := if IsSign(t[1]) then t[2..] else t[1..];
       |digits| > 0 && AllDigits(digits)
  }

  /** An optional sign, a mantissa, and an optional exponent. */
  predicate DecimalLiteral(s: string) {
    var body := if 0 < |s| && IsSign(s[0]) then s[1..] else s;
    var e := ExponentStart(body);
    MantissaShape(body[..e]) && (e == |body| || ExponentShape(body[e..]))
  }

  /** `stod` converts the whole of `s` exactly when `s` is a decimal literal. So the
      check `idx != num.size()` of `parseNumber` rejects precisely the lexemes that
      are not of this shape. */
  lemma {:induction false} StrtodWholeIff(s: string)
    ensures (0 < StrtodLength(s) == |s|) <==> DecimalLiteral(s)
  {
    var a := if 0 < |s| && IsSign(s[0]) then 1 else 0;
    var body := s[a..];
    assert body == if 0 < |s| && IsSign(s[0]) then s[1..] else s;
    if 0 < StrtodLength(s) == |s| {
      WholeScanIsLiteral(body);
    }
    if DecimalLiteral(s) {
      LiteralIsWholeScan(body);
    }
  }

  lemma WholeScanIsLiteral(t: string)
    requires MantissaDigits(t) > 0
    requires ExponentEnd(t, MantissaEnd(t)) == |t|
    ensures MantissaShape(t[..ExponentStart(t)])
    ensures ExponentStart(t) == |t| || ExponentShape(t[ExponentStart(t)..])
  {
    var m := MantissaEnd(t);
    ExponentStartFromScan(t);
    MantissaFromScan(t);
    if m < |t| {
      ExponentFromScan(t, m);
    }
  }

  /** No exponent mark occurs inside the scanned mantissa, and one follows it unless
      the text ends there. */
  lemma ExponentStartFromScan(t: string)
    requires ExponentEnd(t, MantissaEnd(t)) == |t|
    ensures ExponentStart(t) == MantissaEnd(t)
  {
    var d := DigitRunEnd(t, 0);
    var m := MantissaEnd(t);
    DigitRunAllDigits(t, 0);
    if d < |t| && t[d] == '.' {
      DigitRunAllDigits(t, d + 1);
    }
    assert forall k | 0 <= k < m :: IsDigit(t[k]) || t[k] == '.';
    ExponentStartIs(t, m);
  }

  /** The first exponent mark is where `ExponentStart` says. */
  lemma ExponentStartIs(t: string, e: nat)
    requires e <= |t|
    requires forall k | 0 <= k < e :: !IsExponentMark(t[k])
    requires e == |t| || IsExponentMark(t[e])
    ensures ExponentStart(t) == e
  {
  }

  /** The scanned mantissa has the mantissa shape. */
  lemma MantissaFromScan(t: string)
    requires MantissaDigits(t) > 0
    ensures MantissaShape(t[..MantissaEnd(t)])
  {
    var d := DigitRunEnd(t, 0);
    var m := MantissaEnd(t);
    var dot := d < |t| && t[d] == '.';
    var mant := t[..m];
    DigitRunAllDigits(t, 0);
    if dot {
      DigitRunAllDigits(t, d + 1);
    }
    forall k | 0 <= k < m
      ensures IsDigit(mant[k]) || (dot && k == d && mant[k] == '.')
    {
    }
    forall i, j | 0 <= i < j < m && mant[i] == '.'
      ensures mant[j] != '.'
    {
      assert dot && i == d;
    }
    if d > 0 {
      assert IsDigit(mant[0]);
    } else {
      assert dot && IsDigit(mant[d + 1]);
    }
  }

  lemma LiteralIsWholeScan(t: string)
    requires MantissaShape(t[..ExponentStart(t)])
    requires ExponentStart(t) == |t| || ExponentShape(t[ExponentStart(t)..])
    ensures MantissaDigits(t) > 0
    ensures MantissaEnd(t) == ExponentStart(t)
    ensures ExponentEnd(t, MantissaEnd(t)) == |t|
  {
    var e := ExponentStart(t);
    MantissaToScan(t, e);
    if e < |t| {
      ExponentToScan(t, e);
    }
  }

  /** A prefix of mantissa shape, followed by an exponent mark or nothing, is what
      the scan takes as the mantissa. */
  lemma MantissaToScan(t: string, e: nat)
    requires e <= |t| && MantissaShape(t[..e])
    requires e == |t| || IsExponentMark(t[e])
    ensures MantissaDigits(t) > 0 && MantissaEnd(t) == e
  {
    var mant := t[..e];
    assert forall k | 0 <= k < e :: mant[k] == t[k];
    if p :| 0 <= p < e && t[p] == '.' {
      PointMantissaToScan(t, e, p);
    } else {
      DigitRunIs(t, 0, e);
      var w :| 0 <= w < |mant| && IsDigit(mant[w]);
    }
  }

  lemma PointMantissaToScan(t: string, e: nat, p: nat)
    requires p < e <= |t| && MantissaShape(t[..e]) && t[p] == '.'
    requires e == |t| || IsExponentMark(t[e])
    ensures MantissaDigits(t) > 0 && MantissaEnd(t) == e
  {
    var mant := t[..e];
    assert mant[p] == t[p];
    assert forall k | 0 <= k < e && k != p :: IsDigit(t[k]) by {
      forall k | 0 <= k < e && k != p
        ensures IsDigit(t[k])
      {
        assert mant[k] == t[k];
      }
    }
    DigitRunIs(t, 0, p);
    DigitRunIs(t, p + 1, e);
    var w :| 0 <= w < |mant| && IsDigit(mant[w]);
    assert w != p;
  }

  /** An exponent the scan takes whole has the exponent shape. */
  lemma ExponentFromScan(t: string, m: nat)
    requires m < |t|
    requires ExponentEnd(t, m) == |t|
    ensures ExponentShape(t[m..])
  {
    var b := if m + 1 < |t| && IsSign(t[m + 1]) then m + 2 else m + 1;
    var x := t[m..];
    assert x[1] == t[m + 1];
    var digits := if IsSign(x[1]) then x[2..] else x[1..];
    assert digits == t[b..];
    DigitRunAllDigits(t, b);
    forall k | 0 <= k < |digits|
      ensures IsDigit(digits[k])
    {
      assert digits[k] == t[b + k];
    }
  }

  /** A tail of exponent shape is taken whole by the scan. */
  lemma ExponentToScan(t: string, m: nat)
    requires m < |t|
    requires ExponentShape(t[m..])
    ensures ExponentEnd(t, m) == |t|
  {
    var x := t[m..];
    var b := if m + 1 < |t| && IsSign(t[m + 1]) then m + 2 else m + 1;
    assert x[1] == t[m + 1];
    var digits := if IsSign(x[1]) then x[2..] else x[1..];
    assert digits == t[b..];
    forall k | b <= k < |t|
      ensures IsDigit(t[k])
    {
      assert t[k] == digits[k - b];
    }
    DigitRunIs(t, b, |t|);
  }
}
