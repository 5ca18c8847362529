/** The `<cctype>` classifications the parser relies on, in the "C" locale. */
module CharClasses {

  /** `std::isspace`: space, horizontal tab, newline, vertical tab, form feed and
      carriage return (0x20 and 0x09-0x0D). */
  predicate IsSpace(c: char) {
    c == ' ' || (9 as char <= c <= 13 as char)
  }

  /** `std::isdigit`. */
  predicate IsDigit(c: char) {
    '0' <= c <= '9'
  }

  /** `std::isalpha`. */
  predicate IsAlpha(c: char) {
    ('a' <= c <= 'z') || ('A' <= c <= 'Z')
  }

  /** A digit of base 16, either case. */
  predicate IsHexDigit(c: char) {
    IsDigit(c) || ('a' <= c <= 'f') || ('A' <= c <= 'F')
  }

  function HexDigitValue(c: char): (d: nat)
    requires IsHexDigit(c)
    ensures d < 16
  {
    if IsDigit(c) then c as nat - '0' as nat
    else if 'a' <= c <= 'f' then c as nat - 'a' as nat + 10
    else c as nat - 'A' as nat + 10
  }

  /** The end of the run of `IsSpace` characters starting at `i`: the loop of
      `JsonParser::skipWhitespace` (jsonparser.cpp:48-54) and the leading-space skip
      of `strtoul`. */
  function SpaceRunEnd(s: string, i: nat): (j: nat)
    requires i <= |s|
    ensures i <= j <= |s|
    ensures j == |s| || !IsSpace(s[j])
    decreases |s| - i
  {
    if i < |s| && IsSpace(s[i]) then SpaceRunEnd(s, i + 1) else i
  }

  /** Everything the white-space run passes over is white space. */
  lemma {:induction false} SpaceRunAllSpace(s: string, i: nat)
    requires i <= |s|
    ensures forall k | i <= k < SpaceRunEnd(s, i) :: IsSpace(s[k])
    decreases |s| - i
  {
    if i < |s| && IsSpace(s[i]) {
      SpaceRunAllSpace(s, i + 1);
    }
  }
}
