/** `JsonParser::currentPos` (jsonparser.cpp:21-28): the 1-based line and column of
    an offset into the source text, used in the "Expected ':'" diagnostic. */
module Positions {

  /** `JsonParser::Pos`; `size_t` fields, so never negative. */
  datatype Pos = Pos(line: nat, col: nat)

  /** One iteration of the scanning loop: a newline starts a new line at column 1,
      any other character moves one column right. */
  function Advance(p: Pos, c: char): Pos {
    if c == '\n' then Pos(p.line + 1, 1) else Pos(p.line, p.col + 1)
  }

  /** The loop, run over `text` from position `p`. */
  function Scan(text: string, p: Pos): Pos
    decreases |text|
  {
    if |text| == 0 then p else Scan(text[1..], Advance(p, text[0]))
  }

  /** Scanning one more character is one more step. */
  lemma {:induction false} ScanSnoc(text: string, c: char, p: Pos)
    ensures Scan(text + [c], p) == Advance(Scan(text, p), c)
    decreases |text|
  {
    if |text| == 0 {
      assert [c][1..] == [];
    } else {
      assert (text + [c])[1..] == text[1..] + [c];
      ScanSnoc(text[1..], c, Advance(p, text[0]));
    }
  }

  /** What a scan from (1,1) computes: the line is one more than the number of
      newlines, and the column is one more than the length of the text after the
      last newline. */
  predicate DescribesEnd(text: string, p: Pos) {
    && p.line == 1 + multiset(text)['\n']
    && 1 <= p.col <= |text| + 1
    && (forall k | |text| - (p.col - 1) <= k < |text| :: text[k] != '\n')
    && (p.col - 1 == |text| || text[|text| - p.col] == '\n')
  }

  lemma {:induction false} ScanFromStart(text: string)
    ensures DescribesEnd(text, Scan(text, Pos(1, 1)))
    decreases |text|
  {
    if |text| > 0 {
      var n := |text|;
      var init := text[..n - 1];
      var c := text[n - 1];
      assert text == init + [c];
      ScanFromStart(init);
      ScanSnoc(init, c, Pos(1, 1));
      assert multiset(text) == multiset(init) + multiset{c};
    }
  }

  /** `currentPos(src, idx)`: scans the first `min(idx, |src|)` characters. An offset
      past the end (the caller passes `size_t(-2)` after a failed read) is clamped. */
  function CurrentPos(src: string, idx: nat): Pos {
    Scan(if idx < |src| then src[..idx] else src, Pos(1, 1))
  }

  /** The line is one more than the number of newlines before the offset, and the
      column one more than the number of characters since the last of them. */
  lemma CurrentPosDescribes(src: string, idx: nat)
    ensures idx <= |src| ==> DescribesEnd(src[..idx], CurrentPos(src, idx))
    ensures idx > |src| ==> DescribesEnd(src, CurrentPos(src, idx))
  {
    assert idx >= |src| ==> src[..|src|] == src;
    ScanFromStart(if idx < |src| then src[..idx] else src);
  }

  /** The clamp: every offset at or past the end reports the end of the text. */
  lemma {:induction false} CurrentPosClamps(src: string, idx: nat)
    requires idx >= |src|
    ensures CurrentPos(src, idx) == CurrentPos(src, |src|)
  {
    assert src[..|src|] == src;
  }

  /** `std::to_string` on a `size_t`: decimal digits, no sign. */
  function NatToString(n: nat): (s: string)
    ensures |s| > 0
    decreases n
  {
    if n < 10 then [DigitChar(n)] else NatToString(n / 10) + [DigitChar(n % 10)]
  }

  function DigitChar(d: nat): (c: char)
    requires d < 10
    ensures '0' <= c <= '9'
  {
    (48 + d) as char
  }
}
