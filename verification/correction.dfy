/** `correctJson` (jsonparser.cpp:238-253): one pass over the text that copies every
    character and puts a `,` after a `}` or `]` outside a string when the next
    character is not already `,`, `}` or `]`. Strings are tracked with two flags:
    whether the scan is inside a string, and whether the previous character was an
    escaping backslash. */
module Correction {

  /** The two flags of the scan, `inStr` and `esc`. */
  datatype ScanState = ScanState(inString: bool, escaped: bool)

  const Start: ScanState := ScanState(false, false)

  /** The flags after one more character. An escaped character only clears `esc`; a
      backslash sets it; an unescaped quote flips `inStr`. Backslashes and quotes
      outside strings are treated the same way. */
  function Step(st: ScanState, c: char): ScanState {
    if st.escaped then ScanState(st.inString, false)
    else if c == '\\' then ScanState(st.inString, true)
    else if c == '"' then ScanState(!st.inString, false)
    else st
  }

  /** The flags once the first `n` characters are read. */
  function StateBefore(json: string, n: nat): ScanState
    requires n <= |json|
  {
    if n == 0 then Start else Step(StateBefore(json, n - 1), json[n - 1])
  }

  predicate IsCloser(c: char) {
    c == '}' || c == ']'
  }

  /** Whether a comma goes right after the character at `i`: it closes a container
      outside a string, it is not itself escaped, and a character follows that is
      neither a comma nor a closer. */
  predicate CommaAfter(json: string, i: nat)
    requires i < |json|
  {
    var st := StateBefore(json, i);
    && !st.escaped
    && !st.inString
    && IsCloser(json[i])
    && i + 1 < |json|
    && json[i + 1] != ','
    && !IsCloser(json[i + 1])
  }

  /** What one input character turns into. */
  function Piece(json: string, i: nat): string
    requires i < |json|
  {
    if CommaAfter(json, i) then [json[i], ','] else [json[i]]
  }

  /** The output after the first `n` characters. */
  function CorrectedPrefix(json: string, n: nat): string
    requires n <= |json|
  {
    if n == 0 then [] else CorrectedPrefix(json, n - 1) + Piece(json, n - 1)
  }

  function Corrected(json: string): string {
    CorrectedPrefix(json, |json|)
  }

  /** The loop of `correctJson`; `continue` becomes an `else`. */
  method CorrectJson(json: string) returns (out: string)
    ensures out == Corrected(json)
    ensures |InsertionMask(json, |json|)| == |out| && Unflagged(out, InsertionMask(json, |json|)) == json
  {
    out := [];
    var inStr, esc := false, false;
    var i := 0;
    while i < |json|
      invariant i <= |json|
      invariant ScanState(inStr, esc) == StateBefore(json, i)
      invariant out == CorrectedPrefix(json, i)
    {
      var c := json[i];
      if esc {
        out := out + [c];
        esc := false;
      } else if c == '\\' {
        esc := true;
        out := out + [c];
      } else {
        if c == '"' && !esc {
          inStr := !inStr;
        }
        out := out + [c];
        if !inStr && (c == '}' || c == ']') && i + 1 < |json| {
          var next := json[i + 1];
          if next != ',' && next != '}' && next != ']' {
            out := out + [','];
          }
        }
      }
      i := i + 1;
    }
    Inserted(json);
  }

  // ---------------------------------------------------------------------------
  // Only commas are inserted

  /** Which characters of `Piece(json, i)` were inserted. */
  function Flags(json: string, i: nat): seq<bool>
    requires i < |json|
  {
    if CommaAfter(json, i) then [false, true] else [false]
  }

  /** Marks the characters of `CorrectedPrefix(json, n)` that were inserted. */
  function InsertionMask(json: string, n: nat): seq<bool>
    requires n <= |json|
  {
    if n == 0 then [] else InsertionMask(json, n - 1) + Flags(json, n - 1)
  }

  /** The characters among the first `k` of `s` that its mask does not flag. */
  function Kept(s: string, mask: seq<bool>, k: nat): string
    requires |s| == |mask| && k <= |s|
  {
    if k == 0 then [] else Kept(s, mask, k - 1) + (if mask[k - 1] then [] else [s[k - 1]])
  }

  /** `s` without the characters its mask flags. */
  function Unflagged(s: string, mask: seq<bool>): string
    requires |s| == |mask|
  {
    Kept(s, mask, |s|)
  }

  /** Appending to a flagged text does not change what its prefix keeps. */
  lemma {:induction false} KeptExtend(s: string, mask: seq<bool>, t: string, flags: seq<bool>, k: nat)
    requires |s| == |mask| && |t| == |flags| && k <= |s|
    ensures Kept(s + t, mask + flags, k) == Kept(s, mask, k)
  {
    if k > 0 {
      KeptExtend(s, mask, t, flags, k - 1);
      assert (s + t)[k - 1] == s[k - 1] && (mask + flags)[k - 1] == mask[k - 1];
    }
  }

  /** One piece, with its flags, keeps exactly its input character. */
  lemma PieceUnflagged(json: string, i: nat, out: string, mask: seq<bool>)
    requires i < |json| && |out| == |mask|
    ensures |Piece(json, i)| == |Flags(json, i)|
    ensures Unflagged(out + Piece(json, i), mask + Flags(json, i)) == Unflagged(out, mask) + [json[i]]
  {
    var s, m := out + Piece(json, i), mask + Flags(json, i);
    KeptExtend(out, mask, Piece(json, i), Flags(json, i), |out|);
    assert s[|out|] == json[i] && !m[|out|];
    assert Kept(s, m, |out| + 1) == Unflagged(out, mask) + [json[i]];
    if CommaAfter(json, i) {
      assert m[|out| + 1];
      assert Kept(s, m, |out| + 2) == Kept(s, m, |out| + 1);
    }
  }

  lemma PrefixSnoc(s: string, n: nat)
    requires 0 < n <= |s|
    ensures s[..n] == s[..n - 1] + [s[n - 1]]
  {
  }

  /** Deleting the inserted characters gives back the input. */
  lemma {:induction false} InsertedPrefix(json: string, n: nat)
    requires n <= |json|
    ensures |InsertionMask(json, n)| == |CorrectedPrefix(json, n)|
    ensures Unflagged(CorrectedPrefix(json, n), InsertionMask(json, n)) == json[..n]
  {
    if n > 0 {
      var out, mask := CorrectedPrefix(json, n - 1), InsertionMask(json, n - 1);
      InsertedPrefix(json, n - 1);
      PieceUnflagged(json, n - 1, out, mask);
      PrefixSnoc(json, n);
      assert CorrectedPrefix(json, n) == out + Piece(json, n - 1);
      assert InsertionMask(json, n) == mask + Flags(json, n - 1);
    }
  }

  /** Every inserted character is a comma. */
  lemma {:induction false} InsertedCommas(json: string, n: nat)
    requires n <= |json|
    ensures |InsertionMask(json, n)| == |CorrectedPrefix(json, n)|
    ensures forall p | 0 <= p < |InsertionMask(json, n)| && InsertionMask(json, n)[p] ::
      CorrectedPrefix(json, n)[p] == ','
  {
    if n > 0 {
      InsertedCommas(json, n - 1);
      var out, mask := CorrectedPrefix(json, n - 1), InsertionMask(json, n - 1);
      var piece, flags := Piece(json, n - 1), Flags(json, n - 1);
      assert CorrectedPrefix(json, n) == out + piece;
      assert InsertionMask(json, n) == mask + flags;
      forall p | |mask| <= p < |mask| + |flags| && flags[p - |mask|]
        ensures (out + piece)[p] == ','
      {
      }
    }
  }

  /** The whole output: commas are the only insertions. */
  lemma Inserted(json: string)
    ensures |InsertionMask(json, |json|)| == |Corrected(json)|
    ensures forall p | 0 <= p < |Corrected(json)| && InsertionMask(json, |json|)[p] :: Corrected(json)[p] == ','
    ensures Unflagged(Corrected(json), InsertionMask(json, |json|)) == json
  {
    InsertedPrefix(json, |json|);
    InsertedCommas(json, |json|);
    assert json[..|json|] == json;
  }

  // ---------------------------------------------------------------------------
  // The flags, stated without the scan

  /** How many backslashes end `s`. */
  function TrailingBackslashes(s: string): nat
    decreases |s|
  {
    if |s| > 0 && s[|s| - 1] == '\\' then 1 + TrailingBackslashes(s[..|s| - 1]) else 0
  }

  /** A quote that is not escaped: an even number of backslashes precedes it. */
  predicate UnescapedQuote(json: string, j: nat)
    requires j < |json|
  {
    json[j] == '"' && TrailingBackslashes(json[..j]) % 2 == 0
  }

  /** How many unescaped quotes come before `n`. */
  function QuoteCount(json: string, n: nat): nat
    requires n <= |json|
  {
    if n == 0 then 0 else QuoteCount(json, n - 1) + (if UnescapedQuote(json, n - 1) then 1 else 0)
  }

  /** `esc` is set exactly when the text read so far ends in an odd run of
      backslashes. */
  lemma {:induction false} EscapedIffOddRun(json: string, n: nat)
    requires n <= |json|
    ensures StateBefore(json, n).escaped <==> TrailingBackslashes(json[..n]) % 2 == 1
  {
    if n > 0 {
      EscapedIffOddRun(json, n - 1);
      assert json[..n][..n - 1] == json[..n - 1];
    }
  }

  /** `inStr` is set exactly when an odd number of unescaped quotes has been read. */
  lemma {:induction false} InStringIffOddQuotes(json: string, n: nat)
    requires n <= |json|
    ensures StateBefore(json, n).inString <==> QuoteCount(json, n) % 2 == 1
  {
    if n > 0 {
      InStringIffOddQuotes(json, n - 1);
      EscapedIffOddRun(json, n - 1);
    }
  }

  /** A comma is inserted after position `i` exactly when the character there is a
      closer that an even number of unescaped quotes and an even run of backslashes
      precede, and a character other than `,`, `}` and `]` follows it. */
  lemma CommaAfterIff(json: string, i: nat)
    requires i < |json|
    ensures CommaAfter(json, i) <==>
      && IsCloser(json[i])
      && QuoteCount(json, i) % 2 == 0
      && TrailingBackslashes(json[..i]) % 2 == 0
      && i + 1 < |json|
      && json[i + 1] != ','
      && !IsCloser(json[i + 1])
  {
    EscapedIffOddRun(json, i);
    InStringIffOddQuotes(json, i);
  }
}
