/** Properties of the parser as written: how strings decode, how duplicate keys
    resolve, that the text after the root value is never examined, and that the
    literals `true`, `false` and `null` are never accepted. */
module ParserProperties {
  import opened Wrappers
  import opened CharClasses
  import opened JsonValues
  import opened Positions
  import opened UnicodeEscape
  import opened NumberLexing
  import opened Parser
  import opened ParserSteps
  import opened ParserShape

  // ---------------------------------------------------------------------------
  // Strings

  /** The escaped form of `s`: a backslash before every `"` and every `\`. */
  function Escape(s: string): (e: string)
    ensures |e| >= |s|
    decreases |s|
  {
    if |s| == 0 then []
    else (if s[0] == '"' || s[0] == '\\' then ['\\', s[0]] else [s[0]]) + Escape(s[1..])
  }

  /** `parseString` reads an escaped text back to the text itself, stopping at the
      quote after it. */
  lemma {:induction false} ParseCharsOfEscape(src: string, k: nat, s: string)
    requires k + |Escape(s)| < |src|
    requires src[k..k + |Escape(s)|] == Escape(s)
    requires src[k + |Escape(s)|] == '"'
    ensures ParseChars(src, k) == Success(Parsed(s, k + |Escape(s)| + 1))
    decreases |s|
  {
    if |s| == 0 {
      assert src[k] == '"';
    } else {
      var c := s[0];
      var n := EscapeHead(src, k, s);
      ParseCharsOfEscape(src, k + n, s[1..]);
      var r := Parsed(s[1..], k + |Escape(s)| + 1);
      if n == 2 {
        CharsShortEscape(src, k, c, r);
      } else {
        CharsPlain(src, k, r);
      }
      assert [c] + s[1..] == s;
    }
  }

  /** The escaped form of the first character sits at `k`, and the escaped rest
      follows it. */
  lemma EscapeHead(src: string, k: nat, s: string) returns (n: nat)
    requires 0 < |s| && k + |Escape(s)| < |src|
    requires src[k..k + |Escape(s)|] == Escape(s)
    ensures n == (if s[0] == '"' || s[0] == '\\' then 2 else 1)
    ensures |Escape(s)| == n + |Escape(s[1..])|
    ensures n == 2 ==> src[k] == '\\' && src[k + 1] == s[0] && ShortEscape(s[0]) == Some(s[0])
    ensures n == 1 ==> src[k] == s[0] && src[k] != '"' && src[k] != '\\'
    ensures src[k + n..k + n + |Escape(s[1..])|] == Escape(s[1..])
  {
    var c := s[0];
    n := if c == '"' || c == '\\' then 2 else 1;
    var e := Escape(s);
    var tail := Escape(s[1..]);
    assert e[..n] == if n == 2 then ['\\', c] else [c];
    assert e[n..] == tail;
    assert src[k] == e[0];
    assert n == 2 ==> src[k + 1] == e[1];
    assert src[k + n..k + n + |tail|] == e[n..];
  }

  /** A quoted, escaped text at the start of the input parses to that text, whatever
      follows the closing quote. */
  lemma QuotedStringParses(s: string, rest: string)
    ensures ParseString(['"'] + Escape(s) + ['"'] + rest, 0) == Success(Parsed(s, |Escape(s)| + 2))
  {
    var src := ['"'] + Escape(s) + ['"'] + rest;
    assert src[1..1 + |Escape(s)|] == Escape(s);
    ParseCharsOfEscape(src, 1, s);
  }

  /** Text without `"` or `\` needs no escaping. */
  lemma {:induction false} EscapePlain(s: string)
    requires forall k | 0 <= k < |s| :: s[k] != '"' && s[k] != '\\'
    ensures Escape(s) == s
    decreases |s|
  {
    if |s| > 0 {
      EscapePlain(s[1..]);
      assert s == [s[0]] + s[1..];
    }
  }

  /** A `\u` escape naming a UTF-16 surrogate half (U+D800 to U+DFFF) is written as
      three bytes on its own, starting with 0xED: a following low surrogate is not
      combined with it, and the result is not well-formed UTF-8 (section 3 of
      RFC 3629 excludes these code points). */
  lemma SurrogateEncodedAlone(hex: string)
    requires AllHex(hex) && |hex| == 4
    requires 0xD800 <= HexNumber(hex) <= 0xDFFF
    ensures DecodeUnicode(hex).Success?
    ensures var out := DecodeUnicode(hex).value;
      |out| == 3 && out[0] == 0xED as char && 0xA0 as char <= out[1] <= 0xBF as char
  {
    DecodeUnicodeSpec(hex);
    SurrogateBytes(HexNumber(hex));
  }

  /** The three bytes of a surrogate half: 0xED, then a continuation byte of at
      least 0xA0. */
  lemma SurrogateBytes(cp: nat)
    requires 0xD800 <= cp <= 0xDFFF
    ensures Utf8Encode(cp).Success?
    ensures var b := Utf8Encode(cp).value;
      |b| == 3 && b[0] == 0xED && 0xA0 <= b[1] <= 0xBF
  {
    assert cp / 4096 == 13;
    assert 32 <= (cp / 64) % 64 < 64 by {
      assert 0x360 <= cp / 64 < 0x380;
    }
  }

  /** A `\uXXXX` escape of four hexadecimal digits appends the UTF-8 of their value
      and carries on after them. */
  lemma UnicodeEscapeStep(src: string, k: nat)
    requires k + 6 <= |src| && src[k] == '\\' && src[k + 1] == 'u' && AllHex(src[k + 2..k + 6])
    ensures Utf8Encode(HexNumber(src[k + 2..k + 6])).Success?
    ensures ParseChars(src, k) ==
      match ParseChars(src, k + 6)
      case Failure(e) => Failure(e)
      case Success(rest) =>
        Success(Parsed(BytesToString(Utf8Encode(HexNumber(src[k + 2..k + 6])).value) + rest.value, rest.next))
  {
    DecodeUnicodeSpec(src[k + 2..k + 6]);
  }

  /** An escaped UTF-16 surrogate pair, such as `\uD83D\uDE00` for U+1F600, is not
      combined: each half becomes its own three bytes starting with 0xED, and the
      four-byte form of the code point (which starts with 0xF0) never appears. */
  lemma SurrogatePairNotCombined(high: string, low: string)
    requires AllHex(high) && |high| == 4 && 0xD800 <= HexNumber(high) <= 0xDBFF
    requires AllHex(low) && |low| == 4 && 0xDC00 <= HexNumber(low) <= 0xDFFF
    ensures var src := "\\u" + high + "\\u" + low + "\"";
      && DecodeUnicode(high).Success? && DecodeUnicode(low).Success?
      && ParseChars(src, 0).Success?
      && ParseChars(src, 0).value.value == DecodeUnicode(high).value + DecodeUnicode(low).value
      && |ParseChars(src, 0).value.value| == 6
      && ParseChars(src, 0).value.value[0] == 0xED as char
      && ParseChars(src, 0).value.value[3] == 0xED as char
  {
    SurrogateEncodedAlone(high);
    SurrogateEncodedAlone(low);
    TwoEscapes(high, low);
  }

  /** Two `\u` escapes then a quote read as the two decodings in turn. */
  lemma TwoEscapes(high: string, low: string)
    requires AllHex(high) && |high| == 4
    requires AllHex(low) && |low| == 4
    ensures var src := "\\u" + high + "\\u" + low + "\"";
      && DecodeUnicode(high).Success? && DecodeUnicode(low).Success?
      && ParseChars(src, 0) == Success(Parsed(DecodeUnicode(high).value + DecodeUnicode(low).value, 13))
  {
    var src := "\\u" + high + "\\u" + low + "\"";
    assert src[2..6] == high && src[8..12] == low;
    assert src[0] == '\\' && src[1] == 'u' && src[6] == '\\' && src[7] == 'u' && src[12] == '"';
    assert ParseChars(src, 12) == Success(Parsed("", 13));
    EscapeThen(src, 6, low, Parsed("", 13));
    var l := DecodeUnicode(low).value;
    assert l + "" == l;
    EscapeThen(src, 0, high, Parsed(l, 13));
  }

  /** A `\u` escape of `hex` at `k`, followed by what the loop reads from `k + 6`. */
  lemma EscapeThen(src: string, k: nat, hex: string, rest: Parsed<string>)
    requires k + 6 <= |src| && src[k] == '\\' && src[k + 1] == 'u' && src[k + 2..k + 6] == hex
    requires AllHex(hex) && ParseChars(src, k + 6) == Success(rest)
    ensures DecodeUnicode(hex).Success?
    ensures ParseChars(src, k) == Success(Parsed(DecodeUnicode(hex).value + rest.value, rest.next))
  {
    DecodeUnicodeSpec(hex);
    UnicodeEscapeStep(src, k);
  }

  /** The characters `parseString`'s loop reads are never more than the characters it
      consumed before the closing quote: a plain character gives itself, an escape
      gives fewer than it spans. They are as many only when no backslash and no
      quote comes before the closing quote. */
  lemma {:induction false} CharsShrink(src: string, k: nat)
    requires k <= |src|
    ensures var r := ParseChars(src, k);
      r.Success? ==>
        && |r.value.value| <= r.value.next - 1 - k
        && (|r.value.value| == r.value.next - 1 - k ==>
              forall m | k <= m < r.value.next - 1 :: src[m] != '"' && src[m] != '\\')
    decreases |src| - k
  {
    if k < |src| && src[k] != '"' && ParseChars(src, k).Success? {
      if src[k] == '\\' {
        if src[k + 1] == 'u' {
          DecodeUnicodeSpec(src[k + 2..k + 6]);
          CharsShrink(src, k + 6);
        } else {
          CharsShrink(src, k + 2);
        }
      } else {
        CharsShrink(src, k + 1);
      }
    }
  }

  /** Text with neither a quote nor a backslash never closes the string. */
  lemma {:induction false} UnterminatedString(src: string, k: nat)
    requires k <= |src|
    requires forall m | k <= m < |src| :: src[m] != '"' && src[m] != '\\'
    ensures ParseChars(src, k) == Failure("Unterminated string")
    decreases |src| - k
  {
    if k < |src| {
      UnterminatedString(src, k + 1);
    }
  }

  /** The errors of an escape: a backslash at the end of the text, a letter that is
      neither `u` nor one of the short escapes, and fewer than four characters
      after `\u`. */
  lemma EscapeErrors(src: string, k: nat)
    requires k < |src| && src[k] == '\\'
    ensures k + 1 == |src| ==> ParseChars(src, k) == Failure("Unterminated escape sequence")
    ensures k + 1 < |src| && src[k + 1] != 'u' && ShortEscape(src[k + 1]).None? ==>
      ParseChars(src, k) == Failure("Invalid escape sequence")
    ensures k + 1 < |src| && src[k + 1] == 'u' && |src| < k + 6 ==>
      ParseChars(src, k) == Failure("Incomplete Unicode escape")
  {
  }

  // ---------------------------------------------------------------------------
  // Objects

  /** `entries[n]` is the last entry with its key. */
  predicate IsLastFor(entries: seq<(string, Value)>, n: nat)
    requires n < |entries|
  {
    forall m | n < m < |entries| :: entries[m].0 != entries[n].0
  }

  /** Duplicate keys resolve last-write-wins: the object has one member per distinct
      key, and it holds the value of the last entry with that key. */
  lemma {:induction false} CollectLastWriteWins(entries: seq<(string, Value)>)
    ensures Collect(entries).Keys == set n | 0 <= n < |entries| :: entries[n].0
    ensures forall n | 0 <= n < |entries| && IsLastFor(entries, n) ::
      Collect(entries)[entries[n].0] == entries[n].1
    decreases |entries|
  {
    CollectKeys(entries);
    if |entries| > 0 {
      var last := |entries| - 1;
      var init := entries[..last];
      CollectLastWriteWins(init);
      forall n | 0 <= n < |entries| && IsLastFor(entries, n)
        ensures Collect(entries)[entries[n].0] == entries[n].1
      {
        if n < last {
          assert entries[last].0 != entries[n].0;
          assert init[n] == entries[n];
          assert IsLastFor(init, n) by {
            forall m | n < m < |init|
              ensures init[m].0 != init[n].0
            {
              assert init[m] == entries[m];
            }
          }
        }
      }
    }
  }

  // ---------------------------------------------------------------------------
  // Literals

  /** `parseValue` hands its letter to `parseBoolean` after putting it back, and
      `parseNull` starts reading at the `n`: `true`, `false` and `null` are
      rejected. */
  lemma LiteralsRejected(fits: RangeCheck)
    ensures Parse("true", fits) == Failure("Invalid boolean: ttrue")
    ensures Parse(" false ", fits) == Failure("Invalid boolean: ffalse")
    ensures Parse("null", fits) == Failure("Invalid null")
  {
    BooleanRejected("true", fits, 0, 4);
    assert "true"[0..4] == "true";
    BooleanRejected(" false ", fits, 1, 6);
    assert " false "[1..6] == "false";
    assert SpaceRunEnd("null", 0) == 0;
  }

  /** A `t` or `f` after the leading white space: the error names the letter, then
      the whole run of letters that starts with it. */
  lemma BooleanRejected(src: string, fits: RangeCheck, j: nat, end: nat)
    requires j == SpaceRunEnd(src, 0) && j < end <= |src| && (src[j] == 't' || src[j] == 'f')
    requires forall k | j <= k < end :: IsAlpha(src[k])
    requires end == |src| || !IsAlpha(src[end])
    ensures Parse(src, fits) == Failure("Invalid boolean: " + [src[j]] + src[j..end])
  {
    var msg := "Invalid boolean: " + [src[j]] + src[j..end];
    AlphaRunIs(src, j, end);
    LiteralTokenRepeatsFirst(src, j, src[j]);
    assert ParseBoolean(src, j, src[j]) == Failure(msg) by {
      assert "Invalid boolean: " + ([src[j]] + src[j..end]) == msg;
    }
    DispatchBoolean(src, 0, fits, j);
    assert ParseValue(src, 0, fits) == Failure(msg);
  }

  /** A run of letters is determined by where it starts. */
  lemma {:induction false} AlphaRunIs(src: string, i: nat, j: nat)
    requires i <= j <= |src|
    requires forall k | i <= k < j :: IsAlpha(src[k])
    requires j == |src| || !IsAlpha(src[j])
    ensures AlphaRunEnd(src, i) == j
    decreases j - i
  {
    if i < j {
      AlphaRunIs(src, i + 1, j);
    }
  }

  /** Any input whose first non-space character starts a literal is rejected. */
  lemma LiteralStartRejected(src: string, fits: RangeCheck)
    requires SpaceRunEnd(src, 0) < |src| && src[SpaceRunEnd(src, 0)] in "tfn"
    ensures Parse(src, fits).Failure?
  {
    DispatchLiteral(src, 0, fits, SpaceRunEnd(src, 0));
  }

  // ---------------------------------------------------------------------------
  // The text after the root value

  /** Whether a run of number characters stops at `e`. */
  predicate NumberStops(s: string, e: nat) {
    e >= |s| || !IsNumberChar(s[e])
  }

  lemma {:induction false} SpaceRunExtends(a: string, rest: string, k: nat)
    requires k <= |a| && SpaceRunEnd(a, k) < |a|
    ensures SpaceRunEnd(a + rest, k) == SpaceRunEnd(a, k)
    decreases |a| - k
  {
    if IsSpace(a[k]) {
      SpaceRunExtends(a, rest, k + 1);
    }
  }

  lemma {:induction false} NumberRunExtends(a: string, rest: string, k: nat)
    requires k <= |a| && NumberStops(a + rest, NumberRunEnd(a, k))
    ensures NumberRunEnd(a + rest, k) == NumberRunEnd(a, k)
    decreases |a| - k
  {
    if k < NumberRunEnd(a, k) {
      NumberRunExtends(a, rest, k + 1);
    }
  }

  lemma {:induction false} CharsExtend(a: string, rest: string, k: nat)
    requires k <= |a|
    requires ParseChars(a, k).Success?
    ensures ParseChars(a + rest, k) == ParseChars(a, k)
    decreases |a| - k
  {
    var b := a + rest;
    if a[k] == '\\' {
      if a[k + 1] == 'u' {
        assert a[k + 2..k + 6] == b[k + 2..k + 6];
        CharsExtend(a, rest, k + 6);
      } else {
        CharsExtend(a, rest, k + 2);
      }
    } else if a[k] != '"' {
      CharsExtend(a, rest, k + 1);
    }
  }

  /** What `parseValue` returns depends only on the characters it consumed, and, for
      a number, on whether a number character follows: an object, an array or a
      string ends with a character that closes it and nothing after that is read. */
  lemma {:induction false} ValueExtends(a: string, rest: string, i: nat, fits: RangeCheck)
    requires i <= |a|
    requires ParseValue(a, i, fits).Success?
    requires ParseValue(a, i, fits).value.value.Number? ==> NumberStops(a + rest, ParseValue(a, i, fits).value.next)
    ensures ParseValue(a + rest, i, fits) == ParseValue(a, i, fits)
    decreases |a| - i, 2
  {
    SpaceRunExtends(a, rest, i);
    var j := SpaceRunEnd(a, i);
    var b := a + rest;
    assert b[j] == a[j];
    var c := a[j];
    if c == '{' {
      DispatchObject(a, i, fits, j);
      DispatchObject(b, i, fits, j);
      ObjectExtends(a, rest, j + 1, fits);
    } else if c == '[' {
      DispatchArray(a, i, fits, j);
      DispatchArray(b, i, fits, j);
      ArrayExtends(a, rest, j + 1, fits);
    } else if c == '"' {
      DispatchString(a, i, fits, j);
      DispatchString(b, i, fits, j);
      CharsExtend(a, rest, j + 1);
    } else {
      ValueIsNumber(a, i, fits, j);
      DispatchNumber(a, i, fits, j);
      DispatchNumber(b, i, fits, j);
      NumberExtends(a, rest, j, fits);
    }
  }

  /** Only the four structural branches of `parseValue` can succeed. */
  lemma ValueIsNumber(src: string, i: nat, fits: RangeCheck, j: nat)
    requires i <= |src| && j == SpaceRunEnd(src, i) && j < |src|
    requires ParseValue(src, i, fits).Success?
    requires src[j] != '{' && src[j] != '[' && src[j] != '"'
    ensures IsDigit(src[j]) || src[j] == '-'
  {
    if src[j] in "tfn" {
      DispatchLiteral(src, i, fits, j);
    } else if !IsDigit(src[j]) && src[j] != '-' {
      DispatchOther(src, i, fits, j);
    }
  }

  lemma NumberExtends(a: string, rest: string, j: nat, fits: RangeCheck)
    requires j <= |a|
    requires ParseNumber(a, j, fits).Success?
    requires NumberStops(a + rest, ParseNumber(a, j, fits).value.next)
    ensures ParseNumber(a + rest, j, fits) == ParseNumber(a, j, fits)
  {
    var n := ParseNumber(a, j, fits).value.next;
    NumberRunExtends(a, rest, j);
    assert a[j..n] == (a + rest)[j..n];
  }

  lemma {:induction false} ObjectExtends(a: string, rest: string, i: nat, fits: RangeCheck)
    requires i <= |a|
    requires ParseObject(a, i, fits).Success?
    ensures ParseObject(a + rest, i, fits) == ParseObject(a, i, fits)
    decreases |a| - i, 4
  {
    SpaceRunExtends(a, rest, i);
    var j := SpaceRunEnd(a, i);
    if !(j < |a| && a[j] == '}') {
      MembersExtend(a, rest, j, fits);
    }
  }

  lemma {:induction false} MembersExtend(a: string, rest: string, k: nat, fits: RangeCheck)
    requires k <= |a|
    requires ParseMembers(a, k, fits).Success?
    ensures ParseMembers(a + rest, k, fits) == ParseMembers(a, k, fits)
    decreases |a| - k, 3, 1
  {
    var s := MembersExtendStep(a, rest, k, fits);
    if a[s] == ',' {
      MembersExtend(a, rest, s + 1, fits);
      SameMembersIntro(a, rest, s + 1, fits);
    }
  }

  /** One entry of the member loop: it reads the same, and so does the loop once
      the rest of it does. */
  lemma MembersExtendStep(a: string, rest: string, k: nat, fits: RangeCheck) returns (s: nat)
    requires k <= |a| && ParseMembers(a, k, fits).Success?
    ensures k <= s < |a| && (a[s] == '}' || a[s] == ',')
    ensures a[s] == ',' ==> ParseMembers(a, s + 1, fits).Success?
    ensures a[s] == '}' || SameMembers(a, rest, s + 1, fits) ==>
      ParseMembers(a + rest, k, fits) == ParseMembers(a, k, fits)
    decreases |a| - k, 3, 0
  {
    var e;
    e, s := MembersUnfold(a, k, fits);
    assert !IsNumberChar(a[e.next]) by {
      assert e.next < s ==> IsSpace(a[e.next]);
    }
    EntryExtends(a, rest, k, fits);
    if a[s] == '}' || SameMembers(a, rest, s + 1, fits) {
      MembersExtendFirst(a, rest, k, fits, e, s);
    }
  }

  lemma MembersExtendFirst(a: string, rest: string, k: nat, fits: RangeCheck, e: Parsed<(string, Value)>, s: nat)
    requires k <= |a| && ParseEntry(a, k, fits).Success? && ParseEntry(a, k, fits).value == e
    requires s == SpaceRunEnd(a, e.next) && s < |a| && (a[s] == '}' || a[s] == ',')
    requires a[s] == ',' ==> SameMembers(a, rest, s + 1, fits)
    requires ParseEntry(a + rest, k, fits) == ParseEntry(a, k, fits)
    ensures ParseMembers(a + rest, k, fits) == ParseMembers(a, k, fits)
  {
    SpaceRunExtends(a, rest, e.next);
    MembersDef(a, k, fits);
    MembersDef(a + rest, k, fits);
    MembersAfterExtend(a, rest, ParseEntry(a, k, fits), fits, e, s);
  }

  /** The tail of the member loop reads the same once its first entry does. */
  lemma MembersAfterExtend(a: string, rest: string, first: Result<Parsed<(string, Value)>>, fits: RangeCheck,
                           e: Parsed<(string, Value)>, s: nat)
    requires first == Success(e) && e.next <= |a|
    requires s == SpaceRunEnd(a, e.next) == SpaceRunEnd(a + rest, e.next) && s < |a|
    requires a[s] == '}' || a[s] == ','
    requires a[s] == ',' ==> SameMembers(a, rest, s + 1, fits)
    ensures MembersAfter(a + rest, first, fits) == MembersAfter(a, first, fits)
  {
    assert (a + rest)[s] == a[s];
  }

  lemma {:induction false} EntryExtends(a: string, rest: string, k: nat, fits: RangeCheck)
    requires k <= |a|
    requires ParseEntry(a, k, fits).Success?
    requires ParseEntry(a, k, fits).value.next < |a|
    requires !IsNumberChar(a[ParseEntry(a, k, fits).value.next])
    ensures ParseEntry(a + rest, k, fits) == ParseEntry(a, k, fits)
    decreases |a| - k, 2
  {
    var j, key, c := EntryStep(a, k, fits);
    SpaceRunExtends(a, rest, k);
    CharsExtend(a, rest, j + 1);
    SpaceRunExtends(a, rest, key.next);
    assert (a + rest)[j] == a[j] && (a + rest)[c] == a[c];
    var v := ParseValue(a, c + 1, fits).value;
    ValueExtends(a, rest, c + 1, fits);
    EntryOf(a, k, fits, j, key, c, v);
    EntryOf(a + rest, k, fits, j, key, c, v);
  }

  lemma {:induction false} ArrayExtends(a: string, rest: string, i: nat, fits: RangeCheck)
    requires i <= |a|
    requires ParseArray(a, i, fits).Success?
    ensures ParseArray(a + rest, i, fits) == ParseArray(a, i, fits)
    decreases |a| - i, 4
  {
    SpaceRunExtends(a, rest, i);
    var j := SpaceRunEnd(a, i);
    if !(j < |a| && a[j] == ']') {
      ItemsExtend(a, rest, j, fits);
    }
  }

  lemma {:induction false} ItemsExtend(a: string, rest: string, k: nat, fits: RangeCheck)
    requires k <= |a|
    requires ParseItems(a, k, fits).Success?
    ensures ParseItems(a + rest, k, fits) == ParseItems(a, k, fits)
    decreases |a| - k, 3, 1
  {
    var s := ItemsExtendStep(a, rest, k, fits);
    if a[s] == ',' {
      ItemsExtend(a, rest, s + 1, fits);
      SameItemsIntro(a, rest, s + 1, fits);
    }
  }

  /** One element of the element loop: it reads the same, and so does the loop once
      the rest of it does. */
  lemma ItemsExtendStep(a: string, rest: string, k: nat, fits: RangeCheck) returns (s: nat)
    requires k <= |a| && ParseItems(a, k, fits).Success?
    ensures k <= s < |a| && (a[s] == ']' || a[s] == ',')
    ensures a[s] == ',' ==> ParseItems(a, s + 1, fits).Success?
    ensures a[s] == ']' || SameItems(a, rest, s + 1, fits) ==>
      ParseItems(a + rest, k, fits) == ParseItems(a, k, fits)
    decreases |a| - k, 3, 0
  {
    var v;
    v, s := ItemsUnfold(a, k, fits);
    ValueExtends(a, rest, k, fits);
    if a[s] == ']' || SameItems(a, rest, s + 1, fits) {
      ItemsExtendFirst(a, rest, k, fits, v, s);
    }
  }

  lemma ItemsExtendFirst(a: string, rest: string, k: nat, fits: RangeCheck, v: Parsed<Value>, s: nat)
    requires k <= |a| && ParseValue(a, k, fits).Success? && ParseValue(a, k, fits).value == v
    requires s == SpaceRunEnd(a, v.next) && s < |a| && (a[s] == ']' || a[s] == ',')
    requires a[s] == ',' ==> SameItems(a, rest, s + 1, fits)
    requires ParseValue(a + rest, k, fits) == ParseValue(a, k, fits)
    ensures ParseItems(a + rest, k, fits) == ParseItems(a, k, fits)
  {
    assert NumberStops(a + rest, v.next) by {
      assert v.next < s ==> IsSpace(a[v.next]);
    }
    SpaceRunExtends(a, rest, v.next);
    ItemsDef(a, k, fits);
    ItemsDef(a + rest, k, fits);
    ItemsAfterExtend(a, rest, ParseValue(a, k, fits), fits, v, s);
  }

  /** The element loop from `k` reads the same with `rest` appended. Stated for
      every index equal to `k`, so that the loop is unfolded only where a proof
      names it. */
  predicate SameItems(a: string, rest: string, k: nat, fits: RangeCheck) {
    forall j: nat {:trigger ParseItems(a, j, fits)} | j == k ::
      j <= |a| && ParseItems(a + rest, j, fits) == ParseItems(a, j, fits)
  }

  /** The member loop from `k` reads the same with `rest` appended. */
  predicate SameMembers(a: string, rest: string, k: nat, fits: RangeCheck) {
    forall j: nat {:trigger ParseMembers(a, j, fits)} | j == k ::
      j <= |a| && ParseMembers(a + rest, j, fits) == ParseMembers(a, j, fits)
  }

  lemma SameItemsIntro(a: string, rest: string, k: nat, fits: RangeCheck)
    requires k <= |a| && ParseItems(a + rest, k, fits) == ParseItems(a, k, fits)
    ensures SameItems(a, rest, k, fits)
  {
  }

  lemma SameMembersIntro(a: string, rest: string, k: nat, fits: RangeCheck)
    requires k <= |a| && ParseMembers(a + rest, k, fits) == ParseMembers(a, k, fits)
    ensures SameMembers(a, rest, k, fits)
  {
  }

  /** The tail of the element loop reads the same once its first element does. */
  lemma ItemsAfterExtend(a: string, rest: string, first: Result<Parsed<Value>>, fits: RangeCheck,
                         v: Parsed<Value>, s: nat)
    requires first == Success(v) && v.next <= |a|
    requires s == SpaceRunEnd(a, v.next) == SpaceRunEnd(a + rest, v.next) && s < |a|
    requires a[s] == ']' || a[s] == ','
    requires a[s] == ',' ==> SameItems(a, rest, s + 1, fits)
    ensures ItemsAfter(a + rest, first, fits) == ItemsAfter(a, first, fits)
  {
    assert (a + rest)[s] == a[s];
  }

  /** `parse` never looks past the root value: appending any text to an object, an
      array or a string, and any text that does not extend the number to a number,
      leaves the result unchanged. So `1,`, `[]5` and `[1] x` are accepted. */
  lemma TrailingInputIgnored(src: string, rest: string, fits: RangeCheck)
    requires ParseValue(src, 0, fits).Success? && ParseValue(src, 0, fits).value.next == |src|
    requires ParseValue(src, 0, fits).value.value.Number? ==> rest == [] || !IsNumberChar(rest[0])
    ensures Parse(src + rest, fits) == Parse(src, fits)
  {
    ValueExtends(src, rest, 0, fits);
  }

  // ---------------------------------------------------------------------------
  // Separators

  /** After an element, anything but `,` or `]` is an error. */
  lemma ItemsSeparator(src: string, k: nat, fits: RangeCheck)
    requires k <= |src| && ParseValue(src, k, fits).Success?
    requires Lookahead(src, ParseValue(src, k, fits).value.next) !in {Some(','), Some(']')}
    ensures ParseItems(src, k, fits) == Failure("Expected ',' or ']' in array")
  {
  }

  /** After an entry, anything but `,` or `}` is an error. */
  lemma MembersSeparator(src: string, k: nat, fits: RangeCheck)
    requires k <= |src| && ParseEntry(src, k, fits).Success?
    requires Lookahead(src, ParseEntry(src, k, fits).value.next) !in {Some(','), Some('}')}
    ensures ParseMembers(src, k, fits) == Failure("Expected ',' or '}' in object")
  {
  }

  /** An entry must start with a quoted key. */
  lemma KeyNeedsQuote(src: string, k: nat, fits: RangeCheck)
    requires k <= |src| && Lookahead(src, k) != Some('"')
    ensures ParseEntry(src, k, fits) == Failure("Expected '\"' for object key")
    ensures ParseMembers(src, k, fits) == Failure("Expected '\"' for object key")
  {
  }

  /** A key must be followed by `:`. The message gives the line and column of the
      end of `src[..m]`, where `m` is the offset `currentPos` receives, clamped to the
      text: the character read in place of `:` when it lies below offset 2^31, and
      the end of the text when nothing was left to read. */
  lemma MissingColon(src: string, k: nat, fits: RangeCheck, j: nat, c: nat)
    requires k <= |src| && j == SpaceRunEnd(src, k) && j < |src| && src[j] == '"'
    requires ParseString(src, j).Success? && c == SpaceRunEnd(src, ParseString(src, j).value.next)
    requires !(c < |src| && src[c] == ':')
    requires |src| <= FailedReadOffset
    ensures ParseEntry(src, k, fits) == Failure(ColonMessage(src, c))
    ensures var m := if ColonOffset(src, c) < |src| then ColonOffset(src, c) else |src|;
      exists p: Pos ::
        && DescribesEnd(src[..m], p)
        && ColonMessage(src, c)
             == "Expected ':' after key (line " + NatToString(p.line) + ", col " + NatToString(p.col) + ")"
    ensures c < 0x8000_0000 || c == |src| ==>
      (if ColonOffset(src, c) < |src| then ColonOffset(src, c) else |src|) == c
  {
    var off := ColonOffset(src, c);
    var m := if off < |src| then off else |src|;
    ColonOffsetSpec(src, c);
    assert c < 0x8000_0000 || c == |src| ==> m == c;
    if off >= |src| {
      CurrentPosClamps(src, off);
    }
    CurrentPosDescribes(src, m);
    var p := CurrentPos(src, m);
    assert DescribesEnd(src[..m], p);
  }

  /** The offset of a missing colon: the end of the text gives the failed-read
      offset; otherwise the `int` cast keeps the offset modulo 2^32, and an offset
      whose residue reaches 2^31 turns negative, so its `size_t` lies past
      2^64 - 2^31. */
  lemma ColonOffsetSpec(src: string, c: nat)
    requires c <= |src|
    ensures c == |src| ==> ColonOffset(src, c) == FailedReadOffset
    ensures c < |src| && c < 0x8000_0000 ==> ColonOffset(src, c) == c
    ensures c < |src| && c % 0x1_0000_0000 < 0x8000_0000 ==> ColonOffset(src, c) == c % 0x1_0000_0000
    ensures c < |src| && c % 0x1_0000_0000 >= 0x8000_0000 ==>
      ColonOffset(src, c) == 0x1_0000_0000_0000_0000 - 0x1_0000_0000 + c % 0x1_0000_0000
  {
    if c < |src| {
      TellAfterRead(c);
    } else {
      Int32Within(-1);
      Int32Within(-2);
    }
  }

  /** The offset reported after reading the character at `c`: the residue of `c`
      modulo 2^32, taken negative (and so near 2^64) from 2^31 on. */
  lemma TellAfterRead(c: nat)
    ensures var r := c % 0x1_0000_0000;
      TellOffset(c + 1) == if r < 0x8000_0000 then r else 0x1_0000_0000_0000_0000 - 0x1_0000_0000 + r
  {
    var r := c % 0x1_0000_0000;
    var n := (c + 1 + 0x8000_0000) / 0x1_0000_0000;
    assert Int32(c + 1) - 1 == c - n * 0x1_0000_0000;
    Int32Periodic(c, -n);
    Int32Periodic(r, c / 0x1_0000_0000);
    if r < 0x8000_0000 {
      Int32Within(r);
    } else {
      Int32Periodic(r - 0x1_0000_0000, 1);
      Int32Within(r - 0x1_0000_0000);
    }
  }

  /** The `int` cast keeps every value it can represent. */
  lemma Int32Within(x: int)
    requires -0x8000_0000 <= x < 0x8000_0000
    ensures Int32(x) == x
  {
  }

  /** The `int` cast only sees a value modulo 2^32. */
  lemma Int32Periodic(x: int, n: int)
    ensures Int32(x + n * 0x1_0000_0000) == Int32(x)
  {
  }

  /** Beyond 2^31 characters the `int` cast misplaces the report: from offset 2^31 to
      2^32 - 1 it names the end of any text shorter than 2^64 - 2^31, and from 2^32 on
      it names an earlier character, the one at the offset modulo 2^32. */
  lemma ColonOffsetTruncated(src: string, c: nat)
    requires 0x8000_0000 <= c < |src|
    ensures c < 0x1_0000_0000 && |src| <= 0x1_0000_0000_0000_0000 - 0x8000_0000 ==> ColonOffset(src, c) >= |src|
    ensures 0x1_0000_0000 <= c && c % 0x1_0000_0000 < 0x8000_0000 ==>
      ColonOffset(src, c) == c % 0x1_0000_0000 < c
  {
    ColonOffsetSpec(src, c);
  }

  /** A comma before the closing `]` is an error: `]` cannot start a value. */
  lemma ArrayTrailingComma(src: string, k: nat, fits: RangeCheck, s: nat)
    requires k <= |src| && ParseValue(src, k, fits).Success?
    requires s == SpaceRunEnd(src, ParseValue(src, k, fits).value.next) && s < |src| && src[s] == ','
    requires Lookahead(src, s + 1) == Some(']')
    ensures ParseItems(src, k, fits) == Failure("Unexpected character ']'")
  {
    DispatchOther(src, s + 1, fits, SpaceRunEnd(src, s + 1));
    ItemsRestFails(src, k, fits, s);
  }

  /** A comma before the closing `}` is an error: `}` is not a key. */
  lemma ObjectTrailingComma(src: string, k: nat, fits: RangeCheck, s: nat)
    requires k <= |src| && ParseEntry(src, k, fits).Success?
    requires s == SpaceRunEnd(src, ParseEntry(src, k, fits).value.next) && s < |src| && src[s] == ','
    requires Lookahead(src, s + 1) == Some('}')
    ensures ParseMembers(src, k, fits) == Failure("Expected '\"' for object key")
  {
    KeyNeedsQuote(src, s + 1, fits);
    MembersRestFails(src, k, fits, s);
  }

  lemma ItemsRestFails(src: string, k: nat, fits: RangeCheck, s: nat)
    requires k <= |src| && ParseValue(src, k, fits).Success?
    requires s == SpaceRunEnd(src, ParseValue(src, k, fits).value.next) && s < |src| && src[s] == ','
    requires ParseItems(src, s + 1, fits).Failure?
    ensures ParseItems(src, k, fits) == Failure(ParseItems(src, s + 1, fits).error)
  {
  }

  lemma MembersRestFails(src: string, k: nat, fits: RangeCheck, s: nat)
    requires k <= |src| && ParseEntry(src, k, fits).Success?
    requires s == SpaceRunEnd(src, ParseEntry(src, k, fits).value.next) && s < |src| && src[s] == ','
    requires ParseMembers(src, s + 1, fits).Failure?
    ensures ParseMembers(src, k, fits) == Failure(ParseMembers(src, s + 1, fits).error)
  {
  }

  // ---------------------------------------------------------------------------
  // Numbers

  lemma OneIsALiteral()
    ensures HasDigit("1") && DecimalLiteral("1")
  {
    assert IsDigit("1"[0]);
    assert ExponentStart("1") == 1 && "1"[..1] == "1";
  }

  /** `1,` is the number 1: the comma is never read. */
  lemma TrailingCommaExample(fits: RangeCheck)
    requires fits("1")
    ensures Parse("1,", fits) == Success(Number(Num("1")))
  {
    assert "1,"[0..1] == "1";
    OneIsALiteral();
    NumberValue("1,", 0, fits, 0, 1);
  }

  /** A digit straight after a closed array is never looked at: `[]5` is accepted
      as the empty array. */
  lemma ArrayThenDigit(fits: RangeCheck)
    ensures Parse("[]5", fits) == Success(Array([]))
  {
  }

  /** `1.` converts whole, so it is accepted. */
  lemma TrailingDotAccepted(fits: RangeCheck)
    requires fits("1.")
    ensures Parse("1.", fits) == Success(Number(Num("1.")))
  {
    assert "1."[0..2] == "1.";
    assert IsDigit("1."[0]);
    assert ExponentStart("1.") == 2 && "1."[..2] == "1.";
    NumberValue("1.", 0, fits, 0, 2);
  }

  /** `1e++3` is one run of number characters, of which `stod` converts only `1`. */
  lemma DoubleSignRejected(fits: RangeCheck)
    ensures Parse("1e++3", fits) == Failure("Invalid number format")
  {
    var src := "1e++3";
    assert NumberRunEnd(src, 0) == 5;
    assert src[0..5] == src;
    assert IsDigit(src[0]);
    assert StrtodLength(src) == 1 by {
      assert DigitRunEnd(src, 0) == 1;
      assert DigitRunEnd(src, 2) == 2;
    }
    DispatchNumber(src, 0, fits, 0);
  }

  /** A lone `-` has no digit, and `.5` does not start a value. */
  lemma NumberStartErrors(fits: RangeCheck)
    ensures Parse("-", fits) == Failure("Number without digits")
    ensures Parse(".5", fits) == Failure("Unexpected character '.'")
  {
    assert "-"[0..1] == "-";
    DispatchNumber("-", 0, fits, 0);
    DispatchOther(".5", 0, fits, 0);
  }
}
