/** What the parser reads at a given index, for the shapes of text the printer
    writes: a number lexeme, a string without escapes, a container whose elements
    are read one after the other. These are the parser-side steps of the round
    trip; they say nothing about printing. */
module Reading {
  import opened Wrappers
  import opened CharClasses
  import opened JsonValues
  import opened NumberLexing
  import opened Parser
  import opened ParserSteps
  import opened ParserShape
  import opened ParserProperties
  import opened TextAt

  /** Text that needs no escaping. */
  predicate Plain(s: string) {
    forall k | 0 <= k < |s| :: s[k] != '"' && s[k] != '\\'
  }

  /** A number text that `parseValue` sends to `parseNumber` and that `parseNumber`
      accepts whole: it starts with a digit or `-`, consists of number characters,
      and converts. */
  predicate Lexeme(t: string, fits: RangeCheck) {
    && |t| > 0
    && (IsDigit(t[0]) || t[0] == '-')
    && (forall k | 0 <= k < |t| :: IsNumberChar(t[k]))
    && Converts(t, fits)
  }

  /** `parseNumber`'s conversion accepts `t`. It is stated for every text equal to
      `t` and comes into play only where a proof names the conversion of such a
      text, so that the number grammar is not unfolded everywhere a tree's
      printability is in scope. */
  predicate Converts(t: string, fits: RangeCheck) {
    forall u {:trigger ConvertNumber(u, fits)} | u == t :: ConvertNumber(u, fits).Success?
  }

  /** The texts that convert are the in-range decimal literals with a digit. */
  lemma LexemeShape(t: string, fits: RangeCheck)
    ensures Lexeme(t, fits) <==>
      && |t| > 0
      && (IsDigit(t[0]) || t[0] == '-')
      && (forall k | 0 <= k < |t| :: IsNumberChar(t[k]))
      && HasDigit(t) && DecimalLiteral(t) && fits(t)
  {
    ConvertNumberSpec(t, fits);
  }

  // ---------------------------------------------------------------------------
  // What is read where. Each fact is stated for every index equal to the given
  // one, so that the parser's definition comes into play only where a proof names
  // the parser at that index.

  /** `parseValue` from `i` reads `v` and stops at `e`. */
  predicate ReadsValue(src: string, i: nat, fits: RangeCheck, v: Value, e: nat) {
    forall j: nat {:trigger ParseValue(src, j, fits)} | j == i ::
      j <= |src| && ParseValue(src, j, fits) == Success(Parsed(v, e))
  }

  /** The element loop from `k` reads `items`, closing `]` included, and stops at
      `e`. */
  predicate ReadsItems(src: string, k: nat, fits: RangeCheck, items: seq<Value>, e: nat) {
    forall j: nat {:trigger ParseItems(src, j, fits)} | j == k ::
      j <= |src| && ParseItems(src, j, fits) == Success(Parsed(items, e))
  }

  /** The member loop from `k` reads `entries`, closing `}` included. */
  predicate ReadsMembers(src: string, k: nat, fits: RangeCheck, entries: seq<(string, Value)>, e: nat) {
    forall j: nat {:trigger ParseMembers(src, j, fits)} | j == k ::
      j <= |src| && ParseMembers(src, j, fits) == Success(Parsed(entries, e))
  }

  /** One `"key": value` read from `k`. */
  predicate ReadsEntry(src: string, k: nat, fits: RangeCheck, entry: (string, Value), e: nat) {
    forall j: nat {:trigger ParseEntry(src, j, fits)} | j == k ::
      j <= |src| && ParseEntry(src, j, fits) == Success(Parsed(entry, e))
  }

  // ---------------------------------------------------------------------------
  // The parser after white space

  lemma ValueAfterSpaces(src: string, i: nat, i2: nat, fits: RangeCheck)
    requires i <= |src| && i2 <= |src| && SpaceRunEnd(src, i) == SpaceRunEnd(src, i2)
    ensures ParseValue(src, i, fits) == ParseValue(src, i2, fits)
  {
  }

  lemma ItemsAfterSpaces(src: string, k: nat, k2: nat, fits: RangeCheck)
    requires k <= |src| && k2 <= |src| && SpaceRunEnd(src, k) == SpaceRunEnd(src, k2)
    ensures ParseItems(src, k, fits) == ParseItems(src, k2, fits)
  {
    ValueAfterSpaces(src, k, k2, fits);
    ItemsDef(src, k, fits);
    ItemsDef(src, k2, fits);
  }

  lemma EntryAfterSpaces(src: string, k: nat, k2: nat, fits: RangeCheck)
    requires k <= |src| && k2 <= |src| && SpaceRunEnd(src, k) == SpaceRunEnd(src, k2)
    ensures ParseEntry(src, k, fits) == ParseEntry(src, k2, fits)
  {
    var j := SpaceRunEnd(src, k);
    if j < |src| && src[j] == '"' && ParseString(src, j).Success? {
      var key := ParseString(src, j).value;
      var c := SpaceRunEnd(src, key.next);
      if c < |src| && src[c] == ':' {
        EntryDef(src, k, fits, j, key, c);
        EntryDef(src, k2, fits, j, key, c);
      }
    }
  }

  lemma MembersAfterSpaces(src: string, k: nat, k2: nat, fits: RangeCheck)
    requires k <= |src| && k2 <= |src| && SpaceRunEnd(src, k) == SpaceRunEnd(src, k2)
    ensures ParseMembers(src, k, fits) == ParseMembers(src, k2, fits)
  {
    EntryAfterSpaces(src, k, k2, fits);
    MembersDef(src, k, fits);
    MembersDef(src, k2, fits);
  }

  // ---------------------------------------------------------------------------
  // Leaves

  lemma {:induction false} NumberRunSpan(src: string, i: nat, t: string)
    requires At(src, i, t) && (forall k | 0 <= k < |t| :: IsNumberChar(t[k]))
    requires NumberStops(src, i + |t|)
    ensures NumberRunEnd(src, i) == i + |t|
    decreases |t|
  {
    if |t| > 0 {
      AtTail(src, i, t);
      NumberRunSpan(src, i + 1, t[1..]);
    }
  }

  /** A number lexeme at `i` that a non-number character (or the end) follows is
      read whole, as the number `v` it spells. */
  lemma NumberAt(src: string, i: nat, fits: RangeCheck, t: string, v: Value)
    requires At(src, i, t) && Lexeme(t, fits) && NumberStops(src, i + |t|)
    requires v == Number(Num(t))
    ensures ReadsValue(src, i, fits, v, i + |t|)
  {
    AtIndex(src, i, t, 0);
    NoSpaceAt(src, i);
    NumberRunSpan(src, i, t);
    AtSlice(src, i, t);
    DispatchNumber(src, i, fits, i);
    assert ParseNumber(src, i, fits) == Success(Parsed(Num(t), i + |t|));
  }

  /** A plain string between quotes at `i`, the text `t`, is read whole. */
  lemma StringAt(src: string, i: nat, fits: RangeCheck, s: string, t: string, v: Value)
    requires Plain(s) && t == "\"" + s + "\"" && At(src, i, t)
    requires v == String(s)
    ensures ReadsValue(src, i, fits, v, i + |t|)
  {
    AtSplit(src, i, "\"" + s, "\"");
    AtSplit(src, i, "\"", s);
    AtIndex(src, i, "\"", 0);
    AtIndex(src, i + 1 + |s|, "\"", 0);
    AtSlice(src, i + 1, s);
    NoSpaceAt(src, i);
    DispatchString(src, i, fits, i);
    EscapePlain(s);
    ParseCharsOfEscape(src, i + 1, s);
  }

  // ---------------------------------------------------------------------------
  // Containers

  /** `[` at `i`, then `]` at once. */
  lemma ArrayThenClose(src: string, i: nat, fits: RangeCheck, v: Value, end: nat)
    requires i + 1 < |src| && src[i] == '[' && src[i + 1] == ']'
    requires v == Array([]) && end == i + 2
    ensures ReadsValue(src, i, fits, v, end)
  {
    NoSpaceAt(src, i);
    NoSpaceAt(src, i + 1);
    DispatchArray(src, i, fits, i);
    ArrayEmpty(src, i + 1, fits, i + 1);
  }

  /** `[` at `i`, then, after white space, the elements. */
  lemma ArrayThenItems(src: string, i: nat, fits: RangeCheck, p: nat, items: seq<Value>, itemsEnd: nat,
                        v: Value, end: nat)
    requires i < |src| && src[i] == '['
    requires p == SpaceRunEnd(src, i + 1) && p < |src| && src[p] != ']'
    requires ReadsItems(src, i + 1, fits, items, itemsEnd)
    requires v == Array(items) && end == itemsEnd
    ensures ReadsValue(src, i, fits, v, end)
  {
    NoSpaceAt(src, i);
    NoSpaceAt(src, p);
    DispatchArray(src, i, fits, i);
    ItemsAfterSpaces(src, i + 1, p, fits);
    ArrayOf(src, i + 1, fits, p);
  }

  /** `{` at `i`, then `}` at once. */
  lemma ObjectThenClose(src: string, i: nat, fits: RangeCheck, v: Value, end: nat)
    requires i + 1 < |src| && src[i] == '{' && src[i + 1] == '}'
    requires v == Object(map[]) && end == i + 2
    ensures ReadsValue(src, i, fits, v, end)
  {
    NoSpaceAt(src, i);
    NoSpaceAt(src, i + 1);
    DispatchObject(src, i, fits, i);
    ObjectEmpty(src, i + 1, fits, i + 1);
  }

  /** `{` at `i`, then, after white space, the members; the object holds what
      assigning them in turn leaves. */
  lemma ObjectThenMembers(src: string, i: nat, fits: RangeCheck, p: nat, entries: seq<(string, Value)>,
                           membersEnd: nat, v: Value, end: nat)
    requires i < |src| && src[i] == '{'
    requires p == SpaceRunEnd(src, i + 1) && p < |src| && src[p] != '}'
    requires ReadsMembers(src, i + 1, fits, entries, membersEnd)
    requires v == Object(Collect(entries)) && end == membersEnd
    ensures ReadsValue(src, i, fits, v, end)
  {
    NoSpaceAt(src, i);
    NoSpaceAt(src, p);
    DispatchObject(src, i, fits, i);
    MembersAfterSpaces(src, i + 1, p, fits);
    ObjectOf(src, i + 1, fits, p);
  }

  /** An element read at `p`, after the white space from `k`, then `,` and the rest
      of the elements. */
  lemma ItemThenMore(src: string, k: nat, p: nat, fits: RangeCheck, v: Value, e: nat, rest: seq<Value>, restEnd: nat,
                      items: seq<Value>, end: nat)
    requires k <= |src| && p <= |src| && SpaceRunEnd(src, k) == SpaceRunEnd(src, p)
    requires ReadsValue(src, p, fits, v, e)
    requires e < |src| && src[e] == ','
    requires ReadsItems(src, e + 1, fits, rest, restEnd)
    requires items == [v] + rest && end == restEnd
    ensures ReadsItems(src, k, fits, items, end)
  {
    ValueAfterSpaces(src, k, p, fits);
    NoSpaceAt(src, e);
    assert ParseItems(src, e + 1, fits) == Success(Parsed(rest, end));
    ItemsMore(src, k, fits, Parsed(v, e), e, Parsed(rest, end));
    assert ParseItems(src, k, fits) == Success(Parsed(items, end));
  }

  /** An element read at `p`, then white space up to `]` at `s`. */
  lemma ItemThenClose(src: string, k: nat, p: nat, fits: RangeCheck, v: Value, e: nat, s: nat,
                       items: seq<Value>, end: nat)
    requires k <= |src| && p <= |src| && SpaceRunEnd(src, k) == SpaceRunEnd(src, p)
    requires ReadsValue(src, p, fits, v, e)
    requires e <= |src| && s == SpaceRunEnd(src, e) && s < |src| && src[s] == ']'
    requires items == [v] && end == s + 1
    ensures ReadsItems(src, k, fits, items, end)
  {
    ValueAfterSpaces(src, k, p, fits);
    ItemsLast(src, k, fits, Parsed(v, e), s);
  }

  lemma EntryThenMore(src: string, k: nat, p: nat, fits: RangeCheck, entry: (string, Value), e: nat,
                      rest: seq<(string, Value)>, restEnd: nat, entries: seq<(string, Value)>, end: nat)
    requires k <= |src| && p <= |src| && SpaceRunEnd(src, k) == SpaceRunEnd(src, p)
    requires ReadsEntry(src, p, fits, entry, e)
    requires e < |src| && src[e] == ','
    requires ReadsMembers(src, e + 1, fits, rest, restEnd)
    requires entries == [entry] + rest && end == restEnd
    ensures ReadsMembers(src, k, fits, entries, end)
  {
    EntryAfterSpaces(src, k, p, fits);
    NoSpaceAt(src, e);
    assert ParseMembers(src, e + 1, fits) == Success(Parsed(rest, end));
    MembersMore(src, k, fits, Parsed(entry, e), e, Parsed(rest, end));
    assert ParseMembers(src, k, fits) == Success(Parsed(entries, end));
  }

  lemma EntryThenClose(src: string, k: nat, p: nat, fits: RangeCheck, entry: (string, Value), e: nat, s: nat,
                        entries: seq<(string, Value)>, end: nat)
    requires k <= |src| && p <= |src| && SpaceRunEnd(src, k) == SpaceRunEnd(src, p)
    requires ReadsEntry(src, p, fits, entry, e)
    requires e <= |src| && s == SpaceRunEnd(src, e) && s < |src| && src[s] == '}'
    requires entries == [entry] && end == s + 1
    ensures ReadsMembers(src, k, fits, entries, end)
  {
    EntryReadAfterSpaces(src, k, p, fits, entry, e);
    LastEntry(src, k, fits, entry, e, s);
  }

  /** An entry read after white space is read from anywhere in that white space. */
  lemma EntryReadAfterSpaces(src: string, k: nat, p: nat, fits: RangeCheck, entry: (string, Value), e: nat)
    requires k <= |src| && p <= |src| && SpaceRunEnd(src, k) == SpaceRunEnd(src, p)
    requires ReadsEntry(src, p, fits, entry, e)
    ensures ReadsEntry(src, k, fits, entry, e)
  {
    assert ParseEntry(src, p, fits) == Success(Parsed(entry, e));
    EntryAfterSpaces(src, k, p, fits);
  }

  /** An entry read at `k` and then `}` after white space end the member loop. */
  lemma LastEntry(src: string, k: nat, fits: RangeCheck, entry: (string, Value), e: nat, s: nat)
    requires ReadsEntry(src, k, fits, entry, e)
    requires e <= |src| && s == SpaceRunEnd(src, e) && s < |src| && src[s] == '}'
    ensures ReadsMembers(src, k, fits, [entry], s + 1)
  {
    assert ParseEntry(src, k, fits) == Success(Parsed(entry, e));
    MembersDef(src, k, fits);
    MembersAfterLast(src, ParseEntry(src, k, fits), fits, Parsed(entry, e), s);
  }

  /** A plain key between quotes at `j`, then `:` and a space, then a value read
      from the first character after them. */
  lemma KeyThenValue(src: string, j: nat, fits: RangeCheck, key: string, v: Value, valueEnd: nat,
                      entry: (string, Value), e: nat)
    requires Plain(key) && At(src, j, "\"" + key + "\": ")
    requires ReadsValue(src, j + 4 + |key|, fits, v, valueEnd)
    requires j + 4 + |key| < |src| && !IsSpace(src[j + 4 + |key|])
    requires entry == (key, v) && e == valueEnd
    ensures ReadsEntry(src, j, fits, entry, e)
  {
    var q := j + 1 + |key|;
    KeyAt(src, j, key);
    NoSpaceAt(src, q + 3);
    ValueAfterSpaces(src, q + 2, q + 3, fits);
    assert ParseValue(src, q + 3, fits) == Success(Parsed(v, e));
    EntryOf(src, j, fits, j, Parsed(key, q + 1), q + 1, Parsed(v, e));
  }

  /** A plain key between quotes at `j`, then `:` and a space: the key is read
      there, and the value is read from after the space. */
  lemma KeyAt(src: string, j: nat, key: string)
    requires Plain(key) && At(src, j, "\"" + key + "\": ")
    ensures j + 4 + |key| <= |src|
    ensures SpaceRunEnd(src, j) == j && src[j] == '"'
    ensures ParseString(src, j) == Success(Parsed(key, j + 2 + |key|))
    ensures SpaceRunEnd(src, j + 2 + |key|) == j + 2 + |key| && src[j + 2 + |key|] == ':'
    ensures SpaceRunEnd(src, j + 3 + |key|) == SpaceRunEnd(src, j + 4 + |key|)
  {
    var q := j + 1 + |key|;
    AtSplit(src, j, "\"" + key, "\": ");
    AtSplit(src, j, "\"", key);
    AtIndex(src, j, "\"", 0);
    AtSlice(src, j + 1, key);
    AtIndex(src, q, "\": ", 0);
    AtIndex(src, q, "\": ", 1);
    AtIndex(src, q, "\": ", 2);
    NoSpaceAt(src, j);
    EscapePlain(key);
    ParseCharsOfEscape(src, j + 1, key);
    NoSpaceAt(src, q + 1);
  }
}
