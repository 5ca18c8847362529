/** Properties of `printJson`: what the leaves print as, that compact mode writes no
    layout of its own, and that strings are written without escaping. */
module FormatterProperties {
  import opened Wrappers
  import opened JsonValues
  import opened Parser
  import opened Formatter

  /** A null `shared_ptr` and a `Null` both print `null`; a `Bool` prints `true` or
      `false`; a string prints between quotes as it is. */
  lemma LeafTexts(indent: int, st: Style, b: bool, s: string)
    ensures PrintJson(None, indent, st) == "null"
    ensures PrintJson(Some(Null), indent, st) == "null"
    ensures Print(Bool(b), indent, st) == if b then "true" else "false"
    ensures Print(String(s), indent, st) == ['"'] + s + ['"']
  {
  }

  /** In compact mode the text does not depend on `indent`: no indentation is
      written at any depth. */
  lemma {:induction false} CompactIgnoresIndent(v: Value, a: int, b: int, st: Style)
    requires st.compact
    ensures Print(v, a, st) == Print(v, b, st)
    decreases v, 1
  {
    match v
    case Array(items) =>
      ItemsIgnoreIndent(items, 0, a, b, st);
    case Object(m) =>
      MembersIgnoreIndent(m, 0, a, b, st);
    case _ =>
  }

  lemma {:induction false} ItemsIgnoreIndent(items: seq<Value>, i: nat, a: int, b: int, st: Style)
    requires st.compact && i <= |items|
    ensures PrintItems(items, i, a, st) == PrintItems(items, i, b, st)
    decreases Array(items), 0, |items| - i
  {
    if i < |items| {
      CompactIgnoresIndent(items[i], a + st.step, b + st.step, st);
      ItemsIgnoreIndent(items, i + 1, a, b, st);
    }
  }

  lemma {:induction false} MembersIgnoreIndent(m: map<string, Value>, i: nat, a: int, b: int, st: Style)
    requires st.compact && i <= |st.order(m)|
    ensures PrintMembers(m, i, a, st) == PrintMembers(m, i, b, st)
    decreases Object(m), 0, |st.order(m)| - i
  {
    var keys := st.order(m);
    if i < |keys| {
      assert keys[i] in m;
      CompactIgnoresIndent(m[keys[i]], a + st.step, b + st.step, st);
      MembersIgnoreIndent(m, i + 1, a, b, st);
    }
  }

  /** No string, key or number text in the tree holds a line break. */
  predicate NoNewlines(v: Value, show: Num -> string) {
    match v
    case Null => true
    case Bool(_) => true
    case Number(n) => '\n' !in show(n)
    case String(s) => '\n' !in s
    case Array(items) => forall i | 0 <= i < |items| :: NoNewlines(items[i], show)
    case Object(m) => forall k | k in m :: '\n' !in k && NoNewlines(m[k], show)
  }

  /** Compact output holds a line break only where a string, a key or a number text
      brings one. */
  lemma {:induction false} CompactNoNewline(v: Value, indent: int, st: Style)
    requires st.compact && NoNewlines(v, st.show)
    ensures '\n' !in Print(v, indent, st)
    decreases v, 1
  {
    match v
    case Array(items) =>
      forall j | 0 <= j < |items|
        ensures '\n' !in Print(items[j], indent + st.step, st)
      {
        CompactNoNewline(items[j], indent + st.step, st);
      }
      ItemsNoNewline(items, 0, indent, st);
    case Object(m) =>
      MembersNoNewline(m, 0, indent, st);
    case _ =>
  }

  /** The element loop brings no line break when no element's text holds one. */
  lemma {:induction false} ItemsNoNewline(items: seq<Value>, i: nat, indent: int, st: Style)
    requires st.compact && i <= |items|
    requires forall j | 0 <= j < |items| :: '\n' !in Print(items[j], indent + st.step, st)
    ensures '\n' !in PrintItems(items, i, indent, st)
    decreases |items| - i
  {
    if i < |items| {
      ItemsNoNewline(items, i + 1, indent, st);
      ItemLine(items, i, indent, st);
    }
  }

  /** Element `i`'s line, when neither its printed text nor the loop's text after it
      holds a line break. */
  lemma ItemLine(items: seq<Value>, i: nat, indent: int, st: Style)
    requires st.compact && i < |items| && '\n' !in Print(items[i], indent + st.step, st)
    requires '\n' !in PrintItems(items, i + 1, indent, st)
    ensures '\n' !in PrintItems(items, i, indent, st)
  {
    LineNoNewline(Print(items[i], indent + st.step, st), i, |items|, indent, st, PrintItems(items, i + 1, indent, st));
  }

  lemma {:induction false} MembersNoNewline(m: map<string, Value>, i: nat, indent: int, st: Style)
    requires st.compact && i <= |st.order(m)|
    requires forall k | k in m :: '\n' !in k && NoNewlines(m[k], st.show)
    ensures '\n' !in PrintMembers(m, i, indent, st)
    decreases Object(m), 0, |st.order(m)| - i, 1
  {
    if i < |st.order(m)| {
      MembersNoNewline(m, i + 1, indent, st);
      MemberNoNewline(m, i, indent, st);
    }
  }

  /** Member `i`'s line brings no line break into the loop's text. */
  lemma {:induction false} MemberNoNewline(m: map<string, Value>, i: nat, indent: int, st: Style)
    requires st.compact && i < |st.order(m)|
    requires forall k | k in m :: '\n' !in k && NoNewlines(m[k], st.show)
    requires '\n' !in PrintMembers(m, i + 1, indent, st)
    ensures '\n' !in PrintMembers(m, i, indent, st)
    decreases Object(m), 0, |st.order(m)| - i, 0
  {
    var k := st.order(m)[i];
    assert k in m;
    var v := m[k];
    CompactNoNewline(v, indent + st.step, st);
    MemberLine(m, i, indent, st, k, Print(v, indent + st.step, st), PrintMembers(m, i + 1, indent, st));
  }

  /** Member `i`'s line, given its key, its value's printed text and the loop's text
      after it. */
  lemma MemberLine(m: map<string, Value>, i: nat, indent: int, st: Style, k: string, text: string, rest: string)
    requires st.compact && i < |st.order(m)| && k == st.order(m)[i] && k in m
    requires '\n' !in k && '\n' !in text && '\n' !in rest
    requires text == Print(m[k], indent + st.step, st) && rest == PrintMembers(m, i + 1, indent, st)
    ensures '\n' !in PrintMembers(m, i, indent, st)
  {
    EntryNoNewline(k, text);
    LineNoNewline(Entry(k, text), i, |m|, indent, st, rest);
  }

  lemma EntryNoNewline(key: string, text: string)
    requires '\n' !in key && '\n' !in text
    ensures '\n' !in Entry(key, text)
  {
  }

  /** A compact line followed by more text: no line break unless its text or the rest
      brings one. */
  lemma LineNoNewline(text: string, i: nat, size: nat, indent: int, st: Style, rest: string)
    requires st.compact && '\n' !in text && '\n' !in rest
    ensures '\n' !in Lead(indent, st) + text + Comma(i, size) + Eol(st) + rest
  {
  }



  /** Strings are not escaped. The one-character string `"` prints as three quotes,
      which read back as the empty string, and the one-character string `\` escapes
      the closing quote, so the text ends inside the string. Which strings do read
      back is stated by `RoundTrip.StringRoundTripIff`. */
  lemma QuotesNotEscaped(indent: int, st: Style, fits: RangeCheck)
    ensures Parse(Print(String("\""), indent, st), fits) == Success(String(""))
    ensures Parse(Print(String("\\"), indent, st), fits) == Failure("Unterminated string")
  {
    var quote := Print(String("\""), indent, st);
    assert quote == ['"', '"', '"'];
    var backslash := Print(String("\\"), indent, st);
    assert backslash == ['"', '\\', '"'];
    assert ParseChars(backslash, 3) == Failure("Unterminated string");
  }
}
