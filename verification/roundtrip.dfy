/** Printing and parsing: a tree that `printJson` writes is read back by
    `JsonParser::parse` to the same tree, in compact and in pretty mode, provided
    nothing in it falls into what either side mishandles: no `Null` or `Bool` (the
    parser never accepts the literals), no `"` or `\` in a string or key (the printer
    does not escape them), and number texts the parser accepts. A number comes back
    as the number its printed text spells, which is the number itself when that text
    is its own literal. */
module RoundTrip {
  import opened Wrappers
  import opened CharClasses
  import opened JsonValues
  import opened NumberLexing
  import opened Parser
  import opened ParserShape
  import opened ParserProperties
  import opened ParserSteps
  import opened Formatter
  import opened TextAt
  import opened Reading

  // ---------------------------------------------------------------------------
  // Which trees survive

  /** Trees the printer writes readably: no `Null` or `Bool`, plain strings and
      keys, and numbers whose printed text is a lexeme the parser accepts. */
  predicate Printable(v: Value, show: Num -> string, fits: RangeCheck) {
    match v
    case Null => false
    case Bool(_) => false
    case Number(n) => Lexeme(show(n), fits)
    case String(s) => Plain(s)
    case Array(items) => forall i | 0 <= i < |items| :: Printable(items[i], show, fits)
    case Object(m) => forall k | k in m :: Plain(k) && Printable(m[k], show, fits)
  }

  /** The tree read back from the printed text of `v`: every number becomes the
      number its printed text spells, and nothing else changes. */
  function Reread(v: Value, show: Num -> string): Value
    decreases v
  {
    match v
    case Number(n) => Number(Num(show(n)))
    case Array(items) => Array(seq(|items|, i requires 0 <= i < |items| => Reread(items[i], show)))
    case Object(m) => Object(map k | k in m :: Reread(m[k], show))
    case _ => v
  }

  /** Every number of `v` is printed as its own literal. */
  predicate ShowsLiterals(v: Value, show: Num -> string) {
    match v
    case Number(n) => show(n) == n.literal
    case Array(items) => forall i | 0 <= i < |items| :: ShowsLiterals(items[i], show)
    case Object(m) => forall k | k in m :: ShowsLiterals(m[k], show)
    case _ => true
  }

  /** When every number is printed as its own literal, reading back changes nothing. */
  lemma {:induction false} RereadLiterals(v: Value, show: Num -> string)
    requires ShowsLiterals(v, show)
    ensures Reread(v, show) == v
    decreases v
  {
    match v
    case Number(n) =>
    case Array(items) =>
      forall i | 0 <= i < |items|
        ensures Reread(items[i], show) == items[i]
      {
        RereadLiterals(items[i], show);
      }
      assert Reread(v, show).items == items;
    case Object(m) =>
      forall k | k in m
        ensures Reread(m[k], show) == m[k]
      {
        RereadLiterals(m[k], show);
      }
      assert Reread(v, show).members == m;
    case _ =>
  }

  /** The layout the printer adds is white space. */
  lemma LayoutIsSpace(size: nat, indent: int, st: Style)
    ensures AllSpace(Open(size, st)) && AllSpace(Close(size, indent, st))
    ensures AllSpace(Lead(indent, st)) && AllSpace(Eol(st))
  {
  }

  // ---------------------------------------------------------------------------
  // Where the printed pieces sit

  /** The first character of a printed value that can be read back. */
  predicate HeadChar(c: char) {
    c == '[' || c == '{' || c == '"' || IsDigit(c) || c == '-'
  }

  lemma PrintHead(v: Value, indent: int, st: Style, fits: RangeCheck)
    requires Printable(v, st.show, fits)
    ensures |Print(v, indent, st)| > 0 && HeadChar(Print(v, indent, st)[0])
  {
  }

  /** A printed value at `p`: nothing before it is skipped at `p`. */
  lemma ValueStart(v: Value, indent: int, st: Style, fits: RangeCheck, src: string, p: nat)
    requires Printable(v, st.show, fits) && At(src, p, Print(v, indent, st))
    ensures p < |src| && HeadChar(src[p]) && SpaceRunEnd(src, p) == p
  {
    PrintHead(v, indent, st, fits);
    AtIndex(src, p, Print(v, indent, st), 0);
    NoSpaceAt(src, p);
  }

  /** One line of a container at `k`, after white space `w`: the lead, a value's
      text, an optional comma, the line end, the lines after it, the closing layout
      and the bracket. The text starts where the white space ends; after it comes
      either the comma and the rest, or only white space before the bracket. */
  lemma LineLayout(src: string, k: nat, w: string, lead: string, text: string, comma: string, eol: string,
                   rest: string, close: string, bracket: char, p: nat, e: nat)
    requires AllSpace(w) && AllSpace(lead) && AllSpace(eol) && AllSpace(close)
    requires |text| > 0 && !IsSpace(text[0])
    requires comma == "," || (comma == "" && rest == "")
    requires !IsSpace(bracket) && !IsNumberChar(bracket)
    requires At(src, k, w + (lead + text + comma + eol + rest + close + [bracket]))
    requires p == k + |w| + |lead| && e == p + |text|
    ensures SpaceRunEnd(src, k) == p && At(src, p, text) && NumberStops(src, e)
    ensures comma == "," ==> e < |src| && src[e] == ',' && At(src, e + 1, eol + (rest + close + [bracket]))
    ensures comma == "" ==>
      && SpaceRunEnd(src, e) == e + |eol| + |close| < |src|
      && src[e + |eol| + |close|] == bracket
  {
    var k1 := k + |w|;
    var tail := close + [bracket];
    AtSplit(src, k, w, lead + text + comma + eol + rest + close + [bracket]);
    AtSplit(src, k1, lead + text + comma + eol + rest + close, [bracket]);
    AtSplit(src, k1, lead + text + comma + eol + rest, close);
    AtSplit(src, k1, lead + text + comma + eol, rest);
    AtSplit(src, k1, lead + text + comma, eol);
    AtSplit(src, k1, lead + text, comma);
    AtSplit(src, k1, lead, text);
    SkipSpaces(src, k, w);
    SkipSpaces(src, k1, lead);
    AtIndex(src, p, text, 0);
    var r := e + |comma| + |eol| + |rest|;
    AtJoin(src, r, close, [bracket]);
    if comma == "," {
      AtIndex(src, e, comma, 0);
      AtJoin(src, e + 1 + |eol|, rest, tail);
      AtJoin(src, e + 1, eol, rest + tail);
      assert rest + tail == rest + close + [bracket];
    } else {
      assert r == e + |eol|;
      AllSpaceConcat(eol, close);
      AtJoin(src, e, eol, close);
      AtJoin(src, e, eol + close, [bracket]);
      SkipSpaces(src, e, eol + close);
      AtIndex(src, e + |eol + close|, [bracket], 0);
      AtIndex(src, e, eol + close + [bracket], 0);
    }
  }

  /** A container at `i`: its bracket, then the opening layout and the rest. */
  lemma ContainerLayout(src: string, i: nat, bracket: string, open: string, body: string, close: string, closer: string)
    requires At(src, i, bracket + open + body + close + closer) && |bracket| == 1
    ensures i < |src| && src[i] == bracket[0]
    ensures At(src, i + 1, open + (body + close + closer))
  {
    AtSplit(src, i, bracket + open + body + close, closer);
    AtSplit(src, i, bracket + open + body, close);
    AtSplit(src, i, bracket + open, body);
    AtSplit(src, i, bracket, open);
    AtIndex(src, i, bracket, 0);
    var j := i + 1 + |open| + |body|;
    AtJoin(src, j, close, closer);
    AtJoin(src, i + 1 + |open|, body, close + closer);
    AtJoin(src, i + 1, open, body + (close + closer));
    assert body + (close + closer) == body + close + closer;
  }

  /** What the element loop has left to write from element `idx` on, closing bracket
      included. */
  function ItemsText(items: seq<Value>, idx: nat, indent: int, st: Style): string
    requires idx <= |items|
  {
    PrintItems(items, idx, indent, st) + Close(|items|, indent, st) + "]"
  }

  /** The text after white space `w` at `k` is the rest of the element loop from
      `idx`: element `idx` starts where the white space ends, and it is followed
      either by `,` and the rest, or by white space and `]`. */
  lemma ItemsLayout(items: seq<Value>, idx: nat, indent: int, st: Style, fits: RangeCheck, src: string, k: nat, w: string)
    returns (p: nat, e: nat, s: nat)
    requires Printable(Array(items), st.show, fits) && idx < |items| && AllSpace(w)
    requires At(src, k, w + ItemsText(items, idx, indent, st))
    ensures Printable(items[idx], st.show, fits)
    ensures k <= |src| && e <= |src|
    ensures p == SpaceRunEnd(src, k) && At(src, p, Print(items[idx], indent + st.step, st))
    ensures e == p + |Print(items[idx], indent + st.step, st)| && NumberStops(src, e)
    ensures idx + 1 < |items| ==>
      && e < |src| && src[e] == ','
      && At(src, e + 1, Eol(st) + ItemsText(items, idx + 1, indent, st))
      && e + 1 + |Eol(st)| + |ItemsText(items, idx + 1, indent, st)| == k + |w| + |ItemsText(items, idx, indent, st)|
    ensures idx + 1 == |items| ==>
      s == SpaceRunEnd(src, e) && s < |src| && src[s] == ']' && s + 1 == k + |w| + |ItemsText(items, idx, indent, st)|
  {
    var text := Print(items[idx], indent + st.step, st);
    var lead, comma, eol := Lead(indent, st), Comma(idx, |items|), Eol(st);
    var rest, close := PrintItems(items, idx + 1, indent, st), Close(|items|, indent, st);
    ItemsTextParts(items, idx, indent, st);
    PrintHead(items[idx], indent + st.step, st, fits);
    LayoutIsSpace(|items|, indent, st);
    p := k + |w| + |lead|;
    e := p + |text|;
    LineLayout(src, k, w, lead, text, comma, eol, rest, close, ']', p, e);
    s := e + |eol| + |close|;
  }

  /** The element loop's text from `idx` is element `idx`'s line followed by the text
      from `idx + 1`; the comma is there exactly when more elements follow. */
  lemma ItemsTextParts(items: seq<Value>, idx: nat, indent: int, st: Style)
    requires idx < |items|
    ensures ItemsText(items, idx, indent, st)
      == Lead(indent, st) + Print(items[idx], indent + st.step, st) + Comma(idx, |items|) + Eol(st)
         + PrintItems(items, idx + 1, indent, st) + Close(|items|, indent, st) + [']']
    ensures ItemsText(items, idx + 1, indent, st) == PrintItems(items, idx + 1, indent, st) + Close(|items|, indent, st) + [']']
    ensures idx + 1 < |items| ==> Comma(idx, |items|) == ","
    ensures idx + 1 == |items| ==> Comma(idx, |items|) == "" && PrintItems(items, idx + 1, indent, st) == ""
  {
  }

  function MembersText(m: map<string, Value>, idx: nat, indent: int, st: Style): string
    requires idx <= |st.order(m)|
  {
    PrintMembers(m, idx, indent, st) + Close(|m|, indent, st) + "}"
  }

  /** The same for the member loop: member `idx` starts where the white space ends,
      with its key's opening quote. */
  lemma MembersLayout(m: map<string, Value>, idx: nat, indent: int, st: Style, fits: RangeCheck, src: string, k: nat, w: string)
    returns (p: nat, e: nat, s: nat)
    requires Printable(Object(m), st.show, fits) && idx < |st.order(m)| && AllSpace(w)
    requires At(src, k, w + MembersText(m, idx, indent, st))
    ensures var key := st.order(m)[idx];
      && key in m && Plain(key) && Printable(m[key], st.show, fits)
      && p == SpaceRunEnd(src, k) && At(src, p, Entry(key, Print(m[key], indent + st.step, st)))
      && e == p + |Entry(key, Print(m[key], indent + st.step, st))|
    ensures NumberStops(src, e)
    ensures idx + 1 < |st.order(m)| ==>
      && e < |src| && src[e] == ','
      && At(src, e + 1, Eol(st) + MembersText(m, idx + 1, indent, st))
      && e + 1 + |Eol(st)| + |MembersText(m, idx + 1, indent, st)| == k + |w| + |MembersText(m, idx, indent, st)|
    ensures idx + 1 == |st.order(m)| ==>
      s == SpaceRunEnd(src, e) && s < |src| && src[s] == '}' && s + 1 == k + |w| + |MembersText(m, idx, indent, st)|
  {
    var keys := st.order(m);
    EnumerationSize(keys, m.Keys);
    var key := keys[idx];
    assert key in m;
    var text := Entry(key, Print(m[key], indent + st.step, st));
    var lead, comma, eol := Lead(indent, st), Comma(idx, |m|), Eol(st);
    var rest, close := PrintMembers(m, idx + 1, indent, st), Close(|m|, indent, st);
    MembersTextParts(m, idx, indent, st);
    assert text[0] == '"';
    LayoutIsSpace(|m|, indent, st);
    p := k + |w| + |lead|;
    e := p + |text|;
    LineLayout(src, k, w, lead, text, comma, eol, rest, close, '}', p, e);
    s := e + |eol| + |close|;
  }

  /** The member loop's text from `idx` is member `idx`'s line followed by the text
      from `idx + 1`. */
  lemma MembersTextParts(m: map<string, Value>, idx: nat, indent: int, st: Style)
    requires idx < |st.order(m)|
    ensures st.order(m)[idx] in m
    ensures MembersText(m, idx, indent, st)
      == Lead(indent, st) + Entry(st.order(m)[idx], Print(m[st.order(m)[idx]], indent + st.step, st))
         + Comma(idx, |m|) + Eol(st) + PrintMembers(m, idx + 1, indent, st) + Close(|m|, indent, st) + ['}']
    ensures MembersText(m, idx + 1, indent, st) == PrintMembers(m, idx + 1, indent, st) + Close(|m|, indent, st) + ['}']
    ensures idx + 1 < |st.order(m)| ==> Comma(idx, |m|) == ","
    ensures idx + 1 == |st.order(m)| ==> Comma(idx, |m|) == "" && PrintMembers(m, idx + 1, indent, st) == ""
  {
    EnumerationSize(st.order(m), m.Keys);
    assert st.order(m)[idx] in m;
  }

  /** A printed array: `[` at `i`, then the opening layout and the element loop. */
  lemma ArrayLayout(items: seq<Value>, indent: int, st: Style, src: string, i: nat)
    requires At(src, i, Print(Array(items), indent, st))
    ensures i < |src| && src[i] == '['
    ensures At(src, i + 1, Open(|items|, st) + ItemsText(items, 0, indent, st))
    ensures |Print(Array(items), indent, st)| == 1 + |Open(|items|, st)| + |ItemsText(items, 0, indent, st)|
  {
    ContainerLayout(src, i, "[", Open(|items|, st), PrintItems(items, 0, indent, st), Close(|items|, indent, st), "]");
  }

  lemma ObjectLayout(m: map<string, Value>, indent: int, st: Style, src: string, i: nat)
    requires At(src, i, Print(Object(m), indent, st))
    ensures i < |src| && src[i] == '{'
    ensures At(src, i + 1, Open(|m|, st) + MembersText(m, 0, indent, st))
    ensures |Print(Object(m), indent, st)| == 1 + |Open(|m|, st)| + |MembersText(m, 0, indent, st)|
  {
    ContainerLayout(src, i, "{", Open(|m|, st), PrintMembers(m, 0, indent, st), Close(|m|, indent, st), "}");
  }

  /** A printed member: the key between quotes, then `:` and a space, then the value. */
  lemma EntryLayout(key: string, text: string, src: string, j: nat)
    requires At(src, j, Entry(key, text))
    ensures At(src, j, "\"" + key + "\": ") && At(src, j + 4 + |key|, text)
    ensures |Entry(key, text)| == 4 + |key| + |text|
  {
    AtSplit(src, j, "\"" + key + "\": ", text);
  }

  // ---------------------------------------------------------------------------
  // The same layout, with the printed texts named only under a trigger

  /** The text of `v` sits at `i` and ends at `e`. The quantifier names the text
      only where a proof mentions `Print(v, indent, st)`, so the reading proofs
      below carry the position facts without the text's structure. */
  predicate PrintedAt(src: string, i: nat, v: Value, indent: int, st: Style, e: nat) {
    forall u {:trigger Print(u, indent, st)} | u == v ::
      At(src, i, Print(u, indent, st)) && e == i + |Print(u, indent, st)|
  }

  /** White space `w` and then the rest of the element loop from `idx` sit at `k`,
      ending at `end`. */
  predicate ItemsAt(src: string, k: nat, w: string, items: seq<Value>, idx: nat, indent: int, st: Style, end: nat)
    requires idx <= |items|
  {
    forall u {:trigger ItemsText(u, idx, indent, st)} | u == items ::
      At(src, k, w + ItemsText(u, idx, indent, st)) && end == k + |w| + |ItemsText(u, idx, indent, st)|
  }

  /** The same for the member loop. */
  predicate MembersAt(src: string, k: nat, w: string, m: map<string, Value>, idx: nat, indent: int, st: Style, end: nat)
    requires idx <= |st.order(m)|
  {
    forall u {:trigger MembersText(u, idx, indent, st)} | u == m ::
      At(src, k, w + MembersText(u, idx, indent, st)) && end == k + |w| + |MembersText(u, idx, indent, st)|
  }

  /** The member `key` with the text of `v` sits at `j` and ends at `e`. */
  predicate EntryAt(src: string, j: nat, key: string, v: Value, indent: int, st: Style, e: nat) {
    forall u {:trigger Print(u, indent, st)} | u == v ::
      At(src, j, Entry(key, Print(u, indent, st))) && e == j + |Entry(key, Print(u, indent, st))|
  }

  /** A printed array at `i`: `[`, then either `]` at once, or the opening layout
      and the element loop, whose first element starts where that layout ends. */
  lemma ArrayOpening(items: seq<Value>, indent: int, st: Style, fits: RangeCheck, src: string, i: nat, e: nat)
    returns (p: nat)
    requires Printable(Array(items), st.show, fits) && PrintedAt(src, i, Array(items), indent, st, e)
    ensures i < |src| && src[i] == '['
    ensures |items| == 0 ==> i + 1 < |src| && src[i + 1] == ']' && e == i + 2
    ensures |items| > 0 ==>
      && AllSpace(Open(|items|, st)) && ItemsAt(src, i + 1, Open(|items|, st), items, 0, indent, st, e)
      && p == SpaceRunEnd(src, i + 1) && p < |src| && src[p] != ']'
  {
    var text := Print(Array(items), indent, st);
    var open, rest := Open(|items|, st), ItemsText(items, 0, indent, st);
    ArrayLayout(items, indent, st, src, i);
    p := i + 1;
    if |items| == 0 {
      AtIndex(src, i + 1, open + rest, 0);
    } else {
      LayoutIsSpace(|items|, indent, st);
      var q, _, _ := ItemsLayout(items, 0, indent, st, fits, src, i + 1, open);
      ValueStart(items[0], indent + st.step, st, fits, src, q);
      p := q;
    }
  }

  /** A printed object at `i`: `{`, then either `}` at once, or the opening layout
      and the member loop, whose first key's quote comes where that layout ends. */
  lemma ObjectOpening(m: map<string, Value>, indent: int, st: Style, fits: RangeCheck, src: string, i: nat, e: nat)
    returns (p: nat)
    requires Printable(Object(m), st.show, fits) && PrintedAt(src, i, Object(m), indent, st, e)
    ensures |st.order(m)| == |m|
    ensures i < |src| && src[i] == '{'
    ensures |m| == 0 ==> i + 1 < |src| && src[i + 1] == '}' && e == i + 2
    ensures |m| > 0 ==>
      && AllSpace(Open(|m|, st)) && MembersAt(src, i + 1, Open(|m|, st), m, 0, indent, st, e)
      && p == SpaceRunEnd(src, i + 1) && p < |src| && src[p] == '"'
  {
    var text := Print(Object(m), indent, st);
    var open, rest := Open(|m|, st), MembersText(m, 0, indent, st);
    EnumerationSize(st.order(m), m.Keys);
    ObjectLayout(m, indent, st, src, i);
    p := i + 1;
    if |m| == 0 {
      AtIndex(src, i + 1, open + rest, 0);
    } else {
      p := FirstKeyAt(m, indent, st, fits, src, i + 1);
    }
  }

  /** The opening layout of a non-empty object is white space, and the first key's
      quote comes where it ends. */
  lemma FirstKeyAt(m: map<string, Value>, indent: int, st: Style, fits: RangeCheck, src: string, k: nat)
    returns (p: nat)
    requires Printable(Object(m), st.show, fits) && 0 < |st.order(m)|
    requires At(src, k, Open(|m|, st) + MembersText(m, 0, indent, st))
    ensures AllSpace(Open(|m|, st))
    ensures p == SpaceRunEnd(src, k) && p < |src| && src[p] == '"'
  {
    LayoutIsSpace(|m|, indent, st);
    var key := st.order(m)[0];
    var e, s;
    p, e, s := MembersLayout(m, 0, indent, st, fits, src, k, Open(|m|, st));
    var text := Entry(key, Print(m[key], indent + st.step, st));
    assert text[0] == '"';
    AtIndex(src, p, text, 0);
  }

  /** Element `idx` of the loop: it starts where the white space ends, and is
      followed either by `,` and the loop from `idx + 1`, or by `]`. */
  lemma ItemsStep(items: seq<Value>, idx: nat, indent: int, st: Style, fits: RangeCheck, src: string, k: nat, w: string,
                  end: nat)
    returns (p: nat, e: nat, s: nat)
    requires Printable(Array(items), st.show, fits) && idx < |items| && AllSpace(w)
    requires ItemsAt(src, k, w, items, idx, indent, st, end)
    ensures Printable(items[idx], st.show, fits)
    ensures k <= |src| && e <= |src|
    ensures p == SpaceRunEnd(src, k) && p < |src| && SpaceRunEnd(src, p) == p
    ensures PrintedAt(src, p, items[idx], indent + st.step, st, e) && NumberStops(src, e)
    ensures idx + 1 < |items| ==>
      && e < |src| && src[e] == ',' && AllSpace(Eol(st))
      && ItemsAt(src, e + 1, Eol(st), items, idx + 1, indent, st, end)
    ensures idx + 1 == |items| ==> s == SpaceRunEnd(src, e) && s < |src| && src[s] == ']' && end == s + 1
  {
    var text, next := ItemsText(items, idx, indent, st), ItemsText(items, idx + 1, indent, st);
    p, e, s := ItemsLayout(items, idx, indent, st, fits, src, k, w);
    ValueStart(items[idx], indent + st.step, st, fits, src, p);
    LayoutIsSpace(|items|, indent, st);
  }

  /** Member `idx` of the loop: its key's quote comes where the white space ends,
      and it is followed either by `,` and the loop from `idx + 1`, or by `}`. */
  lemma MembersStep(m: map<string, Value>, idx: nat, indent: int, st: Style, fits: RangeCheck, src: string, k: nat,
                    w: string, end: nat)
    returns (p: nat, e: nat, s: nat)
    requires Printable(Object(m), st.show, fits) && idx < |st.order(m)| && AllSpace(w)
    requires MembersAt(src, k, w, m, idx, indent, st, end)
    ensures var key := st.order(m)[idx];
      && key in m && Plain(key) && Printable(m[key], st.show, fits)
      && EntryAt(src, p, key, m[key], indent + st.step, st, e)
    ensures k <= |src| && e <= |src|
    ensures p == SpaceRunEnd(src, k) && p < |src| && SpaceRunEnd(src, p) == p && NumberStops(src, e)
    ensures idx + 1 < |st.order(m)| ==>
      && e < |src| && src[e] == ',' && AllSpace(Eol(st))
      && MembersAt(src, e + 1, Eol(st), m, idx + 1, indent, st, end)
    ensures idx + 1 == |st.order(m)| ==> s == SpaceRunEnd(src, e) && s < |src| && src[s] == '}' && end == s + 1
  {
    var text, next := MembersText(m, idx, indent, st), MembersText(m, idx + 1, indent, st);
    var key := st.order(m)[idx];
    p, e, s := MembersLayout(m, idx, indent, st, fits, src, k, w);
    var entry := Entry(key, Print(m[key], indent + st.step, st));
    AtIndex(src, p, entry, 0);
    NoSpaceAt(src, p);
    LayoutIsSpace(|m|, indent, st);
  }

  /** A printed member: the key between quotes, `:` and a space, and the value,
      which starts with no white space before it. */
  lemma EntryOpening(key: string, v: Value, indent: int, st: Style, fits: RangeCheck, src: string, j: nat, e: nat)
    requires Printable(v, st.show, fits) && EntryAt(src, j, key, v, indent, st, e)
    ensures At(src, j, "\"" + key + "\": ")
    ensures PrintedAt(src, j + 4 + |key|, v, indent, st, e)
    ensures j + 4 + |key| < |src| && !IsSpace(src[j + 4 + |key|])
  {
    var text := Print(v, indent, st);
    EntryLayout(key, text, src, j);
    ValueStart(v, indent, st, fits, src, j + 4 + |key|);
  }

  // ---------------------------------------------------------------------------
  // Reading the text back

  /** A printed value, wherever it sits in a text, is read back, with its numbers
      reread, and the reading stops right after it; only a number needs a
      non-number character (or the end) after it. */
  lemma {:induction false} ValueRoundTrip(v: Value, indent: int, st: Style, fits: RangeCheck, src: string, i: nat, e: nat)
    requires Printable(v, st.show, fits) && PrintedAt(src, i, v, indent, st, e)
    requires v.Number? ==> NumberStops(src, e)
    ensures ReadsValue(src, i, fits, Reread(v, st.show), e)
    decreases v, 1
  {
    match v
    case Number(n) =>
      var r := Number(Num(st.show(n)));
      assert Reread(v, st.show) == r;
      NumberAt(src, i, fits, Print(v, indent, st), r);
    case String(s) =>
      assert Reread(v, st.show) == v;
      StringAt(src, i, fits, s, Print(v, indent, st), v);
    case Array(items) =>
      ArrayRoundTrip(items, indent, st, fits, src, i, e);
    case Object(m) =>
      ObjectRoundTrip(m, indent, st, fits, src, i, e);
  }

  lemma {:induction false} ArrayRoundTrip(items: seq<Value>, indent: int, st: Style, fits: RangeCheck, src: string,
                                          i: nat, e: nat)
    requires Printable(Array(items), st.show, fits) && PrintedAt(src, i, Array(items), indent, st, e)
    ensures ReadsValue(src, i, fits, Reread(Array(items), st.show), e)
    decreases Array(items), 0
  {
    var v := Reread(Array(items), st.show);
    var p := ArrayOpening(items, indent, st, fits, src, i, e);
    if |items| == 0 {
      ArrayThenClose(src, i, fits, v, e);
    } else {
      ItemsRoundTrip(items, 0, indent, st, fits, src, i + 1, Open(|items|, st), e);
      var all := v.items[0..];
      assert all == v.items;
      ArrayThenItems(src, i, fits, p, all, e, v, e);
    }
  }

  lemma {:induction false} ItemsRoundTrip(items: seq<Value>, idx: nat, indent: int, st: Style, fits: RangeCheck,
                                          src: string, k: nat, w: string, end: nat)
    requires Printable(Array(items), st.show, fits) && idx < |items| && AllSpace(w)
    requires ItemsAt(src, k, w, items, idx, indent, st, end)
    ensures ReadsItems(src, k, fits, Reread(Array(items), st.show).items[idx..], end)
    decreases Array(items), 0, |items| - idx
  {
    var read := Reread(Array(items), st.show).items;
    var v := read[idx];
    var p, e, s := ItemsStep(items, idx, indent, st, fits, src, k, w, end);
    ValueRoundTrip(items[idx], indent + st.step, st, fits, src, p, e);
    if idx + 1 < |items| {
      ItemsRoundTrip(items, idx + 1, indent, st, fits, src, e + 1, Eol(st), end);
      var rest, all := read[idx + 1..], read[idx..];
      assert [v] + rest == all;
      ItemThenMore(src, k, p, fits, v, e, rest, end, all, end);
    } else {
      var all := read[idx..];
      assert all == [v];
      ItemThenClose(src, k, p, fits, v, e, s, all, end);
    }
  }

  lemma {:induction false} ObjectRoundTrip(m: map<string, Value>, indent: int, st: Style, fits: RangeCheck, src: string,
                                           i: nat, e: nat)
    requires Printable(Object(m), st.show, fits) && PrintedAt(src, i, Object(m), indent, st, e)
    ensures ReadsValue(src, i, fits, Reread(Object(m), st.show), e)
    decreases Object(m), 0
  {
    var v := Reread(Object(m), st.show);
    var p := ObjectOpening(m, indent, st, fits, src, i, e);
    if |m| == 0 {
      assert v.members == map[];
      ObjectThenClose(src, i, fits, v, e);
    } else {
      MembersRoundTrip(m, 0, indent, st, fits, src, i + 1, Open(|m|, st), e);
      var pairs := ReadPairs(m, st);
      var all := pairs[0..];
      assert all == pairs;
      CollectPairs(v.members, st.order(m));
      assert pairs == Pairs(v.members, st.order(m));
      ObjectThenMembers(src, i, fits, p, all, e, v, e);
    }
  }

  /** The entries of `m` in the order `keys`. */
  function Pairs(m: map<string, Value>, keys: seq<string>): seq<(string, Value)>
    requires forall n | 0 <= n < |keys| :: keys[n] in m
  {
    seq(|keys|, n requires 0 <= n < |keys| => (keys[n], m[keys[n]]))
  }

  /** The entries the member loop prints, in iteration order, with their values
      reread. */
  function ReadPairs(m: map<string, Value>, st: Style): seq<(string, Value)> {
    var keys := st.order(m);
    seq(|keys|, n requires 0 <= n < |keys| => (keys[n], Reread(m[keys[n]], st.show)))
  }

  /** Assigning the entries of a map in an order that lists each key once rebuilds
      the map. */
  lemma CollectPairs(m: map<string, Value>, keys: seq<string>)
    requires Enumerates(keys, m.Keys)
    ensures forall n | 0 <= n < |keys| :: keys[n] in m
    ensures Collect(Pairs(m, keys)) == m
  {
    var es := Pairs(m, keys);
    CollectKeys(es);
    assert Collect(es).Keys == m.Keys by {
      forall key | key in m
        ensures key in Collect(es)
      {
        var n :| 0 <= n < |keys| && keys[n] == key;
        assert es[n].0 == key;
      }
    }
    forall key | key in m
      ensures Collect(es)[key] == m[key]
    {
      CollectValues(es, key);
      var n :| 0 <= n < |es| && es[n] == (key, Collect(es)[key]);
      assert keys[n] == key;
    }
  }

  lemma {:induction false} MembersRoundTrip(m: map<string, Value>, idx: nat, indent: int, st: Style, fits: RangeCheck,
                                            src: string, k: nat, w: string, end: nat)
    requires Printable(Object(m), st.show, fits) && idx < |st.order(m)| && AllSpace(w)
    requires MembersAt(src, k, w, m, idx, indent, st, end)
    ensures ReadsMembers(src, k, fits, ReadPairs(m, st)[idx..], end)
    decreases Object(m), 0, |st.order(m)| - idx
  {
    var key := st.order(m)[idx];
    var p, e, s := MembersStep(m, idx, indent, st, fits, src, k, w, end);
    EntryRoundTrip(key, m[key], indent + st.step, st, fits, src, p, e);
    var v := Reread(m[key], st.show);
    var pairs := ReadPairs(m, st);
    if idx + 1 < |st.order(m)| {
      MembersRoundTrip(m, idx + 1, indent, st, fits, src, e + 1, Eol(st), end);
      var rest, all := pairs[idx + 1..], pairs[idx..];
      assert [(key, v)] + rest == all;
      EntryThenMore(src, k, p, fits, (key, v), e, rest, end, all, end);
    } else {
      var all := pairs[idx..];
      assert all == [(key, v)];
      EntryThenClose(src, k, p, fits, (key, v), e, s, all, end);
    }
  }

  /** One printed member, read from its opening quote. */
  lemma {:induction false} EntryRoundTrip(key: string, v: Value, indent: int, st: Style, fits: RangeCheck,
                                          src: string, j: nat, e: nat)
    requires Plain(key) && Printable(v, st.show, fits)
    requires EntryAt(src, j, key, v, indent, st, e) && NumberStops(src, e)
    ensures ReadsEntry(src, j, fits, (key, Reread(v, st.show)), e)
    decreases v, 2
  {
    EntryOpening(key, v, indent, st, fits, src, j, e);
    ValueRoundTrip(v, indent, st, fits, src, j + 4 + |key|, e);
    var read := Reread(v, st.show);
    KeyThenValue(src, j, fits, key, read, e, (key, read), e);
  }

  // ---------------------------------------------------------------------------
  // The theorem

  /** `parse(printJson(v))` gives back `v` with each number replaced by the number
      its printed text spells, in either mode, at any indentation, and gives back `v`
      itself when every number is printed as its own literal. */
  lemma PrintThenParse(v: Value, indent: int, st: Style, fits: RangeCheck)
    requires Printable(v, st.show, fits)
    ensures Parse(Print(v, indent, st), fits) == Success(Reread(v, st.show))
    ensures Parse(PrintJson(Some(v), indent, st), fits) == Success(Reread(v, st.show))
    ensures ShowsLiterals(v, st.show) ==> Parse(Print(v, indent, st), fits) == Success(v)
  {
    var src := Print(v, indent, st);
    AtWhole(src);
    assert PrintedAt(src, 0, v, indent, st, |src|);
    ValueRoundTrip(v, indent, st, fits, src, 0, |src|);
    if ShowsLiterals(v, st.show) {
      RereadLiterals(v, st.show);
    }
  }

  /** A string survives printing and parsing exactly when it holds no `"` and no
      `\`. The printer writes it between quotes as it is, so a quote in it closes
      the string early and a backslash starts an escape that stands for fewer
      characters than it spans; either way the text does not read back as the
      string. */
  lemma StringRoundTripIff(s: string, indent: int, st: Style, fits: RangeCheck)
    ensures Parse(Print(String(s), indent, st), fits) == Success(String(s)) <==> Plain(s)
  {
    var src := Print(String(s), indent, st);
    assert src == "\"" + s + "\"";
    if Parse(src, fits) == Success(String(s)) {
      NoSpaceAt(src, 0);
      DispatchString(src, 0, fits, 0);
      CharsShrink(src, 1);
      forall m | 0 <= m < |s|
        ensures s[m] != '"' && s[m] != '\\'
      {
        assert src[m + 1] == s[m];
      }
    }
    if Plain(s) {
      AtWhole(src);
      StringAt(src, 0, fits, s, src, String(s));
    }
  }
}
