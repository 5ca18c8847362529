/** `printJson` and `printIndent` (jsonformatter.cpp): the text a value is written
    as. The `std::ostream` becomes the string the call appends to it. */
module Formatter {
  import opened Wrappers
  import opened JsonValues

  /** The arguments that stay fixed through the recursion: `indentStep`, `compact`,
      how `os << double` writes a number, and the iteration order of every
      `unordered_map`. Floating-point formatting is not modelled, so the number text
      is a parameter. */
  datatype Style = Style(step: int, compact: bool, show: Num -> string, order: KeyOrder)

  /** `printIndent` (jsonformatter.cpp:3-5): `n` spaces, and none when `n` is not
      positive. */
  function Spaces(n: int): (r: string)
    ensures |r| == if n > 0 then n else 0
    ensures forall k | 0 <= k < |r| :: r[k] == ' '
    decreases if n > 0 then n else 0
  {
    if n <= 0 then [] else [' '] + Spaces(n - 1)
  }

  /** The line break after `[` or `{`: only in pretty mode, and only when the
      container has elements. */
  function Open(size: nat, st: Style): string {
    if !st.compact && size > 0 then "\n" else ""
  }

  /** The indentation before `]` or `}`, under the same condition. */
  function Close(size: nat, indent: int, st: Style): string {
    if !st.compact && size > 0 then Spaces(indent) else ""
  }

  /** The indentation that starts an element's line. */
  function Lead(indent: int, st: Style): string {
    if st.compact then "" else Spaces(indent + st.step)
  }

  /** The line break that ends an element's line. */
  function Eol(st: Style): string {
    if st.compact then "" else "\n"
  }

  /** The `,` after element `i` of `size`, except after the last. */
  function Comma(i: nat, size: nat): string {
    if i + 1 < size then "," else ""
  }

  /** `printJson` (jsonformatter.cpp:7-50) of a non-null `shared_ptr`. A string is written
      between quotes exactly as it is, without escaping. */
  function Print(v: Value, indent: int, st: Style): string
    decreases v, 1
  {
    match v
    case Null => "null"
    case Bool(b) => if b then "true" else "false"
    case Number(n) => st.show(n)
    case String(s) => "\"" + s + "\""
    case Array(items) =>
      "[" + Open(|items|, st) + PrintItems(items, 0, indent, st) + Close(|items|, indent, st) + "]"
    case Object(m) =>
      "{" + Open(|m|, st) + PrintMembers(m, 0, indent, st) + Close(|m|, indent, st) + "}"
  }

  /** The loop of the array case from element `i` on (jsonformatter.cpp:22-27). */
  function PrintItems(items: seq<Value>, i: nat, indent: int, st: Style): string
    requires i <= |items|
    decreases Array(items), 0, |items| - i
  {
    if i == |items| then ""
    else
      Lead(indent, st) + Print(items[i], indent + st.step, st) + Comma(i, |items|) + Eol(st)
      + PrintItems(items, i + 1, indent, st)
  }

  /** The loop of the object case from the `i`-th key of the iteration order on
      (jsonformatter.cpp:37-44). The comma test compares with `obj.size()`. */
  function PrintMembers(m: map<string, Value>, i: nat, indent: int, st: Style): string
    requires i <= |st.order(m)|
    decreases Object(m), 0, |st.order(m)| - i
  {
    var keys := st.order(m);
    if i == |keys| then ""
    else
      var k := keys[i];
      assert k in m;
      Lead(indent, st) + Entry(k, Print(m[k], indent + st.step, st)) + Comma(i, |m|) + Eol(st)
      + PrintMembers(m, i + 1, indent, st)
  }

  /** An object member: the key in quotes, a colon and a space, then the value. */
  function Entry(key: string, value: string): string {
    "\"" + key + "\": " + value
  }

  /** `printJson` itself: a null `shared_ptr` is written `null`. */
  function PrintJson(root: Option<Value>, indent: int, st: Style): string {
    match root
    case None => "null"
    case Some(v) => Print(v, indent, st)
  }

  // ---------------------------------------------------------------------------
  // The layout of a container, stated with a separator-joined list

  /** The parts with `sep` between each two of them. */
  function Join(sep: string, parts: seq<string>): string
    decreases |parts|
  {
    if |parts| == 0 then ""
    else if |parts| == 1 then parts[0]
    else parts[0] + sep + Join(sep, parts[1..])
  }

  /** Each element on its line: the lead and the element's text. */
  function ItemLines(items: seq<Value>, indent: int, st: Style): seq<string> {
    seq(|items|, i requires 0 <= i < |items| => Lead(indent, st) + Print(items[i], indent + st.step, st))
  }

  /** Each member on its line, in the iteration order. */
  function MemberLines(m: map<string, Value>, indent: int, st: Style): seq<string> {
    var keys := st.order(m);
    seq(|keys|, i requires 0 <= i < |keys| =>
      Lead(indent, st) + Entry(keys[i], Print(m[keys[i]], indent + st.step, st)))
  }

  /** One step of `Join` over a suffix of the parts. */
  lemma JoinStep(sep: string, parts: seq<string>, i: nat)
    requires i + 1 < |parts|
    ensures Join(sep, parts[i..]) == parts[i] + sep + Join(sep, parts[i + 1..])
  {
    assert parts[i..][1..] == parts[i + 1..];
  }

  lemma JoinLast(sep: string, parts: seq<string>)
    requires |parts| > 0
    ensures Join(sep, parts[|parts| - 1..]) == parts[|parts| - 1]
  {
  }

  lemma Regroup(a: string, b: string, c: string, d: string, e: string)
    ensures ((a + b) + c) + (d + e) == (a + (b + c) + d) + e
  {
  }

  /** The element loop writes its lines joined by `,` and a line break, then one
      more line break. */
  lemma {:induction false} ItemsJoined(items: seq<Value>, i: nat, indent: int, st: Style)
    requires i < |items|
    ensures PrintItems(items, i, indent, st) == Join("," + Eol(st), ItemLines(items, indent, st)[i..]) + Eol(st)
    decreases |items| - i
  {
    var lines := ItemLines(items, indent, st);
    var sep := "," + Eol(st);
    if i + 1 < |items| {
      ItemsJoined(items, i + 1, indent, st);
      JoinStep(sep, lines, i);
      Regroup(lines[i], ",", Eol(st), Join(sep, lines[i + 1..]), Eol(st));
    } else {
      JoinLast(sep, lines);
    }
  }

  lemma {:induction false} MembersJoined(m: map<string, Value>, i: nat, indent: int, st: Style)
    requires i < |st.order(m)|
    ensures PrintMembers(m, i, indent, st) == Join("," + Eol(st), MemberLines(m, indent, st)[i..]) + Eol(st)
    decreases |st.order(m)| - i
  {
    var lines := MemberLines(m, indent, st);
    var sep := "," + Eol(st);
    EnumerationSize(st.order(m), m.Keys);
    if i + 1 < |st.order(m)| {
      MembersJoined(m, i + 1, indent, st);
      JoinStep(sep, lines, i);
      Regroup(lines[i], ",", Eol(st), Join(sep, lines[i + 1..]), Eol(st));
    } else {
      JoinLast(sep, lines);
    }
  }

  /** Both containers print as their brackets alone when empty, in either mode. */
  lemma EmptyContainers(indent: int, st: Style)
    ensures Print(Array([]), indent, st) == "[]"
    ensures Print(Object(map[]), indent, st) == "{}"
  {
    EnumerationSize(st.order(map[]), {});
  }

  /** In compact mode an array is its elements' texts joined by `,` between the
      brackets, so `n` elements carry `n - 1` commas at this level; the lines have
      no indentation. */
  lemma CompactArray(items: seq<Value>, indent: int, st: Style)
    requires st.compact
    ensures Print(Array(items), indent, st) == "[" + Join(",", ItemLines(items, indent, st)) + "]"
    ensures forall i | 0 <= i < |items| :: ItemLines(items, indent, st)[i] == Print(items[i], indent + st.step, st)
  {
    var lines := ItemLines(items, indent, st);
    if |items| > 0 {
      ItemsJoined(items, 0, indent, st);
      assert lines[0..] == lines;
      assert "," + Eol(st) == ",";
    }
    Compacted("[", PrintItems(items, 0, indent, st), Join(",", lines), "]", Open(|items|, st), Close(|items|, indent, st));
  }

  /** Around a body that is its joined lines, empty opening and closing layout
      vanishes. */
  lemma Compacted(open: string, body: string, joined: string, close: string, o: string, c: string)
    requires o == [] && c == [] && body == joined + []
    ensures open + o + body + c + close == open + joined + close
  {
  }

  /** Pretty layout regrouped: the opening break, the joined lines with the final
      break, the closing indentation. */
  lemma Prettied(open: string, body: string, joined: string, eol: string, c: string, close: string)
    requires body == joined + eol
    ensures open + eol + body + c + close == open + eol + joined + eol + c + close
  {
  }

  /** In pretty mode a non-empty array opens a line after `[`, writes each element
      on its own line indented by `indent + step`, separates the lines with `,`, and
      indents `]` by `indent`. */
  lemma PrettyArray(items: seq<Value>, indent: int, st: Style)
    requires !st.compact && |items| > 0
    ensures Print(Array(items), indent, st)
      == "[" + "\n" + Join(",\n", ItemLines(items, indent, st)) + "\n" + Spaces(indent) + "]"
    ensures forall i | 0 <= i < |items| ::
      ItemLines(items, indent, st)[i] == Spaces(indent + st.step) + Print(items[i], indent + st.step, st)
  {
    var lines := ItemLines(items, indent, st);
    ItemsJoined(items, 0, indent, st);
    assert lines[0..] == lines;
    assert "," + Eol(st) == ",\n";
    Prettied("[", PrintItems(items, 0, indent, st), Join(",\n", lines), "\n", Spaces(indent), "]");
  }

  /** In compact mode an object is its entries `"key": value`, in iteration order,
      joined by `,` between the braces. */
  lemma CompactObject(m: map<string, Value>, indent: int, st: Style)
    requires st.compact
    ensures Print(Object(m), indent, st) == "{" + Join(",", MemberLines(m, indent, st)) + "}"
    ensures var keys := st.order(m);
      forall i | 0 <= i < |keys| ::
        MemberLines(m, indent, st)[i] == Entry(keys[i], Print(m[keys[i]], indent + st.step, st))
  {
    var lines := MemberLines(m, indent, st);
    if |st.order(m)| > 0 {
      MembersJoined(m, 0, indent, st);
      assert lines[0..] == lines;
      assert "," + Eol(st) == ",";
    }
    Compacted("{", PrintMembers(m, 0, indent, st), Join(",", lines), "}", Open(|m|, st), Close(|m|, indent, st));
  }

  /** In pretty mode a non-empty object writes each entry on its own line indented by
      `indent + step`, and indents `}` by `indent`. */
  lemma PrettyObject(m: map<string, Value>, indent: int, st: Style)
    requires !st.compact && |m| > 0
    ensures Print(Object(m), indent, st)
      == "{" + "\n" + Join(",\n", MemberLines(m, indent, st)) + "\n" + Spaces(indent) + "}"
    ensures var keys := st.order(m);
      forall i | 0 <= i < |keys| ::
        MemberLines(m, indent, st)[i] == Spaces(indent + st.step) + Entry(keys[i], Print(m[keys[i]], indent + st.step, st))
  {
    var lines := MemberLines(m, indent, st);
    EnumerationSize(st.order(m), m.Keys);
    MembersJoined(m, 0, indent, st);
    assert lines[0..] == lines;
    assert "," + Eol(st) == ",\n";
    Prettied("{", PrintMembers(m, 0, indent, st), Join(",\n", lines), "\n", Spaces(indent), "}");
  }
}
