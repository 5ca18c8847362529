/** `JsonParser` (jsonparser.cpp:39-211): a recursive-descent reader over the source
    text. The `std::istream` is the text plus an index; `is.get()` reads the
    character at the index and moves past it, `is.peek()` reads it without moving,
    `is.unget()` steps back one, and reading at the end yields EOF. Every `throw` is
    a `Failure` carrying the same message. */
module Parser {
  import opened Wrappers
  import opened CharClasses
  import opened JsonValues
  import opened Positions
  import opened UnicodeEscape
  import opened NumberLexing

  /** A parsed item and the index just past the characters it used. */
  datatype Parsed<+T> = Parsed(value: T, next: nat)

  /** Whether `std::stod` converts a decimal literal without raising
      `std::out_of_range` (its magnitude overflows or underflows a `double`). Floating
      point is not modelled, so the parser takes this as a parameter. */
  type RangeCheck = string -> bool

  /** `size_t(int(is.tellg()) - 1)` after a read at the end of the input: `tellg`
      answers -1 on a failed stream. */
  const FailedReadOffset: nat := 0x1_0000_0000_0000_0000 - 2

  /** A value converted to a 32-bit `int`: its residue modulo 2^32, taken in
      `[-2^31, 2^31)` (two's complement). */
  function Int32(x: int): int {
    (x + 0x8000_0000) % 0x1_0000_0000 - 0x8000_0000
  }

  /** A value converted to `size_t`: its residue modulo 2^64. */
  function ToSize(x: int): nat {
    x % 0x1_0000_0000_0000_0000
  }

  /** The offset jsonparser.cpp:91 hands to `currentPos` when `:` is missing:
      `int(is.tellg()) - 1` converted to `size_t`. `tellg` is one past the character
      read in place of `:`, or -1 when the read hit the end. The subtraction is done
      on 32-bit `int`s and wraps. */
  function ColonOffset(src: string, c: nat): nat {
    TellOffset(if c < |src| then c + 1 else -1)
  }

  /** `size_t(int(tell) - 1)`, with the subtraction on 32-bit `int`s. */
  function TellOffset(tell: int): nat {
    ToSize(Int32(Int32(tell) - 1))
  }

  /** `JsonParser::parse` (jsonparser.cpp:39-43): one value from the start of the
      text. Whatever follows that value is never looked at. */
  function Parse(src: string, fits: RangeCheck): Result<Value> {
    match ParseValue(src, 0, fits)
    case Failure(e) => Failure(e)
    case Success(root) => Success(root.value)
  }

  /** `parseValue` (jsonparser.cpp:58-75): skip white space, then choose a branch by
      the next character. For `"`, `t`, `f`, `n`, digits and `-` the character is
      put back before the branch reads it; the boolean branch also receives it as
      `first`, so it sees that letter twice, and the null branch sees it where the
      `u` of `null` should be. Hence no literal is ever accepted. */
  function ParseValue(src: string, i: nat, fits: RangeCheck): (r: Result<Parsed<Value>>)
    requires i <= |src|
    ensures r.Success? ==> i < r.value.next <= |src|
    decreases |src| - i, 2
  {
    var j := SpaceRunEnd(src, i);
    if j == |src| then Failure("Unexpected end of input")
    else
      var c := src[j];
      if c == '{' then ParseObject(src, j + 1, fits)
      else if c == '[' then ParseArray(src, j + 1, fits)
      else if c == '"' then
        match ParseString(src, j)
        case Failure(e) => Failure(e)
        case Success(s) => Success(Parsed(String(s.value), s.next))
      else if c == 't' || c == 'f' then
        match ParseBoolean(src, j, c)
        case Failure(e) => Failure(e)
        case Success(b) => Success(Parsed(Bool(b.value), b.next))
      else if c == 'n' then
        match ParseNull(src, j)
        case Failure(e) => Failure(e)
        case Success(n) => Success(Parsed(Null, n.next))
      else if IsDigit(c) || c == '-' then
        match ParseNumber(src, j, fits)
        case Failure(e) => Failure(e)
        case Success(n) => Success(Parsed(Number(n.value), n.next))
      else
        Failure("Unexpected character '" + [c] + "'")
  }

  /** `parseObject` (jsonparser.cpp:78-108), entered just after `{`. */
  function ParseObject(src: string, i: nat, fits: RangeCheck): (r: Result<Parsed<Value>>)
    requires i <= |src|
    ensures r.Success? ==> i < r.value.next <= |src|
    decreases |src| - i, 4
  {
    var j := SpaceRunEnd(src, i);
    if j < |src| && src[j] == '}' then
      Success(Parsed(Object(map[]), j + 1))
    else
      match ParseMembers(src, j, fits)
      case Failure(e) => Failure(e)
      case Success(es) => Success(Parsed(Object(Collect(es.value)), es.next))
  }

  /** The loop of `parseObject` from one key on: the entries read, in source order,
      up to and including the closing `}`. */
  function ParseMembers(src: string, k: nat, fits: RangeCheck): (r: Result<Parsed<seq<(string, Value)>>>)
    requires k <= |src|
    ensures r.Success? ==> k < r.value.next <= |src|
    decreases |src| - k, 3
  {
    match ParseEntry(src, k, fits)
    case Failure(e) => Failure(e)
    case Success(entry) =>
      var s := SpaceRunEnd(src, entry.next);
      if s < |src| && src[s] == '}' then
        Success(Parsed([entry.value], s + 1))
      else if s < |src| && src[s] == ',' then
        match ParseMembers(src, s + 1, fits)
        case Failure(e) => Failure(e)
        case Success(rest) => Success(Parsed([entry.value] + rest.value, rest.next))
      else
        Failure("Expected ',' or '}' in object")
  }

  /** One `"key": value` of `parseObject`, white space around the colon included. */
  function ParseEntry(src: string, k: nat, fits: RangeCheck): (r: Result<Parsed<(string, Value)>>)
    requires k <= |src|
    ensures r.Success? ==> k < r.value.next <= |src|
    decreases |src| - k, 2
  {
    var j := SpaceRunEnd(src, k);
    if j == |src| || src[j] != '"' then Failure("Expected '\"' for object key")
    else
      match ParseString(src, j)
      case Failure(e) => Failure(e)
      case Success(key) =>
        var c := SpaceRunEnd(src, key.next);
        if c == |src| || src[c] != ':' then Failure(ColonMessage(src, c))
        else
          match ParseValue(src, c + 1, fits)
          case Failure(e) => Failure(e)
          case Success(v) => Success(Parsed((key.value, v.value), v.next))
  }

  /** The diagnostic of a missing `:`, with the position `currentPos` computes for
      `ColonOffset`. */
  function ColonMessage(src: string, c: nat): string {
    var p := CurrentPos(src, ColonOffset(src, c));
    "Expected ':' after key (line " + NatToString(p.line) + ", col " + NatToString(p.col) + ")"
  }

  /** `obj[key] = value` for each entry in turn: a later entry for a key replaces
      an earlier one. */
  function Collect(entries: seq<(string, Value)>): map<string, Value>
    decreases |entries|
  {
    if |entries| == 0 then map[]
    else
      var last := entries[|entries| - 1];
      Collect(entries[..|entries| - 1])[last.0 := last.1]
  }

  /** `parseArray` (jsonparser.cpp:111-127), entered just after `[`. */
  function ParseArray(src: string, i: nat, fits: RangeCheck): (r: Result<Parsed<Value>>)
    requires i <= |src|
    ensures r.Success? ==> i < r.value.next <= |src|
    decreases |src| - i, 4
  {
    var j := SpaceRunEnd(src, i);
    if j < |src| && src[j] == ']' then
      Success(Parsed(Array([]), j + 1))
    else
      match ParseItems(src, j, fits)
      case Failure(e) => Failure(e)
      case Success(xs) => Success(Parsed(Array(xs.value), xs.next))
  }

  /** The loop of `parseArray` from one element on: the elements read, up to and
      including the closing `]`. */
  function ParseItems(src: string, k: nat, fits: RangeCheck): (r: Result<Parsed<seq<Value>>>)
    requires k <= |src|
    ensures r.Success? ==> k < r.value.next <= |src|
    decreases |src| - k, 3
  {
    match ParseValue(src, k, fits)
    case Failure(e) => Failure(e)
    case Success(v) =>
      var s := SpaceRunEnd(src, v.next);
      if s < |src| && src[s] == ']' then
        Success(Parsed([v.value], s + 1))
      else if s < |src| && src[s] == ',' then
        match ParseItems(src, s + 1, fits)
        case Failure(e) => Failure(e)
        case Success(rest) => Success(Parsed([v.value] + rest.value, rest.next))
      else
        Failure("Expected ',' or ']' in array")
  }

  /** `parseString` (jsonparser.cpp:130-165), entered at the opening quote. */
  function ParseString(src: string, j: nat): (r: Result<Parsed<string>>)
    requires j <= |src|
    ensures r.Success? ==> j < r.value.next <= |src|
  {
    if j < |src| && src[j] == '"' then ParseChars(src, j + 1)
    else Failure("Internal error: parseString called without opening quote")
  }

  /** The loop of `parseString`: the decoded characters from `k` up to the closing
      quote, and the index after that quote. */
  function ParseChars(src: string, k: nat): (r: Result<Parsed<string>>)
    requires k <= |src|
    ensures r.Success? ==> k < r.value.next <= |src|
    decreases |src| - k
  {
    if k == |src| then Failure("Unterminated string")
    else if src[k] == '"' then Success(Parsed([], k + 1))
    else if src[k] == '\\' then
      if k + 1 == |src| then Failure("Unterminated escape sequence")
      else if src[k + 1] == 'u' then
        if |src| < k + 6 then Failure("Incomplete Unicode escape")
        else
          match DecodeUnicode(src[k + 2..k + 6])
          case Failure(e) => Failure(e)
          case Success(bytes) =>
            match ParseChars(src, k + 6)
            case Failure(e) => Failure(e)
            case Success(rest) => Success(Parsed(bytes + rest.value, rest.next))
      else
        match ShortEscape(src[k + 1])
        case None => Failure("Invalid escape sequence")
        case Some(ch) =>
          match ParseChars(src, k + 2)
          case Failure(e) => Failure(e)
          case Success(rest) => Success(Parsed([ch] + rest.value, rest.next))
    else
      match ParseChars(src, k + 1)
      case Failure(e) => Failure(e)
      case Success(rest) => Success(Parsed([src[k]] + rest.value, rest.next))
  }

  /** The two-character escapes of section 7 of RFC 8259 other than `\u`, and the
      character each stands for. */
  function ShortEscape(e: char): Option<char> {
    match e
    case '"' => Some('"')
    case '\\' => Some('\\')
    case '/' => Some('/')
    case 'b' => Some(8 as char)
    case 'f' => Some(12 as char)
    case 'n' => Some('\n')
    case 'r' => Some('\r')
    case 't' => Some('\t')
    case _ => None
  }

  /** The end of the run of letters starting at `i`. */
  function AlphaRunEnd(src: string, i: nat): (j: nat)
    requires i <= |src|
    ensures i <= j <= |src|
    ensures j == |src| || !IsAlpha(src[j])
    decreases |src| - i
  {
    if i < |src| && IsAlpha(src[i]) then AlphaRunEnd(src, i + 1) else i
  }

  /** The token `parseBoolean` builds: `first`, then every letter from `j` on. */
  function BooleanToken(src: string, j: nat, first: char): string
    requires j <= |src|
  {
    [first] + src[j..AlphaRunEnd(src, j)]
  }

  /** `parseBoolean` (jsonparser.cpp:168-178). */
  function ParseBoolean(src: string, j: nat, first: char): (r: Result<Parsed<bool>>)
    requires j <= |src|
  {
    var end := AlphaRunEnd(src, j);
    var token := BooleanToken(src, j, first);
    if token == "true" then Success(Parsed(true, end))
    else if token == "false" then Success(Parsed(false, end))
    else Failure("Invalid boolean: " + token)
  }

  /** When `first` is the letter at `j` itself, as `parseValue` arranges, the token
      starts with that letter twice and is neither `true` nor `false`. */
  lemma LiteralTokenRepeatsFirst(src: string, j: nat, first: char)
    requires j < |src| && src[j] == first && IsAlpha(first)
    ensures BooleanToken(src, j, first) !in {"true", "false"}
  {
    var token := BooleanToken(src, j, first);
    assert token[0] == first && token[1] == first;
  }

  /** `parseNull` (jsonparser.cpp:181-189): the next three characters must be `ull`. */
  function ParseNull(src: string, j: nat): (r: Result<Parsed<()>>)
    requires j <= |src|
  {
    if j + 3 <= |src| && src[j] == 'u' && src[j + 1] == 'l' && src[j + 2] == 'l' then
      Success(Parsed((), j + 3))
    else
      Failure("Invalid null")
  }

  /** `parseNumber` (jsonparser.cpp:192-211): the longest run of number characters
      from `j` is the lexeme, which `ConvertNumber` then checks. */
  function ParseNumber(src: string, j: nat, fits: RangeCheck): (r: Result<Parsed<Num>>)
    requires j <= |src|
    ensures r.Success? ==> j < r.value.next == NumberRunEnd(src, j)
  {
    var e := NumberRunEnd(src, j);
    match ConvertNumber(src[j..e], fits)
    case Failure(msg) => Failure(msg)
    case Success(n) => Success(Parsed(n, e))
  }

  /** The checks `parseNumber` makes of its lexeme: it fails when the lexeme has no
      digit, and otherwise when `stod` does not convert all of it or raises
      `std::out_of_range`; the `catch (...)` turns both of the latter into one
      message. */
  function ConvertNumber(lexeme: string, fits: RangeCheck): (r: Result<Num>)
    ensures r.Success? ==> r.value == Num(lexeme) && |lexeme| > 0
  {
    if !DigitFrom(lexeme, 0) then Failure("Number without digits")
    else if StrtodLength(lexeme) != |lexeme| || !fits(lexeme) then Failure("Invalid number format")
    else Success(Num(lexeme))
  }
}
