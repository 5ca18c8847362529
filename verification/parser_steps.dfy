/** One step of each parsing function, stated for the inductive proofs about the
    parser: what a successful call read, and how a call is assembled from its
    parts. Each lemma unfolds its function once. */
module ParserSteps {
  import opened Wrappers
  import opened CharClasses
  import opened JsonValues
  import opened Parser

  // ---------------------------------------------------------------------------
  // `parseValue`

  lemma DispatchObject(src: string, i: nat, fits: RangeCheck, j: nat)
    requires i <= |src| && j == SpaceRunEnd(src, i) && j < |src| && src[j] == '{'
    ensures ParseValue(src, i, fits) == ParseObject(src, j + 1, fits)
  {
  }

  lemma DispatchArray(src: string, i: nat, fits: RangeCheck, j: nat)
    requires i <= |src| && j == SpaceRunEnd(src, i) && j < |src| && src[j] == '['
    ensures ParseValue(src, i, fits) == ParseArray(src, j + 1, fits)
  {
  }

  lemma DispatchString(src: string, i: nat, fits: RangeCheck, j: nat)
    requires i <= |src| && j == SpaceRunEnd(src, i) && j < |src| && src[j] == '"'
    ensures ParseValue(src, i, fits) ==
      match ParseString(src, j)
      case Failure(e) => Failure(e)
      case Success(s) => Success(Parsed(String(s.value), s.next))
  {
  }

  lemma DispatchNumber(src: string, i: nat, fits: RangeCheck, j: nat)
    requires i <= |src| && j == SpaceRunEnd(src, i) && j < |src| && (IsDigit(src[j]) || src[j] == '-')
    ensures ParseValue(src, i, fits) ==
      match ParseNumber(src, j, fits)
      case Failure(e) => Failure(e)
      case Success(n) => Success(Parsed(Number(n.value), n.next))
  {
  }

  lemma DispatchBoolean(src: string, i: nat, fits: RangeCheck, j: nat)
    requires i <= |src| && j == SpaceRunEnd(src, i) && j < |src| && (src[j] == 't' || src[j] == 'f')
    ensures ParseValue(src, i, fits) ==
      match ParseBoolean(src, j, src[j])
      case Failure(e) => Failure(e)
      case Success(b) => Success(Parsed(Bool(b.value), b.next))
  {
  }

  /** The boolean and null branches never succeed. */
  lemma DispatchLiteral(src: string, i: nat, fits: RangeCheck, j: nat)
    requires i <= |src| && j == SpaceRunEnd(src, i) && j < |src| && src[j] in "tfn"
    ensures ParseValue(src, i, fits).Failure?
  {
    if src[j] != 'n' {
      LiteralTokenRepeatsFirst(src, j, src[j]);
    }
  }

  /** Any other character, or the end of the text, is an error. */
  lemma DispatchOther(src: string, i: nat, fits: RangeCheck, j: nat)
    requires i <= |src| && j == SpaceRunEnd(src, i)
    requires j < |src| ==> src[j] !in "{[\"tfn-" && !IsDigit(src[j])
    ensures j == |src| ==> ParseValue(src, i, fits) == Failure("Unexpected end of input")
    ensures j < |src| ==> ParseValue(src, i, fits) == Failure("Unexpected character '" + [src[j]] + "'")
  {
  }

  // ---------------------------------------------------------------------------
  // `parseObject`

  lemma ObjectEmpty(src: string, i: nat, fits: RangeCheck, j: nat)
    requires i <= |src| && j == SpaceRunEnd(src, i) && j < |src| && src[j] == '}'
    ensures ParseObject(src, i, fits) == Success(Parsed(Object(map[]), j + 1))
  {
  }

  lemma ObjectOf(src: string, i: nat, fits: RangeCheck, j: nat)
    requires i <= |src| && j == SpaceRunEnd(src, i) && !(j < |src| && src[j] == '}')
    ensures ParseObject(src, i, fits) ==
      match ParseMembers(src, j, fits)
      case Failure(e) => Failure(e)
      case Success(es) => Success(Parsed(Object(Collect(es.value)), es.next))
  {
  }

  /** A successful member list: its first entry, the separator after it, and the
      list assembled from the rest. */
  lemma MembersUnfold(src: string, k: nat, fits: RangeCheck) returns (e: Parsed<(string, Value)>, s: nat)
    requires k <= |src| && ParseMembers(src, k, fits).Success?
    ensures ParseEntry(src, k, fits).Success? && ParseEntry(src, k, fits).value == e
    ensures s == SpaceRunEnd(src, e.next) && s < |src| && (src[s] == '}' || src[s] == ',')
    ensures src[s] == '}' ==> ParseMembers(src, k, fits).value == Parsed([e.value], s + 1)
    ensures src[s] == ',' ==>
      && ParseMembers(src, s + 1, fits).Success?
      && ParseMembers(src, k, fits).value.value == [e.value] + ParseMembers(src, s + 1, fits).value.value
      && ParseMembers(src, k, fits).value.next == ParseMembers(src, s + 1, fits).value.next
  {
    e := ParseEntry(src, k, fits).value;
    s := SpaceRunEnd(src, e.next);
  }

  lemma MembersMore(src: string, k: nat, fits: RangeCheck, e: Parsed<(string, Value)>, s: nat,
                    r: Parsed<seq<(string, Value)>>)
    requires k <= |src| && ParseEntry(src, k, fits).Success? && ParseEntry(src, k, fits).value == e
    requires s == SpaceRunEnd(src, e.next) && s < |src| && src[s] == ','
    requires ParseMembers(src, s + 1, fits).Success? && ParseMembers(src, s + 1, fits).value == r
    ensures ParseMembers(src, k, fits) == Success(Parsed([e.value] + r.value, r.next))
  {
    MembersDef(src, k, fits);
    MembersAfterMore(src, ParseEntry(src, k, fits), fits, e, s, r);
  }

  lemma EntryStep(src: string, k: nat, fits: RangeCheck) returns (j: nat, key: Parsed<string>, c: nat)
    requires k <= |src| && ParseEntry(src, k, fits).Success?
    ensures j == SpaceRunEnd(src, k) && j < |src| && src[j] == '"'
    ensures ParseString(src, j).Success? && ParseString(src, j).value == key
    ensures c == SpaceRunEnd(src, key.next) && c < |src| && src[c] == ':'
    ensures ParseValue(src, c + 1, fits).Success?
    ensures ParseEntry(src, k, fits)
      == Success(Parsed((key.value, ParseValue(src, c + 1, fits).value.value), ParseValue(src, c + 1, fits).value.next))
  {
    j := SpaceRunEnd(src, k);
    key := ParseString(src, j).value;
    c := SpaceRunEnd(src, key.next);
  }

  lemma EntryOf(src: string, k: nat, fits: RangeCheck, j: nat, key: Parsed<string>, c: nat, v: Parsed<Value>)
    requires k <= |src| && j == SpaceRunEnd(src, k) && j < |src| && src[j] == '"'
    requires ParseString(src, j).Success? && ParseString(src, j).value == key
    requires c == SpaceRunEnd(src, key.next) && c < |src| && src[c] == ':'
    requires ParseValue(src, c + 1, fits).Success? && ParseValue(src, c + 1, fits).value == v
    ensures ParseEntry(src, k, fits) == Success(Parsed((key.value, v.value), v.next))
  {
    EntryDef(src, k, fits, j, key, c);
  }

  /** An entry whose key and colon are read is its value with the key attached. */
  function EntryAfter(key: Parsed<string>, value: Result<Parsed<Value>>): Result<Parsed<(string, Value)>> {
    match value
    case Failure(e) => Failure(e)
    case Success(v) => Success(Parsed((key.value, v.value), v.next))
  }

  lemma EntryDef(src: string, k: nat, fits: RangeCheck, j: nat, key: Parsed<string>, c: nat)
    requires k <= |src| && j == SpaceRunEnd(src, k) && j < |src| && src[j] == '"'
    requires ParseString(src, j).Success? && ParseString(src, j).value == key
    requires c == SpaceRunEnd(src, key.next) && c < |src| && src[c] == ':'
    ensures ParseEntry(src, k, fits) == EntryAfter(key, ParseValue(src, c + 1, fits))
  {
    assert ParseString(src, j) == Success(key);
  }

  // ---------------------------------------------------------------------------
  // `parseString`

  /** A character other than `"` and `\\` is copied. */
  lemma CharsPlain(src: string, k: nat, r: Parsed<string>)
    requires k < |src| && src[k] != '"' && src[k] != '\\'
    requires ParseChars(src, k + 1).Success? && ParseChars(src, k + 1).value == r
    ensures ParseChars(src, k) == Success(Parsed([src[k]] + r.value, r.next))
  {
  }

  /** A two-character escape other than `\\u` stands for its character. */
  lemma CharsShortEscape(src: string, k: nat, c: char, r: Parsed<string>)
    requires k + 1 < |src| && src[k] == '\\' && src[k + 1] != 'u' && ShortEscape(src[k + 1]) == Some(c)
    requires ParseChars(src, k + 2).Success? && ParseChars(src, k + 2).value == r
    ensures ParseChars(src, k) == Success(Parsed([c] + r.value, r.next))
  {
  }

  // ---------------------------------------------------------------------------
  // `parseArray`

  lemma ArrayEmpty(src: string, i: nat, fits: RangeCheck, j: nat)
    requires i <= |src| && j == SpaceRunEnd(src, i) && j < |src| && src[j] == ']'
    ensures ParseArray(src, i, fits) == Success(Parsed(Array([]), j + 1))
  {
  }

  lemma ArrayOf(src: string, i: nat, fits: RangeCheck, j: nat)
    requires i <= |src| && j == SpaceRunEnd(src, i) && !(j < |src| && src[j] == ']')
    ensures ParseArray(src, i, fits) ==
      match ParseItems(src, j, fits)
      case Failure(e) => Failure(e)
      case Success(xs) => Success(Parsed(Array(xs.value), xs.next))
  {
  }

  /** A successful element list: its first element, the separator after it, and
      the list assembled from the rest. */
  lemma ItemsUnfold(src: string, k: nat, fits: RangeCheck) returns (v: Parsed<Value>, s: nat)
    requires k <= |src| && ParseItems(src, k, fits).Success?
    ensures ParseValue(src, k, fits).Success? && ParseValue(src, k, fits).value == v
    ensures s == SpaceRunEnd(src, v.next) && s < |src| && (src[s] == ']' || src[s] == ',')
    ensures src[s] == ']' ==> ParseItems(src, k, fits).value == Parsed([v.value], s + 1)
    ensures src[s] == ',' ==>
      && ParseItems(src, s + 1, fits).Success?
      && ParseItems(src, k, fits).value.value == [v.value] + ParseItems(src, s + 1, fits).value.value
      && ParseItems(src, k, fits).value.next == ParseItems(src, s + 1, fits).value.next
  {
    v := ParseValue(src, k, fits).value;
    s := SpaceRunEnd(src, v.next);
  }

  lemma ItemsLast(src: string, k: nat, fits: RangeCheck, v: Parsed<Value>, s: nat)
    requires k <= |src| && ParseValue(src, k, fits).Success? && ParseValue(src, k, fits).value == v
    requires s == SpaceRunEnd(src, v.next) && s < |src| && src[s] == ']'
    ensures ParseItems(src, k, fits) == Success(Parsed([v.value], s + 1))
  {
    ItemsDef(src, k, fits);
    ItemsAfterLast(src, ParseValue(src, k, fits), fits, v, s);
  }

  // The loops with their first read left abstract: each loop is its tail applied
  // to the result of its first read, and the steps below are stated on that
  // result, so that their proofs need not look into how it was read.

  /** The element loop after its first element was read as `first`. */
  function ItemsAfter(src: string, first: Result<Parsed<Value>>, fits: RangeCheck): Result<Parsed<seq<Value>>>
    requires first.Success? ==> first.value.next <= |src|
  {
    match first
    case Failure(e) => Failure(e)
    case Success(v) =>
      var s := SpaceRunEnd(src, v.next);
      if s < |src| && src[s] == ']' then
        Success(Parsed([v.value], s + 1))
      else if s < |src| && src[s] == ',' then
        match ParseItems(src, s + 1, fits)
        case Failure(e) => Failure(e)
        case Success(rest) => Success(Parsed([v.value] + rest.value, rest.next))
      else
        Failure("Expected ',' or ']' in array")
  }

  lemma ItemsDef(src: string, k: nat, fits: RangeCheck)
    requires k <= |src|
    ensures ParseItems(src, k, fits) == ItemsAfter(src, ParseValue(src, k, fits), fits)
  {
  }

  lemma ItemsMore(src: string, k: nat, fits: RangeCheck, v: Parsed<Value>, s: nat, r: Parsed<seq<Value>>)
    requires k <= |src| && ParseValue(src, k, fits).Success? && ParseValue(src, k, fits).value == v
    requires s == SpaceRunEnd(src, v.next) && s < |src| && src[s] == ','
    requires ParseItems(src, s + 1, fits).Success? && ParseItems(src, s + 1, fits).value == r
    ensures ParseItems(src, k, fits) == Success(Parsed([v.value] + r.value, r.next))
  {
    ItemsDef(src, k, fits);
    ItemsAfterMore(src, ParseValue(src, k, fits), fits, v, s, r);
  }

  lemma ItemsAfterMore(src: string, first: Result<Parsed<Value>>, fits: RangeCheck, v: Parsed<Value>, s: nat,
                       r: Parsed<seq<Value>>)
    requires first == Success(v) && v.next <= |src|
    requires s == SpaceRunEnd(src, v.next) && s < |src| && src[s] == ','
    requires ParseItems(src, s + 1, fits) == Success(r)
    ensures ItemsAfter(src, first, fits) == Success(Parsed([v.value] + r.value, r.next))
  {
  }

  lemma ItemsAfterLast(src: string, first: Result<Parsed<Value>>, fits: RangeCheck, v: Parsed<Value>, s: nat)
    requires first == Success(v) && v.next <= |src|
    requires s == SpaceRunEnd(src, v.next) && s < |src| && src[s] == ']'
    ensures ItemsAfter(src, first, fits) == Success(Parsed([v.value], s + 1))
  {
  }

  /** The member loop after its first entry was read as `first`. */
  function MembersAfter(src: string, first: Result<Parsed<(string, Value)>>, fits: RangeCheck)
    : Result<Parsed<seq<(string, Value)>>>
    requires first.Success? ==> first.value.next <= |src|
  {
    match first
    case Failure(e) => Failure(e)
    case Success(entry) =>
      var s := SpaceRunEnd(src, entry.next);
      if s < |src| && src[s] == '}' then
        Success(Parsed([entry.value], s + 1))
      else if s < |src| && src[s] == ',' then
        match ParseMembers(src, s + 1, fits)
        case Failure(e) => Failure(e)
        case Success(rest) => Success(Parsed([entry.value] + rest.value, rest.next))
      else
        Failure("Expected ',' or '}' in object")
  }

  lemma MembersDef(src: string, k: nat, fits: RangeCheck)
    requires k <= |src|
    ensures ParseMembers(src, k, fits) == MembersAfter(src, ParseEntry(src, k, fits), fits)
  {
  }

  lemma MembersAfterLast(src: string, first: Result<Parsed<(string, Value)>>, fits: RangeCheck,
                         e: Parsed<(string, Value)>, s: nat)
    requires first == Success(e) && e.next <= |src|
    requires s == SpaceRunEnd(src, e.next) && s < |src| && src[s] == '}'
    ensures MembersAfter(src, first, fits) == Success(Parsed([e.value], s + 1))
  {
  }

  lemma MembersAfterMore(src: string, first: Result<Parsed<(string, Value)>>, fits: RangeCheck,
                         e: Parsed<(string, Value)>, s: nat, r: Parsed<seq<(string, Value)>>)
    requires first == Success(e) && e.next <= |src|
    requires s == SpaceRunEnd(src, e.next) && s < |src| && src[s] == ','
    requires ParseMembers(src, s + 1, fits) == Success(r)
    ensures MembersAfter(src, first, fits) == Success(Parsed([e.value] + r.value, r.next))
  {
  }
}
