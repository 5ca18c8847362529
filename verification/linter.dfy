/** `lintJson` and `lintNumber` (jsonlinter.cpp): the issues reported for a value
    tree, and for a text that is parsed first. */
module Linter {
  import opened Wrappers
  import opened JsonValues
  import opened Parser

  /** `JsonLintIssue::Severity`. */
  datatype Severity = Error | Warning | Info

  /** `JsonLintIssue`: a severity, a message, and a line and column that are `-1`
      when unknown. */
  datatype Issue = Issue(severity: Severity, message: string, line: int, column: int)

  /** `std::isinf(num) || std::isnan(num)` for the `double` a `Num` stands for. The
      parser's `std::stod` never yields either from the characters it accepts, but
      trees are also built by hand; floating point is not modelled, so this is a
      parameter. */
  type InfOrNan = Num -> bool

  /** The issue `lintNumber` reports. */
  const NumberIssue: Issue := Issue(Error, "Invalid number (inf or nan)", -1, -1)

  /** `lintNumber` (jsonlinter.cpp:5-12): one error for an infinite or NaN number,
      nothing otherwise. */
  function LintNumber(v: Value, special: InfOrNan): seq<Issue> {
    if v.Number? && special(v.n) then [NumberIssue] else []
  }

  /** `lintJson` of a non-null `shared_ptr` (jsonlinter.cpp:27-58): the value's own number
      issue, then for an object each member's duplicate-key check and issues in
      iteration order, and for an array each element's issues in order. */
  function Lint(v: Value, special: InfOrNan, order: KeyOrder): seq<Issue>
    decreases v, 1
  {
    LintNumber(v, special) +
    match v
    case Object(m) => LintMembers(m, 0, {}, special, order)
    case Array(items) => LintItems(items, 0, special, order)
    case _ => []
  }

  /** The loop over the members from the `i`-th key on; `seen` is `seenKeys`. A key
      already in `seen` would be reported as a duplicate. */
  function LintMembers(m: map<string, Value>, i: nat, seen: set<string>, special: InfOrNan, order: KeyOrder)
    : seq<Issue>
    requires i <= |order(m)|
    decreases Object(m), 0, |order(m)| - i
  {
    var keys := order(m);
    if i == |keys| then []
    else
      var k := keys[i];
      assert k in m;
      var duplicate := if k in seen then [Issue(Warning, "Duplicate key: " + k, -1, -1)] else [];
      duplicate + Lint(m[k], special, order) + LintMembers(m, i + 1, seen + {k}, special, order)
  }

  /** The loop over the elements from `i` on. */
  function LintItems(items: seq<Value>, i: nat, special: InfOrNan, order: KeyOrder): seq<Issue>
    requires i <= |items|
    decreases Array(items), 0, |items| - i
  {
    if i == |items| then [] else Lint(items[i], special, order) + LintItems(items, i + 1, special, order)
  }

  /** `lintJson(root)`, where a null `shared_ptr` has no issues. */
  function LintRoot(root: Option<Value>, special: InfOrNan, order: KeyOrder): seq<Issue> {
    match root
    case None => []
    case Some(v) => Lint(v, special, order)
  }

  /** `lintJson(jsonStr)` (jsonlinter.cpp:14-25): the issues of the parsed tree, or
      one error carrying the parser's message. */
  function LintSource(src: string, fits: RangeCheck, special: InfOrNan, order: KeyOrder): seq<Issue> {
    match Parse(src, fits)
    case Failure(e) => [Issue(Error, e, -1, -1)]
    case Success(root) => Lint(root, special, order)
  }

  // ---------------------------------------------------------------------------
  // Properties

  /** The keys visited before the `i`-th. */
  function Visited(keys: seq<string>, i: nat): set<string>
    requires i <= |keys|
  {
    set j | 0 <= j < i :: keys[j]
  }

  lemma VisitedNext(keys: seq<string>, i: nat)
    requires i < |keys|
    ensures Visited(keys, i) + {keys[i]} == Visited(keys, i + 1)
  {
  }

  /** An iteration has not visited its current key before. */
  lemma Unvisited(m: map<string, Value>, i: nat, order: KeyOrder)
    requires i < |order(m)|
    ensures order(m)[i] !in Visited(order(m), i)
  {
    forall j | 0 <= j < i
      ensures order(m)[j] != order(m)[i]
    {
      EnumerationDistinct(order(m), m.Keys, j, i);
    }
  }

  /** Every issue in the list is the number error. */
  predicate OnlyNumberErrors(issues: seq<Issue>) {
    forall n | 0 <= n < |issues| :: issues[n] == NumberIssue
  }

  lemma OnlyNumberErrorsConcat(a: seq<Issue>, b: seq<Issue>)
    requires OnlyNumberErrors(a) && OnlyNumberErrors(b)
    ensures OnlyNumberErrors(a + b)
  {
  }

  /** Every issue of a tree is the number error: no duplicate-key warning is ever
      reported, because an iteration visits each key once, and every issue has line
      and column `-1`. */
  lemma {:induction false} OnlyNumberIssues(v: Value, special: InfOrNan, order: KeyOrder)
    ensures OnlyNumberErrors(Lint(v, special, order))
    decreases v, 1
  {
    match v
    case Object(m) =>
      assert Visited(order(m), 0) == {};
      MembersOnlyNumberIssues(m, 0, special, order);
      assert Lint(v, special, order) == LintMembers(m, 0, {}, special, order);
    case Array(items) =>
      ItemsOnlyNumberIssues(items, 0, special, order);
      assert Lint(v, special, order) == LintItems(items, 0, special, order);
    case _ =>
  }

  lemma {:induction false} MembersOnlyNumberIssues(m: map<string, Value>, i: nat, special: InfOrNan, order: KeyOrder)
    requires i <= |order(m)|
    ensures OnlyNumberErrors(LintMembers(m, i, Visited(order(m), i), special, order))
    decreases Object(m), 0, |order(m)| - i
  {
    var keys := order(m);
    if i < |keys| {
      var k := keys[i];
      assert k in m;
      Unvisited(m, i, order);
      VisitedNext(keys, i);
      OnlyNumberIssues(m[k], special, order);
      MembersOnlyNumberIssues(m, i + 1, special, order);
      var own, rest := Lint(m[k], special, order), LintMembers(m, i + 1, Visited(keys, i + 1), special, order);
      OnlyNumberErrorsConcat(own, rest);
      assert LintMembers(m, i, Visited(keys, i), special, order) == [] + own + rest;
      assert [] + own + rest == own + rest;
    }
  }

  lemma {:induction false} ItemsOnlyNumberIssues(items: seq<Value>, i: nat, special: InfOrNan, order: KeyOrder)
    requires i <= |items|
    ensures OnlyNumberErrors(LintItems(items, i, special, order))
    decreases Array(items), 0, |items| - i
  {
    if i < |items| {
      OnlyNumberIssues(items[i], special, order);
      ItemsOnlyNumberIssues(items, i + 1, special, order);
      OnlyNumberErrorsConcat(Lint(items[i], special, order), LintItems(items, i + 1, special, order));
    }
  }

  /** The concatenation of a list of issue lists. */
  function Flatten(parts: seq<seq<Issue>>): seq<Issue>
    decreases |parts|
  {
    if |parts| == 0 then [] else parts[0] + Flatten(parts[1..])
  }

  /** The issues of each element, in order. */
  function ItemIssues(items: seq<Value>, special: InfOrNan, order: KeyOrder): seq<seq<Issue>> {
    seq(|items|, i requires 0 <= i < |items| => Lint(items[i], special, order))
  }

  /** The issues of each member's value, in iteration order. */
  function MemberIssues(m: map<string, Value>, special: InfOrNan, order: KeyOrder): seq<seq<Issue>> {
    var keys := order(m);
    seq(|keys|, i requires 0 <= i < |keys| => Lint(m[keys[i]], special, order))
  }

  lemma {:induction false} ItemsFlatten(items: seq<Value>, i: nat, special: InfOrNan, order: KeyOrder)
    requires i <= |items|
    ensures LintItems(items, i, special, order) == Flatten(ItemIssues(items, special, order)[i..])
    decreases |items| - i
  {
    if i < |items| {
      ItemsFlatten(items, i + 1, special, order);
      assert ItemIssues(items, special, order)[i..][1..] == ItemIssues(items, special, order)[i + 1..];
    }
  }

  lemma {:induction false} MembersFlatten(m: map<string, Value>, i: nat, special: InfOrNan, order: KeyOrder)
    requires i <= |order(m)|
    ensures LintMembers(m, i, Visited(order(m), i), special, order) == Flatten(MemberIssues(m, special, order)[i..])
    decreases |order(m)| - i
  {
    var keys := order(m);
    if i < |keys| {
      var issues := MemberIssues(m, special, order);
      MemberStep(m, i, special, order);
      MembersFlatten(m, i + 1, special, order);
      FlattenStep(issues, i);
    }
  }

  /** One member of the loop, visited for the first time. */
  lemma MemberStep(m: map<string, Value>, i: nat, special: InfOrNan, order: KeyOrder)
    requires i < |order(m)|
    ensures var keys := order(m);
      keys[i] in m
      && LintMembers(m, i, Visited(keys, i), special, order)
         == MemberIssues(m, special, order)[i] + LintMembers(m, i + 1, Visited(keys, i + 1), special, order)
  {
    var keys := order(m);
    assert keys[i] in m;
    Unvisited(m, i, order);
    VisitedNext(keys, i);
  }

  lemma FlattenStep(parts: seq<seq<Issue>>, i: nat)
    requires i < |parts|
    ensures Flatten(parts[i..]) == parts[i] + Flatten(parts[i + 1..])
  {
    assert parts[i..][1..] == parts[i + 1..];
  }

  /** The issues of an array are its elements' issues one after the other, and those
      of an object its values' issues in iteration order. */
  lemma ContainerIssues(items: seq<Value>, m: map<string, Value>, special: InfOrNan, order: KeyOrder)
    ensures Lint(Array(items), special, order) == Flatten(ItemIssues(items, special, order))
    ensures Lint(Object(m), special, order) == Flatten(MemberIssues(m, special, order))
  {
    ItemsFlatten(items, 0, special, order);
    assert ItemIssues(items, special, order)[0..] == ItemIssues(items, special, order);
    MembersFlatten(m, 0, special, order);
    assert Visited(order(m), 0) == {};
    assert MemberIssues(m, special, order)[0..] == MemberIssues(m, special, order);
  }

  /** Leaves: a null `shared_ptr`, `Null`, a `Bool` and a string have no issues, and a
      number has the one error exactly when it is infinite or NaN. */
  lemma LeafIssues(b: bool, s: string, n: Num, special: InfOrNan, order: KeyOrder)
    ensures LintRoot(None, special, order) == []
    ensures Lint(Null, special, order) == [] && Lint(Bool(b), special, order) == []
    ensures Lint(String(s), special, order) == []
    ensures |Lint(Number(n), special, order)| <= 1
    ensures Lint(Number(n), special, order) != [] <==> special(n)
  {
  }

  /** The text overload: a parse failure is the single error issue with the parser's
      message and no position; otherwise the tree's issues, all of them number
      errors. */
  lemma SourceIssues(src: string, fits: RangeCheck, special: InfOrNan, order: KeyOrder)
    ensures Parse(src, fits).Failure? ==>
      LintSource(src, fits, special, order) == [Issue(Error, Parse(src, fits).error, -1, -1)]
    ensures Parse(src, fits).Success? ==>
      LintSource(src, fits, special, order) == Lint(Parse(src, fits).value, special, order)
    ensures forall n | 0 <= n < |LintSource(src, fits, special, order)| ::
      LintSource(src, fits, special, order)[n].severity == Error
      && LintSource(src, fits, special, order)[n].line == -1
      && LintSource(src, fits, special, order)[n].column == -1
  {
    if Parse(src, fits).Success? {
      OnlyNumberIssues(Parse(src, fits).value, special, order);
    }
  }
}
