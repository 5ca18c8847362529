/** What a successful parse looks like: the kind of value is decided by the first
    character after the white space, a container is empty exactly when its closing
    bracket follows the opening one, and no `Null` or `Bool` is ever produced. */
module ParserShape {
  import opened Wrappers
  import opened CharClasses
  import opened JsonValues
  import opened NumberLexing
  import opened Parser
  import opened ParserSteps

  // ---------------------------------------------------------------------------
  // Numbers

  /** `parseNumber`'s checks of its lexeme: it is accepted exactly when it has a
      digit, is a decimal literal as a whole, and is in the range of a `double`;
      a lexeme without a digit is reported as such, any other rejection as an
      invalid format. */
  lemma ConvertNumberSpec(lexeme: string, fits: RangeCheck)
    ensures ConvertNumber(lexeme, fits).Success? <==> HasDigit(lexeme) && DecimalLiteral(lexeme) && fits(lexeme)
    ensures ConvertNumber(lexeme, fits).Success? ==> ConvertNumber(lexeme, fits).value == Num(lexeme)
    ensures !HasDigit(lexeme) ==> ConvertNumber(lexeme, fits) == Failure("Number without digits")
    ensures HasDigit(lexeme) && !(DecimalLiteral(lexeme) && fits(lexeme)) ==>
      ConvertNumber(lexeme, fits) == Failure("Invalid number format")
  {
    StrtodWholeIff(lexeme);
    DigitFromIff(lexeme, 0);
    if HasDigit(lexeme) {
      var w :| 0 <= w < |lexeme| && IsDigit(lexeme[w]);
    }
  }

  /** A number value: the whole run of number characters after the white space,
      when that run is an accepted lexeme. */
  lemma NumberValue(src: string, i: nat, fits: RangeCheck, j: nat, e: nat)
    requires i <= |src| && j == SpaceRunEnd(src, i) && j < |src| && (IsDigit(src[j]) || src[j] == '-')
    requires e == NumberRunEnd(src, j)
    requires HasDigit(src[j..e]) && DecimalLiteral(src[j..e]) && fits(src[j..e])
    ensures ParseValue(src, i, fits).Success?
    ensures ParseValue(src, i, fits).value == Parsed(Number(Num(src[j..e])), e)
  {
    ConvertNumberSpec(src[j..e], fits);
    DispatchNumber(src, i, fits, j);
  }

  // ---------------------------------------------------------------------------
  // Objects built from their entries

  /** The keys of the object are the keys of its entries. */
  lemma {:induction false} CollectKeys(entries: seq<(string, Value)>)
    ensures Collect(entries).Keys == set n | 0 <= n < |entries| :: entries[n].0
    decreases |entries|
  {
    if |entries| > 0 {
      var last := |entries| - 1;
      CollectKeys(entries[..last]);
      assert forall n | 0 <= n < last :: entries[..last][n] == entries[n];
    }
  }

  /** Every member of the object is the value of one of its entries. */
  lemma {:induction false} CollectValues(entries: seq<(string, Value)>, key: string)
    requires key in Collect(entries)
    ensures exists n | 0 <= n < |entries| :: entries[n] == (key, Collect(entries)[key])
    decreases |entries|
  {
    var last := |entries| - 1;
    if entries[last].0 != key {
      CollectValues(entries[..last], key);
      var n :| 0 <= n < last && entries[..last][n] == (key, Collect(entries[..last])[key]);
      assert entries[n] == entries[..last][n];
    }
  }

  predicate EntriesClean(es: seq<(string, Value)>) {
    forall n | 0 <= n < |es| :: NoLiterals(es[n].1)
  }

  lemma EntriesCleanPrepend(e: (string, Value), es: seq<(string, Value)>)
    requires NoLiterals(e.1) && EntriesClean(es)
    ensures EntriesClean([e] + es)
  {
    assert forall n | 0 < n < |es| + 1 :: ([e] + es)[n] == es[n - 1];
  }

  predicate ItemsClean(xs: seq<Value>) {
    forall n | 0 <= n < |xs| :: NoLiterals(xs[n])
  }

  lemma ItemsCleanPrepend(x: Value, xs: seq<Value>)
    requires NoLiterals(x) && ItemsClean(xs)
    ensures ItemsClean([x] + xs)
  {
    assert forall n | 0 < n < |xs| + 1 :: ([x] + xs)[n] == xs[n - 1];
  }

  // ---------------------------------------------------------------------------
  // The shape of a parsed value, by induction over the text

  /** The first character after the white space from `i`, if any. */
  function Lookahead(src: string, i: nat): Option<char>
    requires i <= |src|
  {
    var j := SpaceRunEnd(src, i);
    if j < |src| then Some(src[j]) else None
  }

  /** A successful `parseValue` returns the kind its first character announces, and
      never a literal. */
  predicate ValueShaped(src: string, i: nat, v: Value)
    requires i <= |src|
  {
    && Lookahead(src, i).Some?
    && var c := Lookahead(src, i).value;
    && NoLiterals(v)
    && (v.Object? <==> c == '{')
    && (v.Array? <==> c == '[')
    && (v.String? <==> c == '"')
    && (v.Number? <==> IsDigit(c) || c == '-')
  }

  lemma {:induction false} ValueShape(src: string, i: nat, fits: RangeCheck)
    requires i <= |src|
    ensures ParseValue(src, i, fits).Success? ==> ValueShaped(src, i, ParseValue(src, i, fits).value.value)
    decreases |src| - i, 2
  {
    var j := SpaceRunEnd(src, i);
    if j < |src| {
      var c := src[j];
      if c == '{' {
        DispatchObject(src, i, fits, j);
        ObjectShape(src, j + 1, fits);
      } else if c == '[' {
        DispatchArray(src, i, fits, j);
        ArrayShape(src, j + 1, fits);
      } else if c == '"' {
        DispatchString(src, i, fits, j);
      } else if c in "tfn" {
        DispatchLiteral(src, i, fits, j);
      } else if IsDigit(c) || c == '-' {
        DispatchNumber(src, i, fits, j);
      } else {
        DispatchOther(src, i, fits, j);
      }
    } else {
      DispatchOther(src, i, fits, j);
    }
  }

  /** `parseObject` yields an object without literals, and the object is empty
      exactly when `}` is the first character after the white space. */
  lemma {:induction false} ObjectShape(src: string, i: nat, fits: RangeCheck)
    requires i <= |src|
    ensures var r := ParseObject(src, i, fits);
      r.Success? ==>
        && r.value.value.Object?
        && NoLiterals(r.value.value)
        && (r.value.value.members == map[] <==> Lookahead(src, i) == Some('}'))
    decreases |src| - i, 4
  {
    var j := SpaceRunEnd(src, i);
    if j < |src| && src[j] == '}' {
      ObjectEmpty(src, i, fits, j);
    } else {
      ObjectOf(src, i, fits, j);
      MembersShape(src, j, fits);
      if ParseMembers(src, j, fits).Success? {
        var e, s := MembersUnfold(src, j, fits);
        var es := ParseMembers(src, j, fits).value.value;
        CollectKeys(es);
        assert es[|es| - 1].0 in Collect(es);
        forall key | key in Collect(es)
          ensures NoLiterals(Collect(es)[key])
        {
          CollectValues(es, key);
        }
      }
    }
  }

  lemma {:induction false} MembersShape(src: string, k: nat, fits: RangeCheck)
    requires k <= |src|
    ensures var r := ParseMembers(src, k, fits);
      r.Success? ==>
        EntriesClean(r.value.value)
    decreases |src| - k, 3
  {
    if ParseMembers(src, k, fits).Success? {
      var e, s := MembersUnfold(src, k, fits);
      EntryShape(src, k, fits);
      if src[s] == ',' {
        MembersShape(src, s + 1, fits);
        EntriesCleanPrepend(e.value, ParseMembers(src, s + 1, fits).value.value);
      }
    }
  }

  lemma {:induction false} EntryShape(src: string, k: nat, fits: RangeCheck)
    requires k <= |src|
    ensures ParseEntry(src, k, fits).Success? ==> NoLiterals(ParseEntry(src, k, fits).value.value.1)
    decreases |src| - k, 2
  {
    if ParseEntry(src, k, fits).Success? {
      var j, key, c := EntryStep(src, k, fits);
      ValueShape(src, c + 1, fits);
    }
  }

  /** `parseArray` yields an array without literals, and the array is empty exactly
      when `]` is the first character after the white space. */
  lemma {:induction false} ArrayShape(src: string, i: nat, fits: RangeCheck)
    requires i <= |src|
    ensures var r := ParseArray(src, i, fits);
      r.Success? ==>
        && r.value.value.Array?
        && NoLiterals(r.value.value)
        && (r.value.value.items == [] <==> Lookahead(src, i) == Some(']'))
    decreases |src| - i, 4
  {
    var j := SpaceRunEnd(src, i);
    if j < |src| && src[j] == ']' {
      ArrayEmpty(src, i, fits, j);
    } else {
      ArrayOf(src, i, fits, j);
      ItemsShape(src, j, fits);
      if ParseItems(src, j, fits).Success? {
        var v, s := ItemsUnfold(src, j, fits);
      }
    }
  }

  lemma {:induction false} ItemsShape(src: string, k: nat, fits: RangeCheck)
    requires k <= |src|
    ensures var r := ParseItems(src, k, fits);
      r.Success? ==>
        ItemsClean(r.value.value)
    decreases |src| - k, 3
  {
    if ParseItems(src, k, fits).Success? {
      var v, s := ItemsUnfold(src, k, fits);
      ValueShape(src, k, fits);
      if src[s] == ',' {
        ItemsShape(src, s + 1, fits);
        ItemsCleanPrepend(v.value, ParseItems(src, s + 1, fits).value.value);
      }
    }
  }

  /** Whatever the text, a successful `parse` holds no `null`, `true` or `false`:
      the literal branches of `parseValue` never succeed, at any depth. */
  lemma ParseHasNoLiterals(src: string, fits: RangeCheck)
    ensures Parse(src, fits).Success? ==> NoLiterals(Parse(src, fits).value)
  {
    ValueShape(src, 0, fits);
  }
}
