/** The value model of jsonparser.h: `JsonValue` with its `Type` enum, the
    `JsonArray` vector and the `JsonObject` unordered map. */
module JsonValues {

  /** A `double` produced by `std::stod`, represented by the decimal literal it was
      converted from. Rounding to the nearest IEEE double is not modelled. */
  datatype Num = Num(literal: string)

  /** One `JsonValue`; the active variant is the constructor, so a value never holds
      two payloads. An object maps each key to exactly one value. */
  datatype Value =
    | Null
    | Bool(b: bool)
    | Number(n: Num)
    | String(s: string)
    | Array(items: seq<Value>)
    | Object(members: map<string, Value>)

  /** The key at position `i` of an enumeration. Distinctness below is stated on
      these terms, so it comes into a proof only where two positions are named. */
  function KeyAt(ks: seq<string>, i: nat): string
    requires i < |ks|
  {
    ks[i]
  }

  /** `ks` lists every key of `keys` exactly once. */
  predicate Enumerates(ks: seq<string>, keys: set<string>) {
    && (forall k | k in ks :: k in keys)
    && (forall k | k in keys :: k in ks)
    && (forall i: nat, j: nat {:trigger KeyAt(ks, i), KeyAt(ks, j)} | i < j < |ks| :: KeyAt(ks, i) != KeyAt(ks, j))
  }

  /** Two positions of an enumeration hold different keys. */
  lemma EnumerationDistinct(ks: seq<string>, keys: set<string>, i: nat, j: nat)
    requires Enumerates(ks, keys) && i < j < |ks|
    ensures ks[i] != ks[j]
  {
    assert KeyAt(ks, i) != KeyAt(ks, j);
  }

  ghost function SomeEnumeration(keys: set<string>): (ks: seq<string>)
    ensures Enumerates(ks, keys)
    decreases keys
  {
    if keys == {} then [] else
      var k :| k in keys;
      var rest := SomeEnumeration(keys - {k});
      ConsEnumerates(k, rest, keys);
      [k] + rest
  }

  /** A key followed by an enumeration of the other keys enumerates them all. */
  lemma ConsEnumerates(k: string, rest: seq<string>, keys: set<string>)
    requires k in keys && Enumerates(rest, keys - {k})
    ensures Enumerates([k] + rest, keys)
  {
    var ks := [k] + rest;
    forall i: nat, j: nat | i < j < |ks|
      ensures KeyAt(ks, i) != KeyAt(ks, j)
    {
      if i == 0 {
        assert ks[j] == rest[j - 1] && rest[j - 1] in rest;
      } else {
        EnumerationDistinct(rest, keys - {k}, i - 1, j - 1);
      }
    }
  }

  /** The iteration order of an `unordered_map`: it is unspecified, so the model takes
      it as a parameter wherever a map is traversed. Whatever the order, a traversal
      visits every entry exactly once. */
  type KeyOrder = order: map<string, Value> -> seq<string> | forall m :: Enumerates(order(m), m.Keys)
    ghost witness (m: map<string, Value>) => SomeEnumeration(m.Keys)

  /** An enumeration is as long as the set it enumerates. */
  lemma {:induction false} EnumerationSize(ks: seq<string>, keys: set<string>)
    requires Enumerates(ks, keys)
    ensures |ks| == |keys|
    decreases |ks|
  {
    if |ks| > 0 {
      var rest := ks[1..];
      assert Enumerates(rest, keys - {ks[0]}) by {
        forall k | k in keys - {ks[0]}
          ensures k in rest
        {
          var i :| 0 <= i < |ks| && ks[i] == k;
          assert i != 0;
          assert rest[i - 1] == k;
        }
        forall i: nat, j: nat | i < j < |rest|
          ensures KeyAt(rest, i) != KeyAt(rest, j)
        {
          EnumerationDistinct(ks, keys, i + 1, j + 1);
        }
        forall k | k in rest
          ensures k in keys - {ks[0]}
        {
          var i :| 0 <= i < |rest| && rest[i] == k;
          assert ks[i + 1] == k;
          EnumerationDistinct(ks, keys, 0, i + 1);
        }
      }
      EnumerationSize(rest, keys - {ks[0]});
    }
  }

  /** No `Bool` and no `Null` anywhere in the tree. */
  predicate NoLiterals(v: Value) {
    match v
    case Null => false
    case Bool(_) => false
    case Number(_) => true
    case String(_) => true
    case Array(items) => forall i | 0 <= i < |items| :: NoLiterals(items[i])
    case Object(m) => forall k | k in m :: NoLiterals(m[k])
  }
}
