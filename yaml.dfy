/** The decoded YAML document, as `yaml.safe_load` hands it to the extractor. */
module Yaml {

  /** One node of the document. A mapping keeps its entries in insertion order,
      which is also the order in which Python iterates over a dict. */
  datatype Value =
    | Null
    | Bool(b: bool)
    | Int(i: int)
    | Str(s: string)
    | List(items: seq<Value>)
    | Dict(entries: seq<(string, Value)>)

  /** Python truthiness: None, False, 0 and empty strings, lists and dicts are falsy. */
  predicate Truthy(v: Value) {
    match v
    case Null => false
    case Bool(b) => b
    case Int(i) => i != 0
    case Str(s) => s != ""
    case List(xs) => xs != []
    case Dict(es) => es != []
  }

  /** The falsy values are exactly None, False, 0 and the empty string, list and dict. */
  lemma FalsyValues(v: Value)
    ensures !Truthy(v) <==> v == Null || v == Bool(false) || v == Int(0) || v == Str("") || v == List([]) || v == Dict([])
  {
  }

  /** A Python dict never holds a key twice. */
  predicate DistinctKeys(es: seq<(string, Value)>) {
    forall i, j :: 0 <= i < j < |es| ==> es[i].0 != es[j].0
  }

  predicate HasKey(es: seq<(string, Value)>, key: string) {
    exists i :: 0 <= i < |es| && es[i].0 == key
  }

  /** `d.get(key)`: the value stored under `key`, or None when the key is absent. */
  function Get(es: seq<(string, Value)>, key: string): (v: Value)
    ensures !HasKey(es, key) ==> v == Null
    ensures HasKey(es, key) ==> exists i :: 0 <= i < |es| && es[i].0 == key && es[i].1 == v
  {
    if es == [] then Null
    else if es[0].0 == key then es[0].1
    else
      var v := Get(es[1..], key);
      assert HasKey(es[1..], key) ==> HasKey(es, key) && forall i :: 0 <= i < |es| - 1 ==> es[1..][i] == es[i + 1];
      assert HasKey(es, key) ==> HasKey(es[1..], key) by {
        if HasKey(es, key) {
          var i :| 0 <= i < |es| && es[i].0 == key;
          assert i != 0 && es[1..][i - 1] == es[i];
        }
      }
      v
  }

  /** With distinct keys, `get` finds exactly the value bound to the key. */
  lemma {:induction false} GetFindsEntry(es: seq<(string, Value)>, i: nat)
    requires DistinctKeys(es)
    requires i < |es|
    ensures Get(es, es[i].0) == es[i].1
  {
    if i > 0 {
      assert es[0].0 != es[i].0;
      assert DistinctKeys(es[1..]) by {
        forall a, b | 0 <= a < b < |es| - 1 ensures es[1..][a].0 != es[1..][b].0 {
          assert es[1..][a] == es[a + 1] && es[1..][b] == es[b + 1];
        }
      }
      assert es[1..][i - 1] == es[i];
      GetFindsEntry(es[1..], i - 1);
    }
  }

  /** Appending an entry changes `get` only for a key that was absent. */
  lemma {:induction false} GetAppend(es: seq<(string, Value)>, e: (string, Value), key: string)
    ensures Get(es + [e], key) == if HasKey(es, key) then Get(es, key) else if e.0 == key then e.1 else Null
  {
    if es != [] {
      assert (es + [e])[1..] == es[1..] + [e];
      GetAppend(es[1..], e, key);
      assert HasKey(es, key) <==> es[0].0 == key || HasKey(es[1..], key) by {
        if HasKey(es[1..], key) {
          var i :| 0 <= i < |es| - 1 && es[1..][i].0 == key;
          assert es[i + 1].0 == key;
        }
        if HasKey(es, key) && es[0].0 != key {
          var i :| 0 <= i < |es| && es[i].0 == key;
          assert es[1..][i - 1].0 == key;
        }
      }
    } else {
      assert !HasKey(es, key);
    }
  }

  /** Python's `a or b`: `a` when it is truthy, otherwise `b`, whatever `b` is. */
  function Or(a: Value, b: Value): (r: Value)
    ensures Truthy(a) ==> r == a
    ensures !Truthy(a) ==> r == b
    ensures Truthy(r) <==> Truthy(a) || Truthy(b)
  {
    if Truthy(a) then a else b
  }
}
