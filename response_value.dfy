/**
 * What MultiJson.load and MultiXml.parse hand back, after `to_smash`: a tree
 * of Ruby values whose mappings keep their keys as strings, in document order.
 * A parsed mapping is a Ruby Hash and so holds each key once; the datatype
 * does not enforce this, and `Lookup` reads the first entry with a key.
 */
module ResponseValue {
  import opened Wrappers
  import RubyArray

  datatype Value =
    | Nil
    | Bool(b: bool)
    | Number(text: string)   // a number, carried as the text its `to_s` gives
    | Str(s: string)
    | List(items: seq<Value>)
    | Hash(entries: seq<(string, Value)>)

  /** `h[key]` on a mapping: the value stored under `key`, nil when the key is absent. */
  function Lookup(entries: seq<(string, Value)>, key: string): (v: Value)
    ensures v != Nil ==> exists i :: 0 <= i < |entries| && entries[i] == (key, v)
    ensures (forall i :: 0 <= i < |entries| ==> entries[i].0 != key) ==> v == Nil
    ensures forall i :: (0 <= i < |entries| && entries[i].0 == key &&
                         (forall j :: 0 <= j < i ==> entries[j].0 != key)) ==> v == entries[i].1
  {
    if entries == [] then Nil
    else if entries[0].0 == key then entries[0].1
    else Lookup(entries[1..], key)
  }

  /**
   * `get(k1, ..., kn)`: walk the keys from `v`; nil as soon as a key is
   * absent or a step reaches a value that is not a mapping.
   */
  function Get(v: Value, path: seq<string>): (r: Value)
    ensures path == [] ==> r == v
    ensures path != [] && !v.Hash? ==> r == Nil
    ensures |path| == 1 && v.Hash? ==> r == Lookup(v.entries, path[0])
    decreases |path|
  {
    if path == [] then v
    else if !v.Hash? then Nil
    else Get(Lookup(v.entries, path[0]), path[1..])
  }

  /** Walking a path in two pieces is walking it at once. */
  lemma {:induction false} GetAppend(v: Value, p: seq<string>, q: seq<string>)
    ensures Get(v, p + q) == Get(Get(v, p), q)
    decreases |p|
  {
    if p == [] {
      assert p + q == q;
    } else if v.Hash? {
      assert (p + q)[1..] == p[1..] + q;
      GetAppend(Lookup(v.entries, p[0]), p[1..], q);
    }
  }

  /**
   * Ruby truthiness: everything but nil and false. Unlike many languages, an
   * empty string, an empty array, an empty mapping and zero are all true.
   */
  predicate Truthy(v: Value)
  {
    !(v.Nil? || v == Bool(false))
  }

  /** nil becomes absent, as `compact` sees it. */
  function NilToNone(v: Value): Option<Value>
  {
    if v.Nil? then None else Some(v)
  }

  /**
   * `to_s` as string interpolation uses it. Arrays and mappings print in
   * Ruby's `inspect` form, which this model does not reproduce: they render empty.
   */
  function ToS(v: Value): string
  {
    match v
    case Nil => ""
    case Bool(b) => if b then "true" else "false"
    case Number(text) => text
    case Str(s) => s
    case List(_) => ""
    case Hash(_) => ""
  }

  /** The text an element contributes to `Array#join(sep)`: nested arrays are joined with the same separator. */
  function JoinText(v: Value, sep: string): (r: string)
    ensures !v.List? ==> r == ToS(v)
    ensures v.List? && v.items == [] ==> r == ""
    ensures v.List? && v.items != [] && v.items[0].Str? ==> v.items[0].s <= r
    ensures v.List? && (forall i :: 0 <= i < |v.items| ==> v.items[i].Str?) ==>
      r == RubyArray.Join(seq(|v.items|, i requires 0 <= i < |v.items| => v.items[i].s), sep)
    decreases v
  {
    match v
    case List(items) =>
      var texts := seq(|items|, i requires 0 <= i < |items| => JoinText(items[i], sep));
      assert (forall i :: 0 <= i < |items| ==> items[i].Str?) ==>
        texts == seq(|items|, i requires 0 <= i < |items| => items[i].s);
      RubyArray.Join(texts, sep)
    case _ => ToS(v)
  }

  /** `Array#join(sep)` over Ruby values. */
  function JoinValues(vs: seq<Value>, sep: string): (r: string)
    ensures vs != [] && vs[0].Str? ==> vs[0].s <= r
    ensures (forall i :: 0 <= i < |vs| ==> vs[i].Str?) ==>
      r == RubyArray.Join(seq(|vs|, i requires 0 <= i < |vs| => vs[i].s), sep)
  {
    var texts := seq(|vs|, i requires 0 <= i < |vs| => JoinText(vs[i], sep));
    assert (forall i :: 0 <= i < |vs| ==> vs[i].Str?) ==>
      texts == seq(|vs|, i requires 0 <= i < |vs| => vs[i].s);
    RubyArray.Join(texts, sep)
  }
}
