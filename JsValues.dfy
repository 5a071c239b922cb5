/**
  JavaScript values as the element builder sees them.

  A value is one of the kinds the builder distinguishes with `typeof`,
  `isArray` and the `nodeType > 0` test. Plain objects are mutable: an
  `Obj` holds a reference to a `Bag`, so that a change the builder makes
  to the caller's property bag stays visible to the caller.
 */
module JsValues {

  datatype Option<T> = None | Some(value: T) {
    function GetOr(default: T): T {
      if Some? then value else default
    }
  }

  /** An existing DOM node passed in by the caller: its identity and the
      name of its interface (as shown by `Object.prototype.toString`). */
  datatype NodeRef = NodeRef(identity: nat, interfaceName: string)

  datatype Value =
    | Str(s: string)
    | Num(n: int)
    | Bool(b: bool)
    | Null
    | Undef
    | Node(node: NodeRef)
    | Arr(items: seq<Value>)
    | Obj(bag: Bag)
    | Fn(identity: nat, source: string)

  /** One own enumerable property of a plain object. */
  type Entry = (string, Value)

  /** A plain object: its own enumerable properties in insertion order. */
  class Bag {
    var entries: seq<Entry>

    /** `{}` */
    constructor ()
      ensures entries == []
    {
      entries := [];
    }

    /** Property names of an object are unique. */
    ghost predicate Valid()
      reads this
    {
      DistinctKeys(entries)
    }
  }

  function KeysOf(es: seq<Entry>): (ks: set<string>)
    ensures forall i :: 0 <= i < |es| ==> es[i].0 in ks
    ensures forall k :: k in ks ==> exists i :: 0 <= i < |es| && es[i].0 == k
  {
    if es == [] then {} else KeysOf(es[..|es| - 1]) + {es[|es| - 1].0}
  }

  ghost predicate DistinctKeys(es: seq<Entry>) {
    forall i, j :: 0 <= i < j < |es| ==> es[i].0 != es[j].0
  }

  /** The value stored under `key`, if any: the first entry with that key. */
  function Lookup(es: seq<Entry>, key: string): (r: Option<Value>)
    ensures r.Some? <==> key in KeysOf(es)
  {
    if es == [] then None
    else
      var n := |es| - 1;
      match Lookup(es[..n], key)
      case Some(v) => Some(v)
      case None => if es[n].0 == key then Some(es[n].1) else None
  }

  /** Looking a key up after appending an entry: the new entry is found only
      when no earlier one has the key. */
  lemma LookupAppend(es: seq<Entry>, e: Entry, key: string)
    ensures Lookup(es + [e], key) ==
      if key in KeysOf(es) then Lookup(es, key) else if e.0 == key then Some(e.1) else None
  {
    assert (es + [e])[..|es|] == es;
  }

  /** What `Lookup` finds is the value of an entry with that key. */
  lemma {:induction false} LookupIsEntry(es: seq<Entry>, key: string)
    ensures Lookup(es, key).Some? ==> exists i :: 0 <= i < |es| && es[i] == (key, Lookup(es, key).value)
  {
    if es != [] {
      var n := |es| - 1;
      LookupIsEntry(es[..n], key);
      if Lookup(es[..n], key).Some? {
        var i :| 0 <= i < n && es[..n][i] == (key, Lookup(es[..n], key).value);
        assert es[i] == es[..n][i];
      }
    }
  }

  /** A prefix of an object's entries has unique keys too. */
  lemma DistinctPrefix(es: seq<Entry>, n: nat)
    requires DistinctKeys(es) && n <= |es|
    ensures DistinctKeys(es[..n])
  {
  }

  /** The last key does not occur earlier. */
  lemma LastKeyIsNew(es: seq<Entry>)
    requires DistinctKeys(es) && es != []
    ensures es[|es| - 1].0 !in KeysOf(es[..|es| - 1])
  {
    var n := |es| - 1;
    forall i | 0 <= i < n ensures es[..n][i].0 != es[n].0 {
      assert es[..n][i] == es[i];
    }
  }

  /** The keys of `es` are those before its last entry and the last key. */
  lemma KeysOfLast(es: seq<Entry>, k: string)
    requires es != []
    ensures k in KeysOf(es) <==> k in KeysOf(es[..|es| - 1]) || k == es[|es| - 1].0
  {
  }

  /** With unique keys, an entry's value is what `Lookup` finds for its key. */
  lemma {:induction false} LookupDistinct(es: seq<Entry>, i: nat)
    requires DistinctKeys(es) && i < |es|
    ensures Lookup(es, es[i].0) == Some(es[i].1)
  {
    var n := |es| - 1;
    if i < n {
      assert es[..n][i] == es[i];
      DistinctPrefix(es, n);
      LookupDistinct(es[..n], i);
    } else {
      LastKeyIsNew(es);
    }
  }

  /** Names every plain object answers `true` to under the `in` operator,
      because `Object.prototype` carries them. */
  const ObjectPrototypeKeys: set<string> := {
    "constructor", "hasOwnProperty", "isPrototypeOf", "propertyIsEnumerable",
    "toLocaleString", "toString", "valueOf", "__proto__",
    "__defineGetter__", "__defineSetter__", "__lookupGetter__", "__lookupSetter__"
  }

  /** `key in obj` for a plain object whose own properties are `es`. */
  predicate HasProperty(es: seq<Entry>, key: string) {
    key in KeysOf(es) || key in ObjectPrototypeKeys
  }

  /** The `typeof` operator. */
  function TypeOf(v: Value): (t: string)
    ensures t == "string" <==> v.Str?
    ensures t == "object" <==> v.Null? || v.Node? || v.Arr? || v.Obj?
  {
    match v
    case Str(_) => "string"
    case Num(_) => "number"
    case Bool(_) => "boolean"
    case Undef => "undefined"
    case Fn(_, _) => "function"
    case _ => "object"
  }

  /** JavaScript truthiness (numbers are integers here, so NaN does not arise). */
  predicate Truthy(v: Value) {
    match v
    case Str(s) => s != ""
    case Num(n) => n != 0
    case Bool(b) => b
    case Null => false
    case Undef => false
    case _ => true
  }

  /** `v && v.nodeType > 0`, with the `Node` variant standing for every value
      that carries a positive `nodeType`. */
  predicate IsNodeLike(v: Value) {
    v.Node?
  }

  function DigitChar(d: nat): (c: char)
    requires d < 10
    ensures '0' <= c <= '9'
    ensures c as int - '0' as int == d
  {
    ('0' as int + d) as char
  }

  /** The number a string of decimal digits denotes. */
  function DecimalValue(t: string): nat
    requires forall i :: 0 <= i < |t| ==> '0' <= t[i] <= '9'
  {
    if t == [] then 0 else 10 * DecimalValue(t[..|t| - 1]) + (t[|t| - 1] as int - '0' as int)
  }

  /** Decimal text of a natural number, without leading zeros: it reads
      back as the number itself. */
  function NatText(n: nat): (t: string)
    ensures |t| > 0
    ensures forall i :: 0 <= i < |t| ==> '0' <= t[i] <= '9'
    ensures t[0] == '0' ==> n == 0
    ensures DecimalValue(t) == n
  {
    if n < 10 then [DigitChar(n)]
    else
      var front := NatText(n / 10);
      var t := front + [DigitChar(n % 10)];
      assert t[..|t| - 1] == front;
      t
  }

  /** Different numbers have different decimal texts. */
  lemma NatTextInjective(m: nat, n: nat)
    requires NatText(m) == NatText(n)
    ensures m == n
  {
    assert DecimalValue(NatText(m)) == m;
  }

  function IntText(n: int): string {
    if n < 0 then "-" + NatText(-n) else NatText(n)
  }

  function JoinWith(parts: seq<string>, sep: string): string {
    if |parts| == 0 then ""
    else if |parts| == 1 then parts[0]
    else parts[0] + sep + JoinWith(parts[1..], sep)
  }

  /** `String(v)`: the text JavaScript produces when a value is concatenated
      to a string or stored as an attribute. An array joins its items' texts
      with "," (null and undefined items give ""). */
  function Text(v: Value): string
    decreases v
  {
    match v
    case Str(s) => s
    case Num(n) => IntText(n)
    case Bool(b) => if b then "true" else "false"
    case Null => "null"
    case Undef => "undefined"
    case Node(r) => "[object " + r.interfaceName + "]"
    case Arr(items) =>
      JoinWith(seq(|items|, i requires 0 <= i < |items| =>
        if items[i].Null? || items[i].Undef? then "" else Text(items[i])), ",")
    case Obj(_) => "[object Object]"
    case Fn(_, source) => source
  }
}
