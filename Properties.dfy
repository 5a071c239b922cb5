/**
  `applyProperties`: every key of the property bag, in the bag's order, is
  handled by the first of four rules that applies to it:
    1. a key starting with `on` is assigned as a direct property;
    2. `style` with an object-typed value is copied rule by rule;
    3. `class` and `className` append `' ' + value` to the class name;
    4. anything else is set as an attribute, in the XLink namespace when
       the key starts with `xlink` and in no namespace otherwise.
 */
module Properties {
  import opened JsValues
  import opened Dom

  /** `!s.indexOf(prefix)`: `indexOf` is 0 exactly when `s` starts with `prefix`. */
  predicate StartsWith(s: string, prefix: string) {
    prefix <= s
  }

  datatype Rule = Handler | StyleRules | ClassAppend | Attribute

  /** Which rule handles `key` with value `v` (the if/else-if chain). */
  function RuleFor(key: string, v: Value): Rule {
    if StartsWith(key, "on") then Handler
    else if key == "style" && TypeOf(v) == "object" then StyleRules
    else if key == "class" || key == "className" then ClassAppend
    else Attribute
  }

  /** The namespace `setAttributeNS` receives for `key`. */
  function AttributeNamespace(key: string): Option<string> {
    if StartsWith(key, "xlink") then Some(XlinkNS) else None
  }

  function ObjFrame(v: Value): set<Bag> {
    if v.Obj? then {v.bag} else {}
  }

  /** The pairs `for (var rule in v)` visits for an object-typed `v`: a plain
      object's own properties, an array's indices. */
  function Enumerable(v: Value): seq<Entry>
    reads ObjFrame(v)
  {
    match v
    case Obj(bag) => bag.entries
    case Arr(items) => seq(|items|, i requires 0 <= i < |items| => (NatText(i), items[i]))
    case _ => []
  }

  /** An array's indices are distinct keys, so its rules never overwrite
      one another. */
  lemma ArrayRulesDistinct(items: seq<Value>)
    ensures DistinctKeys(Enumerable(Arr(items)))
  {
    var es := Enumerable(Arr(items));
    forall i, j | 0 <= i < j < |es| ensures es[i].0 != es[j].0 {
      if es[i].0 == es[j].0 {
        NatTextInjective(i, j);
      }
    }
  }

  /** `element.style[rule] = value` for every rule, in order. */
  function AssignRules(style: map<string, Value>, rules: seq<Entry>): map<string, Value>
  {
    if rules == [] then style
    else
      var last := rules[|rules| - 1];
      AssignRules(style, rules[..|rules| - 1])[last.0 := last.1]
  }

  /** One pass of the loop body of `applyProperties`. */
  function ApplyEntry(st: ElementState, key: string, v: Value): ElementState
    reads ObjFrame(v)
  {
    match RuleFor(key, v)
    case Handler => st.(properties := st.properties[key := v])
    case StyleRules => st.(style := AssignRules(st.style, Enumerable(v)))
    case ClassAppend => st.(className := st.className + " " + Text(v))
    case Attribute => st.(attributes := st.attributes[AttrKey(AttributeNamespace(key), key) := Text(v)])
  }

  /** The node after `applyProperties` has visited the entries `es` in order. */
  function ApplyAll(st: ElementState, es: seq<Entry>): ElementState
    reads set i | 0 <= i < |es| && es[i].1.Obj? :: es[i].1.bag
  {
    if es == [] then st
    else
      var n := |es| - 1;
      ApplyEntry(ApplyAll(st, es[..n]), es[n].0, es[n].1)
  }

  /** Applying one more entry of `es`. */
  lemma ApplyAllSnoc(st: ElementState, es: seq<Entry>, i: nat)
    requires i < |es|
    ensures ApplyAll(st, es[..i + 1]) == ApplyEntry(ApplyAll(st, es[..i]), es[i].0, es[i].1)
  {
    assert es[..i + 1][..i] == es[..i];
  }

  /** One pass of the loop body of `applyProperties`: lines 75-83. */
  method ApplyOne(element: Element, key: string, v: Value)
    requires v.Obj? ==> v.bag as object != element
    modifies element
    ensures element.State() == ApplyEntry(old(element.State()), key, v)
  {
    ApplyEntryEffect(element.State(), key, v);
    if StartsWith(key, "on") {
      element.properties := element.properties[key := v];
    } else if key == "style" && TypeOf(v) == "object" {
      AssignStyle(element, Enumerable(v));
    } else if key == "class" || key == "className" {
      element.className := element.className + " " + Text(v);
    } else {
      element.attributes := element.attributes[AttrKey(AttributeNamespace(key), key) := Text(v)];
    }
  }

  /** Line 78: `element.style[rule] = props[attr][rule]` for every rule. */
  method AssignStyle(element: Element, rules: seq<Entry>)
    modifies element
    ensures element.State() == old(element.State()).(style := AssignRules(old(element.style), rules))
  {
    for j := 0 to |rules|
      invariant element.State() == old(element.State()).(style := AssignRules(old(element.style), rules[..j]))
    {
      assert rules[..j + 1][..j] == rules[..j];
      element.style := element.style[rules[j].0 := rules[j].1];
    }
    assert rules[..|rules|] == rules;
  }

  /** `applyProperties(element, props)` */
  method ApplyProperties(element: Element, props: Bag)
    modifies element
    ensures element.State() == ApplyAll(old(element.State()), props.entries)
  {
    var es := props.entries;
    // the objects the entries refer to are not the element being written
    assert forall k :: 0 <= k < |es| && es[k].1.Obj? ==> es[k].1.bag as object != element;
    for i := 0 to |es|
      invariant element.State() == ApplyAll(old(element.State()), es[..i])
    {
      ApplyOne(element, es[i].0, es[i].1);
      ApplyAllSnoc(old(element.State()), es, i);
    }
    assert es[..|es|] == es;
  }

  // ------------------------------------------------------------ properties

  /** Rule 4 stated on the key and value alone: not `on*`, not an object
      `style`, not `class` or `className`. */
  predicate IsAttributeEntry(key: string, v: Value) {
    !StartsWith(key, "on") && !(key == "style" && TypeOf(v) == "object")
    && key != "class" && key != "className"
  }

  /** A key starting with `on` is none of the other rules' keys. */
  lemma HandlerKeyIsNotNamed(key: string)
    requires StartsWith(key, "on")
    ensures key != "style" && key != "class" && key != "className"
  {
    assert key[0] == 'o';
  }

  lemma EntryClassName(st: ElementState, key: string, v: Value)
    ensures ApplyEntry(st, key, v).className ==
      if key == "class" || key == "className" then st.className + " " + Text(v) else st.className
  {
    if key == "class" || key == "className" {
      assert key[0] == 'c';
    }
  }

  lemma EntryStyle(st: ElementState, key: string, v: Value)
    ensures ApplyEntry(st, key, v).style ==
      if key == "style" && TypeOf(v) == "object" then AssignRules(st.style, Enumerable(v)) else st.style
  {
    if key == "style" {
      assert key[0] == 's';
    }
  }

  lemma EntryAttributes(st: ElementState, key: string, v: Value)
    ensures ApplyEntry(st, key, v).attributes ==
      if IsAttributeEntry(key, v) then st.attributes[AttrKey(AttributeNamespace(key), key) := Text(v)]
      else st.attributes
  {
    if StartsWith(key, "on") {
      HandlerKeyIsNotNamed(key);
    }
  }

  /** What one entry does to each part of the node. */
  lemma ApplyEntryEffect(st: ElementState, key: string, v: Value)
    ensures var r := ApplyEntry(st, key, v);
      && r.kind == st.kind && r.id == st.id && r.childNodes == st.childNodes
      && r.properties == (if StartsWith(key, "on") then st.properties[key := v] else st.properties)
      && r.style == (if key == "style" && TypeOf(v) == "object" then AssignRules(st.style, Enumerable(v)) else st.style)
      && r.className == (if key == "class" || key == "className" then st.className + " " + Text(v) else st.className)
      && r.attributes == (if IsAttributeEntry(key, v)
                          then st.attributes[AttrKey(AttributeNamespace(key), key) := Text(v)]
                          else st.attributes)
  {
    EntryClassName(st, key, v);
    EntryStyle(st, key, v);
    EntryAttributes(st, key, v);
  }

  /** Applying properties never changes the node's kind, id or children. */
  lemma {:induction false} ApplyAllKeepsShape(st: ElementState, es: seq<Entry>)
    ensures ApplyAll(st, es).kind == st.kind
    ensures ApplyAll(st, es).id == st.id
    ensures ApplyAll(st, es).childNodes == st.childNodes
  {
    if es != [] {
      var n := |es| - 1;
      ApplyAllKeepsShape(st, es[..n]);
      ApplyEntryEffect(ApplyAll(st, es[..n]), es[n].0, es[n].1);
    }
  }

  lemma {:induction false} HandlerValues(st: ElementState, es: seq<Entry>)
    requires DistinctKeys(es)
    ensures forall i :: 0 <= i < |es| && StartsWith(es[i].0, "on") ==>
      es[i].0 in ApplyAll(st, es).properties && ApplyAll(st, es).properties[es[i].0] == es[i].1
  {
    if es != [] {
      var n := |es| - 1;
      var (k0, v0) := es[n];
      DistinctPrefix(es, n);
      HandlerValues(st, es[..n]);
      var r := ApplyAll(st, es);
      ApplyEntryEffect(ApplyAll(st, es[..n]), k0, v0);
      forall i | 0 <= i < |es| && StartsWith(es[i].0, "on")
        ensures es[i].0 in r.properties && r.properties[es[i].0] == es[i].1
      {
        if i < n {
          assert es[..n][i] == es[i];
          assert es[i].0 != k0;
        }
      }
    }
  }

  lemma {:induction false} HandlerKeys(st: ElementState, es: seq<Entry>)
    ensures forall k :: k in ApplyAll(st, es).properties <==>
      k in st.properties || (StartsWith(k, "on") && k in KeysOf(es))
  {
    if es != [] {
      var n := |es| - 1;
      HandlerKeys(st, es[..n]);
      var r := ApplyAll(st, es);
      ApplyEntryEffect(ApplyAll(st, es[..n]), es[n].0, es[n].1);
      forall k ensures k in r.properties <==> k in st.properties || (StartsWith(k, "on") && k in KeysOf(es)) {
        KeysOfLast(es, k);
      }
    }
  }

  lemma {:induction false} OtherPropertiesKept(st: ElementState, es: seq<Entry>)
    ensures forall k :: k in st.properties && !(StartsWith(k, "on") && k in KeysOf(es)) ==>
      k in ApplyAll(st, es).properties && ApplyAll(st, es).properties[k] == st.properties[k]
  {
    HandlerKeys(st, es);
    if es != [] {
      var n := |es| - 1;
      OtherPropertiesKept(st, es[..n]);
      HandlerKeys(st, es[..n]);
      var r := ApplyAll(st, es);
      ApplyEntryEffect(ApplyAll(st, es[..n]), es[n].0, es[n].1);
      forall k | k in st.properties && !(StartsWith(k, "on") && k in KeysOf(es))
        ensures k in r.properties && r.properties[k] == st.properties[k]
      {
        KeysOfLast(es, k);
      }
    }
  }

  /** Keys starting with `on` become direct properties holding the very value
      given, and no other key touches the properties. */
  lemma ApplyAllProperties(st: ElementState, es: seq<Entry>)
    requires DistinctKeys(es)
    ensures forall i :: 0 <= i < |es| && StartsWith(es[i].0, "on") ==>
      es[i].0 in ApplyAll(st, es).properties && ApplyAll(st, es).properties[es[i].0] == es[i].1
    ensures forall k :: k in ApplyAll(st, es).properties <==>
      k in st.properties || (StartsWith(k, "on") && k in KeysOf(es))
    ensures forall k :: k in st.properties && !(StartsWith(k, "on") && k in KeysOf(es)) ==>
      ApplyAll(st, es).properties[k] == st.properties[k]
  {
    HandlerValues(st, es);
    HandlerKeys(st, es);
    OtherPropertiesKept(st, es);
  }

  lemma {:induction false} AttributeValues(st: ElementState, es: seq<Entry>)
    requires DistinctKeys(es)
    ensures forall i :: 0 <= i < |es| && IsAttributeEntry(es[i].0, es[i].1) ==>
      AttrKey(AttributeNamespace(es[i].0), es[i].0) in ApplyAll(st, es).attributes
      && ApplyAll(st, es).attributes[AttrKey(AttributeNamespace(es[i].0), es[i].0)] == Text(es[i].1)
  {
    if es != [] {
      var n := |es| - 1;
      var (k0, v0) := es[n];
      DistinctPrefix(es, n);
      AttributeValues(st, es[..n]);
      var r := ApplyAll(st, es);
      ApplyEntryEffect(ApplyAll(st, es[..n]), k0, v0);
      forall i | 0 <= i < |es| && IsAttributeEntry(es[i].0, es[i].1)
        ensures AttrKey(AttributeNamespace(es[i].0), es[i].0) in r.attributes
             && r.attributes[AttrKey(AttributeNamespace(es[i].0), es[i].0)] == Text(es[i].1)
      {
        if i < n {
          assert es[..n][i] == es[i];
          assert es[i].0 != k0;
        }
      }
    }
  }

  /** Every new attribute comes from an entry that rule 4 handles, in the
      namespace its key selects: `on*` keys, `class`, `className` and an
      object-typed `style` never become attributes. */
  lemma {:induction false} NewAttributesFromEntries(st: ElementState, es: seq<Entry>)
    ensures forall a :: a in ApplyAll(st, es).attributes && a !in st.attributes ==>
      exists i :: 0 <= i < |es| && es[i].0 == a.name && IsAttributeEntry(es[i].0, es[i].1)
                  && a.namespace == AttributeNamespace(a.name)
  {
    if es != [] {
      var n := |es| - 1;
      NewAttributesFromEntries(st, es[..n]);
      var prev := ApplyAll(st, es[..n]);
      var r := ApplyAll(st, es);
      ApplyEntryEffect(prev, es[n].0, es[n].1);
      forall a | a in r.attributes && a !in st.attributes
        ensures exists i :: 0 <= i < |es| && es[i].0 == a.name && IsAttributeEntry(es[i].0, es[i].1)
                               && a.namespace == AttributeNamespace(a.name)
      {
        if a in prev.attributes {
          var i :| 0 <= i < n && es[..n][i].0 == a.name && IsAttributeEntry(es[..n][i].0, es[..n][i].1)
            && a.namespace == AttributeNamespace(a.name);
          assert es[..n][i] == es[i];
        } else {
          assert es[n].0 == a.name && IsAttributeEntry(es[n].0, es[n].1);
        }
      }
    }
  }

  lemma {:induction false} OldAttributesKept(st: ElementState, es: seq<Entry>)
    ensures forall a :: a in st.attributes ==> a in ApplyAll(st, es).attributes
    ensures forall a :: a in st.attributes && a.name !in KeysOf(es) ==>
      ApplyAll(st, es).attributes[a] == st.attributes[a]
  {
    if es != [] {
      var n := |es| - 1;
      OldAttributesKept(st, es[..n]);
      var r := ApplyAll(st, es);
      ApplyEntryEffect(ApplyAll(st, es[..n]), es[n].0, es[n].1);
      forall a | a in st.attributes && a.name !in KeysOf(es)
        ensures r.attributes[a] == st.attributes[a]
      {
        KeysOfLast(es, a.name);
      }
    }
  }

  /** Every other key becomes the attribute `String(value)`, namespaced by
      its prefix: the XLink namespace exactly for keys starting with `xlink`.
      Nothing else is written, and attributes of other names stay. */
  lemma ApplyAllAttributes(st: ElementState, es: seq<Entry>)
    requires DistinctKeys(es)
    ensures forall i :: 0 <= i < |es| && IsAttributeEntry(es[i].0, es[i].1) ==>
      AttrKey(AttributeNamespace(es[i].0), es[i].0) in ApplyAll(st, es).attributes
      && ApplyAll(st, es).attributes[AttrKey(AttributeNamespace(es[i].0), es[i].0)] == Text(es[i].1)
    ensures forall a :: a in ApplyAll(st, es).attributes && a !in st.attributes ==>
      exists i :: 0 <= i < |es| && es[i].0 == a.name && IsAttributeEntry(es[i].0, es[i].1)
                  && a.namespace == AttributeNamespace(a.name)
    ensures forall a :: a in st.attributes ==> a in ApplyAll(st, es).attributes
    ensures forall a :: a in st.attributes && a.name !in KeysOf(es) ==>
      ApplyAll(st, es).attributes[a] == st.attributes[a]
  {
    AttributeValues(st, es);
    NewAttributesFromEntries(st, es);
    OldAttributesKept(st, es);
  }

  /** The XLink namespace is chosen exactly for keys starting with `xlink`. */
  lemma AttributeNamespaceSpec(key: string)
    ensures AttributeNamespace(key) == Some(XlinkNS) <==> StartsWith(key, "xlink")
    ensures AttributeNamespace(key) != Some(XlinkNS) ==> AttributeNamespace(key) == None
  {
  }

  /** `' ' + value` for a `class` or `className` entry, nothing for others. */
  function ClassPiece(e: Entry): string {
    if e.0 == "class" || e.0 == "className" then " " + Text(e.1) else ""
  }

  /** `' ' + value` for every `class` and `className` entry, left to right. */
  function ClassSuffix(es: seq<Entry>): string {
    if es == [] then "" else ClassSuffix(es[..|es| - 1]) + ClassPiece(es[|es| - 1])
  }

  /** `class` and `className` values are appended, in bag order, to whatever
      class name the node already had; nothing replaces it. */
  lemma {:induction false} ApplyAllClassName(st: ElementState, es: seq<Entry>)
    ensures ApplyAll(st, es).className == st.className + ClassSuffix(es)
  {
    if es != [] {
      var n := |es| - 1;
      ApplyAllClassName(st, es[..n]);
      ApplyEntryEffect(ApplyAll(st, es[..n]), es[n].0, es[n].1);
    }
  }

  /** The rules an object-typed `style` entry contributes, if there is one. */
  function StyleSource(es: seq<Entry>): seq<Entry>
    reads set i | 0 <= i < |es| && es[i].1.Obj? :: es[i].1.bag
  {
    LookupIsEntry(es, "style");
    match Lookup(es, "style")
    case Some(v) => if TypeOf(v) == "object" then Enumerable(v) else []
    case None => []
  }

  /** The style map ends up as the old one with the rules of the `style`
      object assigned over it; without an object-typed `style` it is unchanged. */
  lemma {:induction false} ApplyAllStyle(st: ElementState, es: seq<Entry>)
    requires DistinctKeys(es)
    ensures ApplyAll(st, es).style == AssignRules(st.style, StyleSource(es))
  {
    if es != [] {
      var n := |es| - 1;
      var (k0, v0) := es[n];
      DistinctPrefix(es, n);
      ApplyAllStyle(st, es[..n]);
      ApplyEntryEffect(ApplyAll(st, es[..n]), k0, v0);
      LastKeyIsNew(es);
      assert es == es[..n] + [es[n]];
      LookupAppend(es[..n], es[n], "style");
      if k0 == "style" {
        assert StyleSource(es[..n]) == [];
      }
    }
  }

  /** Assigning rules in order: every rule's key is set to its value, other
      keys keep theirs. */
  lemma {:induction false} AssignRulesSpec(style: map<string, Value>, rules: seq<Entry>)
    requires DistinctKeys(rules)
    ensures forall k :: k in AssignRules(style, rules) <==> k in style || k in KeysOf(rules)
    ensures forall k :: k in KeysOf(rules) ==> AssignRules(style, rules)[k] == Lookup(rules, k).value
    ensures forall k :: k in style && k !in KeysOf(rules) ==> AssignRules(style, rules)[k] == style[k]
  {
    if rules != [] {
      var n := |rules| - 1;
      DistinctPrefix(rules, n);
      AssignRulesSpec(style, rules[..n]);
      LastKeyIsNew(rules);
      assert rules == rules[..n] + [rules[n]];
      forall k ensures k in KeysOf(rules) <==> k in KeysOf(rules[..n]) || k == rules[n].0 {
        KeysOfLast(rules, k);
      }
      forall k ensures Lookup(rules, k) ==
        if k in KeysOf(rules[..n]) then Lookup(rules[..n], k) else if rules[n].0 == k then Some(rules[n].1) else None
      {
        LookupAppend(rules[..n], rules[n], k);
      }
    }
  }
}
