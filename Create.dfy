/**
  `createElementNS`: argument disambiguation, fragments, the descriptor,
  bracket-attribute defaults merged into the property bag, property
  application and children; and the namespace-bound factories around it.
 */
module Create {
  import opened JsValues
  import opened Dom
  import opened Descriptor
  import opened Properties
  import opened Children

  // ----------------------------------------------------------- arguments

  /** Lines 33-36: a `props` argument that is a node, an array or not of type
      "object" is really the children, and there are no properties. Only
      `null` and plain objects stay in the `props` position. */
  function ShuffleArguments(props: Value, children: Value): (r: (Value, Value))
    ensures r == if props.Obj? || props.Null? then (props, children) else (Null, props)
  {
    if (Truthy(props) && IsNodeLike(props)) || props.Arr? || TypeOf(props) != "object" then (Null, props)
    else (props, children)
  }

  // ------------------------------------------------------ bracket defaults

  /** One step of line 50: add `name = value` unless `name in props`. */
  function MergeDefault(es: seq<Entry>, pair: (string, string)): seq<Entry> {
    if HasProperty(es, pair.0) then es else es + [(pair.0, Str(pair.1))]
  }

  /** The bag after the exec loop has visited `pairs` in order. */
  function MergeDefaults(es: seq<Entry>, pairs: seq<(string, string)>): seq<Entry>
    decreases |pairs|
  {
    if pairs == [] then es else MergeDefaults(MergeDefault(es, pairs[0]), pairs[1..])
  }

  /** Lines 49-50: run the global regular expression over the descriptor and
      add each bracket attribute the bag does not already answer `in` for. */
  method MergeBracketAttributes(name: string, props: Bag)
    modifies props
    ensures props.entries == MergeDefaults(old(props.entries), BracketPairs(name))
  {
    var lastIndex := 0;
    var temp := NextBracket(name, lastIndex);
    while temp.Some?
      invariant lastIndex <= |name|
      invariant temp == NextBracket(name, lastIndex)
      invariant MergeDefaults(props.entries, BracketPairsFrom(name, lastIndex)) ==
                MergeDefaults(old(props.entries), BracketPairs(name))
      decreases |name| - lastIndex
    {
      var m := temp.value;
      var rest := BracketPairsFrom(name, m.end);
      assert BracketPairsFrom(name, lastIndex) == [(m.name, m.value)] + rest;
      assert ([(m.name, m.value)] + rest)[1..] == rest;
      if !HasProperty(props.entries, m.name) {
        props.entries := props.entries + [(m.name, Str(m.value))];
      }
      lastIndex := m.end;
      temp := NextBracket(name, lastIndex);
    }
  }

  /** The names of the pairs. */
  function NamesOf(pairs: seq<(string, string)>): set<string> {
    if pairs == [] then {} else {pairs[0].0} + NamesOf(pairs[1..])
  }

  /** The value of the first pair named `k`. */
  function FirstValue(pairs: seq<(string, string)>, k: string): string
    requires k in NamesOf(pairs)
  {
    if pairs[0].0 == k then pairs[0].1 else FirstValue(pairs[1..], k)
  }

  lemma KeysOfAppend(es: seq<Entry>, e: Entry)
    ensures KeysOf(es + [e]) == KeysOf(es) + {e.0}
  {
    assert (es + [e])[..|es|] == es;
  }

  /** What the bag answers for a key after the merge: an explicit property
      wins, otherwise the first bracket pair with that name gives a string
      value, except for names every object already has through its
      prototype, which are never added. */
  lemma {:induction false} MergeLookup(es: seq<Entry>, pairs: seq<(string, string)>, k: string)
    ensures Lookup(MergeDefaults(es, pairs), k) ==
      if k in KeysOf(es) then Lookup(es, k)
      else if k !in ObjectPrototypeKeys && k in NamesOf(pairs) then Some(Str(FirstValue(pairs, k)))
      else None
    decreases |pairs|
  {
    if pairs != [] {
      var p := pairs[0];
      var es' := MergeDefault(es, p);
      MergeLookup(es', pairs[1..], k);
      if !HasProperty(es, p.0) {
        LookupAppend(es, (p.0, Str(p.1)), k);
        KeysOfAppend(es, (p.0, Str(p.1)));
      }
    }
  }

  /** Explicit properties are never changed or reordered: the merge only appends,
      and every appended entry is a string-valued pair from the descriptor. */
  lemma {:induction false} MergeAppends(es: seq<Entry>, pairs: seq<(string, string)>)
    ensures es <= MergeDefaults(es, pairs)
    ensures forall i :: |es| <= i < |MergeDefaults(es, pairs)| ==>
      MergeDefaults(es, pairs)[i].1.Str? &&
      (MergeDefaults(es, pairs)[i].0, MergeDefaults(es, pairs)[i].1.s) in pairs
    decreases |pairs|
  {
    if pairs != [] {
      var es' := MergeDefault(es, pairs[0]);
      MergeAppends(es', pairs[1..]);
      var r := MergeDefaults(es, pairs);
      forall i | |es| <= i < |r| ensures r[i].1.Str? && (r[i].0, r[i].1.s) in pairs {
        if i >= |es'| {
          assert (r[i].0, r[i].1.s) in pairs[1..];
        } else {
          assert es' == es + [(pairs[0].0, Str(pairs[0].1))];
          assert r[i] == es'[i];
        }
      }
    }
  }

  lemma DistinctAppend(es: seq<Entry>, e: Entry)
    requires DistinctKeys(es) && e.0 !in KeysOf(es)
    ensures DistinctKeys(es + [e])
  {
  }

  /** The merge keeps property names unique. */
  lemma {:induction false} MergeDistinct(es: seq<Entry>, pairs: seq<(string, string)>)
    requires DistinctKeys(es)
    ensures DistinctKeys(MergeDefaults(es, pairs))
    decreases |pairs|
  {
    if pairs != [] {
      if !HasProperty(es, pairs[0].0) {
        DistinctAppend(es, (pairs[0].0, Str(pairs[0].1)));
      }
      MergeDistinct(MergeDefault(es, pairs[0]), pairs[1..]);
    }
  }

  // --------------------------------------------------------------- building

  /** The outcome of a call: the node built, or the `TypeError` that
      `name.match` throws when `name` is neither an array nor a string. */
  datatype Outcome = Built(node: Element) | TypeError

  /** Lines 43-46: a new element whose tag, id and class name come from the
      descriptor. */
  function Described(namespaceURI: string, s: string): ElementState {
    Blank(ElementNode(namespaceURI, TagName(s))).(id := IdOf(s).GetOr(""), className := ClassNameOf(s).GetOr(""))
  }

  /** The element built from descriptor `s`, the property bag's final
      entries `es`, and the (shuffled) children argument. */
  function BuiltElement(namespaceURI: string, s: string, es: seq<Entry>, children: Value): ElementState
    reads set i | 0 <= i < |es| && es[i].1.Obj? :: es[i].1.bag
  {
    ApplyAll(Described(namespaceURI, s), es).(childNodes := Appended(ChildList(children)))
  }

  /** The property entries a string descriptor ends up applying. */
  function EffectiveEntries(s: string, props: Value): seq<Entry>
    reads ObjFrame(props)
  {
    if props.Obj? then props.bag.entries else MergeDefaults([], BracketPairs(s))
  }

  /** Lines 43-46: create the element and set what the descriptor names. */
  method NewDescribed(namespaceURI: string, s: string) returns (element: Element)
    ensures fresh(element)
    ensures element.State() == Described(namespaceURI, s)
  {
    element := new Element(ElementNode(namespaceURI, TagName(s)));
    match IdOf(s) {
      case Some(id) => element.id := id;
      case None =>
    }
    match ClassNameOf(s) {
      case Some(c) => element.className := c;
      case None =>
    }
  }

  /** Lines 47-51: with a `[` in the descriptor, `props` becomes a bag (a new
      one in place of `null`) and takes the bracket defaults. The result is
      the bag `applyProperties` then receives, or `null` for none. */
  method PropsWithDefaults(s: string, props: Value) returns (bag: Bag?)
    requires props.Null? || props.Obj?
    modifies ObjFrame(props)
    ensures props.Obj? ==> bag == props.bag && bag.entries == MergeDefaults(old(props.bag.entries), BracketPairs(s))
    ensures props.Null? ==> (bag == null <==> '[' !in s)
    ensures props.Null? && bag != null ==> fresh(bag) && bag.entries == MergeDefaults([], BracketPairs(s))
    ensures bag != null ==> bag.entries == EffectiveEntries(s, props)
    ensures bag == null ==> EffectiveEntries(s, props) == []
  {
    bag := if props.Obj? then props.bag else null;
    if '[' in s {
      if bag == null {
        bag := new Bag();
      }
      MergeBracketAttributes(s, bag);
    } else {
      NoOpenBracketNoPairs(s);
    }
  }

  /** Lines 43-61 for a string descriptor: build, merge defaults, apply the
      properties, append the children. */
  method BuildElement(namespaceURI: string, s: string, props: Value, children: Value) returns (element: Element)
    requires props.Null? || props.Obj?
    requires props.Obj? ==> props.bag.Valid()
    modifies ObjFrame(props)
    ensures fresh(element)
    ensures props.Obj? ==> props.bag.entries == MergeDefaults(old(props.bag.entries), BracketPairs(s))
    ensures props.Obj? ==> props.bag.Valid()
    ensures DistinctKeys(EffectiveEntries(s, props))
    ensures element.State() == BuiltElement(namespaceURI, s, EffectiveEntries(s, props), children)
  {
    element := NewDescribed(namespaceURI, s);
    var bag := PropsWithDefaults(s, props);
    if props.Obj? {
      MergeDistinct(old(props.bag.entries), BracketPairs(s));
    } else {
      MergeDistinct([], BracketPairs(s));
    }
    Populate(element, bag, children);
  }

  /** Lines 52-61: apply the bag's properties (when there is a bag), then
      append the children. */
  method Populate(element: Element, bag: Bag?, children: Value)
    requires element.childNodes == []
    modifies element
    ensures element.State() ==
      ApplyAll(old(element.State()), if bag == null then [] else bag.entries).(childNodes := Appended(ChildList(children)))
  {
    ghost var es := if bag == null then [] else bag.entries;
    ghost var d := element.State();
    if bag != null {
      ApplyProperties(element, bag);
    }
    ApplyAllKeepsShape(d, es);
    ghost var mid := element.State();
    assert mid == ApplyAll(d, es);
    assert forall k :: 0 <= k < |es| && es[k].1.Obj? ==> es[k].1.bag as object != element;
    AppendChildren(element, children);
    assert element.State() == mid.(childNodes := Appended(ChildList(children)));
  }

  /** The attributes of a built element: every entry rule 4 handles gives
      the attribute `String(value)` in its key's namespace, and every
      attribute comes from such an entry. */
  lemma BuiltElementAttributes(namespaceURI: string, s: string, es: seq<Entry>, children: Value)
    requires DistinctKeys(es)
    ensures var st := BuiltElement(namespaceURI, s, es, children);
      && (forall i :: 0 <= i < |es| && IsAttributeEntry(es[i].0, es[i].1) ==>
            AttrKey(AttributeNamespace(es[i].0), es[i].0) in st.attributes &&
            st.attributes[AttrKey(AttributeNamespace(es[i].0), es[i].0)] == Text(es[i].1))
      && (forall a :: a in st.attributes ==>
            exists i :: 0 <= i < |es| && es[i].0 == a.name && IsAttributeEntry(es[i].0, es[i].1)
                        && a.namespace == AttributeNamespace(a.name))
  {
    var d := Described(namespaceURI, s);
    AttributeValues(d, es);
    NewAttributesFromEntries(d, es);
  }

  /** What a built element holds, part by part: the descriptor's tag in the
      given namespace, its id, its classes followed by every `class` and
      `className` value, the style rules, the `on*` handlers, the attributes
      (as `BuiltElementAttributes` states them), and the normalised children. */
  lemma BuiltElementParts(namespaceURI: string, s: string, es: seq<Entry>, children: Value)
    requires DistinctKeys(es)
    ensures var st := BuiltElement(namespaceURI, s, es, children);
      && st.kind == ElementNode(namespaceURI, TagName(s))
      && st.id == IdOf(s).GetOr("")
      && st.className == ClassNameOf(s).GetOr("") + ClassSuffix(es)
      && st.style == AssignRules(map[], StyleSource(es))
      && (forall i :: 0 <= i < |es| && StartsWith(es[i].0, "on") ==>
            es[i].0 in st.properties && st.properties[es[i].0] == es[i].1)
      && (forall k :: k in st.properties <==> StartsWith(k, "on") && k in KeysOf(es))
      && st.childNodes == Appended(ChildList(children))
  {
    var d := Described(namespaceURI, s);
    ApplyAllKeepsShape(d, es);
    ApplyAllClassName(d, es);
    ApplyAllStyle(d, es);
    ApplyAllProperties(d, es);
  }


  /** `createElementNS(namespaceURI, name, props, children)` */
  method CreateElementNS(namespaceURI: string, name: Value, props: Value, children: Value) returns (r: Outcome)
    requires props.Obj? ==> props.bag.Valid()
    modifies ObjFrame(props)
    ensures r.TypeError? <==> !(name.Str? || name.Arr?)
    ensures r.Built? ==> fresh(r.node)
    ensures name.Arr? ==> r.Built? && r.node.State() == Blank(FragmentNode).(childNodes := Appended(name.items))
    ensures props.Obj? ==> props.bag.Valid()
    ensures !name.Str? && props.Obj? ==> props.bag.entries == old(props.bag.entries)
    ensures name.Str? && props.Obj? ==> props.bag.entries == MergeDefaults(old(props.bag.entries), BracketPairs(name.s))
    ensures name.Str? ==> DistinctKeys(EffectiveEntries(name.s, props))
    ensures name.Str? ==>
      r.Built? &&
      r.node.State() == BuiltElement(namespaceURI, name.s, EffectiveEntries(name.s, props), ShuffleArguments(props, children).1)
  {
    var (p, kids) := ShuffleArguments(props, children);
    if name.Arr? {
      var fragment := new Element(FragmentNode);
      AppendChildren(fragment, name);
      return Built(fragment);
    } else if name.Str? {
      var element := BuildElement(namespaceURI, name.s, p, kids);
      return Built(element);
    } else {
      return TypeError;
    }
  }

  // -------------------------------------------------------------- factories

  /** The function `createNS(namespaceURI)` returns (lines 17-21). */
  datatype Factory = Factory(namespaceURI: string)

  /** `module.exports`: elements in the XHTML namespace. */
  const Html: Factory := Factory(XhtmlNS)

  /** `exports.svg`: elements in the SVG namespace. */
  const Svg: Factory := Factory(SvgNS)

  /** Calling a factory: `createElementNS` with the factory's namespace. */
  method Call(f: Factory, name: Value, props: Value, children: Value) returns (r: Outcome)
    requires props.Obj? ==> props.bag.Valid()
    modifies ObjFrame(props)
    ensures r.TypeError? <==> !(name.Str? || name.Arr?)
    ensures r.Built? ==> fresh(r.node)
    ensures name.Arr? ==> r.Built? && r.node.State() == Blank(FragmentNode).(childNodes := Appended(name.items))
    ensures props.Obj? ==> props.bag.Valid()
    ensures !name.Str? && props.Obj? ==> props.bag.entries == old(props.bag.entries)
    ensures name.Str? && props.Obj? ==> props.bag.entries == MergeDefaults(old(props.bag.entries), BracketPairs(name.s))
    ensures name.Str? ==> DistinctKeys(EffectiveEntries(name.s, props))
    ensures name.Str? ==>
      r.Built? &&
      r.node.State() == BuiltElement(f.namespaceURI, name.s, EffectiveEntries(name.s, props), ShuffleArguments(props, children).1)
  {
    r := CreateElementNS(f.namespaceURI, name, props, children);
  }
}
