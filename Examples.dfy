/**
  Concrete instances of the builder's behaviour, one per documented case.
  Each descriptor is shown to be the composition of its parts, and the
  general round trip then reads the parts back.
 */
module Examples {
  import opened JsValues
  import opened Dom
  import opened Descriptor
  import opened Properties
  import opened Children
  import opened Create

  // ------------------------------------------------------------ descriptors

  lemma FooBarBazValid(classes: seq<string>)
    requires classes == ["bar", "baz"]
    ensures ValidParts("div", "foo", classes, [])
  {
  }

  lemma FooBarBazComposed(classes: seq<string>)
    requires classes == ["bar", "baz"]
    ensures Compose("div", "foo", classes, []) == "div#foo.bar.baz"
  {
    assert classes[1..][1..] == [];
    assert ClassList(classes[1..]) == ".baz";
  }

  /** `div#foo.bar.baz` is a `div` with id `foo` and class name `bar baz`. */
  lemma FullDescriptor(s: string)
    requires s == "div#foo.bar.baz"
    ensures TagName(s) == "div" && IdOf(s) == Some("foo") && ClassNameOf(s) == Some("bar baz")
  {
    var classes := ["bar", "baz"];
    FooBarBazValid(classes);
    FooBarBazComposed(classes);
    ParseCompose("div", "foo", classes, []);
    assert classes[1..] == ["baz"];
    assert JoinWith(classes, " ") == "bar baz";
  }

  lemma FooBarValid(classes: seq<string>)
    requires classes == ["foo", "bar"]
    ensures ValidParts("div", "", classes, [])
  {
  }

  lemma FooBarComposed(classes: seq<string>)
    requires classes == ["foo", "bar"]
    ensures Compose("div", "", classes, []) == "div.foo.bar"
  {
    assert classes[1..][1..] == [];
    assert ClassList(classes[1..]) == ".bar";
  }

  /** `div.foo.bar` has class name `foo bar` and no id. */
  lemma ClassesWithoutId(s: string)
    requires s == "div.foo.bar"
    ensures TagName(s) == "div" && IdOf(s) == None && ClassNameOf(s) == Some("foo bar")
  {
    var classes := ["foo", "bar"];
    FooBarValid(classes);
    FooBarComposed(classes);
    ParseCompose("div", "", classes, []);
    assert classes[1..] == ["bar"];
    assert JoinWith(classes, " ") == "foo bar";
  }

  lemma HashFooBarComposed(classes: seq<string>)
    requires classes == ["bar"]
    ensures ValidParts("", "foo", classes, [])
    ensures Compose("", "foo", classes, []) == "#foo.bar"
  {
    assert classes[1..] == [];
    assert ClassList(classes) == ".bar";
  }

  /** Without a leading tag the element is a `div`. */
  lemma DefaultTag(s: string)
    requires s == "#foo.bar"
    ensures TagName(s) == "div" && IdOf(s) == Some("foo") && ClassNameOf(s) == Some("bar")
  {
    var classes := ["bar"];
    HashFooBarComposed(classes);
    ParseCompose("", "foo", classes, []);
  }

  lemma HyphensValid(classes: seq<string>)
    requires classes == ["foo-bar", "bar-baz"]
    ensures ValidParts("", "", classes, [])
  {
  }

  lemma HyphensComposed(classes: seq<string>)
    requires classes == ["foo-bar", "bar-baz"]
    ensures Compose("", "", classes, []) == ".foo-bar.bar-baz"
  {
    assert classes[1..][1..] == [];
    assert ClassList(classes[1..]) == ".bar-baz";
  }

  lemma HyphensJoined(classes: seq<string>)
    requires classes == ["foo-bar", "bar-baz"]
    ensures JoinWith(classes, " ") == "foo-bar bar-baz"
  {
    assert classes[1..] == ["bar-baz"];
  }

  /** Hyphens belong to class names. */
  lemma HyphenatedClasses(s: string)
    requires s == ".foo-bar.bar-baz"
    ensures TagName(s) == "div" && ClassNameOf(s) == Some("foo-bar bar-baz")
  {
    var classes := ["foo-bar", "bar-baz"];
    HyphensValid(classes);
    HyphensComposed(classes);
    ParseCompose("", "", classes, []);
    HyphensJoined(classes);
  }

  /** Hyphens belong to the id. */
  lemma HyphenatedId(s: string)
    requires s == "#foo-bar"
    ensures IdOf(s) == Some("foo-bar") && ClassNameOf(s) == None
  {
    assert Compose("", "foo-bar", [], []) == s;
    ParseCompose("", "foo-bar", [], []);
  }

  lemma InputValid(pairs: seq<(string, string)>)
    requires pairs == [("type", "text"), ("name", "q")]
    ensures ValidParts("input", "", [], pairs)
  {
  }

  lemma InputComposed(pairs: seq<(string, string)>)
    requires pairs == [("type", "text"), ("name", "q")]
    ensures Compose("input", "", [], pairs) == "input[type=text][name=q]"
  {
    assert pairs[1..][1..] == [];
    assert BracketList(pairs[1..]) == "[name=q]";
    assert BracketList(pairs) == "[type=text]" + "[name=q]";
    assert ClassList([]) == "";
  }

  /** Brackets give their pairs in order. */
  lemma BracketPairsInOrder(s: string)
    requires s == "input[type=text][name=q]"
    ensures TagName(s) == "input" && BracketPairs(s) == [("type", "text"), ("name", "q")]
  {
    var pairs := [("type", "text"), ("name", "q")];
    InputValid(pairs);
    InputComposed(pairs);
    ParseCompose("input", "", [], pairs);
  }

  /** A flag without `=value` gives no pair. */
  lemma ValuelessBracketIgnored()
    ensures BracketPairs("input[disabled]") == []
  {
    NoEqualsNoPairs("input[disabled]");
  }

  /** A `.` inside a bracket value starts a class, as the class scan runs
      over the whole descriptor. */
  lemma DotInBracketValue(s: string)
    requires s == "a[href=page.html]"
    ensures ClassNameOf(s) == Some("html")
  {
    DotInBracketRuns(s);
    ClassNameOfSpec(s);
  }

  lemma DotInBracketRuns(s: string)
    requires s == "a[href=page.html]"
    ensures ClassRunsFrom(s, 0) == ["html"]
  {
    SkipNoDots(s, 0, 11);
    DotInBracketRun(s);
    assert ClassRunsFrom(s, 16) == [];
  }

  lemma DotInBracketRun(s: string)
    requires s == "a[href=page.html]"
    ensures ClassRunsFrom(s, 11) == ["html"] + ClassRunsFrom(s, 16)
  {
    assert SpellsAt(s, 12, "html");
    ClassRunAt(s, 11, "html");
  }

  /** The bracket scan reads a value holding `.` whole. */
  lemma DottedBracketValue(s: string)
    requires s == "a[href=page.html]"
    ensures BracketPairs(s) == [("href", "page.html")]
  {
    var pairs := [("href", "page.html")];
    assert pairs[1..] == [];
    assert Compose("a", "", [], pairs) == s;
    ComposeBrackets("a", "", [], pairs);
  }

  /** The bracket scan reads a value holding `#` whole. */
  lemma HashBracketValue(s: string)
    requires s == "a[href=#top]"
    ensures BracketPairs(s) == [("href", "#top")]
  {
    var pairs := [("href", "#top")];
    assert pairs[1..] == [];
    assert Compose("a", "", [], pairs) == s;
    ComposeBrackets("a", "", [], pairs);
  }

  // ------------------------------------------------------ merge and children

  /** An explicit property wins over its bracket; the first bracket wins over a later one;
      a name every object inherits is never added. */
  lemma MergePrecedence()
    ensures MergeDefaults([("title", Str("x"))], [("title", "y"), ("rows", "1"), ("rows", "2")])
         == [("title", Str("x")), ("rows", Str("1"))]
    ensures MergeDefaults([], [("toString", "x")]) == []
  {
  }

  /** `e('div', 'foo')` and `e('div', '')`: a string in the props position is the child. */
  lemma StringInPropsPosition()
    ensures ShuffleArguments(Str("foo"), Undef) == (Null, Str("foo"))
    ensures Appended(ChildList(ShuffleArguments(Str(""), Undef).1)) == [TextNode("")]
  {
    assert [Str("")][..0] == [];
  }

  /** Objects, `null`, booleans and `undefined` as the children argument append nothing. */
  lemma OtherChildValuesIgnored(b: Bag)
    ensures Appended(ChildList(Obj(b))) == [] && Appended(ChildList(Null)) == []
    ensures Appended(ChildList(Bool(true))) == [] && Appended(ChildList(Bool(false))) == []
    ensures Appended(ChildList(Undef)) == []
  {
    NothingFromOther(Obj(b));
    NothingFromOther(Null);
    NothingFromOther(Bool(true));
    NothingFromOther(Bool(false));
    NothingFromOther(Undef);
  }

  lemma NodesAndStrings(h1: NodeRef, em: NodeRef)
    ensures Appended([Node(h1), Str("foo"), Str(""), Node(em)])
         == [ExistingNode(h1), TextNode("foo"), TextNode(""), ExistingNode(em)]
  {
    var items := [Node(h1), Str("foo"), Str(""), Node(em)];
    var kids := [ExistingNode(h1), TextNode("foo"), TextNode(""), ExistingNode(em)];
    assert items[..1][..0] == [];
    assert Appended(items[..1]) == kids[..1];
    assert items[..2][..1] == items[..1];
    assert Appended(items[..2]) == kids[..2];
    assert items[..3][..2] == items[..2];
    assert Appended(items[..3]) == kids[..3];
  }

  lemma OthersSkipped(b: Bag)
    ensures Appended([Arr([]), Obj(b), Null, Bool(true), Bool(false), Undef]) == []
  {
    var items := [Arr([]), Obj(b), Null, Bool(true), Bool(false), Undef];
    assert items[..1][..0] == [];
    assert Appended(items[..1]) == [];
    assert items[..2][..1] == items[..1];
    assert Appended(items[..2]) == [];
    assert items[..3][..2] == items[..2];
    assert Appended(items[..3]) == [];
    assert items[..4][..3] == items[..3];
    assert Appended(items[..4]) == [];
    assert items[..5][..4] == items[..4];
    assert Appended(items[..5]) == [];
    assert items[..5] == items[..|items| - 1];
  }

  /** Of ten items, the two nodes and two strings become children, in order. */
  lemma MixedChildList(b: Bag, h1: NodeRef, em: NodeRef)
    ensures Appended([Node(h1), Str("foo"), Str(""), Node(em)] + [Arr([]), Obj(b), Null, Bool(true), Bool(false), Undef])
         == [ExistingNode(h1), TextNode("foo"), TextNode(""), ExistingNode(em)]
  {
    NodesAndStrings(h1, em);
    OthersSkipped(b);
    AppendedConcat([Node(h1), Str("foo"), Str(""), Node(em)], [Arr([]), Obj(b), Null, Bool(true), Bool(false), Undef]);
  }

  // ------------------------------------------------------------- properties

  lemma ClassSuffixBarBaz()
    ensures ClassSuffix([("class", Str("bar")), ("className", Str("baz"))]) == " bar baz"
  {
    var es := [("class", Str("bar")), ("className", Str("baz"))];
    assert es[..1] == [("class", Str("bar"))];
    assert es[..1][..0] == [];
  }

  /** `class` and `className` are appended to the class name already there. */
  lemma ClassesAccumulate(st: ElementState)
    ensures ApplyAll(st, [("class", Str("bar")), ("className", Str("baz"))]).className == st.className + " bar baz"
  {
    ApplyAllClassName(st, [("class", Str("bar")), ("className", Str("baz"))]);
    ClassSuffixBarBaz();
  }

  /** `onclick` on an HTML image becomes a direct property holding the very function. */
  lemma HandlerOnImage(identity: nat, source: string)
    ensures var st := ApplyAll(Blank(ElementNode(XhtmlNS, "img")), [("onclick", Fn(identity, source))]);
      st.properties == map["onclick" := Fn(identity, source)] && st.attributes == map[]
  {
    var st0 := Blank(ElementNode(XhtmlNS, "img"));
    var es := [("onclick", Fn(identity, source))];
    assert es[..0] == [];
    assert StartsWith("onclick", "on");
    ApplyEntryEffect(st0, es[0].0, es[0].1);
  }

  /** `onclick` is a property and `xlink:href` an attribute in the XLink namespace. */
  lemma HandlerAndXlink(u: string)
    ensures var st := ApplyAll(Blank(ElementNode(SvgNS, "image")), [("onclick", Fn(0, "function () {}")), ("xlink:href", Str(u))]);
      st.properties == map["onclick" := Fn(0, "function () {}")] &&
      st.attributes == map[AttrKey(Some(XlinkNS), "xlink:href") := u]
  {
    var st0 := Blank(ElementNode(SvgNS, "image"));
    var es := [("onclick", Fn(0, "function () {}")), ("xlink:href", Str(u))];
    assert es[..1] == [es[0]];
    assert es[..1][..0] == [];
    assert StartsWith("onclick", "on");
    assert "xlink:href"[0] == 'x';
    assert !StartsWith("xlink:href", "on");
    assert StartsWith("xlink:href", "xlink");
    assert IsAttributeEntry(es[1].0, es[1].1);
    var st1 := ApplyAll(st0, es[..1]);
    assert ApplyAll(st0, es[..1][..0]) == st0;
    assert st1 == ApplyEntry(ApplyAll(st0, es[..1][..0]), es[..1][0].0, es[..1][0].1);
    ApplyEntryEffect(st0, es[0].0, es[0].1);
    assert st1.properties == map["onclick" := Fn(0, "function () {}")];
    assert st1.attributes == map[];
    assert ApplyAll(st0, es) == ApplyEntry(st1, es[1].0, es[1].1);
    ApplyEntryEffect(st1, es[1].0, es[1].1);
    assert AttributeNamespace("xlink:href") == Some(XlinkNS);
  }
}
