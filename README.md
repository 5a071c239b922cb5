# A verified model of the `e` element builder

`e` is a small helper that builds DOM elements from a selector-like
descriptor: `e('input#q.search[type=text]', props, children)`. `index.js`
does four things:

- it reads the tag, the first `#id`, every `.class` and every
  `[name=value]` bracket out of the descriptor;
- it merges the bracket pairs into the property bag as defaults;
- it applies the bag to the new element with four rules: `on*` handlers,
  `style` objects, `class`/`className` accumulation, and attributes,
  namespaced under XLink for `xlink*` keys;
- it appends the children.

An array in place of the descriptor builds a document fragment instead.

The model works on an abstract DOM. An element is a class whose fields are:

- its kind (namespace and tag, or fragment);
- its id and class name;
- its attributes, keyed by namespace and name;
- its direct properties;
- a style map;
- its ordered children.

JavaScript values form a datatype. A plain object is a reference to a mutable
`Bag`: the builder writes the bracket defaults into the caller's own
object, and that write is modelled.

| file | models |
|---|---|
| `JsValues.dfy` | JavaScript values: `typeof`, truthiness, `String(v)`, the `in` operator (own keys and `Object.prototype` names), property bags |
| `Dom.dfy` | the element record, `appendChild`, the namespace constants |
| `Descriptor.dfy` | the four regular expressions of lines 43-50, as hand-written scanners, and the round trip that composes a descriptor from parts and reads it back |
| `Properties.dfy` | `applyProperties` (lines 72-84): the loop as a method, the same pass as a fold, and what it does to each part of the element |
| `Children.dfy` | child normalisation (lines 55-61): the loop as a method, and a specification by recognised positions |
| `Create.dfy` | `createElementNS` (lines 32-64): argument shuffling, fragments, the bracket-default merge loop, and the `createNS` factories (lines 17-21) |
| `Examples.dfy` | the documented cases, proved from the general lemmas |

The imperative parts are methods, with loop invariants, on `Element` and
`Bag` objects:

- the bracket `exec` loop;
- the `for...in` loop of `applyProperties` and the style-rule loop;
- the children loop.

Each method is proved against a specification function, and the lemmas state
the properties of that function. The tag, id and class extraction on lines
43-46 is expression-level, so it is modelled as functions.

## Model

| member | source | states |
|---|---|---|
| JsValues.TypeOf | index.js:33 | `typeof` is "string" exactly for strings, and "object" exactly for null, nodes, arrays and plain objects |
| JsValues.IsNodeLike | index.js:33 | the test `v && v.nodeType > 0`, here and on line 59: true exactly for the values that stand for DOM nodes; `Children.ChildForSpec` and `Create.ShuffleArguments` state its effect |
| JsValues.KeysOf | index.js:50 | the key set of a bag holds every entry's key and nothing else |
| JsValues.Lookup | index.js:50 | a key is found in a bag exactly when some entry has that key |
| JsValues.LookupAppend | index.js:50 | after appending an entry, a key already present keeps its value; otherwise only the new entry's key is found, with the new value |
| JsValues.LookupIsEntry | index.js:78 | a value found for a key is the value of an entry with that key |
| JsValues.LookupDistinct | index.js:73 | when keys are unique, looking up any entry's key yields that entry's value |
| JsValues.Bag.constructor | index.js:48 | the `{}` of `props || {}`: a new bag with no entries |
| JsValues.Truthy | index.js:33 | JavaScript truthiness: false exactly for `""`, `0`, `false`, `null` and `undefined` (used on lines 33, 55 and 59) |
| JsValues.HasProperty | index.js:50 | the `in` operator on a plain object: an own key, or a name inherited from `Object.prototype` |
| JsValues.Text | index.js:81 | `String(v)` as lines 81 and 83 produce it; an array joins its items' texts with `,`, with `null` and `undefined` items giving nothing |
| JsValues.NatText | index.js:78 | an array index is enumerated as non-empty decimal text, with a leading zero only for 0, that reads back as the index itself |
| JsValues.NatTextInjective | index.js:78 | different indices give different keys |
| Dom.Element.constructor | index.js:44 | a new element has the given kind, empty id and class name, no attributes, properties or style, and no children |
| Dom.Element.AppendChild | index.js:58-59 | the child goes at the end of the child list; nothing else about the element changes |
| Descriptor.WordRun | index.js:43 | the greedy run of `[\w\-]`: it is a prefix of the input, made of word characters, and the next character (if any) is not a word character |
| Descriptor.WordRunUnique | index.js:43 | any word-character prefix not followed by a word character is the greedy run |
| Descriptor.TagName | index.js:43-44 | the tag is the leading word run when the descriptor starts with a word character, and `div` otherwise; it is never empty |
| Descriptor.IdFrom | index.js:45 | the scan for `/#([\w\-]+)/` from position `i`; `Descriptor.IdFromSpec` proves it finds the first `#` followed by a word character, and the word run after it |
| Descriptor.IdOf | index.js:45 | the id is the group of the first match of `/#([\w\-]+)/`, if any |
| Descriptor.IdFromSpec | index.js:45 | scanning from `i` finds an id exactly when a `#` followed by a word character occurs at or after `i`; the id is the run after the first such `#` |
| Descriptor.IdOfSpec | index.js:45 | the id is the non-empty word run after the first `#` that is followed by a word character; there is none when no such `#` exists |
| Descriptor.NoHashNoId | index.js:45 | a descriptor without `#` has no id |
| Descriptor.ClassMatchesFrom | index.js:46 | the global scan `/\.[\w\-]+/g` resuming after each match; `Descriptor.ClassMatchesAreDottedRuns` proves it yields every dot-run, in order |
| Descriptor.RemoveDots | index.js:46 | `.replace(/\./g, '')`: no dot is left |
| Descriptor.RemoveDotsKeeps | index.js:46 | every character other than a dot is in the result exactly when it is in the input |
| Descriptor.ClassNameOf | index.js:46 | the class name is the matches of `/\.[\w\-]+/g` joined by spaces with every dot removed, and unset when there is no match |
| Descriptor.ClassMatchesAreDottedRuns | index.js:46 | the global scan `/\.[\w\-]+/g` yields `.run` for every dot followed by a word character, in order; resuming after each match skips none, because a dot never lies inside a run |
| Descriptor.RemoveDotsAppend | index.js:46 | removing dots distributes over concatenation |
| Descriptor.StripJoinedDots | index.js:46 | joining dotted word runs with spaces and then removing every dot gives the runs joined by single spaces |
| Descriptor.ClassRunsAreWords | index.js:46 | every class found is a non-empty word run |
| Descriptor.ClassNameOfSpec | index.js:46 | the class name is every dot-run of the descriptor, in order and without dots, joined by single spaces; it is unset when there is none |
| Descriptor.WordEndSpec | index.js:49 | the name group of the bracket pattern covers only word characters, and no word character follows it |
| Descriptor.WordEndAt | index.js:49 | any word-character stretch followed by a non-word character (or the end) is where the name group ends |
| Descriptor.WordEndIsWordRun | index.js:49 | the bracket name group and the tag/id/class run agree |
| Descriptor.ValueEndSpec | index.js:49 | the value group covers only characters other than `[` and `]`, and stops at a bracket or the end |
| Descriptor.ValueEndAt | index.js:49 | any bracket-free stretch followed by a bracket (or the end) is where the value group ends |
| Descriptor.BracketAt | index.js:49 | a match at `p` ends after `p` and within the descriptor |
| Descriptor.BracketAtSound | index.js:49 | a match at `p` covers exactly the text `[name=value]`, with a non-empty word-character name and a non-empty bracket-free value |
| Descriptor.BracketAtComplete | index.js:49 | conversely, every well-formed `[name=value]` at `p` is matched there, with those groups |
| Descriptor.NextBracket | index.js:50 | each `exec` that finds a match advances `lastIndex` strictly and stays within the descriptor, so the loop ends |
| Descriptor.NextBracketFound | index.js:50 | what `exec` finds from `lastIndex` is the leftmost match at or after `lastIndex`: no position between them holds a match |
| Descriptor.NextBracketComplete | index.js:50 | a match at or after `lastIndex` is never missed: `exec` then finds one |
| Descriptor.BracketPairsFrom | index.js:50 | the `while (re.exec(name))` loop from `lastIndex == from`: each match's groups, then the loop resumed after that match; `Descriptor.BracketPairsAreRuns` proves it visits every match |
| Descriptor.BracketPairs | index.js:49-50 | the `(name, value)` groups the `exec` loop collects from the start; `Descriptor.BracketPairsAreRuns` and `Descriptor.EveryBracketVisited` prove they are the matches at every position, in order, none skipped |
| Descriptor.BracketRunsFrom | index.js:49-50 | reference reading of the global scan, independent of `lastIndex`: every position from `i` that starts a match contributes its groups, in order |
| Descriptor.RunsSkipNoOpen | index.js:49 | positions without `[` start no match and contribute nothing |
| Descriptor.NoOpenInsideMatch | index.js:49 | no `[` lies strictly inside a match, so no match starts inside another |
| Descriptor.BracketPairsAreRuns | index.js:50 | the `exec` loop, which resumes after each match, collects exactly the groups of the matches at every position, in order: skipping past a match never loses one |
| Descriptor.RunsContainLater | index.js:49 | the reference reading from `i` holds every pair of the reading from any later position |
| Descriptor.EveryBracketVisited | index.js:50 | every `[name=value]` match anywhere in the descriptor reaches the bracket pairs |
| Descriptor.BracketPairsWellFormed | index.js:49-50 | every pair the loop visits is well formed, and its `[name=value]` text occurs in the descriptor |
| Descriptor.NoOpenBracketNoPairs | index.js:47-50 | a descriptor without `[` yields no bracket pairs |
| Descriptor.NoEqualsNoPairs | index.js:49-50 | a descriptor without `=` yields no bracket pairs, so a valueless `[flag]` is ignored |
| Descriptor.ComposeTag | index.js:43-44 | the descriptor composed from valid parts reads back its tag, or `div` when the tag is empty |
| Descriptor.ComposeId | index.js:45 | the composed descriptor reads back its id, or no id when the id part is empty |
| Descriptor.ComposeClassName | index.js:46 | the composed descriptor reads back its classes joined by spaces, or no class name when there are none |
| Descriptor.ComposeBrackets | index.js:49-50 | the composed descriptor reads back its bracket pairs, in order, for any well-formed pairs, including values holding `.` or `#` |
| Descriptor.ParseCompose | index.js:43-50 | a descriptor composed from valid parts reads back as those parts: tag, id, class name and bracket pairs |
| Properties.StartsWith | index.js:75 | the test `!attr.indexOf(prefix)`: the key begins with the prefix; it is used on line 75 with `on` and on line 83 with `xlink`, and `Properties.AttributeNamespaceSpec` and `Properties.HandlerKeys` state its effect |
| Properties.RuleFor | index.js:75-83 | the if/else-if chain: `on*` first, then an object-typed `style`, then `class`/`className`, and an attribute otherwise |
| Properties.AttributeNamespace | index.js:83 | the namespace `setAttributeNS` receives: XLink for keys starting with `xlink`, none otherwise |
| Properties.Enumerable | index.js:78 | what `for (var rule in v)` visits: a plain object's own properties, or an array's indices with its items |
| Properties.ApplyEntry | index.js:75-83 | one loop pass on the element's state, by the rule `RuleFor` chooses |
| Properties.ApplyAll | index.js:73-84 | the element's state after the loop has visited the entries in bag order |
| Properties.ApplyOne | index.js:75-83 | one loop pass changes the element exactly as the first applicable rule of four says |
| Properties.AssignStyle | index.js:78 | the style map becomes the old map with every rule assigned in order; nothing else changes |
| Properties.AssignRules | index.js:78 | the style map after `element.style[rule] = …` for each rule in order; `Properties.AssignRulesSpec` proves each named rule holds its value and the other old rules are kept |
| Properties.ApplyProperties | index.js:72-84 | the element ends as the fold of the four rules over the bag's entries, in bag order |
| Properties.ApplyEntryEffect | index.js:75-83 | for each part of the element, what one entry does to it: a handler is set only for `on*` keys, style only for an object-typed `style`, the class only for `class`/`className`, and an attribute for every other key |
| Properties.ApplyAllKeepsShape | index.js:72-84 | applying properties never changes the kind, the id or the children |
| Properties.HandlerValues | index.js:75 | with unique keys, every `on*` entry is a direct property holding that very value |
| Properties.HandlerKeys | index.js:75 | the direct properties afterwards are the old ones plus the `on*` keys of the bag, and no others |
| Properties.OtherPropertiesKept | index.js:75 | a direct property not named by an `on*` key of the bag keeps its value |
| Properties.ApplyAllProperties | index.js:75 | the three statements above, together |
| Properties.AttributeValues | index.js:83 | with unique keys, every entry no earlier rule takes becomes the attribute `String(value)`, in the namespace its key selects |
| Properties.NewAttributesFromEntries | index.js:75-83 | every new attribute comes from an entry that the attribute rule handles, in the namespace its key selects; `on*`, `class`, `className` and object-typed `style` keys never become attributes |
| Properties.OldAttributesKept | index.js:83 | old attributes stay, and keep their values unless a bag key names them |
| Properties.ApplyAllAttributes | index.js:75-83 | the three statements above, together |
| Properties.AttributeNamespaceSpec | index.js:83 | the XLink namespace is used exactly for keys starting with `xlink`; every other key gets no namespace |
| Properties.ApplyAllClassName | index.js:80-81 | the class name becomes the old one followed by `' ' + String(value)` for every `class` and `className` entry, in bag order; it is never replaced |
| Properties.ApplyAllStyle | index.js:77-78 | with unique keys, the style map is the old one with the rules of the object-typed `style` entry assigned in order; it is unchanged when there is none |
| Properties.AssignRulesSpec | index.js:78 | after assigning rules with unique names, each named rule holds its value, no other key appears, and the other old rules are kept |
| Properties.ArrayRulesDistinct | index.js:78 | an array used as a style value gives rules with distinct names, so `AssignRulesSpec` applies to it |
| Children.ChildList | index.js:55-56 | the items the loop visits: none unless the argument is truthy or a string; the array itself, or the single value wrapped |
| Children.ChildFor | index.js:58-59 | the child one item appends: a text node for a string, the node itself for a node, nothing otherwise |
| Children.Appended | index.js:57-60 | the children the loop appends for a list, in order |
| Children.AppendItem | index.js:58-59 | a string appends one text node, including the empty string; a node appends itself; any other item appends nothing |
| Children.AppendChildren | index.js:55-61 | the element's children become the old children followed by the children the normalised list yields, in order; nothing else changes |
| Children.ChildForSpec | index.js:58-59 | an item yields a child exactly when it is a string or a node |
| Children.IndicesValid | index.js:57-60 | the recognised positions are in range, hold strings or nodes, and strictly increase |
| Children.IndicesComplete | index.js:57-60 | every string or node position is a recognised position |
| Children.AppendedLength | index.js:57-60 | exactly one child is appended per recognised item |
| Children.AppendedAtIndices | index.js:57-60 | the j-th appended child comes from the j-th recognised position |
| Children.AppendedSpec | index.js:55-60 | the appended children are exactly the strings (as text nodes) and nodes of the list, in their original relative order; everything else is skipped |
| Children.AppendedConcat | index.js:57-60 | normalising the concatenation of two lists appends the first list's children, then the second's |
| Children.NothingFromOther | index.js:55-60 | a single value that is not an array, a string or a node appends nothing |
| Children.SingleChild | index.js:55-56 | a single non-array child is wrapped: it yields one text node if it is a string (the empty string included), itself if it is a node, and nothing otherwise; an array yields its items' children |
| Create.ShuffleArguments | index.js:33-36 | only `null` and plain objects stay in the props position; a node, an array or any non-object becomes the children, and props becomes `null` |
| Create.MergeBracketAttributes | index.js:49-50 | the `exec` loop leaves the bag as the merge of the descriptor's bracket pairs, taken in order |
| Create.MergeDefault | index.js:50 | one loop pass: the pair is added as a string value unless the bag already answers `in` for its name; `Create.MergeLookup` and `Create.MergeAppends` state the effect of the whole loop |
| Create.MergeDefaults | index.js:50 | the bag after the loop: each pair, in order, is added as a string value unless the bag already answers `in` for its name |
| Create.MergeLookup | index.js:50 | after the merge, an explicit property keeps its value; otherwise the first bracket pair with that name gives a string value; names every object inherits are never added |
| Create.MergeAppends | index.js:50 | the merge keeps the bag's existing entries unchanged and in order, and every entry it adds is a string-valued bracket pair |
| Create.MergeDistinct | index.js:50 | the merge keeps the bag's keys unique |
| Create.Described | index.js:43-46 | the new element: the tag in the namespace, and the id and class name the descriptor gives |
| Create.EffectiveEntries | index.js:47-52 | the entries `applyProperties` visits: the caller's bag after the merge, or a new bag holding only the bracket defaults |
| Create.NewDescribed | index.js:43-46 | the new element has the descriptor's tag in the given namespace, and its id and class name when the descriptor has them |
| Create.PropsWithDefaults | index.js:47-51 | a given bag gets the bracket defaults; with no bag, a new one is created exactly when the descriptor holds `[`; the bag returned is what `applyProperties` receives |
| Create.BuiltElement | index.js:43-61 | the element a string descriptor builds: the described element, the entries applied in order, then the children appended; `Create.BuiltElementParts` and `Create.BuiltElementAttributes` prove what it holds |
| Create.Populate | index.js:52-61 | the properties are applied, then the children are appended |
| Create.BuildElement | index.js:43-61 | a string descriptor builds the described element, with the effective bag applied and the children appended; the effective bag's keys are unique |
| Create.BuiltElementParts | index.js:43-61 | what a built element holds, part by part: the tag in the namespace, the id, the classes followed by the class values, the `on*` handlers and no other properties, the style, and the children |
| Create.BuiltElementAttributes | index.js:52 | the attributes of a built element: one `String(value)` per attribute-rule entry, in its key's namespace, and no other |
| Create.CreateElementNS | index.js:32-64 | an array name builds a fragment holding the array's children, without parsing or properties; a string name builds the element, from a bag whose keys are unique, so `BuiltElementParts` and `BuiltElementAttributes` describe it; any other name throws `TypeError`; only a string descriptor updates the caller's bag |
| Create.Call | index.js:17-21 | a factory builds exactly what `createElementNS` builds with the factory's namespace |
| Examples.FullDescriptor | test/index.js:43-46 | `div#foo.bar.baz` has tag `div`, id `foo` and class name `bar baz` |
| Examples.ClassesWithoutId | test/index.js:29-31 | `div.foo.bar` has tag `div`, no id and class name `foo bar` |
| Examples.DefaultTag | test/index.js:50 | `#foo.bar` has tag `div`, id `foo` and class name `bar` |
| Examples.HyphenatedClasses | test/index.js:54 | `.foo-bar.bar-baz` has class name `foo-bar bar-baz` |
| Examples.HyphenatedId | test/index.js:55 | `#foo-bar` has id `foo-bar` and no class name |
| Examples.BracketPairsInOrder | index.js:49-50 | `input[type=text][name=q]` has tag `input` and yields the pairs `type=text`, then `name=q` |
| Examples.ValuelessBracketIgnored | index.js:49 | `input[disabled]` yields no bracket pair |
| Examples.DotInBracketValue | index.js:46 | in `a[href=page.html]`, the dot inside the bracket value starts the class `html` |
| Examples.DottedBracketValue | index.js:49-50 | `a[href=page.html]` yields the pair `href=page.html` |
| Examples.HashBracketValue | index.js:49-50 | `a[href=#top]` yields the pair `href=#top` |
| Examples.MergePrecedence | index.js:50 | an explicit property beats its bracket, the first of two brackets wins, and `toString` is never added |
| Examples.StringInPropsPosition | test/index.js:92-105 | `e('div', 'foo')` moves `'foo'` to the children; `e('div', '')` appends one empty text node |
| Examples.NodesAndStrings | test/index.js:120-146 | two nodes and two strings, the empty one included, yield four children in order |
| Examples.OthersSkipped | test/index.js:148-160 | an array, an object, `null`, booleans and `undefined` yield no children |
| Examples.MixedChildList | test/index.js:148-172 | the ten-item list yields exactly its two nodes and two strings, in order |
| Examples.OtherChildValuesIgnored | test/index.js:176-186 | an object, `null`, `true`, `false` or `undefined` as the children argument appends nothing |
| Examples.ClassSuffixBarBaz | index.js:81 | a `class` entry `bar` then a `className` entry `baz` contribute ` bar baz` |
| Examples.ClassesAccumulate | index.js:80-81 | those two entries append ` bar baz` to whatever class name was there |
| Examples.HandlerOnImage | test/index.js:73-79 | on an HTML image, `onclick` becomes a direct property holding the very function, and no attribute |
| Examples.HandlerAndXlink | test/index.js:216-222 | on an SVG image, `onclick` becomes a direct property holding the function, and `xlink:href` becomes an attribute in the XLink namespace |

## Left out

- The `document` global is left out. Creating elements, fragments and text nodes becomes the `Element` constructor and `TextNode` values. Platform errors, such as an invalid tag name passed to `createElementNS`, are not modelled.
- Native attribute reflection is left out: `img.src` resolution, SVG `baseVal` values, `instanceof` checks and `nodeName` upper-casing are platform behaviour. Two consequences:
  - an `id` prop sets `element.id` in a browser, so `e('div#a', {id: 'b'})` has id `b`; the model keeps id `a` and records an `id` attribute `b` beside it;
  - an SVG element's `className` is read-only, so lines 46 and 81 have no effect on `e.svg('circle.foo')`; the model sets the class name for every namespace.
- Dom.Element.AppendChild: does not model moving a node that already has a parent. Appending the same node twice gives two entries, and a fragment passed as a child is not unpacked. This ownership transfer lives in the DOM, not in `index.js`.
- Numbers are integers only. Floating point, `NaN` and the text form of non-integers are not modelled. `Text` gives `String(v)` for integers below 10^21 in magnitude; JavaScript prints larger ones in exponent form, which the model does not.
- Node detection is the `Node` variant of the value datatype. The source's `v && v.nodeType > 0` is duck typing: a plain object `{nodeType: 1}` would be moved to the children on line 33 and make `appendChild` throw on line 59. The model treats every plain object as a non-node.
- Property bags keep insertion order. JavaScript's `for...in` puts integer-like keys first, and that ordering is not modelled.
- Inherited enumerable properties are not enumerated. `Object.prototype` names count only for the `in` test on line 50.
- `isArray` (the `isarray` package on line 1) is the `Arr?` test on the value datatype.
- `createNS` returns a closure. It is modelled as a `Factory` value holding the namespace, with `Call` applying it. `Html` and `Svg` are the two factories exported on lines 7-8.
- Style values are stored as given. CSS parsing and normalisation by the browser, including a node used as a style value, are not modelled.
- Properties.ApplyAllStyle: states the final style map only for bags with unique keys. Every real plain object has unique keys, and the `Bag.Valid` predicate states this. `CreateElementNS`, `Call` and `BuildElement` require the caller's bag to be valid in this sense and keep it valid.
- Some behaviours described for this library in general are not in `index.js`, so the model follows the code:
  - a valueless `[flag]` bracket gives no attribute (`NoEqualsNoPairs`);
  - attributes get no boolean or empty-string defaults for missing values;
  - a string-valued `style` is handled as an ordinary attribute;
  - number children are skipped;
  - there is no trusted-markup wrapper.
- The `#` and `.` scans of lines 45-46 run over the whole descriptor, bracket values included. The model keeps this: `DotInBracketValue` shows a class taken from inside a bracket. `ValidParts` therefore excludes `.` and `#` from bracket values in the full round trip, as they would change the id or class name read back. The bracket scan itself is indifferent to them: `ComposeBrackets` needs only well-formed pairs.
