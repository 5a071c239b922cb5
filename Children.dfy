/**
  Child normalisation: a single child is wrapped into a list; every string
  item becomes a text node and every item with a positive `nodeType` is
  appended as it is; every other item is skipped without a trace.
 */
module Children {
  import opened JsValues
  import opened Dom

  /** `if (children || typeof children === 'string')`, then
      `if (!isArray(children)) children = [children]`: the list the loop walks. */
  function ChildList(children: Value): seq<Value> {
    if Truthy(children) || TypeOf(children) == "string" then
      (if children.Arr? then children.items else [children])
    else []
  }

  /** The loop body's test: `typeof item === 'string'`, else `item && item.nodeType > 0`. */
  function ChildFor(item: Value): Option<Child> {
    if TypeOf(item) == "string" then Some(TextNode(item.s))
    else if Truthy(item) && IsNodeLike(item) then Some(ExistingNode(item.node))
    else None
  }

  /** What one loop iteration appends: at most one child. */
  function ChildrenFor(item: Value): seq<Child> {
    match ChildFor(item)
    case Some(c) => [c]
    case None => []
  }

  /** The children the loop appends for `items`, in order. */
  function Appended(items: seq<Value>): seq<Child> {
    if items == [] then []
    else
      var n := |items| - 1;
      Appended(items[..n]) + ChildrenFor(items[n])
  }

  lemma AppendedSnoc(items: seq<Value>, i: nat)
    requires i < |items|
    ensures Appended(items[..i + 1]) == Appended(items[..i]) + ChildrenFor(items[i])
  {
    assert items[..i + 1][..i] == items[..i];
  }

  /** Lines 55-61: append the normalised children to `element`. */
  method AppendChildren(element: Element, children: Value)
    modifies element
    ensures element.State() == old(element.State()).(childNodes := old(element.childNodes) + Appended(ChildList(children)))
  {
    var list := ChildList(children);
    for i := 0 to |list|
      invariant element.State() == old(element.State()).(childNodes := element.childNodes)
      invariant element.childNodes == old(element.childNodes) + Appended(list[..i])
    {
      AppendedSnoc(list, i);
      AppendItem(element, list[i]);
    }
    assert list[..|list|] == list;
  }

  /** Lines 57-60, one iteration: a string becomes a text node, a node is
      appended as it is, anything else is skipped. */
  method AppendItem(element: Element, item: Value)
    modifies element
    ensures element.State() == old(element.State()).(childNodes := element.childNodes)
    ensures element.childNodes == old(element.childNodes) + ChildrenFor(item)
  {
    if TypeOf(item) == "string" {
      element.AppendChild(TextNode(item.s));
    } else if Truthy(item) && IsNodeLike(item) {
      element.AppendChild(ExistingNode(item.node));
    }
  }

  // -------------------------------------------------------------- properties

  /** The kinds of item that produce a child: strings and DOM nodes. */
  predicate IsRecognised(item: Value) {
    item.Str? || item.Node?
  }

  /** The child a recognised item produces. */
  function ChildOf(item: Value): Child
    requires IsRecognised(item)
  {
    if item.Str? then TextNode(item.s) else ExistingNode(item.node)
  }

  /** The positions of the recognised items, left to right. */
  function RecognisedIndices(items: seq<Value>): seq<nat> {
    if items == [] then []
    else
      var n := |items| - 1;
      RecognisedIndices(items[..n]) + (if IsRecognised(items[n]) then [n] else [])
  }

  lemma ChildForSpec(item: Value)
    ensures ChildFor(item).Some? <==> IsRecognised(item)
    ensures IsRecognised(item) ==> ChildFor(item) == Some(ChildOf(item))
  {
  }

  /** Every listed position is in range, holds a recognised item, and the
      positions strictly increase. */
  lemma {:induction false} IndicesValid(items: seq<Value>)
    ensures forall j :: 0 <= j < |RecognisedIndices(items)| ==>
      RecognisedIndices(items)[j] < |items| && IsRecognised(items[RecognisedIndices(items)[j]])
    ensures forall j, k :: 0 <= j < k < |RecognisedIndices(items)| ==>
      RecognisedIndices(items)[j] < RecognisedIndices(items)[k]
  {
    if items != [] {
      var n := |items| - 1;
      IndicesValid(items[..n]);
      var pre := RecognisedIndices(items[..n]);
      var idx := RecognisedIndices(items);
      assert idx == pre + (if IsRecognised(items[n]) then [n] else []);
      forall j | 0 <= j < |pre| ensures pre[j] < n && items[..n][pre[j]] == items[pre[j]] { }
    }
  }

  /** Every recognised position is listed. */
  lemma {:induction false} IndicesComplete(items: seq<Value>)
    ensures forall i :: 0 <= i < |items| && IsRecognised(items[i]) ==> i in RecognisedIndices(items)
  {
    if items != [] {
      var n := |items| - 1;
      IndicesComplete(items[..n]);
      forall i | 0 <= i < n && IsRecognised(items[i]) ensures i in RecognisedIndices(items[..n]) {
        assert items[..n][i] == items[i];
      }
    }
  }

  /** One child per recognised position. */
  lemma {:induction false} AppendedLength(items: seq<Value>)
    ensures |Appended(items)| == |RecognisedIndices(items)|
  {
    if items != [] {
      AppendedLength(items[..|items| - 1]);
      ChildForSpec(items[|items| - 1]);
    }
  }

  /** The j-th appended child comes from the j-th recognised position. */
  lemma {:induction false} AppendedAtIndices(items: seq<Value>)
    ensures |Appended(items)| == |RecognisedIndices(items)|
    ensures forall j :: 0 <= j < |RecognisedIndices(items)| ==>
      RecognisedIndices(items)[j] < |items| && IsRecognised(items[RecognisedIndices(items)[j]]) &&
      Appended(items)[j] == ChildOf(items[RecognisedIndices(items)[j]])
  {
    AppendedLength(items);
    IndicesValid(items);
    if items != [] {
      var n := |items| - 1;
      AppendedAtIndices(items[..n]);
      ChildForSpec(items[n]);
      var pre := RecognisedIndices(items[..n]);
      var a := Appended(items[..n]);
      var idx := RecognisedIndices(items);
      var ap := Appended(items);
      assert idx == pre + (if IsRecognised(items[n]) then [n] else []);
      assert ap == a + (if IsRecognised(items[n]) then [ChildOf(items[n])] else []);
      forall j | 0 <= j < |idx| ensures ap[j] == ChildOf(items[idx[j]]) {
        if j < |pre| {
          assert idx[j] == pre[j] && ap[j] == a[j];
          assert items[..n][pre[j]] == items[pre[j]];
        } else {
          assert idx[j] == n;
        }
      }
    }
  }

  /** The appended children are exactly the recognised items, as children,
      in their original relative order: the j-th child comes from the j-th
      recognised position, the positions increase, and every recognised
      position is one of them. */
  lemma AppendedSpec(items: seq<Value>)
    ensures var idx := RecognisedIndices(items);
      && |Appended(items)| == |idx|
      && (forall j :: 0 <= j < |idx| ==>
            idx[j] < |items| && IsRecognised(items[idx[j]]) && Appended(items)[j] == ChildOf(items[idx[j]]))
      && (forall j, k :: 0 <= j < k < |idx| ==> idx[j] < idx[k])
      && (forall i :: 0 <= i < |items| && IsRecognised(items[i]) ==> i in idx)
  {
    IndicesValid(items);
    IndicesComplete(items);
    AppendedAtIndices(items);
  }

  /** A non-empty list appends what its front appends, then its last item's child. */
  lemma AppendedStep(items: seq<Value>, front: seq<Value>, last: Value)
    requires items != [] && items[..|items| - 1] == front && items[|items| - 1] == last
    ensures Appended(items) == Appended(front) + ChildrenFor(last)
  {
  }

  lemma {:induction false} AppendedConcat(a: seq<Value>, b: seq<Value>)
    ensures Appended(a + b) == Appended(a) + Appended(b)
    decreases |b|
  {
    if b == [] {
      assert a + b == a;
    } else {
      var n := |b| - 1;
      var ab := a + b;
      assert ab[..|ab| - 1] == a + b[..n] && ab[|ab| - 1] == b[n];
      calc {
        Appended(ab);
        { AppendedStep(ab, a + b[..n], b[n]); }
        Appended(a + b[..n]) + ChildrenFor(b[n]);
        { AppendedConcat(a, b[..n]); }
        Appended(a) + Appended(b[..n]) + ChildrenFor(b[n]);
        Appended(a) + (Appended(b[..n]) + ChildrenFor(b[n]));
        { AppendedStep(b, b[..n], b[n]); }
        Appended(a) + Appended(b);
      }
    }
  }

  /** A single value that is neither an array, a string nor a node appends nothing. */
  lemma NothingFromOther(children: Value)
    requires !children.Arr? && !IsRecognised(children)
    ensures Appended(ChildList(children)) == []
  {
    SingleChild(children);
  }

  /** A single child (not an array) yields one text node if it is a string
      (the empty string too), itself if it is a node, and nothing otherwise;
      an array yields its items' children. */
  lemma SingleChild(children: Value)
    ensures !children.Arr? ==>
      Appended(ChildList(children)) == if IsRecognised(children) then [ChildOf(children)] else []
    ensures children.Arr? ==> Appended(ChildList(children)) == Appended(children.items)
  {
    if !children.Arr? && (Truthy(children) || TypeOf(children) == "string") {
      assert ChildList(children) == [children];
      assert [children][..0] == [];
    }
  }
}
