/**
 The part of the XML DOM the scene loader relies on: an element tree with
 tag names, string attributes and ordered element children, plus the two
 document queries it makes, `getElementById` and `querySelectorAll`.
 Text nodes are not represented: `Element.children` only lists elements.
 */
module Dom {
  import opened Wrappers

  datatype Element = Element(tag: string, attrs: map<string, string>, children: seq<Element>)

  /** `element.getAttribute(name)`, with `None` for a missing attribute (`null`). */
  function GetAttribute(e: Element, name: string): (r: Option<string>)
    ensures r.Some? <==> name in e.attrs
    ensures r.Some? ==> r.value == e.attrs[name]
  {
    if name in e.attrs then Some(e.attrs[name]) else None
  }

  /** `x` is `t` or one of its descendants. */
  predicate InTree(x: Element, t: Element)
    decreases t
  {
    x == t || exists i :: 0 <= i < |t.children| && InTree(x, t.children[i])
  }

  /** Every element of the forest `es`, in document order (each element
      before its descendants, siblings left to right). It lists exactly the
      elements of the trees of `es`. */
  function Preorder(es: seq<Element>): (r: seq<Element>)
    ensures |r| >= |es|
    ensures forall x :: x in r <==> exists i :: 0 <= i < |es| && InTree(x, es[i])
    decreases es
  {
    if |es| == 0 then []
    else
      var head := Preorder(es[0].children);
      var tail := Preorder(es[1..]);
      assert forall x :: InTree(x, es[0]) <==> x == es[0] || x in head;
      assert forall x :: x in tail <==> exists i :: 1 <= i < |es| && InTree(x, es[i]) by {
        forall x ensures x in tail <==> exists i :: 1 <= i < |es| && InTree(x, es[i]) {
          if x in tail {
            var j :| 0 <= j < |es[1..]| && InTree(x, es[1..][j]);
            assert InTree(x, es[j + 1]);
          }
          if exists i :: 1 <= i < |es| && InTree(x, es[i]) {
            var i :| 1 <= i < |es| && InTree(x, es[i]);
            assert es[1..][i - 1] == es[i];
          }
        }
      }
      [es[0]] + head + tail
  }

  /** The document order of a forest is the document order of its parts, one
      after the other. */
  lemma {:induction false} PreorderAppend(a: seq<Element>, b: seq<Element>)
    ensures Preorder(a + b) == Preorder(a) + Preorder(b)
    decreases |a|
  {
    if |a| == 0 {
      assert a + b == b;
    } else {
      assert (a + b)[0] == a[0];
      assert (a + b)[1..] == a[1..] + b;
      PreorderAppend(a[1..], b);
    }
  }

  /** The elements of the document rooted at `root`, in document order. */
  function Elements(root: Element): seq<Element> {
    Preorder([root])
  }

  /** Index of the first element of `es` whose `id` attribute is `id`. */
  function FirstWithId(es: seq<Element>, id: string): (r: Option<nat>)
    ensures r.Some? ==> r.value < |es| && GetAttribute(es[r.value], "id") == Some(id)
    ensures r.Some? ==> forall j :: 0 <= j < r.value ==> GetAttribute(es[j], "id") != Some(id)
    ensures r.None? ==> forall j :: 0 <= j < |es| ==> GetAttribute(es[j], "id") != Some(id)
  {
    if |es| == 0 then None
    else if GetAttribute(es[0], "id") == Some(id) then Some(0)
    else match FirstWithId(es[1..], id)
      case None => None
      case Some(k) => Some(k + 1)
  }

  /** `document.getElementById(id)`: the first element in document order
      whose ID is `id`, or `None` (`null`). An element's ID is its `id`
      attribute when that is not empty, so no element has the ID "". */
  function GetElementById(root: Element, id: string): (r: Option<Element>)
    ensures id == "" ==> r.None?
    ensures r.Some? ==> r.value in Elements(root) && GetAttribute(r.value, "id") == Some(id)
    ensures r.None? <==> id == "" || forall x :: x in Elements(root) ==> GetAttribute(x, "id") != Some(id)
    ensures r.Some? ==> exists k :: (0 <= k < |Elements(root)| && Elements(root)[k] == r.value
      && forall j :: 0 <= j < k ==> GetAttribute(Elements(root)[j], "id") != Some(id))
  {
    var all := Elements(root);
    if id == "" then None
    else match FirstWithId(all, id)
      case None => None
      case Some(k) => Some(all[k])
  }

  /** The elements of `es` whose tag is `tag`, keeping their order. */
  function WithTag(es: seq<Element>, tag: string): (r: seq<Element>)
    ensures forall x :: x in r <==> x in es && x.tag == tag
    ensures |r| <= |es|
  {
    if |es| == 0 then []
    else (if es[0].tag == tag then [es[0]] else []) + WithTag(es[1..], tag)
  }

  /** Filtering distributes over concatenation. With the one-element case
      (kept exactly when it has the tag) this fixes the order and the
      multiplicity of the selected elements. */
  lemma {:induction false} WithTagAppend(a: seq<Element>, b: seq<Element>, tag: string)
    ensures WithTag(a + b, tag) == WithTag(a, tag) + WithTag(b, tag)
    decreases |a|
  {
    if |a| == 0 {
      assert a + b == b;
    } else {
      var head := if a[0].tag == tag then [a[0]] else [];
      calc {
        WithTag(a + b, tag);
        { assert (a + b)[0] == a[0]; assert (a + b)[1..] == a[1..] + b; }
        head + WithTag(a[1..] + b, tag);
        { WithTagAppend(a[1..], b, tag); }
        head + (WithTag(a[1..], tag) + WithTag(b, tag));
        (head + WithTag(a[1..], tag)) + WithTag(b, tag);
      }
    }
  }

  /** `document.querySelectorAll(tag)` for a bare type selector: every element
      of the document with that tag, the root included, in document order. */
  function QuerySelectorAll(root: Element, tag: string): (r: seq<Element>)
    ensures forall x :: x in r <==> x.tag == tag && InTree(x, root)
  {
    WithTag(Elements(root), tag)
  }

  /** The selector lists the root first when it has the tag, then the matches
      of each child's subtree, child by child: earlier subtrees come first. */
  lemma SelectorInDocumentOrder(root: Element, tag: string)
    ensures QuerySelectorAll(root, tag)
         == (if root.tag == tag then [root] else []) + WithTag(Preorder(root.children), tag)
    ensures forall a, b :: root.children == a + b ==>
      WithTag(Preorder(root.children), tag) == WithTag(Preorder(a), tag) + WithTag(Preorder(b), tag)
  {
    var cs := root.children;
    assert Elements(root) == [root] + Preorder(cs) + Preorder([root][1..]);
    assert [root][1..] == [];
    assert Elements(root) == [root] + Preorder(cs);
    WithTagAppend([root], Preorder(cs), tag);
    forall a, b | cs == a + b
      ensures WithTag(Preorder(cs), tag) == WithTag(Preorder(a), tag) + WithTag(Preorder(b), tag)
    {
      PreorderAppend(a, b);
      WithTagAppend(Preorder(a), Preorder(b), tag);
    }
  }
}
