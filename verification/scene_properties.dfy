/**
 Properties of the scene loader that relate several calls: the order in
 which a shape's children take effect, how a `ref` merges, and how the
 numeric leaves recover the fields of their `value` attribute.
 */
module SceneProperties {
  import opened Wrappers
  import opened Text
  import opened Dom
  import opened SceneLoader

  /** The three keys `parseShape` assigns, and the child tag assigning each. */
  datatype Key = BsdfKey | EmitterKey | MatrixKey

  function TagOf(k: Key): string {
    match k
    case BsdfKey => "bsdf"
    case EmitterKey => "emitter"
    case MatrixKey => "transform"
  }

  /** Child `c` may change key `k`: it assigns it, or it is a `ref`. */
  predicate Touches(c: Element, k: Key) {
    c.tag == TagOf(k) || c.tag == "ref"
  }

  predicate IsSetAt(p: PartialShape, k: Key) {
    match k
    case BsdfKey => p.bsdf.Set?
    case EmitterKey => p.emitter.Set?
    case MatrixKey => p.matrix.Set?
  }

  predicate SameAt(p: PartialShape, q: PartialShape, k: Key) {
    match k
    case BsdfKey => p.bsdf == q.bsdf
    case EmitterKey => p.emitter == q.emitter
    case MatrixKey => p.matrix == q.matrix
  }

  // ---------------------------------------------------------------------
  // Leaf values

  /** `parseRgb` reads exactly the first three fields of `value`, in order,
      whatever follows them. */
  lemma RgbFromFields(e: Element, a: string, b: string, c: string, extra: seq<string>)
    requires forall f :: f in [a, b, c] + extra ==> ' ' !in f
    requires "value" in e.attrs && e.attrs["value"] == JoinWithSpace([a, b, c] + extra)
    ensures ParseRgb(e) == [ParsedFrom(a), ParsedFrom(b), ParsedFrom(c)]
  {
    var fields := [a, b, c] + extra;
    assert forall i :: 0 <= i < |fields| ==> ' ' !in fields[i] by {
      forall i | 0 <= i < |fields| ensures ' ' !in fields[i] {
        assert fields[i] in fields;
      }
    }
    SplitJoin(fields);
  }

  /** Appending fields after the third leaves the colour unchanged. */
  lemma RgbIgnoresExtraFields(e: Element, tail: string)
    requires "value" in e.attrs
    requires Spaces(e.attrs["value"]) >= 2
    ensures ParseRgb(e.(attrs := e.attrs["value" := e.attrs["value"] + " " + tail])) == ParseRgb(e)
  {
    SplitAppend(e.attrs["value"], tail);
  }

  /** A `value` with fewer than three fields still gives three numbers:
      the missing ones are `parseFloat(undefined)`. */
  lemma RgbShortValue(e: Element)
    requires "value" in e.attrs
    ensures Spaces(e.attrs["value"]) < 2 ==> ParseRgb(e)[2] == ParsedFrom(Undefined)
    ensures Spaces(e.attrs["value"]) < 1 ==> ParseRgb(e)[1] == ParsedFrom(Undefined)
    ensures ParseRgb(e)[0] == ParsedFrom(SplitOnSpace(e.attrs["value"])[0])
  {
  }

  /** A transform's matrix has one number per field of `value`, in order. */
  lemma MatrixFromFields(e: Element, fields: seq<string>)
    requires |fields| >= 1
    requires forall i :: 0 <= i < |fields| ==> ' ' !in fields[i]
    requires "value" in e.attrs && e.attrs["value"] == JoinWithSpace(fields)
    ensures |ParseMatrix(e)| == |fields| && forall i :: 0 <= i < |fields| ==> ParseMatrix(e)[i] == ParsedFrom(fields[i])
  {
    SplitJoin(fields);
  }

  // ---------------------------------------------------------------------
  // Spread merge

  /** Laws of `{...a, ...b}` on shapes: spreading `{}` on either side changes
      nothing, spreading is associative, spreading an object over itself
      changes nothing, and a right operand with every key present replaces
      the left one entirely. */
  lemma MergeLaws(a: PartialShape, b: PartialShape, c: PartialShape)
    ensures Merge(a, NoFields) == a
    ensures Merge(NoFields, b) == b
    ensures Merge(Merge(a, b), c) == Merge(a, Merge(b, c))
    ensures Merge(a, a) == a
    ensures b.bsdf.Set? && b.emitter.Set? && b.matrix.Set? ==> Merge(a, b) == b
  {
  }

  // ---------------------------------------------------------------------
  // BSDF blocks

  /** The deciding child of a block does not move when children are appended. */
  lemma {:induction false} DecidingChildAppend(cs: seq<Element>, more: seq<Element>)
    requires DecidingChild(cs).Some?
    ensures DecidingChild(cs + more) == DecidingChild(cs)
    decreases |cs|
  {
    assert (cs + more)[0] == cs[0];
    if !IsBsdfTag(cs[0].tag) {
      assert (cs + more)[1..] == cs[1..] + more;
      DecidingChildAppend(cs[1..], more);
    }
  }

  /** Once a block has a `diffuse` or `rgb` child, later children change nothing. */
  lemma BsdfIgnoresLaterChildren(cs: seq<Element>, more: seq<Element>)
    requires DecidingChild(cs).Some?
    requires BsdfDefined(cs)
    ensures BsdfDefined(cs + more)
    ensures ScanBsdf(cs + more) == ScanBsdf(cs)
  {
    DecidingChildAppend(cs, more);
    var i := DecidingChild(cs).value;
    assert (cs + more)[i] == cs[i];
  }

  // ---------------------------------------------------------------------
  // Order of the children of a shape

  /** Folding over `a + b` is folding over `a`, then over `b`. */
  lemma {:induction false} ParseChildrenSplit(root: Element, rank: map<string, nat>, acc: PartialShape,
                                              a: seq<Element>, b: seq<Element>, bound: nat)
    requires forall i :: 0 <= i < |a + b| ==> ChildDefined(root, rank, (a + b)[i], bound)
    requires OnlyBsdfUndefined(acc)
    ensures forall i :: 0 <= i < |a| ==> ChildDefined(root, rank, a[i], bound)
    ensures forall i :: 0 <= i < |b| ==> ChildDefined(root, rank, b[i], bound)
    ensures ParseChildren(root, rank, acc, a + b, bound)
         == ParseChildren(root, rank, ParseChildren(root, rank, acc, a, bound), b, bound)
    decreases |a|
  {
    assert forall i :: 0 <= i < |a| ==> a[i] == (a + b)[i];
    assert forall i :: 0 <= i < |b| ==> b[i] == (a + b)[|a| + i];
    if |a| > 0 {
      var next := Step(root, rank, acc, a[0], bound);
      assert (a + b)[1..] == a[1..] + b;
      ParseChildrenSplit(root, rank, next, a[1..], b, bound);
    } else {
      assert a + b == b;
    }
  }

  /** Children that cannot change key `k` leave it as it was. */
  lemma {:induction false} UntouchedKeyKept(root: Element, rank: map<string, nat>, acc: PartialShape,
                                            cs: seq<Element>, bound: nat, k: Key)
    requires forall i :: 0 <= i < |cs| ==> ChildDefined(root, rank, cs[i], bound)
    requires OnlyBsdfUndefined(acc)
    requires forall i :: 0 <= i < |cs| ==> !Touches(cs[i], k)
    ensures SameAt(ParseChildren(root, rank, acc, cs, bound), acc, k)
    decreases |cs|
  {
    if |cs| > 0 {
      var next := Step(root, rank, acc, cs[0], bound);
      assert SameAt(next, acc, k);
      UntouchedKeyKept(root, rank, next, cs[1..], bound, k);
    }
  }

  /** Key `k` of a parsed shape is what the child at `j` left it as, when no
      later child can change it. */
  lemma LastTouchDecides(root: Element, rank: map<string, nat>, e: Element, bound: nat, j: nat, k: Key)
    requires ShapeDefined(root, rank, e, bound)
    requires j < |e.children|
    requires forall i :: j < i < |e.children| ==> !Touches(e.children[i], k)
    ensures SameAt(ParseShape(root, rank, e, bound),
                   ParseChildren(root, rank, NoFields, e.children[..j + 1], bound), k)
  {
    var cs := e.children;
    assert cs == cs[..j + 1] + cs[j + 1..];
    ParseChildrenSplit(root, rank, NoFields, cs[..j + 1], cs[j + 1..], bound);
    var mid := ParseChildren(root, rank, NoFields, cs[..j + 1], bound);
    UntouchedKeyKept(root, rank, mid, cs[j + 1..], bound, k);
  }

  /** The value a child leaves at key `k` is its own step applied to the
      shape parsed from the children before it. */
  lemma StepAfterPrefix(root: Element, rank: map<string, nat>, e: Element, bound: nat, j: nat)
    requires ShapeDefined(root, rank, e, bound)
    requires j < |e.children|
    ensures forall i :: 0 <= i < j ==> ChildDefined(root, rank, e.children[..j][i], bound)
    ensures ParseChildren(root, rank, NoFields, e.children[..j + 1], bound)
         == Step(root, rank, ParseChildren(root, rank, NoFields, e.children[..j], bound), e.children[j], bound)
  {
    var cs := e.children;
    assert cs[..j + 1] == cs[..j] + [cs[j]];
    ParseChildrenSplit(root, rank, NoFields, cs[..j], [cs[j]], bound);
  }

  /** With several `bsdf` children the last one wins, unless a later `ref`
      intervenes. */
  lemma LastBsdfWins(root: Element, rank: map<string, nat>, e: Element, bound: nat, j: nat)
    requires ShapeDefined(root, rank, e, bound)
    requires j < |e.children| && e.children[j].tag == "bsdf"
    requires forall i :: j < i < |e.children| ==> !Touches(e.children[i], BsdfKey)
    ensures ChildDefined(root, rank, e.children[j], bound)
    ensures ParseShape(root, rank, e, bound).bsdf == Set(ParseBsdf(e.children[j]))
  {
    LastTouchDecides(root, rank, e, bound, j, BsdfKey);
    StepAfterPrefix(root, rank, e, bound, j);
  }

  /** With several `emitter` children the last one wins, unless a later
      `ref` intervenes; its radiance is read from its first child. */
  lemma LastEmitterWins(root: Element, rank: map<string, nat>, e: Element, bound: nat, j: nat)
    requires ShapeDefined(root, rank, e, bound)
    requires j < |e.children| && e.children[j].tag == "emitter"
    requires forall i :: j < i < |e.children| ==> !Touches(e.children[i], EmitterKey)
    ensures |e.children[j].children| > 0 && "value" in e.children[j].children[0].attrs
    ensures ParseShape(root, rank, e, bound).emitter == Set(Some(Emitter(ParseRgb(e.children[j].children[0]))))
  {
    assert ChildDefined(root, rank, e.children[j], bound);
    LastTouchDecides(root, rank, e, bound, j, EmitterKey);
    StepAfterPrefix(root, rank, e, bound, j);
  }

  /** With several `transform` children the last one wins, unless a later
      `ref` intervenes; its matrix is read from its first child. */
  lemma LastTransformWins(root: Element, rank: map<string, nat>, e: Element, bound: nat, j: nat)
    requires ShapeDefined(root, rank, e, bound)
    requires j < |e.children| && e.children[j].tag == "transform"
    requires forall i :: j < i < |e.children| ==> !Touches(e.children[i], MatrixKey)
    ensures |e.children[j].children| > 0 && "value" in e.children[j].children[0].attrs
    ensures ParseShape(root, rank, e, bound).matrix == Set(Some(ParseMatrix(e.children[j].children[0])))
  {
    assert ChildDefined(root, rank, e.children[j], bound);
    LastTouchDecides(root, rank, e, bound, j, MatrixKey);
    StepAfterPrefix(root, rank, e, bound, j);
  }

  /** A `ref` child merges the referenced element's fields over those set
      by the children before it: a key the referenced element set (even to
      `undefined`) replaces the earlier value, any other key keeps it.
      Children after the `ref` that touch the key override it again, which
      is why none is allowed here. */
  lemma RefMerge(root: Element, rank: map<string, nat>, e: Element, bound: nat, j: nat, k: Key)
    requires ShapeDefined(root, rank, e, bound)
    requires j < |e.children| && e.children[j].tag == "ref"
    requires forall i :: j < i < |e.children| ==> !Touches(e.children[i], k)
    ensures ChildDefined(root, rank, e.children[j], bound)
    ensures var key := RefKey(e.children[j]);
      var target := ParseShape(root, rank, GetElementById(root, key).value, rank[key]);
      var before := ParseChildren(root, rank, NoFields, e.children[..j], bound);
      var r := ParseShape(root, rank, e, bound);
      (IsSetAt(target, k) ==> SameAt(r, target, k)) && (!IsSetAt(target, k) ==> SameAt(r, before, k))
  {
    LastTouchDecides(root, rank, e, bound, j, k);
    StepAfterPrefix(root, rank, e, bound, j);
  }

  // ---------------------------------------------------------------------
  // Reference lookup

  /** The first position carrying an id is the one `FirstWithId` returns. */
  lemma {:induction false} FirstWithIdAt(pre: seq<Element>, c: Element, post: seq<Element>, id: string)
    requires GetAttribute(c, "id") == Some(id)
    requires forall x :: x in pre ==> GetAttribute(x, "id") != Some(id)
    ensures FirstWithId(pre + [c] + post, id) == Some(|pre|)
    decreases |pre|
  {
    var all := pre + [c] + post;
    if |pre| > 0 {
      assert all[0] == pre[0];
      assert all[1..] == pre[1..] + [c] + post;
      FirstWithIdAt(pre[1..], c, post, id);
    }
  }

  /** `getElementById` with a non-empty id finds the first element in
      document order carrying it, whatever carries it later. */
  lemma GetElementByIdFindsFirst(root: Element, pre: seq<Element>, c: Element, post: seq<Element>, id: string)
    requires Elements(root) == pre + [c] + post
    requires id != "" && GetAttribute(c, "id") == Some(id)
    requires forall x :: x in pre ==> GetAttribute(x, "id") != Some(id)
    ensures GetElementById(root, id) == Some(c)
  {
    FirstWithIdAt(pre, c, post, id);
    assert (pre + [c] + post)[|pre|] == c;
  }

  /** A `ref` whose id is empty finds no element, so `parseShape(null)`
      throws: no rank admits it. */
  lemma EmptyRefIdUndefined(root: Element, rank: map<string, nat>, c: Element, bound: nat)
    requires c.tag == "ref" && RefKey(c) == ""
    ensures !ChildDefined(root, rank, c, bound)
  {
  }

  /** A `ref` element carries the very id it looks up, so when no element
      before it in document order has that id, `getElementById` returns the
      `ref` element itself; without children of its own it then adds nothing
      to the shape. */
  lemma ForwardRefResolvesToItself(root: Element, rank: map<string, nat>, acc: PartialShape,
                                   pre: seq<Element>, c: Element, post: seq<Element>, bound: nat)
    requires Elements(root) == pre + [c] + post
    requires c.tag == "ref" && "id" in c.attrs && c.attrs["id"] != "" && |c.children| == 0
    requires forall x :: x in pre ==> GetAttribute(x, "id") != Some(c.attrs["id"])
    requires c.attrs["id"] in rank && rank[c.attrs["id"]] < bound
    requires OnlyBsdfUndefined(acc)
    ensures GetElementById(root, RefKey(c)) == Some(c)
    ensures ChildDefined(root, rank, c, bound)
    ensures Step(root, rank, acc, c, bound) == acc
  {
    GetElementByIdFindsFirst(root, pre, c, post, c.attrs["id"]);
    var key := c.attrs["id"];
    assert ParseShape(root, rank, c, rank[key]) == NoFields;
    assert Merge(acc, NoFields) == acc;
  }
}
