/**
 The scene-markup loader of `loadScene` (src/scene.ts): a walk over the
 parsed XML element tree that turns every `shape` element into a `Shape`
 record.

 A shape is built as a JavaScript object by assignment and object spread,
 so each of its keys is either absent, or present with a value that may be
 `undefined`. `Field` keeps that distinction, because a present-but-undefined
 key still overrides an earlier value when objects are spread together.

 `ref` children are followed through `getElementById` without any record of
 the ids already visited, so a cyclic chain of references recurses until
 the call stack overflows, and a missing target throws. Both are excluded by
 `ShapeDefined`, which also asks for the attributes and children the walk
 dereferences: a rank on ids that strictly decreases along every `ref`
 followed is the witness that the walk terminates.
 */
module SceneLoader {
  import opened Wrappers
  import opened Text
  import opened Dom

  /** One key of an object under construction: `Unset` when the key was never
      assigned, `Set(v)` when it was, with `v == None` for `undefined`. */
  datatype Field<+T> = Unset | Set(value: Option<T>)

  /** The `bsdf` object `parseBsdf` builds; either key may be missing. */
  datatype Bsdf = Bsdf(diffuse: Option<bool>, reflectance: Option<seq<Num>>)

  datatype Emitter = Emitter(radiance: seq<Num>)

  /** The object `parseShape` returns: it never assigns `type`. */
  datatype PartialShape = PartialShape(bsdf: Field<Bsdf>, emitter: Field<Emitter>, matrix: Field<seq<Num>>)

  /** One entry of `scene.shapes`; `kind` is the shape's `type` attribute. */
  datatype Shape = Shape(kind: Option<string>, bsdf: Field<Bsdf>, emitter: Field<Emitter>, matrix: Field<seq<Num>>)

  datatype Scene = Scene(shapes: seq<Shape>)

  /** The empty object literal `{}`. */
  const NoFields: PartialShape := PartialShape(Unset, Unset, Unset)

  // ---------------------------------------------------------------------
  // Spread merge

  /** One key of `{...a, ...b}`: `b`'s entry when `b` has the key, else `a`'s. */
  function Override<T>(a: Field<T>, b: Field<T>): (r: Field<T>)
    ensures r.Set? <==> a.Set? || b.Set?
    ensures b.Set? ==> r == b
    ensures b.Unset? ==> r == a
  {
    if b.Set? then b else a
  }

  /** `{...a, ...b}`, key by key. */
  function Merge(a: PartialShape, b: PartialShape): (r: PartialShape)
    ensures r.bsdf == Override(a.bsdf, b.bsdf)
    ensures r.emitter == Override(a.emitter, b.emitter)
    ensures r.matrix == Override(a.matrix, b.matrix)
  {
    PartialShape(Override(a.bsdf, b.bsdf), Override(a.emitter, b.emitter), Override(a.matrix, b.matrix))
  }

  // ---------------------------------------------------------------------
  // Leaf values

  /** `parseRgb`: the first three space-separated fields of the `value`
      attribute, each read as a number; a missing field reads as `undefined`. */
  function ParseRgb(e: Element): (rgb: seq<Num>)
    requires "value" in e.attrs
    ensures |rgb| == 3
    ensures forall i :: 0 <= i < 3 ==>
      rgb[i] == ParsedFrom(FieldOrUndefined(SplitOnSpace(e.attrs["value"]), i))
  {
    var fields := SplitOnSpace(e.attrs["value"]);
    [ParsedFrom(FieldOrUndefined(fields, 0)),
     ParsedFrom(FieldOrUndefined(fields, 1)),
     ParsedFrom(FieldOrUndefined(fields, 2))]
  }

  /** The matrix of a `transform`: `value.split(" ").map(parseFloat)`. */
  function ParseMatrix(e: Element): (m: seq<Num>)
    requires "value" in e.attrs
    ensures |m| == Spaces(e.attrs["value"]) + 1
    ensures forall i :: 0 <= i < |m| ==> m[i] == ParsedFrom(SplitOnSpace(e.attrs["value"])[i])
  {
    var fields := SplitOnSpace(e.attrs["value"]);
    seq(|fields|, i requires 0 <= i < |fields| => ParsedFrom(fields[i]))
  }

  // ---------------------------------------------------------------------
  // BSDF blocks

  /** The tags `parseBsdf` reacts to. */
  predicate IsBsdfTag(tag: string) {
    tag == "diffuse" || tag == "rgb"
  }

  /** Index of the child that decides a BSDF block: the first one tagged
      `diffuse` or `rgb`. */
  function DecidingChild(cs: seq<Element>): (r: Option<nat>)
    ensures r.Some? ==> r.value < |cs| && IsBsdfTag(cs[r.value].tag)
    ensures r.Some? ==> forall j :: 0 <= j < r.value ==> !IsBsdfTag(cs[j].tag)
    ensures r.None? <==> forall j :: 0 <= j < |cs| ==> !IsBsdfTag(cs[j].tag)
  {
    if |cs| == 0 then None
    else if IsBsdfTag(cs[0].tag) then Some(0)
    else match DecidingChild(cs[1..])
      case None => None
      case Some(k) => Some(k + 1)
  }

  /** The BSDF walk reaches no `rgb` element without a `value` attribute. */
  predicate BsdfDefined(cs: seq<Element>)
    decreases cs
  {
    match DecidingChild(cs)
    case None => true
    case Some(i) =>
      if cs[i].tag == "rgb" then "value" in cs[i].attrs
      else BsdfDefined(cs[i].children)
  }

  /** The `reflectance` key of a possibly undefined BSDF object. */
  function ReflectanceOf(b: Option<Bsdf>): Option<seq<Num>> {
    if b.Some? then b.value.reflectance else None
  }

  /** The `for` loop of `parseBsdf` over the children `cs`: it returns at the
      first `diffuse` child (recursing into it and forcing `diffuse: true`)
      or at the first `rgb` child (a bare `reflectance`), and falls off the
      end with `undefined`. */
  function ScanBsdf(cs: seq<Element>): (r: Option<Bsdf>)
    requires BsdfDefined(cs)
    ensures r.None? <==> DecidingChild(cs).None?
    ensures DecidingChild(cs).Some? && cs[DecidingChild(cs).value].tag == "rgb" ==>
      r == Some(Bsdf(None, Some(ParseRgb(cs[DecidingChild(cs).value]))))
    ensures DecidingChild(cs).Some? && cs[DecidingChild(cs).value].tag == "diffuse" ==>
      r == Some(Bsdf(Some(true), ReflectanceOf(ScanBsdf(cs[DecidingChild(cs).value].children))))
    decreases cs
  {
    if |cs| == 0 then None
    else if cs[0].tag == "diffuse" then
      Some(Bsdf(Some(true), ReflectanceOf(ScanBsdf(cs[0].children))))
    else if cs[0].tag == "rgb" then
      Some(Bsdf(None, Some(ParseRgb(cs[0]))))
    else
      ScanBsdf(cs[1..])
  }

  /** `parseBsdf(element)`. */
  function ParseBsdf(e: Element): Option<Bsdf>
    requires BsdfDefined(e.children)
  {
    ScanBsdf(e.children)
  }

  // ---------------------------------------------------------------------
  // Shapes

  /** The id a `ref` child looks up. A missing attribute makes
      `getAttribute` return `null`, which `getElementById` receives as the
      string "null". */
  function RefKey(c: Element): string {
    GetAttribute(c, "id").GetOr("null")
  }

  /** The walk of `parseShape` over `e` dereferences nothing missing and
      follows `ref` chains only to ids ranked below `bound`. */
  predicate ShapeDefined(root: Element, rank: map<string, nat>, e: Element, bound: nat)
    decreases bound, 1
  {
    forall i :: 0 <= i < |e.children| ==> ChildDefined(root, rank, e.children[i], bound)
  }

  /** The same condition for one child of a shape element. */
  predicate ChildDefined(root: Element, rank: map<string, nat>, c: Element, bound: nat)
    decreases bound, 0
  {
    if c.tag == "bsdf" then BsdfDefined(c.children)
    else if c.tag == "emitter" || c.tag == "transform" then
      |c.children| > 0 && "value" in c.children[0].attrs
    else if c.tag == "ref" then
      var key := RefKey(c);
      && key in rank
      && rank[key] < bound
      && GetElementById(root, key).Some?
      && ShapeDefined(root, rank, GetElementById(root, key).value, rank[key])
    else true
  }

  /** `emitter` and `matrix` are only ever assigned defined values; only
      `bsdf` can be present but `undefined`. */
  predicate OnlyBsdfUndefined(p: PartialShape) {
    (p.emitter.Set? ==> p.emitter.value.Some?) && (p.matrix.Set? ==> p.matrix.value.Some?)
  }

  /** `parseShape(element)`: the children of `e` folded, in document order,
      into an initially empty object. */
  function ParseShape(root: Element, ghost rank: map<string, nat>, e: Element, ghost bound: nat): (r: PartialShape)
    requires ShapeDefined(root, rank, e, bound)
    ensures OnlyBsdfUndefined(r)
    decreases bound, 1, 0
  {
    ParseChildren(root, rank, NoFields, e.children, bound)
  }

  /** The loop of `parseShape` from object `acc` over the remaining children `cs`. */
  function ParseChildren(root: Element, ghost rank: map<string, nat>, acc: PartialShape,
                         cs: seq<Element>, ghost bound: nat): (r: PartialShape)
    requires forall i :: 0 <= i < |cs| ==> ChildDefined(root, rank, cs[i], bound)
    requires OnlyBsdfUndefined(acc)
    ensures OnlyBsdfUndefined(r)
    decreases bound, 0, |cs|
  {
    if |cs| == 0 then acc
    else ParseChildren(root, rank, Step(root, rank, acc, cs[0], bound), cs[1..], bound)
  }

  /** One iteration of the `parseShape` loop: dispatch on the child's tag. */
  function Step(root: Element, ghost rank: map<string, nat>, acc: PartialShape,
                c: Element, ghost bound: nat): (r: PartialShape)
    requires ChildDefined(root, rank, c, bound)
    requires OnlyBsdfUndefined(acc)
    ensures OnlyBsdfUndefined(r)
    decreases bound, 0, 0
  {
    if c.tag == "bsdf" then
      acc.(bsdf := Set(ParseBsdf(c)))
    else if c.tag == "emitter" then
      acc.(emitter := Set(Some(Emitter(ParseRgb(c.children[0])))))
    else if c.tag == "ref" then
      var key := RefKey(c);
      Merge(acc, ParseShape(root, rank, GetElementById(root, key).value, rank[key]))
    else if c.tag == "transform" then
      acc.(matrix := Set(Some(ParseMatrix(c.children[0]))))
    else
      acc
  }

  /** `{...parsed, type: element.getAttribute("type")}`. */
  function ToShape(parsed: PartialShape, e: Element): (s: Shape)
    ensures s.kind == GetAttribute(e, "type")
    ensures s.bsdf == parsed.bsdf && s.emitter == parsed.emitter && s.matrix == parsed.matrix
  {
    Shape(GetAttribute(e, "type"), parsed.bsdf, parsed.emitter, parsed.matrix)
  }

  /** `loadScene`, from the parsed document onwards: one `Shape` per `shape`
      element of the document, in document order. */
  method LoadScene(root: Element, ghost rank: map<string, nat>, ghost bound: nat) returns (scene: Scene)
    requires forall s :: s in QuerySelectorAll(root, "shape") ==> ShapeDefined(root, rank, s, bound)
    ensures |scene.shapes| == |QuerySelectorAll(root, "shape")|
    ensures forall i :: 0 <= i < |scene.shapes| ==>
      scene.shapes[i].kind == GetAttribute(QuerySelectorAll(root, "shape")[i], "type")
    ensures forall i :: 0 <= i < |scene.shapes| ==>
      var parsed := ParseShape(root, rank, QuerySelectorAll(root, "shape")[i], bound);
      scene.shapes[i].bsdf == parsed.bsdf && scene.shapes[i].emitter == parsed.emitter
      && scene.shapes[i].matrix == parsed.matrix
    ensures forall i :: 0 <= i < |scene.shapes| ==>
      (scene.shapes[i].emitter.Set? ==> scene.shapes[i].emitter.value.Some?)
      && (scene.shapes[i].matrix.Set? ==> scene.shapes[i].matrix.value.Some?)
  {
    var elements := QuerySelectorAll(root, "shape");
    var shapes: seq<Shape> := [];
    var i := 0;
    while i < |elements|
      invariant 0 <= i <= |elements|
      invariant |shapes| == i
      invariant forall j :: 0 <= j < i ==>
        shapes[j] == ToShape(ParseShape(root, rank, elements[j], bound), elements[j])
    {
      var parsed := ParseShape(root, rank, elements[i], bound);
      shapes := shapes + [ToShape(parsed, elements[i])];
      i := i + 1;
    }
    scene := Scene(shapes);
  }
}
