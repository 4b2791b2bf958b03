# Scene markup loader, modelled in Dafny

This project models the scene loader of a small WebGL path tracer
(`src/scene.ts`). `loadScene` walks an XML scene description and builds one
`Shape` record for each `shape` element: an optional BSDF (a diffuse flag and
a reflectance colour), an optional emitter (a radiance colour) and a
transform matrix. `transformIntoCamera` reads a camera frame out of a
row-major 4x4 matrix.

Modules:

- `Wrappers` (`wrappers.dfy`): `Option`, which stands for a JavaScript value
  that may be `undefined` or `null`.
- `Text` (`text.dfy`): `split(" ")` with exact JavaScript semantics. Two
  consecutive spaces give an empty field, and `""` gives `[""]`. It also has
  its inverse `join(" ")` and symbolic numbers: `ParsedFrom(t)` stands for
  `parseFloat(t)`.
- `Dom` (`dom.dfy`): the parsed document is an element tree. Each element has
  a tag, a map of string attributes and ordered element children. The module
  models `getAttribute`, `getElementById` and `querySelectorAll` with a bare
  tag selector (every element with that tag in document order, the root
  included). `getElementById` returns the first element in document order
  whose ID is the key. An element's ID is its `id` attribute when that is not
  empty, so `getElementById("")` is always `null`.
- `SceneLoader` (`scene.dfy`): `parseRgb`, `parseBsdf`, `parseShape` and the
  `loadScene` loop over the `shape` elements.
- `SceneProperties` (`scene_properties.dfy`): lemmas relating several calls.
  They cover document order, last occurrence wins, `ref` merge precedence,
  the laws of spread merging, the numeric fields that are read, and the ids
  a `ref` resolves to.
- `Camera` (`camera.dfy`): `transformIntoCamera`.

Objects built by assignment and spread are modelled key by key. A key is
`Unset` (absent) or `Set(v)`, where `v` may be `None` (`undefined`). This
matters because `{...shape, ...parsed}` lets a present-but-undefined key
override an earlier value. That happens with `bsdf` when `parseBsdf` finds no
`diffuse` or `rgb` child.

`parseShape` follows `ref` children through `getElementById` without
remembering which ids it has visited. A cyclic chain therefore recurses until
the call stack overflows and a `RangeError` is thrown. A missing target makes
`parseShape(null)` throw a `TypeError`. The loader handles neither case, so
both are preconditions (`ShapeDefined`), together with the attributes and
children the walk dereferences:

- `value` on every `rgb` element it reads;
- a first child with a `value` attribute under each `emitter` and
  `transform`;
- a target for every `ref`.

Termination is witnessed by a rank on ids. The rank must strictly decrease
along every `ref` followed, below a bound given for the top-level shapes. The
rank and the bound are ghost parameters, so the result does not depend on
them.

Details of the code that the model keeps:

- `ref` without an `id` attribute: `getAttribute` returns `null`, and
  `getElementById` receives it as the string `"null"`.
- `ref` with `id=""`: no element has that ID, so the walk throws
  (`EmptyRefIdUndefined`).
- A field missing from an `rgb` value: `parseFloat(undefined)` parses the
  string `"undefined"` (`RgbShortValue`).
- A `ref` element carries the id it looks up. So when the referenced element
  comes later in the document, `getElementById` returns the `ref` element
  itself (`ForwardRefResolvesToItself`).
- A transform's matrix keeps every space-separated field of its `value`;
  nothing checks that there are 16.
- `loadScene` collects shapes synchronously, so `scene.shapes` is in
  document order.

Some members carry no row below because another row's member states their
meaning:

- `Text.FieldOrUndefined` and `SceneLoader.ParseRgb`: covered by `RgbFromFields`, `RgbIgnoresExtraFields` and `RgbShortValue`.
- `SceneLoader.Override` and `SceneLoader.Merge`: covered by `MergeLaws` and `RefMerge`.
- `SceneLoader.ParseBsdf` (the wrapper of `ScanBsdf` on a block's children): covered by the `ScanBsdf` row.
- `SceneLoader.RefKey`: covered by `RefMerge`, `EmptyRefIdUndefined` and `ForwardRefResolvesToItself`.
- `SceneLoader.ToShape`: covered by the `LoadScene` row.
- `Dom.GetAttribute`: covered by the rows that use it.
- `Camera.At` and `Camera.Column`: covered by the `TransformIntoCamera` row.

## Model

| member | source | states |
|---|---|---|
| Text.SplitOnSpace | src/scene.ts:24 | `split(" ")` yields one field more than there are spaces, and no field contains a space |
| Text.JoinSplit | src/scene.ts:24 | joining the fields of `split(" ")` with single spaces gives back the original text, so no character is lost or invented |
| Text.SplitJoin | src/scene.ts:57-60 | splitting space-free fields joined by single spaces gives back exactly those fields, in order |
| Text.SplitAppend | src/scene.ts:24 | the fields of `a + " " + b` are the fields of `a` followed by the fields of `b` |
| Dom.Preorder | src/scene.ts:71 | document order lists exactly the elements of the given trees: each root and all its descendants, and nothing else |
| Dom.PreorderAppend | src/scene.ts:71 | the document order of a forest is the order of its first trees followed by the order of the rest |
| Dom.FirstWithId | src/scene.ts:54 | the returned position carries the id and no earlier position does; no position is returned only when no element carries it |
| Dom.GetElementById | src/scene.ts:54 | the key `""` finds nothing. Otherwise the element found carries the key and no element before it in document order does. `null` exactly when no element carries the key |
| Dom.WithTag | src/scene.ts:71 | the selected elements are exactly those with the tag, and never more than the input |
| Dom.WithTagAppend | src/scene.ts:71 | selecting from `a + b` selects from `a`, then from `b`; so the selection keeps document order and multiplicity |
| Dom.QuerySelectorAll | src/scene.ts:71 | an element is selected iff it has the tag and lies in the document, the root included |
| Dom.SelectorInDocumentOrder | src/scene.ts:71 | the selection is the root (when it has the tag) followed by the matches of each child subtree, earlier subtrees first |
| SceneLoader.ParseMatrix | src/scene.ts:56-60 | a transform's matrix has one number per space-separated field of `value`, in order |
| SceneLoader.DecidingChild | src/scene.ts:28-39 | the child that decides a BSDF block is the first one tagged `diffuse` or `rgb`; none exists exactly when no child has either tag |
| SceneLoader.ScanBsdf | src/scene.ts:27-40 | `parseBsdf` is `undefined` iff no child is `diffuse` or `rgb`. A deciding `rgb` child yields only a reflectance, with no diffuse key. A deciding `diffuse` child yields `diffuse: true` and the reflectance found by recursing into it |
| SceneLoader.ParseShape | src/scene.ts:41-65 | a parsed shape may hold an `undefined` bsdf, but its emitter and matrix, when present, are always defined |
| SceneLoader.ParseChildren | src/scene.ts:44-62 | folding any run of children over an object whose emitter and matrix are defined keeps them defined |
| SceneLoader.Step | src/scene.ts:45-61 | no single child, including a `ref` merge, can make the emitter or matrix `undefined` |
| SceneLoader.LoadScene | src/scene.ts:67-80 | one Shape per `shape` element, in document order. Each Shape's `type` is that element's `type` attribute (`null` when absent) and its other keys come from parsing that element |
| SceneProperties.RgbFromFields | src/scene.ts:23-26 | for a `value` made of space-free fields, the colour is the first three fields, whatever follows them and whatever other attributes the element has |
| SceneProperties.RgbIgnoresExtraFields | src/scene.ts:24-25 | once `value` has three fields, appending more fields leaves the colour unchanged |
| SceneProperties.RgbShortValue | src/scene.ts:24-25 | a `value` with fewer than three fields still gives three numbers; the missing ones are `parseFloat(undefined)` |
| SceneProperties.MatrixFromFields | src/scene.ts:56-60 | for a `value` made of space-free fields, the matrix has exactly one number per field, in order, whatever other attributes the element has |
| SceneProperties.MergeLaws | src/scene.ts:52-55 | spreading `{}` on either side changes nothing; spreading is associative and idempotent; a right operand with all three keys present replaces the left one |
| SceneProperties.DecidingChildAppend | src/scene.ts:28-39 | appending children does not move the deciding child of a BSDF block |
| SceneProperties.BsdfIgnoresLaterChildren | src/scene.ts:28-40 | children after the deciding child never change `parseBsdf`'s result |
| SceneProperties.ParseChildrenSplit | src/scene.ts:44-62 | children are processed in document order: parsing `a + b` parses `a`, then continues with `b` |
| SceneProperties.UntouchedKeyKept | src/scene.ts:44-62 | children that neither assign a key nor are `ref` leave that key as it was |
| SceneProperties.LastTouchDecides | src/scene.ts:44-62 | a key of the parsed shape is what it was after the last child able to change it |
| SceneProperties.StepAfterPrefix | src/scene.ts:44-62 | the state after child `j` is child `j` applied to the state left by the children before it |
| SceneProperties.LastBsdfWins | src/scene.ts:45-46 | with repeated `bsdf` children and no later `ref`, the shape's bsdf is the last one's `parseBsdf`; a `bsdf` child after a `ref` overrides what the `ref` merged |
| SceneProperties.LastEmitterWins | src/scene.ts:47-50 | with repeated `emitter` children and no later `ref`, the radiance is `parseRgb` of the last one's first child; an `emitter` child after a `ref` overrides what the `ref` merged |
| SceneProperties.LastTransformWins | src/scene.ts:56-61 | with repeated `transform` children and no later `ref`, the matrix is read from the last one's first child; a `transform` child after a `ref` overrides what the `ref` merged |
| SceneProperties.RefMerge | src/scene.ts:51-55 | a key the referenced element's parse set, even to `undefined`, overrides the earlier value. A key it did not set keeps the value from the children before the `ref` |
| SceneProperties.GetElementByIdFindsFirst | src/scene.ts:54 | for a non-empty id, `getElementById` finds the first element in document order that carries it |
| SceneProperties.EmptyRefIdUndefined | src/scene.ts:54 | a `ref` with `id=""` resolves to nothing, so the walk cannot complete |
| SceneProperties.ForwardRefResolvesToItself | src/scene.ts:51-55 | a childless `ref` with a non-empty id that precedes every other element carrying that id resolves to itself and leaves the shape unchanged |
| Camera.TransformIntoCamera | src/scene.ts:83-89 | position, direction and up are columns 3, 2 and 1 of the row-major matrix (indices 3/7/11, 2/6/10, 1/5/9). Each entry is defined exactly when its index lies inside the array, so all are defined once it has 12 entries |
| Camera.OtherEntriesIgnored | src/scene.ts:83-89 | changing an entry outside the nine camera indices does not change the frame |
| Camera.FrameRoundTrip | src/scene.ts:83-89 | the frame read from a matrix built from a position, direction and up vector gives back exactly those vectors |

## Left out

- `DOMParser` (src/scene.ts:20-21): XML text parsing is a browser library. The model starts from the parsed element tree.
- `parseFloat` numerics: numbers stay symbolic as `ParsedFrom(text)`, so equal `Num` values mean the same source text, not merely equal floats. The loader does no arithmetic.
- Thrown errors are not modelled as values. Their causes are preconditions: a missing `value` attribute, an `emitter` or `transform` without children, a `ref` whose id no element has, and a `ref` cycle that overflows the stack.
- `getElementById` in the model matches only the `id` attribute. Other ID-typed attributes declared by a DTD are not modelled.
- Namespace-prefixed tags are not modelled. One `tag` field stands both for `nodeName` (the qualified name the `parseShape` and `parseBsdf` comparisons use) and for the local name `querySelectorAll("shape")` matches. For an element such as `<m:shape>` the two differ.
- The `as Shape` cast (src/scene.ts:77) checks nothing at run time. The model keeps the shape's keys as they were built, with absent and `undefined` keys distinguished.
- src/main.ts and src/webgl.ts: WebGL context, shader, buffer and framebuffer setup and the render loop are GPU plumbing with no loader logic.
