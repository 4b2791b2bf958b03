/**
 `transformIntoCamera` (src/scene.ts): a camera frame read from a
 row-major 4x4 matrix given as a flat array. Indexing past the end of a
 JavaScript array yields `undefined`, modelled as `None`, so a short array
 is not an error. The entry type is left generic: nothing is computed on
 the entries, they are only copied.
 */
module Camera {
  import opened Wrappers

  /** `m[i]`, or `None` (`undefined`) past the end. */
  function At<T>(m: seq<T>, i: nat): (r: Option<T>)
    ensures r.Some? <==> i < |m|
    ensures i < |m| ==> r.value == m[i]
  {
    if i < |m| then Some(m[i]) else None
  }

  datatype Frame<T> = Frame(position: seq<Option<T>>, direction: seq<Option<T>>, up: seq<Option<T>>)

  /** The upper three entries of column `j` of a row-major 4x4 matrix. */
  function Column<T>(m: seq<T>, j: nat): (col: seq<Option<T>>)
    requires j < 4
    ensures |col| == 3
    ensures forall row :: 0 <= row < 3 ==> col[row] == At(m, 4 * row + j)
  {
    [At(m, j), At(m, 4 + j), At(m, 8 + j)]
  }

  /** `transformIntoCamera(matrix)`: the position is the fourth column (the
      translation), the direction the third and the up vector the second. */
  function TransformIntoCamera<T>(m: seq<T>): (f: Frame<T>)
    ensures f.position == Column(m, 3)
    ensures f.direction == Column(m, 2)
    ensures f.up == Column(m, 1)
    ensures forall k :: 0 <= k < 3 ==>
      (f.position[k].Some? <==> 4 * k + 3 < |m|) && (f.direction[k].Some? <==> 4 * k + 2 < |m|)
      && (f.up[k].Some? <==> 4 * k + 1 < |m|)
    ensures |m| >= 12 ==> forall k :: 0 <= k < 3 ==>
      f.position[k] == Some(m[4 * k + 3]) && f.direction[k] == Some(m[4 * k + 2]) && f.up[k] == Some(m[4 * k + 1])
  {
    Frame([At(m, 3), At(m, 7), At(m, 11)],
          [At(m, 2), At(m, 6), At(m, 10)],
          [At(m, 1), At(m, 5), At(m, 9)])
  }

  /** The flat indices `transformIntoCamera` reads. */
  predicate IsCameraIndex(i: nat) {
    i < 12 && i % 4 != 0
  }

  /** Changing an entry at any other index leaves the frame unchanged. */
  lemma OtherEntriesIgnored<T>(m: seq<T>, i: nat, v: T)
    requires i < |m| && !IsCameraIndex(i)
    ensures TransformIntoCamera(m[i := v]) == TransformIntoCamera(m)
  {
  }

  /** The row-major matrix whose columns 1, 2 and 3 are `up`, `direction`
      and `position` and whose column 0 and bottom row are `other`. */
  function FrameMatrix<T>(position: seq<T>, direction: seq<T>, up: seq<T>, other: seq<T>): (m: seq<T>)
    requires |position| == 3 && |direction| == 3 && |up| == 3 && |other| == 7
    ensures |m| == 16
  {
    [other[0], up[0], direction[0], position[0],
     other[1], up[1], direction[1], position[1],
     other[2], up[2], direction[2], position[2],
     other[3], other[4], other[5], other[6]]
  }

  /** `transformIntoCamera` recovers the three columns a frame matrix was
      built from, whatever the other entries are. */
  lemma FrameRoundTrip<T>(position: seq<T>, direction: seq<T>, up: seq<T>, other: seq<T>)
    requires |position| == 3 && |direction| == 3 && |up| == 3 && |other| == 7
    ensures var f := TransformIntoCamera(FrameMatrix(position, direction, up, other));
      && f.position == [Some(position[0]), Some(position[1]), Some(position[2])]
      && f.direction == [Some(direction[0]), Some(direction[1]), Some(direction[2])]
      && f.up == [Some(up[0]), Some(up[1]), Some(up[2])]
  {
  }
}
