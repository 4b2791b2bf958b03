/**
 Text handling used by the scene loader: `String.prototype.split(" ")` and
 `parseFloat`.

 Numbers are kept symbolic. `ParsedFrom(t)` stands for the value that
 `parseFloat(t)` yields; no floating-point arithmetic happens in the loader,
 so the model only has to track which text each number was read from.
 */
module Text {

  /** The number `parseFloat` reads from `text`. */
  datatype Num = ParsedFrom(text: string)

  /** The text `parseFloat` sees when it is handed `undefined`: JavaScript
      converts the argument to a string before parsing. */
  const Undefined: string := "undefined"

  /** Number of space characters in `s`. */
  function Spaces(s: string): nat {
    if |s| == 0 then 0 else (if s[0] == ' ' then 1 else 0) + Spaces(s[1..])
  }

  /** `s.split(" ")`: the maximal space-free pieces between single spaces.
      Two consecutive spaces give an empty field, and the empty string
      splits into one empty field. */
  function SplitOnSpace(s: string): (fields: seq<string>)
    ensures |fields| == Spaces(s) + 1
    ensures forall i :: 0 <= i < |fields| ==> ' ' !in fields[i]
  {
    if |s| == 0 then [""]
    else if s[0] == ' ' then [""] + SplitOnSpace(s[1..])
    else
      var rest := SplitOnSpace(s[1..]);
      [[s[0]] + rest[0]] + rest[1..]
  }

  /** `fields.join(" ")`, the inverse of `SplitOnSpace`. */
  function JoinWithSpace(fields: seq<string>): string
    requires |fields| >= 1
  {
    if |fields| == 1 then fields[0] else fields[0] + " " + JoinWithSpace(fields[1..])
  }

  /** `fields[i]`, where an index past the end yields `undefined`, seen by
      `parseFloat` as the text "undefined". */
  function FieldOrUndefined(fields: seq<string>, i: nat): (t: string)
    ensures i < |fields| ==> t == fields[i]
    ensures i >= |fields| ==> t == Undefined
  {
    if i < |fields| then fields[i] else Undefined
  }

  /** Splitting then joining gives back the original text. */
  lemma {:induction false} JoinSplit(s: string)
    ensures JoinWithSpace(SplitOnSpace(s)) == s
    decreases |s|
  {
    if |s| == 0 {
    } else if s[0] == ' ' {
      JoinSplit(s[1..]);
      assert s == [' '] + s[1..];
    } else {
      var rest := SplitOnSpace(s[1..]);
      JoinSplit(s[1..]);
      if |rest| == 1 {
        assert s == [s[0]] + rest[0];
      } else {
        assert JoinWithSpace(rest) == rest[0] + " " + JoinWithSpace(rest[1..]);
        assert s == [s[0]] + s[1..];
      }
    }
  }

  /** Joining space-free fields then splitting gives back the fields. */
  lemma {:induction false} SplitJoin(fields: seq<string>)
    requires |fields| >= 1
    requires forall i :: 0 <= i < |fields| ==> ' ' !in fields[i]
    ensures SplitOnSpace(JoinWithSpace(fields)) == fields
    decreases |fields|, |fields[0]|
  {
    if |fields[0]| == 0 {
      if |fields| == 1 {
      } else {
        var tail := JoinWithSpace(fields[1..]);
        assert JoinWithSpace(fields) == " " + tail;
        SplitJoin(fields[1..]);
        assert (" " + tail)[1..] == tail;
      }
    } else {
      var f := fields[0];
      var shorter := [f[1..]] + fields[1..];
      assert forall i :: 0 <= i < |shorter| ==> ' ' !in shorter[i] by {
        forall i | 0 <= i < |shorter| ensures ' ' !in shorter[i] {
          if i == 0 {
            assert forall c :: c in f[1..] ==> c in f;
          } else {
            assert shorter[i] == fields[i];
          }
        }
      }
      SplitJoin(shorter);
      assert shorter[1..] == fields[1..];
      var j := JoinWithSpace(fields);
      assert JoinWithSpace(shorter) == j[1..] by {
        if |fields| == 1 {
        } else {
          assert j == f + " " + JoinWithSpace(fields[1..]);
        }
      }
      assert j[0] == f[0] != ' ';
      assert [f[0]] + f[1..] == f;
    }
  }

  /** Splitting `a + " " + b` splits both halves independently. */
  lemma {:induction false} SplitAppend(a: string, b: string)
    ensures SplitOnSpace(a + " " + b) == SplitOnSpace(a) + SplitOnSpace(b)
    decreases |a|
  {
    if |a| == 0 {
      assert a + " " + b == " " + b;
      assert (" " + b)[1..] == b;
    } else {
      SplitAppend(a[1..], b);
      assert (a + " " + b)[1..] == a[1..] + " " + b;
      assert (a + " " + b)[0] == a[0];
    }
  }
}
