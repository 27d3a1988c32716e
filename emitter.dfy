/** The `add_segment` rule: a point is appended to the output buffer unless
    it equals the buffer's current last point. */
module Emitter {
  import opened Geometry

  /** No two neighbouring points are equal. */
  ghost predicate NoStutter(s: seq<Point>) {
    forall i, j :: 0 <= i < j < |s| && j == i + 1 ==> s[i] != s[j]
  }

  /** One `add_segment(p)` on a buffer that already holds a point: afterwards
      p is the last point, the old buffer is kept as a prefix, and the buffer
      grew by one exactly when p differed from the old last point. */
  function AddSegment(buf: seq<Point>, p: Point): (r: seq<Point>)
    requires buf != []
    ensures r != [] && r[|r| - 1] == p
    ensures |buf| <= |r| <= |buf| + 1 && r[..|buf|] == buf
    ensures |r| == |buf| <==> buf[|buf| - 1] == p
    ensures NoStutter(buf) ==> NoStutter(r)
  {
    if buf[|buf| - 1] != p then buf + [p] else buf
  }

  /** `add_segment` applied to every point of s, in order. */
  function AddSegments(buf: seq<Point>, s: seq<Point>): (r: seq<Point>)
    requires buf != []
    ensures r != [] && |buf| <= |r| <= |buf| + |s| && r[..|buf|] == buf
    ensures s != [] ==> r[|r| - 1] == s[|s| - 1]
    ensures s == [] ==> r == buf
    decreases |s|
  {
    if s == [] then buf else AddSegments(AddSegment(buf, s[0]), s[1..])
  }

  /** Every point the buffer gains is one of the offered points. */
  lemma {:induction false} AddSegmentsFrom(buf: seq<Point>, s: seq<Point>)
    requires buf != []
    ensures forall i :: |buf| <= i < |AddSegments(buf, s)| ==> AddSegments(buf, s)[i] in s
    decreases |s|
  {
    if s != [] {
      var next := AddSegment(buf, s[0]);
      AddSegmentsFrom(next, s[1..]);
      var r := AddSegments(buf, s);
      assert r == AddSegments(next, s[1..]);
      forall i | |buf| <= i < |r| ensures r[i] in s {
        if i < |next| {
          assert r[..|next|] == next;
          assert r[i] == next[i] == s[0];
        } else {
          assert r[i] in s[1..];
        }
      }
    }
  }

  /** A buffer without neighbouring duplicates keeps that property. */
  lemma {:induction false} AddSegmentsNoStutter(buf: seq<Point>, s: seq<Point>)
    requires buf != [] && NoStutter(buf)
    ensures NoStutter(AddSegments(buf, s))
    decreases |s|
  {
    if s != [] {
      AddSegmentsNoStutter(AddSegment(buf, s[0]), s[1..]);
    }
  }

  /** Appending a concatenation is appending its parts one after the other:
      every point of a is offered to the buffer before any point of b. */
  lemma {:induction false} AddSegmentsConcat(buf: seq<Point>, a: seq<Point>, b: seq<Point>)
    requires buf != []
    ensures AddSegments(buf, a + b) == AddSegments(AddSegments(buf, a), b)
    decreases |a|
  {
    if a == [] {
      assert a + b == b;
    } else {
      assert (a + b)[0] == a[0];
      assert (a + b)[1..] == a[1..] + b;
      AddSegmentsConcat(AddSegment(buf, a[0]), a[1..], b);
    }
  }

  /** Offering the buffer's only point again leaves it unchanged. */
  lemma RepeatedPointDropped(p: Point)
    ensures AddSegments([p], [p]) == [p]
  {
    assert [p][1..] == [];
  }
}
