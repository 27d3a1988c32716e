/** The recursion shared by both `recursive_bezier` routines: after the depth
    guard a level decides, from its own control points, to append one point,
    to stop, or to subdivide and recurse on the left half and then on the
    right half, one level deeper each. The curve type, the decision and the
    subdivision are parameters; each flattener supplies its own. */
module Recursion {
  import opened Geometry
  import opened Settings

  /** The points offered to `add_segment` by the call at `depth` on the
      control points c, in order: the left half's before the right half's.
      Nothing below depth RecursionLimit + 1 runs, so at most
      2^(RecursionLimit - depth) points are offered. */
  function Offered<C>(decide: C -> Decision, split: C -> (C, C), c: C, depth: nat): (r: seq<Point>)
    ensures depth > RecursionLimit ==> r == []
    ensures depth <= RecursionLimit ==> |r| <= Pow2(RecursionLimit - depth)
    decreases RecursionLimit - depth
  {
    if depth > RecursionLimit then []
    else
      match decide(c)
      case AppendAndStop(p) => [p]
      case StopStraight => []
      case Subdivide =>
        Offered(decide, split, split(c).0, depth + 1) + Offered(decide, split, split(c).1, depth + 1)
  }

  /** `inside` holds of a curve's control points and is inherited by both
      halves, and every appended point of such a curve satisfies `ok`. */
  ghost predicate Preserves<C(!new)>(decide: C -> Decision, split: C -> (C, C), inside: C -> bool, ok: Point -> bool) {
    forall q :: inside(q) ==>
      inside(split(q).0) && inside(split(q).1) && (decide(q).AppendAndStop? ==> ok(decide(q).p))
  }

  /** Every offered point satisfies `ok` when the first curve is `inside`. */
  lemma {:induction false} OfferedSatisfy<C(!new)>(decide: C -> Decision, split: C -> (C, C), inside: C -> bool,
      ok: Point -> bool, c: C, depth: nat)
    requires Preserves(decide, split, inside, ok) && inside(c)
    ensures forall p :: p in Offered(decide, split, c, depth) ==> ok(p)
    decreases RecursionLimit - depth, 1
  {
    if depth > RecursionLimit {
      assert Offered(decide, split, c, depth) == [];
    } else if decide(c).AppendAndStop? {
      assert Offered(decide, split, c, depth) == [decide(c).p];
    } else if decide(c).StopStraight? {
      assert Offered(decide, split, c, depth) == [];
    } else {
      HalvesSatisfy(decide, split, inside, ok, c, depth);
    }
  }

  lemma {:induction false} HalvesSatisfy<C(!new)>(decide: C -> Decision, split: C -> (C, C), inside: C -> bool,
      ok: Point -> bool, c: C, depth: nat)
    requires Preserves(decide, split, inside, ok) && inside(c)
    requires depth <= RecursionLimit && decide(c).Subdivide?
    ensures forall p :: p in Offered(decide, split, c, depth) ==> ok(p)
    decreases RecursionLimit - depth, 0
  {
    var (left, right) := split(c);
    OfferedSatisfy(decide, split, inside, ok, left, depth + 1);
    OfferedSatisfy(decide, split, inside, ok, right, depth + 1);
    assert Offered(decide, split, c, depth) ==
      Offered(decide, split, left, depth + 1) + Offered(decide, split, right, depth + 1);
  }

  function SeqReverse(s: seq<Point>): (r: seq<Point>)
    ensures |r| == |s|
  {
    if s == [] then [] else SeqReverse(s[1..]) + [s[0]]
  }

  lemma {:induction false} SeqReverseConcat(a: seq<Point>, b: seq<Point>)
    ensures SeqReverse(a + b) == SeqReverse(b) + SeqReverse(a)
    decreases |a|
  {
    if a == [] {
      assert a + b == b;
    } else {
      assert (a + b)[1..] == a[1..] + b;
      SeqReverseConcat(a[1..], b);
    }
  }

  /** Reversing the control points leaves every decision unchanged and
      turns the halves into the reversed halves, swapped. */
  ghost predicate Mirrored<C(!new)>(decide: C -> Decision, split: C -> (C, C), reverse: C -> C) {
    (forall q {:trigger reverse(q)} :: decide(reverse(q)) == decide(q)) &&
    (forall q {:trigger split(reverse(q))} :: split(reverse(q)) == (reverse(split(q).1), reverse(split(q).0)))
  }

  /** Flattening the reversed control points offers the same points in
      reverse order. */
  lemma {:induction false} OfferedReverse<C(!new)>(decide: C -> Decision, split: C -> (C, C), reverse: C -> C,
      c: C, depth: nat)
    requires Mirrored(decide, split, reverse)
    ensures Offered(decide, split, reverse(c), depth) == SeqReverse(Offered(decide, split, c, depth))
    decreases RecursionLimit - depth, 1
  {
    assert decide(reverse(c)) == decide(c);
    if depth > RecursionLimit {
      assert Offered(decide, split, c, depth) == [];
    } else if decide(c).AppendAndStop? {
      var p := decide(c).p;
      assert Offered(decide, split, c, depth) == [p];
      assert Offered(decide, split, reverse(c), depth) == [p];
      assert SeqReverse([p]) == [p];
    } else if decide(c).StopStraight? {
      assert Offered(decide, split, c, depth) == [];
    } else {
      HalvesReverse(decide, split, reverse, c, depth);
    }
  }

  lemma {:induction false} HalvesReverse<C(!new)>(decide: C -> Decision, split: C -> (C, C), reverse: C -> C,
      c: C, depth: nat)
    requires Mirrored(decide, split, reverse)
    requires depth <= RecursionLimit && decide(c).Subdivide?
    ensures Offered(decide, split, reverse(c), depth) == SeqReverse(Offered(decide, split, c, depth))
    decreases RecursionLimit - depth, 0
  {
    var (left, right) := split(c);
    assert split(reverse(c)) == (reverse(right), reverse(left));
    var l, r := Offered(decide, split, left, depth + 1), Offered(decide, split, right, depth + 1);
    OfferedReverse(decide, split, reverse, left, depth + 1);
    OfferedReverse(decide, split, reverse, right, depth + 1);
    SeqReverseConcat(l, r);
    assert Offered(decide, split, c, depth) == l + r;
    assert decide(reverse(c)) == decide(c);
    assert Offered(decide, split, reverse(c), depth) ==
      Offered(decide, split, reverse(right), depth + 1) + Offered(decide, split, reverse(left), depth + 1);
  }
}
