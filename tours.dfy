/**
 * Cities, arrows and the length of a path or of a closed tour.  The Euclidean distance of
 * the program is a parameter `dist` of the model: nothing here depends on how it is computed.
 */
module Tours {
  import opened Seqs

  /** A city, with integer canvas coordinates. */
  datatype Point = Point(x: int, y: int)

  /** An arrow drawn from one city to another. */
  datatype Arrow = Arrow(from: Point, to: Point)

  /** The distance between two cities. */
  type Cost = (Point, Point) -> real

  /** The distance from `p` to `q` is the distance from `q` to `p`. */
  ghost predicate Symmetric(dist: Cost)
  {
    forall p, q :: dist(p, q) == dist(q, p)
  }

  /** The sum of the distances between consecutive points of `s`. */
  function PathLength(s: seq<Point>, dist: Cost): real
  {
    if |s| <= 1 then 0.0 else PathLength(s[..|s| - 1], dist) + dist(s[|s| - 2], s[|s| - 1])
  }

  /** The length of `s` closed into a cycle: the path plus the distance from its first point to its last. */
  function ClosedLength(s: seq<Point>, dist: Cost): real
    requires |s| > 0
  {
    PathLength(s, dist) + dist(s[0], Last(s))
  }

  /** Appending a point lengthens the path by exactly the distance from the old last point to it. */
  lemma PathLengthAppend(s: seq<Point>, p: Point, dist: Cost)
    requires |s| > 0
    ensures PathLength(s + [p], dist) == PathLength(s, dist) + dist(Last(s), p)
  {
    assert (s + [p])[..|s|] == s;
  }

  /** One arrow per consecutive pair of points. */
  function PathArrows(s: seq<Point>): (r: seq<Arrow>)
    ensures |r| == if s == [] then 0 else |s| - 1
  {
    if |s| <= 1 then [] else seq(|s| - 1, i requires 0 <= i < |s| - 1 => Arrow(s[i], s[i + 1]))
  }

  /** The arrows of the closed tour `s`: its path arrows and the one from its last point back to its first. */
  function CycleArrows(s: seq<Point>): (r: seq<Arrow>)
    requires |s| > 0
    ensures |r| == |s|
    ensures forall i :: 0 <= i < |s| ==> r[i] == Arrow(s[i], s[(i + 1) % |s|])
  {
    var r := PathArrows(s) + [Arrow(Last(s), s[0])];
    assert forall i :: 0 <= i < |s| ==> r[i] == Arrow(s[i], s[(i + 1) % |s|]) by {
      forall i | 0 <= i < |s| ensures r[i] == Arrow(s[i], s[(i + 1) % |s|]) {
        NextIndex(i, |s|);
      }
    }
    r
  }

  /** The index after `i` in a cyclic sequence of length `n`. */
  lemma NextIndex(i: nat, n: nat)
    requires i < n
    ensures (i + 1) % n == if i + 1 < n then i + 1 else 0
  {
  }

  /** The total length of a list of arrows. */
  function ArrowsCost(arrows: seq<Arrow>, dist: Cost): real
  {
    if arrows == [] then 0.0
    else ArrowsCost(arrows[..|arrows| - 1], dist) + dist(Last(arrows).from, Last(arrows).to)
  }

  /** The arrows of a path add up to its length. */
  lemma {:induction false} PathArrowsCost(s: seq<Point>, dist: Cost)
    ensures ArrowsCost(PathArrows(s), dist) == PathLength(s, dist)
  {
    if |s| > 1 {
      var s' := s[..|s| - 1];
      PathArrowsCost(s', dist);
      var a := PathArrows(s);
      assert a[..|a| - 1] == PathArrows(s');
    }
  }

  /** The arrows of a closed tour add up to its closed length (for a symmetric distance). */
  lemma CycleArrowsCost(s: seq<Point>, dist: Cost)
    requires |s| > 0 && Symmetric(dist)
    ensures ArrowsCost(CycleArrows(s), dist) == ClosedLength(s, dist)
  {
    var a := CycleArrows(s);
    assert a[..|a| - 1] == PathArrows(s);
    PathArrowsCost(s, dist);
    assert dist(Last(s), s[0]) == dist(s[0], Last(s));
  }
}
