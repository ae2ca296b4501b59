/**
 * What the beam search computes, level by level, as functions of its input: the candidates
 * of a level, the ones that survive pruning, the beams of every level, the tour it selects
 * and the arrows it records for the animation.  The imperative engine is proved against
 * these functions; the lemmas here state what the search promises.
 */
module BeamSpec {
  import opened Seqs
  import opened Ranking
  import opened Tours

  /** A beam paired with a point it has not visited yet. */
  datatype Candidate = Candidate(beam: seq<Point>, next: Point)

  /** The tour the search selects, with its closed length. */
  datatype Tour = Tour(points: seq<Point>, length: real)

  /** The guard clause: a non-empty point list and a width with `0 < width < |points|`. */
  predicate Accepts(points: seq<Point>, width: int)
  {
    |points| > 0 && 0 < width < |points|
  }

  predicate NonEmpty(beams: seq<seq<Point>>)
  {
    forall i :: 0 <= i < |beams| ==> |beams[i]| > 0
  }

  predicate NonEmptyBeams(cs: seq<Candidate>)
  {
    forall i :: 0 <= i < |cs| ==> |cs[i].beam| > 0
  }

  /** The candidates one beam offers: the points it has not visited, in input order. */
  function CandidatesOf(beam: seq<Point>, points: seq<Point>): (r: seq<Candidate>)
    ensures forall i :: 0 <= i < |r| ==> r[i].beam == beam
  {
    if |points| == 0 then []
    else
      var rest := points[..|points| - 1];
      CandidatesOf(beam, rest) + (if Last(points) in beam then [] else [Candidate(beam, Last(points))])
  }

  /** A beam offers exactly its unvisited points. */
  lemma {:induction false} CandidatesOfExact(beam: seq<Point>, points: seq<Point>, c: Candidate)
    ensures c in CandidatesOf(beam, points) <==> c.beam == beam && c.next in points && c.next !in beam
  {
    if points != [] {
      var rest := points[..|points| - 1];
      assert c.next in points <==> c.next in rest || c.next == Last(points);
      CandidatesOfExact(beam, rest, c);
    }
  }

  /** The candidates of a level: beam by beam, and for each beam its unvisited points in input order. */
  function Candidates(beams: seq<seq<Point>>, points: seq<Point>): (r: seq<Candidate>)
    ensures NonEmpty(beams) ==> NonEmptyBeams(r)
  {
    if |beams| == 0 then []
    else
      var rest := beams[..|beams| - 1];
      assert NonEmpty(beams) ==> NonEmpty(rest);
      Candidates(rest, points) + CandidatesOf(Last(beams), points)
  }

  /** Every candidate of a level pairs one of its beams with a point that beam has not visited. */
  lemma {:induction false} CandidatesSound(beams: seq<seq<Point>>, points: seq<Point>, c: Candidate)
    requires c in Candidates(beams, points)
    ensures c.beam in beams && c.next in points && c.next !in c.beam
  {
    var rest := beams[..|beams| - 1];
    if c in Candidates(rest, points) {
      CandidatesSound(rest, points, c);
      assert forall b :: b in rest ==> b in beams;
    } else {
      CandidatesOfExact(Last(beams), points, c);
    }
  }

  /** Every beam offers every point it has not visited. */
  lemma {:induction false} CandidatesComplete(beams: seq<seq<Point>>, points: seq<Point>, i: nat, p: Point)
    requires i < |beams| && p in points && p !in beams[i]
    ensures Candidate(beams[i], p) in Candidates(beams, points)
  {
    var rest := beams[..|beams| - 1];
    if i < |beams| - 1 {
      assert rest[i] == beams[i];
      CandidatesComplete(rest, points, i, p);
    } else {
      CandidatesOfExact(beams[i], points, Candidate(beams[i], p));
    }
  }

  /** The ranking key: the beam's length so far plus the step to the new point. */
  function Key(c: Candidate, dist: Cost): real
    requires |c.beam| > 0
  {
    PathLength(c.beam, dist) + dist(Last(c.beam), c.next)
  }

  /** The key of every candidate, in generation order. */
  function Keys(cs: seq<Candidate>, dist: Cost): seq<real>
    requires NonEmptyBeams(cs)
  {
    seq(|cs|, i requires 0 <= i < |cs| => Key(cs[i], dist))
  }

  /** A sequence holding the key of each candidate, in order, is `Keys`. */
  lemma KeysPointwise(cs: seq<Candidate>, dist: Cost, keys: seq<real>)
    requires NonEmptyBeams(cs) && |keys| == |cs|
    requires forall t :: 0 <= t < |cs| ==> keys[t] == Key(cs[t], dist)
    ensures keys == Keys(cs, dist)
  {
  }

  /** The indices of the candidates kept: the first `width` of the stable ranking by key. */
  function Kept(cs: seq<Candidate>, width: int, dist: Cost): (r: seq<nat>)
    requires NonEmptyBeams(cs)
    ensures |r| == TakeCount(width, |cs|)
    ensures forall i :: 0 <= i < |r| ==> r[i] < |cs|
    ensures forall i, j :: 0 <= i < j < |r| ==> r[i] != r[j]
  {
    Rank(Keys(cs, dist))[..TakeCount(width, |cs|)]
  }

  /**
   * Pruning keeps the best: every candidate left out ranks after every one kept, by a
   * larger key or by an equal key and a later place in generation order.
   */
  lemma DroppedRankLater(cs: seq<Candidate>, width: int, dist: Cost, j: nat)
    requires NonEmptyBeams(cs) && j < |cs| && j !in Kept(cs, width, dist)
    ensures forall i :: 0 <= i < |Kept(cs, width, dist)| ==>
      var k := Kept(cs, width, dist)[i];
      k < |cs| && j != k &&
      (Key(cs[k], dist) < Key(cs[j], dist) || (Key(cs[k], dist) == Key(cs[j], dist) && k < j))
  {
    var order := Rank(Keys(cs, dist));
    var m := TakeCount(width, |cs|);
    assert j in order;
    var t :| 0 <= t < |order| && order[t] == j;
    assert t >= m;
    forall i | 0 <= i < m
      ensures Precedes(Keys(cs, dist), order[i], j)
    {
      assert order[t] == j;
    }
  }

  /** The surviving candidates, in ranked order: the i-th is the candidate ranked i-th. */
  function Survivors(cs: seq<Candidate>, width: int, dist: Cost): (r: seq<Candidate>)
    requires NonEmptyBeams(cs)
    ensures |r| == TakeCount(width, |cs|)
    ensures NonEmptyBeams(r)
  {
    var r := seq(TakeCount(width, |cs|), i requires 0 <= i < TakeCount(width, |cs|) => cs[Rank(Keys(cs, dist))[i]]);
    assert forall i :: 0 <= i < |r| ==> r[i] in cs by {
      var order := Rank(Keys(cs, dist));
      assert forall i :: 0 <= i < |r| ==> r[i] == cs[order[i]] && order[i] < |cs|;
    }
    r
  }

  /** Every survivor is one of the candidates. */
  lemma SurvivorIsCandidate(cs: seq<Candidate>, width: int, dist: Cost, i: nat)
    requires NonEmptyBeams(cs) && i < TakeCount(width, |cs|)
    ensures Survivors(cs, width, dist)[i] in cs
  {
    assert Survivors(cs, width, dist)[i] == cs[Rank(Keys(cs, dist))[i]];
  }

  /** One level: the survivors, each beam copied and extended by its candidate point. */
  function Level(beams: seq<seq<Point>>, points: seq<Point>, width: int, dist: Cost): (r: seq<seq<Point>>)
    requires NonEmpty(beams)
    ensures NonEmpty(r)
  {
    var s := Survivors(Candidates(beams, points), width, dist);
    seq(|s|, i requires 0 <= i < |s| => s[i].beam + [s[i].next])
  }

  /** The arrows of one level: from each surviving beam's last point to its candidate point. */
  function LevelArrows(beams: seq<seq<Point>>, points: seq<Point>, width: int, dist: Cost): seq<Arrow>
    requires NonEmpty(beams)
  {
    var s := Survivors(Candidates(beams, points), width, dist);
    seq(|s|, i requires 0 <= i < |s| => Arrow(Last(s[i].beam), s[i].next))
  }

  /** The beams after `k` levels, starting from the single beam holding the first point. */
  function BeamsAfter(points: seq<Point>, width: int, dist: Cost, k: nat): (r: seq<seq<Point>>)
    requires |points| > 0
    ensures NonEmpty(r)
  {
    if k == 0 then [[points[0]]] else Level(BeamsAfter(points, width, dist, k - 1), points, width, dist)
  }

  /** The arrows recorded at level `j`, as a function of `j`. */
  function ArrowsOfLevel(points: seq<Point>, width: int, dist: Cost): int -> seq<Arrow>
  {
    j => if |points| > 0 && j >= 0 then LevelArrows(BeamsAfter(points, width, dist, j), points, width, dist) else []
  }

  /** The arrow lists of the first `k` levels. */
  function LevelTrace(points: seq<Point>, width: int, dist: Cost, k: nat): (r: seq<seq<Arrow>>)
    ensures |r| == k
  {
    seq(k, ArrowsOfLevel(points, width, dist))
  }

  /** A tabulated sequence of one more element ends with the function at its last index. */
  lemma Tabulate<T>(f: int -> T, k: nat)
    ensures seq(k + 1, f) == seq(k, f) + [f(k)]
  {
    forall i | 0 <= i < k + 1 ensures seq(k + 1, f)[i] == (seq(k, f) + [f(k)])[i] {
      assert seq(k + 1, f)[i] == f(i);
      if i < k {
        assert seq(k, f)[i] == f(i);
      }
    }
  }

  /** Each level adds exactly one arrow list, the arrows of that level, at the end of the trace. */
  lemma LevelTraceGrows(points: seq<Point>, width: int, dist: Cost, k: nat)
    requires |points| > 0
    ensures LevelTrace(points, width, dist, k + 1) ==
      LevelTrace(points, width, dist, k) + [LevelArrows(BeamsAfter(points, width, dist, k), points, width, dist)]
  {
    Tabulate(ArrowsOfLevel(points, width, dist), k);
  }

  /** The `j`-th list of the trace holds the arrows of level `j`. */
  lemma LevelTraceAt(points: seq<Point>, width: int, dist: Cost, k: nat, j: nat)
    requires |points| > 0 && j < k
    ensures LevelTrace(points, width, dist, k)[j] == LevelArrows(BeamsAfter(points, width, dist, j), points, width, dist)
  {
  }

  /** The beams of level `k`: at least one, each of length `k + 1`, from the first point, no repeats. */
  predicate WellShaped(points: seq<Point>, beams: seq<seq<Point>>, k: nat)
  {
    |points| > 0 && |beams| > 0 &&
    forall i :: 0 <= i < |beams| ==>
      |beams[i]| == k + 1 && beams[i][0] == points[0] && Distinct(beams[i]) && IncludedIn(beams[i], points)
  }

  /**
   * Every level up to the last keeps a non-empty beam list whose beams all have the same
   * length, one more than the level number, start at the first point and hold no repeats.
   */
  lemma {:induction false} BeamShape(points: seq<Point>, width: int, dist: Cost, k: nat)
    requires Distinct(points) && Accepts(points, width) && k < |points|
    ensures WellShaped(points, BeamsAfter(points, width, dist, k), k)
  {
    if k == 0 {
      var b := [points[0]];
      assert BeamsAfter(points, width, dist, 0) == [b];
      assert Distinct(b) && IncludedIn(b, points);
    } else {
      var prev := BeamsAfter(points, width, dist, k - 1);
      BeamShape(points, width, dist, k - 1);
      LevelShape(points, prev, width, dist, k);
    }
  }

  /** After the first level the beam list never holds more than `width` beams, and never none. */
  lemma BeamCount(points: seq<Point>, width: int, dist: Cost, k: nat)
    requires Distinct(points) && Accepts(points, width) && 0 < k < |points|
    ensures 1 <= |BeamsAfter(points, width, dist, k)| <= width
  {
    var prev := BeamsAfter(points, width, dist, k - 1);
    BeamShape(points, width, dist, k - 1);
    LevelShape(points, prev, width, dist, k);
    Unfold(points, width, dist, k);
  }

  /** Each level after the first is computed from the one before. */
  lemma Unfold(points: seq<Point>, width: int, dist: Cost, k: nat)
    requires |points| > 0 && k > 0
    ensures BeamsAfter(points, width, dist, k) == Level(BeamsAfter(points, width, dist, k - 1), points, width, dist)
  {
  }

  /** One level turns well-shaped beams of length `k` into at most `width` well-shaped beams of length `k + 1`. */
  lemma LevelShape(points: seq<Point>, prev: seq<seq<Point>>, width: int, dist: Cost, k: nat)
    requires Distinct(points) && Accepts(points, width) && 0 < k < |points|
    requires WellShaped(points, prev, k - 1)
    ensures WellShaped(points, Level(prev, points, width, dist), k)
    ensures |Level(prev, points, width, dist)| <= width
  {
    var cs := Candidates(prev, points);
    var p := MissingElement(prev[0], points);
    CandidatesComplete(prev, points, 0, p);
    var s := Survivors(cs, width, dist);
    var r := Level(prev, points, width, dist);
    assert |r| == |s| > 0;
    forall i | 0 <= i < |r|
      ensures |r[i]| == k + 1 && r[i][0] == points[0] && Distinct(r[i]) && IncludedIn(r[i], points)
    {
      assert r[i] == s[i].beam + [s[i].next];
      SurvivorIsCandidate(cs, width, dist, i);
      CandidatesSound(prev, points, s[i]);
      var j :| 0 <= j < |prev| && prev[j] == s[i].beam;
    }
  }

  /** The tour condition: a reordering of `points`, each visited once, starting at the first one. */
  predicate IsTourOf(t: seq<Point>, points: seq<Point>)
  {
    |t| == |points| && |t| > 0 && t[0] == points[0] && Distinct(t) &&
    IncludedIn(points, t) && IncludedIn(t, points)
  }

  /** The beams when the loop stops, after `|points| - 1` levels. */
  function FinalBeams(points: seq<Point>, width: int, dist: Cost): (r: seq<seq<Point>>)
    requires |points| > 0
    ensures NonEmpty(r)
  {
    BeamsAfter(points, width, dist, |points| - 1)
  }

  /** `beams` is a non-empty list of beams of `n` points each. */
  predicate UniformLength(beams: seq<seq<Point>>, n: nat)
  {
    |beams| > 0 && forall i :: 0 <= i < |beams| ==> |beams[i]| == n
  }

  /** The beams of level `k` are at least one, of `k + 1` points each. */
  lemma BeamLengths(points: seq<Point>, width: int, dist: Cost, k: nat)
    requires Distinct(points) && Accepts(points, width) && k < |points|
    ensures UniformLength(BeamsAfter(points, width, dist, k), k + 1)
  {
    BeamShape(points, width, dist, k);
  }

  /** One more iteration of the search keeps its loop invariant. */
  lemma NextLevelInvariant(points: seq<Point>, width: int, dist: Cost, k: nat, prev: seq<seq<Point>>, next: seq<seq<Point>>,
                           arrows: seq<Arrow>, trace: seq<seq<Arrow>>)
    requires Distinct(points) && Accepts(points, width) && k < |points|
    requires prev == BeamsAfter(points, width, dist, k) && |prev| > 0 && |prev[0]| < |points|
    requires UniformLength(prev, k + 1)
    requires next == Level(prev, points, width, dist) && arrows == LevelArrows(prev, points, width, dist)
    requires trace == LevelTrace(points, width, dist, k)
    ensures k + 1 < |points|
    ensures next == BeamsAfter(points, width, dist, k + 1) && UniformLength(next, k + 2)
    ensures trace + [arrows] == LevelTrace(points, width, dist, k + 1)
  {
    Unfold(points, width, dist, k + 1);
    LevelTraceGrows(points, width, dist, k);
    BeamLengths(points, width, dist, k + 1);
  }

  /** Beams of `k + 1` points that already hold every point are those of the last level. */
  lemma StopsAtLastLevel(points: seq<Point>, k: nat, beams: seq<seq<Point>>)
    requires k < |points| && UniformLength(beams, k + 1) && |beams[0]| >= |points|
    ensures k == |points| - 1
  {
  }

  /** At the last level the beams are the final ones and the trace is complete. */
  lemma LastLevel(points: seq<Point>, width: int, dist: Cost, k: nat)
    requires k == |points| - 1
    ensures BeamsAfter(points, width, dist, k) == FinalBeams(points, width, dist)
    ensures LevelTrace(points, width, dist, k) == LevelTrace(points, width, dist, |points| - 1)
  {
  }

  /** When the loop stops every beam is a tour of the input. */
  lemma FinalBeamsAreTours(points: seq<Point>, width: int, dist: Cost)
    requires Distinct(points) && Accepts(points, width)
    ensures forall i :: 0 <= i < |FinalBeams(points, width, dist)| ==> IsTourOf(FinalBeams(points, width, dist)[i], points)
  {
    BeamShape(points, width, dist, |points| - 1);
    FullBeamsAreTours(points, FinalBeams(points, width, dist));
  }

  /** Well-shaped beams as long as the input are tours of it. */
  lemma FullBeamsAreTours(points: seq<Point>, beams: seq<seq<Point>>)
    requires Distinct(points) && |points| > 0 && WellShaped(points, beams, |points| - 1)
    ensures forall i :: 0 <= i < |beams| ==> IsTourOf(beams[i], points)
  {
    forall i | 0 <= i < |beams| ensures IsTourOf(beams[i], points) {
      SameLengthCovers(beams[i], points);
    }
  }

  /** The closed length of every beam, the keys of the final `OrderBy`. */
  function ClosedLengths(beams: seq<seq<Point>>, dist: Cost): seq<real>
    requires NonEmpty(beams)
  {
    seq(|beams|, i requires 0 <= i < |beams| => ClosedLength(beams[i], dist))
  }

  /** `OrderBy(Distance).First()` on closed beams: the first beam whose closed length is minimal. */
  function FirstShortest(beams: seq<seq<Point>>, dist: Cost): (i: nat)
    requires |beams| > 0 && NonEmpty(beams)
    ensures i < |beams|
    ensures forall j :: 0 <= j < |beams| ==> ClosedLength(beams[i], dist) <= ClosedLength(beams[j], dist)
    ensures forall j :: 0 <= j < i ==> ClosedLength(beams[i], dist) < ClosedLength(beams[j], dist)
  {
    var lengths := ClosedLengths(beams, dist);
    FirstIsFirstMinimum(lengths);
    assert forall j :: 0 <= j < |beams| ==> lengths[j] == ClosedLength(beams[j], dist);
    Rank(lengths)[0]
  }

  /**
   * The selected tour: the first of the final beams with the shortest closed length.  It
   * visits every input point once, starts at the first one, and its length is its closed length.
   */
  function SearchResult(points: seq<Point>, width: int, dist: Cost): (t: Tour)
    requires Distinct(points) && Accepts(points, width)
    ensures IsTourOf(t.points, points)
    ensures t.length == ClosedLength(t.points, dist)
    ensures t.points in FinalBeams(points, width, dist)
    ensures forall i :: 0 <= i < |FinalBeams(points, width, dist)| ==>
      t.length <= ClosedLength(FinalBeams(points, width, dist)[i], dist)
  {
    var beams := FinalBeams(points, width, dist);
    BeamShape(points, width, dist, |points| - 1);
    FinalBeamsAreTours(points, width, dist);
    var best := FirstShortest(beams, dist);
    Tour(beams[best], ClosedLength(beams[best], dist))
  }

  /** The full animation trace: one arrow list per level, then the closing arrow of the tour. */
  function SearchTrace(points: seq<Point>, width: int, dist: Cost): (r: seq<seq<Arrow>>)
    requires Distinct(points) && Accepts(points, width)
    ensures |r| == |points|
  {
    var t := SearchResult(points, width, dist);
    LevelTrace(points, width, dist, |points| - 1) + [[Arrow(Last(t.points), t.points[0])]]
  }

  /**
   * `arrows` holds one arrow per beam of `next`, whose beams have `k + 2` points: the
   * i-th arrow is the last step of the i-th beam.
   */
  predicate LastSteps(arrows: seq<Arrow>, next: seq<seq<Point>>, k: nat)
  {
    |arrows| == |next| &&
    forall i :: 0 <= i < |arrows| ==> |next[i]| == k + 2 && arrows[i] == Arrow(next[i][k], next[i][k + 1])
  }

  /**
   * The arrows of one level: between one and `width` of them, the i-th going from the
   * last point of the i-th surviving beam to the point it adds.
   */
  lemma LevelArrowsShape(points: seq<Point>, prev: seq<seq<Point>>, width: int, dist: Cost, k: nat)
    requires Distinct(points) && Accepts(points, width) && k + 1 < |points|
    requires WellShaped(points, prev, k)
    ensures 1 <= |LevelArrows(prev, points, width, dist)| <= width
    ensures LastSteps(LevelArrows(prev, points, width, dist), Level(prev, points, width, dist), k)
  {
    LevelShape(points, prev, width, dist, k + 1);
    var s := Survivors(Candidates(prev, points), width, dist);
    var arrows := LevelArrows(prev, points, width, dist);
    var next := Level(prev, points, width, dist);
    forall i | 0 <= i < |arrows| ensures |next[i]| == k + 2 && arrows[i] == Arrow(next[i][k], next[i][k + 1]) {
      SurvivorIsCandidate(Candidates(prev, points), width, dist, i);
      CandidatesSound(prev, points, s[i]);
      var j :| 0 <= j < |prev| && prev[j] == s[i].beam;
      assert next[i] == s[i].beam + [s[i].next];
    }
  }

  /** The arrows recorded at level `k` are the last steps of the beams of level `k + 1`. */
  lemma LevelTraceShape(points: seq<Point>, width: int, dist: Cost, k: nat)
    requires Distinct(points) && Accepts(points, width) && k + 1 < |points|
    ensures 1 <= |LevelArrows(BeamsAfter(points, width, dist, k), points, width, dist)| <= width
    ensures LastSteps(LevelArrows(BeamsAfter(points, width, dist, k), points, width, dist),
                      BeamsAfter(points, width, dist, k + 1), k)
  {
    BeamShape(points, width, dist, k);
    LevelArrowsShape(points, BeamsAfter(points, width, dist, k), width, dist, k);
    Unfold(points, width, dist, k + 1);
  }

  /**
   * The shape of the trace: `|points|` lists; each level list holds between one and
   * `width` arrows, the last steps of the beams of the next level; the final list is the
   * single arrow closing the selected tour.
   */
  lemma TraceShape(points: seq<Point>, width: int, dist: Cost)
    requires Distinct(points) && Accepts(points, width)
    ensures |SearchTrace(points, width, dist)| == |points|
    ensures forall k :: 0 <= k < |points| - 1 ==>
      1 <= |SearchTrace(points, width, dist)[k]| <= width &&
      LastSteps(SearchTrace(points, width, dist)[k], BeamsAfter(points, width, dist, k + 1), k)
    ensures var t := SearchResult(points, width, dist);
      SearchTrace(points, width, dist)[|points| - 1] == [Arrow(t.points[|points| - 1], t.points[0])]
  {
    var trace := SearchTrace(points, width, dist);
    var levels := LevelTrace(points, width, dist, |points| - 1);
    forall k | 0 <= k < |points| - 1
      ensures 1 <= |trace[k]| <= width && LastSteps(trace[k], BeamsAfter(points, width, dist, k + 1), k)
    {
      LevelTraceShape(points, width, dist, k);
      LevelTraceAt(points, width, dist, |points| - 1, k);
      assert trace[k] == levels[k];
    }
  }
}
