/**
 * The imperative engine: the `Path` class and the beam search itself, one level per
 * iteration, recording the animation trace as it goes.  Every method is proved against
 * the functions of `BeamSpec`.
 */
module BeamSearchEngine {
  import opened Wrappers
  import opened Seqs
  import opened Ranking
  import opened Tours
  import opened BeamSpec

  /** A partial tour: the points visited so far and the length accumulated along them. */
  class Path {
    var points: seq<Point>
    var distance: real

    /** The accumulated length is the length of the visited points. */
    ghost predicate Valid(dist: Cost)
      reads this
    {
      |points| > 0 && distance == PathLength(points, dist)
    }

    /** A path holding only the city of origin, of length zero. */
    constructor FromPoint(p: Point)
      ensures points == [p] && distance == 0.0
    {
      points := [p];
      distance := 0.0;
    }

    /** A copy of `path`: its points, copied one by one, and its length. */
    constructor Copy(path: Path)
      ensures points == path.points && distance == path.distance
    {
      var copied: seq<Point> := [];
      var i := 0;
      while i < |path.points|
        invariant 0 <= i <= |path.points|
        invariant copied == path.points[..i]
      {
        copied := copied + [path.points[i]];
        i := i + 1;
      }
      points := copied;
      distance := path.distance;
    }

    /** Appends `p` and adds the distance from the previous last point to it. */
    method AddPoint(p: Point, dist: Cost)
      requires |points| > 0
      modifies this
      ensures points == old(points) + [p]
      ensures distance == old(distance) + dist(Last(old(points)), p)
      ensures old(Valid(dist)) ==> Valid(dist)
    {
      points := points + [p];
      distance := distance + dist(points[|points| - 2], points[|points| - 1]);
      PathLengthAppend(old(points), p, dist);
    }

    /** Closes the path into a cycle: adds the distance between its first and last points. */
    method CreateCycle(dist: Cost)
      requires |points| > 0
      modifies this
      ensures points == old(points)
      ensures distance == old(distance) + dist(points[0], Last(points))
      ensures old(Valid(dist)) ==> distance == ClosedLength(points, dist)
    {
      distance := distance + dist(points[0], Last(points));
    }
  }

  /** The point lists of a sequence of paths. */
  ghost function Values(beams: seq<Path>): (r: seq<seq<Point>>)
    reads set i | 0 <= i < |beams| :: beams[i]
  {
    seq(|beams|, i reads beams requires 0 <= i < |beams| => beams[i].points)
  }

  /** Every path is valid. */
  ghost predicate AllValid(beams: seq<Path>, dist: Cost)
    reads beams
  {
    forall i :: 0 <= i < |beams| ==> beams[i].Valid(dist)
  }

  /**
   * The candidates of one beam: a pair `(beam, point)` for every point it has not visited,
   * in input order, with the key `OrderBy` sorts them by.
   */
  method ExpandBeam(beam: Path, points: seq<Point>, dist: Cost) returns (found: seq<(Path, Point)>, keys: seq<real>)
    requires beam.Valid(dist)
    ensures |found| == |keys| == |CandidatesOf(beam.points, points)|
    ensures forall t :: 0 <= t < |found| ==>
      found[t].0 == beam && CandidatesOf(beam.points, points)[t] == Candidate(beam.points, found[t].1) &&
      keys[t] == Key(CandidatesOf(beam.points, points)[t], dist)
  {
    found, keys := [], [];
    var j := 0;
    while j < |points|
      invariant 0 <= j <= |points|
      invariant |found| == |keys| == |CandidatesOf(beam.points, points[..j])|
      invariant forall t :: 0 <= t < |found| ==>
        found[t].0 == beam && CandidatesOf(beam.points, points[..j])[t] == Candidate(beam.points, found[t].1) &&
        keys[t] == Key(CandidatesOf(beam.points, points[..j])[t], dist)
    {
      assert points[..j + 1][..j] == points[..j];
      if points[j] !in beam.points {
        found := found + [(beam, points[j])];
        keys := keys + [beam.distance + dist(Last(beam.points), points[j])];
      }
      j := j + 1;
    }
    assert points[..j] == points;
  }

  /** The candidates of a level, beam by beam, with their keys. */
  method Expand(beams: seq<Path>, points: seq<Point>, dist: Cost, ghost vs: seq<seq<Point>>)
    returns (nextPaths: seq<(Path, Point)>, keys: seq<real>)
    requires AllValid(beams, dist) && Values(beams) == vs
    ensures NonEmpty(vs)
    ensures |nextPaths| == |Candidates(vs, points)|
    ensures forall t :: 0 <= t < |nextPaths| ==>
      nextPaths[t].0 in beams && Candidates(vs, points)[t] == Candidate(nextPaths[t].0.points, nextPaths[t].1)
    ensures keys == Keys(Candidates(vs, points), dist)
  {
    nextPaths, keys := [], [];
    var i := 0;
    while i < |beams|
      invariant 0 <= i <= |beams|
      invariant |nextPaths| == |keys| == |Candidates(vs[..i], points)|
      invariant forall t :: 0 <= t < |nextPaths| ==> nextPaths[t].0 in beams
      invariant forall t :: 0 <= t < |nextPaths| ==>
        Candidates(vs[..i], points)[t] == Candidate(nextPaths[t].0.points, nextPaths[t].1) &&
        keys[t] == Key(Candidates(vs[..i], points)[t], dist)
    {
      var found, foundKeys := ExpandBeam(beams[i], points, dist);
      assert vs[i] == beams[i].points;
      ExpandStep(vs, points, dist, i, beams[i], nextPaths, keys, found, foundKeys);
      nextPaths := nextPaths + found;
      keys := keys + foundKeys;
      i := i + 1;
    }
    assert vs[..i] == vs;
    KeysPointwise(Candidates(vs, points), dist, keys);
  }

  /** Appending one beam's candidates to those of the beams before it gives the candidates of one beam more. */
  lemma ExpandStep(vs: seq<seq<Point>>, points: seq<Point>, dist: Cost, i: nat, beam: Path,
                   before: seq<(Path, Point)>, beforeKeys: seq<real>, found: seq<(Path, Point)>, foundKeys: seq<real>)
    requires i < |vs| && NonEmpty(vs) && beam.points == vs[i]
    requires |before| == |beforeKeys| == |Candidates(vs[..i], points)|
    requires forall t :: 0 <= t < |before| ==>
      Candidates(vs[..i], points)[t] == Candidate(before[t].0.points, before[t].1) &&
      beforeKeys[t] == Key(Candidates(vs[..i], points)[t], dist)
    requires |found| == |foundKeys| == |CandidatesOf(beam.points, points)|
    requires forall t :: 0 <= t < |found| ==>
      found[t].0 == beam && CandidatesOf(beam.points, points)[t] == Candidate(beam.points, found[t].1) &&
      foundKeys[t] == Key(CandidatesOf(beam.points, points)[t], dist)
    ensures |before + found| == |beforeKeys + foundKeys| == |Candidates(vs[..i + 1], points)|
    ensures forall t :: 0 <= t < |before + found| ==>
      Candidates(vs[..i + 1], points)[t] == Candidate((before + found)[t].0.points, (before + found)[t].1) &&
      (beforeKeys + foundKeys)[t] == Key(Candidates(vs[..i + 1], points)[t], dist)
  {
    assert vs[..i + 1][..i] == vs[..i];
    var cs := Candidates(vs[..i + 1], points);
    assert cs == Candidates(vs[..i], points) + CandidatesOf(vs[i], points);
    var n := |before|;
    forall t | 0 <= t < |before + found|
      ensures cs[t] == Candidate((before + found)[t].0.points, (before + found)[t].1)
      ensures (beforeKeys + foundKeys)[t] == Key(cs[t], dist)
    {
      if t < n {
        assert cs[t] == Candidates(vs[..i], points)[t];
      } else {
        assert cs[t] == CandidatesOf(vs[i], points)[t - n];
      }
    }
  }

  /** The arrows of one level: from each selected beam's last point to the point it adds. */
  method TraceLevel(selected: seq<(Path, Point)>) returns (arrows: seq<Arrow>)
    requires forall i :: 0 <= i < |selected| ==> |selected[i].0.points| > 0
    ensures |arrows| == |selected|
    ensures forall i :: 0 <= i < |selected| ==> arrows[i] == Arrow(Last(selected[i].0.points), selected[i].1)
  {
    arrows := [];
    var i := 0;
    while i < |selected|
      invariant 0 <= i <= |selected|
      invariant |arrows| == i
      invariant forall t :: 0 <= t < i ==> arrows[t] == Arrow(Last(selected[t].0.points), selected[t].1)
    {
      var beam := selected[i].0;
      arrows := arrows + [Arrow(Last(beam.points), selected[i].1)];
      i := i + 1;
    }
  }

  /** The beams of the next level: each selected beam copied and extended by its point. */
  method Advance(selected: seq<(Path, Point)>, dist: Cost) returns (beams: seq<Path>)
    requires forall i :: 0 <= i < |selected| ==> selected[i].0.Valid(dist)
    ensures |beams| == |selected|
    ensures forall i :: 0 <= i < |beams| ==>
      fresh(beams[i]) && beams[i].points == selected[i].0.points + [selected[i].1] && beams[i].Valid(dist)
    ensures forall i, j :: 0 <= i < j < |beams| ==> beams[i] != beams[j]
  {
    beams := [];
    var i := 0;
    while i < |selected|
      invariant 0 <= i <= |selected|
      invariant |beams| == i
      invariant forall t :: 0 <= t < i ==>
        fresh(beams[t]) && beams[t].points == selected[t].0.points + [selected[t].1] && beams[t].Valid(dist)
      invariant forall t, u :: 0 <= t < u < i ==> beams[t] != beams[u]
    {
      var path := new Path.Copy(selected[i].0);
      path.AddPoint(selected[i].1, dist);
      beams := beams + [path];
      i := i + 1;
    }
  }

  /**
   * Beam search for a short Hamiltonian cycle through `points`, starting at the first one.
   * When the guard clause rejects the input nothing is computed; otherwise the result is
   * `SearchResult`, the arrow lists appended to the caller's `arrowLists` are `SearchTrace`,
   * and the arrows appended to `solutionArrows` are the arrows of the selected cycle.
   */
  method BeamSearch(points: seq<Point>, beamWidth: int, dist: Cost)
    returns (solution: Option<Tour>, arrowLists: seq<seq<Arrow>>, solutionArrows: seq<Arrow>)
    requires Accepts(points, beamWidth) ==> Distinct(points)
    ensures !Accepts(points, beamWidth) ==> solution == None && arrowLists == [] && solutionArrows == []
    ensures Accepts(points, beamWidth) ==>
      solution == Some(SearchResult(points, beamWidth, dist)) &&
      arrowLists == SearchTrace(points, beamWidth, dist) &&
      solutionArrows == CycleArrows(solution.value.points)
  {
    if |points| == 0 || beamWidth <= 0 || beamWidth >= |points| {
      return None, [], [];
    }
    var beams;
    beams, arrowLists := SearchLevels(points, beamWidth, dist);
    CloseAll(beams, dist);
    var lengths := ClosedDistances(beams);
    var best := Rank(lengths)[0];
    ShortestIsResult(points, beamWidth, dist, lengths);
    var chosen := beams[best];
    solution := Some(Tour(chosen.points, chosen.distance));
    arrowLists := arrowLists + [[Arrow(Last(chosen.points), chosen.points[0])]];
    solutionArrows := CycleArrowList(chosen.points);
  }

  /**
   * The state of the search after `level` iterations: the paths hold the beams of that
   * level, each of `level + 1` points, with their lengths, no path twice, and the arrow
   * lists recorded so far are those of the levels before.
   */
  ghost predicate Searched(points: seq<Point>, width: int, dist: Cost, beams: seq<Path>, arrowLists: seq<seq<Arrow>>, level: nat)
    reads beams
  {
    level < |points| &&
    Values(beams) == BeamsAfter(points, width, dist, level) &&
    UniformLength(Values(beams), level + 1) &&
    AllValid(beams, dist) &&
    arrowLists == LevelTrace(points, width, dist, level) &&
    forall i, j :: 0 <= i < j < |beams| ==> beams[i] != beams[j]
  }

  /**
   * The levels of the search: starting from the path holding the first point, one level per
   * iteration until the beams hold every point, recording each level's arrows.
   */
  method SearchLevels(points: seq<Point>, beamWidth: int, dist: Cost)
    returns (beams: seq<Path>, arrowLists: seq<seq<Arrow>>)
    requires Distinct(points) && Accepts(points, beamWidth)
    ensures Values(beams) == FinalBeams(points, beamWidth, dist)
    ensures |beams| > 0 && AllValid(beams, dist)
    ensures forall i :: 0 <= i < |beams| ==> fresh(beams[i])
    ensures forall i, j :: 0 <= i < j < |beams| ==> beams[i] != beams[j]
    ensures arrowLists == LevelTrace(points, beamWidth, dist, |points| - 1)
  {
    beams, arrowLists := Start(points, beamWidth, dist);
    ghost var level := 0;
    while |beams[0].points| < |points|
      invariant Searched(points, beamWidth, dist, beams, arrowLists, level)
      invariant forall i :: 0 <= i < |beams| ==> fresh(beams[i])
      decreases |points| - level
    {
      beams, arrowLists := Iterate(beams, arrowLists, points, beamWidth, dist, level);
      level := level + 1;
    }
    ghost var final := Values(beams);
    assert final[0] == beams[0].points;
    StopsAtLastLevel(points, level, final);
    LastLevel(points, beamWidth, dist, level);
  }

  /** The state before the first iteration: one beam holding the first point alone. */
  method Start(points: seq<Point>, width: int, dist: Cost) returns (beams: seq<Path>, arrowLists: seq<seq<Arrow>>)
    requires Distinct(points) && Accepts(points, width)
    ensures Searched(points, width, dist, beams, arrowLists, 0)
    ensures forall i :: 0 <= i < |beams| ==> fresh(beams[i])
  {
    var origin := new Path.FromPoint(points[0]);
    beams := [origin];
    arrowLists := [];
    assert Values(beams) == BeamsAfter(points, width, dist, 0);
    BeamLengths(points, width, dist, 0);
  }

  /** One iteration of the loop of `SearchLevels`, from the state after `level` iterations to the next. */
  method Iterate(beams: seq<Path>, arrowLists: seq<seq<Arrow>>, points: seq<Point>, width: int, dist: Cost, ghost level: nat)
    returns (next: seq<Path>, nextLists: seq<seq<Arrow>>)
    requires Distinct(points) && Accepts(points, width)
    requires Searched(points, width, dist, beams, arrowLists, level) && |beams[0].points| < |points|
    ensures Searched(points, width, dist, next, nextLists, level + 1)
    ensures forall i :: 0 <= i < |next| ==> fresh(next[i])
  {
    ghost var prev := Values(beams);
    assert prev[0] == beams[0].points;
    var arrows;
    next, arrows := NextLevel(beams, points, width, dist, prev);
    NextLevelInvariant(points, width, dist, level, prev, Values(next), arrows, arrowLists);
    nextLists := arrowLists + [arrows];
  }

  /**
   * One iteration of the search: every beam offers its unvisited points, the `width` best
   * candidates by key survive, their arrows are recorded and each survivor's beam is copied
   * and extended by its point.
   */
  method NextLevel(beams: seq<Path>, points: seq<Point>, width: int, dist: Cost, ghost prev: seq<seq<Point>>)
    returns (next: seq<Path>, arrows: seq<Arrow>)
    requires AllValid(beams, dist) && Values(beams) == prev
    ensures NonEmpty(prev)
    ensures Values(next) == Level(prev, points, width, dist)
    ensures arrows == LevelArrows(prev, points, width, dist)
    ensures AllValid(next, dist)
    ensures forall i :: 0 <= i < |next| ==> fresh(next[i])
    ensures forall i, j :: 0 <= i < j < |next| ==> next[i] != next[j]
  {
    var selected := Select(beams, points, width, dist, prev);
    arrows := TraceLevel(selected);
    next := Advance(selected, dist);
    ghost var chosen := Chosen(selected);
    RecordedAreLevelArrows(prev, points, width, dist, chosen, arrows);
    ExtendedAreNextLevel(prev, points, width, dist, chosen, Values(next));
  }

  /**
   * The pairs of a level that `OrderBy(key).Take(beamWidth)` keeps: the candidates of the
   * beams, ranked by key, the first `width` of them.
   */
  method Select(beams: seq<Path>, points: seq<Point>, width: int, dist: Cost, ghost prev: seq<seq<Point>>)
    returns (selected: seq<(Path, Point)>)
    requires AllValid(beams, dist) && Values(beams) == prev
    ensures NonEmpty(prev)
    ensures forall i :: 0 <= i < |selected| ==> selected[i].0.Valid(dist)
    ensures Chosen(selected) == Survivors(Candidates(prev, points), width, dist)
  {
    var nextPaths, keys := Expand(beams, points, dist, prev);
    var order := Rank(keys);
    var kept := order[..TakeCount(width, |order|)];
    selected := seq(|kept|, i requires 0 <= i < |kept| => nextPaths[kept[i]]);
    SelectedSurvive(prev, points, width, dist, nextPaths, kept, selected);
  }

  /** Closes every beam into a cycle. */
  method CloseAll(beams: seq<Path>, dist: Cost)
    requires AllValid(beams, dist)
    requires forall i, j :: 0 <= i < j < |beams| ==> beams[i] != beams[j]
    modifies beams
    ensures forall j :: 0 <= j < |beams| ==>
      beams[j].points == old(beams[j].points) && beams[j].distance == ClosedLength(beams[j].points, dist)
  {
    var i := 0;
    while i < |beams|
      invariant 0 <= i <= |beams|
      invariant forall j :: 0 <= j < |beams| ==> beams[j].points == old(beams[j].points)
      invariant forall j :: 0 <= j < i ==> beams[j].distance == ClosedLength(beams[j].points, dist)
      invariant forall j :: i <= j < |beams| ==> beams[j].Valid(dist)
    {
      beams[i].CreateCycle(dist);
      i := i + 1;
    }
  }

  /** The arrows of the closed tour `s`, the i-th from its i-th point to the next one, cyclically. */
  method CycleArrowList(s: seq<Point>) returns (arrows: seq<Arrow>)
    requires |s| > 0
    ensures arrows == CycleArrows(s)
  {
    arrows := [];
    var n := |s|;
    var i := 0;
    while i < n
      invariant 0 <= i <= n
      invariant |arrows| == i
      invariant forall t :: 0 <= t < i ==> arrows[t] == Arrow(s[t], s[(t + 1) % n])
    {
      arrows := arrows + [Arrow(s[i], s[(i + 1) % n])];
      i := i + 1;
    }
  }

  /** `OrderBy(Distance).First()` on the closed final beams picks the selected tour. */
  lemma ShortestIsResult(points: seq<Point>, width: int, dist: Cost, lengths: seq<real>)
    requires Distinct(points) && Accepts(points, width)
    requires |lengths| == |FinalBeams(points, width, dist)|
    requires forall i :: 0 <= i < |lengths| ==> lengths[i] == ClosedLength(FinalBeams(points, width, dist)[i], dist)
    ensures |lengths| > 0 && Rank(lengths)[0] < |lengths|
    ensures SearchResult(points, width, dist) ==
      Tour(FinalBeams(points, width, dist)[Rank(lengths)[0]], lengths[Rank(lengths)[0]])
  {
    BeamShape(points, width, dist, |points| - 1);
    assert lengths == ClosedLengths(FinalBeams(points, width, dist), dist);
  }

  /** The distances of the closed beams, the keys of the final `OrderBy`. */
  method ClosedDistances(beams: seq<Path>) returns (lengths: seq<real>)
    ensures |lengths| == |beams|
    ensures forall i :: 0 <= i < |beams| ==> lengths[i] == beams[i].distance
  {
    lengths := [];
    var i := 0;
    while i < |beams|
      invariant 0 <= i <= |beams|
      invariant |lengths| == i
      invariant forall t :: 0 <= t < i ==> lengths[t] == beams[t].distance
    {
      lengths := lengths + [beams[i].distance];
      i := i + 1;
    }
  }

  /** The pairs kept by `OrderBy(key).Take(beamWidth)` are the survivors of the level, in ranked order. */
  lemma SelectedSurvive(prev: seq<seq<Point>>, points: seq<Point>, width: int, dist: Cost,
                        nextPaths: seq<(Path, Point)>, kept: seq<nat>, selected: seq<(Path, Point)>)
    requires NonEmpty(prev)
    requires |nextPaths| == |Candidates(prev, points)|
    requires forall t :: 0 <= t < |nextPaths| ==>
      Candidates(prev, points)[t] == Candidate(nextPaths[t].0.points, nextPaths[t].1)
    requires kept == Kept(Candidates(prev, points), width, dist)
    requires |selected| == |kept|
    requires forall i :: 0 <= i < |kept| ==> kept[i] < |nextPaths| && selected[i] == nextPaths[kept[i]]
    ensures Survivors(Candidates(prev, points), width, dist) == Chosen(selected)
  {
    var s := Survivors(Candidates(prev, points), width, dist);
    assert forall i :: 0 <= i < |s| ==> s[i] == Candidate(selected[i].0.points, selected[i].1);
  }

  /** The candidates named by the selected pairs. */
  ghost function Chosen(selected: seq<(Path, Point)>): (r: seq<Candidate>)
    reads set i | 0 <= i < |selected| :: selected[i].0
    ensures |r| == |selected|
    ensures forall i :: 0 <= i < |selected| ==> r[i] == Candidate(selected[i].0.points, selected[i].1)
  {
    if |selected| == 0 then []
    else Chosen(selected[..|selected| - 1]) + [Candidate(Last(selected).0.points, Last(selected).1)]
  }

  /** The extended copies of the survivors are the beams of the next level. */
  lemma ExtendedAreNextLevel(prev: seq<seq<Point>>, points: seq<Point>, width: int, dist: Cost,
                             chosen: seq<Candidate>, next: seq<seq<Point>>)
    requires NonEmpty(prev)
    requires Survivors(Candidates(prev, points), width, dist) == chosen
    requires |next| == |chosen| && forall i :: 0 <= i < |chosen| ==> next[i] == chosen[i].beam + [chosen[i].next]
    ensures next == Level(prev, points, width, dist)
  {
  }

  /** The arrows recorded for the survivors are the arrows of the level. */
  lemma RecordedAreLevelArrows(prev: seq<seq<Point>>, points: seq<Point>, width: int, dist: Cost,
                               chosen: seq<Candidate>, arrows: seq<Arrow>)
    requires NonEmpty(prev)
    requires Survivors(Candidates(prev, points), width, dist) == chosen
    requires |arrows| == |chosen|
    requires forall i :: 0 <= i < |chosen| ==> |chosen[i].beam| > 0 && arrows[i] == Arrow(Last(chosen[i].beam), chosen[i].next)
    ensures arrows == LevelArrows(prev, points, width, dist)
  {
  }
}
