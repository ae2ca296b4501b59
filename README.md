# Beam search for a travelling-salesman tour

The project is a Dafny model of the beam-search heuristic in `Project_10_01_2023`. The heuristic appears twice in that project:

- `BS.BeamSearch` in `BS.cs`;
- `MainWindow.BeamSearch` in `MainWindow.xaml.cs`, which also records the arrows the window animates.

Both copies, and their `Path` helper classes, are modelled by one engine.

How the search runs:

1. It starts from a single path holding the first city.
2. At every level it pairs each beam with each city that beam has not visited yet.
3. It ranks these candidates by the beam's length plus the step to the new city. The sort is stable.
4. It keeps the first `beamWidth` candidates and replaces the beams with copies extended by their city.
5. When the beams hold every city, it closes each beam into a cycle and selects the first one with the smallest closed length.

Each level's arrows are recorded, then the arrow that closes the chosen tour, then the arrows of that tour.

The project has six modules:

- `Wrappers` (`seqs.dfy`): the `Option` result.
- `Seqs` (`seqs.dfy`):
  - the last element of a sequence;
  - duplicate-free sequences;
  - inclusion, with the counting lemmas behind the "every beam is a tour" property.
- `Ranking` (`ranking.dfy`): the stable `OrderBy` as `Rank`, a sequence of indices in stable ascending key order, and `Take` as `TakeCount`.
- `Tours` (`tours.dfy`):
  - cities and arrows;
  - path and closed-tour lengths over an abstract distance `dist`;
  - the arrows of a closed tour.
- `BeamSpec` (`beam_spec.dfy`): what the search computes, as functions of its input, and the lemmas that state its promises:
  - candidates, survivors and levels;
  - the beams after `k` levels;
  - the selected tour;
  - the trace.
- `BeamSearchEngine` (`beam_search.dfy`): the imperative engine, proved against `BeamSpec`. It has:
  - the class `Path`, with its fields `points` and `distance` updated in place by `AddPoint` and `CreateCycle`;
  - `BeamSearch`, with its level loop and helper methods.

The caller's lists `arrowLists` and `solutionArrows`, which the source appends to, are modelled as out-parameters. Each holds exactly what the search appends, so both are empty when the guard clause returns early.

## Model

| member | source | states |
|---|---|---|
| BeamSearchEngine.BeamSearch | Project_10_01_2023/MainWindow.xaml.cs:141-220 | The guard clause rejects an empty list or a width outside `0 < width < count`, and then nothing is recorded. Otherwise the result is `SearchResult`, the appended arrow lists are `SearchTrace`, and the appended solution arrows are the cycle arrows of the chosen tour. |
| BeamSearchEngine.SearchLevels | Project_10_01_2023/BS.cs:24-47 | Starting from the first city, the loop runs until the beams are full. The beams are then the final beams of the specification, each path's distance is its length, no path occurs twice, and one arrow list has been recorded per level. |
| BeamSearchEngine.Start | Project_10_01_2023/BS.cs:24-26 | The single path holding the first city is the state at level 0. |
| BeamSearchEngine.Iterate | Project_10_01_2023/MainWindow.xaml.cs:151-188 | One iteration moves the loop state from level `k` to level `k + 1`. The beams become the next level and one arrow list is appended to the trace. |
| BeamSearchEngine.NextLevel | Project_10_01_2023/MainWindow.xaml.cs:153-187 | The new paths hold the beams of `Level`, the recorded arrows are `LevelArrows`, and every new path is fresh, valid and distinct from the others. |
| BeamSearchEngine.Select | Project_10_01_2023/BS.cs:30-37 | The pairs kept by `OrderBy(key).Take(beamWidth)` name exactly the survivors of the level, in ranked order. |
| BeamSearchEngine.ExpandBeam | Project_10_01_2023/BS.cs:32-34 | The candidates of one beam are its unvisited cities in input order, each with its ranking key. |
| BeamSearchEngine.Expand | Project_10_01_2023/BS.cs:30-34 | The candidates of a level are built beam by beam, each paired with the path it came from. The keys are the keys of the candidates. |
| BeamSearchEngine.ExpandStep | Project_10_01_2023/BS.cs:31-34 | Appending one beam's candidates to those of the beams before it gives the candidates of one beam more. |
| BeamSearchEngine.SelectedSurvive | Project_10_01_2023/BS.cs:37 | Picking candidates by the first `width` indices of the ranking yields `Survivors`. |
| BeamSearchEngine.TraceLevel | Project_10_01_2023/MainWindow.xaml.cs:163-178 | One arrow per kept pair, in ranked order, each from the beam's last city to the pair's city. |
| BeamSearchEngine.RecordedAreLevelArrows | Project_10_01_2023/MainWindow.xaml.cs:163-178 | The arrows recorded for the survivors are the level's arrows. |
| BeamSearchEngine.Advance | Project_10_01_2023/BS.cs:40-46 | Each kept pair becomes a new, distinct path: a copy of its beam extended by its city, with a valid distance. The paths copied from are not modified. |
| BeamSearchEngine.ExtendedAreNextLevel | Project_10_01_2023/BS.cs:40-46 | The extended copies of the survivors are the beams of the next level. |
| BeamSearchEngine.CloseAll | Project_10_01_2023/MainWindow.xaml.cs:191 | Every path keeps its cities, and its distance becomes its closed length. |
| BeamSearchEngine.ClosedDistances | Project_10_01_2023/MainWindow.xaml.cs:192 | The keys of the final `OrderBy` are the paths' distances, in order. |
| BeamSearchEngine.ShortestIsResult | Project_10_01_2023/BS.cs:50-51 | The first path in ranked closed-length order is the tour `SearchResult` describes. |
| BeamSearchEngine.CycleArrowList | Project_10_01_2023/MainWindow.xaml.cs:208-219 | The solution arrows are `CycleArrows` of the tour: arrow `i` goes from city `i` to city `(i + 1) % n`. |
| BeamSearchEngine.Path.FromPoint | Project_10_01_2023/BS.cs:73-77 | The path holds exactly the given city, with distance zero. |
| BeamSearchEngine.Path.Copy | Project_10_01_2023/BS.cs:79-85 | The copy has the same cities and distance as the original. It is a new object, so changing it leaves the original unchanged. |
| BeamSearchEngine.Path.AddPoint | Project_10_01_2023/BS.cs:87-91 | The city is appended and the distance grows by exactly the step from the previous last city. A path whose distance was its length still has that property. |
| BeamSearchEngine.Path.CreateCycle | Project_10_01_2023/BS.cs:93-96 | The cities are unchanged and the distance grows once, by the distance from the first city to the last. A valid path's distance becomes its closed length. |
| Tours.PathLength | Project_10_01_2023/BS.cs:87-91 | The value the cached `_distance` of an open path stands for: the sum of the distances between consecutive cities. |
| Tours.ClosedLength | Project_10_01_2023/BS.cs:93-96 | The value `_distance` stands for after `CreateCycle`: the path length plus the distance from the first city to the last. |
| Tours.PathLengthAppend | Project_10_01_2023/BS.cs:87-91 | Appending a city lengthens a path by exactly the step from its last city. |
| Tours.CycleArrows | Project_10_01_2023/MainWindow.xaml.cs:208-219 | There are `n` arrows, and arrow `i` goes from city `i` to city `(i + 1) % n`. |
| Tours.PathArrowsCost | Project_10_01_2023/MainWindow.xaml.cs:208-219 | The arrows along a path add up to its length; the step `CycleArrowsCost` rests on. |
| Tours.CycleArrowsCost | Project_10_01_2023/MainWindow.xaml.cs:208-219 | For a symmetric distance, the solution arrows add up to the tour's closed length. |
| Ranking.Rank | Project_10_01_2023/BS.cs:37 | The stable `OrderBy`: every index exactly once, ordered by key, with equal keys in their original order. |
| Ranking.RankPrefix | Project_10_01_2023/BS.cs:37 | The stable ranking of the first `n` indices holds exactly those indices, in stable order. |
| Ranking.Insert | Project_10_01_2023/BS.cs:37 | Inserting a new, larger index into a stable ranking gives a stable ranking with exactly one element more. |
| Ranking.OrderedUnique | Project_10_01_2023/BS.cs:37 | Two stable orderings of the same indices are equal. |
| Ranking.RankIsTheStableSort | Project_10_01_2023/BS.cs:37 | Any stable ascending ordering of all indices is `Rank`, so `Rank` is a faithful stand-in for `OrderBy`. |
| Ranking.FirstIsFirstMinimum | Project_10_01_2023/BS.cs:51 | `OrderBy(key).First()` is a minimal element, and no earlier element has the same key. |
| Ranking.TakeCount | Project_10_01_2023/BS.cs:37 | `Take(count)` keeps at most `count` elements and at most all of them. It keeps at least one when `count > 0` and there is one. |
| BeamSpec.Accepts | Project_10_01_2023/BS.cs:21-22 | The guard clause: the search runs only on a non-empty list with `0 < beamWidth < count`, the same test as MainWindow.xaml.cs:143-144. |
| BeamSpec.CandidatesOf | Project_10_01_2023/BS.cs:32-34 | Every candidate of a beam carries that beam. |
| BeamSpec.CandidatesOfExact | Project_10_01_2023/BS.cs:32-34 | A pair is a candidate of a beam if and only if its city is an input city the beam has not visited. |
| BeamSpec.Candidates | Project_10_01_2023/BS.cs:31-34 | The candidates of non-empty beams carry non-empty beams. |
| BeamSpec.CandidatesSound | Project_10_01_2023/BS.cs:31-34 | Every candidate pairs one of the beams with an input city that beam has not visited. |
| BeamSpec.CandidatesComplete | Project_10_01_2023/BS.cs:31-34 | Every beam offers every input city it has not visited. |
| BeamSpec.KeysPointwise | Project_10_01_2023/BS.cs:37 | A sequence holding each candidate's key in order is `Keys`. |
| BeamSpec.Key | Project_10_01_2023/BS.cs:37 | The `OrderBy` key of a candidate: its beam's length plus the distance from the beam's last city to the candidate city. |
| BeamSpec.Kept | Project_10_01_2023/BS.cs:37 | The indices `OrderBy(key).Take(beamWidth)` keeps: `min(beamWidth, #candidates)` of them, all valid candidate indices, none twice. |
| BeamSpec.DroppedRankLater | Project_10_01_2023/BS.cs:37 | Every candidate that is pruned ranks after every kept one, by a larger key or by an equal key generated later. |
| BeamSpec.Survivors | Project_10_01_2023/BS.cs:37 | There are `min(width, #candidates)` survivors, on non-empty beams. |
| BeamSpec.SurvivorIsCandidate | Project_10_01_2023/BS.cs:37 | Every survivor is a candidate. |
| BeamSpec.Level | Project_10_01_2023/BS.cs:40-46 | The beams of a level are non-empty. |
| BeamSpec.LevelArrows | Project_10_01_2023/MainWindow.xaml.cs:165-178 | The arrows of one level: one per survivor, in ranked order, from the survivor's beam's last city to its candidate city. |
| BeamSpec.BeamsAfter | Project_10_01_2023/BS.cs:26-47 | The beams after any number of levels are non-empty. |
| BeamSpec.LevelTrace | Project_10_01_2023/MainWindow.xaml.cs:163 | After `k` levels the trace holds `k` lists. |
| BeamSpec.Tabulate | Project_10_01_2023/MainWindow.xaml.cs:163 | Helper, a generic sequence fact: a tabulated sequence one element longer ends with the function's value at its last index. |
| BeamSpec.LevelTraceGrows | Project_10_01_2023/MainWindow.xaml.cs:163-178 | Each level appends exactly one list, the arrows of that level. |
| BeamSpec.LevelShape | Project_10_01_2023/BS.cs:31-46 | One level maps well-shaped beams of `k` cities to at most `width` well-shaped beams of `k + 1` cities. Well-shaped means: the beams are not empty, each starts at the first city, and each is duplicate-free and made of input cities. |
| BeamSpec.BeamShape | Project_10_01_2023/BS.cs:26-47 | Every level up to the last is well-shaped, with beams of `level + 1` cities. |
| BeamSpec.BeamCount | Project_10_01_2023/BS.cs:37-46 | After the first level there are between 1 and `width` beams. |
| BeamSpec.BeamLengths | Project_10_01_2023/BS.cs:28 | The beams of level `k` all have `k + 1` cities, and there is at least one. |
| BeamSpec.NextLevelInvariant | Project_10_01_2023/BS.cs:28-47 | An iteration taken while the beams are not full keeps the loop invariant at the next level. |
| BeamSpec.StopsAtLastLevel | Project_10_01_2023/BS.cs:28 | The loop stops exactly after `|points| - 1` levels. |
| BeamSpec.FinalBeams | Project_10_01_2023/BS.cs:28 | The beams when the loop exits, those of level `|points| - 1`; none of them is empty. |
| BeamSpec.FinalBeamsAreTours | Project_10_01_2023/BS.cs:28-47 | At loop exit every beam is a tour: a duplicate-free reordering of the input that starts at the first city. |
| BeamSpec.FullBeamsAreTours | Project_10_01_2023/BS.cs:28-47 | Well-shaped beams as long as the input are tours of it. |
| BeamSpec.FirstShortest | Project_10_01_2023/BS.cs:51 | The selected index has the smallest closed length, and every earlier beam is strictly longer. |
| BeamSpec.SearchResult | Project_10_01_2023/BS.cs:49-51 | The result is a tour of the input, its length is its closed length, it is one of the final beams, and no final beam is shorter. |
| BeamSpec.SearchTrace | Project_10_01_2023/MainWindow.xaml.cs:163-205 | The arrow lists the search appends: the arrows of each of the `|points| - 1` levels, then the single arrow from the tour's last city to its first; `|points|` lists in all. |
| BeamSpec.LevelArrowsShape | Project_10_01_2023/MainWindow.xaml.cs:163-178 | A level records between 1 and `width` arrows. Arrow `i` is the last step of beam `i` of the next level. |
| BeamSpec.LevelTraceShape | Project_10_01_2023/MainWindow.xaml.cs:163-187 | The arrows of level `k` are the last steps of the beams of level `k + 1`. |
| BeamSpec.TraceShape | Project_10_01_2023/MainWindow.xaml.cs:151-205 | The trace holds `|points|` lists. Each level list has 1 to `width` arrows, the last steps of the next level's beams. The final list is the single arrow from the tour's last city back to its first. |
| Seqs.IncludedLength | Project_10_01_2023/BS.cs:33 | Helper, a generic sequence fact: a duplicate-free sequence is no longer than a sequence holding all its elements. |
| Seqs.MissingElement | Project_10_01_2023/BS.cs:28-34 | A beam shorter than the input misses some input city, so it always has a candidate. |
| Seqs.SameLengthCovers | Project_10_01_2023/BS.cs:28-33 | A duplicate-free beam made of input cities and as long as the input holds every input city. |

## Left out

- Distance: `Math.Sqrt`/`Math.Pow` is replaced by an abstract cost `dist`. Lengths and keys are exact reals, so double rounding and ties that rounding creates or breaks are not modelled. Only `CycleArrowsCost` assumes `dist` is symmetric.
- Coordinates are integers, as in `System.Drawing.Point` in `MainWindow.xaml.cs`. In `BS.cs` they are doubles (`System.Windows.Point`); the algorithm only compares them for equality.
- A null `points` list is not representable, because a sequence is never null.
- BeamSearchEngine.BeamSearch requires the cities to be distinct whenever the guard clause accepts the input; on inputs the guard rejects, repeated cities are allowed and the result is empty, as in the source. On an accepted input with a repeated city the candidates of a level can run out, and the source then reads `beams[0]` from an empty list and throws. That path is not modelled.
- `BS.BeamSearch` returns `void` and discards the tour it selects. The model returns the tour, which is what `MainWindow.BeamSearch` turns into `solutionArrows`.
- The constructors `Path()` and `Path(int)` build empty paths that the search never uses. `AddPoint` and `CreateCycle` require a non-empty path instead.
- The colour, head size, stroke and thickness of each arrow are not modelled. An arrow is its two endpoints.
- The WPF window, button handlers, timer animation, canvas drawing, `NextColor`, random city generation and the slider are not modelled. They are presentation and randomness, outside the search.
- Claims about how short the tour is compared with an optimal one, or with another beam width, are not modelled. The source makes no such claims.
