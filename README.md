# Trip-pooling match engine

This is a Dafny model of the matcher of a ride-pooling service. It takes one base trip and a list of candidate trips. Candidates are dropped one filter at a time:

- the base trip itself;
- a departure more than 30 minutes from the base's;
- a route overlap below 15 %;
- an estimated detour above 15 % of the shorter route.

Each survivor gets a weighted score and a result record. The records are then sorted by score, then by overlap, both descending.

Four path helpers support the filters:

- the length of a polyline;
- resampling a polyline at a fixed spacing, keeping both endpoints;
- the symmetric "overlap" percentage of two resampled paths;
- the tolerance test that overlap uses.

The modules are:

- `JsNumber` (`jsnumber.dfy`): the JavaScript number operations the matcher relies on, written out over exact reals. These are the truncating `%`, `Math.round` and `Number(x.toFixed(2))`.
- `Geo` (`geo.dfy`): path length, the resampler and the overlap percentage. The great-circle distance is a parameter `dist` of every member. Lemmas that need its properties require `IsDistance(dist)`: non-negative, symmetric, and zero from a point to itself.
- `Records` (`records.dfy`): the stored trip, with its route already decoded, and the result record.
- `Ranking` (`ranking.dfy`): the comparator, the in-place insertion sort of the result array, and its functional specification `RankSort`.
- `Match` (`match.dfy`): the detour estimate, the filters, the scoring, the per-candidate verdict `Evaluate`, the ordered list of survivors, and the method `FindMatchesForTrip`.

The loops of the source are methods proved against specification functions:

- `PathLengthM` and `PathLength`;
- `EmitSegment` and `EmitFrom`;
- `Resample` and `ResampledAsWritten`;
- `InTol` and `Covered`;
- `FindMatchesForTrip` and `Survivors` plus `RankSort`;
- `SortResults` and `RankSort`.

The properties are proved about those functions.

The arithmetic is exact. `OverlapPercent` is stated over the specification functions `ResampledAsWritten` and `Covered`, which the two methods are proved to compute. `ResampledAsWritten` is the source's resampler, including the carry expression of src/utils/geo.js:42. `Resampled` is the corrected resampler described under "## Findings", and it is used only to show the difference.

## Model

| member | source | states |
|---|---|---|
| JsNumber.Trunc | src/utils/geo.js:42 | the integer part toward zero that JavaScript's `%` divides by: below `x` by less than 1 for `x >= 0`, above by less than 1 for `x < 0` |
| JsNumber.Rem | src/utils/geo.js:42 | JavaScript `x % m` for a positive modulus: sign of the dividend, magnitude below `m`, and `x` itself when `0 <= x < m` |
| JsNumber.RemMinusModulus | src/utils/geo.js:42 | taking one modulus off a dividend of at least one modulus keeps the remainder |
| JsNumber.RemOfModulus | src/utils/geo.js:42 | `m % m == 0` |
| JsNumber.RemOfNegativeAbove | src/utils/geo.js:42 | a dividend strictly between `-m` and 0 is its own remainder: JavaScript's `%` can return a negative value |
| JsNumber.RemOfNonNegative | src/utils/geo.js:42 | for a non-negative dividend the truncating remainder equals the floored one |
| JsNumber.Round | src/services/matchService.js:46 | `Math.round` lies within half of its argument, with halves rounded up |
| JsNumber.RoundMonotone | src/services/matchService.js:46 | `Math.round` never reverses the order of two numbers |
| JsNumber.ToFixed2 | src/services/matchService.js:59 | `Number(x.toFixed(2))` is within 0.005 of `x` and a whole number of hundredths |
| JsNumber.ToFixed2Monotone | src/services/matchService.js:62 | rounding to two decimals never reverses the order of two numbers |
| Geo.PathLength | src/utils/geo.js:20-24 | the length of a path with fewer than two points is 0, and a length is never negative under a real distance |
| Geo.PathLengthM | src/utils/geo.js:20-24 | the accumulator loop returns the sum of the distances between consecutive points, 0 for fewer than two points |
| Geo.PathLengthFirstSegment | src/utils/geo.js:22 | summing from the front gives the same length as summing from the back |
| Geo.EmitCountStep | src/utils/geo.js:37-41 | each pass of the inner `while` uses up exactly one of the remaining emissions, so for `stepM > 0` the loop terminates |
| Geo.EmitCount | src/utils/geo.js:36-41 | the inner `while` runs `n` times, with `n` zero exactly when the first emission lies beyond the segment, and otherwise `n - 1 <= (segLen - t) / stepM < n` |
| Geo.Lerp | src/utils/geo.js:38-39 | the interpolated point is `a` at ratio 0, `b` at ratio 1, and `a` when both ends coincide |
| Geo.EmitFrom | src/utils/geo.js:37-41 | the inner loop appends exactly `EmitCount` points to `out` and keeps `out` as a prefix |
| Geo.Carry | src/utils/geo.js:42 | the corrected leftover `(acc + segLen) % stepM`: inside `(-stepM, stepM)`, and non-negative when `acc + segLen` is |
| Geo.CarryIsDistanceSinceLastPoint | src/utils/geo.js:36-42 | the corrected leftover is the distance travelled past the last emitted point: `acc + segLen` less one step per point emitted on the segment |
| Geo.CarryAt | src/utils/geo.js:32-43 | the leftover after each segment, starting from `acc = 0`, stays within one step |
| Geo.CarryAtAsWritten | src/utils/geo.js:32-43 | the leftover line 42 computes after each segment, starting from `acc = 0`, stays within one step |
| Geo.CarryAtInRange | src/utils/geo.js:32-43 | under a real distance every corrected leftover lies in `[0, stepM)` |
| Geo.CarryAsWritten | src/utils/geo.js:42 | the source's `(segLen - ((stepM - acc) % stepM)) % stepM`, inside `(-stepM, stepM)` |
| Geo.CarryAsWrittenAgrees | src/utils/geo.js:42 | the source's expression equals the corrected carry when nothing was left over or the segment reaches the next emission |
| Geo.CarryAsWrittenFallsBehind | src/utils/geo.js:42 | when a segment ends before the next emission, the source's expression carries `acc + segLen - stepM` instead of `acc + segLen` |
| Geo.CarryAsWrittenSkipsAPoint | src/utils/geo.js:36-42 | with segments of 300, 100 and 400 m at 250 m, the source carries -100 after the second segment and so emits one point on the third segment instead of two |
| Geo.CarryAsWrittenBehind | src/utils/geo.js:36-42 | once the source's carry is negative, a segment that does not make up the deficit emits nothing, and the carry becomes `acc + segLen` |
| Geo.Walk | src/utils/geo.js:33-43 | the outer loop only appends to the points emitted so far |
| Geo.Emitted | src/utils/geo.js:31-43 | the emitted points start with the first input point |
| Geo.CloseWith | src/utils/geo.js:44-46 | the last point is appended exactly when the output does not already end with it; afterwards the output ends with it and keeps what came before |
| Geo.Resampled | src/utils/geo.js:29-48 | fewer than two points come back unchanged; otherwise the result starts with the first input point and ends with the last; the result is empty exactly when the input is |
| Geo.EmitSegment | src/utils/geo.js:36-41 | the inner `while` loop appends exactly the points `EmitFrom` describes |
| Geo.Resample | src/utils/geo.js:29-48 | the nested `for`/`while` loops, line 42 included, compute `ResampledAsWritten`; their output starts with `points[0]` and ends with the last point |
| Geo.ResampleAppendsLastOnce | src/utils/geo.js:44-46 | either the points the source's loops emit already end with the last input point and nothing is appended, or they do not and it is appended once |
| Geo.ShortSegmentKeepsEndpoints | src/utils/geo.js:33-46 | the source's resampler returns a two-point path shorter than one step as its two endpoints, or as one point if they coincide |
| Geo.WalkAsWritten | src/utils/geo.js:33-43 | the outer loop with the source's carry expression only appends to the points emitted so far |
| Geo.EmittedAsWritten | src/utils/geo.js:31-43 | the points the source's loops emit start with the first input point |
| Geo.ResampledAsWritten | src/utils/geo.js:29-48 | the source's resampler, carry included: fewer than two points come back unchanged; otherwise the result starts with the first input point and ends with the last; the result is empty exactly when the input is |
| Geo.OneSegmentCarryIrrelevant | src/utils/geo.js:33-46 | on a two-point path the carry is never read, so the source's resampler and the corrected one return the same points |
| Geo.ResampledAsWrittenLosesAPoint | src/utils/geo.js:29-48 | along a line, the path 0, 300, 400, 800 m resampled at 250 m gives 0, 250, 500, 750, 800 with the corrected carry and 0, 250, 750, 800 as written |
| Geo.WalkAsWrittenQuietSegment | src/utils/geo.js:36-42 | a segment that ends before its first emission adds no point; only the source's carry moves on |
| Geo.WalkAsWrittenQuietFromZero | src/utils/geo.js:36-42 | from a carry of 0, a segment shorter than a step emits nothing and carries its own length |
| Geo.WalkAsWrittenFallsBehind | src/utils/geo.js:36-42 | from a positive carry, a segment that ends before the next emission emits nothing and leaves the source's carry at `acc + segLen - stepM` |
| Geo.WalkAsWrittenStaysBehind | src/utils/geo.js:36-42 | from a negative carry, a segment that does not make up the deficit emits nothing and adds its length to the carry |
| Geo.ResampledAsWrittenDropsDensePath | src/utils/geo.js:29-48 | any seven-point path of six 50 m segments resampled at 250 m by the source gives only its endpoints, because the carry runs 50, -150, -100, -50, 0 |
| Geo.WalkQuietSegment | src/utils/geo.js:36-41 | with the corrected carry, a segment that ends before its first emission adds no point |
| Geo.WalkEndsOnEmission | src/utils/geo.js:36-41 | with the corrected carry, a segment ending exactly on the next emission emits its end point and leaves a carry of 0 |
| Geo.ResampledKeepsDensePath | src/utils/geo.js:29-48 | with the corrected carry, the same six 50 m segments give the points at 0, 250 and 300 m |
| Geo.Covered | src/utils/geo.js:57-62 | no point is within tolerance of an empty path, and a point of the path itself is, under a real distance and a tolerance of at least 0 |
| Geo.InTol | src/utils/geo.js:57-62 | the early-return scan is true exactly when some point of `arr` is within `tolM` of `p`, and false exactly when all are farther |
| Geo.CoveredCount | src/utils/geo.js:64-65 | the number of covered points never exceeds the path's length |
| Geo.Fraction | src/utils/geo.js:64-65 | the covered fraction lies in `[0, 1]`; it is 1 exactly when every point is covered and 0 exactly when none is |
| Geo.CoveredCountAll | src/utils/geo.js:64-65 | when every point is covered the count is the path's length |
| Geo.CoveredCountNone | src/utils/geo.js:64-65 | when every pair of points is farther than the tolerance the count is 0 |
| Geo.OverlapPercent | src/utils/geo.js:52-67 | the overlap of the source's resampled paths lies in `[0, 100]` and is 0 when either path is empty |
| Geo.OverlapSymmetric | src/utils/geo.js:52-67 | swapping the two paths does not change the overlap |
| Geo.OverlapWithItself | src/utils/geo.js:57-66 | a non-empty path overlaps itself 100 % for a tolerance of at least 0 |
| Geo.OverlapOfSeparatedPaths | src/utils/geo.js:57-66 | when every point of one path, resampled as the source does, is beyond the tolerance from every resampled point of the other, the overlap is 0 |
| Match.LengthOrFallback | src/services/matchService.js:10 | the length fallback is never 0; it keeps a non-zero path length, otherwise a non-zero stored total, and is 1 when the path length is 0 and the total is missing or 0; it is positive for non-negative inputs |
| Match.RouteLength | src/services/matchService.js:10 | a route length is never 0; without geometry it is the non-zero stored total, or 1 when the total is missing or 0; it is positive under a real distance and a non-negative total |
| Match.DeltaMinutes | src/services/matchService.js:18-20 | the departure difference in minutes is non-negative and is at most 30 exactly when the departures are at most 1 800 000 ms apart |
| Match.DetourScale | src/services/matchService.js:87-89 | the scale is 1 when the total is missing or zero or the straight-line length is not positive; it is non-negative, or positive, when the total is |
| Match.PickupFirstLegs | src/services/matchService.js:80 | the pickup-first tour is never negative under a real distance, and is the base's straight line when the candidate has the base's endpoints |
| Match.DropFirstLegs | src/services/matchService.js:81 | the drop-first tour is the pickup-first tour of the candidate with pickup and drop swapped, and is never negative under a real distance |
| Match.ApproxExtraDistance | src/services/matchService.js:74-92 | the detour estimate is never negative when the base's stored total is absent or non-negative |
| Match.ExtraZeroIffNoDetour | src/services/matchService.js:80-91 | with a positive scale the estimate is 0 exactly when the cheaper visiting order is no longer than the base's straight line |
| Match.ExtraIgnoresCandidateDirection | src/services/matchService.js:80-83 | swapping the candidate's pickup and drop does not change the estimate |
| Match.ExtraOfSameEndpoints | src/services/matchService.js:80-85 | a candidate with the base's own endpoints adds no detour |
| Match.DeviationPct | src/services/matchService.js:35 | the deviation is non-negative for a non-negative estimate and positive lengths, and 0 without a detour |
| Match.ScoreDeviation | src/services/matchService.js:43 | `max(0, 100 - 6 dev)` lies in `[0, 100]` for `dev >= 0` and is 0 exactly when `6 dev >= 100` |
| Match.ScoreTime | src/services/matchService.js:44 | `max(0, 30 - deltaMin)` lies in `[0, 30]` and equals `30 - deltaMin` inside the window |
| Match.MatchScore | src/services/matchService.js:42-46 | the rounded score lies in `[0, 190]` for an overlap in `[0, 100]` and non-negative deviation and time difference |
| Match.MakeResult | src/services/matchService.js:57-65 | the record names the candidate; overlap and deviation are within 0.005 of their values; distance, time and minutes are within half of `extra`, `extra / 12` and `deltaMin`; the score lies in `[0, 190]` for in-range inputs |
| Match.Evaluate | src/services/matchService.js:16-65 | an accepted candidate is not the base and carries its own id; its rounded time difference is in `[0, 30]`; its rounded overlap is in `[15, 100]`; its rounded deviation is at most 15; its score is at least 19, and at most 190 under a real distance and non-negative totals |
| Match.AcceptedFacts | src/services/matchService.js:57-65 | the display roundings of an accepted candidate's values stay inside the filter bounds |
| Match.AcceptedIff | src/services/matchService.js:16-39 | a candidate is accepted exactly when it is not the base, departs within 30 minutes, overlaps by at least 15 % and deviates by at most 15 % |
| Match.TimeWindowInclusive | src/services/matchService.js:18-23 | a candidate other than the base is rejected for time exactly when it departs more than 1 800 000 ms before or after the base; exactly 30 minutes passes |
| Match.SameRouteTenMinutesLater | src/services/matchService.js:15-65 | a candidate with the base's route and endpoints departing ten minutes later is accepted with overlap 100, no detour, deviation 0, time difference 10 and score 180 |
| Match.SameRouteRanksBeforeLateLowOverlap | src/services/matchService.js:40-46 | a candidate departing 25 minutes after the base with at most 20 % overlap scores at most 12 + 100 + 5 = 117 if accepted, so the 180-point same-route candidate ten minutes later ranks before it |
| Match.LateLowOverlapScore | src/services/matchService.js:40-46 | a record with overlap at most 20 %, a non-negative deviation and a 25-minute difference scores at most 117 and ranks after a record scoring 180 |
| Match.Survivors | src/services/matchService.js:13-66 | the loop pushes at most one record per candidate |
| Match.SurvivorsStep | src/services/matchService.js:15-65 | one pass of the loop appends what the next candidate's verdict pushes |
| Match.SurvivorsSound | src/services/matchService.js:15-65 | every pushed record is the accepted verdict of some candidate |
| Match.SurvivorsComplete | src/services/matchService.js:15-65 | every accepted candidate's record is among those pushed |
| Match.SurvivorFacts | src/services/matchService.js:15-65 | every pushed record belongs to a candidate other than the base and meets the time, overlap and deviation bounds |
| Match.FindMatchesForTrip | src/services/matchService.js:8-72 | the method returns the survivors sorted by `RankSort`. The list is ranked and a permutation of the survivors, with no more entries than candidates. Every entry names a candidate other than the base and meets the time, overlap and deviation bounds |
| Ranking.Comparator | src/services/matchService.js:69 | the comparator is 0 exactly when both results have the same score and overlap; when the scores differ it is the score difference |
| Ranking.ComparatorStrict | src/services/matchService.js:69 | `Before(x, y)` holds exactly when the comparator is negative; the comparator is antisymmetric; `Before` holds exactly when `y` cannot stand before `x`, and then `x` can stand before `y` and differs from it |
| Ranking.InsertRanked | src/services/matchService.js:68-70 | inserting one result adds exactly that result |
| Ranking.RankSort | src/services/matchService.js:68-70 | sorting permutes the results |
| Ranking.InsertRankedKeepsRanked | src/services/matchService.js:68-70 | inserting into a ranked list keeps it ranked |
| Ranking.RankSortRanked | src/services/matchService.js:68-70 | every earlier result has a higher score, or the same score and an overlap at least as high |
| Ranking.RankSortOfRanked | src/services/matchService.js:68-70 | a list that is already ranked is left as it is, so equal entries keep their order |
| Ranking.RankSortIdempotent | src/services/matchService.js:68-70 | sorting twice is sorting once |
| Ranking.WithKey | src/services/matchService.js:68-70 | the subsequence of results with a given score and overlap is no longer than the input, and every entry has that key |
| Ranking.WithKeySnoc | src/services/matchService.js:68-70 | appending one result appends it to the subsequence of its key and to no other |
| Ranking.RankedSnoc | src/services/matchService.js:68-70 | a ranked list followed by a result that every entry ranks at least as high as is ranked |
| Ranking.InsertRankedStable | src/services/matchService.js:68-70 | inserting a result places it after every earlier result with the same key |
| Ranking.KeyedPairCommutes | src/services/matchService.js:69 | two results the comparator orders strictly never share a key |
| Ranking.RankSortStable | src/services/matchService.js:68-70 | the sort is stable: for every score and overlap, the results with that key appear in their input order |
| Ranking.SortResults | src/services/matchService.js:68-70 | the in-place sort of the result array leaves it equal to `RankSort` of its old contents |
| Ranking.SinkLeft | src/services/matchService.js:68-70 | one pass of the inner loop inserts `a[i]` into the sorted prefix and leaves the rest of the array alone |
| Ranking.RankSortSnoc | src/services/matchService.js:68-70 | sorting one more element inserts it into the sorted prefix |
| Ranking.SinkStep | src/services/matchService.js:68-70 | one swap moves the insertion point one place left |
| Ranking.SinkDone | src/services/matchService.js:68-70 | the insertion stops at a neighbour the element does not have to pass |
| Ranking.SinkAssemble | src/services/matchService.js:68-70 | the array the inner loop leaves behind is the element spliced into the sorted prefix |

## Left out

- Polyline decoding: `src/utils/polyline.js` is not part of this model. A trip's `route` is the already-decoded sequence of points.
- The haversine formula and `toRad` (src/utils/geo.js:4-16): floating-point trigonometry. The distance is a parameter `dist`, with the properties the matcher relies on stated by `IsDistance`.
- Floating point: all arithmetic is over exact reals. Rounding error, NaN and infinities are not modelled.
- The interpolated coordinates (src/utils/geo.js:38-39) are computed exactly by `Lerp`. Nothing is claimed about where they lie.
- `Date` parsing (src/services/matchService.js:11, :18): departures are integers in milliseconds.
- The `console.log` calls (src/services/matchService.js:21, :30, :37, :48-55): output only.
- `async`: the function never awaits, so `FindMatchesForTrip` is an ordinary method.
- The directions client, the cache client, the HTTP controllers and routes, the server bootstrap and the seeding scripts: network, database and file I/O around the matcher.
- Geo.Resampled: a `null` or absent `points` (src/utils/geo.js:30) has no counterpart, because a Dafny sequence is never null. The empty sequence is the closest case and comes back as `[]`.
- Geo.Resample: requires `stepM > 0`. For `stepM <= 0` the source's inner loop never ends. The only caller passes 250.
- Geo.Walk: uses the corrected carry. It is the corrected half of "## Findings"; `WalkAsWritten` is the loop as written.
- Geo.Emitted: inherits the corrected carry from `Walk`.
- Geo.Resampled: inherits the corrected carry. It agrees with `ResampledAsWritten` on two-point paths and can have more points on longer ones. Nothing in the matcher uses it.
- Geo.OverlapPercent: is stated over the specification functions `ResampledAsWritten` and `Covered`. The methods `Resample` and `InTol`, which the source calls, are proved equal to them.
- Match.Evaluate: the upper bound 190 on the score holds only under a real distance and non-negative stored totals. With a negative distance the deviation, and with it the score, is unbounded.
- Match.FindMatchesForTrip: candidate ids are compared as strings, as `String(c._id) === String(base._id)` does. Mongo ObjectIds are not modelled.
- The result's `additionalTimeS` (source line 61) is modelled as `Math.round(extra / 12)`. Nothing further is claimed about it.

## Findings

| source | as written | input that shows it | evidently intended | confidence | as-written member | corrected member |
|---|---|---|---|---|---|---|
| src/utils/geo.js:42 | `acc = (segLen - ((stepM - acc) % stepM)) % stepM`, where JavaScript's `%` keeps the dividend's sign. When a segment ends before the next emission, the result is `acc + segLen - stepM`, which is negative | (1) `stepM` 250, segments of 300, 100 and 400 m. The point at 250 m leaves 50 m. After the 100 m segment the carry is -100 instead of 150, so the third segment emits only at 750 m and the point due at 500 m is missing. (2) `stepM` 250, a dense path of six 50 m segments (0, 50, ..., 300 m). The carry runs 50, -150, -100, -50, 0, so nothing is emitted and only the two endpoints remain; the corrected carry keeps 0, 250 and 300 m. Every overlap the matcher computes uses this resampler | the carry is the distance travelled since the last emitted point, `(acc + segLen) % stepM`, so every `stepM` metres of path gets a point | medium; not executed | Geo.CarryAsWritten, Geo.CarryAsWrittenFallsBehind, Geo.CarryAsWrittenSkipsAPoint, Geo.ResampledAsWrittenLosesAPoint, Geo.ResampledAsWrittenDropsDensePath | Geo.Carry, Geo.CarryIsDistanceSinceLastPoint, Geo.CarryAtInRange, Geo.ResampledKeepsDensePath |
