# Map-tracker navigation and template search, modelled in Dafny

This project models the two deterministic cores of the map-tracker package of
the agent service (`agent/go-service/map-tracker`).

**Navigation (move.go).** The navigation core covers:

- parameter validation and defaulting (`parseParam`);
- heading arithmetic (`calcDeltaRotation` and the integer tail of
  `calcTargetRotation`);
- one polling cycle of `MapTrackerMove.Run`, written as a pure step function.
  The step takes the per-waypoint session state, the cycle's timestamp, the
  stopping signal, one localisation sample (or none, when inference failed)
  and the bearing to the target. It returns the cycle's outcome, the new state
  and the ordered actuator commands.

On top of `Step` sit a waypoint leg driven by a finite trace of observations
(`Navigate`) and the whole run over a path (`RunPath`, `Run`).

**Template search (utils.go).** The search core covers:

- the integral image (`NewIntegralImage`) and its constant-time rectangle
  query (`GetAreaStats`), both checked against brute-force sums;
- the exact part of `computeNCCFast`: the uint64 dot product, the window
  statistics and the flat-window guard;
- the search structure of `MatchTemplateOptimized`, with the score at each
  offset as a parameter. This covers the degenerate-size guard, the six-worker
  coarse grid, the max-reduction and the ±2 refinement window;
- the clamping arithmetic of `cropArea`.

Modules:

| file | module | what |
|---|---|---|
| wrappers.dfy | Wrappers | `Option` and `Result` |
| arith.dfy | Arith | `max`, `min` and a multiplication bound shared by the modules below |
| params.dfy | Params | the parameter record, `parseParam` |
| rotation.dfy | Rotation | `calcDeltaRotation`, the tail of `calcTargetRotation` |
| navigation.dfy | Navigation | the polling cycle, a waypoint leg, the run |
| navigation_proofs.dfy | NavigationProofs | key state, notifications, deadlines, run structure |
| pixels.dfy | Pixels | RGB frames and brute-force rectangle sums |
| integral.dfy | Integral | `NewIntegralImage`, `GetAreaStats` |
| ncc.dfy | Ncc | dot product and guard of `computeNCCFast` |
| matcher.dfy | Matcher | workers, reduction, refinement of `MatchTemplateOptimized` |
| crop.dfy | Crop | window arithmetic of `cropArea` |

Modelling choices:

- Go's `float64` parameters and sums are exact `real`s. Integral-image sums
  of bytes are exact integers, because they stay far below 2^53.
- `math.Hypot(d) < t` and `> t` are stated on the squared integer distance.
  `Navigation.HypotComparisons` shows this agrees with comparing the distance
  itself, for every threshold.
- `int(x)` truncates toward zero (`Navigation.Truncate`).
- `math.Round` rounds halves away from zero (`Rotation.RoundNonNegative`).
- The bearing `math.Atan2(dx, -dy)` in degrees is an input of the cycle, in
  [-180, 180].
- The actuator calls are command tokens: `KeyUpW`, `KeyDownW`, `Rotate(dx)`,
  `Jump` (space), `Sprint` (shift). `doEmergencyStop` is the sequence
  `NotifyEmergency, KeyUpW, PostStop`.
- A failed `doInfer` is an absent sample. Time is an integer number of
  milliseconds, and the zero `time.Time` of the rotation timer is `None`.

Three behaviours of the code worth stating plainly:

- **Heading delta.** `calcDeltaRotation` returns both -180 and 180, the closed
  range its comment at move.go:357 names, even for headings in
  [0, 360). For example, current 180 and target 0 give -180, and current 0
  and target 180 give 180 (`Rotation.HalfTurns`).
- **Degenerate needle.** When the needle is wider or taller than the
  haystack, `MatchTemplateOptimized` returns (0, 0, 0.0) (utils.go:155-157).
- **Flat windows.** The guard in `computeNCCFast` measures the spread of all
  channel values of the window, not the spread of whole pixels. So a uniform
  grey window is flat (`Ncc.GreyWindowIsFlat`), while a uniform pure-blue
  window is not flat and gets a regular score (`Ncc.BlueWindowIsNotFlat`).

## Model

| member | source | states |
|---|---|---|
| `Params.ParseParam` | agent/go-service/map-tracker/move.go:206-273 | Success exactly when the name and path are non-empty, no field is negative and neither angle threshold exceeds 180. An empty name is reported before an empty path, and either is reported before any field. |
| `Params.CheckReal` | agent/go-service/map-tracker/move.go:222-226 | A real field passes exactly when it is non-negative. A failure names the field as negative. A passing value is kept, or replaced by the default when it is zero, so a positive default gives a positive result. |
| `Params.CheckInt` | agent/go-service/map-tracker/move.go:227-231 | A millisecond field passes exactly when it is non-negative. A failure names the field as negative. A passing value is kept, or replaced by the default when it is zero, so a positive default gives a positive result. |
| `Params.CheckAngle` | agent/go-service/map-tracker/move.go:232-245 | An angle field passes exactly when it lies in [0, 180]. A failure names the field as negative or as out of range, in that order. A passing value is kept, or replaced by the default when it is zero. |
| `Params.ParseParamFields` | agent/go-service/map-tracker/move.go:221-272 | On success the name and path pass through, every zero field takes its default and every positive field is kept. |
| `Params.ParseParamFirstOffence` | agent/go-service/map-tracker/move.go:221-270 | A reported field really offends, in the way reported (negative, or an angle above 180). It is the first offending field in validation order. |
| `Params.ParsedIsSettled` | agent/go-service/map-tracker/move.go:221-270 | With positive defaults, every validated record has positive fields and angle thresholds of at most 180. |
| `Params.ParseParamIdempotent` | agent/go-service/map-tracker/move.go:221-270 | Validating a validated record again returns it unchanged. |
| `Rotation.WrapDown` | agent/go-service/map-tracker/move.go:360-362 | The first loop ends at most 180 on the same heading. It changes nothing at or below 180, and otherwise lands above -180. |
| `Rotation.WrapUp` | agent/go-service/map-tracker/move.go:363-365 | The second loop ends at least -180 on the same heading. It changes nothing at or above -180, and otherwise lands below 180. |
| `Rotation.DeltaRotation` | agent/go-service/map-tracker/move.go:357-367 | The delta lies in [-180, 180] and current + delta names the target heading modulo 360. It is 180 only if target − current ≥ 180, and -180 only if target − current ≤ -180. |
| `Rotation.DeltaRotationIsShortest` | agent/go-service/map-tracker/move.go:357-367 | No other turn that reaches the target heading is shorter than the delta. |
| `Rotation.HalfTurns` | agent/go-service/map-tracker/move.go:357-367 | Both -180 and 180 are returned, for (180, 0) and (0, 180). |
| `Rotation.RoundNonNegative` | agent/go-service/map-tracker/move.go:354 | `math.Round` of a non-negative value is a non-negative integer within half a unit, with halves rounded up. |
| `Rotation.TargetHeading` | agent/go-service/map-tracker/move.go:350-354 | The normalised heading lies in [0, 360) and is within half a degree of the bearing on the circle. |
| `Navigation.HypotComparisons` | agent/go-service/map-tracker/move.go:147-148 | For a distance whose square is d2, "distance < t" and "distance > t" are exactly the squared comparisons the model uses. |
| `Navigation.Truncate` | agent/go-service/map-tracker/move.go:176 | `int(x)` is the integer between 0 and x that is within one of x. |
| `Navigation.Settle` | agent/go-service/map-tracker/move.go:130-144 | After the stuck check the sample is the stationary baseline. A repeated position keeps the old baseline and its time, a new one takes the cycle time, and nothing else in the session changes. |
| `Navigation.StuckJump` | agent/go-service/map-tracker/move.go:137-140 | At most one jump is issued, and one is issued exactly when the sample repeats the baseline for longer than the stuck threshold. |
| `Navigation.Turn` | agent/go-service/map-tracker/move.go:176-181 | The camera command is a rotation by delta times the rotation speed, cut toward zero: it turns the same way and falls short by less than one unit. |
| `Navigation.Delta` | agent/go-service/map-tracker/move.go:156-157 | The wanted turn is at most a half turn either way, and the sampled heading plus the turn names the target heading modulo 360. |
| `Navigation.Steer` | agent/go-service/map-tracker/move.go:146-190 | The cycle arrives exactly when the distance is below the arrival threshold, and then issues nothing more. Past the lower rotation threshold, the timer starts only if it was unset, and the cycle aborts exactly when the timer is older than the rotation timeout. It issues KeyUp W, Rotate, KeyDown W past the upper threshold, and KeyDown W, Rotate below it. Within tolerance it issues KeyDown W, a Sprint only beyond the sprint threshold, and resets the timer. |
| `Navigation.Step` | agent/go-service/map-tracker/move.go:94-190 | Checks run in order: stopping (KeyUp W only), then the arrival timeout from the leg's start (emergency stop), then inference (a failure gives KeyUp W and continues). Next comes the stuck rule: a timeout aborts, a stuck position gives a Jump first, and a moved position resets the baseline. The arrival baseline is never changed, and an arrival issues at most a Jump. |
| `Navigation.Navigate` | agent/go-service/map-tracker/move.go:94-194 | A leg runs at most one cycle per observation. It runs at least one when there is any observation, and uses them all when it has not ended. |
| `Navigation.RunPath` | agent/go-service/map-tracker/move.go:70-195 | A run completes exactly when it reached every waypoint. Otherwise it is pending or aborted with a terminal outcome. The run opens with the first waypoint's leg run from a fresh session (`FreshSession`, move.go:86-92): the arrival clock at the leg's start, no stationary baseline and no rotation timer. |
| `Navigation.Run` | agent/go-service/map-tracker/move.go:56-62 | Invalid parameters end the run before any command is issued. A completed run had acceptable parameters and reached every waypoint. |
| `NavigationProofs.SteerNotifies` | agent/go-service/map-tracker/move.go:164-169 | Heading correction adds the emergency notification exactly once when the rotation times out, and never otherwise. |
| `NavigationProofs.StepNotifiesOnFatal` | agent/go-service/map-tracker/move.go:275-280 | A cycle issues the emergency notification exactly once when it ends on a progress failure, and never otherwise. |
| `NavigationProofs.SteerKeyState` | agent/go-service/map-tracker/move.go:160-190 | After heading correction that goes on, W is held; after a rotation timeout, it is released. This holds whatever the stuck check issued before. |
| `NavigationProofs.StepKeyState` | agent/go-service/map-tracker/move.go:103-190 | After a stopping, failing or fatal cycle, forward motion is released. After a localised cycle that goes on, it is held. An arriving cycle leaves it as it was. |
| `NavigationProofs.SteerTurn` | agent/go-service/map-tracker/move.go:173-182 | The camera turn comes right after a W command: KeyUp W when the turn exceeds the upper threshold, KeyDown W otherwise. |
| `NavigationProofs.StepTurnsInPlaceWhenFar` | agent/go-service/map-tracker/move.go:173-182 | At the moment a cycle rotates, forward motion is held exactly when the misalignment is within the upper threshold. |
| `NavigationProofs.LegReleasesOnExit` | agent/go-service/map-tracker/move.go:94-194 | A leg that ended, however it ended, has released forward motion. |
| `NavigationProofs.LegNotifiesOnce` | agent/go-service/map-tracker/move.go:110-168 | A leg issues the emergency notification once if it ended on a progress failure, and never otherwise. |
| `NavigationProofs.LegDeadline` | agent/go-service/map-tracker/move.go:110-116 | Every cycle that let the leg go on was within the arrival deadline from the leg's start. The first cycle past the deadline ends the leg. |
| `NavigationProofs.BlindLegTimesOut` | agent/go-service/map-tracker/move.go:110-124 | When every inference fails, the leg never presses W. It ends on the arrival timeout exactly when some cycle is past the deadline, and is still waiting otherwise. |
| `NavigationProofs.FirstFixInsideThresholdArrives` | agent/go-service/map-tracker/move.go:146-151 | A first sample inside the arrival threshold ends the leg at once, issuing only the KeyUp W of line 194. |
| `NavigationProofs.RunCompletesIffAllArrive` | agent/go-service/map-tracker/move.go:70-195 | A run completes exactly when every leg arrives. |
| `NavigationProofs.RunStopsAtFirstFailure` | agent/go-service/map-tracker/move.go:70-195 | The legs before the stopping point arrived, and the status reports how the first non-arriving leg ended. |
| `NavigationProofs.RunCommandsAreLegCommands` | agent/go-service/map-tracker/move.go:70-195 | A run's commands are its legs' commands in order, up to and including the first leg that did not arrive. |
| `NavigationProofs.RunNotifiesOnce` | agent/go-service/map-tracker/move.go:56-204 | A run issues the emergency notification once if a progress failure aborted it, and never otherwise. |
| `Pixels.RectFromPrefixes` | agent/go-service/map-tracker/utils.go:61-70 | Any rectangle's sum is the inclusion–exclusion of four prefix sums. |
| `Pixels.EmptyPrefixes` | agent/go-service/map-tracker/utils.go:32-33 | The prefix sums of row 0 and column 0 are zero. |
| `Pixels.UniformRectSum` | agent/go-service/map-tracker/utils.go:43-48 | A uniform rectangle sums to its area times the pixel's channel sum, or channel square sum. |
| `Integral.IdxInGrid` | agent/go-service/map-tracker/utils.go:62-65 | Every grid cell (x, y) with 0 ≤ x ≤ W and 0 ≤ y ≤ H, the four corners of a query included, lies in [0, (W+1)(H+1)). |
| `Integral.NewIntegralImage` | agent/go-service/map-tracker/utils.go:29-58 | Cell (x, y) of both tables holds the brute-force sum of r+g+b, resp. r²+g²+b², over [0, x) × [0, y). Row 0 and column 0 are zero. |
| `Integral.PrefixRow` | agent/go-service/map-tracker/utils.go:40-55 | The running row sum added to the cell above gives, column by column, the prefix sums of the next row. |
| `Integral.GetAreaStats` | agent/go-service/map-tracker/utils.go:60-70 | For every frame the tables were built from, the result equals the brute-force sum and squared sum over [x, x+w) × [y, y+h). |
| `Integral.AreaStatsCorrect` | agent/go-service/map-tracker/utils.go:64-68 | The four-cell difference of either table is the rectangle's brute-force sum. |
| `Ncc.DotProduct` | agent/go-service/map-tracker/utils.go:210-222 | The uint64 accumulator equals the sum over needle pixels and channels 0..2 of haystack·needle, modulo 2^64. It equals the sum itself when w·h·195075 < 2^64. |
| `Ncc.RowProduct` | agent/go-service/map-tracker/utils.go:213-221 | The row loop leaves the accumulator equal to the running exact sum plus that row's channel products, modulo 2^64. |
| `Ncc.WindowBound` | agent/go-service/map-tracker/utils.go:210-222 | The unwrapped dot product is at most w·h·3·255². |
| `Ncc.NccTail` | agent/go-service/map-tracker/utils.go:223-231 | No channels gives NaN. A radicand below 1e-12, that is a deviation below 1e-6, gives the score 0. Otherwise the result is a quotient whose radicand is at least 1e-12. |
| `Ncc.ComputeNccFast` | agent/go-service/map-tracker/utils.go:207-232 | On the integral-image statistics the result equals the tail on the brute-force sums. An empty needle is NaN, and a window is flat exactly when its radicand is below 1e-12. |
| `Ncc.VarianceNonNegative` | agent/go-service/map-tracker/utils.go:226-227 | The radicand under `math.Sqrt` is never negative (Cauchy–Schwarz), so the root never sees a negative argument. |
| `Ncc.GreyWindowIsFlat` | agent/go-service/map-tracker/utils.go:225-230 | A window of one grey (c, c, c) has radicand 0, so it is flat. |
| `Ncc.BlueWindowIsNotFlat` | agent/go-service/map-tracker/utils.go:225-230 | A pure-blue window of area n has radicand 43350·n, so it is not flat. |
| `Matcher.Best` | agent/go-service/map-tracker/utils.go:186-192 | The fold scores at least its seed and every candidate, and returns the seed or a candidate. |
| `Matcher.Better` | agent/go-service/map-tracker/utils.go:177-179 | The kept match scores at least both the current best and the candidate. The candidate is kept only when it scores strictly more, so a tie keeps the current best. |
| `Matcher.BestIsFirstMaximum` | agent/go-service/map-tracker/utils.go:177-179 | Strict replacement keeps the earliest candidate with the highest score. With no candidate above the seed, the seed is returned. |
| `Matcher.BestScoreOrderFree` | agent/go-service/map-tracker/utils.go:186-192 | The reduced score is the same for any arrival order of the workers' results. |
| `Matcher.Range` | agent/go-service/map-tracker/utils.go:174-175 | The loop visits lo + i·step in increasing order, all within [lo, hi). |
| `Matcher.RangeMembers` | agent/go-service/map-tracker/utils.go:174-175 | A value is visited exactly when it lies in [lo, hi) at a whole number of steps from lo. |
| `Matcher.Grid` | agent/go-service/map-tracker/utils.go:174-175 | The nested loops visit exactly the pairs of a row value and a column value, one per pair, in row-major order: with n column values, (xs[j], ys[i]) comes at position i·n + j. |
| `Matcher.Scan` | agent/go-service/map-tracker/utils.go:176 | Every scanned offset appears with its own score, and nothing else does. The candidates keep the order of the offsets, one per offset. |
| `Matcher.WorkerOffsets` | agent/go-service/map-tracker/utils.go:171-175 | Worker id scores exactly the in-range offsets whose column is a multiple of 3 and whose row is 3·id modulo 18, in row-major order of its two loops. |
| `Matcher.WorkersDisjoint` | agent/go-service/map-tracker/utils.go:171-175 | No offset is scored by two workers. |
| `Matcher.WorkersCoverGrid` | agent/go-service/map-tracker/utils.go:167-175 | Each coarse-grid offset is scored by worker (y mod 18) / 3, and every scored offset is on the grid. |
| `Matcher.Worker` | agent/go-service/map-tracker/utils.go:172-183 | A worker's local best is (0, 0, -1) or one of its own offsets with that offset's score, and it scores at least every offset the worker scans. |
| `Matcher.Coarse` | agent/go-service/map-tracker/utils.go:167-192 | The reduced coarse best is (0, 0, -1) or a coarse-grid offset with its own score, so it is in range whenever the range is non-empty. It scores at least every local best and every offset of the coarse grid. |
| `Matcher.WorkerFirstMaximum` | agent/go-service/map-tracker/utils.go:174-181 | Among equal scores a worker keeps the earliest offset of its row-major scan. When no offset scores above -1 it keeps the seed (0, 0, -1). |
| `Matcher.RefineOffsets` | agent/go-service/map-tracker/utils.go:196-197 | The refinement scans exactly the in-range offsets within ±2 of the coarse best, in row-major order of the clamped loops. |
| `Matcher.Refine` | agent/go-service/map-tracker/utils.go:194-204 | The refined result scores at least the coarse best and every in-range offset within ±2 of it. It is the coarse best, or a window offset with its own, strictly higher score. |
| `Matcher.RefineFirstMaximum` | agent/go-service/map-tracker/utils.go:194-203 | Among equal scores the refinement keeps the earliest offset of its row-major window scan. It keeps the coarse best unless some window offset scores strictly more. |
| `Matcher.MatchTemplate` | agent/go-service/map-tracker/utils.go:148-205 | An oversized needle gives (0, 0, 0.0). Otherwise the offset keeps the needle inside the haystack, and the score is at least every coarse-grid score and every in-range score within ±2 of the coarse best. The result is the coarse best or a strictly better offset near it. |
| `Crop.CropWindow` | agent/go-service/map-tracker/utils.go:72-75 | The window starts at or after 0, ends at or before the bounds, and is at most 2·radius + 1 wide and tall. |
| `Crop.CropWindowExact` | agent/go-service/map-tracker/utils.go:73-75 | A column or row is inside the window exactly when it is inside the image and within radius of the centre. |
| `Crop.CropWindowHoldsCentre` | agent/go-service/map-tracker/utils.go:73-75 | With the centre inside the image and a non-negative radius, the window contains the centre. |

## Left out

- JSON decoding in `parseParam` is not modelled. Its error path is not modelled either. `Params.ParseParam` starts from the decoded record.
- The error messages are not modelled. They are the `ParamError` values.
- `DEFAULT_MOVING_PARAM`, `INFER_INTERVAL_MS` and the `KEY_*` constants are not part of this model. The defaults are a parameter of `Params.ParseParam`.
- The infer interval and its sleeps are not modelled.
- Logging is not modelled.
- `math.Atan2` in `calcTargetRotation` is floating point. The bearing is an input of the cycle.
- `math.Hypot` is not modelled. Distances are compared squared.
- `doInfer` is left out: screen capture, framework recognition and JSON unmarshalling. A cycle receives its outcome as a sample or as none.
- `doEmergencyStop`, `ActionWrapper`, `RotateCamera` and the `maafocus` notifications are controller and UI calls. They are command tokens here. The moving and finished UI messages are not modelled.
- Navigation.Run: returns a status and a command list instead of Go's `bool`. The Go function returns true exactly for `Completed`.
- Navigation.Navigate: a leg is driven by a finite trace of observations. A trace that runs out mid-leg ends as `Continue`, which the run reports as `Pending`.
- `GetNeedleStats`, `math.Sqrt` and the final division of `computeNCCFast` are floating point and are left out. A scored offset keeps its numerator and radicand.
- The needle deviation `dn` is not checked by the source. A uniform needle divides by zero there. The model does not go beyond returning the quotient's parts.
- Ncc.NccTail: the `Undefined` result stands for Go's NaN. The model's scores are exact reals, so NaN comparisons (always false) are not part of the search model.
- Matcher.MatchTemplate: the per-offset score is an arbitrary function `score(x, y)` instead of `computeNCCFast`.
- The goroutines and the result channel of `MatchTemplateOptimized` are not modelled. The six workers are a sequence reduced in worker order. The reduced score does not depend on the order (`Matcher.BestScoreOrderFree`). Among equal scores, the offset kept may depend on arrival order.
- `scaleImage`, `rotateImageRGBA` and `ToRGBA` are float geometry and library calls.
- The `SubImage` / `draw.Draw` path of `cropArea` is not modelled. Only the window arithmetic is.
- Integer width is not modelled: int and int64 are unbounded here. The uint64 dot product is the one place where wrap-around is written out.
- `agent/go-service/pkg/maafocus/maafocus.go` is a UI notification wrapper.
- `agent/cpp-algo/source/my_reco_1/my_reco_1.cpp` is a sample recogniser that returns constants.
