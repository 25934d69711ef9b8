# Hand direction arrow trails

A model of `HandDirectionController` from the JMocap motion-capture viewer.
For one bone of one figure over a range of frames, the controller shows an
arrow glyph that points the way the bone is moving. It does this in four steps.

1. **Sampling.** It steps the figure's player through every frame of the
   range and records one arrow per frame at the bone's world position. Then
   it sends the player back to the time of the frame it started on.
2. **Direction estimation.** With `rate = (int)(fps / 4)`, every frame
   collects `rate` candidate vectors, for `i = rate` down to 1:
   - a symmetric difference when frames `f - i` and `f + i` both exist;
   - a one-sided difference at the first or last frame of the trail;
   - a zero vector otherwise.

   The frame's direction is the componentwise mean of these candidates.
3. **Trail.** The arrows become the children of a Java3D `Switch`, in
   ascending frame order, so the i-th arrow gets switch index `i`. On every
   frame change, the switch shows the current frame's arrow if its length is
   above 0.3, and no arrow otherwise.
4. **Controller.** It keeps the list of trails. It adds a trail, removes a
   given trail, and removes the trail whose description
   (`figure - bone - start - end`) matches a string. Adding and removing a
   given trail first look up the figure by name. Removal by description
   scans the trails first, and the figure lookup happens only inside the
   removal of the trail that matched.

Modules:
- `Wrappers`: `Option`.
- `Vectors`: coordinates over `real`. Covers `getNewVector` (`Diff`) and the
  averaging loop (`AverageVector`, specified by `Mean`).
- `Arrows`: the arrow record, and the frame-ordered numbering of a map's keys
  (`Indexed`, through `Rank`).
- `Estimator`: `addAngles(map, fps)`, specified by `Estimated` and `Window`.
- `Figures`: what the controller uses of its collaborators:
  - the player: current frame, frame rate, `gotoFrame`, `gotoTime`;
  - bones: a world position per frame, and a length;
  - the figure list, with `getFigure`.
- `Text`: `Double.toString` of whole frame numbers, and the trail
  description.
- `Trails`: the `ArrowTrail` class. Its constructor numbers the switch
  children, `UpdateSwitch` applies the visibility rule, and it also has the
  range setter and `toString`.
- `Controller`: the `HandDirectionController` class.

Two edge cases of the estimation, as the code has them:
- **No branch applies.** The code still adds the zero vector made at line
  196 (added at line 213), so the divisor is always `rate`.
- **No candidates.** With `rate <= 0` the code divides 0.0 by 0 and gets
  NaN components. This is modelled as `Direction.NotANumber`, whose length
  is never above the threshold.

## Model

| member | source | states |
|---|---|---|
| `Vectors.Diff` | src/de/jmocap/vis/handdirection/HandDirectionController.java:104-110 | the vector from `past` to `future`: adding it to `past` gives `future` |
| `Vectors.Mean` | src/de/jmocap/vis/handdirection/HandDirectionController.java:132-145 | a list of candidates has a mean vector exactly when it is non-empty; that vector times the list length is the componentwise sum; an empty list gives NaN, never "unset" |
| `Vectors.AverageVector` | src/de/jmocap/vis/handdirection/HandDirectionController.java:132-145 | the accumulate-then-divide loop computes the mean of the list |
| `Vectors.MeanOfCopies` | src/de/jmocap/vis/handdirection/HandDirectionController.java:132-145 | the mean of a non-empty list of equal vectors is that vector |
| `Estimator.Rate` | src/de/jmocap/vis/handdirection/HandDirectionController.java:191 | `(int)(fps/4)` truncates toward zero: non-negative with `4r <= fps < 4(r+1)` for `fps >= 0`, and the mirror bound for negative `fps` |
| `Estimator.RateOfWholeFps` | src/de/jmocap/vis/handdirection/HandDirectionController.java:191 | for a whole frame rate `n`, the rate is `n / 4` |
| `Estimator.WindowShape` | src/de/jmocap/vis/handdirection/HandDirectionController.java:195-214 | a frame collects exactly `rate` candidates, and the j-th one is the candidate for `i = rate - j` |
| `Estimator.WindowReadsPositionsOnly` | src/de/jmocap/vis/handdirection/HandDirectionController.java:192-216 | candidates depend only on the frames present and their positions, so directions stored earlier in the loop do not change later frames' candidates |
| `Estimator.EstimatedDirections` | src/de/jmocap/vis/handdirection/HandDirectionController.java:192-219 | every arrow is updated and no frame is added or removed; only the direction changes; it is a vector exactly when `rate > 0`, and NaN exactly when `rate <= 0` |
| `Estimator.FirstFrameLooksForward` | src/de/jmocap/vis/handdirection/HandDirectionController.java:202-206 | on a trail of consecutive frames, the first frame's direction is the step to the next frame |
| `Estimator.LastFrameLooksBack` | src/de/jmocap/vis/handdirection/HandDirectionController.java:207-211 | on a trail of consecutive frames, the last frame's direction is the step from the previous frame |
| `Estimator.LoneFrameStandsStill` | src/de/jmocap/vis/handdirection/HandDirectionController.java:196-213 | a one-frame trail averages only zero vectors and gets the zero direction |
| `Estimator.UniformMotion` | src/de/jmocap/vis/handdirection/HandDirectionController.java:195-215 | a bone moving by `v` per frame, with `n` frames on each side present, gets direction `(n+1)·v` |
| `Estimator.CollectCandidates` | src/de/jmocap/vis/handdirection/HandDirectionController.java:194-214 | the inner loop builds exactly the candidate window of the frame |
| `Estimator.AddAngles` | src/de/jmocap/vis/handdirection/HandDirectionController.java:189-220 | the loop over the arrows in ascending frame order gives every arrow the mean of the window around the frame the arrow carries, at rate `(int)(fps/4)`; the sampler's maps key every arrow by its own frame, which the caller must provide |
| `Arrows.NextKey` | src/de/jmocap/vis/handdirection/HandDirectionController.java:280 | the sorted map hands out its least remaining frame next |
| `Arrows.IndexedFollowsFrameOrder` | src/de/jmocap/vis/handdirection/HandDirectionController.java:279-284 | the numbering keeps the frames, gives indices in `0..N-1`, and orders them as the frames are ordered (both directions) |
| `Trails.LengthAgainstThreshold` | src/de/jmocap/vis/handdirection/HandDirectionController.java:295 | for a non-negative length `l` with `l² = NormSq(v)`, `l > 0.3` exactly when `NormSq(v) > 0.3²`, so the squared comparison decides as the source's comparison does |
| `Trails.SelectionShowsCurrentArrow` | src/de/jmocap/vis/handdirection/HandDirectionController.java:291-306 | the switch shows a child exactly when the frame has an arrow longer than 0.3, and then the child it shows is that frame's own arrow |
| `Trails.ArrowTrail.constructor` | src/de/jmocap/vis/handdirection/HandDirectionController.java:268-289 | the trail keeps the names and the rate, numbers the arrows in frame order with one switch child each, selects no child, and is active; it starts out satisfying the trail invariant (children in frame order, selected child none or a long arrow) |
| `Trails.ArrowTrail.UpdateSwitch` | src/de/jmocap/vis/handdirection/HandDirectionController.java:291-306 | an active trail selects the frame's arrow if it is long enough and none otherwise; an inactive one keeps its selection; either way the trail invariant holds again, so the selected child is always none or an arrow longer than 0.3 |
| `Trails.ArrowTrail.SetStartAndEnd` | src/de/jmocap/vis/handdirection/HandDirectionController.java:311-314 | records the range shown in the description |
| `Trails.AssignSwitchIndices` | src/de/jmocap/vis/handdirection/HandDirectionController.java:279-284 | the counter loop gives the i-th arrow in frame order switch index `i`, and lists the children in that order |
| `Trails.NumberedStep` | src/de/jmocap/vis/handdirection/HandDirectionController.java:280-283 | numbering the least remaining frame with the current count keeps the loop state |
| `Trails.NumberedDone` | src/de/jmocap/vis/handdirection/HandDirectionController.java:279-284 | when no frame remains, the numbering is the frame-order numbering and the children match it |
| `Text.JavaDoubleText` | src/de/jmocap/vis/handdirection/HandDirectionController.java:338 | `Double.toString` of a whole number has at least three characters and no space |
| `Text.DescriptionOfExample` | src/de/jmocap/vis/handdirection/HandDirectionController.java:338 | frames 0 to 10 of RightHand of Actor1 are described as `Actor1 - RightHand - 0.0 - 10.0` |
| `Text.PlainTextInjective` | src/de/jmocap/vis/handdirection/HandDirectionController.java:338 | distinct frames below ten million in magnitude print differently |
| `Text.DescriptionDeterminesRange` | src/de/jmocap/vis/handdirection/HandDirectionController.java:337-339 | for one figure and bone, equal descriptions mean equal frame ranges |
| `Figures.TimeOfFrameRoundTrip` | src/de/jmocap/vis/handdirection/HandDirectionController.java:66-68 | sending the player to time `frame / fps` lands it on that frame |
| `Figures.FirstNamed` | src/de/jmocap/vis/handdirection/HandDirectionController.java:73-81 | none exactly when no figure has the name; otherwise the first figure with that name |
| `Figures.FindFigure` | src/de/jmocap/vis/handdirection/HandDirectionController.java:73-81 | the scan returns the first figure with an equal name, or null |
| `Controller.SampledShape` | src/de/jmocap/vis/handdirection/HandDirectionController.java:48-65 | a found bone gives exactly the frames `start..end`, `end - start + 1` of them; each arrow carries its frame, the bone's length and position, and no direction; a missing bone or an empty range gives none |
| `Controller.SamplesSize` | src/de/jmocap/vis/handdirection/HandDirectionController.java:56-64 | the loop over `start..end` records `end - start + 1` arrows, and none when `end < start` |
| `Controller.FirstIndex` | src/de/jmocap/vis/handdirection/HandDirectionController.java:239 | the first position that holds the trail |
| `Controller.RemoveFirst` | src/de/jmocap/vis/handdirection/HandDirectionController.java:239 | `List.remove` drops the first occurrence only and keeps the other trails in order; a list without it is unchanged |
| `Controller.RemoveFromDistinct` | src/de/jmocap/vis/handdirection/HandDirectionController.java:233-240 | on a list without repetitions, removal drops exactly that trail from the set of trails and keeps the list free of repetitions |
| `Controller.RemoveAppended` | src/de/jmocap/vis/handdirection/HandDirectionController.java:96 | removing a trail just appended gives the old list back |
| `Controller.ElementsAppend` | src/de/jmocap/vis/handdirection/HandDirectionController.java:95-96 | appending a trail adds it to the set of trails, the same step that registers its listener |
| `Controller.FirstDescribed` | src/de/jmocap/vis/handdirection/HandDirectionController.java:222-228 | none exactly when no trail has the description; otherwise the first trail with it |
| `Controller.HandDirectionController.constructor` | src/de/jmocap/vis/handdirection/HandDirectionController.java:31-39 | starts with no trails and no listeners |
| `Controller.HandDirectionController.NewTangentialArrows` | src/de/jmocap/vis/handdirection/HandDirectionController.java:46-71 | for a known figure, gives the arrows sampled from the bone over the range, and leaves the player on its starting frame after a last `gotoTime(saved / fps)`; for an unknown figure it fails |
| `Controller.HandDirectionController.AddTrail` | src/de/jmocap/vis/handdirection/HandDirectionController.java:87-99 | succeeds exactly when the figure exists. It then appends one new trail and keeps the others in order. The new trail's arrows are the frame-order numbering of the estimated sampled arrows. It starts active, shows nothing, has its range recorded and its listener registered, and the player is back on its frame. Otherwise nothing changes. The no-repetition and listener invariant holds throughout |
| `Controller.HandDirectionController.RemoveTrail` | src/de/jmocap/vis/handdirection/HandDirectionController.java:233-240 | succeeds exactly when the trail's figure exists. It then removes the trail from the list and unregisters its listener. Otherwise nothing changes |
| `Controller.HandDirectionController.RemoveTrailByDescription` | src/de/jmocap/vis/handdirection/HandDirectionController.java:222-228 | removes the first trail whose description matches, as `RemoveTrail` does; with no match, nothing changes |

## Left out

- Java3D scene graph. The model leaves out the root and per-trail `BranchGroup`s, their capabilities, `addChild`/`removeChild`, and the arrow geometry. The Switch is its `whichChild` field plus the list of frames its children draw. `getRoot` and `getTaArMaps` are plain accessors and are not modelled.
- Listener plumbing. `HandDirectionFrameListener` and the player's listener list are not part of this model. Registration is a ghost set of trails in the controller.
- IEEE floating point. Coordinates, frame rates and times are `real`. Lengths are compared on squares; `Trails.LengthAgainstThreshold` ties this to the square-root length. A NaN result is the `NotANumber` direction, not a NaN coordinate.
- `float` frame rates. Rounding in the `float` frame rate, and in the `gotoTime` conversion from frame to time and back, is not modelled. The player's rate is a positive constant, and `gotoTime(t)` lands on `floor(t · fps)`.
- 32-bit `int` overflow. Frame counters and the loop index are unbounded integers. The one effect on behaviour: with `endFrame == Integer.MAX_VALUE` the sampling loop at line 56 never ends, because `i++` wraps around to the most negative `int`; the model's loop ends after `endFrame`.
- `dDistance` (line 50) is computed and never used. It is left out.
- The deprecated `addAngles(Map)` (lines 152-184) and the two-vector `getAverageVector` (lines 119-127) are unused and left out.
- `TangentialArrow` is not part of this model. An arrow is a value holding its frame, its scale, its position, its direction and its switch index. Its length is the norm of the direction, as `setLength(vFinal.length())` sets it. Arrows are not shared outside their map, so updates in place become map updates.
- The player's playback and the bone's skeleton internals are not part of this model. A bone's world position is a given function of the frame.
- Controller.HandDirectionController.NewTangentialArrows: a missing bone gives an empty map, as the null check at line 55 intends. As written, line 53 calls `bone.getLength()` before that check, so a missing bone throws a NullPointerException instead.
- Controller.HandDirectionController.RemoveTrailByDescription: removes only the first matching trail and then stops. The Java for-each loop never reaches a later match: after the removal its iterator either ends, when the removed trail was second to last, or throws ConcurrentModificationException on the next `next()`. The model does not capture that exception.
- Controller.HandDirectionController.AddTrail: an unknown figure makes the Java method throw a NullPointerException at line 89, before anything changes. The model returns `false` and changes nothing. The same holds for `RemoveTrail` at line 235 and for `NewTangentialArrows` at line 50.
- Text.PlainTextInjective: covers frames below ten million in magnitude only. Above that, `Double.toString` switches to scientific notation, which the model produces but does not prove injective.
- Text.DescriptionDeterminesRange: covers frames below ten million in magnitude only, for the same reason.
