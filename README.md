# IoU range sampler — Dafny model

The program estimates, by Monte Carlo sampling, the range of bounding-box
regression targets seen when random candidate boxes are matched against a
fixed reference rectangle. A sampler object (`random_box`) holds the reference
rectangle and five running `(min, max)` ranges (IoU, dx, dy, dw, dh). Each
trial draws boxes until one has IoU above 0.8 with the reference. `compute_iou`
puts the candidate's corners in order in place and folds every IoU it computes
into the IoU range. The accepted box's centre offsets and log size ratios are
then folded into the other four ranges.

This project models the deterministic part of that program over `real`
coordinates:

- `geometry.dfy` (module `Geometry`): the pure helpers. These are `max`/`min`,
  `get_whxy`, the swap steps as a function, the intersection, the IoU, and the
  dx/dy centre offsets.
- `ranges.dfy` (module `Ranges`): the `(min, max)` range value and its fold.
  It also holds the in-place `write_to_range` on a mutable range tuple.
- `sampler.dfy` (module `Sampler`): the `random_box` class. It has the
  constructor, `compute_iou` swapping a caller-owned box in place, and one
  attempt of `get_box`.

The reference-area formula is modelled exactly as written. Its width term
subtracts the reference's y1 instead of its x1. `RefAreaIsArea` shows this is
the true area whenever the reference's x1 equals its y1, which holds for the
reference `(0, 0, 10, 10)` used by the program. `RefAreaDefectExample` shows a
reference where it is not, and IoU reaches 2 there. When the formula gives a
negative area, the IoU can be negative: `NegativeIouExample` shows the reference
(0, 20, 10, 30) scoring -1 against itself.

The range fold is modelled exactly as written too. It is an if / else-if, and
the ranges start at the sentinel `(999, -1)`, whose minimum is above its
maximum. Folding from a proper range gives the exact minimum and maximum
(`FoldAllProper`). From any start, including the sentinel, the minimum after
a run is the least of the start value (999 for the sentinel) and the values
written (`FoldAllLo`). The maximum can stay at -1, though, as `DecreasingRunKeepsHi`
and `SentinelDecreasingRun` show.

## Model

| member | source | states |
|---|---|---|
| `Geometry.Max` | src/main.rs:83-85 | the result is one of the two arguments and is at least both |
| `Geometry.Min` | src/main.rs:86-88 | the result is one of the two arguments and is at most both |
| `Geometry.GetWhxy` | src/main.rs:90-96 | width, height and centre determine the box back (`Corners` inverts it); for an ordered box w, h >= 0 and the centre lies between the corresponding corners |
| `Geometry.Normalized` | src/main.rs:53-62 | after the two swap steps x1 <= x2 and y1 <= y2; each axis keeps its two values, possibly exchanged; an ordered box is left unchanged |
| `Geometry.NormalizedIdempotent` | src/main.rs:53-62 | normalising twice equals normalising once |
| `Geometry.Area` | src/main.rs:64 | the box area; non-negative for an ordered box and positive when both sides are positive |
| `Geometry.RefArea` | src/main.rs:63 | the reference area exactly as written, with the reference's y1 in the width term: it is the true area plus (x1 - y1) times the height |
| `Geometry.Intersection` | src/main.rs:66-70 | the intersection corners lie inside both the box and the reference, each taken from one of the two |
| `Geometry.IntersectionNonEmpty` | src/main.rs:66-74 | the intersection is non-empty on both axes exactly when the two boxes' open intervals meet on both axes |
| `Geometry.IntersectionArea` | src/main.rs:64-76 | a non-empty intersection has strictly positive area, no larger than the box's or the reference's |
| `Geometry.Iou` | src/main.rs:63-79 | defined whenever the denominator of line 77 is non-zero; None exactly when the box and the reference do not overlap on some axis; otherwise the ratio, strictly positive when the line-63 area is positive |
| `Geometry.IouRatio` | src/main.rs:77 | for an intersection that is positive and within the box, the ratio is positive when the reference area is, at most 1 when the intersection is at most the reference area, and then 1 only when intersection, box area and reference area coincide |
| `Geometry.PositiveRefAreaDefined` | src/main.rs:63-77 | a positive line-63 area keeps the IoU denominator non-zero for every box |
| `Geometry.NegativeIouExample` | src/main.rs:63-77 | the reference (0, 20, 10, 30), whose line-63 area is -100, gets IoU -1 against itself |
| `Geometry.RefAreaIsArea` | src/main.rs:63 | the line-63 formula equals the reference's true area when its x1 equals its y1 |
| `Geometry.IouAtMostOne` | src/main.rs:63-77 | with the reference's x1 equal to its y1, every IoU returned is at most 1 |
| `Geometry.IouOneIffReference` | src/main.rs:63-77 | for an ordered reference with x1 equal to y1, the IoU is 1 exactly when the box is the reference |
| `Geometry.RefAreaDefectExample` | src/main.rs:63 | for the reference (0, 5, 10, 10) the formula gives area 25, and the reference's IoU with itself is 2 |
| `Geometry.DisjointExample` | src/main.rs:72-74 | the box (20, 20, 30, 30) has no IoU with the reference (0, 0, 10, 10) |
| `Geometry.CentreOffset` | src/main.rs:38-42 | moving the box centre by dx widths and dy heights lands exactly on the reference centre |
| `Geometry.CentreOffsetSameCentre` | src/main.rs:38-42 | a box with the reference's centre gets dx = dy = 0 |
| `Geometry.CentreOffsetOfTranslate` | src/main.rs:38-42 | a copy of the reference moved by (tx, ty) gets dx = -tx / w and dy = -ty / h |
| `Ranges.Folded` | src/main.rs:98-104 | the minimum becomes min(lo, v), the maximum never falls, at most one bound changes, a value below lo leaves hi alone, a value inside the range changes nothing, and a proper range becomes the exact hull |
| `Ranges.FoldAllMonotone` | src/main.rs:98-104 | over any run of writes the minimum never rises and the maximum never falls |
| `Ranges.FoldAllLo` | src/main.rs:98-104 | after a run the minimum is the least of the start and all values written |
| `Ranges.FoldAllProper` | src/main.rs:98-104 | from a proper range a run stays proper and covers every value written, with the maximum the start's or a written value |
| `Ranges.DecreasingRunKeepsHi` | src/main.rs:98-104 | a strictly decreasing run starting below the minimum never changes the maximum |
| `Ranges.SentinelDecreasingRun` | src/main.rs:17 | from the sentinel (999, -1) the IoUs 0.9, 0.85 leave the range at (0.85, -1) |
| `Ranges.WriteToRange` | src/main.rs:98-104 | the tuple updated in place holds the fold of its old value with the written value |
| `Sampler.RandomBox.constructor` | src/main.rs:16-20 | accepts any reference; keeps low, up and the reference; all five ranges start at the sentinel (999, -1) as separate tuples |
| `Sampler.RandomBox.ComputeIou` | src/main.rs:52-80 | the caller's box is normalised in place; the result is the IoU of the normalised box; the IoU range is folded with it on the Some path and unchanged on the None path; nothing else changes |
| `Sampler.RandomBox.GetBoxAttempt` | src/main.rs:28-50 | one draw: accepted exactly when the IoU is present and above 0.8; then the box has positive sides and dx, dy, dw, dh are folded into their ranges; otherwise those four ranges are unchanged |

## Left out

- `random` (src/main.rs:22-26) and the random generator are not modelled. The drawn box is the `candidate` parameter of `GetBoxAttempt`.
- The unbounded retry loop of `get_box` (src/main.rs:30-36) is modelled as one attempt, `GetBoxAttempt`. Whether the loop ends depends on the random draws.
- `f32::ln` for dw and dh (src/main.rs:43-44) is the `ln` parameter of `GetBoxAttempt`. Nothing is proved about logarithms.
- `main` (src/main.rs:107-122) is not modelled. It is a printing driver with a fixed trial count.
- f32 rounding, NaN and infinities are not modelled. Coordinates are exact reals.
- Sampler.RandomBox.ComputeIou: requires the line-77 denominator (line-63 area + box area - intersection) to be non-zero when the normalised box overlaps the reference. With a zero denominator f32 yields an infinite or NaN IoU, which reals cannot represent. A positive line-63 area always meets this (`PositiveRefAreaDefined`). Negative areas are admitted and can give a negative IoU (`NegativeIouExample`).
- Sampler.RandomBox.GetBoxAttempt: carries the same non-zero-denominator requirement on the drawn box, for the same reason.
- Geometry.Iou: carries the same requirement, as `IouDefined`.
- `low` and `up` are stored but not used, because only `random` reads them.
