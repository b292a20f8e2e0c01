# Billiard particle visualiser: a Dafny model of its simulation core

`script-backup.js` draws a group of particles that bounce around a table. The
table is a rectangle, a circle, an ellipse or an irregular closed curve. The
irregular curve is a closed Catmull-Rom spline through control points
generated by a seeded linear congruential generator, and the user can drag
those points with the mouse. Every particle leaves a trail of the positions it
has visited.

This project models that core in Dafny:

- `Geometry` (`geometry.dfy`): points over `real` and specular reflection. It
  also holds `Host`, the browser's `Math.sqrt`, `Math.atan2`, `Math.cos` and
  `Math.sin`, passed in as functions. The model relies only on the facts
  `Host.Valid` states about them: the square root is the non-negative root,
  `atan2` lies in `[-PI, PI]`, and `cos^2 + sin^2 = 1`.
- `Spline` (`spline.dfy`): `catmullRom` and `interpolateBoundary`. The latter
  samples the closed curve at 512 points, taking control points cyclically.
- `Rng` (`rng.dfy`): the generator `seed := (seed * 1664525 + 1013904223) mod 2^32`,
  the radius perturbation, and `generateIrregularEllipse`.
- `Collision` (`collision.dfy`): the per-shape wall responses of
  `updateParticles`, and one particle's frame (`Step`).
- `Simulation` (`simulation.dfy`):
  - the `updateParticles` loop, including the scan for the boundary sample
    nearest in angle;
  - the layout of a new group (`initParticle`) for all four shapes;
  - the `parseInt(...) || fallback` defaults;
  - the speed slider's rescaling.
- `Editor` (`editor.dfy`): the `mousedown`, drag, `mouseup` and `mouseleave`
  handlers acting on the control points and the sampled boundary.

Where the program divides by a length or a radius that could be zero, it
would compute `NaN` or `Infinity`. The model makes those divisors non-zero a
precondition. Each shape has a `Defined` predicate for this: it holds when
the particle does not touch the wall, or when every divisor the response
uses is non-zero.

## Model

| member | source | states |
|---|---|---|
| `Geometry.Reflect` | script-backup.js:474-477 | For a unit normal `n`, the reflected velocity's component along `n` is the negative of the original one. |
| `Geometry.ReflectPreservesSpeed` | script-backup.js:474-477 | Reflection across a unit normal keeps the squared speed. |
| `Geometry.ReflectKeepsTangent` | script-backup.js:474-477 | Reflection leaves the velocity's component along any direction orthogonal to the normal unchanged. |
| `Geometry.ReflectInvolutive` | script-backup.js:474-477 | Reflecting twice across the same unit normal gives the original velocity back. |
| `Geometry.ReflectReversesNormalMotion` | script-backup.js:474-477 | A velocity along the normal is sent straight back. |
| `Geometry.DivideByLengthIsUnit` | script-backup.js:460-463 | Dividing a vector by its length gives a unit vector whose dot product with the original is that length. |
| `Geometry.SqrtLessIff` | script-backup.js:691-693 | Comparing a square root with a non-negative bound is the same as comparing the squares. |
| `Spline.CatmullRom` | script-backup.js:2-12 | A segment starts at `p1` (`t = 0`) and ends at `p2` (`t = 1`). |
| `Spline.SegmentsJoinSmoothly` | script-backup.js:2-12 | Consecutive segments meet at the shared control point with the same slope, `(p3 - p1) / 2`. |
| `Spline.CatmullRomTranslates` | script-backup.js:2-12 | Translating the four control values translates the curve by the same amount. |
| `Spline.SegmentOf` | script-backup.js:61-64 | Sample `i` falls in a segment `0 <= index < n` with local parameter in `[0, 1)`, and `index + localT` is exactly `(i / 512) * n`, the curve parameter of the sample. |
| `Spline.NeighbourIndices` | script-backup.js:66-70 | The four control-point indices are valid and consecutive modulo `n`, and the second is the segment index itself. |
| `Spline.InterpolateBoundary` | script-backup.js:54-78 | Exactly 512 x values and 512 y values, each the Catmull-Rom value of its segment. |
| `Spline.PassesThroughControlPoints` | script-backup.js:54-78 | When `i * n` is a multiple of 512, sample `i` is exactly control point `i * n / 512`. |
| `Spline.EveryControlPointIsSampled` | script-backup.js:54-78 | When `n` divides 512, every control point appears on the sampled curve. |
| `Spline.StartsAtFirstControlPoint` | script-backup.js:54-78 | The sampled curve starts at the first control point. |
| `Rng.Next` | script-backup.js:20-23 | The generator state stays below 2^32. |
| `Rng.Random` | script-backup.js:20-23 | Each draw returns a value in `[0, 1)` that is the new seed divided by 2^32. |
| `Rng.SeedAfter` | script-backup.js:15-24 | The seed after any number of draws stays below 2^32. |
| `Rng.StepIsExact` | script-backup.js:21 | `seed * 1664525 + 1013904223` stays below 2^53 for every reachable seed, so the double arithmetic is exact. |
| `Rng.PerturbationBounds` | script-backup.js:42 | The perturbation lies in `[-irregularity, irregularity)` and is zero when the irregularity is zero. |
| `Rng.GenerateControlPoints` | script-backup.js:26-50 | One control point per requested count (none for a non-positive count); point `i` uses angle `2 PI i / n` and draw `i`. |
| `Rng.GenerateIrregular` | script-backup.js:26-52 | The boundary returned is the curve interpolated through the control points returned. |
| `Rng.ControlPointDistance` | script-backup.js:43-48 | Each control point lies at its perturbed radius from the canvas centre. |
| `Rng.ControlRadiusBounds` | script-backup.js:36-43 | The perturbed radius lies between `1 - irregularity` and `1 + irregularity` times the base radius, and equals it when the irregularity is zero. |
| `Rng.ZeroIrregularityGivesBaseRadius` | script-backup.js:26-50 | With zero irregularity, every control point is exactly `BaseRadius = sqrt((rx cos θ)^2 + (ry sin θ)^2)` from the canvas centre in its direction θ, whatever the seed. |
| `Collision.BounceAxis` | script-backup.js:487-495 | On a touched axis the velocity is negated and the position is clamped to `[r, extent - r]`. An untouched axis is unchanged. A position already inside the band is kept. |
| `Collision.RectangleResponse` | script-backup.js:487-495 | The two axes answer independently. Each velocity component flips exactly when its own pair of walls is touched. A coordinate whose walls are not touched keeps its value. Each coordinate ends within `[r, extent - r]` when the table is at least `2r` along that axis. With no wall touched, nothing changes. |
| `Collision.CircleResponse` | script-backup.js:362-382 | No contact leaves the motion unchanged. On contact the velocity is reflected across the radial normal. |
| `Collision.CircleBounce` | script-backup.js:362-382 | After a contact the normal is a unit vector, the speed is kept and the radial motion is reversed. The particle then sits exactly `R - r` from the centre. |
| `Collision.EllipseResponse` | script-backup.js:383-412 | No contact leaves the motion unchanged. On contact the velocity is reflected across the normalised gradient. |
| `Collision.EllipseValueScales` | script-backup.js:389-390 | Scaling the offset by `k` scales the ellipse value by `k^2`. |
| `Collision.EllipseBounce` | script-backup.js:383-412 | After a contact the speed is kept and the normal motion is reversed. The particle lies strictly inside, on the level curve `0.99^2`. |
| `Collision.AngleDiff` | script-backup.js:431-433 | For angles in `[-PI, PI]` the wrapped difference lies in `[0, PI]`. |
| `Collision.AngleDiffSymmetric` | script-backup.js:431-433 | The wrapped difference does not depend on argument order. |
| `Collision.AngleDiffZeroIff` | script-backup.js:431-433 | The difference is zero exactly when the angles are equal or are `-PI` and `PI`. |
| `Collision.FirstMinimum` | script-backup.js:423-439 | The chosen index holds the smallest entry, and every earlier entry is strictly larger. |
| `Collision.FirstMinimumUnique` | script-backup.js:423-439 | Those two properties determine the index. |
| `Collision.AngleDiffs` | script-backup.js:426-433 | One wrapped angular distance per boundary sample, each in `[0, PI]`. |
| `Collision.NearestSampleIsClosest` | script-backup.js:423-439 | No sample is angularly closer to the particle than the chosen one, and every earlier sample is strictly farther. |
| `Collision.TangentWindow` | script-backup.js:449-451 | `prev` and `next` are valid indices 5 before and 5 after the nearest sample, cyclically. They equal `k - 5` and `k + 5` away from the seam. |
| `Collision.InwardNormal` | script-backup.js:456-472 | The normal is orthogonal to the chord, of unit length, and does not point away from the centre. |
| `Collision.IrregularResponse` | script-backup.js:413-484 | An empty boundary or a particle short of the boundary leaves the motion unchanged. On contact the velocity is reflected across the inward normal at the nearest sample. |
| `Collision.IrregularBounceVelocity` | script-backup.js:474-477 | After a contact the speed is kept, the normal motion is reversed, and the motion along the chord is kept. |
| `Collision.IrregularBouncePosition` | script-backup.js:479-483 | After a contact with a non-negative target, the particle is exactly the target distance from the centre, and strictly nearer than before when `r > 0`. |
| `Collision.RescaleToDistance` | script-backup.js:480-483 | Moving along the ray from the centre by `target / distance` puts the point `target` from the centre. |
| `Collision.Respond` | script-backup.js:362-496 | For every shape, no contact means no change, and the speed is always kept. |
| `Collision.Step` | script-backup.js:357-499 | A particle whose moved position touches no wall ends there with its velocity unchanged. The trail grows by exactly the new position. Radius, colour and speed are kept. |
| `Simulation.ScanMinimum` | script-backup.js:423-439 | The loop starting from an infinite minimum returns an index in range whose distance is at most every other one and strictly below every earlier one, i.e. the first index of the smallest angular distance. |
| `Simulation.ScanNearest` | script-backup.js:418-439 | The scan returns a sample in range that no other sample beats in angular distance from the particle's bearing, and every earlier sample is strictly farther. |
| `Simulation.RespondIrregular` | script-backup.js:413-484 | The program's irregular branch leaves a particle clear of the wall untouched and keeps the speed of a bouncing one. |
| `Simulation.StepParticle` | script-backup.js:357-499 | The program's per-particle body grows the trail by the new position, moves a particle that meets no wall by its velocity, and keeps radius, colour and speed. |
| `Simulation.UpdateParticles` | script-backup.js:356-501 | Every particle takes its `Step`, and the group keeps its size. Trails grow by one position, and radii, colours and speeds are kept. |
| `Simulation.CountOrDefault` | script-backup.js:191 | Not-a-number and 0 give the fallback. Every other number, negative ones included, is kept. |
| `Simulation.LaunchVelocity` | script-backup.js:220-221 | The shared initial velocity has squared length `speed^2`. |
| `Simulation.NewGroup` | script-backup.js:217-224 | One particle per start position, with radius 6, the `i`-th palette colour, and a trail holding only its start. |
| `Simulation.LineSpacing` | script-backup.js:271-275 | Neighbours on a line are exactly 2 apart, along the line's axis only. |
| `Simulation.LineCentred` | script-backup.js:204-205 | A line is symmetric about the launch point. |
| `Simulation.ArcAngles` | script-backup.js:213 | Neighbours on an arc are one angular step apart, and the arc is centred on the launch bearing. |
| `Simulation.ArcOnCircle` | script-backup.js:213-215 | Every start position on a circular arc is `R` from the centre. |
| `Simulation.ArcOnEllipse` | script-backup.js:234-236 | Every start position on an elliptic arc lies on the ellipse. |
| `Simulation.Spawn` | script-backup.js:200-288 | `n` particles for positive `n` and none otherwise. Particle `i` starts at the `i`-th start position of the shape, with the shared launch velocity at the slider speed, colour `i mod 10` of the palette, and a trail of its start only. |
| `Simulation.RectangleGroupFollowsEdge` | script-backup.js:265-274 | On the top or bottom edge particle `i` keeps the launch `y` and sits at the launch `x` plus its offset; on a side edge it keeps the launch `x` and sits at the launch `y` plus its offset. |
| `Simulation.IrregularGroupIsHorizontal` | script-backup.js:248-262 | The irregular shape's group is a horizontal line through the launch point. |
| `Simulation.CircleGroupOnWall` | script-backup.js:207-226 | The circle's group starts on the circle. |
| `Simulation.EllipseGroupOnWall` | script-backup.js:227-247 | The ellipse's group starts on the ellipse. |
| `Simulation.ColoursCycle` | script-backup.js:223 | Particles ten apart share a colour. |
| `Simulation.Renormalise` | script-backup.js:569-574 | A velocity the host measures as not positive is left alone. |
| `Simulation.RenormaliseSetsSpeed` | script-backup.js:568-575 | A moving particle takes squared speed `newSpeed^2` and keeps its direction: the new velocity is the old one times `newSpeed / speed`. |
| `Simulation.RenormaliseTwice` | script-backup.js:562-576 | Moving the slider to a positive value and then to another is the same as moving it straight to the last. |
| `Simulation.SetSpeed` | script-backup.js:568-575 | Positions, trails, radii and colours stay. Every moving particle takes squared speed `newSpeed^2`, and a particle at rest is left alone. |
| `Editor.NearIff` | script-backup.js:691-693 | Grabbing distance means squared distance below `15^2`. |
| `Editor.FirstNear` | script-backup.js:689-698 | It returns the first control point within grabbing distance, or nothing exactly when none is near. |
| `Editor.Press` | script-backup.js:681-699 | A press changes only the grab. It grabs only on the irregular shape, and only a control point the mouse is near. On the irregular shape, when some control point is near, it does grab: the first near one. |
| `Editor.MouseDown` | script-backup.js:681-699 | The handler's loop computes `Press`. |
| `Editor.PressKeepsConsistent` | script-backup.js:681-699 | A press keeps the boundary the curve through the control points, with any grabbed index in range. |
| `Editor.MouseMove` | script-backup.js:723-729 | While a point is held on the irregular shape, only that control point moves, to the mouse, and the boundary is re-sampled through the moved points. Otherwise nothing changes. |
| `Editor.Release` | script-backup.js:751-763 | `mouseup` and `mouseleave` drop the grab and leave the curve alone. |
| `Editor.MouseMoveKeepsConsistent` | script-backup.js:723-729 | Dragging keeps the boundary the curve through the control points. |
| `Editor.MoveAfterReleaseIsInert` | script-backup.js:723-763 | After a release, moving the mouse changes nothing. |
| `Editor.DraggedPointOnCurve` | script-backup.js:723-729 | When the point count divides 512, the re-sampled curve passes exactly through the mouse. |
| `Editor.DragBackRestores` | script-backup.js:723-729 | Dragging a point back where it was restores the editor state. |

## Left out

- Drawing, the animation loop, pause and reset, the DOM controls and the cursor style are not modelled. The mouse's position on the canvas and the particle count arrive as parameters.
- `Math.random` and `getRandomEdgePosition` (lines 125-187) are not modelled. The launch point and direction are a `Launch` parameter.
- IEEE-754 doubles are modelled as exact reals. The generator is the exception: `Rng.StepIsExact` shows its double arithmetic is exact.
- The ellipse value `dx^2/a^2 + dy^2/b^2` is written as the squared length of `(dx/a, dy/b)`. The two are equal over the reals.
- A `NaN` or `Infinity` from a zero divisor is excluded by a `Defined` precondition rather than modelled. This covers a particle at the exact centre of the circle, a hit particle at the exact centre of the irregular shape (the divisor at script-backup.js:481), and a degenerate chord on the irregular curve. On the ellipse a hit never happens at the centre, so there the condition only asks the host's square root to behave.
- `Simulation.Spawn` requires non-zero circle and ellipse radii, for the same reason.
- `generateIrregularEllipse` with a non-positive count yields no control points, and `interpolateBoundary` then fails. `Rng.GenerateIrregular` therefore requires at least one control point.
- `Rng.Next` requires a seed below 2^32. The seed starts at 42, the regenerate button sets it to a whole number below 10000 (script-backup.js:663), and every later seed is a remainder mod 2^32.
- Irregular boundaries are required to have 0 samples or at least 5 (`BoundaryShaped`), so the neighbour window of 5 is meaningful. The program always produces 512.
- `Collision.IrregularBouncePosition` states the distance only when the target `boundaryDist - 2r` is non-negative. A negative target sends the particle through the centre to the opposite side, and the model computes that but states nothing about it.
- `Collision.CircleBounce` gives the exact distance `R - r` only when `r <= R`.
- `Collision.RectangleResponse` states containment on an axis only when the table is at least `2r` along that axis.
- `Simulation.Spawn` takes the irregular boundary as given. When the boundary is still empty, `initParticle` first generates it (script-backup.js:195-199); that lazy step is not modelled, though the generator it calls is `Rng.GenerateIrregular`.
- `Editor.MouseMove` requires the grabbed index to be in range while a point is held. An out-of-range index makes the program throw.
- The hover test in `mousemove` (lines 708-721) only sets the cursor and is not modelled.
