# Pyramid rotation controller, modelled in Dafny

The portfolio site shows a ring of section labels around a translucent
pyramid. The user drags or scrolls to turn the ring. On release of a mounted
ring, and on every wheel step that is not ignored (the ring is mounted and no
drag is under way), the ring reports the section nearest to the viewer and
picks a target angle for it along the shorter arc. The ring then coasts on damped
momentum and, once slow, eases toward that target every frame. This project
models that controller and the small viewport classifier that sits beside it,
and proves the properties the code relies on.

Files:

- `numeric.dfy` (module `Numeric`): the JavaScript and three.js arithmetic
  the controller uses, over exact reals. It covers `%` on numbers (truncating
  remainder), `%` on integers, `Math.round` as `Floor(x + 1/2)`,
  `MathUtils.lerp`, and congruence modulo a period.
- `snap.dfy` (module `Snap`): the two pure rules inside the controller. The
  nearest-section rule reduces the angle, rounds it to whole sections and
  reverses the index. The shortest-path rule folds the angle difference to
  within half a turn.
- `pyramid.dfy` (module `Pyramid`): the controller as a class. Its fields
  are the ring rotation, the velocity, the target rotation, the dragging flag
  and the log of reported indices. Its methods are the index-change effect,
  the drag and wheel handlers and the per-frame step. The module also holds
  the momentum lemmas and three worked cases.
- `sizing.dfy` (module `Sizing`): `getScreenType`.

`Math.PI` is the parameter `pi`, which is only assumed positive. So nothing
depends on its numeric value, except the three worked cases: they assume
3.14 < pi < 3.15. The number of sections `N` must be at least 1. The callback
`setCurrentIndex` is the field `reports`, which logs every index passed to it.
`groupRef.current` being null before the ring mounts is the flag `hasGroup`.

## Behaviour worth knowing

- The shortest-path fold gives a difference in the closed interval
  [-pi, pi], and both ends occur. A target exactly half a turn behind is
  reached by turning backwards (`Snap.ShortestDiffKeepsMinusPi`).
- The snap step is an unclamped `lerp(rotation, target, delta * 5)`. It
  overshoots the target when `delta * 5 > 1` and moves away from it when
  `delta * 5 > 2` (`Numeric.LerpDistance`).
- `setCurrentIndex` is called on every release of a mounted ring and on
  every wheel step that is not ignored (the ring is mounted and no drag is
  under way), even when the index has not changed. A wheel step during a
  drag is dropped and reports nothing.
- The fold applies JavaScript's truncating `%` directly to the difference.
  That leaves a value in (-2 pi, 2 pi), and the two `if`s bring it into
  range.

## Model

| member | source | states |
|---|---|---|
| `Numeric.JsRem` | src/components/Pyramid.tsx:67 | JavaScript `%` on numbers: the result has the sign of the dividend, is smaller than the divisor in magnitude, and differs from the dividend by a whole number of divisors |
| `Numeric.JsIntRem` | src/components/Pyramid.tsx:74-77 | `%` on the rounded section count and on the reversed index: the result has the sign of the dividend and is smaller than the divisor in magnitude |
| `Numeric.JsIntRemIsJsRem` | src/components/Pyramid.tsx:74-77 | on integer operands that `%` is exactly JavaScript's `%` on numbers (`JsRem`), so the index arithmetic uses the one truncating remainder |
| `Numeric.Abs` | src/components/Pyramid.tsx:139 | `Math.abs`: the result is non-negative and is either the argument or its negation |
| `Numeric.Lerp` | src/components/Pyramid.tsx:144-148 | `MathUtils.lerp`: factor 0 gives the rotation, factor 1 gives the target, equal ends give that value; further properties in `LerpBetween` and `LerpDistance` |
| `Numeric.Round` | src/components/Pyramid.tsx:74 | `Math.round` gives the unique integer in (x - 1/2, x + 1/2], so halves round up |
| `Numeric.LerpBetween` | src/components/Pyramid.tsx:144-148 | with a factor in [0, 1], the eased rotation lies between the old rotation and the target |
| `Numeric.LerpDistance` | src/components/Pyramid.tsx:144-148 | easing scales the distance to the target by \|1 - t\|: it shrinks for 0 < t < 2 and grows for t > 2 |
| `Snap.Turn` | src/components/Pyramid.tsx:36 | `Math.PI * 2`, a definition; N section angles make one turn (`SectionAngle`) and the fold is congruent modulo it (`ShortestDiff`) |
| `Snap.SectionAngle` | src/components/Pyramid.tsx:26 | the section angle is positive and N of them make one full turn |
| `Snap.SectionRest` | src/components/Pyramid.tsx:32 | `-index * sectionAngle`, a definition; properties in `SectionRestWraps`, `NearestIndexOfRest` and `Retarget` |
| `Snap.NormalizeAngle` | src/components/Pyramid.tsx:67-71 | the normalised rotation lies in [0, 2 pi) and differs from the rotation by whole turns |
| `Snap.NormalizeAngleUnique` | src/components/Pyramid.tsx:67-71 | the normalised rotation is the only value in [0, 2 pi) congruent to the rotation |
| `Snap.NearestIndex` | src/components/Pyramid.tsx:67-77 | the index reported on release or wheel lies in [0, N) for every rotation |
| `Snap.NearestIndexIsNear` | src/components/Pyramid.tsx:67-77 | the reported section's rest angle lies, up to whole turns, within half a section of the rotation |
| `Snap.NearestIndexIsClosest` | src/components/Pyramid.tsx:66-77 | no section at any winding is strictly closer to the rotation than the reported one |
| `Snap.NearestIndexPeriodic` | src/components/Pyramid.tsx:101-111 | adding whole turns to the rotation does not change the reported index |
| `Snap.NearestIndexOfRest` | src/components/Pyramid.tsx:73-82 | for every i in [0, N), the rotation -i * sectionAngle is reported as i, so the rule is a left inverse of the target assignment |
| `Snap.ShortestDiff` | src/components/Pyramid.tsx:36-38 | the folded difference lies in [-pi, pi], and current + difference is congruent to the desired angle |
| `Snap.ShortestDiffKeepsMinusPi` | src/components/Pyramid.tsx:36-38 | the lower end -pi of the fold interval is reached |
| `Snap.Retarget` | src/components/Pyramid.tsx:32-41 | the new target is within half a turn of the current rotation and differs from -index * sectionAngle by whole turns |
| `Snap.RetargetIsShortest` | src/components/Pyramid.tsx:35-41 | among all rest angles of the section (all windings), none is closer to the current rotation than the target |
| `Snap.RetargetAtRest` | src/components/Pyramid.tsx:86-91 | a rotation already at a rest angle of the section is its own target |
| `Snap.RetargetIdempotent` | src/components/Pyramid.tsx:120-125 | recomputing the target from the target itself for the same index changes nothing: once the ring sits on its target, aiming at the same section again keeps it there |
| `Snap.SectionRestWraps` | src/components/Pyramid.tsx:32 | any integer index, in range or not, rests where its residue modulo N rests |
| `Pyramid.Controller.constructor` | src/components/Pyramid.tsx:18-23 | the refs start unmounted, not dragging, at rotation, velocity and target 0, with nothing reported |
| `Pyramid.Controller.AttachGroup` | src/components/Pyramid.tsx:166 | mounting the ring sets only the group reference, and the ring starts unrotated |
| `Pyramid.Controller.OnIndexChange` | src/components/Pyramid.tsx:29-45 | the index effect sets only the target: to the shortest-path target when mounted, else to -index * sectionAngle; either way the target is congruent to the index's rest angle |
| `Pyramid.Controller.DragStart` | src/components/Pyramid.tsx:50-54 | drag start sets the dragging flag, resets the velocity to 0 and records the pointer, and nothing else |
| `Pyramid.Controller.Drag` | src/components/Pyramid.tsx:55-62 | while dragging a mounted ring, rotation grows by dx * 0.01 and velocity becomes exactly that increment; otherwise nothing changes |
| `Pyramid.Controller.DragEnd` | src/components/Pyramid.tsx:63-93 | release clears the flag, keeps rotation and velocity, and on a mounted ring reports the nearest index and aims at it along the shorter arc |
| `Pyramid.Controller.Wheel` | src/components/Pyramid.tsx:94-127 | ignored while dragging or unmounted; otherwise rotation grows by dy * 0.001, velocity becomes that increment, the nearest index is reported and the target is recomputed |
| `Pyramid.Controller.SnapToNearest` | src/components/Pyramid.tsx:66-91 | the shared tail of release and wheel appends the nearest index to the reports and sets a target within half a turn that is congruent to that index's rest angle |
| `Pyramid.Controller.Advance` | src/components/Pyramid.tsx:136-151 | a frame changes nothing while dragging; above 0.0001 the velocity is scaled by 0.95 (so its magnitude shrinks) and added to the rotation; otherwise the rotation is lerped toward the target; the target never changes |
| `Pyramid.Coast` | src/components/Pyramid.tsx:139-141 | the velocity after k coasting frames; damping never reverses its sign |
| `Pyramid.CoastBound` | src/components/Pyramid.tsx:139-141 | after k coasting frames the speed is at most \|v\| / (1 + k/20) |
| `Pyramid.CoastingEnds` | src/components/Pyramid.tsx:139-149 | from any velocity, finitely many coasting frames bring the speed to 0.0001 or below, so easing always takes over |
| `Pyramid.DragLeftScenario` | src/components/Pyramid.tsx:55-91 | six sections, a 50-pixel drag to the left: rotation -0.5, reported index 0, target 0 |
| `Pyramid.DragLeftThroughController` | src/components/Pyramid.tsx:50-91 | the same drag run through the controller (mount, drag start, drag, release) on six sections: reports [0], target 0, rotation -0.5 and velocity -0.5 |
| `Pyramid.WheelScenario` | src/components/Pyramid.tsx:94-125 | four sections, a wheel delta of 500: rotation 0.5, reported index 0 at once, target 0 |
| `Sizing.GetScreenType` | src/utils/sizing.ts:10-14 | widths below 640 are Mobile, from 640 below 1280 Desktop, from 1280 up Widescreen, each width in exactly one case |
| `Sizing.GetScreenTypeMonotone` | src/utils/sizing.ts:10-14 | a wider viewport never gets a smaller category, in the order Mobile < Desktop < Widescreen |

## Left out

- Scene composition (camera, environment, cone mesh, material, text labels
  and their placement with `Math.sin`/`Math.cos`, src/components/Pyramid.tsx:161-217):
  this is rendering through the 3D framework.
- The Z-axis wobble of the pyramid (src/components/Pyramid.tsx:154-159): it
  is float trigonometry on the clock and feeds nothing back into the
  controller.
- The hook wiring (`useGesture`, `useFrame`, `useEffect`, `useThree`): the
  host calls the controller's methods instead.
  - On mount it calls `AttachGroup` and then `OnIndexChange` with the
    initial index. The effect first runs after the first commit, when the
    group is already attached.
  - It calls `OnIndexChange` again whenever its index changes.
  - It calls `Advance` once per frame with the frame time.
- A change of the number of sections while mounted: the effect's dependency
  on `sectionAngle` is not modelled. The section count is a constant for the
  controller's lifetime.
- `lastX`: it is kept as a field that is written and never read, as in the
  source.
- Floating-point rounding: angles are exact reals and `Math.PI` is an
  abstract positive number. So an effect of float rounding, such as a tiny
  negative remainder normalising to exactly 2 pi, is not modelled.
- Pyramid.Controller.Advance: the frame time `delta` is any real supplied by
  the host. The between-the-ends guarantee is stated only for
  0 <= delta * 5 <= 1, and the no-farther guarantee only for
  0 <= delta * 5 <= 2, because the source does not clamp the factor.
- The loading overlay (src/components/Loading.tsx) and the application shell
  (src/App.tsx) are not part of this model: they are timers, a
  progress hook and React markup.
- A section count of 0: the source divides by it. The model requires at
  least one section.
- `getScreenType` on NaN: widths are reals, so NaN cannot arise.
