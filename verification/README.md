# Particle planet and gesture-driven text morph, in Dafny

This project models the discrete logic of a browser demo (`script.js`). The demo shows about 900
particles orbiting a "black hole". It watches a webcam for hand gestures, and each recognised
gesture morphs the particles into a short message for four seconds. The model covers five parts:

- **Gesture classifier** (`gesture.dfy`, module `GestureDetection`). Three fingers are tested for
  being raised: the fingertip must lie more than 0.03 above its middle joint, in normalised
  coordinates where smaller y is higher. The three booleans select `"v"`, `"open"`, `"fist"` or `""`
  from a fixed table.
- **Text sampler** (`sampler.dfy`, module `TextSampling`). The rendered RGBA buffer is scanned on a
  stride-6 grid, rows outer and columns inner. Each grid point whose alpha byte exceeds 150 becomes
  a morph target.
- **Particles and stars** (`particles.dfy`, module `Particles`). This covers the planet-mode spiral
  (angle plus speed, radius minus 0.02, reset into [140, 170) below 40) and the text-mode 8% ease
  toward the target. It also covers the construction of the 900-particle planet, the sparkle stars
  with their fading opacity, and the per-frame pruning of expired stars.
- **Morph steps** (`morph.dfy`, module `TextMorph`). Particle `i` is aimed at target `i mod n`
  (round robin). A morph then creates exactly 80 stars, each jittered within 10 of a randomly
  picked target.
- **Mode state machine** (`orchestrator.dfy`, module `Orchestrator`). The state holds the mode, the
  last accepted gesture time, the particles, the stars and the pending revert timers. It changes
  on three kinds of event:
  - a tracker result, debounced at 1500 ms;
  - a revert timer firing;
  - an animation frame.

  An invariant holds in every reachable state: 900 well-formed particles with radius in [40, 170],
  no star past its lifespan, and text mode only while a revert is pending.

Parameters stand in for the program's inputs:

- Every `Math.random()` result is a parameter constrained to [0, 1).
- `Date.now()` is the `now` argument of a tracker event.
- The canvas size, `Math.cos`/`Math.sin` and the text rasteriser are fields of an `Env` value.
- Arithmetic is over Dafny's exact `real`, not IEEE doubles.

The model follows four behaviours of the code as written:

- **Debounce.** A gesture is accepted only when `now - last > 1500`, strictly (`script.js:152`).
  A gap of exactly 1500 ms is rejected.
- **Revert timers.** They are never cancelled (`script.js:129`), so an earlier morph's revert can
  end a later morph's display. When two morphs are between 1500 and 4000 ms apart, the first
  morph's timer is still pending when the second gesture arrives. It then fires first and returns
  the page to the planet while the second timer is still pending.
  `Orchestrator.StaleRevertEndsLaterMorph` proves this.
- **Empty target set.** The code does not guard it; it throws a `TypeError`. If there are
  particles, it throws at the first particle (`script.js:115-116`) before anything changes. If
  there are none, it throws at the first star (`script.js:124`, reading `t.x` of `undefined`)
  after the star list was cleared. On a zero-width or zero-height canvas, reading the pixels
  (`script.js:105`) throws before anything changes. In every case the gesture time set at
  `script.js:153` stands. `Orchestrator.MorphToText` and `Orchestrator.OnResults` model these
  outcomes.
- **Star pruning.** It calls `splice` inside `forEach` (`script.js:183-187`). After a removal, the
  next star shifts into the current index and is passed over that frame: it is neither updated nor
  tested. `Particles.SparkPass` is the index walk as written. `Particles.Sweep` describes the same
  pass over the original list, and `Particles.SparkFramePassesOver` states the pass-over for any
  star list.

## Model

| member | source | states |
|---|---|---|
| GestureDetection.FingerUp | script.js:134-136 | a finger is raised exactly when its tip lies more than 0.03 above its middle joint |
| GestureDetection.FingerUpThreshold | script.js:134-136 | the 0.03 margin is exclusive: a tip exactly 0.03 above its joint is not raised, and a tip lifted further by any positive amount is |
| GestureDetection.Classify | script.js:138-141 | "v" iff index and middle up and ring down; "open" iff all three up; "fist" iff all three down; "" for every other combination |
| GestureDetection.ClassifyMatchesTable | script.js:138-141 | the explicit eight-row table lists each finger combination once, and the classifier agrees with every row |
| GestureDetection.Detect | script.js:133-142 | on any hand of at least 17 landmarks, the gesture is decided by strict comparisons of landmarks 8/6, 12/10 and 16/14 with the 0.03 margin |
| GestureDetection.Label | script.js:138-141 | the returned string is one of "v", "open", "fist", "", and it is empty exactly for no gesture |
| GestureDetection.LabelInjective | script.js:138-141 | distinct gestures have distinct labels |
| TextSampling.ScanRow | script.js:108-111 | one row's scan emits only covered points of that row, from the starting column up to the width |
| TextSampling.ScanRows | script.js:107-112 | the scan of the rows from `y` on emits only covered points inside the canvas on those rows |
| TextSampling.Sample | script.js:106-112 | every sampled target is a covered pixel inside the canvas |
| TextSampling.ScanRowAligned | script.js:108 | every column one row's scan emits is a multiple of 6 |
| TextSampling.ScanRowComplete | script.js:108-111 | one row's scan emits every covered column that is a multiple of 6 from the starting column to the width |
| TextSampling.ScanRowOrdered | script.js:108-111 | the columns one row's scan emits strictly increase |
| TextSampling.ScanRowBound | script.js:108-111 | one row's scan emits at most one point per grid column |
| TextSampling.ScanRowFacts | script.js:108-111 | one row's scan emits only covered stride-aligned columns of that row within the width, emits every such column, in increasing order, at most one per grid column |
| TextSampling.ScanRowsComplete | script.js:107-112 | the scan of the rows from `y` on emits every covered grid point of those rows |
| TextSampling.ScanRowsOrdered | script.js:107-112 | the scan of the rows from `y` on is strictly row-major |
| TextSampling.ScanRowsBound | script.js:107-112 | the scan of the rows from `y` on emits at most one point per grid point of those rows |
| TextSampling.ScanRowsOnGrid | script.js:107-108 | every point the scan of the rows from `y` on emits has both coordinates multiples of 6 |
| TextSampling.ScanRowsFacts | script.js:107-112 | the scan of the rows from `y` on emits exactly the covered grid points of those rows, in row-major order, at most rows-times-columns of them |
| TextSampling.SampleCorrect | script.js:106-112 | every target has x and y multiples of 6 inside the canvas and alpha above 150; every such grid point is a target; targets are strictly row-major; there are at most ceil(w/6)*ceil(h/6) |
| TextSampling.ScanRowInto | script.js:108-111 | the inner stride-6 loop appends exactly the covered points of its row |
| TextSampling.SampleTargets | script.js:106-112 | the nested stride-6 loops compute exactly the sampled target sequence |
| Particles.NewParticle | script.js:23-33 | a new particle keeps the given polar position, sits at the centre plus cos and sin of its angle times its radius, its target is its own position, size is in [1, 3), speed in [0.002, 0.005), hue in [0, 360) |
| Particles.PlanetParticle | script.js:84-86 | a planet particle starts with angle in [0, 2*pi), radius in [60, 140), its position on that polar point, and speed in range |
| Particles.InitPlanet | script.js:81-88 | the planet has exactly 900 particles, each with radius in [60, 140), well formed, aimed at its own position |
| Particles.PlanetStep | script.js:36-42 | the angle advances by the speed; the radius drops by exactly 0.02 unless that falls below 40, in which case it lands in [140, 170); the radius stays at least 40; the position follows the polar coordinates; no other field changes |
| Particles.TextStep | script.js:43-46 | the distance to the target is scaled by exactly 0.92 on each axis, the particle never passes its target, and only its position changes |
| Particles.Update | script.js:35-47 | planet mode applies the planet rule and text mode the text rule; either rule keeps a well-formed particle well formed and leaves target, speed, size and colour alone |
| Particles.PlanetStaysInBand | script.js:38-40 | over any number of planet frames and any random draws, a radius in [40, 170] stays in [40, 170] |
| Particles.TextStepsContract | script.js:44-45 | after n text frames the distance to the unchanged target is 0.92^n times the original |
| Particles.PowShrinks | script.js:44-45 | the text-mode shrink factor 0.92^n lies in (0, 1], so the distance never grows and never changes sign |
| Particles.NewStar | script.js:61-68 | a new star lies within 10 of its anchor on each axis, starts at life 0 and has a lifespan in [30, 50) |
| Particles.StarStep | script.js:69 | an update adds exactly one to the life counter and changes nothing else |
| Particles.Alpha | script.js:71 | the alpha assigned at draw time is at most 1, and negative exactly when the star has outlived its lifespan |
| Particles.AlphaDecreases | script.js:69-71 | each update lowers the assigned alpha by exactly 1/maxLife, so it strictly decreases |
| Particles.AlphaFadesOut | script.js:71 | the assigned alpha is at most zero exactly when life has reached maxLife |
| Particles.ExpiringStarFlashes | script.js:55-186 | a star drawn at opacity below 1/maxLife on one frame is drawn at opacity 1 on the next, the frame it expires, because the canvas ignores the negative alpha |
| Particles.FadeAlpha | script.js:71 | the intended fade lies in [0, 1] and is 0 once the star has expired |
| Particles.FadeNeverFlashes | script.js:71-76 | with the intended fade the canvas uses the alpha as assigned, the opacity never rises between frames, and an expiring star is invisible |
| Particles.SparkPass | script.js:183-187 | the forEach walk with splice, index by index over the starting length, never adds stars |
| Particles.SparkFrame | script.js:183-187 | a whole pruning pass as written equals the sweep over the star list |
| Particles.Sweep | script.js:183-187 | a frame never adds stars |
| Particles.SparkPassIsSweep | script.js:183-187 | the forEach-with-splice walk from any index equals the sweep over the unvisited stars |
| Particles.SweepProvenance | script.js:183-187 | every star left after a frame is an input star, updated or passed over |
| Particles.SweepKeepsLive | script.js:183-187 | if no star had outlived its lifespan before a frame, none has after it |
| Particles.SweepWithoutExpiry | script.js:183-187 | when no star expires this frame, every star is updated once and none is removed |
| Particles.SparkFramePassesOver | script.js:183-187 | whenever the first star expires, the frame keeps the second star exactly as it was and treats the rest as a frame of its own |
| Particles.SparkFrameSkipsNeighbour | script.js:183-187 | of two stars expiring together, only the first is removed; the second survives the frame without being updated |
| TextMorph.AssignTargets | script.js:114-118 | given at least one target, particle i is aimed at target i mod n, the count is unchanged and every other field is kept |
| TextMorph.AssignedTargetsAreSampled | script.js:114-118 | every particle ends up aimed at one of the sampled targets |
| TextMorph.AssignmentIsPeriodic | script.js:115 | particles n apart share a target |
| TextMorph.AssignmentPrefix | script.js:115 | the first min(count, n) particles take the targets in order, so every target gets a particle when there are at least as many particles as targets |
| TextMorph.SurplusTargetsUnused | script.js:114-118 | when there are more targets than particles, a target past the particle count that repeats no earlier target gets no particle |
| TextMorph.PickIndex | script.js:123 | `Math.floor(Math.random() * n)` is a valid index below n, the floor of the scaled draw |
| TextMorph.AnchoredStar | script.js:123-124 | a batch star lies within 10 of the target its draw picks, with life 0 and lifespan in [30, 50) |
| TextMorph.SparkBatch | script.js:121-125 | a morph creates exactly 80 stars, star k near the target its draw picks, all fresh with lifespan in [30, 50) |
| TextMorph.SparksNearTargets | script.js:121-125 | every star of the batch is within 10 of some sampled target |
| Orchestrator.Init | script.js:15-19 | the loaded page is in planet mode with gesture time 0, no stars, no timers, and satisfies the invariant |
| Orchestrator.Message | script.js:154-156 | every gesture has a non-empty message |
| Orchestrator.MessagesDistinct | script.js:154-156 | different gestures morph into different messages |
| Orchestrator.MorphToText | script.js:92-130 | with targets: text mode, round-robin aim, the 80-star batch replaces the stars, one revert due 4000 ms on; on a zero-sized canvas nothing changes; without targets nothing changes except that the stars are cleared when there are no particles |
| Orchestrator.Accepted | script.js:149-152 | a result is accepted exactly when a hand was seen, its label is non-empty and more than 1500 ms passed since the last accepted gesture |
| Orchestrator.OnResults | script.js:148-158 | no hand, no gesture, or a gap of at most 1500 ms leaves the state unchanged; otherwise the gesture time becomes now and the page morphs into the gesture's message; the gesture time never decreases |
| Orchestrator.Revert | script.js:129 | a firing timer restores planet mode with 900 particles of radius in [60, 140), consumes the oldest timer, and keeps the stars and gesture time |
| Orchestrator.Animate | script.js:180-187 | a frame applies the mode's rule to every particle, prunes the stars as the sweep does, and changes nothing else |
| Orchestrator.MorphKeepsInv | script.js:114-127 | a morph keeps the invariant |
| Orchestrator.OnResultsKeepsInv | script.js:148-158 | a tracker result keeps the invariant |
| Orchestrator.RevertKeepsInv | script.js:129 | a revert keeps the invariant |
| Orchestrator.AnimateKeepsInv | script.js:180-187 | a frame keeps the invariant: radii stay in band and stars stay live with their lifespans |
| Orchestrator.Step | script.js:129-187 | one event never moves the gesture time back; a timer always leaves planet mode; planet turns into text only through an accepted tracker result at its time |
| Orchestrator.Run | script.js:148-187 | over any run of events the gesture time never goes back; without tracker results it stays put and a planet stays a planet |
| Orchestrator.RunKeepsInv | script.js:148-187 | every state reachable by any run of events keeps 900 particles with radius in [40, 170], only live stars, and a pending revert whenever in text mode |
| Orchestrator.DebounceSuppresses | script.js:152 | a gesture at most 1500 ms after an accepted one changes nothing |
| Orchestrator.SpacedGesturesBothAccepted | script.js:152-156 | two gestures more than 1500 ms apart are both accepted, each scheduling its own revert |
| Orchestrator.StaleRevertEndsLaterMorph | script.js:129-152 | for two morphs between 1500 and 4000 ms apart, the first timer is still pending when the second gesture arrives, and firing it returns the page to planet mode while the second timer is still pending |
| Orchestrator.GestureMorphsAndReverts | script.js:148-158 | an accepted gesture with targets gives text mode, every particle aimed at a target, exactly 80 stars near targets and a pending revert, and that revert restores 900 planet particles |

## Findings

| source | as written | input that shows it | evidently intended | confidence | as-written member | corrected member |
|---|---|---|---|---|---|---|
| script.js:71, 184-186 | a star is updated, drawn, then removed; on its last frame the assigned alpha `1 - life/maxLife` is negative, the canvas ignores it and the 1 restored at script.js:55 and 76 stays | a star with maxLife 40 and life 40 before the frame: life becomes 41, alpha -0.025, drawn at opacity 1 after being drawn at 0 the frame before | the star fades out and is invisible on the frame it expires (alpha clamped at 0, or removal before drawing) | high for the arithmetic; depends on the canvas ignoring out-of-range alpha; not executed | Particles.ExpiringStarFlashes | Particles.FadeNeverFlashes |

Drawing is otherwise not modelled, so `Particles.FadeAlpha` is used only by its lemma.

## Left out

- Canvas and DOM setup, resize handling, and all drawing are left out (`script.js:1-13, 49-56, 70-77, 167-178`). This includes the per-frame random shimmer alpha, the gradient core and the HSL colour strings. They are rendering side effects; a colour is kept only as its hue.
- The hand-tracking library and the camera are left out (`script.js:145-146, 160-164`). They are foreign code, so the landmark list of a tracker result is an input.
- Font rasterisation and `getImageData` are replaced by `Env.rasterize` (`script.js:93-105`), which yields the RGBA bytes. A read past the end of that buffer counts as transparent, as `undefined > 150` is false.
- `Math.cos` and `Math.sin` are left out; they are the functions `Env.cos` and `Env.sin`, with no properties assumed.
- IEEE double rounding is left out; all arithmetic is exact `real`.
- `setTimeout` and `requestAnimationFrame` scheduling are replaced by explicit events. A timer firing is `Orchestrator.Revert`, a frame is `Orchestrator.Animate`, and the order of events is the caller's.
- The global `textTargets` is not part of the state. It is only read inside the morph that computes it.
- Particles.PlanetStep: it takes one random draw per particle per frame, although the source calls `Math.random()` only when the radius resets. Any sequence of draws is allowed, so this changes no reachable state.
