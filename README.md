# Motion-gesture pipeline of the Christmas-tree scene

This project models the part of the interactive Christmas-tree scene that
turns camera frames into a gesture and a pointer position.

- **Vision controller** (`vision.dfy`, module `Vision`). Every 100 ms the
  controller looks at a 64x48 RGBA read-back of the webcam. It compares each
  pixel's green byte with the previous frame's. A pixel is active when the
  difference exceeds 40. The loop accumulates a horizontally mirrored column
  sum (`63 - x`), a row sum and a count of active pixels. From these the tick
  derives:
  - the motion ratio `count / 3072`;
  - the motion-bar level `min(8 * ratio, 1)`;
  - the centroid, which is the canvas centre `(0.5, 0.5)` unless more than
    5 pixels moved.

  A cooldown state machine then emits `Open` or `Closed`. The class
  `VisionController` holds the two refs the source mutates, `prevFrameData`
  (the previous frame) and `cooldownRef` (the cooldown), and the
  `motionLevel` state cell that drives the motion bar. Its `Tick` method is
  the interval body, with the pixel loop. It is proved against the pure function `Process`, and
  the lemmas about `Process` and its parts state what the source promises.
- **App controller** (`app.dfy`, module `App`). The hand-update callback
  maps the gesture to the scene mode. It then smooths the stored pointer with
  a dead-zone-guarded low-pass filter (`0.95 * prev + 0.05 * data`). Pointer
  down, up/leave and move override the mode and the position directly. The
  class `AppController` holds the two React state cells. The updaters are
  pure functions (`NextMode`, `Smooth`, `MoveTo`), and lemmas state their
  algebra: between, contraction by 0.95, unit range, and convergence into
  the dead zone.
- **Wiring** (`wiring.dfy`). The app mounts the vision controller with its
  hand-update callback. `SamplingTick` composes one tick with the delivery of
  what it emitted.
- `types.dfy` holds the datatypes (`TreeMode`, `Gesture`, `HandData`), and
  `wrappers.dfy` holds `Option`.

Numbers: counts and sums are `int`. The ratio, level, centroid and pointer
coordinates are `real`. The activation test `ratio > 0.05` is kept as
written, and `MotionRatio` proves that it means "at least 154 active
pixels".

Two points about the code's behaviour:
- The trigger sets the cooldown to 15, so the 15 quiet ticks after a
  triggering tick still report Open and the 16th quiet tick reports Closed
  (`AfterTrigger`).
- The comment at components/VisionController.tsx:89 says a still tick passes
  the last known coordinates. The code does not do that: lines 67-68 reset
  the position to `(0.5, 0.5)` on every tick, and lines 71-74 overwrite it
  only when more than 5 pixels moved. A still tick therefore reports the
  canvas centre, and the model does the same (`Centroid`, `Process`).

## Model

| member | source | states |
|---|---|---|
| Vision.Accumulate | components/VisionController.tsx:37-57 | after n pixels the count is at most n, and the mirrored column sum and the row sum are bounded by 63 and 47 times the count |
| Vision.DiffCountIsActivePixels | components/VisionController.tsx:42-54 | the loop's count is exactly the number of pixels whose green byte moved by more than 40 |
| Vision.SinglePixel | components/VisionController.tsx:47-54 | when only pixel p moved, the sums are (63 - p mod 64, p div 64) with count 1: the column is mirrored, never x itself |
| Vision.NoneActive | components/VisionController.tsx:37-57 | when no pixel moved, all three accumulators stay zero |
| Vision.FrameMotion | components/VisionController.tsx:37-57 | without a previous frame nothing is compared and the accumulators are zero; the count is always in [0, 3072] |
| Vision.MotionRatio | components/VisionController.tsx:63-64 | the ratio lies in [0, 1] for a possible count, and `ratio > 0.05` holds exactly when at least 154 pixels moved |
| Vision.MotionLevel | components/VisionController.tsx:65 | the level is the smaller of 8 * ratio and 1, so it lies in [0, 1] |
| Vision.Centroid | components/VisionController.tsx:67-74 | at most 5 active pixels give (0.5, 0.5); otherwise x * 64 * count is the mirrored column sum and y * 48 * count is the row sum |
| Vision.CentroidInRange | components/VisionController.tsx:67-74 | for sums a frame can produce, x lies in [0, 63/64] and y in [0, 47/48] |
| Vision.NextGesture | components/VisionController.tsx:79-92 | emits Open exactly when the ratio exceeds 0.05 or the cooldown is positive, and Closed otherwise; motion re-arms the cooldown to 15; a quiet tick with a positive cooldown lowers it by exactly one, and one with cooldown 0 leaves it 0; it never exceeds 15 |
| Vision.QuietRun | components/VisionController.tsx:83-91 | in a run of quiet ticks starting from cooldown c, tick j is Open exactly when j < c |
| Vision.AfterTrigger | components/VisionController.tsx:79-92 | after a tick with motion, the next 15 quiet ticks are Open and every later quiet tick is Closed |
| Vision.Process | components/VisionController.tsx:59-92 | a processed tick emits Open or Closed, and in every branch its position is the tick's centroid, which lies on the canvas; the motion level lies in [0, 1]; the cooldown stays at most 15 |
| Vision.FirstTick | components/VisionController.tsx:41-90 | the first processed tick (no previous frame, cooldown 0) emits Closed at (0.5, 0.5) with level 0 and leaves the cooldown 0 |
| Vision.AccumulateGreenOnly | components/VisionController.tsx:44-46 | frames that agree on every green byte give the same accumulators |
| Vision.GreenOnly | components/VisionController.tsx:44-46 | changing the red, blue or alpha bytes of either frame never changes what a tick emits, its cooldown or its level |
| Vision.VisionController.constructor | components/VisionController.tsx:13-15 | the controller starts with no previous frame, cooldown 0 and motion level 0 |
| Vision.VisionController.Tick | components/VisionController.tsx:22-94 | a tick whose source is not ready emits nothing and changes nothing; a processed tick emits exactly the update `Process` gives, stores the frame as the previous frame, and sets the cooldown and level from `Process` |
| App.NextMode | App.tsx:15-19 | Open gives Chaos, Closed gives Formed, and Pointing and None keep the mode |
| App.Smooth | App.tsx:23-33 | inside the dead zone (both axes closer than 0.005) the pointer is unchanged; otherwise each coordinate lies between the old and the incoming one, and its distance to the incoming one is 0.95 times the old distance; the state is copied through |
| App.SmoothInUnitSquare | App.tsx:28-32 | smoothing keeps a pointer in the unit square when the update is in it |
| App.DecayedMonotone | App.tsx:30-31 | a larger starting distance stays larger after any number of 0.95 steps |
| App.SmoothConverges | App.tsx:25-32 | after k updates towards one position, the pointer is either in the dead zone or 0.95^k times as far from it on each axis |
| App.Settles | App.tsx:25-32 | once 0.95^k is below 0.005, k updates bring a pointer from the unit square into the dead zone of a target in the unit square |
| App.Normalize | App.tsx:51-52 | the normalised coordinate times the window extent is the client coordinate, and it lies in [0, 1] when the pointer is inside the window |
| App.MoveTo | App.tsx:54 | pointer move sets x and y exactly, with no dead zone or filtering, and copies the state through |
| App.AppController.constructor | App.tsx:8-9 | the app starts in Formed with pointer (None, 0.5, 0.5), which is in the unit square |
| App.AppController.HandleHandUpdate | App.tsx:13-34 | the mode becomes `NextMode` of the gesture and the pointer becomes `Smooth` of the update; the stored state stays None; the unit square is preserved |
| App.AppController.PointerDown | App.tsx:48 | pressing sets Chaos whatever the gestures did, and leaves the pointer alone |
| App.AppController.PointerUp | App.tsx:49 | releasing, or leaving the window (App.tsx:63), sets Formed and leaves the pointer alone |
| App.AppController.PointerMove | App.tsx:50-55 | the pointer becomes the client position normalised by the window size, unfiltered; the mode is unchanged and the stored state stays None |
| Wiring.SamplingTick | App.tsx:69 | a tick whose source is not ready leaves the app alone; a processed tick sets Chaos on Open and Formed on Closed, and smooths the pointer towards the tick's centroid; the pointer stays in the unit square; the vision controller is left unchanged on a not-ready tick and otherwise stores the frame, cooldown and level of `Process` |

## Left out

- Webcam capture and the canvas `drawImage`/`getImageData` down-sampling (components/VisionController.tsx:33-35). A tick receives the RGBA buffer as a sequence of 12288 byte values, or nothing when the source is not ready.
- The three readiness guards (components/VisionController.tsx:23-27) are collapsed into one "not ready" input. The model does not distinguish a missing webcam, a video that is not ready, and a missing 2D context.
- `setInterval` scheduling, the 100 ms period and `clearInterval` on teardown (components/VisionController.tsx:22, 94-97). A tick is a method call.
- React state plumbing: `useState`, `useRef`, `useCallback` and the render cycle. State cells and refs are class fields, and updaters apply immediately.
- IEEE-754 rounding. The ratio, level, centroid, smoothing and normalisation are computed over exact reals, so results may differ from JavaScript in the last bits.
- App.Normalize: requires a positive window size. A browser window of width or height 0 is not modelled; JavaScript would produce Infinity or NaN there.
- `handlePhotoUpload` (App.tsx:36-45): random identifiers and object URLs, with no bearing on gestures.
- All JSX markup, including the motion-bar rendering and the overlay text.
- The scene renderer and its visual subsystems (components/Scene.tsx, components/Visuals/), and the cloud-vision fallback (services/geminiService.ts). These are not part of this model.
