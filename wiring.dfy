/** The app mounts the vision controller with its hand-update callback: every
    update a sampling tick emits is delivered to the app at once. */
module Wiring {
  import opened Types
  import Wrappers
  import Vision
  import App

  /** One sampling tick followed by delivery of what it emitted.  A tick whose
      source is not ready leaves both controllers untouched; a processed tick
      updates the vision controller as its own tick does and sets the
      mode from its gesture (Open gives Chaos, Closed gives Formed) and
      smooths the pointer towards its centroid, which keeps the pointer in
      the unit square. */
  method SamplingTick(vision: Vision.VisionController, app: App.AppController,
                      source: Wrappers.Option<seq<int>>)
    requires vision.Valid() && app.Valid()
    requires source.Some? ==> Vision.IsFrame(source.value)
    modifies vision, app
    ensures vision.Valid() && app.Valid()
    ensures source.None? ==> app.mode == old(app.mode) && app.hand == old(app.hand)
    ensures source.Some? ==>
      var t := Vision.Process(old(vision.prev), source.value, old(vision.cooldown));
      app.mode == (if t.hand.state == Open then Chaos else Formed) &&
      app.hand == App.Smooth(old(app.hand), t.hand)
    ensures old(InUnitSquare(app.hand)) ==> InUnitSquare(app.hand)
    ensures source.None? ==>
      vision.prev == old(vision.prev) && vision.cooldown == old(vision.cooldown) &&
      vision.motionLevel == old(vision.motionLevel)
    ensures source.Some? ==>
      var t := Vision.Process(old(vision.prev), source.value, old(vision.cooldown));
      vision.prev == source && vision.cooldown == t.cooldown && vision.motionLevel == t.level
  {
    var emitted := vision.Tick(source);
    if emitted.Some? {
      app.HandleHandUpdate(emitted.value);
    }
  }
}
