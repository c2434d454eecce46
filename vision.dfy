/** The sampling tick of the vision controller: a frame-difference motion
    detector over a 64x48 RGBA canvas, the motion centroid, and the cooldown
    state machine that turns the amount of motion into an Open or Closed
    gesture.  The camera and the canvas are abstracted away: a tick receives
    either the current RGBA buffer or nothing (the source is not ready). */
module Vision {
  import opened Types
  import Wrappers

  /** Size of the down-sampled capture canvas. */
  const Width: nat := 64
  const Height: nat := 48
  const Pixels: nat := Width * Height
  /** An RGBA buffer holds four bytes per pixel. */
  const FrameBytes: nat := 4 * Pixels
  /** A pixel is active when its green byte moved by more than this. */
  const DiffThreshold: nat := 40
  /** The centroid is only computed when more pixels than this are active. */
  const MinActivePixels: nat := 5
  /** Fraction of active pixels above which the tick counts as motion. */
  const ActivationRatio: real := 0.05
  /** Number of quiet ticks that still report Open after motion stops. */
  const CooldownTicks: nat := 15
  /** Amplification of the motion ratio for the on-screen motion bar. */
  const LevelGain: real := 8.0

  /** A canvas read-back: 64x48 pixels, four bytes each. */
  predicate IsFrame(f: seq<int>)
  {
    |f| == FrameBytes && forall i :: 0 <= i < |f| ==> 0 <= f[i] <= 255
  }

  /** The green byte of pixel p (byte offset 4p + 1). */
  function Green(f: seq<int>, p: nat): int
    requires 4 * p + 1 < |f|
  {
    f[4 * p + 1]
  }

  function AbsDiff(a: int, b: int): (d: nat)
    ensures d == a - b || d == b - a
  {
    if a >= b then a - b else b - a
  }

  /** Pixel p moved: its green byte differs from the previous frame's by
      more than the threshold.  No other byte of the pixel is looked at. */
  predicate Active(cur: seq<int>, prev: seq<int>, p: nat)
    requires 4 * p + 1 < |cur| && 4 * p + 1 < |prev|
  {
    AbsDiff(Green(cur, p), Green(prev, p)) > DiffThreshold
  }

  /** Grid position of pixel p, and its horizontally mirrored column. */
  function Column(p: nat): nat { p % Width }
  function Row(p: nat): nat { p / Width }
  function MirroredColumn(p: nat): nat { Width - 1 - Column(p) }

  /** The three accumulators of the pixel loop. */
  datatype Motion = Motion(sumX: int, sumY: int, diffCount: int)

  /** The accumulators after the first n pixels have been compared. */
  function Accumulate(cur: seq<int>, prev: seq<int>, n: nat): (m: Motion)
    requires |cur| == FrameBytes && |prev| == FrameBytes && n <= Pixels
    ensures 0 <= m.diffCount <= n
    ensures 0 <= m.sumX <= (Width - 1) * m.diffCount
    ensures 0 <= m.sumY <= (Height - 1) * m.diffCount
  {
    if n == 0 then Motion(0, 0, 0)
    else
      var m := Accumulate(cur, prev, n - 1);
      if Active(cur, prev, n - 1) then
        Motion(m.sumX + MirroredColumn(n - 1), m.sumY + Row(n - 1), m.diffCount + 1)
      else m
  }

  /** The pixels among the first n that moved. */
  function ActivePixels(cur: seq<int>, prev: seq<int>, n: nat): set<nat>
    requires |cur| == FrameBytes && |prev| == FrameBytes && n <= Pixels
  {
    set p: nat | p < n && Active(cur, prev, p)
  }

  /** The pixel count of the loop is the number of pixels whose green byte
      moved by more than the threshold. */
  lemma {:induction false} DiffCountIsActivePixels(cur: seq<int>, prev: seq<int>, n: nat)
    requires |cur| == FrameBytes && |prev| == FrameBytes && n <= Pixels
    ensures Accumulate(cur, prev, n).diffCount == |ActivePixels(cur, prev, n)|
  {
    if n > 0 {
      DiffCountIsActivePixels(cur, prev, n - 1);
      var before := ActivePixels(cur, prev, n - 1);
      if Active(cur, prev, n - 1) {
        assert ActivePixels(cur, prev, n) == before + {n - 1};
      } else {
        assert ActivePixels(cur, prev, n) == before;
      }
    }
  }

  /** The accumulators of a whole tick: nothing is compared when there is no
      previous frame. */
  function FrameMotion(prev: Wrappers.Option<seq<int>>, cur: seq<int>): (m: Motion)
    requires |cur| == FrameBytes && (prev.Some? ==> |prev.value| == FrameBytes)
    ensures prev.None? ==> m == Motion(0, 0, 0)
    ensures 0 <= m.diffCount <= Pixels
    ensures 0 <= m.sumX <= (Width - 1) * m.diffCount
    ensures 0 <= m.sumY <= (Height - 1) * m.diffCount
  {
    if prev.None? then Motion(0, 0, 0) else Accumulate(cur, prev.value, Pixels)
  }

  /** Fraction of the canvas that moved.  The activation test on it is the
      integer test "at least 154 active pixels". */
  function MotionRatio(diffCount: int): (r: real)
    ensures 0 <= diffCount <= Pixels ==> 0.0 <= r <= 1.0
    ensures r > ActivationRatio <==> diffCount >= 154
  {
    diffCount as real / Pixels as real
  }

  /** The motion-bar level: the amplified ratio, capped at 1. */
  function MotionLevel(ratio: real): (level: real)
    ensures level <= 1.0 && level <= LevelGain * ratio
    ensures level == 1.0 || level == LevelGain * ratio
    ensures 0.0 <= ratio ==> 0.0 <= level
  {
    if ratio * LevelGain < 1.0 then ratio * LevelGain else 1.0
  }

  /** A normalised position on the canvas. */
  datatype Point = Point(x: real, y: real)

  /** The motion centroid: the mean mirrored column and mean row of the
      active pixels, divided by the canvas size; the centre of the canvas when
      too few pixels moved. */
  function Centroid(m: Motion): (c: Point)
    ensures m.diffCount <= MinActivePixels ==> c == Point(0.5, 0.5)
    ensures m.diffCount > MinActivePixels ==>
      c.x * (Width as real) * (m.diffCount as real) == m.sumX as real &&
      c.y * (Height as real) * (m.diffCount as real) == m.sumY as real
  {
    if m.diffCount > MinActivePixels then
      Point((m.sumX as real / m.diffCount as real) / Width as real,
            (m.sumY as real / m.diffCount as real) / Height as real)
    else Point(0.5, 0.5)
  }

  /** The mean of values bounded by k, divided by the extent w, is at most k/w. */
  lemma MeanBound(sum: real, count: real, k: real, w: real)
    requires count > 0.0 && w > 0.0 && 0.0 <= k
    requires 0.0 <= sum <= k * count
    ensures 0.0 <= (sum / count) / w <= k / w
  {
    assert sum / count <= k by {
      assert (sum / count) * count == sum;
    }
  }

  /** With accumulators that a frame can produce, the centroid stays on the
      canvas: x in [0, 63/64], y in [0, 47/48]. */
  lemma CentroidInRange(m: Motion)
    requires 0 <= m.sumX <= (Width - 1) * m.diffCount
    requires 0 <= m.sumY <= (Height - 1) * m.diffCount
    ensures 0.0 <= Centroid(m).x <= 63.0 / 64.0
    ensures 0.0 <= Centroid(m).y <= 47.0 / 48.0
  {
    if m.diffCount > MinActivePixels {
      MeanBound(m.sumX as real, m.diffCount as real, 63.0, 64.0);
      MeanBound(m.sumY as real, m.diffCount as real, 47.0, 48.0);
    }
  }

  /** Outcome of the gesture state machine for one tick. */
  datatype Decision = Decision(gesture: Gesture, cooldown: nat)

  /** The cooldown state machine: motion above the activation ratio opens and
      re-arms the cooldown; otherwise a running cooldown keeps the gesture
      open while it counts down; otherwise the gesture is closed. */
  function NextGesture(ratio: real, cooldown: nat): (d: Decision)
    ensures d.gesture == Open <==> ratio > ActivationRatio || cooldown > 0
    ensures d.gesture == Open || d.gesture == Closed
    ensures ratio > ActivationRatio ==> d.cooldown == CooldownTicks
    ensures ratio <= ActivationRatio ==> d.cooldown < cooldown || d.cooldown == cooldown == 0
    ensures ratio <= ActivationRatio && cooldown > 0 ==> d.cooldown == cooldown - 1
    ensures cooldown <= CooldownTicks ==> d.cooldown <= CooldownTicks
  {
    if ratio > ActivationRatio then Decision(Open, CooldownTicks)
    else if cooldown > 0 then Decision(Open, cooldown - 1)
    else Decision(Closed, 0)
  }

  /** The gestures emitted by consecutive processed ticks with the given
      motion ratios, starting from the given cooldown. */
  function Run(ratios: seq<real>, cooldown: nat): (gs: seq<Gesture>)
    ensures |gs| == |ratios|
  {
    if ratios == [] then []
    else
      var d := NextGesture(ratios[0], cooldown);
      [d.gesture] + Run(ratios[1..], d.cooldown)
  }

  /** Without motion, the j-th tick is Open exactly while j is below the
      cooldown the run started with. */
  lemma {:induction false} QuietRun(ratios: seq<real>, cooldown: nat)
    requires forall j :: 0 <= j < |ratios| ==> ratios[j] <= ActivationRatio
    ensures forall j :: 0 <= j < |ratios| ==> (Run(ratios, cooldown)[j] == Open <==> j < cooldown)
  {
    if ratios != [] {
      var d := NextGesture(ratios[0], cooldown);
      QuietRun(ratios[1..], d.cooldown);
      forall j | 0 <= j < |ratios|
        ensures Run(ratios, cooldown)[j] == Open <==> j < cooldown
      {
        if j > 0 {
          assert Run(ratios, cooldown)[j] == Run(ratios[1..], d.cooldown)[j - 1];
        }
      }
    }
  }

  /** Hysteresis: after a tick with motion, the next 15 quiet ticks still
      report Open and every later quiet tick reports Closed, whatever the
      cooldown was before. */
  lemma AfterTrigger(ratios: seq<real>, cooldown: nat)
    requires |ratios| > 0 && ratios[0] > ActivationRatio
    requires forall j :: 1 <= j < |ratios| ==> ratios[j] <= ActivationRatio
    ensures Run(ratios, cooldown)[0] == Open
    ensures forall j :: 1 <= j < |ratios| ==> (Run(ratios, cooldown)[j] == Open <==> j <= CooldownTicks)
  {
    var d := NextGesture(ratios[0], cooldown);
    QuietRun(ratios[1..], d.cooldown);
    assert forall j :: 1 <= j < |ratios| ==> Run(ratios, cooldown)[j] == Run(ratios[1..], d.cooldown)[j - 1];
  }

  /** Everything one processed tick produces. */
  datatype TickResult = TickResult(hand: HandData, cooldown: nat, level: real)

  /** One processed tick: compare against the previous frame, derive ratio,
      motion level and centroid, and step the state machine.  The emitted
      position is the tick's centroid in every branch. */
  function Process(prev: Wrappers.Option<seq<int>>, cur: seq<int>, cooldown: nat): (t: TickResult)
    requires |cur| == FrameBytes && (prev.Some? ==> |prev.value| == FrameBytes)
    ensures t.hand.state == Open || t.hand.state == Closed
    ensures var m := FrameMotion(prev, cur);
      t.hand.x == Centroid(m).x && t.hand.y == Centroid(m).y
    ensures 0.0 <= t.hand.x <= 63.0 / 64.0 && 0.0 <= t.hand.y <= 47.0 / 48.0
    ensures 0.0 <= t.level <= 1.0
    ensures cooldown <= CooldownTicks ==> t.cooldown <= CooldownTicks
  {
    var m := FrameMotion(prev, cur);
    var ratio := MotionRatio(m.diffCount);
    var c := Centroid(m);
    var d := NextGesture(ratio, cooldown);
    CentroidInRange(m);
    TickResult(HandData(d.gesture, c.x, c.y), d.cooldown, MotionLevel(ratio))
  }

  /** The first processed tick has nothing to compare against: no motion,
      the centred default position, and (from the initial cooldown 0) Closed. */
  lemma FirstTick(cur: seq<int>)
    requires |cur| == FrameBytes
    ensures Process(Wrappers.None, cur, 0) == TickResult(HandData(Closed, 0.5, 0.5), 0, 0.0)
  {
  }

  /** Two frames that agree on every green byte. */
  predicate SameGreen(a: seq<int>, b: seq<int>)
    requires |a| == FrameBytes && |b| == FrameBytes
  {
    forall p: nat :: p < Pixels ==> Green(a, p) == Green(b, p)
  }

  lemma {:induction false} AccumulateGreenOnly(cur: seq<int>, cur': seq<int>, prev: seq<int>, prev': seq<int>, n: nat)
    requires |cur| == FrameBytes && |cur'| == FrameBytes && |prev| == FrameBytes && |prev'| == FrameBytes
    requires SameGreen(cur, cur') && SameGreen(prev, prev') && n <= Pixels
    ensures Accumulate(cur, prev, n) == Accumulate(cur', prev', n)
  {
    if n > 0 {
      AccumulateGreenOnly(cur, cur', prev, prev', n - 1);
      assert Green(cur, n - 1) == Green(cur', n - 1) && Green(prev, n - 1) == Green(prev', n - 1);
    }
  }

  /** Only the green byte is read: changing red, blue or alpha bytes of either
      frame never changes what a tick emits or stores as its cooldown. */
  lemma GreenOnly(prev: Wrappers.Option<seq<int>>, prev': Wrappers.Option<seq<int>>,
                  cur: seq<int>, cur': seq<int>, cooldown: nat)
    requires |cur| == FrameBytes && |cur'| == FrameBytes && SameGreen(cur, cur')
    requires prev.Some? <==> prev'.Some?
    requires prev.Some? ==> |prev.value| == FrameBytes && |prev'.value| == FrameBytes &&
                            SameGreen(prev.value, prev'.value)
    ensures Process(prev, cur, cooldown) == Process(prev', cur', cooldown)
  {
    if prev.Some? {
      AccumulateGreenOnly(cur, cur', prev.value, prev'.value, Pixels);
    }
  }

  /** Mirroring: when exactly one pixel p moved, the accumulators hold that
      pixel's mirrored column 63 - x and its row y, with x = p mod 64 and
      y = p div 64. */
  lemma {:induction false} SinglePixel(cur: seq<int>, prev: seq<int>, p: nat, n: nat)
    requires |cur| == FrameBytes && |prev| == FrameBytes && p < n <= Pixels
    requires Active(cur, prev, p)
    requires forall q: nat :: q < n && q != p ==> !Active(cur, prev, q)
    ensures Accumulate(cur, prev, n) == Motion(Width - 1 - p % Width, p / Width, 1)
  {
    if n - 1 == p {
      NoneActive(cur, prev, p);
    } else {
      SinglePixel(cur, prev, p, n - 1);
    }
  }

  /** When no pixel among the first n moved, all accumulators are zero. */
  lemma {:induction false} NoneActive(cur: seq<int>, prev: seq<int>, n: nat)
    requires |cur| == FrameBytes && |prev| == FrameBytes && n <= Pixels
    requires forall q: nat :: q < n ==> !Active(cur, prev, q)
    ensures Accumulate(cur, prev, n) == Motion(0, 0, 0)
  {
    if n > 0 {
      NoneActive(cur, prev, n - 1);
    }
  }

  /** The vision controller's persistent state: the two refs (previous frame
      and cooldown counter) and the motion-bar level state cell. */
  class VisionController {
    var prev: Wrappers.Option<seq<int>>
    var cooldown: nat
    var motionLevel: real

    ghost predicate Valid()
      reads this
    {
      (prev.Some? ==> IsFrame(prev.value)) &&
      cooldown <= CooldownTicks &&
      0.0 <= motionLevel <= 1.0
    }

    /** Mounting: no previous frame, cooldown 0, empty motion bar. */
    constructor ()
      ensures Valid()
      ensures prev.None? && cooldown == 0 && motionLevel == 0.0
    {
      prev := Wrappers.None;
      cooldown := 0;
      motionLevel := 0.0;
    }

    /** One firing of the 100 ms interval.  When the source is not ready the
        tick does nothing.  Otherwise it emits exactly one hand update, whose
        position is the tick's centroid, keeps the frame as the next previous
        frame, and updates the cooldown and motion level. */
    method Tick(source: Wrappers.Option<seq<int>>) returns (emitted: Wrappers.Option<HandData>)
      requires Valid()
      requires source.Some? ==> IsFrame(source.value)
      modifies this
      ensures Valid()
      ensures source.None? ==>
        emitted.None? && prev == old(prev) && cooldown == old(cooldown) && motionLevel == old(motionLevel)
      ensures source.Some? ==>
        var t := Process(old(prev), source.value, old(cooldown));
        emitted == Wrappers.Some(t.hand) && prev == source &&
        cooldown == t.cooldown && motionLevel == t.level
    {
      if source.None? {
        return Wrappers.None;
      }
      var data := source.value;
      var sumX, sumY, diffCount := 0, 0, 0;
      if prev.Some? {
        var last := prev.value;
        var i := 0;
        ghost var scanned: nat := 0;
        while i < |data|
          invariant i == 4 * scanned && scanned <= Pixels
          invariant Motion(sumX, sumY, diffCount) == Accumulate(data, last, scanned)
        {
          var index := i / 4;
          assert index == scanned;
          var diff := AbsDiff(data[i + 1], last[i + 1]);
          if diff > DiffThreshold {
            var x := index % Width;
            var y := index / Width;
            sumX := sumX + (Width - 1 - x);
            sumY := sumY + y;
            diffCount := diffCount + 1;
          }
          i := i + 4;
          scanned := scanned + 1;
        }
      }
      assert Motion(sumX, sumY, diffCount) == FrameMotion(prev, data);
      prev := source;

      var motionRatio := diffCount as real / Pixels as real;
      motionLevel := if motionRatio * LevelGain < 1.0 then motionRatio * LevelGain else 1.0;

      var currentX, currentY := 0.5, 0.5;
      if diffCount > MinActivePixels {
        currentX := (sumX as real / diffCount as real) / Width as real;
        currentY := (sumY as real / diffCount as real) / Height as real;
      }

      ghost var m := Motion(sumX, sumY, diffCount);
      assert motionRatio == MotionRatio(diffCount);
      assert motionLevel == MotionLevel(motionRatio);
      assert Point(currentX, currentY) == Centroid(m);
      ghost var t := Process(old(prev), data, old(cooldown));
      assert t.hand.x == currentX && t.hand.y == currentY && t.level == motionLevel;
      if motionRatio > ActivationRatio {
        cooldown := CooldownTicks;
        emitted := Wrappers.Some(HandData(Open, currentX, currentY));
      } else if cooldown > 0 {
        cooldown := cooldown - 1;
        emitted := Wrappers.Some(HandData(Open, currentX, currentY));
      } else {
        emitted := Wrappers.Some(HandData(Closed, currentX, currentY));
      }
    }
  }
}
