/** The top-level app controller: it maps each hand update's gesture to the
    scene mode, low-pass filters the pointer behind a dead zone, and lets the
    mouse override both directly. */
module App {
  import opened Types

  /** Updates closer than this on both axes are dropped. */
  const DeadZone: real := 0.005
  /** Weight of the stored pointer in the low-pass filter. */
  const Retention: real := 0.95
  /** Weight of the incoming position in the low-pass filter. */
  const Gain: real := 0.05

  function Abs(v: real): (a: real)
    ensures 0.0 <= a && (a == v || a == -v)
  {
    if v < 0.0 then -v else v
  }

  /** v lies between a and b, in either order. */
  predicate Between(a: real, b: real, v: real)
  {
    (a <= v <= b) || (b <= v <= a)
  }

  /** Gesture to scene mode: Open explodes the tree, Closed assembles it,
      Pointing and None leave the mode as it was. */
  function NextMode(mode: TreeMode, gesture: Gesture): (m: TreeMode)
    ensures gesture == Open ==> m == Chaos
    ensures gesture == Closed ==> m == Formed
    ensures gesture == Pointing || gesture == None ==> m == mode
  {
    match gesture
    case Open => Chaos
    case Closed => Formed
    case _ => mode
  }

  /** The incoming position is within the dead zone of the stored one. */
  predicate InDeadZone(prev: HandData, data: HandData)
  {
    Abs(prev.x - data.x) < DeadZone && Abs(prev.y - data.y) < DeadZone
  }

  /** The smoothing updater.  Inside the dead zone the stored pointer is kept
      as it is; otherwise each coordinate moves 5% of the way towards the
      incoming one.  The stored gesture is carried over untouched. */
  function Smooth(prev: HandData, data: HandData): (r: HandData)
    ensures r.state == prev.state
    ensures InDeadZone(prev, data) ==> r == prev
    ensures !InDeadZone(prev, data) ==>
      Between(prev.x, data.x, r.x) && Between(prev.y, data.y, r.y) &&
      Abs(r.x - data.x) == Retention * Abs(prev.x - data.x) &&
      Abs(r.y - data.y) == Retention * Abs(prev.y - data.y)
  {
    if InDeadZone(prev, data) then prev
    else prev.(x := prev.x * Retention + data.x * Gain,
               y := prev.y * Retention + data.y * Gain)
  }

  /** Smoothing keeps a pointer in the unit square when the update is in it. */
  lemma SmoothInUnitSquare(prev: HandData, data: HandData)
    requires InUnitSquare(prev) && InUnitSquare(data)
    ensures InUnitSquare(Smooth(prev, data))
  {
  }

  /** Smoothing towards the same position k times in a row. */
  function SmoothTimes(prev: HandData, data: HandData, k: nat): HandData
  {
    if k == 0 then prev else Smooth(SmoothTimes(prev, data, k - 1), data)
  }

  /** A distance d after k filter steps: d * 0.95^k. */
  function Decayed(d: real, k: nat): real
  {
    if k == 0 then d else Retention * Decayed(d, k - 1)
  }

  /** Decay is monotone in the starting distance. */
  lemma {:induction false} DecayedMonotone(d: real, e: real, k: nat)
    requires d <= e
    ensures Decayed(d, k) <= Decayed(e, k)
  {
    if k > 0 {
      DecayedMonotone(d, e, k - 1);
    }
  }

  /** Convergence of the filter: after k updates towards a fixed position,
      either the pointer has entered the dead zone (where it then stays), or
      its distance to the target on each axis is exactly 0.95^k times the
      initial distance. */
  lemma {:induction false} SmoothConverges(prev: HandData, data: HandData, k: nat)
    ensures InDeadZone(SmoothTimes(prev, data, k), data) ||
      (Abs(SmoothTimes(prev, data, k).x - data.x) == Decayed(Abs(prev.x - data.x), k) &&
       Abs(SmoothTimes(prev, data, k).y - data.y) == Decayed(Abs(prev.y - data.y), k))
  {
    if k > 0 {
      SmoothConverges(prev, data, k - 1);
    }
  }

  /** The filter settles: once 0.95^k has fallen below the dead zone, k
      updates towards a fixed position in the unit square bring a pointer
      from the unit square into the dead zone. */
  lemma Settles(prev: HandData, data: HandData, k: nat)
    requires InUnitSquare(prev) && InUnitSquare(data) && Decayed(1.0, k) < DeadZone
    ensures InDeadZone(SmoothTimes(prev, data, k), data)
  {
    SmoothConverges(prev, data, k);
    DecayedMonotone(Abs(prev.x - data.x), 1.0, k);
    DecayedMonotone(Abs(prev.y - data.y), 1.0, k);
  }

  /** A pointer coordinate normalised by the window extent. */
  function Normalize(client: real, extent: real): (r: real)
    requires extent > 0.0
    ensures r * extent == client
    ensures 0.0 <= client <= extent ==> 0.0 <= r <= 1.0
  {
    client / extent
  }

  /** The pointer-move updater: the position is replaced outright, with no
      dead zone and no filtering; the stored gesture is carried over. */
  function MoveTo(prev: HandData, x: real, y: real): (r: HandData)
    ensures r.state == prev.state && r.x == x && r.y == y
  {
    prev.(x := x, y := y)
  }

  /** The app's state cells: the scene mode and the smoothed pointer. */
  class AppController {
    var mode: TreeMode
    var hand: HandData

    /** The stored pointer's gesture is never anything but None: every
        updater copies it through. */
    ghost predicate Valid()
      reads this
    {
      hand.state == None
    }

    /** Initial state: assembled tree, centred pointer. */
    constructor ()
      ensures Valid() && InUnitSquare(hand)
      ensures mode == Formed && hand == HandData(None, 0.5, 0.5)
    {
      mode := Formed;
      hand := HandData(None, 0.5, 0.5);
    }

    /** The hand-update callback: switch the mode on Open or Closed, then
        smooth the pointer towards the update's position. */
    method HandleHandUpdate(data: HandData)
      requires Valid()
      modifies this
      ensures Valid()
      ensures mode == NextMode(old(mode), data.state)
      ensures hand == Smooth(old(hand), data)
      ensures old(InUnitSquare(hand)) && InUnitSquare(data) ==> InUnitSquare(hand)
    {
      if data.state == Open {
        mode := Chaos;
      } else if data.state == Closed {
        mode := Formed;
      }
      if old(InUnitSquare(hand)) && InUnitSquare(data) {
        SmoothInUnitSquare(hand, data);
      }
      hand := Smooth(hand, data);
    }

    /** Pressing the pointer explodes the tree, whatever the gestures did. */
    method PointerDown()
      modifies this
      ensures mode == Chaos && hand == old(hand)
    {
      mode := Chaos;
    }

    /** Releasing the pointer, or the pointer leaving the window, assembles
        the tree, whatever the gestures did. */
    method PointerUp()
      modifies this
      ensures mode == Formed && hand == old(hand)
    {
      mode := Formed;
    }

    /** Moving the pointer sets the stored position to the pointer's
        position normalised by the window size, unfiltered. */
    method PointerMove(clientX: real, clientY: real, innerWidth: real, innerHeight: real)
      requires Valid()
      requires innerWidth > 0.0 && innerHeight > 0.0
      modifies this
      ensures Valid()
      ensures mode == old(mode)
      ensures hand == MoveTo(old(hand), Normalize(clientX, innerWidth), Normalize(clientY, innerHeight))
      ensures 0.0 <= clientX <= innerWidth && 0.0 <= clientY <= innerHeight ==> InUnitSquare(hand)
    {
      var x := clientX / innerWidth;
      var y := clientY / innerHeight;
      hand := MoveTo(hand, x, y);
    }
  }
}
