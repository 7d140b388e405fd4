/** Replaying a recorded run. */
module AutomationReplay {

  import opened Automation

  datatype Point = Point(x: real, y: real)

  /** The input that the recorder finds at the end of a frame. */
  datatype Snapshot = Snapshot(frame: int, previous: State, current: State,
                               mouse0: Point, mouse: Point, wheel0: Point, wheel: Point,
                               ready: seq<bool>, axes: seq<seq<real>>, gesture: int)

  const GAMEPAD_AXIS_LEFT_TRIGGER: nat := 4
  const GAMEPAD_AXIS_RIGHT_TRIGGER: nat := 5
  const GESTURE_NONE: int := 0
  const GESTURE_TAP: int := 1
  const GESTURE_DOUBLETAP: int := 2
  const GESTURE_HOLD: int := 4
  const GESTURE_SWIPE_RIGHT: int := 16
  const GESTURE_SWIPE_LEFT: int := 32
  const GESTURE_SWIPE_UP: int := 64
  const GESTURE_SWIPE_DOWN: int := 128

  predicate Complete(f: Snapshot) {
    && WellFormed(f.previous) && WellFormed(f.current)
    && |f.ready| == |f.axes| == MAX_GAMEPADS
    && forall i :: 0 <= i < MAX_GAMEPADS ==> |f.axes[i]| == MAX_GAMEPAD_AXIS
  }

  /** The cast of a float to an int. */
  function Truncated(r: real): int {
    if r >= 0.0 then r.Floor else -((-r).Floor)
  }

  predicate Moved(p: Point, q: Point) {
    Truncated(p.x) != Truncated(q.x) || Truncated(p.y) != Truncated(q.y)
  }

  function AtRest(axis: nat): real {
    if axis == GAMEPAD_AXIS_LEFT_TRIGGER || axis == GAMEPAD_AXIS_RIGHT_TRIGGER then -1.0 else 0.0
  }

  /** GetGamepadAxisMovement. */
  function Movement(ready: bool, axis: nat, value: real): real {
    var rest := AtRest(axis);
    var movement := if rest < 0.0 then value else if value < 0.0 then -value else value;
    if ready && movement > rest then value else rest
  }

  /** An axis is off its rest: a trigger rests at -1, any other axis at 0. */
  lemma OffRest(ready: bool, axis: nat, value: real)
    ensures Movement(ready, axis, value) != AtRest(axis)
            <==> ready && if axis == 4 || axis == 5 then value > -1.0 else value != 0.0
  {
  }

  function PositionEvents(f: Snapshot): seq<Event> {
    if Moved(f.mouse, f.mouse0) then
      [Event(f.frame, INPUT_MOUSE_POSITION, Truncated(f.mouse.x), Truncated(f.mouse.y), 0, 0)]
    else []
  }

  function WheelEvents(f: Snapshot): seq<Event> {
    if Moved(f.wheel, f.wheel0) then
      [Event(f.frame, INPUT_MOUSE_WHEEL_MOTION, Truncated(f.wheel.x), Truncated(f.wheel.y), 0, 0)]
    else []
  }

  function GestureEvents(f: Snapshot): seq<Event> {
    if f.gesture != GESTURE_NONE then [Event(f.frame, INPUT_GESTURE, f.gesture, 0, 0, 0)] else []
  }

  function AxisEvents(f: Snapshot, pad: nat, n: nat): seq<Event>
    requires Complete(f) && pad < MAX_GAMEPADS && n <= MAX_GAMEPAD_AXIS
  {
    if n == 0 then []
    else
      AxisEvents(f, pad, n - 1)
      + if Movement(f.ready[pad], n - 1, f.axes[pad][n - 1]) != AtRest(n - 1) then
          [Event(f.frame, INPUT_GAMEPAD_AXIS_MOTION, pad, n - 1, Truncated(f.axes[pad][n - 1] * 32768.0), 0)]
        else []
  }

  /** The button events of one device in a frame. */
  function DeviceEvents(f: Snapshot, d: Device): seq<Event>
    requires Complete(f) && IsDevice(d)
  {
    ButtonEvents(f.frame, d, Bits(f.previous, d), Bits(f.current, d), Size(d))
  }

  function PadEvents(f: Snapshot, n: nat): seq<Event>
    requires Complete(f) && n <= MAX_GAMEPADS
  {
    if n == 0 then []
    else PadEvents(f, n - 1) + DeviceEvents(f, Pad(n - 1)) + AxisEvents(f, n - 1, MAX_GAMEPAD_AXIS)
  }

  /** Everything that a recorder without a limit logs for a frame, in its order. */
  function FrameEvents(f: Snapshot): seq<Event>
    requires Complete(f)
  {
    DeviceEvents(f, Keyboard) + DeviceEvents(f, MouseButtons) + PositionEvents(f) + WheelEvents(f)
    + DeviceEvents(f, TouchPoints) + PadEvents(f, MAX_GAMEPADS) + GestureEvents(f)
  }

  /** Events that leave buttons and the key queue alone. */
  predicate Quiet(events: seq<Event>) {
    forall i :: 0 <= i < |events| ==>
      events[i].kind in {INPUT_MOUSE_POSITION, INPUT_MOUSE_WHEEL_MOTION, INPUT_GAMEPAD_AXIS_MOTION, INPUT_GESTURE}
  }

  lemma {:induction false} PlayQuiet(s: State, events: seq<Event>)
    requires WellFormed(s) && Quiet(events)
    ensures AllPlayable(events) && PlayAll(s, events) == s
    decreases |events|
  {
    if events != [] {
      PlayQuiet(s, events[..|events| - 1]);
    }
  }

  lemma AxesAreQuiet(f: Snapshot, pad: nat, n: nat)
    requires Complete(f) && pad < MAX_GAMEPADS && n <= MAX_GAMEPAD_AXIS
    ensures Quiet(AxisEvents(f, pad, n))
  {
  }

  /** A device whose buttons have been merged with a frame's. */
  ghost predicate DeviceMerged(s: State, s': State, f: Snapshot, d: Device)
    requires WellFormed(s) && WellFormed(s') && Complete(f) && IsDevice(d)
  {
    forall i :: 0 <= i < Size(d) ==>
      Bits(s', d)[i] == Merged(Bits(s, d)[i], Bits(f.previous, d)[i], Bits(f.current, d)[i])
  }

  /** Only device d has changed, merged with the frame. */
  ghost predicate OnlyMerged(s: State, s': State, f: Snapshot, d: Device)
    requires WellFormed(s) && WellFormed(s') && Complete(f) && IsDevice(d)
  {
    && DeviceMerged(s, s', f, d)
    && (forall d' :: IsDevice(d') && d' != d ==> Bits(s', d') == Bits(s, d'))
    && s'.previousKeys == s.previousKeys
    && s'.queue == (if d == Keyboard then Queued(s.queue, Pressed(s.previousKeys, f.current.keys, MAX_KEYBOARD_KEYS))
                    else s.queue)
  }

  lemma PlayDevice(s: State, f: Snapshot, d: Device)
    requires WellFormed(s) && Complete(f) && IsDevice(d)
    ensures AllPlayable(DeviceEvents(f, d))
    ensures OnlyMerged(s, PlayAll(s, DeviceEvents(f, d)), f, d)
  {
    assert DeviceEvents(f, d) == ButtonEvents(f.frame, d, Bits(f.previous, d), Bits(f.current, d), Size(d));
    hide *;
    PlayButtons(s, d, f.frame, Bits(f.previous, d), Bits(f.current, d), Size(d));
    PlayedIsMerged(s, PlayAll(s, DeviceEvents(f, d)), f, d);
  }

  lemma PlayedIsMerged(s: State, s': State, f: Snapshot, d: Device)
    requires WellFormed(s) && WellFormed(s') && Complete(f) && IsDevice(d)
    requires PlayedTo(s, s', d, Bits(f.previous, d), Bits(f.current, d), Size(d))
    ensures OnlyMerged(s, s', f, d)
  {
  }

  /** The first n gamepads merged, everything else as it was. */
  ghost predicate PadsMerged(s: State, s': State, f: Snapshot, n: nat)
    requires WellFormed(s) && WellFormed(s') && Complete(f) && n <= MAX_GAMEPADS
  {
    && (forall pad :: 0 <= pad < n ==> DeviceMerged(s, s', f, Pad(pad)))
    && (forall d' :: IsDevice(d') && !(d'.Pad? && d'.pad < n) ==> Bits(s', d') == Bits(s, d'))
    && s'.queue == s.queue && s'.previousKeys == s.previousKeys
  }

  lemma OnePadMore(s: State, s0: State, s1: State, f: Snapshot, n: nat)
    requires WellFormed(s) && WellFormed(s0) && WellFormed(s1) && Complete(f) && 0 < n <= MAX_GAMEPADS
    requires PadsMerged(s, s0, f, n - 1) && OnlyMerged(s0, s1, f, Pad(n - 1))
    ensures PadsMerged(s, s1, f, n)
  {
  }

  lemma NoPads(s: State, f: Snapshot)
    requires WellFormed(s) && Complete(f)
    ensures AllPlayable(PadEvents(f, 0)) && PadsMerged(s, PlayAll(s, PadEvents(f, 0)), f, 0)
  {
  }

  lemma NextPadEvents(f: Snapshot, n: nat)
    requires Complete(f) && 0 < n <= MAX_GAMEPADS
    ensures IsDevice(Pad(n - 1)) && n - 1 < MAX_GAMEPADS && MAX_GAMEPAD_AXIS <= 8
    ensures PadEvents(f, n)
            == PadEvents(f, n - 1) + DeviceEvents(f, Pad(n - 1)) + AxisEvents(f, n - 1, MAX_GAMEPAD_AXIS)
  {
    hide DeviceEvents, AxisEvents, Complete;
  }

  lemma {:induction false} PlayPads(s: State, f: Snapshot, n: nat)
    requires WellFormed(s) && Complete(f) && n <= MAX_GAMEPADS
    ensures AllPlayable(PadEvents(f, n))
    ensures PadsMerged(s, PlayAll(s, PadEvents(f, n)), f, n)
    decreases n
  {
    if n == 0 {
      NoPads(s, f);
    } else {
      NextPadEvents(f, n);
      hide *;
      PlayPads(s, f, n - 1);
      var s0 := PlayAll(s, PadEvents(f, n - 1));
      PlayDevice(s0, f, Pad(n - 1));
      var s1 := PlayAll(s0, DeviceEvents(f, Pad(n - 1)));
      AxesAreQuiet(f, n - 1, MAX_GAMEPAD_AXIS);
      PlayQuiet(s1, AxisEvents(f, n - 1, MAX_GAMEPAD_AXIS));
      PlayBoth(s, PadEvents(f, n - 1), DeviceEvents(f, Pad(n - 1)));
      PlayBoth(s, PadEvents(f, n - 1) + DeviceEvents(f, Pad(n - 1)), AxisEvents(f, n - 1, MAX_GAMEPAD_AXIS));
      OnePadMore(s, s0, s1, f, n);
    }
  }

  /** What playing a whole frame leaves: every button of every device merged with the frame's,
      and the newly pressed keys in the queue. */
  ghost predicate FrameMerged(s: State, s': State, f: Snapshot)
    requires WellFormed(s) && WellFormed(s') && Complete(f)
  {
    && (forall d :: IsDevice(d) ==> DeviceMerged(s, s', f, d))
    && s'.queue == Queued(s.queue, Pressed(s.previousKeys, f.current.keys, MAX_KEYBOARD_KEYS))
    && s'.previousKeys == s.previousKeys
  }

  /** The states between the blocks of a frame's events. */
  function AfterKeys(s: State, f: Snapshot): (s': State)
    requires WellFormed(s) && Complete(f)
    ensures WellFormed(s')
  {
    PlayDevice(s, f, Keyboard);
    PlayAll(s, DeviceEvents(f, Keyboard))
  }

  function AfterButtons(s: State, f: Snapshot): (s': State)
    requires WellFormed(s) && Complete(f)
    ensures WellFormed(s')
  {
    PlayDevice(AfterKeys(s, f), f, MouseButtons);
    PlayAll(AfterKeys(s, f), DeviceEvents(f, MouseButtons))
  }

  function AfterTouch(s: State, f: Snapshot): (s': State)
    requires WellFormed(s) && Complete(f)
    ensures WellFormed(s')
  {
    PlayDevice(AfterButtons(s, f), f, TouchPoints);
    PlayAll(AfterButtons(s, f), DeviceEvents(f, TouchPoints))
  }

  function AfterPads(s: State, f: Snapshot): (s': State)
    requires WellFormed(s) && Complete(f)
    ensures WellFormed(s')
  {
    PlayPads(AfterTouch(s, f), f, MAX_GAMEPADS);
    PlayAll(AfterTouch(s, f), PadEvents(f, MAX_GAMEPADS))
  }

  function FirstEvents(f: Snapshot): seq<Event>
    requires Complete(f)
  {
    DeviceEvents(f, Keyboard) + DeviceEvents(f, MouseButtons) + PositionEvents(f) + WheelEvents(f)
    + DeviceEvents(f, TouchPoints)
  }

  lemma FirstBlocks(s: State, f: Snapshot)
    requires WellFormed(s) && Complete(f)
    ensures AllPlayable(FirstEvents(f)) && PlayAll(s, FirstEvents(f)) == AfterTouch(s, f)
  {
    assert Quiet(PositionEvents(f)) && Quiet(WheelEvents(f));
    hide PlayAll, DeviceEvents, PositionEvents, WheelEvents, AllPlayable, Quiet, WellFormed, Bits, OnlyMerged, Complete;
    PlayDevice(s, f, Keyboard);
    PlayDevice(AfterKeys(s, f), f, MouseButtons);
    PlayQuiet(AfterButtons(s, f), PositionEvents(f));
    PlayQuiet(AfterButtons(s, f), WheelEvents(f));
    PlayDevice(AfterButtons(s, f), f, TouchPoints);
    var a := DeviceEvents(f, Keyboard);
    var b := a + DeviceEvents(f, MouseButtons);
    var c := b + PositionEvents(f);
    var d := c + WheelEvents(f);
    PlayBoth(s, a, DeviceEvents(f, MouseButtons));
    PlayBoth(s, b, PositionEvents(f));
    PlayBoth(s, c, WheelEvents(f));
    PlayBoth(s, d, DeviceEvents(f, TouchPoints));
  }

  lemma FrameInBlocks(s: State, f: Snapshot)
    requires WellFormed(s) && Complete(f)
    ensures AllPlayable(FrameEvents(f)) && PlayAll(s, FrameEvents(f)) == AfterPads(s, f)
  {
    assert Quiet(GestureEvents(f));
    assert FrameEvents(f) == FirstEvents(f) + PadEvents(f, MAX_GAMEPADS) + GestureEvents(f);
    hide PlayAll, FirstEvents, PadEvents, GestureEvents, FrameEvents, AllPlayable, Quiet, WellFormed, Bits, PadsMerged;
    hide Complete, AfterTouch;
    FirstBlocks(s, f);
    PlayPads(AfterTouch(s, f), f, MAX_GAMEPADS);
    PlayQuiet(AfterPads(s, f), GestureEvents(f));
    PlayBoth(s, FirstEvents(f), PadEvents(f, MAX_GAMEPADS));
    PlayBoth(s, FirstEvents(f) + PadEvents(f, MAX_GAMEPADS), GestureEvents(f));
  }

  lemma BlocksMakeFrame(s: State, keys: State, buttons: State, touch: State, pads: State, f: Snapshot)
    requires WellFormed(s) && WellFormed(keys) && WellFormed(buttons) && WellFormed(touch) && WellFormed(pads)
    requires Complete(f) && OnlyMerged(s, keys, f, Keyboard) && OnlyMerged(keys, buttons, f, MouseButtons)
    requires OnlyMerged(buttons, touch, f, TouchPoints) && PadsMerged(touch, pads, f, MAX_GAMEPADS)
    ensures FrameMerged(s, pads, f)
  {
  }

  lemma PlayFrame(s: State, f: Snapshot)
    requires WellFormed(s) && Complete(f)
    ensures AllPlayable(FrameEvents(f)) && FrameMerged(s, PlayAll(s, FrameEvents(f)), f)
  {
    FrameInBlocks(s, f);
    hide PlayAll, DeviceEvents, PadEvents, FrameEvents, AllPlayable, WellFormed, Bits, Pressed, Queued;
    hide OnlyMerged, PadsMerged, FrameMerged, Complete, DeviceMerged;
    PlayDevice(s, f, Keyboard);
    PlayDevice(AfterKeys(s, f), f, MouseButtons);
    PlayDevice(AfterButtons(s, f), f, TouchPoints);
    PlayPads(AfterTouch(s, f), f, MAX_GAMEPADS);
    BlocksMakeFrame(s, AfterKeys(s, f), AfterButtons(s, f), AfterTouch(s, f), AfterPads(s, f), f);
  }

  // ---- Runs ----

  /** What PollInputEvents does on the replaying side before a frame: the keys become the previous
      keys, and the queue is emptied. */
  function Poll(s: State): (s': State)
    requires WellFormed(s)
    ensures WellFormed(s')
  {
    s.(previousKeys := s.keys, queue := [])
  }

  /** The state after the first k frames of a run have been replayed. */
  function Replay(s: State, frames: seq<Snapshot>, k: nat): (s': State)
    requires WellFormed(s) && k <= |frames| && forall i :: 0 <= i < |frames| ==> Complete(frames[i])
    ensures WellFormed(s')
    decreases k
  {
    if k == 0 then s
    else
      PlayFrame(Poll(Replay(s, frames, k - 1)), frames[k - 1]);
      PlayAll(Poll(Replay(s, frames, k - 1)), FrameEvents(frames[k - 1]))
  }

  ghost predicate Run(s: State, frames: seq<Snapshot>) {
    WellFormed(s) && forall i :: 0 <= i < |frames| ==> Complete(frames[i])
  }

  /** The replayed buttons are the recorded ones, after every frame, on every device. */
  ghost predicate Reproduced(s: State, frames: seq<Snapshot>, k: nat)
    requires Run(s, frames) && k < |frames|
  {
    forall d :: IsDevice(d) ==> Bits(Replay(s, frames, k + 1), d) == Bits(frames[k].current, d)
  }

  /** The buttons that were down before frame k. */
  function Before(s: State, frames: seq<Snapshot>, k: nat, d: Device): (bits: seq<bool>)
    requires Run(s, frames) && k < |frames| && IsDevice(d)
    ensures |bits| == Size(d)
  {
    if k == 0 then Bits(s, d) else Bits(frames[k - 1].current, d)
  }

  /** Every button released in frame k is seen as such by the recorder: it was down in the frame's
      own record of the previous state. */
  ghost predicate ReleasesSeen(s: State, frames: seq<Snapshot>, k: nat)
    requires Run(s, frames) && k < |frames|
  {
    forall d, i :: IsDevice(d) && 0 <= i < Size(d) && Before(s, frames, k, d)[i] && !Bits(frames[k].current, d)[i] ==>
      Bits(frames[k].previous, d)[i]
  }

  /** A frame is reproduced from the right state exactly when its releases were seen. */
  lemma FrameExactly(s: State, frames: seq<Snapshot>, k: nat)
    requires Run(s, frames) && k < |frames|
    requires 0 < k ==> Reproduced(s, frames, k - 1)
    ensures Reproduced(s, frames, k) <==> ReleasesSeen(s, frames, k)
  {
    var before := Poll(Replay(s, frames, k));
    PlayFrame(before, frames[k]);
    var after := Replay(s, frames, k + 1);
    assert FrameMerged(before, after, frames[k]);
    forall d | IsDevice(d)
      ensures Bits(before, d) == Before(s, frames, k, d)
      ensures DeviceMerged(before, after, frames[k], d)
    {
      assert Bits(before, d) == Bits(Replay(s, frames, k), d);
    }
    ExactlyByDevice(s, frames, k, before, after);
  }

  lemma ExactlyByDevice(s: State, frames: seq<Snapshot>, k: nat, before: State, after: State)
    requires Run(s, frames) && k < |frames| && WellFormed(before) && after == Replay(s, frames, k + 1)
    requires forall d :: IsDevice(d) ==> Bits(before, d) == Before(s, frames, k, d)
    requires forall d :: IsDevice(d) ==> DeviceMerged(before, after, frames[k], d)
    ensures Reproduced(s, frames, k) <==> ReleasesSeen(s, frames, k)
  {
    assert Complete(frames[k]) && WellFormed(frames[k].current) && WellFormed(frames[k].previous);
    hide Bits, WellFormed, Replay, Complete;
    if ReleasesSeen(s, frames, k) {
      forall d | IsDevice(d)
        ensures Bits(after, d) == Bits(frames[k].current, d)
      {
        assert DeviceMerged(before, after, frames[k], d);
        forall i | 0 <= i < Size(d)
          ensures Bits(after, d)[i] == Bits(frames[k].current, d)[i]
        {
          assert Before(s, frames, k, d)[i] == Bits(before, d)[i];
        }
      }
    }
    if Reproduced(s, frames, k) {
      forall d, i | IsDevice(d) && 0 <= i < Size(d) && Before(s, frames, k, d)[i] && !Bits(frames[k].current, d)[i]
        ensures Bits(frames[k].previous, d)[i]
      {
        assert DeviceMerged(before, after, frames[k], d);
        assert Bits(after, d)[i] == Bits(frames[k].current, d)[i];
      }
    }
  }

  /** Replaying the log of a run reproduces the buttons after every frame exactly when every
      release was seen by the recorder. */
  lemma {:induction false} ReplayExactly(s: State, frames: seq<Snapshot>, n: nat)
    requires Run(s, frames) && n <= |frames|
    ensures (forall k :: 0 <= k < n ==> Reproduced(s, frames, k))
            <==> (forall k :: 0 <= k < n ==> ReleasesSeen(s, frames, k))
    decreases n
  {
    hide Reproduced, ReleasesSeen;
    if n > 0 {
      ReplayExactly(s, frames, n - 1);
      if forall k :: 0 <= k < n - 1 ==> Reproduced(s, frames, k) {
        FrameExactly(s, frames, n - 1);
      }
    }
  }

  /** What PollInputEvents does on the recording side: each frame's previous state is the frame
      before's current one, except that a gamepad which is not ready is not polled at all, and then
      keeps its buttons. */
  ghost predicate Polled(s: State, frames: seq<Snapshot>)
    requires Run(s, frames)
  {
    forall k, d :: 0 <= k < |frames| && IsDevice(d) ==>
      || Bits(frames[k].previous, d) == Before(s, frames, k, d)
      || (d.Pad? && Bits(frames[k].current, d) == Before(s, frames, k, d))
  }

  /** A polled run is reproduced; the queue of pressed keys is filled again in the order of the keys. */
  lemma PolledRunReproduced(s: State, frames: seq<Snapshot>, k: nat)
    requires Run(s, frames) && Polled(s, frames) && k < |frames|
    ensures Reproduced(s, frames, k)
    ensures Replay(s, frames, k + 1).queue
            == Queued([], Pressed(frames[k].previous.keys, frames[k].current.keys, MAX_KEYBOARD_KEYS))
  {
    ReplayExactly(s, frames, |frames|);
    PlayFrame(Poll(Replay(s, frames, k)), frames[k]);
    assert Bits(frames[k].previous, Keyboard) == Before(s, frames, k, Keyboard);
    if k > 0 {
      assert Reproduced(s, frames, k - 1);
      assert Bits(Replay(s, frames, k), Keyboard) == Bits(frames[k - 1].current, Keyboard);
    }
  }

  /** The queue of pressed keys is reproduced exactly when it held all keys that are down now and were
      not before, in ascending order. */
  lemma QueueReproducedExactly(s: State, frames: seq<Snapshot>, k: nat)
    requires Run(s, frames) && Polled(s, frames) && k < |frames|
    ensures Replay(s, frames, k + 1).queue == frames[k].current.queue
            <==> frames[k].current.queue
                 == Queued([], Pressed(frames[k].previous.keys, frames[k].current.keys, MAX_KEYBOARD_KEYS))
  {
    PolledRunReproduced(s, frames, k);
  }

  /** A key goes down while events are polled: its state, and its place in the queue. */
  function KeyPressed(s: State, key: nat): (s': State)
    requires WellFormed(s) && key < MAX_KEYBOARD_KEYS
    ensures WellFormed(s')
  {
    s.(keys := s.keys[key := true], queue := if |s.queue| < MAX_KEY_PRESSED_QUEUE then s.queue + [key] else s.queue)
  }

  const ALL_UP: State := State(seq(MAX_KEYBOARD_KEYS, _ => false), seq(MAX_MOUSE_BUTTONS, _ => false),
                               seq(MAX_TOUCH_POINTS, _ => false),
                               seq(MAX_GAMEPADS, _ => seq(MAX_GAMEPAD_BUTTONS, _ => false)),
                               seq(MAX_KEYBOARD_KEYS, _ => false), [])

  /** A first frame in which B was pressed and then A. */
  function BThenA(): Snapshot {
    Snapshot(0, ALL_UP, KeyPressed(KeyPressed(ALL_UP, 66), 65), Point(0.0, 0.0), Point(0.0, 0.0), Point(0.0, 0.0),
             Point(0.0, 0.0),
             seq(MAX_GAMEPADS, _ => false), seq(MAX_GAMEPADS, _ => seq(MAX_GAMEPAD_AXIS, _ => 0.0)), GESTURE_NONE)
  }

  lemma {:induction false} PressedAAndB(previous: seq<bool>, current: seq<bool>, n: nat)
    requires 66 < |previous| == |current| && n <= |previous|
    requires forall i :: 0 <= i < |previous| ==> !previous[i] && current[i] == (i == 65 || i == 66)
    ensures Pressed(previous, current, n) == if n <= 65 then [] else if n == 66 then [65] else [65, 66]
  {
    if n > 0 { PressedAAndB(previous, current, n - 1); }
  }

  lemma BThenAIsARun()
    ensures Run(ALL_UP, [BThenA()]) && Polled(ALL_UP, [BThenA()]) && BThenA().current.queue == [66, 65]
    ensures BThenA().previous == ALL_UP
    ensures Pressed(ALL_UP.keys, BThenA().current.keys, MAX_KEYBOARD_KEYS) == [65, 66]
  {
    hide *;
    BThenAIsComplete();
    BThenAIsPolled();
    BThenAIsQueued();
    PressedAAndB(ALL_UP.keys, BThenA().current.keys, MAX_KEYBOARD_KEYS);
  }

  lemma BThenAIsComplete()
    ensures Run(ALL_UP, [BThenA()])
  {
    hide KeyPressed;
  }

  lemma BThenAIsPolled()
    requires Run(ALL_UP, [BThenA()])
    ensures Polled(ALL_UP, [BThenA()])
  {
    hide Run, Complete, KeyPressed, WellFormed;
  }

  lemma BThenAIsQueued()
    ensures BThenA().previous == ALL_UP && BThenA().current.queue == [66, 65]
    ensures var previous, current := ALL_UP.keys, BThenA().current.keys;
            && |previous| == |current| == MAX_KEYBOARD_KEYS && 66 < MAX_KEYBOARD_KEYS
            && forall i :: 0 <= i < |previous| ==> !previous[i] && current[i] == (i == 65 || i == 66)
  {
    hide WellFormed;
  }

  lemma QueuedAAndB()
    ensures Queued([], [65, 66]) == [65, 66]
  {
  }

  /** Keys pressed in another order come back in ascending order. */
  lemma QueueOrderIsLost()
    ensures Run(ALL_UP, [BThenA()]) && Polled(ALL_UP, [BThenA()])
    ensures BThenA().current.queue == [66, 65] && Replay(ALL_UP, [BThenA()], 1).queue == [65, 66]
  {
    hide *;
    BThenAIsARun();
    PolledRunReproduced(ALL_UP, [BThenA()], 0);
    QueuedAAndB();
  }
}
