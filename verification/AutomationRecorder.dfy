/** The recorder and the player over their state: a list of events with a capacity, and the input
    arrays of the program. */
module AutomationRecorder {

  import opened Automation
  import opened AutomationReplay

  class EventList {
    const events: array<Event>
    var count: nat

    /** The slots that are still free have never been written. */
    ghost predicate Valid()
      reads this, events
    {
      count <= events.Length && forall i :: count <= i < events.Length ==> events[i].p3 == 0
    }

    ghost function Log(): seq<Event>
      requires count <= events.Length
      reads this, events
    {
      events[..count]
    }

    constructor (capacity: nat)
      ensures Valid() && events.Length == capacity && Log() == [] && fresh(events)
    {
      events := new Event[capacity](_ => Event(0, 0, 0, 0, 0, 0));
      count := 0;
    }

    /** Fills in the next slot. The recorder sets three of the four parameters. */
    method Append(e: Event)
      requires Valid() && count < events.Length && e.p3 == 0
      modifies this`count, events
      ensures Valid() && Log() == old(Log()) + [e]
    {
      events[count] := e.(p3 := events[count].p3);
      count := count + 1;
    }

    /** Logs the releases and held buttons of one device, and stops at the list's capacity. */
    method RecordButtons(frame: int, d: Device, previous: seq<bool>, current: seq<bool>) returns (full: bool)
      requires Valid() && count < events.Length && |previous| == |current|
      modifies this`count, events
      ensures Valid() && full == (count == events.Length)
      ensures Log() == Take(old(Log()) + ButtonEvents(frame, d, previous, current, |current|), events.Length)
    {
      hide ButtonEvents, ButtonEvent, Take;
      ghost var before := Log();
      StartTaking(before, frame, d, previous, current, events.Length);
      for i := 0 to |current|
        invariant Valid() && count < events.Length
        invariant Log() == before + ButtonEvents(frame, d, previous, current, i)
      {
        NextButton(frame, d, previous, current, i + 1);
        NotUp(frame, d, i);
        ghost var logged := ButtonEvents(frame, d, previous, current, i);
        if previous[i] && !current[i] {
          Append(ButtonEvent(frame, d, i, false));
        }
        if count == events.Length {
          FullLog(before, frame, d, previous, current, i + 1, events.Length);
          return true;
        }
        if current[i] {
          Append(ButtonEvent(frame, d, i, true));
        }
        assert Log() == before + ButtonEvents(frame, d, previous, current, i + 1);
        if count == events.Length {
          FullLog(before, frame, d, previous, current, i + 1, events.Length);
          return true;
        }
      }
      NotFull(Log(), events.Length);
      return false;
    }

    /** Logs an event that a frame has or has not. */
    method RecordOptional(optional: seq<Event>) returns (full: bool)
      requires Valid() && count < events.Length && |optional| <= 1 && forall e :: e in optional ==> e.p3 == 0
      modifies this`count, events
      ensures Valid() && full == (count == events.Length)
      ensures Log() == Take(old(Log()) + optional, events.Length)
    {
      if optional != [] {
        Append(optional[0]);
        assert optional == [optional[0]];
      } else {
        assert Log() + optional == Log();
      }
      full := count == events.Length;
    }

    method RecordAxes(f: Snapshot, pad: nat) returns (full: bool)
      requires Valid() && count < events.Length && Complete(f) && pad < MAX_GAMEPADS
      modifies this`count, events
      ensures Valid() && full == (count == events.Length)
      ensures Log() == Take(old(Log()) + AxisEvents(f, pad, MAX_GAMEPAD_AXIS), events.Length)
    {
      hide *;
      FitsAlready();
      ghost var before, capacity := Log(), events.Length;
      NoAxisEvents(before, f, pad, capacity);
      for axis := 0 to MAX_GAMEPAD_AXIS
        invariant Valid() && count < events.Length
        invariant Log() == Take(before + AxisEvents(f, pad, axis), capacity)
      {
        var moved := AxisEvent(f, pad, axis);
        full := RecordOptional(moved);
        FitsAlready();
        TakeMore(before, AxisEvents(f, pad, axis), moved, capacity);
        if full {
          AxisEventsGrow(f, pad, axis + 1, MAX_GAMEPAD_AXIS);
          FullPrefix(before, AxisEvents(f, pad, axis + 1), AxisEvents(f, pad, MAX_GAMEPAD_AXIS), capacity);
          return;
        }
      }
      full := false;
    }

    lemma FitsAlready()
      requires Valid()
      ensures |Log()| == count <= events.Length
    {
    }

    /** Keys, mouse and touch. */
    method RecordFirst(f: Snapshot) returns (full: bool)
      requires Valid() && count < events.Length && Complete(f)
      modifies this`count, events
      ensures Valid() && full == (count == events.Length)
      ensures Log() == Take(old(Log()) + FirstEvents(f), events.Length)
    {
      ghost var before, capacity := Log(), events.Length;
      Optional(f);
      assert DeviceEvents(f, Keyboard) == ButtonEvents(f.frame, Keyboard, f.previous.keys, f.current.keys,
                                                       |f.current.keys|);
      assert DeviceEvents(f, MouseButtons)
             == ButtonEvents(f.frame, MouseButtons, f.previous.buttons, f.current.buttons, |f.current.buttons|);
      assert DeviceEvents(f, TouchPoints)
             == ButtonEvents(f.frame, TouchPoints, f.previous.touch, f.current.touch, |f.current.touch|);
      assert FirstEvents(f) == DeviceEvents(f, Keyboard) + DeviceEvents(f, MouseButtons) + PositionEvents(f)
                               + WheelEvents(f) + DeviceEvents(f, TouchPoints);
      assert |f.previous.keys| == |f.current.keys| && |f.previous.buttons| == |f.current.buttons|
             && |f.previous.touch| == |f.current.touch|;
      hide *;
      ghost var a := DeviceEvents(f, Keyboard);
      full := RecordButtons(f.frame, Keyboard, f.previous.keys, f.current.keys);
      if full { FullPrefix(before, a, FirstEvents(f), capacity); return; }
      ghost var b := a + DeviceEvents(f, MouseButtons);
      full := RecordButtons(f.frame, MouseButtons, f.previous.buttons, f.current.buttons);
      TakeMore(before, a, DeviceEvents(f, MouseButtons), capacity);
      if full { FullPrefix(before, b, FirstEvents(f), capacity); return; }
      ghost var c := b + PositionEvents(f);
      full := RecordOptional(PositionEvents(f));
      TakeMore(before, b, PositionEvents(f), capacity);
      if full { FullPrefix(before, c, FirstEvents(f), capacity); return; }
      ghost var d := c + WheelEvents(f);
      full := RecordOptional(WheelEvents(f));
      TakeMore(before, c, WheelEvents(f), capacity);
      if full { FullPrefix(before, d, FirstEvents(f), capacity); return; }
      full := RecordButtons(f.frame, TouchPoints, f.previous.touch, f.current.touch);
      TakeMore(before, d, DeviceEvents(f, TouchPoints), capacity);
    }

    method RecordPad(f: Snapshot, pad: nat) returns (full: bool)
      requires Valid() && count < events.Length && Complete(f) && pad < MAX_GAMEPADS
      modifies this`count, events
      ensures Valid() && full == (count == events.Length)
      ensures Log() == Take(old(Log()) + (DeviceEvents(f, Pad(pad)) + AxisEvents(f, pad, MAX_GAMEPAD_AXIS)),
                            events.Length)
    {
      ghost var before, capacity := Log(), events.Length;
      ghost var buttons, axes := DeviceEvents(f, Pad(pad)), AxisEvents(f, pad, MAX_GAMEPAD_AXIS);
      PadStep(f, pad);
      hide *;
      full := RecordButtons(f.frame, Pad(pad), f.previous.pads[pad], f.current.pads[pad]);
      if full { FullPrefix(before, buttons, buttons + axes, capacity); return; }
      full := RecordAxes(f, pad);
      TakeMore(before, buttons, axes, capacity);
    }

    method RecordPads(f: Snapshot) returns (full: bool)
      requires Valid() && count < events.Length && Complete(f)
      modifies this`count, events
      ensures Valid() && full == (count == events.Length)
      ensures Log() == Take(old(Log()) + PadEvents(f, MAX_GAMEPADS), events.Length)
    {
      hide *;
      FitsAlready();
      ghost var before, capacity := Log(), events.Length;
      NoPadEvents(before, f, capacity);
      for pad := 0 to MAX_GAMEPADS
        invariant Valid() && count < events.Length
        invariant Log() == Take(before + PadEvents(f, pad), capacity)
      {
        PadStep(f, pad);
        full := RecordPad(f, pad);
        FitsAlready();
        TakeMore(before, PadEvents(f, pad), DeviceEvents(f, Pad(pad)) + AxisEvents(f, pad, MAX_GAMEPAD_AXIS), capacity);
        if full { FullPrefix(before, PadEvents(f, pad + 1), PadEvents(f, MAX_GAMEPADS), capacity); return; }
      }
      full := false;
    }

    /** Records a frame: the log is what it would be without a limit, cut off at its capacity. */
    method RecordAutomationEvent(f: Snapshot)
      requires Valid() && Complete(f)
      modifies this`count, events
      ensures Valid() && Log() == Take(old(Log()) + FrameEvents(f), events.Length)
    {
      ghost var before, capacity := Log(), events.Length;
      Optional(f);
      assert FrameEvents(f) == FirstEvents(f) + PadEvents(f, MAX_GAMEPADS) + GestureEvents(f);
      AlreadyFull(before, FrameEvents(f), capacity);
      hide Take, Complete, FrameEvents, FirstEvents, PadEvents, GestureEvents;
      if count == events.Length { return; }
      var full := RecordFirst(f);
      if full { FullPrefix(before, FirstEvents(f), FrameEvents(f), capacity); return; }
      full := RecordPads(f);
      TakeMore(before, FirstEvents(f), PadEvents(f, MAX_GAMEPADS), capacity);
      if full { FullPrefix(before, FirstEvents(f) + PadEvents(f, MAX_GAMEPADS), FrameEvents(f), capacity); return; }
      full := RecordOptional(GestureEvents(f));
      TakeMore(before, FirstEvents(f) + PadEvents(f, MAX_GAMEPADS), GestureEvents(f), capacity);
    }

    /** Records a whole run: with any capacity, the log is the beginning of the unlimited log. */
    method RecordRun(frames: seq<Snapshot>)
      requires Valid() && forall i :: 0 <= i < |frames| ==> Complete(frames[i])
      modifies this`count, events
      ensures Valid() && Log() == Take(old(Log()) + RunEvents(frames), events.Length)
    {
      hide *;
      FitsAlready();
      ghost var before, capacity := Log(), events.Length;
      NothingRecorded(before, frames, capacity);
      for k := 0 to |frames|
        invariant Valid() && count <= events.Length && Log() == Take(before + RunEvents(frames[..k]), capacity)
      {
        RunNext(frames, k);
        RecordAutomationEvent(frames[k]);
        FitsAlready();
        TakeMore(before, RunEvents(frames[..k]), FrameEvents(frames[k]), capacity);
      }
      assert frames[..|frames|] == frames;
    }
  }

  /** The log of a run by a recorder without a limit. */
  function RunEvents(frames: seq<Snapshot>): seq<Event>
    requires forall i :: 0 <= i < |frames| ==> Complete(frames[i])
  {
    if frames == [] then [] else RunEvents(frames[..|frames| - 1]) + FrameEvents(frames[|frames| - 1])
  }

  lemma RunNext(frames: seq<Snapshot>, k: nat)
    requires k < |frames| && forall i :: 0 <= i < |frames| ==> Complete(frames[i])
    ensures RunEvents(frames[..k + 1]) == RunEvents(frames[..k]) + FrameEvents(frames[k])
  {
    hide FrameEvents, Complete;
    assert frames[..k + 1][..k] == frames[..k];
  }

  lemma NothingRecorded(before: seq<Event>, frames: seq<Snapshot>, capacity: nat)
    requires |before| <= capacity && forall i :: 0 <= i < |frames| ==> Complete(frames[i])
    ensures Take(before + RunEvents(frames[..0]), capacity) == before
  {
    assert before + [] == before;
  }

  lemma NoAxisEvents(before: seq<Event>, f: Snapshot, pad: nat, capacity: nat)
    requires |before| <= capacity && Complete(f) && pad < MAX_GAMEPADS
    ensures Take(before + AxisEvents(f, pad, 0), capacity) == before
  {
    assert before + [] == before;
  }

  lemma NoPadEvents(before: seq<Event>, f: Snapshot, capacity: nat)
    requires |before| <= capacity && Complete(f)
    ensures Take(before + PadEvents(f, 0), capacity) == before
  {
    assert before + [] == before;
  }

  function AxisEvent(f: Snapshot, pad: nat, axis: nat): (optional: seq<Event>)
    requires Complete(f) && pad < MAX_GAMEPADS && axis < MAX_GAMEPAD_AXIS
    ensures |optional| <= 1 && forall e :: e in optional ==> e.p3 == 0
    ensures AxisEvents(f, pad, axis + 1) == AxisEvents(f, pad, axis) + optional
  {
    if Movement(f.ready[pad], axis, f.axes[pad][axis]) != AtRest(axis) then
      [Event(f.frame, INPUT_GAMEPAD_AXIS_MOTION, pad, axis, Truncated(f.axes[pad][axis] * 32768.0), 0)]
    else []
  }

  lemma PadSizes(f: Snapshot, pad: nat)
    requires Complete(f) && pad < MAX_GAMEPADS
    ensures pad < |f.previous.pads| && pad < |f.current.pads| && IsDevice(Pad(pad))
    ensures |f.previous.pads[pad]| == |f.current.pads[pad]| == MAX_GAMEPAD_BUTTONS
  {
  }

  lemma PadButtons(f: Snapshot, pad: nat)
    requires Complete(f) && pad < MAX_GAMEPADS
    requires pad < |f.previous.pads| && pad < |f.current.pads| && IsDevice(Pad(pad))
    requires |f.previous.pads[pad]| == |f.current.pads[pad]| == MAX_GAMEPAD_BUTTONS
    ensures DeviceEvents(f, Pad(pad))
            == ButtonEvents(f.frame, Pad(pad), f.previous.pads[pad], f.current.pads[pad], |f.current.pads[pad]|)
  {
    hide ButtonEvents;
  }

  lemma NextPad(f: Snapshot, pad: nat)
    requires Complete(f) && pad < MAX_GAMEPADS
    ensures PadEvents(f, pad + 1) == PadEvents(f, pad)
            + (DeviceEvents(f, Pad(pad)) + AxisEvents(f, pad, MAX_GAMEPAD_AXIS))
  {
    hide DeviceEvents, AxisEvents, Complete;
  }

  lemma PadStep(f: Snapshot, pad: nat)
    requires Complete(f) && pad < MAX_GAMEPADS
    ensures pad < |f.previous.pads| && pad < |f.current.pads| && IsDevice(Pad(pad))
    ensures |f.previous.pads[pad]| == |f.current.pads[pad]|
    ensures DeviceEvents(f, Pad(pad))
            == ButtonEvents(f.frame, Pad(pad), f.previous.pads[pad], f.current.pads[pad], |f.current.pads[pad]|)
    ensures PadEvents(f, pad + 1) == PadEvents(f, pad)
            + (DeviceEvents(f, Pad(pad)) + AxisEvents(f, pad, MAX_GAMEPAD_AXIS))
    ensures PadEvents(f, pad + 1) <= PadEvents(f, MAX_GAMEPADS)
  {
    assert pad + 1 <= MAX_GAMEPADS;
    hide *;
    PadSizes(f, pad);
    PadButtons(f, pad);
    NextPad(f, pad);
    PadEventsGrow(f, pad + 1, MAX_GAMEPADS);
  }

  lemma Optional(f: Snapshot)
    ensures |PositionEvents(f)| <= 1 && forall e :: e in PositionEvents(f) ==> e.p3 == 0
    ensures |WheelEvents(f)| <= 1 && forall e :: e in WheelEvents(f) ==> e.p3 == 0
    ensures |GestureEvents(f)| <= 1 && forall e :: e in GestureEvents(f) ==> e.p3 == 0
  {
  }

  lemma {:induction false} AxisEventsGrow(f: Snapshot, pad: nat, i: nat, n: nat)
    requires Complete(f) && pad < MAX_GAMEPADS && i <= n <= MAX_GAMEPAD_AXIS
    ensures AxisEvents(f, pad, i) <= AxisEvents(f, pad, n)
    decreases n
  {
    if i < n {
      AxisEventsGrow(f, pad, i, n - 1);
    }
  }

  lemma {:induction false} PadEventsGrow(f: Snapshot, i: nat, n: nat)
    requires Complete(f) && i <= n <= MAX_GAMEPADS
    ensures PadEvents(f, i) <= PadEvents(f, n)
    decreases n
  {
    hide DeviceEvents, AxisEvents;
    if i < n {
      PadEventsGrow(f, i, n - 1);
    }
  }

  /** Cutting off in between does not matter. */
  lemma TakeMore(log: seq<Event>, a: seq<Event>, b: seq<Event>, capacity: nat)
    ensures Take(Take(log + a, capacity) + b, capacity) == Take(log + (a + b), capacity)
  {
    assert log + a + b == log + (a + b);
    if |log + a| > capacity {
      var kept := (log + a)[..capacity];
      assert (kept + b)[..capacity] == kept == (log + a + b)[..capacity];
    }
  }

  /** Once the log is full, the rest of the frame does not show. */
  lemma FullPrefix(log: seq<Event>, a: seq<Event>, all: seq<Event>, capacity: nat)
    requires a <= all && |Take(log + a, capacity)| == capacity
    ensures Take(log + all, capacity) == Take(log + a, capacity)
  {
  }

  lemma AlreadyFull(log: seq<Event>, all: seq<Event>, capacity: nat)
    requires |log| <= capacity
    ensures |log| == capacity ==> Take(log + all, capacity) == log
  {
  }

  lemma NotUp(frame: int, d: Device, i: nat)
    ensures ButtonEvent(frame, d, i, false).p3 == 0 && ButtonEvent(frame, d, i, true).p3 == 0
  {
  }

  lemma StartTaking(log: seq<Event>, frame: int, d: Device, previous: seq<bool>, current: seq<bool>, capacity: nat)
    requires |previous| == |current|
    ensures log + ButtonEvents(frame, d, previous, current, 0) == log
  {
  }

  lemma NotFull(log: seq<Event>, capacity: nat)
    requires |log| <= capacity
    ensures Take(log, capacity) == log
  {
  }

  lemma {:induction false} ButtonEventsGrow(frame: int, d: Device, previous: seq<bool>, current: seq<bool>, i: nat,
                                            n: nat)
    requires i <= n <= |previous| == |current|
    ensures ButtonEvents(frame, d, previous, current, i) <= ButtonEvents(frame, d, previous, current, n)
    decreases n
  {
    if i < n {
      ButtonEventsGrow(frame, d, previous, current, i, n - 1);
    }
  }

  /** A full log is the beginning of the unlimited one. */
  lemma FullLog(log: seq<Event>, frame: int, d: Device, previous: seq<bool>, current: seq<bool>, i: nat, capacity: nat)
    requires i <= |previous| == |current| && |log + ButtonEvents(frame, d, previous, current, i)| == capacity
    ensures Take(log + ButtonEvents(frame, d, previous, current, |current|), capacity)
            == log + ButtonEvents(frame, d, previous, current, i)
  {
    ButtonEventsGrow(frame, d, previous, current, i, |current|);
    hide ButtonEvents;
  }

  /** The gesture of a frame without touch events, by that of the frame before. */
  function NextGesture(gesture: int, points: nat): int {
    match gesture
    case 1 | 2 => if points < 2 then GESTURE_HOLD else gesture
    case 16 | 32 | 64 | 128 => GESTURE_NONE
    case _ => gesture
  }

  // ---- Input that is not buttons ----

  /** Positions, axes and the gesture. */
  datatype Analog = Analog(mouse: Point, wheel: Point, axes: seq<seq<real>>, ready: seq<bool>, gesture: int)

  predicate AnalogFormed(s: Analog) {
    && |s.axes| == |s.ready| == MAX_GAMEPADS
    && forall i :: 0 <= i < MAX_GAMEPADS ==> |s.axes[i]| == MAX_GAMEPAD_AXIS
  }

  function PlayAnalog(s: Analog, e: Event): (s': Analog)
    requires AnalogFormed(s) && CoreInput.InRange(e)
    ensures AnalogFormed(s')
  {
    if e.kind == INPUT_MOUSE_POSITION then s.(mouse := Point(e.p0 as real, e.p1 as real))
    else if e.kind == INPUT_MOUSE_WHEEL_MOTION then s.(wheel := Point(e.p0 as real, e.p1 as real))
    else if e.kind == INPUT_GAMEPAD_CONNECT then s.(ready := s.ready[e.p0 := true])
    else if e.kind == INPUT_GAMEPAD_DISCONNECT then s.(ready := s.ready[e.p0 := false])
    else if e.kind == INPUT_GAMEPAD_AXIS_MOTION then
      s.(axes := s.axes[e.p0 := s.axes[e.p0][e.p1 := e.p2 as real / 32768.0]])
    else if e.kind == INPUT_GESTURE then s.(gesture := e.p0)
    else s
  }

  function PlayAnalogs(s: Analog, events: seq<Event>): (s': Analog)
    requires AnalogFormed(s) && AllInRange(events)
    ensures AnalogFormed(s')
    decreases |events|
  {
    if events == [] then s else PlayAnalog(PlayAnalogs(s, events[..|events| - 1]), events[|events| - 1])
  }

  lemma {:induction false} AnalogsBoth(s: Analog, a: seq<Event>, b: seq<Event>)
    requires AnalogFormed(s) && AllInRange(a) && AllInRange(b)
    ensures AllInRange(a + b) && PlayAnalogs(s, a + b) == PlayAnalogs(PlayAnalogs(s, a), b)
    decreases |b|
  {
    hide CoreInput.InRange, PlayAnalog, AnalogFormed;
    if b == [] {
      assert a + b == a;
    } else {
      AnalogsBoth(s, a, b[..|b| - 1]);
      assert (a + b)[..|a + b| - 1] == a + b[..|b| - 1];
    }
  }

  /** Buttons leave all of it alone. */
  lemma {:induction false} ButtonsAreNotAnalog(s: Analog, frame: int, d: Device, previous: seq<bool>,
                                                current: seq<bool>, n: nat)
    requires AnalogFormed(s) && IsDevice(d) && n <= |previous| == |current| == Size(d)
    ensures AllInRange(ButtonEvents(frame, d, previous, current, n))
    ensures PlayAnalogs(s, ButtonEvents(frame, d, previous, current, n)) == s
    decreases n
  {
    hide *;
    ButtonsInRange(frame, d, previous, current, n);
    if n == 0 {
      NoButtonsAnalog(s, frame, d, previous, current);
    } else {
      ButtonsAreNotAnalog(s, frame, d, previous, current, n - 1);
      NextButton(frame, d, previous, current, n);
      ButtonIsNotAnalog(s, frame, d, n - 1, current[n - 1]);
      AnalogsBoth(s, ButtonEvents(frame, d, previous, current, n - 1), [ButtonEvent(frame, d, n - 1, current[n - 1])]);
    }
  }

  lemma NoButtonsAnalog(s: Analog, frame: int, d: Device, previous: seq<bool>, current: seq<bool>)
    requires AnalogFormed(s) && |previous| == |current|
    ensures AllInRange(ButtonEvents(frame, d, previous, current, 0))
    ensures PlayAnalogs(s, ButtonEvents(frame, d, previous, current, 0)) == s
  {
  }

  lemma ButtonIsNotAnalog(s: Analog, frame: int, d: Device, button: nat, down: bool)
    requires AnalogFormed(s) && IsDevice(d) && button < Size(d)
    ensures AllInRange([ButtonEvent(frame, d, button, down)])
    ensures PlayAnalogs(s, [ButtonEvent(frame, d, button, down)]) == s
  {
  }

  lemma DeviceIsNotAnalog(s: Analog, f: Snapshot, d: Device)
    requires AnalogFormed(s) && Complete(f) && IsDevice(d)
    ensures AllInRange(DeviceEvents(f, d)) && PlayAnalogs(s, DeviceEvents(f, d)) == s
  {
    ButtonsAreNotAnalog(s, f.frame, d, Bits(f.previous, d), Bits(f.current, d), Size(d));
    hide PlayAnalogs, ButtonEvents, CoreInput.InRange, AnalogFormed;
  }

  /** What the first n axes of a gamepad are after its events. */
  ghost predicate AxesPlayed(s: Analog, s': Analog, f: Snapshot, pad: nat, n: nat)
    requires AnalogFormed(s) && AnalogFormed(s') && Complete(f) && pad < MAX_GAMEPADS
  {
    && s' == s.(axes := s'.axes) && (forall i :: 0 <= i < MAX_GAMEPADS && i != pad ==> s'.axes[i] == s.axes[i])
    && forall j :: 0 <= j < MAX_GAMEPAD_AXIS ==>
         s'.axes[pad][j] == if j < n && Movement(f.ready[pad], j, f.axes[pad][j]) != AtRest(j)
                            then Truncated(f.axes[pad][j] * 32768.0) as real / 32768.0 else s.axes[pad][j]
  }

  lemma {:induction false} PlayAxes(s: Analog, f: Snapshot, pad: nat, n: nat)
    requires AnalogFormed(s) && Complete(f) && pad < MAX_GAMEPADS && n <= MAX_GAMEPAD_AXIS
    ensures AllInRange(AxisEvents(f, pad, n)) && AxesPlayed(s, PlayAnalogs(s, AxisEvents(f, pad, n)), f, pad, n)
    decreases n
  {
    if n == 0 {
      NoAxisPlayed(s, f, pad);
    } else {
      assert n - 1 < MAX_GAMEPAD_AXIS;
      NextAxis(f, pad, n - 1);
      hide *;
      PlayAxes(s, f, pad, n - 1);
      var s0 := PlayAnalogs(s, AxisEvents(f, pad, n - 1));
      AxisPlayed(s0, f, pad, n - 1);
      AnalogsBoth(s, AxisEvents(f, pad, n - 1), AxisEvent(f, pad, n - 1));
      NextAxisPlayed(s, s0, PlayAnalogs(s0, AxisEvent(f, pad, n - 1)), f, pad, n - 1);
    }
  }

  lemma NextAxis(f: Snapshot, pad: nat, axis: nat)
    requires Complete(f) && pad < MAX_GAMEPADS && axis < MAX_GAMEPAD_AXIS
    ensures AxisEvents(f, pad, axis + 1) == AxisEvents(f, pad, axis) + AxisEvent(f, pad, axis)
  {
    hide AxisEvents, AxisEvent, Complete;
    var optional := AxisEvent(f, pad, axis);
  }

  lemma NoAxisPlayed(s: Analog, f: Snapshot, pad: nat)
    requires AnalogFormed(s) && Complete(f) && pad < MAX_GAMEPADS
    ensures AllInRange(AxisEvents(f, pad, 0)) && AxesPlayed(s, PlayAnalogs(s, AxisEvents(f, pad, 0)), f, pad, 0)
  {
    hide Movement, AtRest, Truncated;
  }

  lemma AxisPlayed(s: Analog, f: Snapshot, pad: nat, axis: nat)
    requires AnalogFormed(s) && Complete(f) && pad < MAX_GAMEPADS && axis < MAX_GAMEPAD_AXIS
    ensures AllInRange(AxisEvent(f, pad, axis))
    ensures PlayAnalogs(s, AxisEvent(f, pad, axis))
            == if Movement(f.ready[pad], axis, f.axes[pad][axis]) == AtRest(axis) then s
               else var value := Truncated(f.axes[pad][axis] * 32768.0) as real / 32768.0;
                    s.(axes := s.axes[pad := s.axes[pad][axis := value]])
  {
    hide Movement, AtRest, Truncated, AxisEvents;
  }

  lemma NextAxisPlayed(s: Analog, s0: Analog, s1: Analog, f: Snapshot, pad: nat, axis: nat)
    requires AnalogFormed(s) && AnalogFormed(s0) && AnalogFormed(s1) && Complete(f)
    requires pad < MAX_GAMEPADS && axis < MAX_GAMEPAD_AXIS && AxesPlayed(s, s0, f, pad, axis)
    requires s1 == if Movement(f.ready[pad], axis, f.axes[pad][axis]) == AtRest(axis) then s0
                   else var value := Truncated(f.axes[pad][axis] * 32768.0) as real / 32768.0;
                        s0.(axes := s0.axes[pad := s0.axes[pad][axis := value]])
    ensures AxesPlayed(s, s1, f, pad, axis + 1)
  {
    hide Movement, AtRest, Truncated;
  }

  /** What the first n gamepads' axes are after their events. */
  ghost predicate PadsPlayed(s: Analog, s': Analog, f: Snapshot, n: nat)
    requires AnalogFormed(s) && AnalogFormed(s') && Complete(f)
  {
    && s' == s.(axes := s'.axes)
    && forall i, j :: 0 <= i < MAX_GAMEPADS && 0 <= j < MAX_GAMEPAD_AXIS ==>
         s'.axes[i][j] == if i < n && Movement(f.ready[i], j, f.axes[i][j]) != AtRest(j)
                          then Truncated(f.axes[i][j] * 32768.0) as real / 32768.0 else s.axes[i][j]
  }

  lemma NextPadPlayed(s: Analog, s0: Analog, s1: Analog, f: Snapshot, n: nat)
    requires AnalogFormed(s) && AnalogFormed(s0) && AnalogFormed(s1) && Complete(f) && n < MAX_GAMEPADS
    requires PadsPlayed(s, s0, f, n) && AxesPlayed(s0, s1, f, n, MAX_GAMEPAD_AXIS)
    ensures PadsPlayed(s, s1, f, n + 1)
  {
    hide Movement, AtRest, Truncated;
  }

  lemma NoPadPlayed(s: Analog, f: Snapshot)
    requires AnalogFormed(s) && Complete(f)
    ensures AllInRange(PadEvents(f, 0)) && PadsPlayed(s, PlayAnalogs(s, PadEvents(f, 0)), f, 0)
  {
    hide Movement, AtRest, Truncated;
  }

  lemma {:induction false} PlayPadsAnalog(s: Analog, f: Snapshot, n: nat)
    requires AnalogFormed(s) && Complete(f) && n <= MAX_GAMEPADS
    ensures AllInRange(PadEvents(f, n)) && PadsPlayed(s, PlayAnalogs(s, PadEvents(f, n)), f, n)
    decreases n
  {
    if n == 0 {
      NoPadPlayed(s, f);
    } else {
      var pad := n - 1;
      assert IsDevice(Pad(pad)) && pad < MAX_GAMEPADS && MAX_GAMEPAD_AXIS <= MAX_GAMEPAD_AXIS;
      assert PadEvents(f, n) == PadEvents(f, pad) + DeviceEvents(f, Pad(pad)) + AxisEvents(f, pad, MAX_GAMEPAD_AXIS);
      hide *;
      PlayPadsAnalog(s, f, pad);
      var s0 := PlayAnalogs(s, PadEvents(f, pad));
      DeviceIsNotAnalog(s0, f, Pad(pad));
      PlayAxes(s0, f, pad, MAX_GAMEPAD_AXIS);
      AnalogsBoth(s, PadEvents(f, pad), DeviceEvents(f, Pad(pad)));
      AnalogsBoth(s, PadEvents(f, pad) + DeviceEvents(f, Pad(pad)), AxisEvents(f, pad, MAX_GAMEPAD_AXIS));
      NextPadPlayed(s, s0, PlayAnalogs(s0, AxisEvents(f, pad, MAX_GAMEPAD_AXIS)), f, pad);
    }
  }

  lemma PlaySingles(s: Analog, f: Snapshot)
    requires AnalogFormed(s)
    ensures AllInRange(PositionEvents(f)) && AllInRange(WheelEvents(f)) && AllInRange(GestureEvents(f))
    ensures PlayAnalogs(s, PositionEvents(f))
            == s.(mouse := if Moved(f.mouse, f.mouse0)
                           then Point(Truncated(f.mouse.x) as real, Truncated(f.mouse.y) as real) else s.mouse)
    ensures PlayAnalogs(s, WheelEvents(f))
            == s.(wheel := if Moved(f.wheel, f.wheel0)
                           then Point(Truncated(f.wheel.x) as real, Truncated(f.wheel.y) as real) else s.wheel)
    ensures PlayAnalogs(s, GestureEvents(f)) == s.(gesture := if f.gesture != 0 then f.gesture else s.gesture)
  {
    hide Truncated, Moved;
    PositionInRange(f);
    WheelInRange(f);
    GestureInRange(f);
  }

  /** The frame's events in their order, as far as they are not buttons. */
  lemma PlayFrameAnalog(s: Analog, f: Snapshot)
    requires AnalogFormed(s) && Complete(f)
    ensures AllInRange(FrameEvents(f))
    ensures var s' := PlayAnalogs(s, FrameEvents(f));
            && s'.mouse == (if Moved(f.mouse, f.mouse0)
                            then Point(Truncated(f.mouse.x) as real, Truncated(f.mouse.y) as real) else s.mouse)
            && s'.wheel == (if Moved(f.wheel, f.wheel0)
                            then Point(Truncated(f.wheel.x) as real, Truncated(f.wheel.y) as real) else s.wheel)
            && s'.gesture == (if f.gesture != 0 then f.gesture else s.gesture) && s'.ready == s.ready
            && PadsPlayed(s, s.(axes := s'.axes), f, MAX_GAMEPADS)
  {
    var a := DeviceEvents(f, Keyboard);
    var b := a + DeviceEvents(f, MouseButtons);
    var c := b + PositionEvents(f);
    var d := c + WheelEvents(f);
    var e := d + DeviceEvents(f, TouchPoints);
    var g := e + PadEvents(f, MAX_GAMEPADS);
    assert FrameEvents(f) == g + GestureEvents(f);
    assert IsDevice(Keyboard) && IsDevice(MouseButtons) && IsDevice(TouchPoints) && MAX_GAMEPADS <= MAX_GAMEPADS;
    hide *;
    DeviceIsNotAnalog(s, f, Keyboard);
    DeviceIsNotAnalog(s, f, MouseButtons);
    AnalogsBoth(s, a, DeviceEvents(f, MouseButtons));
    PlaySingles(s, f);
    AnalogsBoth(s, b, PositionEvents(f));
    var moved := PlayAnalogs(s, PositionEvents(f));
    PlaySingles(moved, f);
    AnalogsBoth(s, c, WheelEvents(f));
    var wheeled := PlayAnalogs(moved, WheelEvents(f));
    DeviceIsNotAnalog(wheeled, f, TouchPoints);
    AnalogsBoth(s, d, DeviceEvents(f, TouchPoints));
    PlayPadsAnalog(wheeled, f, MAX_GAMEPADS);
    AnalogsBoth(s, e, PadEvents(f, MAX_GAMEPADS));
    var pads := PlayAnalogs(wheeled, PadEvents(f, MAX_GAMEPADS));
    PlaySingles(pads, f);
    AnalogsBoth(s, g, GestureEvents(f));
    SameAxes(s, wheeled, pads, f);
  }

  lemma SameAxes(s: Analog, wheeled: Analog, pads: Analog, f: Snapshot)
    requires AnalogFormed(s) && AnalogFormed(wheeled) && AnalogFormed(pads) && Complete(f)
    requires wheeled.axes == s.axes && PadsPlayed(wheeled, pads, f, MAX_GAMEPADS)
    ensures pads == wheeled.(axes := pads.axes) && AnalogFormed(s.(axes := pads.axes))
    ensures PadsPlayed(s, s.(axes := pads.axes), f, MAX_GAMEPADS)
  {
    hide Movement, AtRest, Truncated;
  }

  // ---- The mouse over a run ----

  /** A point with its fractions cut off. */
  function Whole(p: Point): Point {
    Point(Truncated(p.x) as real, Truncated(p.y) as real)
  }

  /** Each frame's previous position is the last frame's position, and at first where the replay starts. */
  predicate MouseFollows(start: Point, frames: seq<Snapshot>) {
    && (frames != [] ==> Whole(frames[0].mouse0) == start)
    && forall k :: 0 < k < |frames| ==> frames[k].mouse0 == frames[k - 1].mouse
  }

  /** The mouse and the wheel after k frames. */
  predicate MouseAfter(start: Point, frames: seq<Snapshot>, k: nat, mouse: Point, wheel: Point)
    requires k <= |frames|
  {
    && (MouseFollows(start, frames) ==> mouse == if k == 0 then start else Whole(frames[k - 1].mouse))
    && (k > 0 ==> wheel == if Moved(frames[k - 1].wheel, frames[k - 1].wheel0)
                           then Whole(frames[k - 1].wheel) else Point(0.0, 0.0))
  }

  lemma NextMouse(start: Point, frames: seq<Snapshot>, k: nat, mouse: Point, wheel: Point, mouse': Point, wheel': Point)
    requires k < |frames| && MouseAfter(start, frames, k, mouse, wheel)
    requires mouse' == if Moved(frames[k].mouse, frames[k].mouse0) then Whole(frames[k].mouse) else mouse
    requires wheel' == if Moved(frames[k].wheel, frames[k].wheel0) then Whole(frames[k].wheel) else Point(0.0, 0.0)
    ensures MouseAfter(start, frames, k + 1, mouse', wheel')
  {
    hide Truncated;
  }

  lemma MouseAtLast(start: Point, frames: seq<Snapshot>, k: nat, mouse: Point, wheel: Point)
    requires 0 < k <= |frames| && MouseAfter(start, frames, k, mouse, wheel)
    ensures var f := frames[k - 1];
            && (MouseFollows(start, frames) ==>
                  mouse == Point(Truncated(f.mouse.x) as real, Truncated(f.mouse.y) as real))
            && wheel
               == if Truncated(f.wheel.x) != Truncated(f.wheel0.x) || Truncated(f.wheel.y) != Truncated(f.wheel0.y)
                  then Point(Truncated(f.wheel.x) as real, Truncated(f.wheel.y) as real) else Point(0.0, 0.0)
  {
    hide Truncated, MouseFollows;
  }

  /** What the replayed wheel shows, by the recorded one: the same movement twice running is lost. */
  lemma WheelExactly(s: Analog, f: Snapshot)
    requires AnalogFormed(s) && Complete(f) && s.wheel == Point(0.0, 0.0)
    ensures AllInRange(FrameEvents(f))
    ensures PlayAnalogs(s, FrameEvents(f)).wheel == Point(Truncated(f.wheel.x) as real, Truncated(f.wheel.y) as real)
            <==> || Truncated(f.wheel.x) != Truncated(f.wheel0.x) || Truncated(f.wheel.y) != Truncated(f.wheel0.y)
                 || (Truncated(f.wheel.x) == 0 && Truncated(f.wheel.y) == 0)
  {
    hide Truncated, PlayAnalogs, FrameEvents, AnalogFormed, Complete;
    FrameMovesMouse(s, f);
  }

  lemma FrameMovesMouse(s: Analog, f: Snapshot)
    requires AnalogFormed(s) && Complete(f)
    ensures AllInRange(FrameEvents(f))
    ensures var s' := PlayAnalogs(s, FrameEvents(f));
            && s'.mouse == (if Moved(f.mouse, f.mouse0) then Whole(f.mouse) else s.mouse)
            && s'.wheel == (if Moved(f.wheel, f.wheel0) then Whole(f.wheel) else s.wheel)
  {
    assert Whole(f.mouse) == Point(Truncated(f.mouse.x) as real, Truncated(f.mouse.y) as real);
    assert Whole(f.wheel) == Point(Truncated(f.wheel.x) as real, Truncated(f.wheel.y) as real);
    hide *;
    PlayFrameAnalog(s, f);
  }

  /** The input state that the player writes. */
  class CoreInput {
    var currentKeyState: seq<bool>
    var previousKeyState: seq<bool>
    var keyPressedQueue: seq<int>
    var currentButtonState: seq<bool>
    var currentTouchState: seq<bool>
    var gamepadButtonState: seq<seq<bool>>
    var mousePosition: Point
    var wheelMove: Point
    var axisState: seq<seq<real>>
    var ready: seq<bool>
    var gesture: int
    /** How many touch points the gesture system has seen last. */
    var gesturePoints: nat
    var automationEventRecording: bool

    ghost predicate Valid()
      reads this
    {
      && WellFormed(View()) && |axisState| == |ready| == MAX_GAMEPADS
      && forall i :: 0 <= i < MAX_GAMEPADS ==> |axisState[i]| == MAX_GAMEPAD_AXIS
    }

    ghost function View(): State
      reads this
    {
      State(currentKeyState, currentButtonState, currentTouchState, gamepadButtonState, previousKeyState,
            keyPressedQueue)
    }

    ghost function Analogs(): Analog
      reads this
    {
      Analog(mousePosition, wheelMove, axisState, ready, gesture)
    }

    constructor ()
      ensures Valid() && !automationEventRecording
      ensures View() == State(seq(MAX_KEYBOARD_KEYS, _ => false), seq(MAX_MOUSE_BUTTONS, _ => false),
                              seq(MAX_TOUCH_POINTS, _ => false),
                              seq(MAX_GAMEPADS, _ => seq(MAX_GAMEPAD_BUTTONS, _ => false)),
                              seq(MAX_KEYBOARD_KEYS, _ => false), [])
    {
      currentKeyState, previousKeyState := seq(MAX_KEYBOARD_KEYS, _ => false), seq(MAX_KEYBOARD_KEYS, _ => false);
      keyPressedQueue := [];
      currentButtonState, currentTouchState := seq(MAX_MOUSE_BUTTONS, _ => false), seq(MAX_TOUCH_POINTS, _ => false);
      gamepadButtonState := seq(MAX_GAMEPADS, _ => seq(MAX_GAMEPAD_BUTTONS, _ => false));
      mousePosition, wheelMove := Point(0.0, 0.0), Point(0.0, 0.0);
      axisState := seq(MAX_GAMEPADS, _ => seq(MAX_GAMEPAD_AXIS, _ => 0.0));
      ready := seq(MAX_GAMEPADS, _ => false);
      gesture, gesturePoints, automationEventRecording := GESTURE_NONE, 0, false;
    }

    /** The indices of the events whose state is not buttons. */
    static predicate InRange(e: Event) {
      && Playable(e)
      && (e.kind == INPUT_GAMEPAD_CONNECT || e.kind == INPUT_GAMEPAD_DISCONNECT ==> 0 <= e.p0 < MAX_GAMEPADS)
      && (e.kind == INPUT_GAMEPAD_AXIS_MOTION ==> 0 <= e.p0 < MAX_GAMEPADS && 0 <= e.p1 < MAX_GAMEPAD_AXIS)
    }

    /** Nothing is played while recording. */
    method PlayAutomationEvent(event: Event)
      requires Valid() && InRange(event)
      modifies this
      ensures Valid() && automationEventRecording == old(automationEventRecording)
      ensures View() == if automationEventRecording then old(View()) else Play(old(View()), event)
      ensures currentKeyState == if automationEventRecording then old(currentKeyState)
                                 else if event.kind == 1 then old(currentKeyState)[event.p0 := false]
                                 else if event.kind == 2 then old(currentKeyState)[event.p0 := true]
                                 else old(currentKeyState)
      ensures keyPressedQueue == if !automationEventRecording && event.kind == 2 && !previousKeyState[event.p0]
                                    && |old(keyPressedQueue)| < 16
                                 then old(keyPressedQueue) + [event.p0] else old(keyPressedQueue)
      ensures previousKeyState == old(previousKeyState)
      ensures currentButtonState == if automationEventRecording then old(currentButtonState)
                                    else if event.kind == 5 then old(currentButtonState)[event.p0 := false]
                                    else if event.kind == 6 then old(currentButtonState)[event.p0 := true]
                                    else old(currentButtonState)
      ensures currentTouchState == if automationEventRecording then old(currentTouchState)
                                   else if event.kind == 14 then old(currentTouchState)[event.p0 := false]
                                   else if event.kind == 15 then old(currentTouchState)[event.p0 := true]
                                   else old(currentTouchState)
      ensures gamepadButtonState
              == if automationEventRecording || (event.kind != 11 && event.kind != 12) then old(gamepadButtonState)
                 else old(gamepadButtonState)
                      [event.p0 := old(gamepadButtonState[event.p0])[event.p1 := event.kind == 12]]
      ensures mousePosition == if !automationEventRecording && event.kind == 7
                               then Point(event.p0 as real, event.p1 as real) else old(mousePosition)
      ensures wheelMove == if !automationEventRecording && event.kind == 8
                           then Point(event.p0 as real, event.p1 as real) else old(wheelMove)
      ensures gesture == if !automationEventRecording && event.kind == 17 then event.p0 else old(gesture)
      ensures ready == if !automationEventRecording && event.kind == 9
                       then old(ready)[event.p0 := true]
                       else if !automationEventRecording && event.kind == 10
                       then old(ready)[event.p0 := false] else old(ready)
      ensures axisState == if !automationEventRecording && event.kind == 13
                           then var axes := old(axisState[event.p0])[event.p1 := event.p2 as real / 32768.0];
                                old(axisState)[event.p0 := axes]
                           else old(axisState)
    {
      if automationEventRecording { return; }
      if event.kind == INPUT_KEY_UP {
        currentKeyState := currentKeyState[event.p0 := false];
      } else if event.kind == INPUT_KEY_DOWN {
        currentKeyState := currentKeyState[event.p0 := true];
        if !previousKeyState[event.p0] && |keyPressedQueue| < MAX_KEY_PRESSED_QUEUE {
          keyPressedQueue := keyPressedQueue + [event.p0];
        }
      } else if event.kind == INPUT_MOUSE_BUTTON_UP {
        currentButtonState := currentButtonState[event.p0 := false];
      } else if event.kind == INPUT_MOUSE_BUTTON_DOWN {
        currentButtonState := currentButtonState[event.p0 := true];
      } else if event.kind == INPUT_MOUSE_POSITION {
        mousePosition := Point(event.p0 as real, event.p1 as real);
      } else if event.kind == INPUT_MOUSE_WHEEL_MOTION {
        wheelMove := Point(event.p0 as real, event.p1 as real);
      } else if event.kind == INPUT_TOUCH_UP {
        currentTouchState := currentTouchState[event.p0 := false];
      } else if event.kind == INPUT_TOUCH_DOWN {
        currentTouchState := currentTouchState[event.p0 := true];
      } else if event.kind == INPUT_GAMEPAD_CONNECT {
        ready := ready[event.p0 := true];
      } else if event.kind == INPUT_GAMEPAD_DISCONNECT {
        ready := ready[event.p0 := false];
      } else if event.kind == INPUT_GAMEPAD_BUTTON_UP {
        gamepadButtonState := gamepadButtonState[event.p0 := gamepadButtonState[event.p0][event.p1 := false]];
      } else if event.kind == INPUT_GAMEPAD_BUTTON_DOWN {
        gamepadButtonState := gamepadButtonState[event.p0 := gamepadButtonState[event.p0][event.p1 := true]];
      } else if event.kind == INPUT_GAMEPAD_AXIS_MOTION {
        axisState := axisState[event.p0 := axisState[event.p0][event.p1 := event.p2 as real / 32768.0]];
      } else if event.kind == INPUT_GESTURE {
        gesture := event.p0;
      }
    }

    /** A tap that lasts into another frame becomes a hold, and a swipe lasts one frame. */
    method UpdateGestures()
      modifies this`gesture
      ensures gesture == NextGesture(old(gesture), gesturePoints)
      ensures gesture == if (old(gesture) == 1 || old(gesture) == 2) && gesturePoints < 2 then 4
                         else if old(gesture) in {16, 32, 64, 128} then 0 else old(gesture)
    {
      if (gesture == GESTURE_TAP || gesture == GESTURE_DOUBLETAP) && gesturePoints < 2 {
        gesture := GESTURE_HOLD;
      }
      if gesture == GESTURE_SWIPE_RIGHT || gesture == GESTURE_SWIPE_UP || gesture == GESTURE_SWIPE_LEFT
         || gesture == GESTURE_SWIPE_DOWN {
        gesture := GESTURE_NONE;
      }
    }

    /** The start of a frame: PollInputEvents with no live input and no gamepad present. */
    method PollInputEvents()
      requires Valid()
      modifies this`gesture, this`previousKeyState, this`keyPressedQueue, this`wheelMove, this`ready
      ensures Valid() && View() == Poll(old(View()))
      ensures keyPressedQueue == [] && previousKeyState == currentKeyState
      ensures gesture == NextGesture(old(gesture), gesturePoints)
      ensures wheelMove == Point(0.0, 0.0) && ready == seq(MAX_GAMEPADS, _ => false)
    {
      UpdateGestures();
      keyPressedQueue := [];
      previousKeyState := currentKeyState;
      wheelMove := Point(0.0, 0.0);
      ready := seq(MAX_GAMEPADS, _ => false);
    }

    lemma ValidView()
      requires Valid()
      ensures WellFormed(View()) && AnalogFormed(Analogs())
      ensures View() == State(currentKeyState, currentButtonState, currentTouchState, gamepadButtonState,
                              previousKeyState, keyPressedQueue)
      ensures Analogs() == Analog(mousePosition, wheelMove, axisState, ready, gesture)
    {
    }

    /** Plays the events that a log holds for one frame number, in their order. */
    method PlayFrameOf(log: seq<Event>, frame: int)
      requires Valid() && !automationEventRecording && AllInRange(EventsOfFrame(log, frame))
      modifies this
      ensures Valid() && !automationEventRecording
      ensures AllPlayable(EventsOfFrame(log, frame)) && View() == PlayAll(old(View()), EventsOfFrame(log, frame))
      ensures AnalogFormed(old(Analogs())) && Analogs() == PlayAnalogs(old(Analogs()), EventsOfFrame(log, frame))
    {
      hide *;
      ghost var start, others := View(), Analogs();
      ValidView();
      ChosenAtStart(start, log, frame);
      AnalogsAtStart(others, log, frame);
      for i := 0 to |log|
        invariant Valid() && !automationEventRecording && Played(start, View(), log, frame, i)
        invariant AnalogsPlayed(others, Analogs(), log, frame, i)
      {
        NextOfFrame(start, View(), log, frame, i);
        NextAnalogs(others, Analogs(), log, frame, i);
        if log[i].frame == frame { PlayBoth(log[i]); }
      }
      ChosenAtEnd(start, View(), log, frame);
      AnalogsAtEnd(others, Analogs(), log, frame);
    }

    method PlayBoth(event: Event)
      requires Valid() && InRange(event) && !automationEventRecording
      modifies this
      ensures Valid() && !automationEventRecording && View() == Play(old(View()), event)
      ensures AnalogFormed(old(Analogs())) && Analogs() == PlayAnalog(old(Analogs()), event)
    {
      hide Play, WellFormed;
      PlayAutomationEvent(event);
    }

    /** Polls nothing and plays the log of a frame: positions come back as whole numbers, and only if
        they have changed; a gesture if there was one; and the axes that are off their rest, in steps of
        1/32768. Every button that is down now or was held through is down. */
    method ReplayFrame(log: seq<Event>, ghost f: Snapshot, frame: int)
      requires Valid() && !automationEventRecording && Complete(f) && EventsOfFrame(log, frame) == FrameEvents(f)
      modifies this
      ensures Valid() && !automationEventRecording
      ensures mousePosition
              == if Truncated(f.mouse.x) != Truncated(f.mouse0.x) || Truncated(f.mouse.y) != Truncated(f.mouse0.y)
                 then Point(Truncated(f.mouse.x) as real, Truncated(f.mouse.y) as real) else old(mousePosition)
      ensures wheelMove
              == if Truncated(f.wheel.x) != Truncated(f.wheel0.x) || Truncated(f.wheel.y) != Truncated(f.wheel0.y)
                 then Point(Truncated(f.wheel.x) as real, Truncated(f.wheel.y) as real) else old(wheelMove)
      ensures gesture == if f.gesture != 0 then f.gesture else old(gesture)
      ensures ready == old(ready)
      ensures forall pad, axis :: 0 <= pad < 4 && 0 <= axis < 8 ==>
                var value := f.axes[pad][axis];
                axisState[pad][axis]
                == if f.ready[pad] && (if axis == 4 || axis == 5 then value > -1.0 else value != 0.0)
                   then Truncated(value * 32768.0) as real / 32768.0 else old(axisState[pad][axis])
      ensures forall k :: 0 <= k < 512 ==>
                currentKeyState[k] == (f.current.keys[k] || (old(currentKeyState[k]) && !f.previous.keys[k]))
      ensures forall k :: 0 <= k < 8 ==>
                && currentButtonState[k]
                   == (f.current.buttons[k] || (old(currentButtonState[k]) && !f.previous.buttons[k]))
                && currentTouchState[k] == (f.current.touch[k] || (old(currentTouchState[k]) && !f.previous.touch[k]))
      ensures forall pad, k :: 0 <= pad < 4 && 0 <= k < 32 ==>
                gamepadButtonState[pad][k]
                == (f.current.pads[pad][k] || (old(gamepadButtonState[pad][k]) && !f.previous.pads[pad][k]))
    {
      hide *;
      ghost var start, others := View(), Analogs();
      ValidView();
      EventsInRange(f);
      PlayFrame(start, f);
      PlayFrameOf(log, frame);
      PlayFrameAnalog(others, f);
      ValidView();
      MergedButtons(start, View(), f);
      MovedAnalogs(others, Analogs(), f);
    }

    /** Replays a log: for each frame number a poll, and then what the log holds for that number. If
        that is what was recorded for the first frames of a run, the run is replayed up to there. */
    method ReplayRun(log: seq<Event>, numbers: seq<int>, ghost frames: seq<Snapshot>)
      requires Valid() && !automationEventRecording && Run(View(), frames) && |numbers| <= |frames|
      requires forall k :: 0 <= k < |numbers| ==> EventsOfFrame(log, numbers[k]) == FrameEvents(frames[k])
      modifies this
      ensures Valid() && View() == Replay(old(View()), frames, |numbers|)
      ensures 0 < |numbers| ==>
                var f := frames[|numbers| - 1];
                && (MouseFollows(old(mousePosition), frames) ==>
                      mousePosition == Point(Truncated(f.mouse.x) as real, Truncated(f.mouse.y) as real))
                && wheelMove
                   == if Truncated(f.wheel.x) != Truncated(f.wheel0.x) || Truncated(f.wheel.y) != Truncated(f.wheel0.y)
                      then Point(Truncated(f.wheel.x) as real, Truncated(f.wheel.y) as real) else Point(0.0, 0.0)
    {
      ghost var start, from := View(), mousePosition;
      hide Play, PlayAll, FrameEvents, WellFormed, Complete, EventsOfFrame, Truncated, Moved, MouseFollows, Whole,
           PlayAnalogs;
      for k := 0 to |numbers|
        invariant Valid() && !automationEventRecording && View() == Replay(start, frames, k)
        invariant MouseAfter(from, frames, k, mousePosition, wheelMove)
      {
        ReplayStep(log, numbers[k], frames, k, start, from);
      }
      if 0 < |numbers| { MouseAtLast(from, frames, |numbers|, mousePosition, wheelMove); }
    }

    method ReplayStep(log: seq<Event>, frame: int, ghost frames: seq<Snapshot>, ghost k: nat, ghost start: State,
                      ghost from: Point)
      requires Valid() && !automationEventRecording && Run(start, frames) && k < |frames|
      requires View() == Replay(start, frames, k) && MouseAfter(from, frames, k, mousePosition, wheelMove)
      requires EventsOfFrame(log, frame) == FrameEvents(frames[k])
      modifies this
      ensures Valid() && !automationEventRecording && View() == Replay(start, frames, k + 1)
      ensures MouseAfter(from, frames, k + 1, mousePosition, wheelMove)
    {
      ghost var mouse, wheel, f := mousePosition, wheelMove, frames[k];
      assert Complete(f);
      NextReplayed(start, frames, k);
      hide *;
      PollInputEvents();
      ghost var others := Analogs();
      ValidView();
      EventsInRange(f);
      PlayFrameOf(log, frame);
      FrameMovesMouse(others, f);
      ValidView();
      NextMouse(from, frames, k, mouse, wheel, mousePosition, wheelMove);
    }
  }

  lemma NextReplayed(start: State, frames: seq<Snapshot>, k: nat)
    requires Run(start, frames) && k < |frames|
    ensures Complete(frames[k]) && AllPlayable(FrameEvents(frames[k]))
    ensures Replay(start, frames, k + 1) == PlayAll(Poll(Replay(start, frames, k)), FrameEvents(frames[k]))
  {
    hide Play, PlayAll, FrameEvents, WellFormed, Complete, Poll;
    PlayFrame(Poll(Replay(start, frames, k)), frames[k]);
  }

  /** The events of a log with one frame number. */
  function EventsOfFrame(log: seq<Event>, frame: int): seq<Event> {
    if log == [] then []
    else
      var last := log[|log| - 1];
      EventsOfFrame(log[..|log| - 1], frame) + if last.frame == frame then [last] else []
  }

  lemma {:induction false} ChosenAmong(log: seq<Event>, frame: int, i: nat)
    requires i <= |log|
    ensures EventsOfFrame(log[..i], frame) <= EventsOfFrame(log, frame)
    decreases |log|
  {
    if i < |log| {
      ChosenAmong(log[..|log| - 1], frame, i);
      assert log[..|log| - 1][..i] == log[..i];
    } else {
      assert log[..i] == log;
    }
  }

  /** A state after what the first i events hold for a frame number was played. */
  ghost predicate Played(start: State, now: State, log: seq<Event>, frame: int, i: nat)
    requires WellFormed(start)
  {
    i <= |log| && AllPlayable(EventsOfFrame(log[..i], frame)) && now == PlayAll(start, EventsOfFrame(log[..i], frame))
  }

  lemma ChosenAtStart(start: State, log: seq<Event>, frame: int)
    requires WellFormed(start)
    ensures Played(start, start, log, frame, 0)
  {
  }

  lemma ChosenAtEnd(start: State, now: State, log: seq<Event>, frame: int)
    requires WellFormed(start) && Played(start, now, log, frame, |log|)
    ensures AllPlayable(EventsOfFrame(log, frame)) && now == PlayAll(start, EventsOfFrame(log, frame))
  {
    assert log[..|log|] == log;
  }

  lemma NextOfFrame(start: State, now: State, log: seq<Event>, frame: int, i: nat)
    requires WellFormed(start) && i < |log| && AllInRange(EventsOfFrame(log, frame))
             && Played(start, now, log, frame, i)
    ensures log[i].frame != frame ==> Played(start, now, log, frame, i + 1)
    ensures log[i].frame == frame ==>
              CoreInput.InRange(log[i]) && WellFormed(now) && Playable(log[i])
                && Played(start, Play(now, log[i]), log, frame, i + 1)
  {
    assert log[..i + 1][..i] == log[..i];
    ChosenAmong(log, frame, i + 1);
    var before, chosen := EventsOfFrame(log[..i], frame), EventsOfFrame(log[..i + 1], frame);
    assert chosen == before + if log[i].frame == frame then [log[i]] else [];
    hide EventsOfFrame, Play, WellFormed;
    if log[i].frame == frame {
      assert chosen[|before|] == log[i] && chosen[..|before|] == before;
      assert CoreInput.InRange(EventsOfFrame(log, frame)[|before|]);
      hide CoreInput.InRange, Playable;
      InRangeIsPlayable(EventsOfFrame(log, frame));
    } else {
      assert chosen == before;
    }
  }

  /** The same for what is not buttons. */
  ghost predicate AnalogsPlayed(start: Analog, now: Analog, log: seq<Event>, frame: int, i: nat) {
    && AnalogFormed(start) && i <= |log| && AllInRange(EventsOfFrame(log[..i], frame))
    && now == PlayAnalogs(start, EventsOfFrame(log[..i], frame))
  }

  lemma AnalogsAtStart(start: Analog, log: seq<Event>, frame: int)
    requires AnalogFormed(start)
    ensures AnalogsPlayed(start, start, log, frame, 0)
  {
  }

  lemma AnalogsAtEnd(start: Analog, now: Analog, log: seq<Event>, frame: int)
    requires AnalogsPlayed(start, now, log, frame, |log|)
    ensures AnalogFormed(start) && AllInRange(EventsOfFrame(log, frame))
    ensures now == PlayAnalogs(start, EventsOfFrame(log, frame))
  {
    assert log[..|log|] == log;
    hide AnalogFormed, EventsOfFrame, PlayAnalogs, CoreInput.InRange;
  }

  lemma NextAnalogs(start: Analog, now: Analog, log: seq<Event>, frame: int, i: nat)
    requires i < |log| && AllInRange(EventsOfFrame(log, frame)) && AnalogsPlayed(start, now, log, frame, i)
    ensures log[i].frame != frame ==> AnalogsPlayed(start, now, log, frame, i + 1)
    ensures log[i].frame == frame ==>
              && AnalogFormed(now) && CoreInput.InRange(log[i])
              && AnalogsPlayed(start, PlayAnalog(now, log[i]), log, frame, i + 1)
  {
    assert log[..i + 1][..i] == log[..i];
    ChosenAmong(log, frame, i + 1);
    var before, chosen := EventsOfFrame(log[..i], frame), EventsOfFrame(log[..i + 1], frame);
    assert chosen == before + if log[i].frame == frame then [log[i]] else [];
    hide EventsOfFrame, PlayAnalog, AnalogFormed;
    if log[i].frame == frame {
      assert chosen[|before|] == log[i] && chosen[..|before|] == before;
      assert CoreInput.InRange(EventsOfFrame(log, frame)[|before|]);
      assert forall k :: 0 <= k < |chosen| ==> chosen[k] == EventsOfFrame(log, frame)[k];
      hide CoreInput.InRange;
    } else {
      assert chosen == before;
    }
  }

  /** An axis is as recorded, to 1/32768, exactly if it was off its rest or is there already: one that
      returns to its rest stays where it was. */
  lemma AxisExactly(s: Analog, f: Snapshot, pad: nat, axis: nat)
    requires AnalogFormed(s) && Complete(f) && pad < 4 && axis < 8
    ensures AllInRange(FrameEvents(f))
    ensures var value, replayed := f.axes[pad][axis], PlayAnalogs(s, FrameEvents(f)).axes[pad][axis];
            var off := f.ready[pad] && if axis == 4 || axis == 5 then value > -1.0 else value != 0.0;
            && (replayed == Truncated(value * 32768.0) as real / 32768.0
                <==> off || s.axes[pad][axis] == Truncated(value * 32768.0) as real / 32768.0)
            && (!off ==> replayed == s.axes[pad][axis])
  {
    PlayFrameAnalog(s, f);
    MovedAnalogs(s, PlayAnalogs(s, FrameEvents(f)), f);
    hide PlayAnalogs, FrameEvents, Truncated, PadsPlayed;
  }

  lemma MovedAnalogs(s: Analog, s': Analog, f: Snapshot)
    requires AnalogFormed(s) && AnalogFormed(s') && Complete(f) && PadsPlayed(s, s.(axes := s'.axes), f, MAX_GAMEPADS)
    ensures forall pad, axis :: 0 <= pad < 4 && 0 <= axis < 8 ==>
              var value := f.axes[pad][axis];
              s'.axes[pad][axis]
              == if f.ready[pad] && (if axis == 4 || axis == 5 then value > -1.0 else value != 0.0)
                 then Truncated(value * 32768.0) as real / 32768.0 else s.axes[pad][axis]
    ensures Moved(f.mouse, f.mouse0)
            <==> Truncated(f.mouse.x) != Truncated(f.mouse0.x) || Truncated(f.mouse.y) != Truncated(f.mouse0.y)
    ensures Moved(f.wheel, f.wheel0)
            <==> Truncated(f.wheel.x) != Truncated(f.wheel0.x) || Truncated(f.wheel.y) != Truncated(f.wheel0.y)
  {
    forall pad, axis | 0 <= pad < 4 && 0 <= axis < 8
      ensures var value := f.axes[pad][axis];
              s'.axes[pad][axis]
              == if f.ready[pad] && (if axis == 4 || axis == 5 then value > -1.0 else value != 0.0)
                 then Truncated(value * 32768.0) as real / 32768.0 else s.axes[pad][axis]
    {
      OffRest(f.ready[pad], axis, f.axes[pad][axis]);
      assert s'.axes[pad][axis] == s.(axes := s'.axes).axes[pad][axis];
      hide Truncated, Movement, AtRest;
    }
    hide Truncated, PadsPlayed;
  }

  lemma MergedButtons(s: State, s': State, f: Snapshot)
    requires WellFormed(s) && WellFormed(s') && Complete(f) && FrameMerged(s, s', f)
    ensures forall k :: 0 <= k < 512 ==> s'.keys[k] == (f.current.keys[k] || (s.keys[k] && !f.previous.keys[k]))
    ensures forall k :: 0 <= k < 8 ==>
              && s'.buttons[k] == (f.current.buttons[k] || (s.buttons[k] && !f.previous.buttons[k]))
              && s'.touch[k] == (f.current.touch[k] || (s.touch[k] && !f.previous.touch[k]))
    ensures forall pad, k :: 0 <= pad < 4 && 0 <= k < 32 ==>
              s'.pads[pad][k] == (f.current.pads[pad][k] || (s.pads[pad][k] && !f.previous.pads[pad][k]))
  {
    forall k | 0 <= k < 512 ensures s'.keys[k] == (f.current.keys[k] || (s.keys[k] && !f.previous.keys[k])) {
      MergedButton(s, s', f, Keyboard, k);
    }
    forall k | 0 <= k < 8
      ensures s'.buttons[k] == (f.current.buttons[k] || (s.buttons[k] && !f.previous.buttons[k]))
      ensures s'.touch[k] == (f.current.touch[k] || (s.touch[k] && !f.previous.touch[k]))
    {
      MergedButton(s, s', f, MouseButtons, k);
      MergedButton(s, s', f, TouchPoints, k);
    }
    forall pad, k | 0 <= pad < 4 && 0 <= k < 32
      ensures s'.pads[pad][k] == (f.current.pads[pad][k] || (s.pads[pad][k] && !f.previous.pads[pad][k]))
    {
      MergedButton(s, s', f, Pad(pad), k);
    }
    hide FrameMerged;
  }

  lemma MergedButton(s: State, s': State, f: Snapshot, d: Device, k: nat)
    requires WellFormed(s) && WellFormed(s') && Complete(f) && FrameMerged(s, s', f) && IsDevice(d) && k < Size(d)
    ensures Bits(s', d)[k] == (Bits(f.current, d)[k] || (Bits(s, d)[k] && !Bits(f.previous, d)[k]))
  {
    assert DeviceMerged(s, s', f, d);
    hide Bits, WellFormed;
  }

  lemma InRangeIsPlayable(events: seq<Event>)
    requires AllInRange(events)
    ensures AllPlayable(events)
  {
  }

  predicate AllInRange(events: seq<Event>) {
    forall i :: 0 <= i < |events| ==> CoreInput.InRange(events[i])
  }

  lemma {:induction false} ButtonsInRange(frame: int, d: Device, previous: seq<bool>, current: seq<bool>, n: nat)
    requires IsDevice(d) && n <= |previous| == |current| == Size(d)
    ensures AllInRange(ButtonEvents(frame, d, previous, current, n))
    decreases n
  {
    if n > 0 {
      ButtonsInRange(frame, d, previous, current, n - 1);
    }
  }

  lemma {:induction false} AxesInRange(f: Snapshot, pad: nat, n: nat)
    requires Complete(f) && pad < MAX_GAMEPADS && n <= MAX_GAMEPAD_AXIS
    ensures AllInRange(AxisEvents(f, pad, n))
    decreases n
  {
    if n > 0 {
      AxesInRange(f, pad, n - 1);
    }
  }

  lemma {:induction false} PadsInRange(f: Snapshot, n: nat)
    requires Complete(f) && n <= MAX_GAMEPADS
    ensures AllInRange(PadEvents(f, n))
    decreases n
  {
    if n > 0 {
      PadsInRange(f, n - 1);
      ButtonsInRange(f.frame, Pad(n - 1), Bits(f.previous, Pad(n - 1)), Bits(f.current, Pad(n - 1)),
                     MAX_GAMEPAD_BUTTONS);
      AxesInRange(f, n - 1, MAX_GAMEPAD_AXIS);
      hide CoreInput.InRange, ButtonEvents, AxisEvents;
    }
  }

  /** Whatever is recorded can be played. */
  lemma EventsInRange(f: Snapshot)
    requires Complete(f)
    ensures AllInRange(FrameEvents(f))
  {
    ButtonsInRange(f.frame, Keyboard, f.previous.keys, f.current.keys, MAX_KEYBOARD_KEYS);
    ButtonsInRange(f.frame, MouseButtons, f.previous.buttons, f.current.buttons, MAX_MOUSE_BUTTONS);
    ButtonsInRange(f.frame, TouchPoints, f.previous.touch, f.current.touch, MAX_TOUCH_POINTS);
    PadsInRange(f, MAX_GAMEPADS);
    PositionInRange(f);
    WheelInRange(f);
    GestureInRange(f);
    hide CoreInput.InRange, ButtonEvents, PadEvents, PositionEvents, WheelEvents, GestureEvents;
  }

  lemma PositionInRange(f: Snapshot)
    ensures AllInRange(PositionEvents(f))
  {
  }

  lemma WheelInRange(f: Snapshot)
    ensures AllInRange(WheelEvents(f))
  {
  }

  lemma GestureInRange(f: Snapshot)
    ensures AllInRange(GestureEvents(f))
  {
  }
}
