/** Automation events: what the recorder logs for a frame of input and what the player does with
    a log. */
module Automation {

  // ---- Events and input ----

  const INPUT_KEY_UP: nat := 1
  const INPUT_KEY_DOWN: nat := 2
  const INPUT_MOUSE_BUTTON_UP: nat := 5
  const INPUT_MOUSE_BUTTON_DOWN: nat := 6
  const INPUT_MOUSE_POSITION: nat := 7
  const INPUT_MOUSE_WHEEL_MOTION: nat := 8
  const INPUT_GAMEPAD_CONNECT: nat := 9
  const INPUT_GAMEPAD_DISCONNECT: nat := 10
  const INPUT_GAMEPAD_BUTTON_UP: nat := 11
  const INPUT_GAMEPAD_BUTTON_DOWN: nat := 12
  const INPUT_GAMEPAD_AXIS_MOTION: nat := 13
  const INPUT_TOUCH_UP: nat := 14
  const INPUT_TOUCH_DOWN: nat := 15
  const INPUT_GESTURE: nat := 17
  const EVENT_TYPES: nat := 24

  const MAX_KEYBOARD_KEYS: nat := 512
  const MAX_MOUSE_BUTTONS: nat := 8
  const MAX_TOUCH_POINTS: nat := 8
  const MAX_GAMEPADS: nat := 4
  const MAX_GAMEPAD_BUTTONS: nat := 32
  const MAX_GAMEPAD_AXIS: nat := 8
  const MAX_KEY_PRESSED_QUEUE: nat := 16

  datatype Event = Event(frame: int, kind: int, p0: int, p1: int, p2: int, p3: int)

  /** The devices whose state is an array of buttons held down or not. */
  datatype Device = Keyboard | MouseButtons | TouchPoints | Pad(pad: nat)

  predicate IsDevice(d: Device) {
    d.Pad? ==> d.pad < MAX_GAMEPADS
  }

  function Size(d: Device): nat {
    match d
    case Keyboard => MAX_KEYBOARD_KEYS
    case MouseButtons => MAX_MOUSE_BUTTONS
    case TouchPoints => MAX_TOUCH_POINTS
    case Pad(_) => MAX_GAMEPAD_BUTTONS
  }

  /** The event that a button of a device went up, or is down. */
  function ButtonEvent(frame: int, d: Device, button: nat, down: bool): Event {
    match d
    case Keyboard => Event(frame, if down then INPUT_KEY_DOWN else INPUT_KEY_UP, button, 0, 0, 0)
    case MouseButtons => Event(frame, if down then INPUT_MOUSE_BUTTON_DOWN else INPUT_MOUSE_BUTTON_UP, button, 0, 0, 0)
    case TouchPoints => Event(frame, if down then INPUT_TOUCH_DOWN else INPUT_TOUCH_UP, button, 0, 0, 0)
    case Pad(pad) =>
      Event(frame, if down then INPUT_GAMEPAD_BUTTON_DOWN else INPUT_GAMEPAD_BUTTON_UP, pad, button, 0, 0)
  }

  /** The state of all devices; the previous frame's keys decide what counts as newly pressed. */
  datatype State = State(keys: seq<bool>, buttons: seq<bool>, touch: seq<bool>, pads: seq<seq<bool>>,
                         previousKeys: seq<bool>, queue: seq<int>)

  predicate WellFormed(s: State) {
    && |s.keys| == |s.previousKeys| == MAX_KEYBOARD_KEYS && |s.buttons| == MAX_MOUSE_BUTTONS
    && |s.touch| == MAX_TOUCH_POINTS && |s.pads| == MAX_GAMEPADS
    && (forall i :: 0 <= i < MAX_GAMEPADS ==> |s.pads[i]| == MAX_GAMEPAD_BUTTONS)
    && |s.queue| <= MAX_KEY_PRESSED_QUEUE
  }

  function Bits(s: State, d: Device): (bits: seq<bool>)
    requires WellFormed(s) && IsDevice(d)
    ensures |bits| == Size(d)
  {
    match d
    case Keyboard => s.keys
    case MouseButtons => s.buttons
    case TouchPoints => s.touch
    case Pad(pad) => s.pads[pad]
  }

  // ---- Playing ----

  /** The events whose parameters index the arrays they are meant for. */
  predicate Playable(e: Event) {
    && (e.kind == INPUT_KEY_UP || e.kind == INPUT_KEY_DOWN ==> 0 <= e.p0 < MAX_KEYBOARD_KEYS)
    && (e.kind == INPUT_MOUSE_BUTTON_UP || e.kind == INPUT_MOUSE_BUTTON_DOWN ==> 0 <= e.p0 < MAX_MOUSE_BUTTONS)
    && (e.kind == INPUT_TOUCH_UP || e.kind == INPUT_TOUCH_DOWN ==> 0 <= e.p0 < MAX_TOUCH_POINTS)
    && (e.kind == INPUT_GAMEPAD_BUTTON_UP || e.kind == INPUT_GAMEPAD_BUTTON_DOWN ==>
          0 <= e.p0 < MAX_GAMEPADS && 0 <= e.p1 < MAX_GAMEPAD_BUTTONS)
  }

  /** What PlayAutomationEvent does to the devices' buttons and the queue of pressed keys. */
  function Play(s: State, e: Event): (s': State)
    requires WellFormed(s) && Playable(e)
    ensures WellFormed(s') && s'.previousKeys == s.previousKeys
  {
    if e.kind == INPUT_KEY_UP then s.(keys := s.keys[e.p0 := false])
    else if e.kind == INPUT_KEY_DOWN then
      s.(keys := s.keys[e.p0 := true],
         queue := if !s.previousKeys[e.p0] && |s.queue| < MAX_KEY_PRESSED_QUEUE then s.queue + [e.p0] else s.queue)
    else if e.kind == INPUT_MOUSE_BUTTON_UP then s.(buttons := s.buttons[e.p0 := false])
    else if e.kind == INPUT_MOUSE_BUTTON_DOWN then s.(buttons := s.buttons[e.p0 := true])
    else if e.kind == INPUT_TOUCH_UP then s.(touch := s.touch[e.p0 := false])
    else if e.kind == INPUT_TOUCH_DOWN then s.(touch := s.touch[e.p0 := true])
    else if e.kind == INPUT_GAMEPAD_BUTTON_UP then s.(pads := s.pads[e.p0 := s.pads[e.p0][e.p1 := false]])
    else if e.kind == INPUT_GAMEPAD_BUTTON_DOWN then s.(pads := s.pads[e.p0 := s.pads[e.p0][e.p1 := true]])
    else s
  }

  predicate AllPlayable(events: seq<Event>) {
    forall i :: 0 <= i < |events| ==> Playable(events[i])
  }

  function PlayAll(s: State, events: seq<Event>): (s': State)
    requires WellFormed(s) && AllPlayable(events)
    ensures WellFormed(s') && s'.previousKeys == s.previousKeys
    decreases |events|
  {
    if events == [] then s else Play(PlayAll(s, events[..|events| - 1]), events[|events| - 1])
  }

  lemma {:induction false} PlayBoth(s: State, a: seq<Event>, b: seq<Event>)
    requires WellFormed(s) && AllPlayable(a) && AllPlayable(b)
    ensures AllPlayable(a + b) && PlayAll(s, a + b) == PlayAll(PlayAll(s, a), b)
    decreases |b|
  {
    if b == [] {
      assert a + b == a;
    } else {
      PlayBoth(s, a, b[..|b| - 1]);
      assert (a + b)[..|a + b| - 1] == a + b[..|b| - 1];
    }
  }

  // ---- What is recorded for the buttons of one device ----

  /** The events for the first n buttons: a release is logged once, a button held down in every
      frame. */
  function ButtonEvents(frame: int, d: Device, previous: seq<bool>, current: seq<bool>, n: nat): (events: seq<Event>)
    requires n <= |previous| == |current|
  {
    if n == 0 then []
    else
      ButtonEvents(frame, d, previous, current, n - 1)
      + (if previous[n - 1] && !current[n - 1] then [ButtonEvent(frame, d, n - 1, false)] else [])
      + (if current[n - 1] then [ButtonEvent(frame, d, n - 1, true)] else [])
  }

  /** A button after its events were played. */
  predicate Merged(before: bool, previous: bool, current: bool) {
    current || (before && !previous)
  }

  function Take(events: seq<Event>, capacity: nat): seq<Event> {
    if |events| <= capacity then events else events[..capacity]
  }

  /** The queue of pressed keys takes no more than its fixed size. */
  function Queued(queue: seq<int>, pressed: seq<int>): seq<int> {
    if |queue + pressed| <= MAX_KEY_PRESSED_QUEUE then queue + pressed else (queue + pressed)[..MAX_KEY_PRESSED_QUEUE]
  }

  /** The keys that are down now and were not before, in ascending order. */
  function Pressed(previous: seq<bool>, current: seq<bool>, n: nat): seq<int>
    requires n <= |previous| == |current|
  {
    if n == 0 then [] else Pressed(previous, current, n - 1) + if current[n - 1] && !previous[n - 1]
                                                               then [n - 1] else []
  }

  /** Playing the event of one button changes that button only. */
  lemma PlayButton(s: State, d: Device, frame: int, button: nat, down: bool)
    requires WellFormed(s) && IsDevice(d) && button < Size(d)
    ensures Playable(ButtonEvent(frame, d, button, down))
    ensures var s' := Play(s, ButtonEvent(frame, d, button, down));
            && Bits(s', d) == Bits(s, d)[button := down]
            && (forall d' :: IsDevice(d') && d' != d ==> Bits(s', d') == Bits(s, d'))
            && s'.queue == if d == Keyboard && down && !s.previousKeys[button]
                           then Queued(s.queue, [button]) else s.queue
  {
  }

  /** What playing the first n buttons' events of a device leaves: each of them merged, the others
      and the other devices untouched, newly pressed keys queued. */
  ghost predicate PlayedTo(s: State, s': State, d: Device, previous: seq<bool>, current: seq<bool>, n: nat)
    requires WellFormed(s) && WellFormed(s') && IsDevice(d) && n <= |previous| == |current| == Size(d)
  {
    && (forall i :: 0 <= i < Size(d) ==>
          Bits(s', d)[i] == if i < n then Merged(Bits(s, d)[i], previous[i], current[i]) else Bits(s, d)[i])
    && (forall d' :: IsDevice(d') && d' != d ==> Bits(s', d') == Bits(s, d'))
    && s'.queue == (if d == Keyboard then Queued(s.queue, Pressed(s.previousKeys, current, n)) else s.queue)
    && s'.previousKeys == s.previousKeys
  }

  lemma {:induction false} PlayButtons(s: State, d: Device, frame: int, previous: seq<bool>, current: seq<bool>, n: nat)
    requires WellFormed(s) && IsDevice(d) && n <= |previous| == |current| == Size(d)
    ensures AllPlayable(ButtonEvents(frame, d, previous, current, n))
    ensures PlayedTo(s, PlayAll(s, ButtonEvents(frame, d, previous, current, n)), d, previous, current, n)
    decreases n
  {
    hide *;
    if n == 0 {
      NoButtonsPlayed(s, d, frame, previous, current);
    } else {
      PlayButtons(s, d, frame, previous, current, n - 1);
      NextButton(frame, d, previous, current, n);
      var before := ButtonEvents(frame, d, previous, current, n - 1);
      if previous[n - 1] || current[n - 1] {
        PlayOneMore(s, before, d, frame, n - 1, current[n - 1]);
      }
      PlayedOneMore(s, PlayAll(s, before), PlayAll(s, ButtonEvents(frame, d, previous, current, n)), d, previous,
                    current, n);
    }
  }

  lemma NoButtonsPlayed(s: State, d: Device, frame: int, previous: seq<bool>, current: seq<bool>)
    requires WellFormed(s) && IsDevice(d) && |previous| == |current| == Size(d)
    ensures AllPlayable(ButtonEvents(frame, d, previous, current, 0))
    ensures PlayedTo(s, PlayAll(s, ButtonEvents(frame, d, previous, current, 0)), d, previous, current, 0)
  {
    assert s.queue + [] == s.queue;
  }

  lemma NextButton(frame: int, d: Device, previous: seq<bool>, current: seq<bool>, n: nat)
    requires 0 < n <= |previous| == |current|
    ensures ButtonEvents(frame, d, previous, current, n)
            == ButtonEvents(frame, d, previous, current, n - 1)
               + if previous[n - 1] || current[n - 1] then [ButtonEvent(frame, d, n - 1, current[n - 1])] else []
    ensures !(previous[n - 1] || current[n - 1]) ==>
              ButtonEvents(frame, d, previous, current, n) == ButtonEvents(frame, d, previous, current, n - 1)
  {
  }

  /** One more button merged. */
  lemma PlayedOneMore(s: State, s0: State, s1: State, d: Device, previous: seq<bool>, current: seq<bool>, n: nat)
    requires WellFormed(s) && WellFormed(s0) && WellFormed(s1) && IsDevice(d)
    requires 0 < n <= |previous| == |current| == Size(d)
    requires PlayedTo(s, s0, d, previous, current, n - 1) && s1.previousKeys == s.previousKeys
    requires Bits(s1, d) == if current[n - 1] then Bits(s0, d)[n - 1 := true]
                            else if previous[n - 1] then Bits(s0, d)[n - 1 := false] else Bits(s0, d)
    requires forall d' :: IsDevice(d') && d' != d ==> Bits(s1, d') == Bits(s0, d')
    requires s1.queue == if d == Keyboard && current[n - 1] && !s.previousKeys[n - 1] then Queued(s0.queue, [n - 1])
                         else s0.queue
    ensures PlayedTo(s, s1, d, previous, current, n)
  {
    if d == Keyboard { QueuedOneMore(s.queue, s.previousKeys, current, n); }
    hide Bits, Queued, Pressed, WellFormed;
  }

  lemma QueuedOneMore(queue: seq<int>, previous: seq<bool>, current: seq<bool>, n: nat)
    requires 0 < n <= |previous| == |current|
    ensures Queued(queue, Pressed(previous, current, n))
            == var before := Queued(queue, Pressed(previous, current, n - 1));
               if current[n - 1] && !previous[n - 1] then Queued(before, [n - 1]) else before
  {
  }

  lemma PlayOneMore(s: State, before: seq<Event>, d: Device, frame: int, button: nat, down: bool)
    requires WellFormed(s) && AllPlayable(before) && IsDevice(d) && button < Size(d)
    ensures var e := ButtonEvent(frame, d, button, down);
            && AllPlayable(before + [e])
            && PlayAll(s, before + [e]) == Play(PlayAll(s, before), e)
            && Bits(PlayAll(s, before + [e]), d) == Bits(PlayAll(s, before), d)[button := down]
            && (forall d' :: IsDevice(d') && d' != d ==>
                  Bits(PlayAll(s, before + [e]), d') == Bits(PlayAll(s, before), d'))
            && PlayAll(s, before + [e]).queue
               == if d == Keyboard && down && !s.previousKeys[button] then Queued(PlayAll(s, before).queue, [button])
                  else PlayAll(s, before).queue
  {
    var e := ButtonEvent(frame, d, button, down);
    PlayButton(PlayAll(s, before), d, frame, button, down);
    assert (before + [e])[..|before + [e]| - 1] == before;
    hide Play, ButtonEvent, Bits;
  }
}
