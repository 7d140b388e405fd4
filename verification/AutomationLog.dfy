/** Exactly what a frame's log holds, by the numbers that stand in it, and in which order. */
module AutomationLog {

  import opened Automation
  import opened AutomationReplay

  /** A cast rounds toward zero. */
  lemma TruncatedExactly(r: real)
    ensures 0.0 <= r ==> Truncated(r) as real <= r < Truncated(r) as real + 1.0
    ensures r <= 0.0 ==> Truncated(r) as real - 1.0 < r <= Truncated(r) as real
  {
  }

  // ---- Buttons ----

  lemma {:induction false} ButtonLogged(frame: int, d: Device, previous: seq<bool>, current: seq<bool>, n: nat,
                                         e: Event)
    requires n <= |previous| == |current|
    ensures e in ButtonEvents(frame, d, previous, current, n)
            <==> exists i :: 0 <= i < n && (previous[i] || current[i]) && e == ButtonEvent(frame, d, i, current[i])
    decreases n
  {
    hide ButtonEvent;
    if n > 0 {
      ButtonLogged(frame, d, previous, current, n - 1, e);
      NextButton(frame, d, previous, current, n);
      hide ButtonEvents;
    }
  }

  /** The events of a keyboard, a mouse or a touch screen, by the kinds for up and down. */
  lemma OneDevice(frame: int, d: Device, previous: seq<bool>, current: seq<bool>, e: Event, up: nat, down: nat)
    requires |previous| == |current| && !d.Pad?
    requires up == (match d case Keyboard => 1 case MouseButtons => 5 case _ => 14) && down == up + 1
    ensures e in ButtonEvents(frame, d, previous, current, |current|)
            <==> && e.frame == frame && 0 <= e.p0 < |current| && e.p1 == e.p2 == e.p3 == 0
                 && (if e.kind == up then previous[e.p0] && !current[e.p0] else e.kind == down && current[e.p0])
  {
    ButtonLogged(frame, d, previous, current, |current|, e);
    if 0 <= e.p0 < |current| && (previous[e.p0] || current[e.p0]) {
      assert ButtonEvent(frame, d, e.p0, current[e.p0]).p0 == e.p0;
    }
    hide ButtonEvents;
  }

  lemma OnePad(frame: int, pad: nat, previous: seq<bool>, current: seq<bool>, e: Event)
    requires |previous| == |current|
    ensures e in ButtonEvents(frame, Pad(pad), previous, current, |current|)
            <==> && e.frame == frame && e.p0 == pad && 0 <= e.p1 < |current| && e.p2 == e.p3 == 0
                 && (if e.kind == 11 then previous[e.p1] && !current[e.p1] else e.kind == 12 && current[e.p1])
  {
    ButtonLogged(frame, Pad(pad), previous, current, |current|, e);
    if 0 <= e.p1 < |current| && (previous[e.p1] || current[e.p1]) {
      assert ButtonEvent(frame, Pad(pad), e.p1, current[e.p1]).p1 == e.p1;
    }
    hide ButtonEvents;
  }

  // ---- Axes ----

  lemma {:induction false} AxisLogged(f: Snapshot, pad: nat, n: nat, e: Event)
    requires Complete(f) && pad < MAX_GAMEPADS && n <= MAX_GAMEPAD_AXIS
    ensures e in AxisEvents(f, pad, n)
            <==> && e.frame == f.frame && e.kind == 13 && e.p0 == pad && 0 <= e.p1 < n && e.p3 == 0
                 && f.ready[pad]
                 && (if e.p1 == 4 || e.p1 == 5 then f.axes[pad][e.p1] > -1.0 else f.axes[pad][e.p1] != 0.0)
                 && e.p2 == Truncated(f.axes[pad][e.p1] * 32768.0)
    decreases n
  {
    if n > 0 {
      AxisLogged(f, pad, n - 1, e);
      OffRest(f.ready[pad], n - 1, f.axes[pad][n - 1]);
      hide Movement, AtRest, Truncated;
    }
  }

  lemma {:induction false} PadLogged(f: Snapshot, n: nat, e: Event)
    requires Complete(f) && n <= MAX_GAMEPADS
    ensures e in PadEvents(f, n)
            <==> && e.frame == f.frame && 0 <= e.p0 < n && e.p3 == 0
                 && if e.kind == 13
                    then && 0 <= e.p1 < 8 && f.ready[e.p0]
                         && (if e.p1 == 4 || e.p1 == 5 then f.axes[e.p0][e.p1] > -1.0 else f.axes[e.p0][e.p1] != 0.0)
                         && e.p2 == Truncated(f.axes[e.p0][e.p1] * 32768.0)
                    else && 0 <= e.p1 < 32 && e.p2 == 0
                         && if e.kind == 11 then f.previous.pads[e.p0][e.p1] && !f.current.pads[e.p0][e.p1]
                            else e.kind == 12 && f.current.pads[e.p0][e.p1]
    decreases n
  {
    if n > 0 {
      var pad := n - 1;
      PadLogged(f, pad, e);
      OnePad(f.frame, pad, f.previous.pads[pad], f.current.pads[pad], e);
      AxisLogged(f, pad, MAX_GAMEPAD_AXIS, e);
      assert DeviceEvents(f, Pad(pad))
             == ButtonEvents(f.frame, Pad(pad), f.previous.pads[pad], f.current.pads[pad], |f.current.pads[pad]|);
      assert PadEvents(f, n) == PadEvents(f, pad) + DeviceEvents(f, Pad(pad)) + AxisEvents(f, pad, MAX_GAMEPAD_AXIS);
      hide ButtonEvents, AxisEvents, DeviceEvents, Truncated, PadEvents;
    }
  }

  // ---- The frame ----

  lemma SingleEvents(f: Snapshot, e: Event)
    ensures e in PositionEvents(f)
            <==> && e == Event(f.frame, 7, Truncated(f.mouse.x), Truncated(f.mouse.y), 0, 0)
                 && (Truncated(f.mouse.x) != Truncated(f.mouse0.x) || Truncated(f.mouse.y) != Truncated(f.mouse0.y))
    ensures e in WheelEvents(f)
            <==> && e == Event(f.frame, 8, Truncated(f.wheel.x), Truncated(f.wheel.y), 0, 0)
                 && (Truncated(f.wheel.x) != Truncated(f.wheel0.x) || Truncated(f.wheel.y) != Truncated(f.wheel0.y))
    ensures e in GestureEvents(f) <==> e == Event(f.frame, 17, f.gesture, 0, 0, 0) && f.gesture != 0
  {
    hide Truncated;
  }

  lemma FirstDevices(f: Snapshot, e: Event)
    requires Complete(f)
    ensures e in DeviceEvents(f, Keyboard)
            <==> && e.frame == f.frame && 0 <= e.p0 < 512 && e.p1 == e.p2 == e.p3 == 0
                 && if e.kind == 1 then f.previous.keys[e.p0] && !f.current.keys[e.p0]
                    else e.kind == 2 && f.current.keys[e.p0]
    ensures e in DeviceEvents(f, MouseButtons)
            <==> && e.frame == f.frame && 0 <= e.p0 < 8 && e.p1 == e.p2 == e.p3 == 0
                 && if e.kind == 5 then f.previous.buttons[e.p0] && !f.current.buttons[e.p0]
                    else e.kind == 6 && f.current.buttons[e.p0]
    ensures e in DeviceEvents(f, TouchPoints)
            <==> && e.frame == f.frame && 0 <= e.p0 < 8 && e.p1 == e.p2 == e.p3 == 0
                 && if e.kind == 14 then f.previous.touch[e.p0] && !f.current.touch[e.p0]
                    else e.kind == 15 && f.current.touch[e.p0]
  {
    OneDevice(f.frame, Keyboard, f.previous.keys, f.current.keys, e, 1, 2);
    OneDevice(f.frame, MouseButtons, f.previous.buttons, f.current.buttons, e, 5, 6);
    OneDevice(f.frame, TouchPoints, f.previous.touch, f.current.touch, e, 14, 15);
    hide ButtonEvents;
  }

  /** An event is logged in a frame exactly if it is one of these. */
  lemma LoggedExactly(f: Snapshot, e: Event)
    requires Complete(f)
    ensures e in FrameEvents(f)
            <==> && e.frame == f.frame && e.p3 == 0
                 && match e.kind
                    case 1 => 0 <= e.p0 < 512 && f.previous.keys[e.p0] && !f.current.keys[e.p0] && e.p1 == e.p2 == 0
                    case 2 => 0 <= e.p0 < 512 && f.current.keys[e.p0] && e.p1 == e.p2 == 0
                    case 5 => 0 <= e.p0 < 8 && f.previous.buttons[e.p0] && !f.current.buttons[e.p0] && e.p1 == e.p2 == 0
                    case 6 => 0 <= e.p0 < 8 && f.current.buttons[e.p0] && e.p1 == e.p2 == 0
                    case 7 => && e.p0 == Truncated(f.mouse.x) && e.p1 == Truncated(f.mouse.y) && e.p2 == 0
                              && (e.p0 != Truncated(f.mouse0.x) || e.p1 != Truncated(f.mouse0.y))
                    case 8 => && e.p0 == Truncated(f.wheel.x) && e.p1 == Truncated(f.wheel.y) && e.p2 == 0
                              && (e.p0 != Truncated(f.wheel0.x) || e.p1 != Truncated(f.wheel0.y))
                    case 11 => && 0 <= e.p0 < 4 && 0 <= e.p1 < 32 && e.p2 == 0
                               && f.previous.pads[e.p0][e.p1] && !f.current.pads[e.p0][e.p1]
                    case 12 => 0 <= e.p0 < 4 && 0 <= e.p1 < 32 && e.p2 == 0 && f.current.pads[e.p0][e.p1]
                    case 13 => && 0 <= e.p0 < 4 && 0 <= e.p1 < 8 && f.ready[e.p0]
                               && (if e.p1 == 4 || e.p1 == 5
                                   then f.axes[e.p0][e.p1] > -1.0 else f.axes[e.p0][e.p1] != 0.0)
                               && e.p2 == Truncated(f.axes[e.p0][e.p1] * 32768.0)
                    case 14 => 0 <= e.p0 < 8 && f.previous.touch[e.p0] && !f.current.touch[e.p0] && e.p1 == e.p2 == 0
                    case 15 => 0 <= e.p0 < 8 && f.current.touch[e.p0] && e.p1 == e.p2 == 0
                    case 17 => f.gesture != 0 && e.p0 == f.gesture && e.p1 == e.p2 == 0
                    case _ => false
  {
    FirstDevices(f, e);
    SingleEvents(f, e);
    PadLogged(f, MAX_GAMEPADS, e);
    assert MAX_GAMEPADS == 4;
    hide DeviceEvents, PadEvents, PositionEvents, WheelEvents, GestureEvents, Truncated;
  }

  // ---- The order ----

  /** Where an event stands: keys, mouse buttons, position, wheel, touch points, gamepads, gesture. */
  function Block(kind: int): nat {
    if kind <= 2 then 0 else if kind <= 6 then 1 else if kind == 7 then 2 else if kind == 8 then 3
    else if kind == 14 || kind == 15 then 4 else if kind == 17 then 6 else 5
  }

  /** The log is in blocks, and gamepads come one after the other. */
  lemma LoggedInOrder(f: Snapshot, i: nat, j: nat)
    requires Complete(f) && i < j < |FrameEvents(f)|
    ensures var a, b := FrameEvents(f)[i], FrameEvents(f)[j];
            Block(a.kind) <= Block(b.kind) && (Block(a.kind) == Block(b.kind) ==> a.p0 <= b.p0)
  {
    hide *;
    BlocksOf(f);
    FrameInOrder(f);
    SortedAt(FrameEvents(f), 6, i, j);
  }

  lemma BlocksOf(f: Snapshot)
    requires Complete(f)
    ensures InBlock(DeviceEvents(f, Keyboard), 0) && InBlock(DeviceEvents(f, MouseButtons), 1)
    ensures InBlock(PositionEvents(f), 2) && InBlock(WheelEvents(f), 3) && InBlock(DeviceEvents(f, TouchPoints), 4)
    ensures InBlock(PadEvents(f, MAX_GAMEPADS), 5) && InBlock(GestureEvents(f), 6)
  {
    BlockOrdered(f, Keyboard);
    BlockOrdered(f, MouseButtons);
    BlockOrdered(f, TouchPoints);
    PadsOrdered(f, MAX_GAMEPADS);
    hide DeviceEvents, PadEvents, Truncated;
  }

  lemma FrameInOrder(f: Snapshot)
    requires Complete(f)
    requires InBlock(DeviceEvents(f, Keyboard), 0) && InBlock(DeviceEvents(f, MouseButtons), 1)
    requires InBlock(PositionEvents(f), 2) && InBlock(WheelEvents(f), 3) && InBlock(DeviceEvents(f, TouchPoints), 4)
    requires InBlock(PadEvents(f, MAX_GAMEPADS), 5) && InBlock(GestureEvents(f), 6)
    ensures Sorted(FrameEvents(f), 6)
  {
    hide DeviceEvents, PadEvents, PositionEvents, WheelEvents, GestureEvents, Block, InBlock, Sorted, Complete;
    var a := DeviceEvents(f, Keyboard);
    var b := a + DeviceEvents(f, MouseButtons);
    var c := b + PositionEvents(f);
    var d := c + WheelEvents(f);
    var e := d + DeviceEvents(f, TouchPoints);
    var g := e + PadEvents(f, MAX_GAMEPADS);
    BlocksJoin(a, 0, DeviceEvents(f, MouseButtons), 1);
    BlocksJoin(b, 1, PositionEvents(f), 2);
    BlocksJoin(c, 2, WheelEvents(f), 3);
    BlocksJoin(d, 3, DeviceEvents(f, TouchPoints), 4);
    BlocksJoin(e, 4, PadEvents(f, MAX_GAMEPADS), 5);
    BlocksJoin(g, 5, GestureEvents(f), 6);
  }

  lemma SortedAt(events: seq<Event>, last: nat, i: nat, j: nat)
    requires Sorted(events, last) && i < j < |events|
    ensures Block(events[i].kind) <= Block(events[j].kind)
    ensures Block(events[i].kind) == Block(events[j].kind) ==> events[i].p0 <= events[j].p0
  {
    hide Block;
  }

  /** Sorted by block and first parameter, with no block beyond the given one. */
  ghost predicate Sorted(events: seq<Event>, last: nat) {
    && (forall i :: 0 <= i < |events| ==> Block(events[i].kind) <= last)
    && forall i, j :: 0 <= i < j < |events| ==>
         && Block(events[i].kind) <= Block(events[j].kind)
         && (Block(events[i].kind) == Block(events[j].kind) ==> events[i].p0 <= events[j].p0)
  }

  ghost predicate InBlock(events: seq<Event>, block: nat) {
    && (forall i :: 0 <= i < |events| ==> Block(events[i].kind) == block)
    && forall i, j :: 0 <= i < j < |events| ==> events[i].p0 <= events[j].p0
  }

  lemma BlocksJoin(a: seq<Event>, last: nat, b: seq<Event>, block: nat)
    requires (Sorted(a, last) || InBlock(a, last)) && InBlock(b, block) && last < block
    ensures Sorted(a + b, block)
  {
    hide Block;
  }

  /** All first parameters lie within bounds. */
  ghost predicate Between(events: seq<Event>, lo: int, hi: int) {
    forall i :: 0 <= i < |events| ==> lo <= events[i].p0 <= hi
  }

  lemma JoinInBlock(a: seq<Event>, b: seq<Event>, block: nat, lo: int, mid: int, hi: int)
    requires InBlock(a, block) && InBlock(b, block) && Between(a, lo, mid) && Between(b, mid, hi) && lo <= mid <= hi
    ensures InBlock(a + b, block) && Between(a + b, lo, hi)
  {
    hide Block;
  }

  lemma NoneInBlock(block: nat, lo: int, hi: int)
    ensures InBlock([], block) && Between([], lo, hi)
  {
  }

  lemma OneInBlock(e: Event, block: nat)
    requires Block(e.kind) == block
    ensures InBlock([e], block) && Between([e], e.p0, e.p0)
  {
  }

  /** The block of a device's buttons, and what their first parameters lie between. */
  function BlockOf(d: Device): nat {
    match d case Keyboard => 0 case MouseButtons => 1 case TouchPoints => 4 case Pad(_) => 5
  }

  function Lowest(d: Device): int { if d.Pad? then d.pad else 0 }

  function Highest(d: Device, n: nat): int { if d.Pad? then d.pad else n }

  lemma {:induction false} ButtonsOrdered(frame: int, d: Device, previous: seq<bool>, current: seq<bool>, n: nat)
    requires n <= |previous| == |current|
    ensures InBlock(ButtonEvents(frame, d, previous, current, n), BlockOf(d))
    ensures Between(ButtonEvents(frame, d, previous, current, n), Lowest(d), Highest(d, n))
    decreases n
  {
    assert Lowest(d) <= Highest(d, n);
    assert n > 0 ==> Highest(d, n - 1) <= Highest(d, n) && Lowest(d) <= Highest(d, n - 1);
    if n == 0 {
      NoneInBlock(BlockOf(d), Lowest(d), Highest(d, n));
    } else {
      ButtonBlock(frame, d, n - 1, current[n - 1]);
      hide *;
      ButtonsOrdered(frame, d, previous, current, n - 1);
      NextButton(frame, d, previous, current, n);
      var before, e := ButtonEvents(frame, d, previous, current, n - 1), ButtonEvent(frame, d, n - 1, current[n - 1]);
      OneInBlock(e, BlockOf(d));
      Wider([e], e.p0, e.p0, Highest(d, n - 1), Highest(d, n));
      JoinInBlock(before, [e], BlockOf(d), Lowest(d), Highest(d, n - 1), Highest(d, n));
      Wider(before, Lowest(d), Highest(d, n - 1), Lowest(d), Highest(d, n));
    }
  }

  lemma Wider(events: seq<Event>, lo: int, hi: int, lo': int, hi': int)
    requires Between(events, lo, hi) && lo' <= lo && hi <= hi'
    ensures Between(events, lo', hi')
  {
  }

  lemma ButtonBlock(frame: int, d: Device, button: nat, down: bool)
    ensures var e := ButtonEvent(frame, d, button, down);
            Block(e.kind) == BlockOf(d) && Highest(d, button) == e.p0 && e.p0 <= Highest(d, button + 1)
  {
  }

  lemma BlockOrdered(f: Snapshot, d: Device)
    requires Complete(f) && IsDevice(d)
    ensures InBlock(DeviceEvents(f, d), BlockOf(d)) && Between(DeviceEvents(f, d), Lowest(d), Highest(d, Size(d)))
  {
    ButtonsOrdered(f.frame, d, Bits(f.previous, d), Bits(f.current, d), Size(d));
    hide ButtonEvents, InBlock, Bits, Between;
  }

  lemma {:induction false} PadsOrdered(f: Snapshot, n: nat)
    requires Complete(f) && n <= MAX_GAMEPADS
    ensures InBlock(PadEvents(f, n), 5) && Between(PadEvents(f, n), 0, n)
    decreases n
  {
    if n == 0 {
      NoneInBlock(5, 0, 0);
    } else {
      var pad := n - 1;
      assert BlockOf(Pad(pad)) == 5 && Lowest(Pad(pad)) == Highest(Pad(pad), Size(Pad(pad))) == pad;
      assert IsDevice(Pad(pad));
      assert PadEvents(f, n) == PadEvents(f, pad) + DeviceEvents(f, Pad(pad)) + AxisEvents(f, pad, MAX_GAMEPAD_AXIS);
      assert MAX_GAMEPAD_AXIS <= MAX_GAMEPAD_AXIS && pad < MAX_GAMEPADS;
      hide *;
      PadsOrdered(f, pad);
      BlockOrdered(f, Pad(pad));
      AxesOrdered(f, pad, MAX_GAMEPAD_AXIS);
      JoinInBlock(PadEvents(f, pad), DeviceEvents(f, Pad(pad)), 5, 0, pad, pad);
      JoinInBlock(PadEvents(f, pad) + DeviceEvents(f, Pad(pad)), AxisEvents(f, pad, MAX_GAMEPAD_AXIS), 5, 0, pad, pad);
      Wider(PadEvents(f, n), 0, pad, 0, n);
    }
  }

  lemma {:induction false} AxesOrdered(f: Snapshot, pad: nat, n: nat)
    requires Complete(f) && pad < MAX_GAMEPADS && n <= MAX_GAMEPAD_AXIS
    ensures InBlock(AxisEvents(f, pad, n), 5) && Between(AxisEvents(f, pad, n), pad, pad)
    decreases n
  {
    hide Movement, AtRest, Truncated;
    if n > 0 { AxesOrdered(f, pad, n - 1); }
  }

  // ---- The queue of pressed keys ----

  ghost predicate Ascending(keys: seq<int>, n: nat) {
    && (forall i :: 0 <= i < |keys| ==> 0 <= keys[i] < n)
    && forall i, j :: 0 <= i < j < |keys| ==> keys[i] < keys[j]
  }

  lemma Ascends(keys: seq<int>, next: nat)
    requires Ascending(keys, next)
    ensures Ascending(keys + [next], next + 1) && Ascending(keys, next + 1) && keys + [] == keys
  {
  }

  /** The newly pressed keys, each once and in ascending order. */
  lemma {:induction false} PressedExactly(previous: seq<bool>, current: seq<bool>, n: nat)
    requires n <= |previous| == |current|
    ensures forall k :: k in Pressed(previous, current, n) <==> 0 <= k < n && current[k] && !previous[k]
    ensures Ascending(Pressed(previous, current, n), n)
    decreases n
  {
    if n > 0 {
      PressedExactly(previous, current, n - 1);
      hide Ascending;
      Ascends(Pressed(previous, current, n - 1), n - 1);
    }
  }

  /** The queue holds the first sixteen. */
  lemma QueuedExactly(queue: seq<int>, pressed: seq<int>)
    ensures var queued := Queued(queue, pressed);
            && |queued| == (if |queue| + |pressed| < 16 then |queue| + |pressed| else 16)
            && forall i :: 0 <= i < |queued| ==> queued[i] == if i < |queue| then queue[i] else pressed[i - |queue|]
  {
  }

  /** A full list keeps the beginning. */
  lemma TakenExactly(events: seq<Event>, capacity: nat)
    ensures var kept := Take(events, capacity);
            && |kept| == (if |events| < capacity then |events| else capacity)
            && forall i :: 0 <= i < |kept| ==> kept[i] == events[i]
  {
  }
}
