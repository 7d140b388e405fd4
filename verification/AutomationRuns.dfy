/** Recording a run and replaying what was recorded. */
module AutomationRuns {

  import opened Automation
  import opened AutomationReplay
  import opened AutomationRecorder

  /** No two frames have the same number, and the numbers go up. */
  predicate Ascending(frames: seq<Snapshot>) {
    forall i, j :: 0 <= i < j < |frames| ==> frames[i].frame < frames[j].frame
  }

  predicate AllComplete(frames: seq<Snapshot>) {
    forall i :: 0 <= i < |frames| ==> Complete(frames[i])
  }

  /** All events of a list have the frame number. */
  predicate AllOf(events: seq<Event>, frame: int) {
    forall i :: 0 <= i < |events| ==> events[i].frame == frame
  }

  predicate NoneOf(events: seq<Event>, frame: int) {
    forall i :: 0 <= i < |events| ==> events[i].frame != frame
  }

  lemma {:induction false} ChosenBoth(a: seq<Event>, b: seq<Event>, frame: int)
    ensures EventsOfFrame(a + b, frame) == EventsOfFrame(a, frame) + EventsOfFrame(b, frame)
    decreases |b|
  {
    if b == [] {
      assert a + b == a;
    } else {
      var n := |b| - 1;
      ChosenBoth(a, b[..n], frame);
      assert (a + b)[..|a| + n] == a + b[..n];
    }
  }

  lemma {:induction false} AllChosen(events: seq<Event>, frame: int)
    requires AllOf(events, frame)
    ensures EventsOfFrame(events, frame) == events
  {
    if events != [] { AllChosen(events[..|events| - 1], frame); }
  }

  lemma {:induction false} NoneChosen(events: seq<Event>, frame: int)
    requires NoneOf(events, frame)
    ensures EventsOfFrame(events, frame) == []
  {
    if events != [] { NoneChosen(events[..|events| - 1], frame); }
  }

  // ---- Every event of a frame bears its number ----

  lemma {:induction false} ButtonsOfFrame(frame: int, d: Device, previous: seq<bool>, current: seq<bool>, n: nat)
    requires n <= |previous| == |current|
    ensures AllOf(ButtonEvents(frame, d, previous, current, n), frame)
    decreases n
  {
    if n > 0 { ButtonsOfFrame(frame, d, previous, current, n - 1); }
  }

  lemma {:induction false} AxesOfFrame(f: Snapshot, pad: nat, n: nat)
    requires Complete(f) && pad < MAX_GAMEPADS && n <= MAX_GAMEPAD_AXIS
    ensures AllOf(AxisEvents(f, pad, n), f.frame)
    decreases n
  {
    if n > 0 { AxesOfFrame(f, pad, n - 1); }
  }

  lemma {:induction false} PadsOfFrame(f: Snapshot, n: nat)
    requires Complete(f) && n <= MAX_GAMEPADS
    ensures AllOf(PadEvents(f, n), f.frame)
    decreases n
  {
    if n > 0 {
      PadsOfFrame(f, n - 1);
      ButtonsOfFrame(f.frame, Pad(n - 1), Bits(f.previous, Pad(n - 1)), Bits(f.current, Pad(n - 1)),
                     MAX_GAMEPAD_BUTTONS);
      AxesOfFrame(f, n - 1, MAX_GAMEPAD_AXIS);
      hide ButtonEvents, AxisEvents, Complete, Bits;
    }
  }

  lemma EventsOfTheFrame(f: Snapshot)
    requires Complete(f)
    ensures AllOf(FrameEvents(f), f.frame)
  {
    ButtonsOfFrame(f.frame, Keyboard, f.previous.keys, f.current.keys, MAX_KEYBOARD_KEYS);
    ButtonsOfFrame(f.frame, MouseButtons, f.previous.buttons, f.current.buttons, MAX_MOUSE_BUTTONS);
    ButtonsOfFrame(f.frame, TouchPoints, f.previous.touch, f.current.touch, MAX_TOUCH_POINTS);
    PadsOfFrame(f, MAX_GAMEPADS);
    assert AllOf(PositionEvents(f), f.frame) && AllOf(WheelEvents(f), f.frame) && AllOf(GestureEvents(f), f.frame);
    hide ButtonEvents, PadEvents, PositionEvents, WheelEvents, GestureEvents;
  }

  lemma {:induction false} OtherFrames(frames: seq<Snapshot>, frame: int)
    requires AllComplete(frames) && forall i :: 0 <= i < |frames| ==> frames[i].frame != frame
    ensures NoneOf(RunEvents(frames), frame)
    decreases |frames|
  {
    hide FrameEvents, Complete;
    if frames != [] {
      var n := |frames| - 1;
      OtherFrames(frames[..n], frame);
      EventsOfTheFrame(frames[n]);
    }
  }

  // ---- A frame's events in the log of the run ----

  lemma {:induction false} RunInParts(a: seq<Snapshot>, b: seq<Snapshot>)
    requires AllComplete(a) && AllComplete(b)
    ensures AllComplete(a + b) && RunEvents(a + b) == RunEvents(a) + RunEvents(b)
    decreases |b|
  {
    hide FrameEvents, Complete;
    if b == [] {
      assert a + b == a;
    } else {
      var n := |b| - 1;
      RunInParts(a, b[..n]);
      assert (a + b)[..|a| + n] == a + b[..n] && (a + b)[|a| + n] == b[n];
      assert RunEvents(a + b) == RunEvents(a + b[..n]) + FrameEvents(b[n]);
    }
  }

  /** The run's first k + 1 frames fit the list. */
  predicate FitsUpTo(frames: seq<Snapshot>, k: nat, capacity: nat)
    requires AllComplete(frames) && k < |frames|
  {
    |RunEvents(frames[..k + 1])| <= capacity
  }

  lemma TakenParts(a: seq<Event>, b: seq<Event>, capacity: nat)
    requires |a| <= capacity
    ensures a <= Take(a + b, capacity) && Take(a + b, capacity)[|a|..] <= b
  {
  }

  lemma ChosenFromLog(before: seq<Event>, own: seq<Event>, rest: seq<Event>, capacity: nat, frame: int)
    requires NoneOf(before, frame) && AllOf(own, frame) && NoneOf(rest, frame) && |before + own| <= capacity
    ensures EventsOfFrame(Take(before + own + rest, capacity), frame) == own
  {
    var log := Take(before + own + rest, capacity);
    TakenParts(before + own, rest, capacity);
    var tail := log[|before + own|..];
    assert log == before + own + tail;
    hide Take, EventsOfFrame;
    ChosenBoth(before + own, tail, frame);
    ChosenBoth(before, own, frame);
    NoneChosen(before, frame);
    AllChosen(own, frame);
    NoneChosen(tail, frame);
  }

  lemma Halves(frames: seq<Snapshot>, k: nat)
    requires AllComplete(frames) && k <= |frames|
    ensures AllComplete(frames[..k]) && AllComplete(frames[k..]) && frames[..k] + frames[k..] == frames
  {
    hide Complete;
  }

  lemma RunAround(frames: seq<Snapshot>, k: nat)
    requires AllComplete(frames) && k < |frames|
    ensures RunEvents(frames[..k + 1]) == RunEvents(frames[..k]) + FrameEvents(frames[k])
    ensures RunEvents(frames) == RunEvents(frames[..k]) + FrameEvents(frames[k]) + RunEvents(frames[k + 1..])
  {
    RunNext(frames, k);
    Halves(frames, k + 1);
    hide Complete, FrameEvents, RunEvents;
    RunInParts(frames[..k + 1], frames[k + 1..]);
  }

  lemma FramesAround(frames: seq<Snapshot>, k: nat)
    requires AllComplete(frames) && Ascending(frames) && k < |frames|
    ensures NoneOf(RunEvents(frames[..k]), frames[k].frame) && NoneOf(RunEvents(frames[k + 1..]), frames[k].frame)
  {
    hide Complete, RunEvents;
    OtherFrames(frames[..k], frames[k].frame);
    OtherFrames(frames[k + 1..], frames[k].frame);
  }

  /** What a log with any capacity holds for the number of a frame that fits is all that was recorded
      in that frame. */
  lemma LogByFrame(frames: seq<Snapshot>, capacity: nat, k: nat)
    requires AllComplete(frames) && Ascending(frames) && k < |frames| && FitsUpTo(frames, k, capacity)
    ensures EventsOfFrame(Take(RunEvents(frames), capacity), frames[k].frame) == FrameEvents(frames[k])
  {
    hide Complete, FrameEvents, RunEvents, Take, EventsOfFrame, NoneOf, AllOf, Ascending;
    RunAround(frames, k);
    FramesAround(frames, k);
    EventsOfTheFrame(frames[k]);
    ChosenFromLog(RunEvents(frames[..k]), FrameEvents(frames[k]), RunEvents(frames[k + 1..]), capacity,
                  frames[k].frame);
  }

  lemma {:induction false} RunGrows(frames: seq<Snapshot>, i: nat, k: nat, capacity: nat)
    requires AllComplete(frames) && i <= k < |frames| && FitsUpTo(frames, k, capacity)
    ensures FitsUpTo(frames, i, capacity)
    decreases k
  {
    hide FrameEvents, Complete;
    if i < k {
      assert frames[..k + 1][..k] == frames[..k];
      RunGrows(frames, i, k - 1, capacity);
    }
  }

  /** Records a run into an empty list and replays the list from the same initial state: after the
      last frame that fits the list, every button of every device is as it was recorded. */
  method RecordThenReplay(list: EventList, input: CoreInput, frames: seq<Snapshot>, numbers: seq<int>)
    requires list.Valid() && list.Log() == [] && input.Valid() && !input.automationEventRecording
    requires Run(input.View(), frames) && Polled(input.View(), frames) && Ascending(frames)
    requires 0 < |numbers| <= |frames| && FitsUpTo(frames, |numbers| - 1, list.events.Length)
    requires forall k :: 0 <= k < |numbers| ==> numbers[k] == frames[k].frame
    modifies list, list.events, input
    ensures list.Valid() && list.Log() == Take(RunEvents(frames), list.events.Length)
    ensures input.Valid() && input.View() == Replay(old(input.View()), frames, |numbers|)
    ensures forall d :: IsDevice(d) ==> Bits(input.View(), d) == Bits(frames[|numbers| - 1].current, d)
    ensures var last := frames[|numbers| - 1].current;
            && input.currentKeyState == last.keys && input.currentButtonState == last.buttons
            && input.currentTouchState == last.touch && input.gamepadButtonState == last.pads
    ensures var f := frames[|numbers| - 1];
            && (MouseFollows(old(input.mousePosition), frames) ==>
                  input.mousePosition == Point(Truncated(f.mouse.x) as real, Truncated(f.mouse.y) as real))
            && input.wheelMove
               == if Truncated(f.wheel.x) != Truncated(f.wheel0.x) || Truncated(f.wheel.y) != Truncated(f.wheel0.y)
                  then Point(Truncated(f.wheel.x) as real, Truncated(f.wheel.y) as real) else Point(0.0, 0.0)
  {
    ghost var start, capacity, last := input.View(), list.events.Length, |numbers| - 1;
    LastReproduced(start, frames, last);
    hide Complete, FrameEvents, RunEvents, Take, Polled, Ascending, EventsOfFrame, WellFormed, FitsUpTo, Reproduced,
         Truncated, MouseFollows;
    assert list.Log() + RunEvents(frames) == RunEvents(frames);
    list.RecordRun(frames);
    ghost var log := list.Log();
    LogByFrames(frames, capacity, last, numbers);
    input.ReplayRun(list.events[..list.count], numbers, frames);
    input.ValidView();
    AllButtons(input.View(), frames[last].current);
  }

  lemma AllButtons(s: State, t: State)
    requires WellFormed(s) && WellFormed(t) && forall d :: IsDevice(d) ==> Bits(s, d) == Bits(t, d)
    ensures s.keys == t.keys && s.buttons == t.buttons && s.touch == t.touch && s.pads == t.pads
  {
    assert Bits(s, Keyboard) == Bits(t, Keyboard) && Bits(s, MouseButtons) == Bits(t, MouseButtons);
    assert Bits(s, TouchPoints) == Bits(t, TouchPoints);
    forall i | 0 <= i < MAX_GAMEPADS ensures s.pads[i] == t.pads[i] {
      assert Bits(s, Pad(i)) == Bits(t, Pad(i));
    }
  }

  lemma LastReproduced(start: State, frames: seq<Snapshot>, last: nat)
    requires Run(start, frames) && Polled(start, frames) && last < |frames|
    ensures forall d :: IsDevice(d) ==> Bits(Replay(start, frames, last + 1), d) == Bits(frames[last].current, d)
  {
    PolledRunReproduced(start, frames, last);
    assert Reproduced(start, frames, last);
    hide WellFormed, Complete, Polled;
  }

  lemma LogByFrames(frames: seq<Snapshot>, capacity: nat, last: nat, numbers: seq<int>)
    requires AllComplete(frames) && Ascending(frames) && last < |frames| && FitsUpTo(frames, last, capacity)
    requires |numbers| == last + 1 && forall k :: 0 <= k < |numbers| ==> numbers[k] == frames[k].frame
    ensures forall k :: 0 <= k < |numbers| ==>
              EventsOfFrame(Take(RunEvents(frames), capacity), numbers[k]) == FrameEvents(frames[k])
  {
    hide Complete, FrameEvents, RunEvents, Take, EventsOfFrame, FitsUpTo;
    forall k | 0 <= k < |numbers|
      ensures EventsOfFrame(Take(RunEvents(frames), capacity), numbers[k]) == FrameEvents(frames[k])
    {
      RunGrows(frames, k, last, capacity);
      LogByFrame(frames, capacity, k);
    }
  }
}
