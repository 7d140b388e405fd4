/** From the recorder to a file and back: whatever was recorded can be saved and loaded again. */
module AutomationFiles {
  import opened Automation
  import opened AutomationReplay
  import opened AutomationRecorder
  import opened AutomationText

  /** Positions that are defined when they are cast to a C int, a 32-bit gesture and frame number. */
  predicate FitsInts(f: Snapshot) {
    && IsUnsigned(f.frame) && IsSigned(f.gesture) && FitsInt(f.mouse) && FitsInt(f.wheel) && Complete(f)
    && forall pad, axis :: 0 <= pad < MAX_GAMEPADS && 0 <= axis < MAX_GAMEPAD_AXIS ==>
         IsSigned(Truncated(f.axes[pad][axis] * 32768.0))
  }

  predicate FitsInt(p: Point) {
    IsSigned(Truncated(p.x)) && IsSigned(Truncated(p.y))
  }

  lemma {:induction false} ButtonsExportable(frame: int, d: Device, previous: seq<bool>, current: seq<bool>, n: nat)
    requires IsUnsigned(frame) && IsDevice(d) && n <= |previous| == |current| == Size(d)
    ensures AllExportable(ButtonEvents(frame, d, previous, current, n))
    decreases n
  {
    if n > 0 {
      ButtonsExportable(frame, d, previous, current, n - 1);
    }
  }

  lemma {:induction false} AxesExportable(f: Snapshot, pad: nat, n: nat)
    requires FitsInts(f) && pad < MAX_GAMEPADS && n <= MAX_GAMEPAD_AXIS
    ensures AllExportable(AxisEvents(f, pad, n))
    decreases n
  {
    if n > 0 {
      AxesExportable(f, pad, n - 1);
    }
  }

  lemma {:induction false} PadsExportable(f: Snapshot, n: nat)
    requires FitsInts(f) && n <= MAX_GAMEPADS
    ensures AllExportable(PadEvents(f, n))
    decreases n
  {
    if n > 0 {
      PadsExportable(f, n - 1);
      ButtonsExportable(f.frame, Pad(n - 1), Bits(f.previous, Pad(n - 1)), Bits(f.current, Pad(n - 1)),
                        MAX_GAMEPAD_BUTTONS);
      AxesExportable(f, n - 1, MAX_GAMEPAD_AXIS);
      hide Exportable, ButtonEvents, AxisEvents, FitsInts;
    }
  }

  lemma FrameExportable(f: Snapshot)
    requires FitsInts(f)
    ensures AllExportable(FrameEvents(f))
  {
    ButtonsExportable(f.frame, Keyboard, f.previous.keys, f.current.keys, MAX_KEYBOARD_KEYS);
    ButtonsExportable(f.frame, MouseButtons, f.previous.buttons, f.current.buttons, MAX_MOUSE_BUTTONS);
    ButtonsExportable(f.frame, TouchPoints, f.previous.touch, f.current.touch, MAX_TOUCH_POINTS);
    PadsExportable(f, MAX_GAMEPADS);
    assert AllExportable(PositionEvents(f)) && AllExportable(WheelEvents(f)) && AllExportable(GestureEvents(f));
    hide Exportable, ButtonEvents, PadEvents, PositionEvents, WheelEvents, GestureEvents, FitsInt;
  }

  predicate RunFits(frames: seq<Snapshot>) {
    forall i :: 0 <= i < |frames| ==> Complete(frames[i]) && FitsInts(frames[i])
  }

  lemma {:induction false} RunExportable(frames: seq<Snapshot>)
    requires RunFits(frames)
    ensures AllExportable(RunEvents(frames))
  {
    hide FrameEvents, Exportable, FitsInts, Complete;
    if frames != [] {
      RunExportable(frames[..|frames| - 1]);
      FrameExportable(frames[|frames| - 1]);
    }
  }

  lemma TakeExportable(events: seq<Event>, capacity: nat)
    requires AllExportable(events)
    ensures AllExportable(Take(events, capacity))
  {
  }

  /** The log of any run, recorded with any capacity that the loader has as well, is loaded from its
      file as it was recorded. */
  lemma SavedLogIsLoaded(frames: seq<Snapshot>, capacity: nat)
    requires RunFits(frames) && capacity <= MAX_AUTOMATION_EVENTS
    ensures var log := Take(RunEvents(frames), capacity);
      AllExportable(log) && |log| <= MAX_AUTOMATION_EVENTS && Parsed(Exported(log)) == log
  {
    RunExportable(frames);
    TakeExportable(RunEvents(frames), capacity);
    TakeFits(RunEvents(frames), capacity);
    hide *;
    LoadExported(Take(RunEvents(frames), capacity));
  }

  lemma TakeFits(events: seq<Event>, capacity: nat)
    ensures |Take(events, capacity)| <= capacity
  {
  }

  /** Saves a list and loads the file. */
  method SaveAndLoad(events: seq<Event>) returns (loaded: array<Event>, count: nat)
    requires AllExportable(events) && |events| <= MAX_AUTOMATION_EVENTS
    ensures fresh(loaded) && loaded.Length == 16384 && count == |events| && loaded[..count] == events
  {
    hide *;
    var text := ExportAutomationEventList(events);
    LoadExported(events);
    loaded, count := LoadAutomationEventList(text);
  }
}
