/** The simple machine that a raylib audio stream has to behave like: a queue of frames
    that plays silence when it runs dry. A frame stands for the samples of all channels
    at one instant; silence is the frame 0. */
module FrameQueue {

  type Frame = int

  const SILENCE: Frame := 0

  function Min(a: nat, b: nat): nat {
    if a <= b then a else b
  }

  function Silence(n: nat): (s: seq<Frame>)
    ensures |s| == n
    ensures forall i :: 0 <= i < n ==> s[i] == SILENCE
  {
    seq(n, _ => SILENCE)
  }

  /** What a read of n frames plays from a queue: its first frames, then only silence. */
  function Heard(queue: seq<Frame>, n: nat): (out: seq<Frame>)
    ensures |out| == n
  {
    queue[..Min(n, |queue|)] + Silence(n - Min(n, |queue|))
  }

  /** What a read of n frames leaves in the queue. */
  function Left(queue: seq<Frame>, n: nat): seq<Frame> {
    queue[Min(n, |queue|)..]
  }

  /** A refilled half: the data, zero-padded to the half's size. */
  function Padded(input: seq<Frame>, half: nat): (s: seq<Frame>)
    requires |input| <= half
    ensures |s| == half
  {
    input + Silence(half - |input|)
  }

  /** Frame by frame: the queue's frames and then silence, and what comes after them. */
  lemma HeardFrames(queue: seq<Frame>, n: nat)
    ensures forall i :: 0 <= i < n ==> Heard(queue, n)[i] == if i < |queue| then queue[i] else 0
    ensures |Left(queue, n)| == if n < |queue| then |queue| - n else 0
    ensures forall i :: 0 <= i < |queue| - n ==> Left(queue, n)[i] == queue[n + i]
  {
  }

  /** Frame by frame: the data and then silence. */
  lemma PaddedFrames(input: seq<Frame>, half: nat)
    requires |input| <= half
    ensures forall i :: 0 <= i < half ==> Padded(input, half)[i] == if i < |input| then input[i] else 0
  {
  }

  lemma Regroup(a: seq<Frame>, b: seq<Frame>, c: seq<Frame>)
    ensures a + (b + c) == (a + b) + c
  {
  }

  lemma Ungroup(a: seq<Frame>)
    ensures a + [] == a
  {
  }

  datatype Stream = Stream(queue: seq<Frame>, playing: bool, paused: bool)

  /** The operations of the audio interface. Mix is the device thread asking for n frames. */
  datatype Op =
    | Refill(input: seq<Frame>)
    | Mix(n: nat)
    | Play
    | Pause
    | Resume
    | Stop
    | Seek(position: nat)

  const INITIAL := Stream([], false, false)

  predicate Active(s: Stream) {
    s.playing && !s.paused
  }

  /** A refill is taken when it fits in a half and at least one of the two halves is free. */
  predicate Takes(s: Stream, half: nat, input: seq<Frame>) {
    |s.queue| <= half && |input| <= half
  }

  function Step(s: Stream, half: nat, op: Op): Stream {
    match op
    case Refill(input) => if Takes(s, half, input) then s.(queue := s.queue + Padded(input, half)) else s
    case Mix(n) => if Active(s) then s.(queue := Left(s.queue, n)) else s
    case Play => s.(playing := true, paused := false)
    case Pause => s.(paused := true)
    case Resume => s.(paused := false)
    case Stop => if Active(s) then INITIAL else s
    case Seek(_) => s.(queue := [])
  }

  /** What the device hears during one operation. */
  function Output(s: Stream, op: Op): seq<Frame> {
    match op
    case Mix(n) => if Active(s) then Heard(s.queue, n) else Silence(n)
    case _ => []
  }

  /** The frames an operation puts into the queue. */
  function Accepted(s: Stream, half: nat, op: Op): seq<Frame> {
    match op
    case Refill(input) => if Takes(s, half, input) then Padded(input, half) else []
    case _ => []
  }

  /** How many queued frames leave the queue, played or thrown away. */
  function Taken(s: Stream, op: Op): (k: nat)
    ensures k <= |s.queue|
  {
    match op
    case Mix(n) => if Active(s) then Min(n, |s.queue|) else 0
    case Stop => if Active(s) then |s.queue| else 0
    case Seek(_) => |s.queue|
    case _ => 0
  }

  /** True of the operations that throw queued frames away. */
  predicate Flushes(s: Stream, op: Op) {
    op.Seek? || (op.Stop? && Active(s))
  }

  /** A run with its bookkeeping: every frame ever accepted, how many of them have left the
      queue, everything the device heard, and for each heard frame the index of the
      accepted frame it is, or GAP where silence filled in. */
  datatype History = History(now: Stream, accepted: seq<Frame>, head: nat, heard: seq<Frame>, origin: seq<int>)

  const GAP := -1

  const START := History(INITIAL, [], 0, [], [])

  /** Which accepted frames an operation plays. */
  function Origins(h: History, op: Op): (o: seq<int>)
    ensures |o| == |Output(h.now, op)|
  {
    match op
    case Mix(n) =>
      var k := if Active(h.now) then Min(n, |h.now.queue|) else 0;
      seq(n, i => if i < k then h.head + i else GAP)
    case _ => []
  }

  function Record(h: History, half: nat, op: Op): History {
    History(Step(h.now, half, op),
            h.accepted + Accepted(h.now, half, op),
            h.head + Taken(h.now, op),
            h.heard + Output(h.now, op),
            h.origin + Origins(h, op))
  }

  /** The history of a run that starts with a freshly loaded stream. */
  function Run(half: nat, ops: seq<Op>): History
    decreases |ops|
  {
    if ops == [] then START else Record(Run(half, ops[..|ops| - 1]), half, ops[|ops| - 1])
  }

  ghost predicate NeverFlushes(half: nat, ops: seq<Op>) {
    forall i :: 0 <= i < |ops| ==> !Flushes(Run(half, ops[..i]).now, ops[i])
  }

  /** Play restarts the cursor, so the queue is kept when the stream is stopped or nothing waits. */
  ghost predicate PlaysWhenIdle(half: nat, ops: seq<Op>) {
    forall i :: 0 <= i < |ops| && ops[i].Play? ==> var now := Run(half, ops[..i]).now; !now.playing || now.queue == []
  }

  /** Reading m frames and then n frames is reading m + n frames. */
  lemma HeardInChunks(queue: seq<Frame>, m: nat, n: nat)
    ensures Heard(queue, m + n) == Heard(queue, m) + Heard(Left(queue, m), n)
    ensures Left(queue, m + n) == Left(Left(queue, m), n)
  {
  }

  /** What the device heard is made of accepted frames and gaps. */
  ghost predicate HeardIsFifo(h: History) {
    && h.head <= |h.accepted|
    && h.now.queue == h.accepted[h.head..]
    && |h.heard| == |h.origin|
    && (forall i :: 0 <= i < |h.origin| ==> GAP <= h.origin[i] < h.head)
    && (forall i :: 0 <= i < |h.origin| ==>
          h.heard[i] == if h.origin[i] == GAP then SILENCE else h.accepted[h.origin[i]])
    && (forall i, j :: 0 <= i < j < |h.origin| && h.origin[i] != GAP && h.origin[j] != GAP ==>
          h.origin[i] < h.origin[j])
  }

  /** Nothing that left the queue was lost. */
  ghost predicate NothingLost(h: History) {
    forall k :: 0 <= k < h.head ==> k in h.origin
  }

  lemma RecordKeepsQueue(h: History, half: nat, op: Op)
    requires HeardIsFifo(h)
    ensures var h' := Record(h, half, op);
      h'.head <= |h'.accepted| && h'.now.queue == h'.accepted[h'.head..] && h.accepted <= h'.accepted
  {
    var h' := Record(h, half, op);
    assert h.head <= |h.accepted| && h.now.queue == h.accepted[h.head..];
    match op {
      case Refill(input) =>
        assert h'.accepted[h'.head..] == h.accepted[h.head..] + Accepted(h.now, half, op);
      case _ =>
        assert h'.accepted == h.accepted;
        assert h.accepted[h'.head..] == h.accepted[h.head..][h'.head - h.head..];
    }
  }

  lemma RecordKeepsFifo(h: History, half: nat, op: Op)
    requires HeardIsFifo(h)
    ensures HeardIsFifo(Record(h, half, op))
  {
    RecordKeepsQueue(h, half, op);
    var h' := Record(h, half, op);
    assert |h'.heard| == |h'.origin|;
    forall i | |h.origin| <= i < |h'.origin|
      ensures h'.origin[i] == GAP || h'.origin[i] == h.head + (i - |h.origin|) < h'.head
      ensures h'.heard[i] == if h'.origin[i] == GAP then SILENCE else h'.accepted[h'.origin[i]]
    {
      RecordHears(h, half, op, i - |h.origin|);
    }
  }

  /** The j-th frame an operation plays is the j-th queued frame, or silence. */
  lemma RecordHears(h: History, half: nat, op: Op, j: nat)
    requires HeardIsFifo(h) && j < |Origins(h, op)|
    ensures var h' := Record(h, half, op);
            var k := Origins(h, op)[j];
            && h'.origin[|h.origin| + j] == k && h'.heard[|h.heard| + j] == Output(h.now, op)[j]
            && (k == GAP || k == h.head + j < h'.head)
            && Output(h.now, op)[j] == if k == GAP then SILENCE else h.accepted[k]
  {
  }

  lemma RecordLosesNothing(h: History, half: nat, op: Op)
    requires NothingLost(h) && !Flushes(h.now, op)
    ensures NothingLost(Record(h, half, op))
  {
    var h' := Record(h, half, op);
    forall k | 0 <= k < h'.head
      ensures k in h'.origin
    {
      if k < h.head {
        assert k in h.origin;
      } else {
        assert Origins(h, op)[k - h.head] == k;
      }
    }
  }

  /** First in, first out, over every run: each accepted frame is heard at most once, in the
      order of acceptance, everything else is silence, and what has not left the queue is
      still in it. */
  lemma {:induction false} FirstInFirstOut(half: nat, ops: seq<Op>)
    ensures HeardIsFifo(Run(half, ops))
    decreases |ops|
  {
    if ops == [] {
    } else {
      FirstInFirstOut(half, ops[..|ops| - 1]);
      RecordKeepsFifo(Run(half, ops[..|ops| - 1]), half, ops[|ops| - 1]);
    }
  }

  /** Without a flush no accepted frame is skipped. */
  lemma {:induction false} EveryFrameIsHeard(half: nat, ops: seq<Op>)
    requires NeverFlushes(half, ops)
    ensures NothingLost(Run(half, ops))
    decreases |ops|
  {
    if ops == [] {
    } else {
      var before := ops[..|ops| - 1];
      forall i | 0 <= i < |before|
        ensures !Flushes(Run(half, before[..i]).now, before[i])
      {
        assert before[..i] == ops[..i];
      }
      EveryFrameIsHeard(half, before);
      RecordLosesNothing(Run(half, before), half, ops[|ops| - 1]);
    }
  }

  /** However a run goes, the queue never holds more than the two halves. */
  lemma {:induction false} QueueFitsTheBuffer(half: nat, ops: seq<Op>)
    ensures |Run(half, ops).now.queue| <= 2 * half
    decreases |ops|
  {
    if ops == [] {
    } else {
      QueueFitsTheBuffer(half, ops[..|ops| - 1]);
    }
  }
}
