/** The audio buffer shared by the program, which refills it, and the device thread, which
    reads it. Each method runs under the audio mutex, so each is one atomic step. */
module AudioBuffers {

  import opened FrameQueue
  import opened Loops
  import opened Modular

  datatype Usage = Static | Streaming

  /** The frames a stream still has to play: from the cursor to the end of its half, then the
      other half, as far as they are not marked as processed. */
  function PendingOf(half: nat, data: seq<Frame>, processed0: bool, processed1: bool, cursor: nat): seq<Frame>
    requires |data| == 2 * half && cursor < 2 * half
  {
    if processed0 && processed1 then []
    else if cursor < half then data[cursor..half] + (if processed1 then [] else data[half..])
    else data[cursor..] + (if processed0 then [] else data[..half])
  }

  /** Unless both halves are processed, the half holding the cursor is not. */
  predicate CursorIsPending(half: nat, processed0: bool, processed1: bool, cursor: nat) {
    (processed0 && processed1) || (if cursor < half then !processed0 else !processed1)
  }

  /** Which half a refill writes. */
  function HalfToRefill(processed0: bool): nat {
    if processed0 then 0 else 1
  }

  lemma NothingPending(half: nat, data: seq<Frame>)
    requires |data| == 2 * half
    ensures forall cursor: nat :: cursor < 2 * half ==> PendingOf(half, data, true, true, cursor) == []
  {
  }

  /** A refill appends to what is pending: whichever half is free comes after everything
      that still waits, and the waiting frames are not touched. */
  lemma RefillAppends(half: nat, data: seq<Frame>, data': seq<Frame>, processed0: bool, processed1: bool,
                      cursor: nat, block: seq<Frame>)
    requires |data| == |data'| == 2 * half && cursor < 2 * half && |block| == half
    requires processed0 || processed1
    requires CursorIsPending(half, processed0, processed1, cursor)
    requires data' == if processed0 then block + data[half..] else data[..half] + block
    ensures var cursor' := if processed0 && processed1 then 0 else cursor;
            var processed0' := processed0 && HalfToRefill(processed0) != 0;
            var processed1' := processed1 && HalfToRefill(processed0) != 1;
            && CursorIsPending(half, processed0', processed1', cursor')
            && PendingOf(half, data', processed0', processed1', cursor')
               == PendingOf(half, data, processed0, processed1, cursor) + block
  {
  }

  /** A half is free exactly when at most one half's worth of frames is pending. */
  lemma FreeHalf(half: nat, data: seq<Frame>, processed0: bool, processed1: bool, cursor: nat)
    requires |data| == 2 * half && cursor < 2 * half
    requires CursorIsPending(half, processed0, processed1, cursor)
    ensures processed0 || processed1 <==> |PendingOf(half, data, processed0, processed1, cursor)| <= half
  {
  }

  /** One pass of the read loop takes frames from the front of what is pending: up to the
      end of the cursor's half, which is then handed back for refilling. */
  lemma PassTakesFront(half: nat, data: seq<Frame>, processed0: bool, processed1: bool, cursor: nat, k: nat)
    requires |data| == 2 * half && cursor < 2 * half
    requires CursorIsPending(half, processed0, processed1, cursor) && !(processed0 && processed1)
    requires k <= if cursor < half then half - cursor else 2 * half - cursor
    ensures var whole := k == if cursor < half then half - cursor else 2 * half - cursor;
            var cursor' := if cursor + k == 2 * half then 0 else cursor + k;
            var processed0' := processed0 || (whole && cursor < half);
            var processed1' := processed1 || (whole && half <= cursor);
            var queue := PendingOf(half, data, processed0, processed1, cursor);
            && k <= |queue|
            && data[cursor..cursor + k] == queue[..k]
            && CursorIsPending(half, processed0', processed1', cursor')
            && PendingOf(half, data, processed0', processed1', cursor') == queue[k..]
  {
    if cursor < half {
      assert data[cursor..half][k..] == data[cursor + k..half];
    } else {
      assert data[cursor..][k..] == data[cursor + k..];
    }
  }

  /** The same, in terms of everything that was pending when the read started. */
  lemma PassReads(half: nat, data: seq<Frame>, processed0: bool, processed1: bool, cursor: nat,
                  queue: seq<Frame>, out: seq<Frame>, k: nat)
    requires |data| == 2 * half && cursor < 2 * half
    requires CursorIsPending(half, processed0, processed1, cursor) && !(processed0 && processed1)
    requires queue == out + PendingOf(half, data, processed0, processed1, cursor)
    requires k <= if cursor < half then half - cursor else 2 * half - cursor
    ensures var whole := k == if cursor < half then half - cursor else 2 * half - cursor;
            var cursor' := if cursor + k == 2 * half then 0 else cursor + k;
            var processed0' := processed0 || (whole && cursor < half);
            var processed1' := processed1 || (whole && half <= cursor);
            && CursorIsPending(half, processed0', processed1', cursor')
            && queue == (out + data[cursor..cursor + k]) + PendingOf(half, data, processed0', processed1', cursor')
  {
    hide PendingOf, CursorIsPending;
    PassTakesFront(half, data, processed0, processed1, cursor, k);
  }

  /** A read ends with the requested count, or with nothing left to play. */
  lemma ReadEnds(queue: seq<Frame>, out: seq<Frame>, rest: seq<Frame>, n: nat)
    requires queue == out + rest && |out| <= n
    requires |out| == n || rest == []
    ensures out == queue[..Min(n, |queue|)] && rest == queue[|out|..]
  {
  }

  /** The index of the half holding the cursor. */
  function HalfIndex(half: nat, cursor: nat): (index: nat)
    requires 0 < half
    ensures cursor < 2 * half ==> index == if cursor < half then 0 else 1
    ensures index > 1 <==> 2 * half <= cursor
  {
    assert half * (cursor / half) + cursor % half == cursor;
    if 2 * half <= cursor then AtLeastTwo(half, cursor); cursor / half else cursor / half
  }

  lemma AtLeastTwo(half: nat, cursor: nat)
    requires 0 < half && 2 * half <= cursor
    ensures cursor / half >= 2
  {
  }

  /** The cursor after reading k frames of a buffer that wraps around. */
  function NextCursor(size: nat, cursor: nat, k: nat): (next: nat)
    requires 0 < size
    ensures cursor < size && cursor + k <= size ==> next == if cursor + k == size then 0 else cursor + k
  {
    Modular.Wrap(cursor + k, size)
  }

  /** A sound whose size is odd cannot be read from its last frame: the index of the half
      computed for it is 2. */
  predicate SoundStuck(size: nat, cursor: nat) {
    1 < size && 2 * (size / 2) <= cursor
  }

  lemma StuckExactly(size: nat, cursor: nat)
    requires cursor < size
    ensures SoundStuck(size, cursor) <==> size % 2 == 1 && 1 < size && cursor == size - 1
  {
  }

  /** The next frames of a sound: round and round when it loops, up to its end otherwise. */
  function SoundAhead(data: seq<Frame>, looping: bool, cursor: nat, n: nat): (ahead: seq<Frame>)
    requires cursor < |data|
    ensures |ahead| <= n
  {
    if looping then LoopFrom(data, cursor, n)
    else data[cursor..cursor + Min(n, |data| - cursor)]
  }

  function SoundCursor(size: nat, looping: bool, cursor: nat, n: nat): nat
    requires cursor < size
  {
    if looping then Modular.Wrap(cursor + n, size) else if size - cursor <= n then 0 else cursor + n
  }

  /** Frame by frame, and where the cursor is then: at the start again after the end of a sound. */
  lemma SoundFrames(data: seq<Frame>, cursor: nat, n: nat)
    requires cursor < |data|
    ensures var ahead := SoundAhead(data, true, cursor, n);
            |ahead| == n && forall i :: 0 <= i < n ==> ahead[i] == data[(cursor + i) % |data|]
    ensures SoundCursor(|data|, true, cursor, n) == (cursor + n) % |data|
    ensures n < |data| - cursor ==>
              SoundAhead(data, false, cursor, n) == data[cursor..cursor + n]
              && SoundCursor(|data|, false, cursor, n) == cursor + n
    ensures |data| - cursor <= n ==>
              SoundAhead(data, false, cursor, n) == data[cursor..] && SoundCursor(|data|, false, cursor, n) == 0
  {
    LoopFrames(data, cursor, n);
    hide LoopFrom;
  }

  /** One pass over a sound continues where the last one ended. */
  lemma SoundPass(data: seq<Frame>, looping: bool, cursor: nat, done: nat, k: nat)
    requires cursor < |data| && (!looping ==> cursor + done < |data|)
    requires SoundCursor(|data|, looping, cursor, done) + k <= |data|
    ensures var at := SoundCursor(|data|, looping, cursor, done);
            && at < |data| && (!looping ==> at == cursor + done)
            && |SoundAhead(data, looping, cursor, done)| == done
            && SoundAhead(data, looping, cursor, done + k) == SoundAhead(data, looping, cursor, done) + data[at..at + k]
            && SoundCursor(|data|, looping, cursor, done + k) == NextCursor(|data|, at, k)
  {
    if looping {
      Modular.WrapWrap(cursor + done, |data|);
      Modular.WrapShift(cursor + done, Modular.Wrap(cursor + done, |data|), k, |data|);
      hide Modular.Wrap;
      LoopingPass(data, cursor, done, k);
    }
  }

  lemma SoundStarts(data: seq<Frame>, looping: bool, cursor: nat)
    requires cursor < |data|
    ensures SoundAhead(data, looping, cursor, 0) == [] && SoundCursor(|data|, looping, cursor, 0) == cursor
  {
  }

  lemma LoopingPass(data: seq<Frame>, cursor: nat, done: nat, k: nat)
    requires cursor < |data| && Modular.Wrap(cursor + done, |data|) + k <= |data|
    ensures var at := Modular.Wrap(cursor + done, |data|);
            LoopFrom(data, cursor, done + k) == LoopFrom(data, cursor, done) + data[at..at + k]
  {
    hide LoopFrame, LoopFrom;
    LoopInPieces(data, cursor, done, k);
    ReducedPosition(data, cursor + done, k);
    Stretch(data, Modular.Wrap(cursor + done, |data|), k);
  }

  /** Whether Play leaves the frames that wait, and the cursor's half, as they were. */
  predicate PlayKeeps(half: nat, data: seq<Frame>, processed0: bool, processed1: bool, cursor: nat)
    requires |data| == 2 * half && cursor < 2 * half
  {
    && CursorIsPending(half, processed0, processed1, 0)
    && PendingOf(half, data, processed0, processed1, 0) == PendingOf(half, data, processed0, processed1, cursor)
  }

  /** Play moves the cursor to the front and leaves the flags alone. That is harmless for
      every content of the buffer exactly when the cursor is there already or nothing waits. */
  lemma PlayKeepsExactly(half: nat, processed0: bool, processed1: bool, cursor: nat)
    requires 0 < half && cursor < 2 * half && CursorIsPending(half, processed0, processed1, cursor)
    ensures (forall data: seq<Frame> | |data| == 2 * half :: PlayKeeps(half, data, processed0, processed1, cursor))
            <==> cursor == 0 || (processed0 && processed1)
  {
    if cursor != 0 && !(processed0 && processed1) {
      var data := seq(2 * half, i => if i < half then 0 else 1);
      if !processed0 && cursor == half {
        assert PendingOf(half, data, processed0, processed1, 0)[0] == 0;
        assert PendingOf(half, data, processed0, processed1, cursor)[0] == 1;
      }
      assert !PlayKeeps(half, data, processed0, processed1, cursor);
    }
  }

  /** One read of a looping sound: what it plays and where it leaves the cursor. */
  function LoopRead(data: seq<Frame>, cursor: nat, n: nat): (read: (seq<Frame>, nat))
    requires cursor < |data|
    ensures read.1 < |data|
  {
    if SoundStuck(|data|, cursor) then ([], cursor)
    else (SoundAhead(data, true, cursor, n), SoundCursor(|data|, true, cursor, n))
  }

  /** Two reads of a looping sound, one after the other. */
  function LoopReadTwice(data: seq<Frame>, cursor: nat, m: nat, n: nat): (seq<Frame>, nat)
    requires cursor < |data|
  {
    var first := LoopRead(data, cursor, m);
    var second := LoopRead(data, first.1, n);
    (first.0 + second.0, second.1)
  }

  /** Slicing a read of a looping sound in two changes nothing, except when the first slice
      ends on the last frame of a sound of odd size, which the second cannot read. */
  lemma LoopChunksExactly(data: seq<Frame>, cursor: nat, m: nat, n: nat)
    requires cursor < |data|
    ensures LoopReadTwice(data, cursor, m, n) == LoopRead(data, cursor, m + n)
            <==> SoundStuck(|data|, cursor) || n == 0 || !SoundStuck(|data|, SoundCursor(|data|, true, cursor, m))
  {
    if SoundStuck(|data|, cursor) {
      var nothing: seq<Frame> := [];
      assert nothing + nothing == nothing;
    } else if SoundStuck(|data|, SoundCursor(|data|, true, cursor, m)) {
      LoopChunksStuck(data, cursor, m, n);
    } else {
      LoopChunksFree(data, cursor, m, n);
    }
  }

  lemma LoopChunksStuck(data: seq<Frame>, cursor: nat, m: nat, n: nat)
    requires cursor < |data| && !SoundStuck(|data|, cursor) && SoundStuck(|data|, SoundCursor(|data|, true, cursor, m))
    ensures LoopReadTwice(data, cursor, m, n) == LoopRead(data, cursor, m + n) <==> n == 0
  {
    var at := SoundCursor(|data|, true, cursor, m);
    assert LoopRead(data, at, n) == ([], at);
    assert SoundAhead(data, true, cursor, m) + [] == SoundAhead(data, true, cursor, m);
    assert |LoopRead(data, cursor, m).0| == m && |LoopRead(data, cursor, m + n).0| == m + n;
  }

  lemma LoopChunksFree(data: seq<Frame>, cursor: nat, m: nat, n: nat)
    requires cursor < |data| && !SoundStuck(|data|, cursor) && !SoundStuck(|data|, SoundCursor(|data|, true, cursor, m))
    ensures LoopReadTwice(data, cursor, m, n) == LoopRead(data, cursor, m + n)
  {
    AheadInChunks(data, cursor, m, n);
    hide SoundAhead, SoundCursor;
  }

  lemma AheadInChunks(data: seq<Frame>, cursor: nat, m: nat, n: nat)
    requires cursor < |data|
    ensures SoundAhead(data, true, cursor, m + n)
            == SoundAhead(data, true, cursor, m) + SoundAhead(data, true, SoundCursor(|data|, true, cursor, m), n)
    ensures SoundCursor(|data|, true, cursor, m + n)
            == SoundCursor(|data|, true, SoundCursor(|data|, true, cursor, m), n)
  {
    hide LoopFrame, LoopFrom;
    Modular.WrapWrap(cursor + m, |data|);
    Modular.WrapShift(cursor + m, Modular.Wrap(cursor + m, |data|), n, |data|);
    hide Modular.Wrap;
    LoopInPieces(data, cursor, m, n);
    ReducedPosition(data, cursor + m, n);
  }

  /** What a refill appends, frame by frame. */
  lemma RefillFrames(s: Stream, half: nat, input: seq<Frame>, frameCount: int)
    requires -0x8000_0000 <= frameCount < 0x8000_0000 && frameCount <= |input| && half < 0x8000_0000
    ensures var block := if frameCount < 0 then Silence(TWO_TO_THE_32 + frameCount) else input[..frameCount];
            var queue := Step(s, half, Refill(block)).queue;
            if 0 <= frameCount <= half && |s.queue| <= half
            then |queue| == |s.queue| + half && s.queue <= queue
                 && forall i :: 0 <= i < half ==> queue[|s.queue| + i] == if i < frameCount then input[i] else 0
            else queue == s.queue
  {
    if 0 <= frameCount <= half { PaddedFrames(input[..frameCount], half); }
    hide Padded;
  }

  datatype SoundState = SoundState(looping: bool, playing: bool, paused: bool, cursor: nat, processed: nat)

  class AudioBuffer {
    const usage: Usage
    const sizeInFrames: nat
    const frameSizeInBytes: nat
    const data: array<Frame>
    var isSubBufferProcessed0: bool
    var isSubBufferProcessed1: bool
    var playing: bool
    var paused: bool
    var looping: bool
    var frameCursorPos: nat
    var framesProcessed: nat

    ghost predicate Valid()
      reads this
    {
      && data.Length == sizeInFrames < TWO_TO_THE_32
      && frameCursorPos <= sizeInFrames
      && (0 < sizeInFrames ==> frameCursorPos < sizeInFrames)
      && framesProcessed < TWO_TO_THE_32
      && 0 < frameSizeInBytes
    }

    /** What LoadAudioStream sets up and every stream operation keeps. */
    ghost predicate IsStream()
      reads this
    {
      && Valid()
      && usage == Streaming && looping
      && 0 < sizeInFrames && sizeInFrames % 2 == 0
      && CursorIsPending(Half(), isSubBufferProcessed0, isSubBufferProcessed1, frameCursorPos)
      && (!playing ==> frameCursorPos == 0)
    }

    /** Between a seek and the next refill, and only then, the cursor may stand inside a half
        although no half waits. */
    ghost predicate Settled()
      reads this
    {
      isSubBufferProcessed0 && isSubBufferProcessed1 ==> frameCursorPos == 0 || frameCursorPos == Half()
    }

    ghost predicate IsSound()
      reads this
    {
      Valid() && usage == Static && 0 < sizeInFrames && isSubBufferProcessed0 && isSubBufferProcessed1
    }

    function Half(): nat {
      sizeInFrames / 2
    }

    ghost function Pending(): seq<Frame>
      reads this, data
      requires IsStream()
    {
      PendingOf(Half(), data[..], isSubBufferProcessed0, isSubBufferProcessed1, frameCursorPos)
    }

    /** The simple machine this stream is an implementation of. */
    ghost function Abstract(): Stream
      reads this, data
      requires IsStream()
    {
      Stream(Pending(), playing, paused)
    }

    constructor (size: nat, frameSize: nat, use: Usage)
      requires size < TWO_TO_THE_32 && 0 < frameSize
      ensures Valid() && fresh(data)
      ensures sizeInFrames == size && frameSizeInBytes == frameSize && usage == use && data[..] == Silence(size)
      ensures !playing && !paused && !looping && frameCursorPos == 0 && framesProcessed == 0
      ensures isSubBufferProcessed0 && isSubBufferProcessed1
    {
      usage := use;
      sizeInFrames := size;
      frameSizeInBytes := frameSize;
      data := new Frame[size](_ => SILENCE);
      isSubBufferProcessed0, isSubBufferProcessed1 := true, true;
      playing, paused, looping := false, false, false;
      frameCursorPos, framesProcessed := 0, 0;
      new;
      assert data[..] == Silence(size);
    }

    predicate IsPlayingInLockedState()
      reads this
    {
      playing && !paused
    }

    method PlayAudioBuffer()
      requires Valid()
      modifies this`playing, this`paused, this`frameCursorPos
      ensures Valid() && playing && !paused && frameCursorPos == 0 && Settled()
      ensures old(IsStream()) && (old(frameCursorPos) == 0 || (isSubBufferProcessed0 && isSubBufferProcessed1)) ==>
                IsStream() && Abstract() == Step(old(Abstract()), Half(), Play)
    {
      playing := true;
      paused := false;
      frameCursorPos := 0;
    }

    method PauseAudioBuffer()
      requires Valid()
      modifies this`paused
      ensures Valid() && paused
      ensures old(IsStream()) ==> IsStream() && Abstract() == Step(old(Abstract()), Half(), Pause)
    {
      paused := true;
    }

    method ResumeAudioBuffer()
      requires Valid()
      modifies this`paused
      ensures Valid() && !paused
      ensures old(IsStream()) ==> IsStream() && Abstract() == Step(old(Abstract()), Half(), Resume)
    {
      paused := false;
    }

    /** Only an unpaused buffer is stopped. */
    method StopAudioBufferInLockedState()
      requires Valid()
      modifies this
      ensures Valid() && looping == old(looping)
      ensures old(IsPlayingInLockedState()) ==>
                && !playing && !paused && frameCursorPos == 0 && framesProcessed == 0
                && isSubBufferProcessed0 && isSubBufferProcessed1
      ensures !old(IsPlayingInLockedState()) ==> unchanged(this)
    {
      if IsPlayingInLockedState() {
        playing := false;
        paused := false;
        frameCursorPos := 0;
        framesProcessed := 0;
        isSubBufferProcessed0 := true;
        isSubBufferProcessed1 := true;
      }
    }

    method StopAudioBuffer()
      requires IsStream()
      modifies this
      ensures IsStream() && Abstract() == Step(old(Abstract()), Half(), Stop)
      ensures framesProcessed == if Active(old(Abstract())) then 0 else old(framesProcessed)
      ensures !Active(old(Abstract())) ==> unchanged(this)
      ensures Active(old(Abstract())) || old(Settled()) ==> Settled()
    {
      StopAudioBufferInLockedState();
    }

    /** The buffer half of a seek: the decoder has already been moved to the position. */
    method SeekBuffer(position: nat)
      requires Valid() && position < TWO_TO_THE_32
      modifies this`framesProcessed, this`isSubBufferProcessed0, this`isSubBufferProcessed1
      ensures Valid() && framesProcessed == position && isSubBufferProcessed0 && isSubBufferProcessed1
      ensures frameCursorPos == old(frameCursorPos)
      ensures old(IsStream()) ==> IsStream() && Abstract() == Step(old(Abstract()), Half(), Seek(position))
    {
      framesProcessed := position;
      isSubBufferProcessed0 := true;
      isSubBufferProcessed1 := true;
    }

    lemma FreeHalfFits()
      requires IsStream()
      ensures isSubBufferProcessed0 || isSubBufferProcessed1 <==> |Pending()| <= Half()
    {
    }

    method IsAudioStreamProcessed() returns (free: bool)
      requires IsStream()
      ensures free <==> |Pending()| <= Half()
    {
      free := isSubBufferProcessed0 || isSubBufferProcessed1;
    }

    /** Refills one free half. A block larger than a half is refused, but still counted. */
    method UpdateAudioStreamInLockedState(input: seq<Frame>, frameCount: int)
      requires IsStream()
      requires -0x8000_0000 <= frameCount < 0x8000_0000 && frameCount <= |input|
      modifies this`frameCursorPos, this`framesProcessed, this`isSubBufferProcessed0, this`isSubBufferProcessed1, data
      ensures IsStream()
      ensures var block := if frameCount < 0 then Silence(TWO_TO_THE_32 + frameCount) else input[..frameCount];
              Abstract() == Step(old(Abstract()), Half(), Refill(block))
      ensures old(Settled()) || |old(Pending())| <= Half() ==> Settled()
      ensures if 0 <= frameCount <= Half() && old(isSubBufferProcessed0)
              then !isSubBufferProcessed0 && isSubBufferProcessed1 == old(isSubBufferProcessed1)
              else if 0 <= frameCount <= Half()
              then !isSubBufferProcessed1 && isSubBufferProcessed0 == old(isSubBufferProcessed0)
              else isSubBufferProcessed0 == old(isSubBufferProcessed0) &&
                   isSubBufferProcessed1 == old(isSubBufferProcessed1)
      ensures framesProcessed == if |old(Pending())| <= Half()
                                 then (old(framesProcessed) + Half()) % TWO_TO_THE_32 else old(framesProcessed)
    {
      ghost var before, p0, p1, c := data[..], isSubBufferProcessed0, isSubBufferProcessed1, frameCursorPos;
      FreeHalf(Half(), before, p0, p1, c);
      if isSubBufferProcessed0 || isSubBufferProcessed1 {
        var subBufferToUpdate := 0;
        if isSubBufferProcessed0 && isSubBufferProcessed1 {
          frameCursorPos := 0;
        } else {
          subBufferToUpdate := if isSubBufferProcessed0 then 0 else 1;
        }
        var subBufferSizeInFrames := sizeInFrames / 2;
        var subBuffer := subBufferSizeInFrames * subBufferToUpdate;
        framesProcessed := (framesProcessed + subBufferSizeInFrames) % TWO_TO_THE_32;
        var framesToWrite := if frameCount < 0 then TWO_TO_THE_32 + frameCount else frameCount;
        if subBufferSizeInFrames >= framesToWrite {
          WriteHalf(subBuffer, input, framesToWrite);
          RefillAppends(Half(), before, data[..], p0, p1, c, Padded(input[..framesToWrite], Half()));
          if subBufferToUpdate == 0 { isSubBufferProcessed0 := false; } else { isSubBufferProcessed1 := false; }
        }
      }
    }

    /** The same under the audio mutex: behind what waits come the data and then silence, up to a half. */
    method UpdateAudioStream(input: seq<Frame>, frameCount: int)
      requires IsStream()
      requires -0x8000_0000 <= frameCount < 0x8000_0000 && frameCount <= |input|
      modifies this`frameCursorPos, this`framesProcessed, this`isSubBufferProcessed0, this`isSubBufferProcessed1, data
      ensures IsStream()
      ensures var block := if frameCount < 0 then Silence(TWO_TO_THE_32 + frameCount) else input[..frameCount];
              Abstract() == Step(old(Abstract()), Half(), Refill(block))
      ensures old(Settled()) || |old(Pending())| <= Half() ==> Settled()
      ensures if 0 <= frameCount <= Half() && old(isSubBufferProcessed0)
              then !isSubBufferProcessed0 && isSubBufferProcessed1 == old(isSubBufferProcessed1)
              else if 0 <= frameCount <= Half()
              then !isSubBufferProcessed1 && isSubBufferProcessed0 == old(isSubBufferProcessed0)
              else isSubBufferProcessed0 == old(isSubBufferProcessed0) &&
                   isSubBufferProcessed1 == old(isSubBufferProcessed1)
      ensures framesProcessed == if |old(Pending())| <= Half()
                                 then (old(framesProcessed) + Half()) % TWO_TO_THE_32 else old(framesProcessed)
      ensures 0 <= frameCount <= Half() && |old(Pending())| <= Half() ==>
                && |Pending()| == |old(Pending())| + Half() && old(Pending()) <= Pending()
                && forall i :: 0 <= i < Half() ==>
                     Pending()[|old(Pending())| + i] == if i < frameCount then input[i] else 0
      ensures !(0 <= frameCount <= Half()) || Half() < |old(Pending())| ==> Pending() == old(Pending())
    {
      ghost var queue, half := Pending(), Half();
      hide *;
      UpdateAudioStreamInLockedState(input, frameCount);
      StreamParts();
      RefillFrames(old(Abstract()), half, input, frameCount);
    }

    lemma StreamParts()
      requires IsStream()
      ensures Abstract().queue == Pending() && Half() == sizeInFrames / 2
    {
    }

    /** The memcpy and memset of a refill: the data, then zeros to the end of the half. */
    method WriteHalf(subBuffer: nat, input: seq<Frame>, framesToWrite: nat)
      requires data.Length == 2 * Half() && (subBuffer == 0 || subBuffer == Half())
      requires framesToWrite <= |input| && framesToWrite <= Half()
      modifies data
      ensures var block := Padded(input[..framesToWrite], Half());
              data[..] == if subBuffer == 0 then block + old(data[Half()..]) else old(data[..Half()]) + block
      ensures forall i :: 0 <= i < data.Length ==>
                data[i] == if i < subBuffer || subBuffer + Half() <= i then old(data[i])
                           else if i < subBuffer + framesToWrite then input[i - subBuffer] else 0
    {
      forall i | 0 <= i < framesToWrite {
        data[subBuffer + i] := input[i];
      }
      forall i | framesToWrite <= i < Half() {
        data[subBuffer + i] := SILENCE;
      }
    }

    /** Reads frames for the device thread, without format conversion. The loop tests the
        usage three times in each pass; it is written out once for each usage below. */
    method ReadAudioBufferFramesInInternalFormat(frameCount: nat)
      returns (framesOut: seq<Frame>, framesRead: nat)
      requires (IsStream() && playing) || IsSound()
      modifies this
      ensures looping == old(looping)
      ensures old(IsStream()) ==>
                && IsStream() && framesRead == frameCount
                && framesOut == Heard(old(Pending()), frameCount)
                && Pending() == Left(old(Pending()), frameCount)
                && playing && paused == old(paused) && framesProcessed == old(framesProcessed)
                && (old(Settled()) ==> Settled()) && (old(Pending()) == [] ==> frameCursorPos == old(frameCursorPos))
      ensures old(IsSound()) ==> IsSound()
      ensures old(IsSound() && SoundStuck(sizeInFrames, frameCursorPos)) ==>
                framesRead == 0 && framesOut == [] && unchanged(this)
      ensures old(IsSound() && !SoundStuck(sizeInFrames, frameCursorPos)) ==>
                && SoundReadTo(old(Sound()), frameCount)
                && framesRead == |SoundAhead(data[..], looping, old(frameCursorPos), frameCount)|
                && framesOut == SoundAhead(data[..], looping, old(frameCursorPos), frameCount)
                                + Silence(frameCount - framesRead)
    {
      hide SoundAhead, SoundReadTo, PendingOf, CursorIsPending, HalfIndex;
      var subBufferSizeInFrames := if sizeInFrames > 1 then sizeInFrames / 2 else sizeInFrames;
      var currentSubBufferIndex := HalfIndex(subBufferSizeInFrames, frameCursorPos);
      if currentSubBufferIndex > 1 {
        return [], 0;
      }
      if usage == Static {
        framesOut := ReadSound(frameCount);
      } else {
        framesOut := ReadStream(frameCount);
      }
      framesRead := |framesOut|;
      var totalFramesRemaining := frameCount - framesRead;
      if totalFramesRemaining > 0 {
        framesOut := framesOut + Silence(totalFramesRemaining);
        if usage != Static { framesRead := framesRead + totalFramesRemaining; }
      }
    }

    /** The state a sound is in after a read of n frames that was not stuck: sound0 is its
        state before. */
    ghost predicate SoundReadTo(sound0: SoundState, n: nat)
      reads this
    {
      && 0 < sizeInFrames && sound0.cursor < sizeInFrames && looping == sound0.looping
      && frameCursorPos == SoundCursor(sizeInFrames, looping, sound0.cursor, n)
      && (if !looping && sound0.playing && !sound0.paused && sizeInFrames - sound0.cursor <= n
          then !playing && !paused && framesProcessed == 0
          else playing == sound0.playing && paused == sound0.paused && framesProcessed == sound0.processed)
    }

    ghost function Sound(): SoundState
      reads this
    {
      SoundState(looping, playing, paused, frameCursorPos, framesProcessed)
    }

    /** The read loop of a stream: halves marked as processed are not played. */
    method ReadStream(frameCount: nat) returns (framesOut: seq<Frame>)
      requires IsStream() && playing
      modifies this`frameCursorPos, this`isSubBufferProcessed0, this`isSubBufferProcessed1
      ensures IsStream()
      ensures framesOut == old(Pending())[..Min(frameCount, |old(Pending())|)]
      ensures Pending() == old(Pending())[|framesOut|..]
      ensures old(Settled()) ==> Settled()
      ensures old(Pending()) == [] ==> frameCursorPos == old(frameCursorPos)
    {
      ghost var queue := Pending();
      NothingPending(Half(), data[..]);
      hide HalfIndex, PendingOf;
      var subBufferSizeInFrames := if sizeInFrames > 1 then sizeInFrames / 2 else sizeInFrames;
      var currentSubBufferIndex := HalfIndex(subBufferSizeInFrames, frameCursorPos);
      framesOut := [];
      while true
        invariant IsStream() && currentSubBufferIndex <= 1 && |framesOut| <= frameCount
        invariant queue == framesOut + Pending()
        invariant old(Settled()) ==> Settled()
        invariant queue == [] ==> frameCursorPos == old(frameCursorPos)
        invariant !(isSubBufferProcessed0 && isSubBufferProcessed1) ==>
                    currentSubBufferIndex == if frameCursorPos < Half() then 0 else 1
        decreases frameCount - |framesOut|
      {
        if (if currentSubBufferIndex == 0 then isSubBufferProcessed0 else isSubBufferProcessed1) { break; }
        var totalFramesRemaining := frameCount - |framesOut|;
        if totalFramesRemaining == 0 { break; }
        var part;
        part, currentSubBufferIndex := StreamPass(currentSubBufferIndex, totalFramesRemaining, queue, framesOut);
        framesOut := framesOut + part;
      }
      ReadEnds(queue, framesOut, Pending(), frameCount);
    }

    /** One pass of the stream's loop: to the end of the half, or as far as is asked for. */
    method StreamPass(currentSubBufferIndex: nat, totalFramesRemaining: nat, ghost queue: seq<Frame>,
                      ghost out: seq<Frame>)
      returns (part: seq<Frame>, nextIndex: nat)
      requires IsStream() && playing && 0 < totalFramesRemaining
      requires !(isSubBufferProcessed0 && isSubBufferProcessed1)
      requires currentSubBufferIndex == if frameCursorPos < Half() then 0 else 1
      requires queue == out + Pending()
      modifies this`frameCursorPos, this`isSubBufferProcessed0, this`isSubBufferProcessed1
      ensures IsStream() && nextIndex <= 1 && 0 < |part| <= totalFramesRemaining
      ensures queue == (out + part) + Pending()
      ensures Settled()
      ensures !(isSubBufferProcessed0 && isSubBufferProcessed1) ==>
                nextIndex == if frameCursorPos < Half() then 0 else 1
    {
      hide NextCursor, PendingOf;
      var subBufferSizeInFrames := if sizeInFrames > 1 then sizeInFrames / 2 else sizeInFrames;
      var framesRemainingInOutputBuffer :=
        subBufferSizeInFrames - (frameCursorPos - (if currentSubBufferIndex == 0 then 0 else subBufferSizeInFrames));
      var framesToRead := totalFramesRemaining;
      if framesToRead > framesRemainingInOutputBuffer { framesToRead := framesRemainingInOutputBuffer; }
      PassReads(Half(), data[..], isSubBufferProcessed0, isSubBufferProcessed1, frameCursorPos, queue, out,
                framesToRead);
      part := data[frameCursorPos..frameCursorPos + framesToRead];
      frameCursorPos := NextCursor(sizeInFrames, frameCursorPos, framesToRead);
      nextIndex := currentSubBufferIndex;
      if framesToRead == framesRemainingInOutputBuffer {
        if currentSubBufferIndex == 0 { isSubBufferProcessed0 := true; } else { isSubBufferProcessed1 := true; }
        nextIndex := (currentSubBufferIndex + 1) % 2;
      }
    }

    /** The read loop of a sound: as much data as there is, and a stop at the end of a sound
        that does not loop. */
    method ReadSound(frameCount: nat) returns (framesOut: seq<Frame>)
      requires IsSound() && !SoundStuck(sizeInFrames, frameCursorPos)
      modifies this
      ensures IsSound() && looping == old(looping)
      ensures framesOut == SoundAhead(data[..], looping, old(frameCursorPos), frameCount)
      ensures SoundReadTo(old(Sound()), frameCount)
    {
      ghost var sound0 := Sound();
      var subBufferSizeInFrames := if sizeInFrames > 1 then sizeInFrames / 2 else sizeInFrames;
      var currentSubBufferIndex := HalfIndex(subBufferSizeInFrames, frameCursorPos);
      SoundStarts(data[..], looping, frameCursorPos);
      framesOut := [];
      assert SoundReadTo(sound0, 0);
      hide HalfIndex, SoundAhead, SoundStuck, SoundReadTo;
      var stopped := false;
      while |framesOut| < frameCount && !stopped
        invariant IsSound() && looping == old(looping) && |framesOut| <= frameCount && currentSubBufferIndex <= 1
        invariant framesOut == SoundAhead(data[..], looping, sound0.cursor, |framesOut|)
        invariant SoundReadTo(sound0, |framesOut|)
        invariant stopped ==> !looping
        invariant !looping ==> if stopped then sound0.cursor + |framesOut| == sizeInFrames
                               else sound0.cursor + |framesOut| < sizeInFrames
        decreases frameCount - |framesOut|
      {
        var part;
        part, stopped, currentSubBufferIndex :=
          SoundPart(sound0, framesOut, frameCount - |framesOut|, currentSubBufferIndex);
        framesOut := framesOut + part;
      }
      if stopped {
        SoundEnds(sound0, |framesOut|, frameCount);
      }
    }

    /** One pass of the sound's loop: to the end of the data, or as far as is asked for. */
    method SoundPart(ghost sound0: SoundState, ghost out: seq<Frame>, totalFramesRemaining: nat,
                     currentSubBufferIndex: nat)
      returns (part: seq<Frame>, stopped: bool, nextIndex: nat)
      requires IsSound() && 0 < totalFramesRemaining && currentSubBufferIndex <= 1
      requires sound0.cursor < sizeInFrames && SoundReadTo(sound0, |out|)
      requires !looping ==> sound0.cursor + |out| < sizeInFrames
      requires out == SoundAhead(data[..], looping, sound0.cursor, |out|)
      modifies this
      ensures IsSound() && looping == old(looping) && nextIndex <= 1 && 0 < |part| <= totalFramesRemaining
      ensures out + part == SoundAhead(data[..], looping, sound0.cursor, |out| + |part|)
      ensures SoundReadTo(sound0, |out| + |part|)
      ensures stopped ==> !looping
      ensures !looping ==> if stopped then sound0.cursor + |out| + |part| == sizeInFrames
                           else sound0.cursor + |out| + |part| < sizeInFrames && |part| == totalFramesRemaining
    {
      hide SoundAhead, NextCursor;
      var framesRemainingInOutputBuffer := sizeInFrames - frameCursorPos;
      var framesToRead := totalFramesRemaining;
      if framesToRead > framesRemainingInOutputBuffer { framesToRead := framesRemainingInOutputBuffer; }
      SoundPass(data[..], looping, sound0.cursor, |out|, framesToRead);
      hide SoundCursor;
      part := data[frameCursorPos..frameCursorPos + framesToRead];
      frameCursorPos := NextCursor(sizeInFrames, frameCursorPos, framesToRead);
      stopped, nextIndex := false, currentSubBufferIndex;
      if framesToRead == framesRemainingInOutputBuffer {
        if currentSubBufferIndex == 0 { isSubBufferProcessed0 := true; } else { isSubBufferProcessed1 := true; }
        nextIndex := (currentSubBufferIndex + 1) % 2;
        if !looping {
          StopAudioBufferInLockedState();
          stopped := true;
        }
      }
    }

    /** A sound that does not loop has nothing after its end. */
    lemma SoundEnds(sound0: SoundState, n: nat, m: nat)
      requires IsSound() && !looping && SoundReadTo(sound0, n)
      requires sound0.cursor + n == sizeInFrames && n <= m
      ensures SoundReadTo(sound0, m)
      ensures SoundAhead(data[..], looping, sound0.cursor, m) == SoundAhead(data[..], looping, sound0.cursor, n)
    {
    }
  }
}
