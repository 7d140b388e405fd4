/** The music player: it keeps an audio stream filled from a decoder, and tells the time. */
module MusicPlayer {

  import opened FrameQueue
  import opened Loops
  import opened AudioBuffers
  import Clock
  import opened Modular

  /** A decoder library's view of a song: its frames, and how far it has been read. */
  class Decoder {
    const song: seq<Frame>
    var pos: nat

    ghost predicate Valid()
      reads this
    {
      0 < |song| && pos <= |song|
    }

    constructor (frames: seq<Frame>)
      requires 0 < |frames|
      ensures Valid() && song == frames && pos == 0
    {
      song := frames;
      pos := 0;
    }

    /** Reads on, at most to the song's end. */
    method Read(n: nat) returns (out: seq<Frame>)
      requires Valid()
      modifies this
      ensures Valid() && |out| == Min(n, |song| - old(pos)) && pos == old(pos) + |out|
      ensures out == song[old(pos)..pos]
    {
      var k := Min(n, |song| - pos);
      out := song[pos..pos + k];
      pos := pos + k;
    }

    method SeekTo(position: nat)
      requires Valid()
      modifies this
      ensures Valid() && pos == Min(position, |song|)
    {
      pos := Min(position, |song|);
    }
  }

  /** Fills a block of n frames: reads to the song's end, goes back to its start and reads on,
      until the block is full. A read at the very end yields nothing and is not the last. */
  method FillBlock(decoder: Decoder, n: nat) returns (pcm: seq<Frame>)
    requires decoder.Valid()
    modifies decoder
    ensures decoder.Valid() && pcm == LoopFrom(decoder.song, old(decoder.pos), n)
    ensures Modular.Wrap(decoder.pos, |decoder.song|) == Modular.Wrap(old(decoder.pos) + n, |decoder.song|)
  {
    hide LoopFrame, LoopFrom;
    var frameCountStillNeeded := n;
    pcm := [];
    BlockStarts(decoder.song, decoder.pos);
    while true
      invariant decoder.Valid() && 0 <= frameCountStillNeeded && frameCountStillNeeded + |pcm| == n
      invariant pcm == LoopFrom(decoder.song, old(decoder.pos), |pcm|)
      invariant Modular.Wrap(decoder.pos, |decoder.song|) == Modular.Wrap(old(decoder.pos) + |pcm|, |decoder.song|)
      decreases frameCountStillNeeded, decoder.pos == |decoder.song|
    {
      ghost var at := decoder.pos;
      var out := decoder.Read(frameCountStillNeeded);
      BlockGrows(decoder.song, old(decoder.pos), |pcm|, at, |out|);
      pcm := pcm + out;
      frameCountStillNeeded := frameCountStillNeeded - |out|;
      if frameCountStillNeeded == 0 { break; }
      Modular.Unique(decoder.pos, |decoder.song|, 1, 0);
      decoder.SeekTo(0);
    }
  }

  lemma BlockStarts(song: seq<Frame>, at: nat)
    requires 0 < |song|
    ensures LoopFrom(song, at, 0) == []
  {
  }

  lemma BlockGrows(song: seq<Frame>, start: nat, done: nat, at: nat, k: nat)
    requires 0 < |song| && at + k <= |song| && Modular.Wrap(at, |song|) == Modular.Wrap(start + done, |song|)
    ensures LoopFrom(song, start, done + k) == LoopFrom(song, start, done) + song[at..at + k]
    ensures Modular.Wrap(at + k, |song|) == Modular.Wrap(start + (done + k), |song|)
  {
    hide LoopFrame, LoopFrom;
    LoopInPieces(song, start, done, k);
    SamePosition(song, at, start + done, k);
    Stretch(song, at, k);
    Modular.WrapShift(at, start + done, k, |song|);
  }

  class Music {
    const stream: AudioBuffer
    const decoder: Decoder
    const frameCount: nat
    var looping: bool
    /** The position, counted without ever wrapping, of the next frame to be queued. */
    ghost var queued: nat

    ghost predicate Ready()
      reads this, stream, decoder
    {
      && stream.IsStream() && decoder.Valid()
      && frameCount == |decoder.song| && frameCount + stream.sizeInFrames < 0x8000_0000
    }

    /** What waits in the stream is the stretch of the song that ends where the decoder is. */
    ghost predicate Fed()
      reads this, stream, stream.data, decoder
    {
      && Ready() && stream.framesProcessed + stream.sizeInFrames < 0x8000_0000
      && InStep(decoder.song, stream.Pending(), queued, decoder.pos)
    }

    /** The counter is there too, which it always is unless a seek went past the song's end. */
    ghost predicate Tuned()
      reads this, stream, stream.data, decoder
    {
      Fed() && CountsAlong(frameCount, queued, stream.framesProcessed)
    }

    /** The position of the next frame to be heard. */
    ghost function Playhead(): nat
      requires Fed()
      reads this, stream, stream.data, decoder
    {
      queued - |stream.Pending()|
    }

    constructor (s: AudioBuffer, d: Decoder, loop: bool)
      requires s.IsStream() && s.Abstract() == INITIAL && s.framesProcessed == 0
      requires d.Valid() && d.pos == 0 && |d.song| + s.sizeInFrames < 0x8000_0000
      ensures stream == s && decoder == d && looping == loop
      ensures Tuned() && Playhead() == 0
    {
      stream, decoder, looping, frameCount, queued := s, d, loop, |d.song|, 0;
    }

    /** Reads a block from the decoder and hands it to the stream. */
    method StreamBlock(framesToStream: nat)
      requires Ready() && framesToStream <= stream.Half()
      requires stream.isSubBufferProcessed0 || stream.isSubBufferProcessed1
      modifies stream, stream.data, decoder
      ensures Ready() && stream.Settled()
      ensures stream.playing == old(stream.playing) && stream.paused == old(stream.paused)
      ensures if old(stream.isSubBufferProcessed0)
              then !stream.isSubBufferProcessed0 && stream.isSubBufferProcessed1 == old(stream.isSubBufferProcessed1)
              else !stream.isSubBufferProcessed1 && stream.isSubBufferProcessed0 == old(stream.isSubBufferProcessed0)
      ensures stream.Pending() == old(stream.Pending())
                                  + Padded(LoopFrom(decoder.song, old(decoder.pos), framesToStream), stream.Half())
      ensures Modular.Wrap(decoder.pos, |decoder.song|)
              == Modular.Wrap(old(decoder.pos) + framesToStream, |decoder.song|)
      ensures stream.framesProcessed == (old(stream.framesProcessed) + stream.Half()) % TWO_TO_THE_32
    {
      hide LoopFrame, LoopFrom, PendingOf, CursorIsPending, Silence, Padded;
      stream.FreeHalfFits();
      var pcm := FillBlock(decoder, framesToStream);
      assert pcm[..framesToStream] == pcm;
      stream.UpdateAudioStreamInLockedState(pcm, framesToStream);
    }

    /** Refills one free half; says whether the song has ended with it. */
    method RefillHalf() returns (ended: bool)
      requires Fed() && (stream.isSubBufferProcessed0 || stream.isSubBufferProcessed1)
      modifies this`queued, stream, stream.data, decoder
      ensures Ready() && stream.Settled()
      ensures stream.playing == old(stream.playing) && stream.paused == old(stream.paused)
      ensures if old(stream.isSubBufferProcessed0)
              then !stream.isSubBufferProcessed0 && stream.isSubBufferProcessed1 == old(stream.isSubBufferProcessed1)
              else !stream.isSubBufferProcessed1 && stream.isSubBufferProcessed0 == old(stream.isSubBufferProcessed0)
      ensures ended == (FramesLeft(frameCount, old(stream.framesProcessed)) <= stream.Half() && !looping)
      ensures var block := if ended then FramesLeft(frameCount, old(stream.framesProcessed)) else stream.Half();
              stream.Pending() == old(stream.Pending())
                                  + Padded(LoopFrom(decoder.song, old(queued), block), stream.Half())
      ensures !ended ==> Fed() && queued == old(queued) + stream.Half() && (old(Tuned()) ==> Tuned())
      ensures stream.framesProcessed == Modular.Wrap(old(stream.framesProcessed) + stream.Half(), frameCount)
    {
      hide LoopFrame, LoopFrom, PendingOf, CursorIsPending, Modular.Wrap, Silence, Padded, InStep, CountsAlong,
           FramesLeft;
      ghost var song, queue, at, counter := decoder.song, stream.Pending(), decoder.pos, stream.framesProcessed;
      StepParts(song, queue, queued, at);
      var subBufferSizeInFrames := stream.sizeInFrames / 2;
      var framesLeft := FramesLeft(frameCount, stream.framesProcessed);
      var framesToStream := if framesLeft >= subBufferSizeInFrames || looping
                            then subBufferSizeInFrames else framesLeft;
      SamePosition(song, at, queued, framesToStream);
      StreamBlock(framesToStream);
      stream.framesProcessed := Modular.Wrap(stream.framesProcessed, frameCount);
      ended := framesLeft <= subBufferSizeInFrames && !looping;
      if !ended {
        StaysInStep(song, queue, queued, at, decoder.pos, subBufferSizeInFrames);
        CountsOn(frameCount, queued, counter, subBufferSizeInFrames);
        queued := queued + subBufferSizeInFrames;
      }
    }

    ghost predicate Active()
      reads this, stream
    {
      stream.playing && !stream.paused
    }

    /** Stops the stream and rewinds the decoder; a paused stream is not stopped, and then decoder
        and queue only agree if the song's first frame was due. */
    method StopMusicStream()
      requires Ready()
      modifies this`queued, stream, decoder
      ensures Ready() && decoder.pos == 0
      ensures old(Active()) ==> Tuned() && queued == 0 && stream.Pending() == [] && stream.Settled()
                                && !stream.playing && !stream.paused && stream.framesProcessed == 0
      ensures !old(Active()) ==> unchanged(stream) && queued == old(queued)
      ensures !old(Active()) && old(Fed()) ==> (Fed() <==> old(decoder.pos) % frameCount == 0)
      ensures !old(Active()) && old(Tuned()) ==> (Tuned() <==> stream.framesProcessed % frameCount == 0)
    {
      hide LoopFrame, LoopFrom, PendingOf, CursorIsPending, InStep, CountsAlong;
      ghost var active, fed := Active(), Fed();
      ghost var song, queue, at, counter := decoder.song, stream.Pending(), decoder.pos, stream.framesProcessed;
      stream.StopAudioBuffer();
      decoder.SeekTo(0);
      if active {
        queued := 0;
        StartsInTune(song);
      } else if fed {
        RewoundInTune(song, queue, queued, at, counter);
      }
    }

    lemma FirstFrameDue()
      requires Fed()
      ensures decoder.pos % frameCount == 0 <==> queued % frameCount == 0
    {
    }

    /** What the stop of a paused song leads to: behind the frames that still wait the song starts
        over, wherever it was. */
    method StopThenRefill()
      requires Ready() && !Active() && looping && (stream.isSubBufferProcessed0 || stream.isSubBufferProcessed1)
      modifies this`queued, stream, stream.data, decoder
      ensures Ready()
      ensures stream.Pending() == old(stream.Pending()) + LoopFrom(decoder.song, 0, stream.Half())
    {
      hide LoopFrame, LoopFrom, PendingOf, CursorIsPending, InStep, CountsAlong, Silence, Padded;
      StopMusicStream();
      OneBlock(decoder.song, [], 0, stream.Half());
      StreamBlock(stream.Half());
    }

    /** How much room the free halves have. */
    ghost function Room(): nat
      reads this, stream
    {
      (if stream.isSubBufferProcessed0 then stream.Half() else 0)
      + (if stream.isSubBufferProcessed1 then stream.Half() else 0)
    }

    /** A half is free when at most a half waits, and both are when nothing does. */
    lemma RoomByPending()
      requires Ready()
      ensures Room() == RoomFor(stream.Half(), |stream.Pending()|)
    {
    }

    /** The refill that reaches the end of a song that does not loop is its last. */
    ghost predicate Ends()
      requires Ready()
      reads this, stream, decoder
    {
      !looping && EndsWithin(frameCount, stream.framesProcessed, stream.Half(), Room())
    }

    /** Refills every free half with the song's next frames. A song that does not loop is
        stopped by the refill that reaches its end, dropping what was still queued; if it is
        not active then, it is not stopped: its last frames are queued, padded with silence to
        whole halves, and only the decoder goes back to the start. */
    method UpdateMusicStream()
      requires Fed()
      modifies this`queued, stream, stream.data, decoder
      ensures Ready()
      ensures !old(Ends()) ==>
                && Fed() && queued == old(queued) + old(Room()) && Room() == 0
                && !stream.isSubBufferProcessed0 && !stream.isSubBufferProcessed1
                && stream.Pending() == old(stream.Pending()) + LoopFrom(decoder.song, old(queued), old(Room()))
                && stream.playing == old(stream.playing) && stream.paused == old(stream.paused)
                && stream.framesProcessed == Counted(frameCount, old(stream.framesProcessed), old(Room()))
                && (old(Tuned()) ==> Tuned())
      ensures old(Ends() && Active()) ==>
                && Tuned() && queued == 0 && stream.Pending() == [] && decoder.pos == 0
                && !stream.playing && !stream.paused && stream.framesProcessed == 0
      ensures old(Ends() && !Active()) ==>
                && decoder.pos == 0 && stream.playing == old(stream.playing) && stream.paused == old(stream.paused)
                && stream.Pending()
                   == old(stream.Pending())
                      + LastBlock(decoder.song, old(queued),
                                  LastFrames(frameCount, old(stream.framesProcessed), stream.Half()), stream.Half())
      ensures stream.Settled() || old(Ends() && !Active())
    {
      hide LoopFrame, LoopFrom, PendingOf, CursorIsPending, InStep, CountsAlong, Modular.Wrap, Silence, Padded,
           LastBlock;
      hide FramesLeft;
      ghost var song, queue, queued0, half := decoder.song, stream.Pending(), queued, stream.Half();
      ghost var counter := stream.framesProcessed;
      ghost var left := LastFrames(frameCount, counter, half);
      NoBlock(song, queue, queued0);
      if stream.isSubBufferProcessed0 {
        OneBlock(song, queue, queued0, half);
        LastBlocks(song, queue, queued0, left, half);
        var ended := RefillHalf();
        if ended {
          StopMusicStream();
          return;
        }
        CountedTwice(frameCount, counter, half);
        SomethingLeft(frameCount, counter + half);
      }
      if stream.isSubBufferProcessed1 {
        ghost var filled := queued - queued0;
        AnotherBlock(song, queue, queued0, filled, half);
        LastBlocks(song, queue, queued0, left, half);
        var ended := RefillHalf();
        if ended {
          StopMusicStream();
          return;
        }
      }
    }

    /** What a seek past the end of an active song leads to: the next update fills both halves from the
        song's start and the song goes on, unless it does not loop and the second of them looks to the
        counter, which has been reduced to the song's length by then, like the last one. */
    method SeekPastEnd(position: nat)
      requires Ready() && Active() && frameCount < position && position + stream.sizeInFrames < 0x8000_0000
      modifies this`queued, stream, stream.data, decoder
      ensures Ready()
      ensures if looping || stream.Half() < frameCount - (position + stream.Half()) % frameCount
              then Fed() && Active() && stream.Pending() == LoopFrom(decoder.song, 0, 2 * stream.Half())
              else !stream.playing && stream.Pending() == []
    {
      assert position < TWO_TO_THE_32 && Min(position, frameCount) == frameCount;
      hide *;
      IsActive();
      SeekMusicStream(position);
      PastEnd();
      UpdateMusicStream();
      IsActive();
    }

    lemma IsActive()
      requires Ready()
      ensures Active() <==> stream.playing && !stream.paused
      ensures 0 < frameCount == |decoder.song| && stream.IsStream() && frameCount < 0x8000_0000
    {
    }

    lemma PastEnd()
      requires Fed() && stream.Pending() == [] && frameCount < stream.framesProcessed
      ensures Ready() && 0 < frameCount == |decoder.song| && Room() == 2 * stream.Half()
      ensures Ends()
              <==> !looping && frameCount - (stream.framesProcessed + stream.Half()) % frameCount <= stream.Half()
      ensures stream.Pending() + LoopFrom(decoder.song, frameCount, 2 * stream.Half())
              == LoopFrom(decoder.song, 0, 2 * stream.Half())
    {
      RoomByPending();
      EndsPastSong(frameCount, stream.framesProcessed, stream.Half(), 2 * stream.Half());
      WholeSong(decoder.song, 2 * stream.Half());
      NothingAndLoop(decoder.song, 2 * stream.Half());
      hide LoopFrom, InStep, PendingOf, CursorIsPending, EndsWithin;
    }

    /** Plays from the front of the buffer, wherever the cursor was: that keeps what waits if the
        cursor is there, as it is in a stopped stream, or if nothing waits. */
    method PlayMusicStream()
      requires Ready()
      modifies stream
      ensures Active() && stream.frameCursorPos == 0 && stream.Settled()
      ensures old(stream.frameCursorPos) == 0 || old(stream.Pending()) == [] ==>
                && Ready() && stream.Pending() == old(stream.Pending())
                && stream.framesProcessed == old(stream.framesProcessed)
                && (old(Fed()) ==> Fed()) && (old(Tuned()) ==> Tuned())
    {
      hide LoopFrame, LoopFrom, InStep, CountsAlong;
      stream.PlayAudioBuffer();
    }

    method PauseMusicStream()
      requires Ready()
      modifies stream
      ensures Ready() && stream.paused && stream.playing == old(stream.playing)
      ensures (old(Fed()) ==> Fed()) && (old(Tuned()) ==> Tuned())
      ensures stream.framesProcessed == old(stream.framesProcessed)
      ensures stream.Pending() == old(stream.Pending()) && stream.frameCursorPos == old(stream.frameCursorPos)
      ensures Drift() == old(Drift())
    {
      hide LoopFrame, LoopFrom, InStep, CountsAlong;
      stream.PauseAudioBuffer();
    }

    method ResumeMusicStream()
      requires Ready()
      modifies stream
      ensures Ready() && !stream.paused && stream.playing == old(stream.playing)
      ensures (old(Fed()) ==> Fed()) && (old(Tuned()) ==> Tuned())
      ensures stream.framesProcessed == old(stream.framesProcessed)
      ensures stream.Pending() == old(stream.Pending()) && stream.frameCursorPos == old(stream.frameCursorPos)
      ensures Drift() == old(Drift())
    {
      hide LoopFrame, LoopFrom, InStep, CountsAlong;
      stream.ResumeAudioBuffer();
    }

    /** Moves the decoder, at most to the song's end, and the counter, and forgets what was queued;
        the cursor stays where it is. Past the end only the counter goes, so that the song is heard
        from its start while the clock says otherwise. */
    method SeekMusicStream(position: nat)
      requires Ready() && position < TWO_TO_THE_32
      modifies this`queued, stream, decoder
      ensures Ready() && stream.Pending() == [] && stream.framesProcessed == position
      ensures stream.frameCursorPos == old(stream.frameCursorPos)
      ensures Drift() == DriftAfterSeek(stream.Half(), |old(stream.Pending())|, old(Drift()))
      ensures stream.playing == old(stream.playing) && stream.paused == old(stream.paused)
      ensures decoder.pos == queued == Min(position, frameCount)
      ensures position + stream.sizeInFrames < 0x8000_0000 ==>
                Fed() && Playhead() == Min(position, frameCount) && (Tuned() <==> position <= frameCount)
    {
      hide LoopFrame, LoopFrom, PendingOf, CursorIsPending;
      CursorPlace();
      decoder.SeekTo(position);
      stream.SeekBuffer(position);
      queued := Min(position, frameCount);
      NoBlock(decoder.song, [], queued);
    }

    /** How far the cursor stands inside a half although no half waits. */
    ghost function Drift(): nat
      requires Ready()
      reads this, stream, decoder
    {
      DriftOf(stream.Half(), stream.isSubBufferProcessed0, stream.isSubBufferProcessed1, stream.frameCursorPos)
    }

    lemma NoDrift()
      requires Ready()
      ensures stream.Settled() ==> Drift() == 0
    {
    }

    /** The cursor's place in its half can be told from how much waits. */
    lemma CursorPlace()
      requires Ready()
      ensures 0 < |stream.Pending()| ==>
                && Drift() == 0
                && InsideHalf(stream.Half(), stream.frameCursorPos) == Modular.Wrap(-|stream.Pending()|, stream.Half())
      ensures |stream.Pending()| == 0 ==> Drift() == InsideHalf(stream.Half(), stream.frameCursorPos)
    {
      PlaceByPending(stream.Half(), stream.data[..], stream.isSubBufferProcessed0, stream.isSubBufferProcessed1,
                     stream.frameCursorPos);
      hide PendingOf, CursorIsPending, InsideHalf, Modular.Wrap;
    }

    /** How far the clock is ahead of what is heard: by what the counter is ahead of the decoder
        after a seek past the song's end, and by the drift. */
    ghost function Ahead(): int
      requires Ready()
      reads this, stream, decoder
    {
      stream.framesProcessed - queued + Drift()
    }

    /** The clock, in frames. It is right exactly when it is ahead by whole songs. Without a seek
        past the end that means: when the cursor does not stand inside a half that has been
        discarded by a seek. */
    method GetMusicTimePlayed() returns (framesPlayed: int)
      requires Fed()
      ensures framesPlayed == Modular.Wrap(Playhead() + Ahead(), frameCount)
      ensures framesPlayed == Modular.Wrap(Playhead(), frameCount) <==> Modular.Wrap(Ahead(), frameCount) == 0
      ensures framesPlayed == (stream.framesProcessed - |stream.Pending()|
                               + if stream.Pending() == [] then stream.frameCursorPos % stream.Half() else 0)
                              % frameCount
      ensures Tuned() ==> Modular.Wrap(Ahead(), frameCount) == Modular.Wrap(Drift(), frameCount)
      ensures Tuned() && stream.Settled() ==> framesPlayed == Modular.Wrap(Playhead(), frameCount)
    {
      var framesProcessed := stream.framesProcessed;
      var subBufferSize := stream.sizeInFrames / 2;
      var framesInFirstBuffer := if stream.isSubBufferProcessed0 then 0 else subBufferSize;
      var framesInSecondBuffer := if stream.isSubBufferProcessed1 then 0 else subBufferSize;
      var framesSentToMix := InsideHalf(subBufferSize, stream.frameCursorPos);
      var reading := framesProcessed - framesInFirstBuffer - framesInSecondBuffer + framesSentToMix;
      framesPlayed := Clock.TruncatedMod(reading, frameCount);
      if framesPlayed < 0 { framesPlayed := framesPlayed + frameCount; }
      ReadingIs(reading);
      ReadingByQueue();
      ClockShows(framesPlayed);
    }

    lemma ReadingByQueue()
      requires Fed()
      ensures Drift() == if stream.Pending() == [] then stream.frameCursorPos % stream.Half() else 0
      ensures Modular.Wrap(Playhead() + Ahead(), frameCount)
              == (stream.framesProcessed - |stream.Pending()| + Drift()) % frameCount
    {
      hide InStep;
      assert Playhead() + Ahead() == stream.framesProcessed - |stream.Pending()| + Drift();
    }

    lemma ReadingIs(reading: int)
      requires Fed()
      requires reading == stream.framesProcessed - (if stream.isSubBufferProcessed0 then 0 else stream.Half())
                          - (if stream.isSubBufferProcessed1 then 0 else stream.Half())
                          + InsideHalf(stream.Half(), stream.frameCursorPos)
      ensures reading == stream.framesProcessed - |stream.Pending()| + Drift()
      ensures -0x8000_0000 <= reading < 0x8000_0000
      ensures stream.Settled() ==> Drift() == 0
    {
    }

    lemma ClockShows(framesPlayed: int)
      requires Fed()
      requires var r := Clock.TruncatedMod(stream.framesProcessed - |stream.Pending()| + Drift(), frameCount);
               framesPlayed == if r < 0 then r + frameCount else r
      ensures framesPlayed == Modular.Wrap(Playhead() + Ahead(), frameCount)
      ensures framesPlayed == Modular.Wrap(Playhead(), frameCount) <==> Modular.Wrap(Ahead(), frameCount) == 0
      ensures Tuned() ==> Modular.Wrap(Ahead(), frameCount) == Modular.Wrap(Drift(), frameCount)
      ensures Tuned() && Drift() == 0 ==> framesPlayed == Modular.Wrap(Playhead(), frameCount)
    {
      hide LoopFrame, LoopFrom, PendingOf, Modular.Wrap, Clock.TruncatedMod, DriftOf, InStep;
      Clock.FixedUpRemainder(stream.framesProcessed - |stream.Pending()| + Drift(), frameCount);
      assert Playhead() + Ahead() == stream.framesProcessed - |stream.Pending()| + Drift();
      Clock.DriftExactly(Playhead(), Ahead(), frameCount);
      if Tuned() {
        Clock.CounterIsEnough(stream.framesProcessed, queued, Drift(), frameCount);
        Clock.DriftExactly(Playhead(), Drift(), frameCount);
        Clock.NoDrift(frameCount);
      }
    }

    /** The device's part of a request: it takes the next frames of an active stream. */
    method Take(n: nat) returns (taken: seq<Frame>, ghost k: nat)
      requires Ready()
      modifies stream
      ensures Ready() && stream.playing == old(stream.playing) && stream.paused == old(stream.paused)
      ensures stream.framesProcessed == old(stream.framesProcessed)
      ensures k == if Active() then Min(n, |old(stream.Pending())|) else 0
      ensures taken == old(stream.Pending())[..k] + Silence(n - k) && stream.Pending() == old(stream.Pending())[k..]
      ensures Drift() == old(Drift()) && (old(stream.Settled()) ==> stream.Settled())
    {
      hide PendingOf, CursorIsPending, Silence, DriftOf;
      WaitingIsSettled();
      k := if Active() then Min(n, |stream.Pending()|) else 0;
      if stream.playing && !stream.paused {
        var framesRead;
        taken, framesRead := stream.ReadAudioBufferFramesInInternalFormat(n);
      } else {
        taken := Silence(n);
      }
      WaitingIsSettled();
      NoDrift();
    }

    lemma WaitingIsSettled()
      requires Ready()
      ensures if stream.Pending() == [] then stream.isSubBufferProcessed0 && stream.isSubBufferProcessed1
              else stream.Settled() && Drift() == 0
    {
    }

    /** What the device hears of the music in a request of n frames. */
    method Hear(n: nat) returns (heard: seq<Frame>, ghost k: nat)
      requires Fed()
      modifies stream
      ensures Fed() && stream.playing == old(stream.playing) && stream.paused == old(stream.paused)
      ensures stream.framesProcessed == old(stream.framesProcessed) && (old(Tuned()) ==> Tuned())
      ensures |stream.Pending()| == |old(stream.Pending())| - k
      ensures k == if Active() then Min(n, |old(stream.Pending())|) else 0
      ensures heard == LoopFrom(decoder.song, old(Playhead()), k) + Silence(n - k)
      ensures Playhead() == old(Playhead()) + k
      ensures Drift() == old(Drift()) && (old(stream.Settled()) ==> stream.Settled())
    {
      hide LoopFrom, PendingOf, CursorIsPending, Modular.Wrap, Silence, CountsAlong, InStep, DriftOf;
      ghost var queue := stream.Pending();
      StepParts(decoder.song, queue, queued, decoder.pos);
      heard, k := Take(n);
      StepHeard(decoder.song, queue, queued, decoder.pos, k);
    }
  }

  /** The cursor's place in its half. */
  function InsideHalf(half: nat, cursor: nat): (place: nat)
    requires 0 < half
    ensures cursor < 2 * half ==> place == if cursor < half then cursor else cursor - half
  {
    InsideHalfIs(half, cursor);
    cursor % half
  }

  lemma InsideHalfIs(half: nat, cursor: nat)
    requires 0 < half
    ensures cursor < 2 * half ==> cursor % half == if cursor < half then cursor else cursor - half
  {
  }

  function DriftOf(half: nat, processed0: bool, processed1: bool, cursor: nat): nat
    requires 0 < half
  {
    if processed0 && processed1 then InsideHalf(half, cursor) else 0
  }

  lemma PlaceByPending(half: nat, data: seq<Frame>, processed0: bool, processed1: bool, cursor: nat)
    requires |data| == 2 * half && cursor < 2 * half && CursorIsPending(half, processed0, processed1, cursor)
    ensures var waiting := |PendingOf(half, data, processed0, processed1, cursor)|;
            && (waiting == 0 <==> processed0 && processed1)
            && (0 < waiting ==> InsideHalf(half, cursor) == Modular.Wrap(-waiting, half))
  {
    var waiting := |PendingOf(half, data, processed0, processed1, cursor)|;
    InsideHalfIs(half, cursor);
    hide Modular.Wrap;
    if !(processed0 && processed1) {
      var other := if cursor < half then !processed1 else !processed0;
      assert -waiting == half * (if other then -2 else -1) + InsideHalf(half, cursor) by {
        assert half * -2 + 2 * half == 0 && half * -1 + half == 0;
      }
      Modular.Unique(-waiting, half, if other then -2 else -1, InsideHalf(half, cursor));
    }
  }

  /** A seek leaves the cursor inside the half that it discards. */
  function DriftAfterSeek(half: nat, waiting: int, drift: nat): nat
    requires 0 < half
  {
    if waiting == 0 then drift else Modular.Wrap(-waiting, half)
  }

  lemma NoBlock(song: seq<Frame>, queue: seq<Frame>, queued: nat)
    requires 0 < |song|
    ensures queue == queue + LoopFrom(song, queued, 0)
  {
  }

  lemma OneBlock(song: seq<Frame>, queue: seq<Frame>, queued: nat, half: nat)
    requires 0 < |song|
    ensures Padded(LoopFrom(song, queued, half), half) == LoopFrom(song, queued, half)
  {
  }

  lemma AnotherBlock(song: seq<Frame>, queue: seq<Frame>, queued: nat, filled: nat, half: nat)
    requires 0 < |song|
    ensures (queue + LoopFrom(song, queued, filled)) + Padded(LoopFrom(song, queued + filled, half), half)
            == queue + LoopFrom(song, queued, filled + half)
  {
  }

  /** The last frames of a song that does not loop, up to the counter's idea of its end, in one
      half if they fit and in two if not. */
  function LastBlock(song: seq<Frame>, queued: nat, left: nat, half: nat): seq<Frame>
    requires 0 < |song| && left <= 2 * half
  {
    Padded(LoopFrom(song, queued, left), if left <= half then half else 2 * half)
  }

  /** Frame by frame: the song's frames that are left, and silence up to whole halves. */
  lemma LastBlockFrames(song: seq<Frame>, queued: nat, left: nat, half: nat)
    requires 0 < |song| && left <= 2 * half
    ensures var block := LastBlock(song, queued, left, half);
            && |block| == (if left <= half then half else 2 * half)
            && forall i :: 0 <= i < |block| ==> block[i] == if i < left then song[(queued + i) % |song|] else 0
  {
    PaddedFrames(LoopFrom(song, queued, left), if left <= half then half else 2 * half);
    LoopFrames(song, queued, left);
    hide Padded, LoopFrom;
  }

  lemma LastBlocks(song: seq<Frame>, queue: seq<Frame>, queued: nat, left: nat, half: nat)
    requires 0 < |song|
    ensures left <= half ==> LastBlock(song, queued, left, half) == Padded(LoopFrom(song, queued, left), half)
    ensures half < left <= 2 * half ==>
              queue + LoopFrom(song, queued, half) + Padded(LoopFrom(song, queued + half, left - half), half)
              == queue + LastBlock(song, queued, left, half)
  {
  }

  /** How many frames of the song are left, as the 32-bit subtraction has it. */
  function FramesLeft(length: nat, counter: nat): nat {
    (length - counter) % TWO_TO_THE_32
  }

  function RoomFor(half: nat, waiting: nat): nat {
    if waiting == 0 then 2 * half else if waiting <= half then half else 0
  }

  /** The counter after refills of so many frames. */
  function Counted(length: nat, counter: nat, room: nat): nat
    requires 0 < length
  {
    if room == 0 then counter else Modular.Wrap(counter + room, length)
  }

  /** Whether one of the refills of an update is a song's last. */
  predicate EndsWithin(length: nat, counter: nat, half: nat, room: nat)
    requires 0 < length
  {
    && 0 < room
    && (FramesLeft(length, counter) <= half
        || (half < room && FramesLeft(length, Modular.Wrap(counter + half, length)) <= half))
  }

  /** How many frames its last refills then stream. */
  function LastFrames(length: nat, counter: nat, half: nat): nat
    requires 0 < length
  {
    if FramesLeft(length, counter) <= half then FramesLeft(length, counter)
    else half + FramesLeft(length, Modular.Wrap(counter + half, length))
  }

  lemma FramesLeftExactly(length: nat, counter: nat)
    requires length < 0x1_0000_0000 && counter < 0x1_0000_0000
    ensures FramesLeft(length, counter)
            == if counter <= length then length - counter else 0x1_0000_0000 + length - counter
  {
  }

  /** With the counter past the song's end more frames seem to be left than fit; only the second refill
      can be the last. */
  lemma EndsPastSong(length: nat, counter: nat, half: nat, room: nat)
    requires 0 < length < counter && counter + 2 * half < 0x8000_0000 && 0 < half && (room == half || room == 2 * half)
    ensures EndsWithin(length, counter, half, room) <==> half < room && length - (counter + half) % length <= half
    ensures EndsWithin(length, counter, half, room) ==>
              LastFrames(length, counter, half) == half + (length - (counter + half) % length)
  {
    FramesLeftExactly(length, counter);
    WrapIs(counter + half, length);
    FramesLeftExactly(length, Modular.Wrap(counter + half, length));
    hide FramesLeft, Modular.Wrap;
  }

  lemma WrapIs(a: nat, length: nat)
    requires 0 < length
    ensures Modular.Wrap(a, length) == a % length < length
  {
  }

  /** From its end a song goes on like from its start. */
  lemma WholeSong(song: seq<Frame>, n: nat)
    requires 0 < |song|
    ensures LoopFrom(song, |song|, n) == LoopFrom(song, 0, n)
  {
    Modular.AddModulus(0, |song|);
    SamePosition(song, |song|, 0, n);
  }

  lemma NothingAndLoop(song: seq<Frame>, n: nat)
    requires 0 < |song|
    ensures [] + LoopFrom(song, |song|, n) == LoopFrom(song, |song|, n)
  {
  }

  /** As long as the counter is within the song, an update is the last one when all that is left fits. */
  lemma EndsInSong(length: nat, counter: nat, half: nat, room: nat)
    requires 0 < length < TWO_TO_THE_32 && counter <= length && 0 < half
             && (room == 0 || room == half || room == 2 * half)
    ensures EndsWithin(length, counter, half, room) <==> 0 < room && length - counter <= room
    ensures EndsWithin(length, counter, half, room) ==> LastFrames(length, counter, half) == length - counter
  {
    FramesLeftIs(length, counter);
    if counter + half < length {
      SmallCounter(counter + half, length);
      FramesLeftIs(length, counter + half);
    }
    hide FramesLeft, Modular.Wrap;
  }

  lemma FramesLeftIs(length: nat, counter: nat)
    requires counter <= length < TWO_TO_THE_32
    ensures FramesLeft(length, counter) == length - counter
  {
  }

  lemma SomethingLeft(length: nat, counter: nat)
    requires 0 < length < TWO_TO_THE_32
    ensures 0 < FramesLeft(length, Modular.Wrap(counter, length))
  {
    FramesLeftIs(length, Modular.Wrap(counter, length));
  }

  lemma SmallCounter(counter: nat, length: nat)
    requires counter < length
    ensures Modular.Wrap(counter, length) == counter
  {
  }

  lemma CountedTwice(length: nat, counter: nat, half: nat)
    requires 0 < length
    ensures Modular.Wrap(Modular.Wrap(counter + half, length) + half, length)
            == Modular.Wrap(counter + 2 * half, length)
  {
    Modular.Shift(counter + half, half, length);
  }

  lemma StartsInTune(song: seq<Frame>)
    requires 0 < |song|
    ensures InStep(song, [], 0, 0) && CountsAlong(|song|, 0, 0)
  {
  }

  /** Rewinding the decoder under a queue keeps them in step exactly when the song's first frame was due. */
  lemma RewoundInTune(song: seq<Frame>, queue: seq<Frame>, queued: nat, pos: nat, counter: nat)
    requires InStep(song, queue, queued, pos)
    ensures InStep(song, queue, queued, 0) <==> pos % |song| == 0
    ensures CountsAlong(|song|, queued, counter) ==> (InStep(song, queue, queued, 0) <==> counter % |song| == 0)
  {
  }

  lemma StepParts(song: seq<Frame>, queue: seq<Frame>, queued: nat, pos: nat)
    requires InStep(song, queue, queued, pos)
    ensures 0 < |song| && |queue| <= queued && Modular.Wrap(pos, |song|) == Modular.Wrap(queued, |song|)
  {
  }

  lemma StepHeard(song: seq<Frame>, queue: seq<Frame>, queued: nat, pos: nat, k: nat)
    requires InStep(song, queue, queued, pos) && k <= |queue|
    ensures InStep(song, queue[k..], queued, pos) && queue[..k] == LoopFrom(song, queued - |queue|, k)
  {
    LoopSuffix(song, queued - |queue|, |queue|, k);
    hide LoopFrom;
  }

  predicate InStep(song: seq<Frame>, queue: seq<Frame>, queued: nat, pos: nat) {
    && 0 < |song| && |queue| <= queued && queue == LoopFrom(song, queued - |queue|, |queue|)
    && Modular.Wrap(pos, |song|) == Modular.Wrap(queued, |song|)
  }

  predicate CountsAlong(length: nat, queued: nat, counter: nat) {
    0 < length && counter <= length && Modular.Wrap(counter, length) == Modular.Wrap(queued, length)
  }

  lemma StaysInStep(song: seq<Frame>, queue: seq<Frame>, queued: nat, pos: nat, pos': nat, half: nat)
    requires InStep(song, queue, queued, pos)
    requires Modular.Wrap(pos', |song|) == Modular.Wrap(pos + half, |song|)
    ensures InStep(song, queue + Padded(LoopFrom(song, queued, half), half), queued + half, pos')
  {
    hide LoopFrame, LoopFrom;
    assert Padded(LoopFrom(song, queued, half), half) == LoopFrom(song, queued, half);
    LoopInPieces(song, queued - |queue|, |queue|, half);
    Modular.WrapShift(pos, queued, half, |song|);
  }

  /** The counter keeps up with the decoder, although it is kept modulo the song's length. */
  lemma CountsOn(length: nat, queued: nat, counter: nat, half: nat)
    requires 0 < length
    ensures CountsAlong(length, queued, counter) ==>
              CountsAlong(length, queued + half, Modular.Wrap(counter + half, length))
  {
    if CountsAlong(length, queued, counter) {
      Modular.WrapShift(counter, queued, half, length);
      Modular.WrapWrap(counter + half, length);
    }
  }
}
