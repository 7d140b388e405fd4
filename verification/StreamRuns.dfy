/** Every run of an audio stream, driven through the buffer's own operations. */
module StreamRuns {

  import opened FrameQueue
  import opened AudioBuffers
  import opened Modular

  method LoadAudioStream(subBufferSize: nat, frameSizeInBytes: nat) returns (b: AudioBuffer)
    requires 0 < subBufferSize && 2 * subBufferSize < TWO_TO_THE_32 && 0 < frameSizeInBytes
    ensures fresh(b) && fresh(b.data) && b.IsStream() && b.Half() == subBufferSize
    ensures b.frameSizeInBytes == frameSizeInBytes && b.framesProcessed == 0 && b.Abstract() == INITIAL
  {
    b := new AudioBuffer(subBufferSize * 2, frameSizeInBytes, Streaming);
    b.looping := true;
  }

  /** What an operation needs of its arguments: C integers. */
  predicate Representable(op: Op) {
    match op
    case Refill(input) => |input| < 0x8000_0000
    case Seek(position) => position < TWO_TO_THE_32
    case _ => true
  }

  method Perform(b: AudioBuffer, op: Op) returns (heard: seq<Frame>)
    requires b.IsStream() && Representable(op) && (op.Play? ==> !b.playing || b.Pending() == [])
    modifies b, b.data
    ensures b.IsStream() && b.Abstract() == Step(old(b.Abstract()), b.Half(), op)
    ensures heard == Output(old(b.Abstract()), op)
  {
    heard := [];
    match op {
      case Refill(input) => b.UpdateAudioStream(input, |input|);
      case Mix(n) =>
        if b.playing && !b.paused {
          var framesRead;
          heard, framesRead := b.ReadAudioBufferFramesInInternalFormat(n);
        } else {
          heard := Silence(n);
        }
      case Play => b.PlayAudioBuffer();
      case Pause => b.PauseAudioBuffer();
      case Resume => b.ResumeAudioBuffer();
      case Stop => b.StopAudioBuffer();
      case Seek(position) => b.SeekBuffer(position);
    }
  }

  /** The double buffer is the queue: over any run of refills, device reads, pauses, resumes,
      stops, seeks and plays of a stream that is stopped or empty, the device hears what the queue plays. */
  method PerformAll(b: AudioBuffer, ops: seq<Op>) returns (heard: seq<Frame>)
    requires b.IsStream() && b.Abstract() == INITIAL
    requires forall op :: op in ops ==> Representable(op)
    requires PlaysWhenIdle(b.Half(), ops)
    modifies b, b.data
    ensures b.IsStream() && b.Abstract() == Run(b.Half(), ops).now
    ensures heard == Run(b.Half(), ops).heard && HeardIsFifo(Run(b.Half(), ops))
  {
    heard := [];
    for i := 0 to |ops|
      invariant b.IsStream() && b.Abstract() == Run(b.Half(), ops[..i]).now
      invariant heard == Run(b.Half(), ops[..i]).heard
    {
      assert ops[..i + 1][..i] == ops[..i];
      var out := Perform(b, ops[i]);
      heard := heard + out;
    }
    assert ops[..|ops|] == ops;
    FirstInFirstOut(b.Half(), ops);
  }
}
