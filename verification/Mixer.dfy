/** The device callback: it slices each request twice, into 512-frame pieces for the mix
    buffer and into as many frames as fit a 4096-byte input buffer, and adds what it reads to
    the output. How many input frames the data converter requires is a parameter of the reading
    loop; the callback takes the converter to be one-to-one. */
module Mixer {

  import opened FrameQueue
  import opened AudioBuffers
  import opened Loops
  import Modular

  const INPUT_BUFFER_BYTES: nat := 4096
  const MIX_BUFFER_FRAMES: nat := 512

  /** How many frames of the buffer's own format fit the input buffer. */
  function InputCap(frameSizeInBytes: nat): (cap: nat)
    requires 0 < frameSizeInBytes <= INPUT_BUFFER_BYTES
    ensures 0 < cap
    ensures frameSizeInBytes <= 8 ==> MIX_BUFFER_FRAMES <= cap
  {
    CapBound(frameSizeInBytes);
    INPUT_BUFFER_BYTES / frameSizeInBytes
  }

  lemma CapExactly(frameSizeInBytes: nat)
    requires 0 < frameSizeInBytes <= 4096
    ensures InputCap(frameSizeInBytes) * frameSizeInBytes <= 4096 < (InputCap(frameSizeInBytes) + 1) * frameSizeInBytes
  {
    assert frameSizeInBytes * (4096 / frameSizeInBytes) + 4096 % frameSizeInBytes == 4096;
  }

  lemma CapBound(frameSizeInBytes: nat)
    requires 0 < frameSizeInBytes <= INPUT_BUFFER_BYTES
    ensures 0 < INPUT_BUFFER_BYTES / frameSizeInBytes
    ensures frameSizeInBytes <= 8 ==> MIX_BUFFER_FRAMES <= INPUT_BUFFER_BYTES / frameSizeInBytes
  {
  }

  /** The buffers that the program makes when nothing is resampled: streams, and sounds with frames of
      at most 8 bytes, so that a piece of the mix buffer is a single read. Looping sounds, which it
      does not make, are taken in as far as slicing does not disturb them. */
  ghost predicate Mixable(b: AudioBuffer)
    reads b
  {
    && b.frameSizeInBytes <= INPUT_BUFFER_BYTES
    && (b.IsStream() ||
        (b.IsSound() && if b.looping then b.sizeInFrames == 1 || b.sizeInFrames % 2 == 0 else b.frameSizeInBytes <= 8))
  }

  function Sum(sizes: seq<nat>): nat {
    if sizes == [] then 0 else sizes[0] + Sum(sizes[1..])
  }

  /** The requests that are left when k frames of the first have been served. */
  function Less(sizes: seq<nat>, k: nat): (less: seq<nat>)
    requires sizes != [] && k <= sizes[0]
    ensures less != [] && less[0] == sizes[0] - k && Sum(less) == Sum(sizes) - k
  {
    var less := [sizes[0] - k] + sizes[1..];
    assert less[1..] == sizes[1..];
    less
  }

  lemma LessLess(sizes: seq<nat>, j: nat, k: nat)
    requires sizes != [] && j + k <= sizes[0]
    ensures Less(sizes, 0) == sizes && Less(Less(sizes, j), k) == Less(sizes, j + k)
  {
  }

  /** In one of these requests a piece of the mix buffer begins at the last frame of a sound of odd
      size, which then cannot be read. */
  predicate CutShort(size: nat, cursor: nat, sizes: seq<nat>)
    requires cursor < size
    decreases |sizes|
  {
    && sizes != []
    && (LosesLastFrame(size, cursor, sizes[0], MIX_BUFFER_FRAMES)
        || (cursor + sizes[0] < size && CutShort(size, cursor + sizes[0], sizes[1..])))
  }

  /** Where a sound that does not loop ends for these requests. */
  function EndOf(size: nat, cursor: nat, sizes: seq<nat>): (end: nat)
    requires cursor < size
    ensures cursor <= end <= size
  {
    if CutShort(size, cursor, sizes) then size - 1 else size
  }

  /** The next frames the buffer plays on its own, for requests of these sizes. */
  ghost function Ahead(b: AudioBuffer, sizes: seq<nat>): (ahead: seq<Frame>)
    requires Mixable(b)
    reads b, b.data
    ensures |ahead| == Sum(sizes)
  {
    if b.usage == Streaming then Heard(b.Pending(), Sum(sizes)) else SoundNext(b, sizes)
  }

  /** What follows a read: the rest of the same, or silence after a sound's end. */
  ghost function Rest(b: AudioBuffer, sizes: seq<nat>): (rest: seq<Frame>)
    requires Mixable(b)
    reads b, b.data
    ensures |rest| == Sum(sizes)
  {
    if b.playing then Ahead(b, sizes) else Silence(Sum(sizes))
  }

  /** What the device is owed: all was due, done has been played of it, and requests of these sizes
      are left. */
  ghost predicate Owed(b: AudioBuffer, all: seq<Frame>, done: seq<Frame>, sizes: seq<nat>)
    requires Mixable(b)
    reads b, b.data
  {
    all == done + Rest(b, sizes)
  }

  /** What the device thread can read from. */
  ghost predicate Readable(b: AudioBuffer)
    reads b
  {
    0 < b.frameSizeInBytes <= INPUT_BUFFER_BYTES && ((b.IsStream() && b.playing) || b.IsSound())
  }

  /** One read of the internal format, where out holds the frames that count as read. If something
      is owed, out is a part of it; and a sound that does not loop plays its next piece. */
  method ReadSlice(b: AudioBuffer, n: nat, ghost owing: bool, ghost all: seq<Frame>, ghost done: seq<Frame>,
                   ghost sizes: seq<nat>)
    returns (out: seq<Frame>)
    requires Readable(b)
    requires owing ==> Mixable(b) && b.playing && !b.paused && Owed(b, all, done, sizes) && Served(b, n, sizes)
    modifies b
    ensures Readable(b) && b.looping == old(b.looping) && |out| <= n
    ensures owing ==> Mixable(b) && Owed(b, all, done + out, Less(sizes, |out|)) && GoesOn(b, n, out)
    ensures old(IsOneShot(b)) ==> IsOneShot(b) && out == OneShotPiece(b.data[..], old(b.frameCursorPos), n)
    ensures old(IsOneShot(b)) && |out| == n ==>
              b.frameCursorPos == OneShotCursor(b.sizeInFrames, old(b.frameCursorPos), n)
  {
    hide *;
    ReadableUsage(b);
    OneShotIs(b);
    ghost var due := if owing then Rest(b, sizes) else [];
    if owing { Due(b, all, done, n, sizes); }
    if b.usage == Streaming {
      out := ReadStreamSlice(b, n, owing, sizes);
    } else {
      out := ReadSoundSlice(b, n, owing, sizes);
    }
    OneShotIs(b);
    if owing { Paid(b, all, done, due, out, sizes); }
  }

  /** A read of n frames serves the first request; it is a whole piece of the mix buffer if it is of a
      sound that does not loop. */
  ghost predicate Served(b: AudioBuffer, n: nat, sizes: seq<nat>)
    reads b
  {
    sizes != [] && 0 < n <= sizes[0] && (b.looping || n == Min(sizes[0], MIX_BUFFER_FRAMES))
  }

  /** After a read a buffer goes on playing if all that was asked for was read; a sound that does not
      loop may have ended, or stand at a last frame that cannot be read. */
  ghost predicate GoesOn(b: AudioBuffer, n: nat, out: seq<Frame>)
    reads b
  {
    if b.playing
    then !b.paused && (|out| == n || (out == [] && !b.looping && SoundStuck(b.sizeInFrames, b.frameCursorPos)))
    else !b.looping
  }

  lemma OneShotIs(b: AudioBuffer)
    ensures IsOneShot(b) <==> b.IsSound() && !b.looping
  {
  }

  lemma ReadableUsage(b: AudioBuffer)
    requires Readable(b)
    ensures b.usage == Streaming <==> b.IsStream()
    ensures b.usage == Static <==> b.IsSound()
    ensures b.usage == Streaming ==> !IsOneShot(b)
  {
  }

  lemma Due(b: AudioBuffer, all: seq<Frame>, done: seq<Frame>, n: nat, sizes: seq<nat>)
    requires Mixable(b) && Owed(b, all, done, sizes) && Served(b, n, sizes)
    ensures sizes != [] && n <= sizes[0]
    ensures all == done + Rest(b, sizes)
    ensures b.playing ==> Rest(b, sizes) == if b.usage == Streaming
                                            then Heard(b.Pending(), Sum(sizes)) else SoundNext(b, sizes)
    ensures b.usage == Streaming ==> b.IsStream() && b.looping
    ensures b.usage == Static ==> b.IsSound()
  {
  }

  lemma Paid(b: AudioBuffer, all: seq<Frame>, done: seq<Frame>, due: seq<Frame>, out: seq<Frame>, sizes: seq<nat>)
    requires Mixable(b) && all == done + due && sizes != [] && |out| <= sizes[0]
             && due == out + Rest(b, Less(sizes, |out|))
    ensures Owed(b, all, done + out, Less(sizes, |out|))
  {
    hide Rest, Mixable;
    Regroup(done, out, Rest(b, Less(sizes, |out|)));
  }

  method ReadStreamSlice(b: AudioBuffer, n: nat, ghost owing: bool, ghost sizes: seq<nat>) returns (out: seq<Frame>)
    requires Readable(b) && b.IsStream()
    requires owing ==> Mixable(b) && b.playing && !b.paused && Served(b, n, sizes)
    modifies b
    ensures Readable(b) && b.looping == old(b.looping) && |out| == n
    ensures owing ==> Mixable(b) && GoesOn(b, n, out)
    ensures owing ==> Heard(old(b.Pending()), Sum(sizes)) == out + Rest(b, Less(sizes, |out|))
  {
    hide Heard, Left, PendingOf, CursorIsPending, SoundAhead, SoundCursor, Sum, CutShort;
    ghost var total := if owing then Sum(sizes) else n;
    if owing { assert Sum(Less(sizes, n)) == total - n; }
    HeardInChunks(b.Pending(), n, total - n);
    var framesRead;
    out, framesRead := b.ReadAudioBufferFramesInInternalFormat(n);
  }

  method ReadSoundSlice(b: AudioBuffer, n: nat, ghost owing: bool, ghost sizes: seq<nat>) returns (out: seq<Frame>)
    requires Readable(b) && b.IsSound()
    requires owing ==> Mixable(b) && b.playing && !b.paused && Served(b, n, sizes)
    modifies b
    ensures Readable(b) && b.looping == old(b.looping) && |out| <= n
    ensures owing ==> Mixable(b) && GoesOn(b, n, out)
    ensures owing ==> old(SoundNext(b, sizes)) == out + Rest(b, Less(sizes, |out|))
    ensures b.IsSound() && (!b.looping ==> out == OneShotPiece(b.data[..], old(b.frameCursorPos), n))
    ensures !b.looping && |out| == n ==> b.frameCursorPos == OneShotCursor(b.sizeInFrames, old(b.frameCursorPos), n)
  {
    hide SoundAhead, Heard, SoundCursor, Sum, CutShort;
    ghost var sound0, stuck := b.Sound(), SoundStuck(b.sizeInFrames, b.frameCursorPos);
    var framesRead;
    out, framesRead := b.ReadAudioBufferFramesInInternalFormat(n);
    out := out[..framesRead];
    if owing {
      if stuck { StuckSlice(b, sizes); } else { SoundSlice(b, sound0, n, sizes); }
    }
  }

  /** The next frames of a sound, with silence after the end of one that does not loop. */
  ghost function SoundNext(b: AudioBuffer, sizes: seq<nat>): (ahead: seq<Frame>)
    requires b.IsSound()
    reads b, b.data
    ensures |ahead| == Sum(sizes)
  {
    NextOf(b.data[..], b.looping, b.frameCursorPos, sizes)
  }

  function NextOf(data: seq<Frame>, looping: bool, cursor: nat, sizes: seq<nat>): (ahead: seq<Frame>)
    requires cursor < |data|
    ensures |ahead| == Sum(sizes)
  {
    if looping then SoundAhead(data, true, cursor, Sum(sizes))
    else Heard(data[cursor..EndOf(|data|, cursor, sizes)], Sum(sizes))
  }

  lemma SoundSlice(b: AudioBuffer, sound0: SoundState, n: nat, sizes: seq<nat>)
    requires b.IsSound() && b.SoundReadTo(sound0, n) && sound0.playing && !sound0.paused && Served(b, n, sizes)
    requires !SoundStuck(b.sizeInFrames, sound0.cursor)
    ensures var ahead := SoundAhead(b.data[..], b.looping, sound0.cursor, n);
            && |ahead| <= n && (b.playing ==> |ahead| == n) && (b.looping ==> b.playing)
            && NextOf(b.data[..], b.looping, sound0.cursor, sizes)
               == ahead + (if b.playing then SoundNext(b, Less(sizes, |ahead|)) else Silence(Sum(sizes) - |ahead|))
  {
    hide *;
    ServedParts(b, n, sizes);
    SoundAfter(b, sound0, n, sizes);
    if b.looping {
      AheadInChunks(b.data[..], sound0.cursor, n, Sum(sizes) - n);
    } else {
      OnceSlice(b.data[..], sound0.cursor, n, sizes);
    }
  }

  lemma SoundAfter(b: AudioBuffer, sound0: SoundState, n: nat, sizes: seq<nat>)
    requires b.IsSound() && b.SoundReadTo(sound0, n) && sound0.playing && !sound0.paused && Served(b, n, sizes)
    ensures var data, cursor := b.data[..], sound0.cursor;
            && cursor < |data| && b.frameCursorPos < |data| && (!b.looping ==> n == Min(sizes[0], MIX_BUFFER_FRAMES))
            && SoundStuck(b.sizeInFrames, cursor) == SoundStuck(|data|, cursor)
            && (b.looping ==>
                  && b.playing && b.frameCursorPos == SoundCursor(|data|, true, cursor, n)
                  && |SoundAhead(data, true, cursor, n)| == n
                  && SoundNext(b, Less(sizes, n)) == SoundAhead(data, true, b.frameCursorPos, Sum(Less(sizes, n)))
                  && NextOf(data, true, cursor, sizes) == SoundAhead(data, true, cursor, Sum(sizes)))
            && (!b.looping ==> (b.playing <==> n < |data| - cursor))
            && (!b.looping && b.playing ==>
                  SoundNext(b, Less(sizes, n)) == NextOf(data, false, cursor + n, Less(sizes, n)))
  {
    hide Sum, CutShort, LoopFrom, Heard, Modular.Wrap;
  }

  lemma ServedParts(b: AudioBuffer, n: nat, sizes: seq<nat>)
    requires Served(b, n, sizes)
    ensures sizes != [] && 0 < n <= sizes[0] && Sum(Less(sizes, n)) == Sum(sizes) - n
  {
    hide Sum;
  }

  lemma OnceSlice(data: seq<Frame>, cursor: nat, n: nat, sizes: seq<nat>)
    requires cursor < |data| && sizes != [] && 0 < n == Min(sizes[0], MIX_BUFFER_FRAMES) && !SoundStuck(|data|, cursor)
    ensures var ahead := SoundAhead(data, false, cursor, n);
            && |ahead| <= n && (n < |data| - cursor ==> |ahead| == n)
            && NextOf(data, false, cursor, sizes)
               == ahead + if n < |data| - cursor
                          then NextOf(data, false, cursor + n, Less(sizes, n)) else Silence(Sum(sizes) - |ahead|)
  {
    AtMostFirst(sizes, n);
    hide *;
    SoundFrames(data, cursor, n);
    NextIs(data, cursor, sizes);
    if n < |data| - cursor {
      CutLater(|data|, cursor, sizes, n);
      NextIs(data, cursor + n, Less(sizes, n));
      HeardToEnd(data, cursor, EndOf(|data|, cursor, sizes), n, Sum(sizes));
    } else {
      NotCut(|data|, cursor, sizes, n);
      HeardWhole(data, cursor, Sum(sizes));
      assert data[cursor..] == data[cursor..|data|];
    }
  }

  lemma AtMostFirst(sizes: seq<nat>, n: nat)
    requires sizes != [] && n == Min(sizes[0], MIX_BUFFER_FRAMES)
    ensures n <= sizes[0] && Sum(Less(sizes, n)) == Sum(sizes) - n && n <= Sum(sizes)
  {
  }

  lemma NextIs(data: seq<Frame>, cursor: nat, sizes: seq<nat>)
    requires cursor < |data|
    ensures EndOf(|data|, cursor, sizes) == if CutShort(|data|, cursor, sizes) then |data| - 1 else |data|
    ensures NextOf(data, false, cursor, sizes) == Heard(data[cursor..EndOf(|data|, cursor, sizes)], Sum(sizes))
  {
    hide Sum, CutShort, Heard;
  }

  lemma HeardToEnd(data: seq<Frame>, cursor: nat, end: nat, n: nat, total: nat)
    requires cursor + n <= end <= |data| && n <= total
    ensures Heard(data[cursor..end], total) == data[cursor..cursor + n] + Heard(data[cursor + n..end], total - n)
  {
    var queue := data[cursor..end];
    HeardInChunks(queue, n, total - n);
    assert queue[..n] == data[cursor..cursor + n] && queue[n..] == data[cursor + n..end];
    HeardFirst(queue, n);
    hide Heard, Left;
  }

  lemma HeardFirst(queue: seq<Frame>, n: nat)
    requires n <= |queue|
    ensures Heard(queue, n) == queue[..n] && Left(queue, n) == queue[n..]
  {
  }

  lemma HeardWhole(data: seq<Frame>, cursor: nat, total: nat)
    requires cursor <= |data| && |data| - cursor <= total
    ensures Heard(data[cursor..|data|], total) == data[cursor..|data|] + Silence(total - (|data| - cursor))
  {
  }

  /** A piece that does not reach the end leaves open whether a later one is cut short. */
  lemma CutLater(size: nat, cursor: nat, sizes: seq<nat>, n: nat)
    requires sizes != [] && n == Min(sizes[0], MIX_BUFFER_FRAMES) && cursor + n < size
    ensures CutShort(size, cursor, sizes) && 0 < n && !SoundStuck(size, cursor) ==> cursor + n < size
    ensures !SoundStuck(size, cursor) ==> CutShort(size, cursor, sizes) == CutShort(size, cursor + n, Less(sizes, n))
  {
    assert Less(sizes, n)[1..] == sizes[1..];
    if n == MIX_BUFFER_FRAMES {
      Modular.AddModulus(size - (cursor + n) - 1, MIX_BUFFER_FRAMES);
    }
    hide Modular.Wrap, Sum;
  }

  lemma NotCut(size: nat, cursor: nat, sizes: seq<nat>, n: nat)
    requires cursor < size && sizes != [] && n == Min(sizes[0], MIX_BUFFER_FRAMES) && size <= cursor + n
    requires !SoundStuck(size, cursor)
    ensures !CutShort(size, cursor, sizes)
  {
    Modular.Unique(size - cursor - 1, MIX_BUFFER_FRAMES, 0, size - cursor - 1);
    hide Modular.Wrap;
  }

  /** A sound that stands at a last frame which cannot be read is silent. */
  lemma StuckSlice(b: AudioBuffer, sizes: seq<nat>)
    requires Mixable(b) && b.IsSound() && b.playing && SoundStuck(b.sizeInFrames, b.frameCursorPos)
    requires sizes != [] && 0 < sizes[0]
    ensures !b.looping && Less(sizes, 0) == sizes && Rest(b, sizes) == SoundNext(b, sizes) == Silence(Sum(sizes))
    ensures SoundNext(b, sizes) == [] + Rest(b, Less(sizes, 0))
  {
    StuckIsCut(b.sizeInFrames, b.frameCursorPos, sizes);
    hide Sum, CutShort;
  }

  lemma StuckIsCut(size: nat, cursor: nat, sizes: seq<nat>)
    requires cursor < size && SoundStuck(size, cursor) && sizes != [] && 0 < sizes[0]
    ensures size % 2 == 1 && cursor == size - 1 && CutShort(size, cursor, sizes)
  {
    Modular.Unique(0, MIX_BUFFER_FRAMES, 0, 0);
  }

  /** The reading loop, as far as the converter's input goes: required is how many input frames the
      converter requires for the output asked for. Without resampling a buffer gives what it owes; and
      a sound that does not loop always gives the pieces that OneShotPieces describes, right or wrong. */
  method ReadAudioBufferFramesInMixingFormat(b: AudioBuffer, required: nat, ghost owing: bool, ghost all: seq<Frame>,
                                             ghost done: seq<Frame>, ghost sizes: seq<nat>)
    returns (input: seq<Frame>)
    requires Readable(b)
    requires owing ==> Mixable(b) && b.playing && !b.paused && Owed(b, all, done, sizes) && Served(b, required, sizes)
    modifies b
    ensures Readable(b) && b.looping == old(b.looping) && |input| <= required
    ensures owing ==> Mixable(b) && Owed(b, all, done + input, Less(sizes, |input|)) && GoesOn(b, required, input)
    ensures old(IsOneShot(b)) ==>
              IsOneShot(b) && input == OneShotPieces(b.data[..], old(b.frameCursorPos), required,
                                                     InputCap(b.frameSizeInBytes))
  {
    hide *;
    CapOf(b, owing, required, sizes);
    ghost var oneShot, pieces := IsOneShot(b), AllPieces(b, required);
    var inputBufferFrameCap := InputCap(b.frameSizeInBytes);
    input := [];
    Ungroup(done);
    Ungroup(pieces);
    if owing { LessLess(sizes, 0, 0); }
    while |input| < required
      invariant Readable(b) && b.looping == old(b.looping) && |input| <= required
      invariant owing ==> Mixable(b) && required <= sizes[0] && Owed(b, all, done + input, Less(sizes, |input|))
      invariant owing ==> if b.playing then !b.paused else !b.looping && |input| == required
      invariant owing && !b.looping ==> |input| == 0 || |input| == required
      invariant oneShot ==> IsOneShot(b) && pieces == input + PiecesFrom(b, required - |input|)
      decreases required - |input|
    {
      var framesToProcess := required - |input|;
      if framesToProcess > inputBufferFrameCap { framesToProcess := inputBufferFrameCap; }
      var short;
      input, short := AppendSlice(b, framesToProcess, required - |input|, input, owing, all, done, sizes, oneShot,
                                  pieces);
      GoesOnIs(b, required, input);
      if short { return; }
    }
    GoesOnIs(b, required, input);
    NoPieces(b, oneShot, pieces, input);
  }

  lemma GoesOnIs(b: AudioBuffer, n: nat, out: seq<Frame>)
    ensures GoesOn(b, n, out)
            <==> if b.playing
                 then !b.paused
                      && (|out| == n || (out == [] && !b.looping && SoundStuck(b.sizeInFrames, b.frameCursorPos)))
                 else !b.looping
  {
  }

  lemma CapOf(b: AudioBuffer, owing: bool, required: nat, sizes: seq<nat>)
    requires Readable(b) && (owing ==> Mixable(b) && Served(b, required, sizes))
    ensures 0 < b.frameSizeInBytes <= INPUT_BUFFER_BYTES
    ensures owing ==> sizes != [] && required <= sizes[0]
    ensures owing && !b.looping ==>
              required <= InputCap(b.frameSizeInBytes) && required == Min(sizes[0], MIX_BUFFER_FRAMES)
  {
  }

  ghost predicate IsOneShot(b: AudioBuffer)
    reads b
  {
    b.IsSound() && !b.looping
  }

  /** The pieces of a sound that does not loop which are still to come. */
  ghost function PiecesFrom(b: AudioBuffer, required: nat): seq<Frame>
    requires Readable(b) && IsOneShot(b)
    reads b, b.data
  {
    OneShotPieces(b.data[..], b.frameCursorPos, required, InputCap(b.frameSizeInBytes))
  }

  ghost function AllPieces(b: AudioBuffer, required: nat): (pieces: seq<Frame>)
    requires Readable(b)
    reads b, b.data
    ensures IsOneShot(b) ==> pieces == PiecesFrom(b, required)
    ensures IsOneShot(b) ==> pieces == OneShotPieces(b.data[..], b.frameCursorPos, required,
                                                     InputCap(b.frameSizeInBytes))
  {
    if IsOneShot(b) then PiecesFrom(b, required) else []
  }

  lemma NoPieces(b: AudioBuffer, oneShot: bool, pieces: seq<Frame>, input: seq<Frame>)
    requires Readable(b) && (oneShot ==> IsOneShot(b) && pieces == input + PiecesFrom(b, 0))
    ensures oneShot ==> pieces == input
  {
  }

  lemma NextPiece(data: seq<Frame>, cursor: nat, cursor': nat, rest: nat, n: nat, cap: nat, part: seq<Frame>,
                  input: seq<Frame>, pieces: seq<Frame>)
    requires cursor < |data| && cursor' < |data| && 0 < cap && 0 < n == if rest <= cap then rest else cap
    requires part == OneShotPiece(data, cursor, n) && (|part| == n ==> cursor' == OneShotCursor(|data|, cursor, n))
    requires pieces == input + OneShotPieces(data, cursor, rest, cap)
    ensures pieces == (input + part) + if |part| < n then [] else OneShotPieces(data, cursor', rest - n, cap)
  {
    hide OneShotPiece, OneShotCursor;
    if |part| == n { Regroup(input, part, OneShotPieces(data, cursor', rest - n, cap)); }
    assert input + part + [] == input + part;
  }

  lemma PiecesFromIs(b: AudioBuffer, required: nat)
    requires Readable(b) && IsOneShot(b)
    ensures PiecesFrom(b, required) == OneShotPieces(b.data[..], b.frameCursorPos, required,
                                                     InputCap(b.frameSizeInBytes))
    ensures b.data.Length == b.sizeInFrames && b.frameCursorPos < b.sizeInFrames
  {
  }

  /** One read into the input buffer, appended to the input so far; short if it fell short. */
  method AppendSlice(b: AudioBuffer, n: nat, ghost rest: nat, input: seq<Frame>, ghost owing: bool,
                     ghost all: seq<Frame>,
                     ghost done: seq<Frame>, ghost sizes: seq<nat>, ghost oneShot: bool, ghost pieces: seq<Frame>)
    returns (appended: seq<Frame>, short: bool)
    requires Readable(b) && 0 < n == if rest <= InputCap(b.frameSizeInBytes) then rest else InputCap(b.frameSizeInBytes)
    requires owing ==> Mixable(b) && b.playing && !b.paused && sizes != [] && |input| + n <= sizes[0]
    requires owing ==> Owed(b, all, done + input, Less(sizes, |input|))
    requires owing && !b.looping ==> input == [] && n == Min(sizes[0], MIX_BUFFER_FRAMES)
    requires oneShot ==> IsOneShot(b) && pieces == input + PiecesFrom(b, rest)
    modifies b
    ensures Readable(b) && b.looping == old(b.looping)
    ensures if short then |appended| < |input| + n else |appended| == |input| + n
    ensures owing ==> Mixable(b) && |appended| <= sizes[0] && Owed(b, all, done + appended, Less(sizes, |appended|))
    ensures owing ==> if b.playing
                      then !b.paused && (!short
                                         || (appended == [] && !b.looping
                                         && SoundStuck(b.sizeInFrames, b.frameCursorPos)))
                      else !b.looping
    ensures oneShot ==> IsOneShot(b) && pieces == appended + if short then [] else PiecesFrom(b, rest - n)
  {
    ghost var data, cursor, cap := b.data[..], b.frameCursorPos, InputCap(b.frameSizeInBytes);
    hide *;
    if oneShot { PiecesFromIs(b, rest); }
    ghost var left := if owing then Less(sizes, |input|) else [];
    if owing { ServedIs(b, n, sizes, input); }
    var part := ReadSlice(b, n, owing, all, done + input, left);
    Regroup(done, input, part);
    appended := input + part;
    short := |part| < n;
    GoesOnIs(b, n, part);
    if owing { LessLess(sizes, |input|, |part|); }
    if oneShot {
      PiecesFromIs(b, rest - n);
      NextPiece(data, cursor, b.frameCursorPos, rest, n, cap, part, input, pieces);
    }
  }

  lemma ServedIs(b: AudioBuffer, n: nat, sizes: seq<nat>, input: seq<Frame>)
    requires 0 < n && sizes != [] && |input| + n <= sizes[0]
    requires b.looping || (input == [] && n == Min(sizes[0], MIX_BUFFER_FRAMES))
    ensures Served(b, n, Less(sizes, |input|))
  {
  }

  /** A base with a piece added to it from the front. */
  function Added(base: seq<Frame>, piece: seq<Frame>): (sum: seq<Frame>)
    ensures |sum| == |base|
  {
    seq(|base|, i requires 0 <= i < |base| => base[i] + if i < |piece| then piece[i] else SILENCE)
  }

  /** MixAudioFrames at full volume on a single channel: accumulation at a position. */
  method MixAudioFrames(framesOut: array<Frame>, at: nat, framesIn: seq<Frame>, ghost base: seq<Frame>,
                        ghost done: seq<Frame>)
    requires framesOut[..] == Added(base, done) && |done| == at && at + |framesIn| <= framesOut.Length
    modifies framesOut
    ensures framesOut[..] == Added(base, done + framesIn)
    ensures forall k :: 0 <= k < framesOut.Length ==>
              framesOut[k] == old(framesOut[k]) + if at <= k < at + |framesIn| then framesIn[k - at] else 0
  {
    forall i | 0 <= i < |framesIn| {
      framesOut[at + i] := framesOut[at + i] + framesIn[i];
    }
  }

  /** What a buffer contributes to requests of these sizes. */
  ghost function Contribution(b: AudioBuffer, sizes: seq<nat>): (part: seq<Frame>)
    requires Mixable(b)
    reads b, b.data
    ensures |part| == Sum(sizes)
  {
    if b.playing && !b.paused then Ahead(b, sizes) else Silence(Sum(sizes))
  }

  /** The body of the device callback for one buffer. Whatever is asked for later follows on: what
      this request and later ones get together is what this one got, and what the buffer then
      contributes to the later ones. */
  method MixBuffer(b: AudioBuffer, framesOut: array<Frame>, ghost later: seq<nat>)
    requires Mixable(b) && framesOut != b.data
    modifies b, framesOut
    ensures Mixable(b)
    ensures framesOut[..] == Added(old(framesOut[..]), old(Contribution(b, [framesOut.Length])))
    ensures old(Contribution(b, [framesOut.Length] + later))
            == old(Contribution(b, [framesOut.Length])) + Contribution(b, later)
  {
    hide *;
    var frameCount := framesOut.Length;
    ghost var sizes := [frameCount] + later;
    ghost var base, all := framesOut[..], Contribution(b, sizes);
    var framesRead := 0;
    ghost var done: seq<Frame> := [];
    LessLess(sizes, 0, 0);
    StartMixing(b, base, frameCount, later);
    if !b.playing || b.paused { return; }
    while framesRead < frameCount
      invariant Mixable(b) && b.playing && !b.paused
      invariant framesRead == |done| <= frameCount && framesOut.Length == frameCount
      invariant Owed(b, all, done, Less(sizes, |done|))
      invariant framesOut[..] == Added(base, done)
      decreases frameCount - framesRead
    {
      var framesJustRead;
      framesJustRead, done := MixSlice(b, framesOut, framesRead, Less(sizes, |done|), base, all, done);
      LessLess(sizes, framesRead, framesJustRead);
      framesRead := framesRead + framesJustRead;
      if !b.playing { break; }
    }
    OwedIs(b, all, done, Less(sizes, |done|));
    EndMixing(b, base, all, done, frameCount, later);
  }

  lemma OwedIs(b: AudioBuffer, all: seq<Frame>, done: seq<Frame>, sizes: seq<nat>)
    requires Mixable(b)
    ensures Owed(b, all, done, sizes) <==> all == done + Rest(b, sizes)
  {
  }

  /** One pass of the callback's inner loop: as much as the mix buffer holds. A sound that falls short
      is stopped; a looping buffer never falls short. */
  method MixSlice(b: AudioBuffer, framesOut: array<Frame>, framesRead: nat, ghost left: seq<nat>,
                  ghost base: seq<Frame>,
                  ghost all: seq<Frame>, ghost done: seq<Frame>) returns (framesJustRead: nat, ghost done': seq<Frame>)
    requires Mixable(b) && b.playing && !b.paused && framesOut != b.data
    requires framesRead == |done| < framesOut.Length && framesOut[..] == Added(base, done)
    requires left != [] && left[0] == framesOut.Length - framesRead && Owed(b, all, done, left)
    modifies b, framesOut
    ensures Mixable(b) && framesOut[..] == Added(base, done')
    ensures framesJustRead <= left[0] && |done'| == framesRead + framesJustRead
    ensures Owed(b, all, done', Less(left, framesJustRead))
    ensures b.playing ==> !b.paused && 0 < framesJustRead
  {
    assert 0 < MIX_BUFFER_FRAMES;
    hide *;
    var framesToReadRightNow := framesOut.Length - framesRead;
    if framesToReadRightNow > MIX_BUFFER_FRAMES { framesToReadRightNow := MIX_BUFFER_FRAMES; }
    MixableIsReadable(b, framesToReadRightNow, left);
    var framesIn := ReadAudioBufferFramesInMixingFormat(b, framesToReadRightNow, true, all, done, left);
    GoesOnIs(b, framesToReadRightNow, framesIn);
    MixAudioFrames(framesOut, framesRead, framesIn, base, done);
    framesJustRead, done' := |framesIn|, done + framesIn;
    if b.playing && framesJustRead < framesToReadRightNow {
      StopShort(b, all, done', Less(left, framesJustRead));
    }
  }

  /** Stops a sound that cannot read its last frame. */
  method StopShort(b: AudioBuffer, ghost all: seq<Frame>, ghost done: seq<Frame>, ghost sizes: seq<nat>)
    requires Mixable(b) && b.playing && !b.paused && !b.looping && SoundStuck(b.sizeInFrames, b.frameCursorPos)
    requires sizes != [] && 0 < sizes[0] && Owed(b, all, done, sizes)
    modifies b
    ensures Mixable(b) && Owed(b, all, done, sizes) && !b.playing
  {
    hide *;
    StopsSilently(b, all, done, sizes);
    b.StopAudioBufferInLockedState();
    StoppedIsSilent(b, all, done, sizes);
  }

  lemma MixableIsReadable(b: AudioBuffer, n: nat, sizes: seq<nat>)
    requires Mixable(b) && b.playing && sizes != [] && 0 < n == Min(sizes[0], MIX_BUFFER_FRAMES)
    ensures Readable(b) && Served(b, n, sizes)
  {
  }

  /** A sound that is stopped because it cannot read its last frame owes nothing but silence. */
  lemma StopsSilently(b: AudioBuffer, all: seq<Frame>, done: seq<Frame>, sizes: seq<nat>)
    requires Mixable(b) && b.playing && !b.paused && !b.looping && SoundStuck(b.sizeInFrames, b.frameCursorPos)
    requires sizes != [] && 0 < sizes[0] && Owed(b, all, done, sizes)
    ensures b.Valid() && b.IsPlayingInLockedState() && all == done + Silence(Sum(sizes))
    ensures b.usage == Static && 0 < b.sizeInFrames && b.frameSizeInBytes <= 8
  {
    StuckSlice(b, sizes);
    hide Rest, Silence, Sum;
  }

  lemma StoppedIsSilent(b: AudioBuffer, all: seq<Frame>, done: seq<Frame>, sizes: seq<nat>)
    requires b.Valid() && b.usage == Static && 0 < b.sizeInFrames && b.frameSizeInBytes <= 8 && !b.looping && !b.playing
    requires b.isSubBufferProcessed0 && b.isSubBufferProcessed1 && all == done + Silence(Sum(sizes))
    ensures Mixable(b) && Owed(b, all, done, sizes)
  {
    hide Ahead, Silence, Sum;
  }

  /** A request gets the beginning of what it and later ones get. */
  lemma ContributionPrefix(b: AudioBuffer, n: nat, later: seq<nat>)
    requires Mixable(b)
    ensures Sum([n]) == n && Sum([n] + later) == n + Sum(later)
    ensures Contribution(b, [n] + later)[..n] == Contribution(b, [n])
  {
    SumOfMore(n, later);
    if b.IsSound() {
      NextPrefix(b.data[..], b.looping, b.frameCursorPos, n, later);
    } else {
      HeardInChunks(b.Pending(), n, Sum(later));
    }
    hide PendingOf, Sum, CursorIsPending, NextOf, Heard;
  }

  lemma NextPrefix(data: seq<Frame>, looping: bool, cursor: nat, n: nat, later: seq<nat>)
    requires cursor < |data|
    ensures Sum([n]) == n && Sum([n] + later) == n + Sum(later)
    ensures NextOf(data, looping, cursor, [n] + later)[..n] == NextOf(data, looping, cursor, [n])
  {
    SumOfMore(n, later);
    if looping {
      LoopInPieces(data, cursor, n, Sum(later));
    } else {
      CutPrefix(|data|, cursor, n, later);
      SameStart(data, cursor, EndOf(|data|, cursor, [n] + later), EndOf(|data|, cursor, [n]), n, Sum(later));
      hide Heard;
    }
    hide LoopFrom, Sum, EndOf;
  }

  lemma SameStart(data: seq<Frame>, cursor: nat, end: nat, end': nat, n: nat, more: nat)
    requires cursor <= end <= end' <= |data| && (end == end' || cursor + n <= end)
    ensures Heard(data[cursor..end], n + more)[..n] == Heard(data[cursor..end'], n)
  {
    HeardInChunks(data[cursor..end], n, more);
    if end != end' {
      assert data[cursor..end][..n] == data[cursor..end'][..n];
    }
  }

  lemma SumOfMore(n: nat, later: seq<nat>)
    ensures Sum([n]) == n && Sum([n] + later) == n + Sum(later)
  {
    assert ([n] + later)[1..] == later;
  }

  /** Whether a sound is cut short later does not matter before. */
  lemma CutPrefix(size: nat, cursor: nat, n: nat, later: seq<nat>)
    requires cursor < size
    ensures EndOf(size, cursor, [n] + later) == EndOf(size, cursor, [n])
            || (EndOf(size, cursor, [n]) == size && cursor + n <= EndOf(size, cursor, [n] + later) == size - 1)
    ensures CutShort(size, cursor, [0] + later) == CutShort(size, cursor, later)
  {
    assert ([n] + later)[1..] == later && ([0] + later)[1..] == later && [n][1..] == [];
    NoneRequired(size, cursor);
    hide LosesLastFrame;
    assert CutShort(size, cursor, [n]) == LosesLastFrame(size, cursor, n, MIX_BUFFER_FRAMES);
    assert CutShort(size, cursor, [n] + later)
           == (LosesLastFrame(size, cursor, n, MIX_BUFFER_FRAMES)
               || (cursor + n < size && CutShort(size, cursor + n, later)));
  }

  lemma NoneRequired(size: nat, cursor: nat)
    requires cursor < size
    ensures !LosesLastFrame(size, cursor, 0, MIX_BUFFER_FRAMES)
  {
  }

  lemma StartMixing(b: AudioBuffer, base: seq<Frame>, n: nat, later: seq<nat>)
    requires Mixable(b) && |base| == n
    ensures var all := Contribution(b, [n] + later);
      && |all| == n + Sum(later) && |Contribution(b, [n])| == n
      && Added(base, []) == base && all[..n] == Contribution(b, [n])
      && (b.playing && !b.paused ==> Owed(b, all, [], [n] + later))
      && (!(b.playing && !b.paused) ==>
            Added(base, Contribution(b, [n])) == base && all == Contribution(b, [n]) + Contribution(b, later))
  {
    ContributionPrefix(b, n, later);
    hide Ahead, Sum;
  }

  lemma EndMixing(b: AudioBuffer, base: seq<Frame>, all: seq<Frame>, done: seq<Frame>, n: nat, later: seq<nat>)
    requires Mixable(b) && |all| == n + Sum(later) && |base| == n && |done| <= n
    requires all == done + Rest(b, Less([n] + later, |done|))
    requires !b.playing || (!b.paused && |done| == n)
    ensures Added(base, done) == Added(base, all[..n]) && all == all[..n] + Contribution(b, later)
  {
    hide *;
    var sizes := [n - |done|] + later;
    LessOf(n, later, |done|);
    SumOfMore(n - |done|, later);
    NothingFirst(b, later);
    EndsWith(b, later, sizes);
    if b.playing {
      Continued(all, done, n, Contribution(b, later));
    } else {
      SilentEnd(base, done, n, Sum(later));
    }
  }

  lemma LessOf(n: nat, later: seq<nat>, k: nat)
    requires k <= n
    ensures Less([n] + later, k) == [n - k] + later
  {
    hide Sum;
  }

  lemma Continued(all: seq<Frame>, done: seq<Frame>, n: nat, rest: seq<Frame>)
    requires all == done + rest && |done| == n
    ensures all[..n] == done
  {
  }

  lemma EndsWith(b: AudioBuffer, later: seq<nat>, sizes: seq<nat>)
    requires Mixable(b) && Ahead(b, [0] + later) == Ahead(b, later)
    ensures !b.playing ==> Rest(b, sizes) == Silence(Sum(sizes)) && Contribution(b, later) == Silence(Sum(later))
    ensures b.playing && !b.paused ==> Rest(b, [0] + later) == Contribution(b, later)
  {
    hide Ahead, Sum;
  }

  lemma SilentEnd(base: seq<Frame>, done: seq<Frame>, n: nat, more: nat)
    requires |base| == n && |done| <= n
    ensures var all := done + Silence(n - |done| + more);
            Added(base, done) == Added(base, all[..n]) && all == all[..n] + Silence(more)
  {
  }

  lemma NothingFirst(b: AudioBuffer, later: seq<nat>)
    requires Mixable(b)
    ensures Ahead(b, [0] + later) == Ahead(b, later)
  {
    SumOfMore(0, later);
    if b.IsSound() && !b.looping { CutPrefix(b.sizeInFrames, b.frameCursorPos, 0, later); }
    hide LoopFrom, PendingOf, Sum, CutShort, CursorIsPending;
  }

  /** The sum of what the buffers contribute. */
  function Mixdown(parts: seq<seq<Frame>>, n: nat): (sum: seq<Frame>)
    ensures |sum| == n
  {
    if parts == [] then Silence(n) else Added(Mixdown(parts[..|parts| - 1], n), parts[|parts| - 1])
  }

  /** Frame by frame, what is heard is a sum: of nothing it is silence, and each part adds its own. */
  lemma MixdownIsSum(parts: seq<seq<Frame>>, part: seq<Frame>, n: nat, k: nat)
    requires k < n && |part| == n
    ensures Mixdown([], n)[k] == 0 && Mixdown(parts + [part], n)[k] == Mixdown(parts, n)[k] + part[k]
  {
    assert (parts + [part])[..|parts|] == parts;
  }

  lemma NothingMixed(parts: seq<seq<Frame>>, n: nat)
    ensures Mixdown(parts[..0], n) == Silence(n)
  {
  }

  lemma MixdownNext(parts: seq<seq<Frame>>, k: nat, n: nat)
    requires k < |parts|
    ensures Mixdown(parts[..k + 1], n) == Added(Mixdown(parts[..k], n), parts[k])
  {
    assert parts[..k + 1][..k] == parts[..k];
  }

  /** One request of the device: whatever slicing happens on the way, the output is the sum of
      the parts, where a part is what one tracked buffer plays next; and each buffer goes on where
      its part ends. */
  method OnSendAudioDataToDevice(buffers: seq<AudioBuffer>, framesOut: array<Frame>, ghost parts: seq<seq<Frame>>,
                                 ghost later: seq<nat>)
    requires forall i :: 0 <= i < |buffers| ==> Mixable(buffers[i]) && framesOut != buffers[i].data
    requires forall i, j :: 0 <= i < j < |buffers| ==> buffers[i] != buffers[j]
    requires |parts| == |buffers|
    requires forall i :: 0 <= i < |buffers| ==> parts[i] == Contribution(buffers[i], [framesOut.Length])
    modifies framesOut, buffers
    ensures forall i :: 0 <= i < |buffers| ==> Mixable(buffers[i])
    ensures framesOut[..] == Mixdown(parts, framesOut.Length)
    ensures forall i :: 0 <= i < |buffers| ==>
              old(Contribution(buffers[i], [framesOut.Length] + later)) == parts[i] + Contribution(buffers[i], later)
  {
    hide *;
    var n := framesOut.Length;
    Clear(framesOut);
    NothingMixed(parts, n);
    for k := 0 to |buffers|
      invariant framesOut[..] == Mixdown(parts[..k], n)
      invariant forall i :: 0 <= i < |buffers| ==> Mixable(buffers[i])
      invariant forall i :: k <= i < |buffers| ==> unchanged(buffers[i])
      invariant forall i :: 0 <= i < k ==>
                  old(Contribution(buffers[i], [n] + later)) == parts[i] + Contribution(buffers[i], later)
    {
      MixdownNext(parts, k, n);
      assert Contribution(buffers[k], [n]) == parts[k];
      MixBuffer(buffers[k], framesOut, later);
    }
    assert parts[..|buffers|] == parts;
  }

  /** n frames of every part, from a place on. */
  function Slices(parts: seq<seq<Frame>>, at: nat, n: nat): (slices: seq<seq<Frame>>)
    requires forall i :: 0 <= i < |parts| ==> at + n <= |parts[i]|
    ensures |slices| == |parts|
  {
    seq(|parts|, i requires 0 <= i < |parts| => parts[i][at..at + n])
  }

  lemma {:induction false} MixdownInSlices(parts: seq<seq<Frame>>, at: nat, n: nat)
    requires forall i :: 0 <= i < |parts| ==> at + n <= |parts[i]|
    ensures Mixdown(Slices(parts, 0, at + n), at + n)
            == Mixdown(Slices(parts, 0, at), at) + Mixdown(Slices(parts, at, n), n)
    decreases |parts|
  {
    if parts != [] {
      var k := |parts| - 1;
      MixdownInSlices(parts[..k], at, n);
      SlicesOfMore(parts, 0, at + n);
      SlicesOfMore(parts, 0, at);
      SlicesOfMore(parts, at, n);
      assert parts[k][0..at + n] == parts[k][0..at] + parts[k][at..at + n];
      hide Slices, Added;
      AddedInPieces(Mixdown(Slices(parts[..k], 0, at), at), Mixdown(Slices(parts[..k], at, n), n),
                    parts[k][0..at], parts[k][at..at + n]);
    }
  }

  lemma SlicesOfMore(parts: seq<seq<Frame>>, at: nat, n: nat)
    requires parts != [] && forall i :: 0 <= i < |parts| ==> at + n <= |parts[i]|
    ensures var k := |parts| - 1;
      Slices(parts, at, n)[k] == parts[k][at..at + n] && Slices(parts, at, n)[..k] == Slices(parts[..k], at, n)
  {
  }

  lemma AddedInPieces(a: seq<Frame>, b: seq<Frame>, c: seq<Frame>, d: seq<Frame>)
    requires |a| == |c| && |b| == |d|
    ensures Added(a + b, c + d) == Added(a, c) + Added(b, d)
  {
  }

  /** Requests of any sizes, one after the other, give what each buffer contributes to them all; later
      requests find the buffers where these have left them. */
  method RequestInPieces(buffers: seq<AudioBuffer>, sizes: seq<nat>, ghost parts: seq<seq<Frame>>,
                         ghost later: seq<nat>)
    returns (heard: seq<Frame>)
    requires forall i :: 0 <= i < |buffers| ==> Mixable(buffers[i])
    requires forall i, j :: 0 <= i < j < |buffers| ==> buffers[i] != buffers[j]
    requires |parts| == |buffers|
    requires forall i :: 0 <= i < |buffers| ==> parts[i] == Contribution(buffers[i], sizes + later)
    modifies buffers
    ensures forall i :: 0 <= i < |buffers| ==> Mixable(buffers[i])
    ensures forall i :: 0 <= i < |buffers| ==> Sum(sizes) <= |parts[i]|
    ensures heard == Mixdown(Slices(parts, 0, Sum(sizes)), Sum(sizes))
    ensures forall i :: 0 <= i < |buffers| ==> Contribution(buffers[i], later) == parts[i][Sum(sizes)..]
  {
    hide *;
    heard := [];
    ghost var total, end := Sum(sizes), Sum(sizes) + Sum(later);
    StartRequests(parts, sizes, later);
    for k := 0 to |sizes|
      invariant forall i :: 0 <= i < |buffers| ==> Mixable(buffers[i])
      invariant |heard| + Sum(sizes[k..]) == total <= end && forall i :: 0 <= i < |buffers| ==> |parts[i]| == end
      invariant heard == Mixdown(Slices(parts, 0, |heard|), |heard|)
      invariant forall i :: 0 <= i < |buffers| ==> Contribution(buffers[i], sizes[k..] + later) == parts[i][|heard|..]
    {
      var n := sizes[k];
      RequestsLeft(sizes, later, k);
      ghost var rest, slices := sizes[k + 1..] + later, Slices(parts, |heard|, n);
      forall i | 0 <= i < |buffers|
        ensures slices[i] == Contribution(buffers[i], [n])
                && Contribution(buffers[i], [n] + rest) == parts[i][|heard|..]
      {
        NextSlice(buffers[i], parts, i, |heard|, n, rest, end);
      }
      var framesOut := new Frame[n];
      OnSendAudioDataToDevice(buffers, framesOut, slices, rest);
      forall i | 0 <= i < |buffers| ensures Contribution(buffers[i], rest) == parts[i][|heard| + n..] {
        AfterSlice(buffers[i], parts, i, |heard|, n, rest, end);
      }
      MixdownInSlices(parts, |heard|, n);
      heard := heard + framesOut[..];
    }
    NoRequestsLeft(sizes, later);
  }

  lemma StartRequests(parts: seq<seq<Frame>>, sizes: seq<nat>, later: seq<nat>)
    ensures sizes[0..] == sizes && Sum(sizes + later) == Sum(sizes) + Sum(later)
    ensures forall i :: 0 <= i < |parts| ==> parts[i][0..] == parts[i]
    ensures Mixdown(Slices(parts, 0, 0), 0) == []
  {
    SumOfAll(sizes, later);
  }

  lemma {:induction false} SumOfAll(sizes: seq<nat>, later: seq<nat>)
    ensures Sum(sizes + later) == Sum(sizes) + Sum(later)
    decreases |sizes|
  {
    if sizes == [] {
      assert sizes + later == later;
    } else {
      assert (sizes + later)[1..] == sizes[1..] + later;
      SumOfAll(sizes[1..], later);
    }
  }

  lemma RequestsLeft(sizes: seq<nat>, later: seq<nat>, k: nat)
    requires k < |sizes|
    ensures sizes[k..] + later == [sizes[k]] + (sizes[k + 1..] + later)
    ensures Sum(sizes[k..]) == sizes[k] + Sum(sizes[k + 1..])
  {
    assert sizes[k..][1..] == sizes[k + 1..];
  }

  lemma NoRequestsLeft(sizes: seq<nat>, later: seq<nat>)
    ensures sizes[|sizes|..] + later == later && Sum(sizes[|sizes|..]) == 0
  {
  }

  lemma NextSlice(b: AudioBuffer, parts: seq<seq<Frame>>, i: nat, at: nat, n: nat, rest: seq<nat>, end: nat)
    requires Mixable(b) && i < |parts| && at + n <= end && forall k :: 0 <= k < |parts| ==> |parts[k]| == end
    requires Contribution(b, [n] + rest) == parts[i][at..]
    ensures Slices(parts, at, n)[i] == Contribution(b, [n])
  {
    ContributionPrefix(b, n, rest);
    hide Contribution, Sum;
  }

  lemma AfterSlice(b: AudioBuffer, parts: seq<seq<Frame>>, i: nat, at: nat, n: nat, rest: seq<nat>, end: nat)
    requires Mixable(b) && i < |parts| && at + n <= end && forall k :: 0 <= k < |parts| ==> |parts[k]| == end
    requires parts[i][at..] == Slices(parts, at, n)[i] + Contribution(b, rest)
    ensures Contribution(b, rest) == parts[i][at + n..]
  {
    hide Contribution, Sum;
    assert parts[i][at..][n..] == parts[i][at + n..];
  }

  /** How the device cuts up what it asks for is never heard, except by a sound that does not loop
      and is cut short: that is heard up to its last frame. */
  lemma ContributionBySum(b: AudioBuffer, sizes: seq<nat>)
    requires Mixable(b)
    ensures Contribution(b, sizes)
            == if !b.playing || b.paused then Silence(Sum(sizes))
               else if b.IsStream() then Heard(b.Pending(), Sum(sizes))
               else if b.looping then LoopFrom(b.data[..], b.frameCursorPos, Sum(sizes))
               else if CutShort(b.sizeInFrames, b.frameCursorPos, sizes)
               then Heard(b.data[b.frameCursorPos..b.sizeInFrames - 1], Sum(sizes))
               else Heard(b.data[b.frameCursorPos..], Sum(sizes))
  {
    assert b.IsSound() ==> b.data[b.frameCursorPos..b.sizeInFrames] == b.data[b.frameCursorPos..];
    hide LoopFrom, PendingOf, Sum, CutShort, CursorIsPending;
  }

  /** A sound that does not loop is heard once and to its end, whatever it contains, exactly unless
      requests begin a piece at the last frame of an odd size. Then all but that frame is heard. */
  lemma OneShotHeardExactly(size: nat, cursor: nat, sizes: seq<nat>)
    requires cursor < size
    ensures (forall data: seq<Frame> | |data| == size ::
               NextOf(data, false, cursor, sizes) == Heard(data[cursor..], Sum(sizes)))
            <==> !CutShort(size, cursor, sizes)
    ensures CutShort(size, cursor, sizes) ==>
              forall data: seq<Frame> | |data| == size ::
                NextOf(data, false, cursor, sizes) == Heard(data[cursor..size - 1], Sum(sizes))
  {
    hide Sum;
    if CutShort(size, cursor, sizes) {
      CutInside(size, cursor, sizes);
      var data := seq(size, i => 1);
      assert Heard(data[cursor..], Sum(sizes))[size - 1 - cursor] == 1;
      assert NextOf(data, false, cursor, sizes)[size - 1 - cursor] == SILENCE;
    } else {
      hide CutShort;
      forall data: seq<Frame> | |data| == size
        ensures NextOf(data, false, cursor, sizes) == Heard(data[cursor..], Sum(sizes))
      {
        assert data[cursor..size] == data[cursor..];
      }
    }
  }

  lemma {:induction false} CutInside(size: nat, cursor: nat, sizes: seq<nat>)
    requires cursor < size && CutShort(size, cursor, sizes)
    ensures size - cursor <= Sum(sizes)
    decreases |sizes|
  {
    if !LosesLastFrame(size, cursor, sizes[0], MIX_BUFFER_FRAMES) {
      CutInside(size, cursor + sizes[0], sizes[1..]);
    }
  }

  /** A piece begins at the last frame of an odd size: in some request, after whole pieces of 512. */
  ghost predicate PieceAtLast(size: nat, cursor: nat, sizes: seq<nat>, k: nat, pieces: nat) {
    && 1 < size && size % 2 == 1 && k < |sizes| && 512 * pieces < sizes[k]
    && cursor + Sum(sizes[..k]) + 512 * pieces == size - 1
  }

  lemma {:induction false} CutShortExactly(size: nat, cursor: nat, sizes: seq<nat>)
    requires cursor < size
    ensures CutShort(size, cursor, sizes) <==> exists k: nat, pieces: nat :: PieceAtLast(size, cursor, sizes, k, pieces)
    decreases |sizes|
  {
    if sizes != [] {
      LosesByPieces(size, cursor, sizes);
      var next := cursor + sizes[0];
      if next < size {
        CutShortExactly(size, next, sizes[1..]);
        LaterPieces(size, cursor, sizes, next, sizes[1..]);
      } else {
        NoLaterPieces(size, cursor, sizes);
      }
      hide LosesLastFrame, Sum, PieceAtLast;
    }
  }

  /** In the first request. */
  lemma LosesByPieces(size: nat, cursor: nat, sizes: seq<nat>)
    requires cursor < size && sizes != []
    ensures LosesLastFrame(size, cursor, sizes[0], MIX_BUFFER_FRAMES)
            <==> exists pieces: nat :: PieceAtLast(size, cursor, sizes, 0, pieces)
  {
    var left := size - 1 - cursor;
    assert sizes[..0] == [] && Sum([]) == 0;
    assert 512 * (left / 512) + left % 512 == left && Modular.Wrap(left, MIX_BUFFER_FRAMES) == left % 512;
    if LosesLastFrame(size, cursor, sizes[0], MIX_BUFFER_FRAMES) {
      assert PieceAtLast(size, cursor, sizes, 0, left / 512);
    }
  }

  lemma LaterPieces(size: nat, cursor: nat, sizes: seq<nat>, next: nat, rest: seq<nat>)
    requires sizes != [] && next == cursor + sizes[0] && rest == sizes[1..]
    ensures (exists k: nat, pieces: nat :: PieceAtLast(size, next, rest, k, pieces))
            <==> exists k: nat, pieces: nat :: 0 < k && PieceAtLast(size, cursor, sizes, k, pieces)
  {
    forall k: nat, pieces: nat | k < |rest|
      ensures PieceAtLast(size, next, rest, k, pieces) == PieceAtLast(size, cursor, sizes, k + 1, pieces)
    {
      OneSizeMore(sizes, k);
    }
    hide Sum;
    if k: nat, pieces: nat :| 0 < k && PieceAtLast(size, cursor, sizes, k, pieces) {
      assert PieceAtLast(size, next, rest, k - 1, pieces);
    }
  }

  lemma OneSizeMore(sizes: seq<nat>, k: nat)
    requires k + 1 < |sizes|
    ensures Sum(sizes[..k + 1]) == sizes[0] + Sum(sizes[1..][..k])
  {
    assert sizes[..k + 1][1..] == sizes[1..][..k];
  }

  lemma NoLaterPieces(size: nat, cursor: nat, sizes: seq<nat>)
    requires sizes != [] && size <= cursor + sizes[0]
    ensures forall k: nat, pieces: nat :: 0 < k ==> !PieceAtLast(size, cursor, sizes, k, pieces)
  {
    forall k: nat | 0 < k < |sizes| ensures sizes[0] <= Sum(sizes[..k]) {
      OneSizeMore(sizes, k - 1);
    }
    hide Sum;
  }

  /** 513 frames in one request: the second piece begins at the last frame. In requests of 500 and
      13 it does not. */
  lemma LastOf513()
    ensures CutShort(513, 0, [513]) && CutShort(513, 0, [1024]) && !CutShort(513, 0, [500, 13])
  {
    assert Modular.Wrap(512, 512) == 0 && Modular.Wrap(12, 512) == 12;
    assert [500, 13][1..] == [13];
  }

  /** The memset at the start of the callback. */
  method Clear(framesOut: array<Frame>)
    modifies framesOut
    ensures framesOut[..] == Silence(framesOut.Length)
  {
    forall i | 0 <= i < framesOut.Length { framesOut[i] := SILENCE; }
  }

  // ---- Sounds that do not loop ----

  /** One read of a sound that does not loop. */
  function OneShotPiece(data: seq<Frame>, cursor: nat, n: nat): (part: seq<Frame>)
    requires cursor < |data|
    ensures |part| <= n
  {
    if SoundStuck(|data|, cursor) then [] else SoundAhead(data, false, cursor, n)
  }

  /** The cursor after a read that was filled: the end of the sound stops it, which puts the cursor
      back to its start. */
  function OneShotCursor(size: nat, cursor: nat, n: nat): (next: nat)
    requires cursor < size
    ensures next < size
  {
    if SoundStuck(size, cursor) then cursor else SoundCursor(size, false, cursor, n)
  }

  /** What the reading loop gives of a sound that does not loop when the converter requires some number of
      input frames: each read ends at the cap, and only a read that falls short ends the loop. */
  function OneShotPieces(data: seq<Frame>, cursor: nat, required: nat, cap: nat): seq<Frame>
    requires cursor < |data| && 0 < cap
    decreases required
  {
    if required == 0 then []
    else
      var framesToProcess := Min(required, cap);
      var part := OneShotPiece(data, cursor, framesToProcess);
      if |part| < framesToProcess then part
      else part + OneShotPieces(data, OneShotCursor(|data|, cursor, framesToProcess), required - framesToProcess, cap)
  }

  /** The reads end where the sound does, while more is required: the next one starts it over. */
  predicate StartsOver(size: nat, cursor: nat, required: nat, cap: nat)
    requires cursor < size && 0 < cap
  {
    size - cursor < required && Modular.Wrap(size - cursor, cap) == 0
  }

  /** The reads end before the last frame of a sound of odd size, which cannot be read then. */
  predicate LosesLastFrame(size: nat, cursor: nat, required: nat, cap: nat)
    requires cursor < size && 0 < cap
  {
    SoundStuck(size, size - 1) && size - cursor <= required && Modular.Wrap(size - cursor - 1, cap) == 0
  }

  /** The part of the sound that n frames cover. */
  function Played(data: seq<Frame>, cursor: nat, n: nat): seq<Frame>
    requires cursor <= |data|
  {
    data[cursor..cursor + Min(n, |data| - cursor)]
  }

  /** A sound that does not loop is played once and no further, exactly unless it starts over or
      loses its last frame. */
  lemma {:induction false} OneShotPlaysOnceExactly(data: seq<Frame>, cursor: nat, required: nat, cap: nat)
    requires cursor < |data| && 0 < cap
    ensures OneShotPieces(data, cursor, required, cap) == Played(data, cursor, required)
            <==> !StartsOver(|data|, cursor, required, cap) && !LosesLastFrame(|data|, cursor, required, cap)
    decreases required
  {
    hide *;
    if required == 0 {
      NothingRequired(data, cursor, cap);
    } else if SoundStuck(|data|, cursor) {
      NoPiece(data, cursor, required, cap);
    } else if required <= cap || |data| - cursor < cap {
      LastPiece(data, cursor, required, cap);
    } else if |data| - cursor == cap {
      PieceToTheEnd(data, cursor, required, cap);
    } else {
      FullPiece(data, cursor, required, cap);
      PlayedInPieces(data, cursor, required, cap);
      SamePlace(|data|, cursor, required, cap);
      OneShotPlaysOnceExactly(data, cursor + cap, required - cap, cap);
      SameTail(data[cursor..cursor + cap], OneShotPieces(data, cursor + cap, required - cap, cap),
               Played(data, cursor + cap, required - cap));
    }
  }

  lemma SameTail(a: seq<Frame>, b: seq<Frame>, c: seq<Frame>)
    ensures a + b == a + c <==> b == c
  {
    assert (a + b)[|a|..] == b && (a + c)[|a|..] == c;
  }

  lemma NothingRequired(data: seq<Frame>, cursor: nat, cap: nat)
    requires cursor < |data| && 0 < cap
    ensures OneShotPieces(data, cursor, 0, cap) == Played(data, cursor, 0)
    ensures !StartsOver(|data|, cursor, 0, cap) && !LosesLastFrame(|data|, cursor, 0, cap)
  {
  }

  lemma NoPiece(data: seq<Frame>, cursor: nat, required: nat, cap: nat)
    requires cursor < |data| && 0 < required && 0 < cap && SoundStuck(|data|, cursor)
    ensures OneShotPieces(data, cursor, required, cap) != Played(data, cursor, required)
    ensures LosesLastFrame(|data|, cursor, required, cap)
  {
    Modular.Unique(0, cap, 0, 0);
  }

  lemma PieceToTheEnd(data: seq<Frame>, cursor: nat, required: nat, cap: nat)
    requires cursor < |data| && 0 < cap < required && |data| - cursor == cap && !SoundStuck(|data|, cursor)
    ensures OneShotPieces(data, cursor, required, cap) != Played(data, cursor, required)
    ensures StartsOver(|data|, cursor, required, cap)
  {
    Modular.Unique(cap, cap, 1, 0);
    assert OneShotPiece(data, cursor, cap) == data[cursor..];
    assert 0 < |OneShotPiece(data, 0, Min(required - cap, cap))|;
    assert 0 < |OneShotPieces(data, 0, required - cap, cap)|;
  }

  /** A piece that is not filled, or that is all that is required. */
  lemma LastPiece(data: seq<Frame>, cursor: nat, required: nat, cap: nat)
    requires cursor < |data| && 0 < required && !SoundStuck(|data|, cursor)
    requires 0 < cap && (required <= cap || |data| - cursor < cap)
    ensures OneShotPieces(data, cursor, required, cap) == Played(data, cursor, required)
    ensures !StartsOver(|data|, cursor, required, cap) && !LosesLastFrame(|data|, cursor, required, cap)
  {
    var left := |data| - cursor;
    if left < cap { Modular.Unique(left, cap, 0, left); }
    if left <= cap { Modular.Unique(left - 1, cap, 0, left - 1); }
    hide Modular.Wrap;
  }

  /** A piece that is filled, and does not reach the end, is followed by the rest. */
  lemma FullPiece(data: seq<Frame>, cursor: nat, required: nat, cap: nat)
    requires 0 < cap < required && cursor + cap < |data| && !SoundStuck(|data|, cursor)
    ensures OneShotPieces(data, cursor, required, cap)
            == data[cursor..cursor + cap] + OneShotPieces(data, cursor + cap, required - cap, cap)
  {
    FilledPiece(data, cursor, cap);
    hide OneShotPiece, OneShotCursor, SoundStuck;
  }

  lemma FilledPiece(data: seq<Frame>, cursor: nat, n: nat)
    requires cursor + n < |data| && !SoundStuck(|data|, cursor)
    ensures OneShotPiece(data, cursor, n) == data[cursor..cursor + n] && OneShotCursor(|data|, cursor, n) == cursor + n
  {
  }

  lemma PlayedInPieces(data: seq<Frame>, cursor: nat, required: nat, cap: nat)
    requires cap <= required && cursor + cap <= |data|
    ensures Played(data, cursor, required) == data[cursor..cursor + cap] + Played(data, cursor + cap, required - cap)
  {
  }

  lemma SamePlace(size: nat, cursor: nat, required: nat, cap: nat)
    requires 0 < cap < required && cursor + cap < size
    ensures StartsOver(size, cursor, required, cap) == StartsOver(size, cursor + cap, required - cap, cap)
    ensures LosesLastFrame(size, cursor, required, cap) == LosesLastFrame(size, cursor + cap, required - cap, cap)
  {
    Modular.AddModulus(size - (cursor + cap), cap);
    Modular.AddModulus(size - (cursor + cap) - 1, cap);
    hide Modular.Wrap, SoundStuck;
  }

  /** With a one-to-one converter the mix buffer's 512 frames of 8 bytes are never more than a read. */
  lemma OneToOneNeverStartsOver(data: seq<Frame>, cursor: nat, required: nat, frameSizeInBytes: nat)
    requires cursor < |data| && 0 < frameSizeInBytes <= 8 && required <= MIX_BUFFER_FRAMES
    requires !SoundStuck(|data|, cursor)
    ensures OneShotPieces(data, cursor, required, InputCap(frameSizeInBytes)) == Played(data, cursor, required)
  {
    if required > 0 { LastPiece(data, cursor, required, InputCap(frameSizeInBytes)); }
  }

  /** Twice the pitch: for 512 output frames the converter requires 1024 input frames of the 8 bytes
      that every loaded sound has. A sound of 512 frames is then heard twice. */
  lemma TwiceThePitchStartsOver(data: seq<Frame>)
    requires |data| == 512
    ensures InputCap(8) == 512 && OneShotPieces(data, 0, 1024, InputCap(8)) == data + data
  {
    assert InputCap(8) == 512;
    var rest := OneShotPieces(data, 0, 512, 512);
    LastPiece(data, 0, 512, 512);
    assert OneShotPiece(data, 0, 512) == data;
  }
}
