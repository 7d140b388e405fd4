# raylib: streaming audio, text, codecs, automation events and geometry

This project models, in Dafny, the parts of raylib (version 5.6-dev, vendored under `raylib/`) that keep
state across calls or promise a law over whole inputs, and proves those laws for all inputs and all
runs.

| file | what it models |
|---|---|
| `FrameQueue.dfy` | a queue of audio frames with silence on underrun, and what every run of it plays |
| `AudioBuffer.dfy`, `StreamRuns.dfy` | the double-buffered audio stream and static sounds, refining that queue |
| `Mixer.dfy` | the device callback with its two levels of slicing |
| `Music.dfy`, `MusicRuns.dfy`, `Loops.dfy`, `Clock.dfy`, `Modular.dfy` | looping and one-shot music, seeking, and the playback clock |
| `AudioLists.dfy` | the doubly linked lists of buffers and of stream processors |
| `Utf8.dfy`, `Utf8Strict.dfy` | UTF-8 encoding, lenient, strict and backward decoding |
| `TextReplace.dfy` | replacement of all occurrences of a substring |
| `FontAtlas.dfy` | the row packer of the font atlas |
| `Automation.dfy`, `AutomationReplay.dfy`, `AutomationLog.dfy`, `AutomationRecorder.dfy`, `AutomationRuns.dfy` | recording and replaying input events |
| `AutomationText.dfy`, `AutomationFiles.dfy` | the text file of an event list |
| `Base64.dfy`, `Crc32.dfy` | the two codecs |
| `Polygon.dfy`, `Quaternions.dfy` | point-in-polygon, and quaternions against matrices, over the reals |

Code that updates fields, buffers or cursors in place is a class or a method with loops, proved against
a specification function; code made of expressions is a function. Every operation on an audio buffer
runs under the audio mutex in the source, so each is one atomic step here and an interleaving of the
program and the device thread is a sequence of such steps.

Where the code falls short of the law one would expect, the model follows the code and the exact
condition is proved:

* Play in the middle of a stream moves the cursor under the waiting data: harmless for all contents
  exactly when the cursor is at the front already or nothing waits (`AudioBuffers.PlayKeepsExactly`).
* A static sound of odd size cannot be read from its last frame. A sound that does not loop is heard once and to
  its end, whatever the requests, exactly unless a 512-frame piece of a request begins at that frame, and then all
  but that frame is heard (`Mixer.OneShotHeardExactly`): 513 frames in one request lose the last one, in requests of
  500 and 13 they do not (`Mixer.LastOf513`). For a looping one slicing is invisible exactly when no slice ends
  there (`AudioBuffers.LoopChunksExactly`); but `looping` is only ever set to false for a buffer (raudio.c:603) and to
  true for a stream (raudio.c:2116), so the program makes no looping sound.
* When a sound is resampled, one that does not loop is started over when its end falls on the end of a full input
  buffer and the converter requires more (`Mixer.OneShotPlaysOnceExactly`). A one-to-one converter never requires more
  than one read of the 8-byte frames that loaded sounds have (`Mixer.OneToOneNeverStartsOver`); at twice the pitch it
  does, and a sound of 512 frames is heard twice (`Mixer.TwiceThePitchStartsOver`).
* A song that does not loop is stopped by the very update that queues its last frames. Unless it is paused or not yet
  playing just then (`MusicPlayer.Music.UpdateMusicStream`), it is never heard to its end
  (`MusicRuns.NeverHeardToItsEnd`), and if it fits the stream's buffer it is not heard at all
  (`MusicRuns.ShortSongNeverHeard`).
* Stopping a paused stream stops nothing, but the decoder is rewound all the same: harmless exactly when the
  frame counter says that the song's first frame is due (`MusicPlayer.RewoundInTune`), and otherwise the song
  starts over behind what still waits (`MusicPlayer.Music.StopThenRefill`). After a seek the clock is ahead by
  the cursor's place in its half until the next refill, and after a seek past the song's end, which moves the counter
  but leaves the decoder at the end, by what the counter is ahead (`MusicPlayer.Music.GetMusicTimePlayed`). The 32-bit
  frame counter is exact unless it wraps (`Clock.CounterWrapExactly`), as it does for a song of three frames at
  2^32 - 1 (`Clock.CounterWraps`); a song that with its buffer is shorter than 2^31 frames never gets there.
* `GetCodepoint` reports a size that leads past the terminator exactly on strings cut short inside a
  sequence (`Utf8Strict.StrictStepsPastExactly`), for instance on the byte C3 alone
  (`Utf8Strict.StepsPastTerminator`).
* `GetCodepointPrevious` reports size 0 exactly for an overlong encoding of NUL, for instance C0 80
  (`Utf8.StepsBackNowhereExactly`, `Utf8.StepsBackNowhere`); a step back matches the forward step exactly when that
  is neither such a NUL nor a stray tail byte (`Utf8.StepsBackExactly`).
* Replaying reproduces a frame exactly when the recorder saw every release (`AutomationReplay.FrameExactly`),
  which polling once a frame guarantees, also for a
  gamepad that is not ready and therefore not polled.
* Mouse position, wheel and axes are recorded as whole numbers, cut off toward zero (`AutomationLog.LoggedExactly`). A wheel
  that moves by the same number in two frames running is replayed as standing still in the second, and exactly then
  what is replayed is not what was recorded (`AutomationRecorder.WheelExactly`). An axis that returns to its rest is not
  recorded, and the replay leaves it where it was (`AutomationRecorder.AxisExactly`).
* The queue of pressed keys is not part of what is recorded. It is filled again in ascending order, which is
  right exactly when it was filled so (`AutomationReplay.QueueReproducedExactly`); pressing B and then A shows the
  difference (`AutomationReplay.QueueOrderIsLost`).
* On a triangle the polygon test takes in, besides the inside, the edges on the left and a level edge at the
  smaller y (`Polygon.TriangleExactly`), and the triangle test takes in no edge; the two differ exactly there
  (`Polygon.TriangleTestsDifferExactly`), for instance in the middle of a lower edge
  (`Polygon.MiddleOfLowerEdge`).
* Glyphs higher than the font are packed correctly up to the font size and the padding together, less three
  rows for the white corner (`FontAtlas.LowGlyphsArePackable`, `FontAtlas.ClearOfCorner`). With one row more
  than that the corner can overwrite one (`FontAtlas.HigherGlyphMeetsCorner`), and above the font size and the
  padding one can reach below the atlas (`FontAtlas.HigherGlyphLeavesAtlas`).

## Model

| member | source | states |
|---|---|---|
| FrameQueue.HeardInChunks | raylib/raudio.c:2502-2566 | reading m frames and then n is reading m + n: same output, same queue left |
| FrameQueue.FirstInFirstOut | raylib/raudio.c:2346-2438 | over every run of refills, reads, pauses, resumes, stops, seeks and plays, each heard frame is an accepted one or silence, accepted frames are heard in order and at most once, and the queue is what has not left yet |
| FrameQueue.EveryFrameIsHeard | raylib/raudio.c:2346-2438 | in a run without a stop or a seek, every frame that left the queue was heard |
| FrameQueue.QueueFitsTheBuffer | raylib/raudio.c:2651-2698 | however a run goes, no more than two halves wait |
| FrameQueue.HeardFrames | raylib/raudio.c:2346-2438 | frame i of a read of n is frame i of the queue, or 0 behind its end, and frame n + i is frame i of what is left |
| FrameQueue.PaddedFrames | raylib/raudio.c:2679-2687 | frame i of a half is frame i of the data, or 0 behind its end |
| AudioBuffers.RefillAppends | raylib/raudio.c:2655-2690 | refilling a free half appends its block to the pending frames, overwrites none of them, and keeps the cursor's half unprocessed |
| AudioBuffers.FreeHalf | raylib/raudio.c:2655 | a half is free exactly when at most one half's worth of frames is pending |
| AudioBuffers.PassTakesFront | raylib/raudio.c:2396-2415 | one pass of the read loop takes the front of the pending frames, advances the cursor around the buffer, and hands a finished half back |
| AudioBuffers.AudioBuffer.constructor | raylib/raudio.c:568-617 | a new buffer: silence, stopped, cursor at the front, both halves marked as processed |
| AudioBuffers.AudioBuffer.PlayAudioBuffer | raylib/raudio.c:645-655 | plays from the front; on a stream whose cursor is there, or that has nothing pending, it keeps what is pending |
| AudioBuffers.PlayKeepsExactly | raylib/raudio.c:650-652 | Play leaves pending frames and invariant alone, whatever the contents, if and only if the cursor is at the front or nothing is pending |
| AudioBuffers.AudioBuffer.PauseAudioBuffer | raylib/raudio.c:666-674 | refines the queue's Pause |
| AudioBuffers.AudioBuffer.ResumeAudioBuffer | raylib/raudio.c:677-685 | refines the queue's Resume |
| AudioBuffers.AudioBuffer.StopAudioBufferInLockedState | raylib/raudio.c:2634-2648 | an unpaused playing buffer is reset, any other is left unchanged |
| AudioBuffers.AudioBuffer.StopAudioBuffer | raylib/raudio.c:658-663 | refines the queue's Stop, which empties an active stream only |
| AudioBuffers.AudioBuffer.SeekBuffer | raylib/raudio.c:1856-1860 | refines the queue's Seek: everything pending is dropped, the counter is set, the cursor stays |
| AudioBuffers.AudioBuffer.IsAudioStreamProcessed | raylib/raudio.c:2152-2161 | true exactly when at most half of the buffer is pending |
| AudioBuffers.AudioBuffer.UpdateAudioStream | raylib/raudio.c:2144-2149 | for every frame count that fits a free half, half a buffer is appended to the pending frames: frame i of it is input[i] below the frame count and 0 from there on; otherwise nothing is appended, and the frames that were pending stay |
| AudioBuffers.AudioBuffer.UpdateAudioStreamInLockedState | raylib/raudio.c:2651-2698 | refines the queue's Refill for any frame count, negative and oversized ones included: such a block is refused but still counted; the half taken is the first free one |
| AudioBuffers.RefillFrames | raylib/raudio.c:2651-2698 | what the queue's Refill appends, frame by frame, as the frame count says |
| AudioBuffers.AudioBuffer.WriteHalf | raylib/raudio.c:2679-2687 | frame i of the half is input[i] below the frames to write and 0 from there on; the other half is untouched |
| AudioBuffers.AudioBuffer.ReadAudioBufferFramesInInternalFormat | raylib/raudio.c:2346-2438 | a stream plays the first pending frames, then silence, and reports the full count; a sound plays its next frames, round and round or up to its end, reports only those, and stops at its end |
| AudioBuffers.AudioBuffer.ReadStream | raylib/raudio.c:2368-2423 | the read loop of a stream delivers exactly the first min(n, pending) frames and leaves the rest pending |
| AudioBuffers.AudioBuffer.ReadSound | raylib/raudio.c:2368-2423 | the read loop of a sound terminates, delivers its next frames, and leaves cursor and playing state as one read of that length does |
| AudioBuffers.SoundPass | raylib/raudio.c:2387-2420 | each pass over a sound continues where the last one ended |
| AudioBuffers.SoundFrames | raylib/raudio.c:2387-2420 | frame i of a read of a looping sound is data[(cursor + i) mod size], and the cursor moves by n modulo the size; a sound that does not loop gives the next n frames, or all the rest, and then its cursor is at the start |
| AudioBuffers.StuckExactly | raylib/raudio.c:2357-2360 | a sound cannot be read if and only if it is of odd size other than one and its cursor is on its last frame |
| AudioBuffers.LoopChunksExactly | raylib/raudio.c:2357-2405 | two reads of a looping sound are one read of both lengths, output and cursor, if and only if the first does not end on the last frame of an odd-sized sound |
| AudioBuffers.AheadInChunks | raylib/raudio.c:2404-2405 | output frame j of a looping sound is data[(cursor + j) mod size], so slices join |
| StreamRuns.LoadAudioStream | raylib/raudio.c:2093-2122 | the stream starts as an empty, stopped queue with halves of the given size |
| StreamRuns.PerformAll | raylib/raudio.c:2346-2438 | every run of stream operations, with Play only on a stream that is stopped or has nothing queued, plays exactly what the queue plays |
| Mixer.ReadAudioBufferFramesInMixingFormat | raylib/raudio.c:2441-2479 | whatever number of input frames the converter requires, a sound that does not loop gives the pieces of OneShotPieces; and when it requires a piece of the mix buffer, streams and sounds give a part of what they owe to the requests, and fall short only at the end of a sound |
| Mixer.MixAudioFrames | raylib/raudio.c:2606-2619 | frame k of the output becomes what it was plus framesIn[k - at] where the piece lies, and stays as it was elsewhere |
| Mixer.MixBuffer | raylib/raudio.c:2500-2568 | one buffer contributes to a request what it plays next, whatever the slicing, and goes on from there: what this request and later ones get together is what this one got and then what the buffer contributes to the later ones; a sound that falls short is stopped |
| Mixer.OnSendAudioDataToDevice | raylib/raudio.c:2484-2578 | the output of a request is the frame-wise sum of what each buffer would play on its own, sounds of odd size included, and every buffer goes on where its part ends |
| Mixer.RequestInPieces | raylib/raudio.c:2484-2578 | requests of any sizes one after the other give the frame-wise sum of what each buffer contributes to them all, and leave the buffers where later requests go on |
| Mixer.MixdownIsSum | raylib/raudio.c:2606-2619 | frame k of the sum of one part more is the sum of frame k before and frame k of the part, and that of no parts is 0 |
| Mixer.ContributionBySum | raylib/raudio.c:2500-2568 | what a buffer contributes depends on the sum of the requests alone, except for a sound that is cut short: silence if it does not play, the queue, the repeated data, the rest of the sound and then silence, or that without its last frame if it is cut short |
| Mixer.OneShotHeardExactly | raylib/raudio.c:2357-2405 | over requests of any sizes a sound of any size that does not loop is heard once and to its end, whatever it contains, if and only if no 512-frame piece begins at the last frame of an odd size; otherwise all but that frame is heard |
| Mixer.LastOf513 | raylib/raudio.c:2357-2405 | 513 frames are cut short in one request of 513 or 1024 and not in requests of 500 and 13 |
| Mixer.CutShortExactly | raylib/raudio.c:2357-2405 | the cut-short sounds by numbers: of odd size other than one, and some request has a frame that is both a multiple of 512 frames into it and the last frame of the sound |
| Mixer.CapExactly | raylib/raudio.c:2447-2448 | the input buffer holds as many whole frames as fit 4096 bytes |
| Mixer.OneShotPlaysOnceExactly | raylib/raudio.c:2450-2476 | a sound that does not loop plays its remaining frames once and no further if and only if its end is not on a boundary of the reads with more required, and it does not lose the last frame of an odd size |
| Mixer.OneToOneNeverStartsOver | raylib/raudio.c:2450-2476 | with a one-to-one converter and frames of at most 8 bytes the pieces are always right |
| Mixer.TwiceThePitchStartsOver | raylib/raudio.c:2450-2476 | at twice the pitch a sound of 512 frames of 8 bytes is heard twice |
| MusicPlayer.FillBlock | raylib/raudio.c:1904-1911 | the read-and-rewind loop ends, also when a read at the end of the song returns nothing, and yields the next frames of the endlessly repeated song |
| MusicPlayer.Music.RefillHalf | raylib/raudio.c:1884-2019 | one refill queues the song's next half, keeps decoder and queue in step, wraps the counter, and reports a song that ends by the 32-bit count of the frames left |
| MusicPlayer.Music.UpdateMusicStream | raylib/raudio.c:1864-2023 | fills all free halves with the song's next frames and leaves no half unfilled; a song that does not loop is stopped by the refill that reaches its end, or, when not active, has its padded last frames queued and its decoder rewound |
| MusicPlayer.EndsInSong | raylib/raudio.c:1886-2018 | while the counter is within the song, an update is the last one exactly when all frames that are left fit the free halves, and these are what it streams |
| MusicPlayer.FramesLeftExactly | raylib/raudio.c:1888 | the frames left are length - counter, or 2^32 more where that is negative |
| MusicPlayer.EndsPastSong | raylib/raudio.c:1886-2018 | with the counter past the song's end an update is the last one if and only if it fills both halves and, after the first, length - (counter + half) mod length is at most a half; that is how many frames the second half then gets |
| MusicPlayer.Music.SeekPastEnd | raylib/raudio.c:1822-2022 | after a seek past the end of an active song an update queues two halves from the song's start and it plays on, if and only if it loops or half < length - (position + half) mod length; otherwise it is stopped with nothing queued |
| MusicPlayer.LastBlockFrames | raylib/raudio.c:1891-2005 | the last frames that are queued: frame i is the song's frame (queued + i) mod length while frames are left, and 0 up to whole halves |
| Loops.LoopFrames | raylib/raudio.c:1904-1911 | frame j of the repeated song from some place is song[(place + j) mod length] |
| MusicPlayer.Music.StopMusicStream | raylib/raudio.c:1790-1818 | an active stream is emptied and rewound; otherwise only the decoder is, which stays in step with the queue if and only if the decoder stood at the song's start or end, that is, unless a seek went past the end, if the frame counter is a multiple of the song's length |
| MusicPlayer.Music.StopThenRefill | raylib/raudio.c:1790-1818 | after the stop of a paused looping song the song starts over behind what still waits |
| MusicPlayer.Music.PlayMusicStream | raylib/raudio.c:1772-1775 | plays from the front of the buffer, which keeps what was queued, and the song in step, if the cursor is there, as it is in a stopped stream, or nothing waits |
| MusicPlayer.Music.PauseMusicStream | raylib/raudio.c:1778-1781 | pausing keeps decoder and queue in step |
| MusicPlayer.Music.ResumeMusicStream | raylib/raudio.c:1784-1787 | resuming keeps decoder and queue in step |
| MusicPlayer.Music.SeekMusicStream | raylib/raudio.c:1822-1861 | queued frames are dropped and the cursor stays; the next frame heard is the one sought, or past the song's end its first, while the counter takes the position all the same, so that it agrees with the decoder exactly within the song |
| MusicPlayer.Music.GetMusicTimePlayed | raylib/raudio.c:2074-2085 | the clock is the counter less what is pending, and plus the cursor's place in its half if nothing is, modulo the song's length; it shows the playhead plus what it is ahead, hence is right if and only if that is a multiple of the length; it is ahead by what the counter is ahead of the decoder after a seek past the end and by the cursor's drift after any seek, and otherwise by nothing |
| MusicPlayer.Music.Hear | raylib/raudio.c:2346-2438 | the device hears the song from the playhead on, then silence, and the playhead moves by the frames heard |
| MusicPlayer.StaysInStep | raylib/raudio.c:2005-2007 | appending a block keeps queue and decoder position in step |
| MusicPlayer.CountsOn | raylib/raudio.c:2005-2007 | and the wrapped counter keeps up with them |
| MusicPlayer.RewoundInTune | raylib/raudio.c:1794-1817 | rewinding the decoder under a queue keeps them in step if and only if the decoder stood at a multiple of the song's length, or, where the counter agrees with it, the counter did |
| MusicRuns.RecordingGoesOn | raylib/raudio.c:1864-2022 | a recording that follows the repeated song continues to do so through one more request |
| MusicRuns.Listen | raylib/raudio.c:1864-2085 | over any run of updates, requests, pauses and resumes that does not reach a song's end, which a looping song has not, the i-th frame that is not silence is song frame (start + i) mod length; which frames these are is determined by the operations and how much waited at the start; and the clock equals the start plus the frames heard, modulo the length |
| MusicRuns.ListenThrough | raylib/raudio.c:1772-2085 | over any run that also seeks, anywhere, stops and plays, of a song that loops or not, the player is a machine of six numbers and flags: the operations, the status and the number of frames waiting at the start determine every frame heard, the playhead and the clock |
| MusicRuns.Perform | raylib/raudio.c:1772-2085 | one operation on the player is one step of that machine: how many frames an update queues, how many a request takes, what a seek, a stop and the end of the song reset |
| MusicRuns.RunIsRecorded | raylib/raudio.c:1864-2022 | what the machine plays in a run without seeks, stops, plays and ends is the repeated song with gaps, and the playhead has moved by the frames heard |
| MusicRuns.LoopingGoesOn | raylib/raudio.c:2009-2018 | no run of updates, requests, pauses and resumes ends a looping song |
| MusicRuns.ClockFollows | raylib/raudio.c:2005-2083 | in a run whose seeks stay within the song the clock shows the playhead and the drift of the last seek, modulo the song's length |
| MusicRuns.SteadyClock | raylib/raudio.c:2074-2083 | nothing drifts once an update or a play has followed the last seek |
| MusicRuns.Gapless | raylib/raudio.c:1877-2020 | a looping song that is updated before each request of at most a half is heard without a gap |
| MusicRuns.QueuedBeforeEnd | raylib/raudio.c:1886-2018 | a song that does not loop is queued in whole halves, and never the one that reaches its end |
| MusicRuns.NeverHeardToItsEnd | raylib/raudio.c:2009-2018 | in no run without seeks in which it ends while it is heard is a frame of the last, whole or partial, half of a song that does not loop heard |
| MusicRuns.ShortSongNeverHeard | raylib/raudio.c:2009-2018 | a song that does not loop and fits the stream's buffer is not heard in any run with seeks within it in which it only ends while it is active |
| Clock.FixedUpRemainder | raylib/raudio.c:2082-2083 | truncating remainder and negative fix-up together are the mathematical remainder |
| Clock.RoundsTowardZero | raylib/raudio.c:2082 | the remainder of the C operator: the quotient is rounded toward zero, and the remainder has the dividend's sign |
| Clock.CounterIsEnough | raylib/raudio.c:2005-2007 | a counter kept modulo the song's length is as good as the count of all queued frames |
| Clock.DriftExactly | raylib/raudio.c:2081-2082 | a clock that is ahead by a drift is right if and only if the drift is a multiple of the length |
| Clock.CounterWrapExactly | raylib/raudio.c:2676 | the 32-bit counter is exact if and only if it does not wrap or the length divides 2^32 |
| Clock.CounterWraps | raylib/raudio.c:2676 | one frame more than 2^32 - 1 in a song of three frames |
| AudioLists.BufferList.TrackAudioBuffer | raylib/raudio.c:731-745 | appends the buffer: it becomes the last one, linked to the former last one both ways, the first one of an empty list, and no other link changes |
| AudioLists.BufferList.UntrackAudioBuffer | raylib/raudio.c:748-763 | removes exactly that buffer: its neighbours are linked to each other, first and last move on where it was one of them, and no other link changes |
| AudioLists.ProcessorChain.AttachAudioStreamProcessor | raylib/raudio.c:2231-2252 | appends a new node with the callback at the end of the chain, linked both ways to the former end, and as the head of an empty chain |
| AudioLists.ProcessorChain.DetachAudioStreamProcessor | raylib/raudio.c:2255-2280 | removes every node with the callback, adjacent ones and the head included, and keeps the others in order and linked |
| AudioLists.Unlinked | raylib/raudio.c:752-756 | a list whose node is bypassed by its neighbours is well linked without it |
| AudioLists.LinksOf | raylib/raudio.c:731-763 | in a linked list every node points to the next one and the one before, and the ends to null |
| AudioLists.WithoutNext | raylib/raudio.c:2259-2277 | what is left after detaching, node by node: a node goes if and only if it has the callback |
| Utf8.GetCodepointNext | raylib/rtext.c:2083-2119 | on every terminated string the step is at least one byte and never past the terminator |
| Utf8.NextExactly | raylib/rtext.c:2083-2119 | the decoder by ranges of the bytes: a lead byte with the tail bytes it needs has the value and size of its sequence, a byte up to 7F stands for itself, and all else is a question mark of size 1 |
| Utf8.TwoIs | raylib/rtext.c:2108 | the value of two bytes a, b is (a - C0) * 64 + (b - 80) |
| Utf8.ThreeIs | raylib/rtext.c:2101 | the value of three bytes is (a - E0) * 4096 + (b - 80) * 64 + (c - 80) |
| Utf8.FourIs | raylib/rtext.c:2094 | the value of four bytes is (a - F0) * 262144 + (b - 80) * 4096 + (c - 80) * 64 + (d - 80) |
| Utf8.StepsPartition | raylib/rtext.c:1915-1931 | on every terminated string, valid or not, the steps partition the bytes up to the terminator |
| Utf8.TextLength | raylib/rtext.c:1398-1409 | the number of bytes before the terminator |
| Utf8.LoadUTF8 | raylib/rtext.c:1853-1874 | the encoded codepoints and a terminator, within five bytes for each codepoint |
| Utf8.LoadCodepoints | raylib/rtext.c:1883-1905 | all codepoints of a string, within one slot for each byte |
| Utf8.GetCodepointCount | raylib/rtext.c:1915-1931 | the number of codepoints that LoadCodepoints loads |
| Utf8.GetCodepointPrevious | raylib/rtext.c:2122-2138 | decodes at the nearest byte to the left that is no tail byte, and reports size 0 for a NUL |
| Utf8.StepsBackNowhereExactly | raylib/rtext.c:2133-2135 | the reported size is 0 if and only if the bytes are an overlong encoding of NUL in two, three or four bytes |
| Utf8.StepsBackNowhere | raylib/rtext.c:2133-2135 | on C0 80 a step back reports codepoint 0 and size 0 |
| Utf8.StepsBackExactly | raylib/rtext.c:2122-2138 | on every terminated string, stepping back from the end of a forward step leads to its start with its codepoint and size if and only if it is no stray tail byte and no overlong NUL |
| Utf8.DecodeEncoded | raylib/rtext.c:2083-2119 | decoding inverts encoding, value and size, whatever follows |
| Utf8.RoundTrip | raylib/rtext.c:1853-1905 | decoding the encoding of any sequence of codepoints in 1..0x10FFFF gives it back |
| Utf8.StepBack | raylib/rtext.c:2122-2138 | in an encoded string, stepping back from the end of a codepoint finds that codepoint with its size |
| Utf8.LoadBackwards | raylib/rtext.c:2122-2138 | any string whose steps can all be taken back is read backwards as its codepoints reversed |
| Utf8.EncodedStepsBack | raylib/rtext.c:2122-2138 | every step of an encoded string can be taken back |
| Utf8Strict.StrictExactly | raylib/rtext.c:1979-2080 | the strict decoder accepts a sequence if and only if section 4 of RFC 3629 generates it, and there agrees with the lenient one in value and size |
| Utf8Strict.RejectedExactly | raylib/rtext.c:1979-2080 | the number of bytes a question mark stands for where the grammar generates nothing: up to the first byte that is no tail byte, that one included; one for a byte that leads nothing; two where the second byte is out of range |
| Utf8Strict.EncodedByGrammar | raylib/rtext.c:1935-1973 | an encoded codepoint is generated by the grammar if and only if it is no surrogate |
| Utf8Strict.StrictInvertsExactly | raylib/rtext.c:1979-2080 | the strict decoder inverts the encoder if and only if the codepoint is no surrogate |
| Utf8Strict.StrictStepsPastExactly | raylib/rtext.c:2003-2075 | its size leads past the terminator if and only if the string ends inside a sequence |
| Utf8Strict.StepsPastTerminator | raylib/rtext.c:2003-2075 | the byte C3 alone has size 2 |
| Utf8Strict.ReencodeExactly | raylib/rtext.c:2083-2119 | encoding what the lenient decoder read gives back the bytes if and only if they were a sequence in its shortest form |
| Utf8Strict.CanonicalExactly | raylib/rtext.c:1853-1905 | a whole string survives decoding and encoding if and only if all its sequences are in their shortest form |
| TextReplacing.TextReplace | raylib/rtext.c:1565-1610 | nothing for a missing argument or an empty pattern, otherwise the leftmost non-overlapping replacement with its terminator, in an allocation that is exactly filled |
| TextReplacing.CountPass | raylib/rtext.c:1585-1586 | counts the occurrences that are replaced |
| TextReplacing.CopyPass | raylib/rtext.c:1597-1607 | copies pieces and replacements into a buffer that is exactly full at the end |
| TextReplacing.ReplacedLength | raylib/rtext.c:1589 | the allocated size is the length of the result plus the terminator |
| TextReplacing.ReplacingJoins | raylib/rtext.c:1597-1607 | a text made of pieces joined by the pattern is replaced by the same pieces joined by the replacement |
| TextReplacing.PiecesSeparate | raylib/rtext.c:1585-1586 | every text is made of such pieces, one more than there are occurrences |
| TextReplacing.JoinFirst | raylib/rtext.c:1597-1607 | joined pieces: the first piece, the separator, and the rest joined |
| TextReplacing.AaaByXa | raylib/rtext.c:1565-1610 | replacing aa by xa in aaab gives xaab: occurrences do not overlap, and what was written is not searched again |
| TextReplacing.ReplacingByItself | raylib/rtext.c:1565-1610 | replacing a pattern by itself changes nothing |
| FontAtlas.SpotsApart | raylib/rtext.c:819-860 | a later glyph lies further right in the same row or in a later row |
| FontAtlas.RecsDisjoint | raylib/rtext.c:843-857 | no two glyph rectangles share a place |
| FontAtlas.RecBounds | raylib/rtext.c:819-842 | a packed glyph lies inside the atlas |
| FontAtlas.Layout | raylib/rtext.c:812-860 | where a glyph comes to lie, from where the one before lies: right of it with twice the padding between, or in the next row if that is too far right, and it overflows if that row is too low |
| FontAtlas.LowGlyphsArePackable | raylib/rtext.c:819-842 | glyphs no higher than the font size and the padding never reach below the atlas, in whatever row they come to lie |
| FontAtlas.ClearOfCorner | raylib/rtext.c:819-918 | glyphs lower than that by three rows are clear of the white corner |
| FontAtlas.HigherGlyphMeetsCorner | raylib/rtext.c:819-918 | a glyph lower by two rows that the corner overwrites |
| FontAtlas.HigherGlyphLeavesAtlas | raylib/rtext.c:819-851 | a glyph higher by one row that is put where it reaches below the atlas |
| FontAtlas.CopyGlyph | raylib/rtext.c:844-850 | for every x and y of the atlas, byte y * width + x is the glyph's byte (y - offsetY) * glyph width + (x - offsetX) in the glyph's rectangle, and as it was elsewhere |
| FontAtlas.PackGlyphs | raylib/rtext.c:810-862 | packs the glyphs before the first that overflows, clears the rectangles after it, and the image shows just the packed glyphs |
| FontAtlas.WriteCorner | raylib/rtext.c:912-918 | the 3x3 corner is white and every other pixel is as it was |
| FontAtlas.ToGrayAlpha | raylib/rtext.c:923-929 | white in the first channel, the image in the second |
| FontAtlas.GenImageFontAtlas | raylib/rtext.c:804-934 | for all glyphs up to the distance of the rows that stay within the atlas, and every x and y: with k = 2 * (y * width + x), byte k is 255, and byte k + 1 is 255 in the corner, the glyph's byte (y - rec.y) * glyph width + (x - rec.x) in a packed rectangle, and 0 elsewhere |
| Automation.PlayButtons | raylib/rcore.c:3064-3107 | playing the events logged for a device merges its buttons with the recorded frame's, queues the newly pressed keys, and touches no other device |
| AutomationLog.LoggedExactly | raylib/rcore.c:3787-4048 | an event is logged in a frame if and only if it is one of these: a release or a held button of a device, the truncated mouse position or wheel x, y if one of them changed, an axis off its rest by its number times 32768, or the gesture |
| AutomationLog.LoggedInOrder | raylib/rcore.c:3794-4045 | the events are in the order of keys, mouse buttons, position, wheel, touch points, gamepads and gesture, and each block in the order of its first parameter |
| AutomationLog.TruncatedExactly | raylib/rcore.c:3866-3872 | what is logged of a coordinate is rounded toward zero |
| AutomationLog.TakenExactly | raylib/rcore.c:3811-3826 | a full list keeps the first events |
| AutomationLog.PressedExactly | raylib/rcore.c:3065-3077 | the newly pressed keys: held now and not before, each once, in ascending order |
| AutomationLog.QueuedExactly | raylib/rcore.c:3068-3075 | the queue of pressed keys holds the first sixteen |
| AutomationReplay.PlayFrame | raylib/rcore.c:3054-3129 | playing a frame's log merges the buttons of all devices with the frame's |
| AutomationReplay.FrameExactly | raylib/rcore.c:3796-3800 | a frame is reproduced from the right state if and only if every release was seen by the recorder |
| AutomationReplay.ReplayExactly | raylib/rcore.c:3054-3129 | all frames of a run are reproduced if and only if all releases were seen |
| AutomationReplay.PolledRunReproduced | raylib/platforms/rcore_desktop_glfw.c:1123-1185 | when each frame is polled (a gamepad that is not ready is not, and keeps its buttons), replaying reproduces keys, mouse buttons, touch points and gamepad buttons after every frame, and fills the queue of pressed keys with the newly pressed ones in ascending order |
| AutomationReplay.QueueReproducedExactly | raylib/platforms/rcore_desktop_glfw.c:1803-1809 | the replayed queue is the recorded one if and only if that held the newly pressed keys in ascending order |
| AutomationReplay.QueueOrderIsLost | raylib/platforms/rcore_desktop_glfw.c:1803-1809 | B and then A pressed in one frame come back as A and then B |
| AutomationRecorder.EventList.RecordButtons | raylib/rcore.c:3796-3826 | logs releases and held buttons in order and stops at the capacity |
| AutomationRecorder.EventList.RecordAxes | raylib/rcore.c:4008-4025 | logs the axes that are off their rest position |
| AutomationRecorder.EventList.RecordAutomationEvent | raylib/rcore.c:3787-4048 | with any capacity the log after a frame is the prefix of that length of the unlimited log, whose events LoggedExactly and LoggedInOrder give |
| AutomationRecorder.EventList.RecordRun | raylib/rcore.c:3787-4048 | the same over a whole run |
| AutomationRecorder.CoreInput.PlayAutomationEvent | raylib/rcore.c:3054-3129 | updates exactly the state the event names, by its number: position and wheel from parameters 0 and 1, an axis from parameter 2 divided by 32768; and nothing while recording |
| AutomationRecorder.CoreInput.PollInputEvents | raylib/platforms/rcore_desktop_glfw.c:1123-1185 | without live input, a tap becomes a hold and a swipe ends, keys become previous keys, the queue is emptied, the wheel stands still and no gamepad is ready; the other modelled state stays |
| AutomationRecorder.CoreInput.UpdateGestures | raylib/rgestures.h:412-428 | a tap or double tap by fewer than two points becomes a hold, a swipe ends, any other gesture stays |
| AutomationRecorder.CoreInput.PlayFrameOf | raylib/rcore.c:3054-3129 | plays exactly the events that a log holds for a frame number, in order: buttons, positions, wheel, gesture and axes |
| AutomationRecorder.CoreInput.ReplayFrame | raylib/rcore.c:3054-3129 | what recording a frame and playing it give together: the mouse position and the wheel are the truncated recorded ones if a truncated coordinate changed and as they were otherwise; the gesture if there was one; an axis of a gamepad that is ready and off its rest is the recorded value truncated to a multiple of 1/32768 and any other is as it was; a button is held if it was recorded as held, or was held and is not recorded as released |
| AutomationRecorder.CoreInput.ReplayRun | raylib/rcore.c:3054-3129 | polling and playing a log by frame numbers reaches the state that the specification predicts, as far as the log holds the frames' events; the mouse is at the last frame's position, truncated, when each frame's previous position is the last one's and the replay starts where the recording did, and the wheel shows the last frame's movement, truncated, if that differs from the one before, and none otherwise |
| AutomationRecorder.WheelExactly | raylib/rcore.c:3882-3895 | the truncated movement of the wheel is replayed if and only if it differs from that of the frame before or is none |
| AutomationRecorder.AxisExactly | raylib/rcore.c:4008-4025 | an axis is replayed, to 1/32768, if and only if it is off its rest or the replay has that value already; back at its rest it stays where it was |
| AutomationRuns.LogByFrame | raylib/rcore.c:3787-4048 | whatever the capacity, the recorded log holds for the number of each frame that fits all that was recorded in that frame and nothing else |
| AutomationRuns.RecordThenReplay | raylib/rcore.c:3054-4048 | recording a run into a list of any capacity and replaying the list reproduces every key, mouse button, touch point and gamepad button, and the truncated mouse position, up to the last frame that fits |
| AutomationRecorder.EventsInRange | raylib/rcore.c:3787-4048 | whatever is recorded indexes the player's arrays within their bounds |
| AutomationText.ScanPrinted | raylib/rcore.c:2936-2937 | scanning a printed number gives it back, whatever follows that is no digit |
| AutomationText.PrintedExactly | raylib/rcore.c:3007-3011 | digit i of a printed number from its end has the code 48 + n / 10^i mod 10, and the first one is not 0 unless the number has one digit |
| AutomationText.PrintsAsDecimal | raylib/rcore.c:3007-3011 | -305 and 0 are printed as such |
| AutomationText.ScansDecimal | raylib/rcore.c:2933-2937 | a scanned number may follow blanks and a sign, and letters and a mere sign are none |
| AutomationText.CountLineCounts | raylib/rcore.c:3007 | the count line is the letter c, a blank and the count, which is scanned as that |
| AutomationText.EventLineReads | raylib/rcore.c:3010-3011 | an event's line is the letter e, the six numbers in the order frame, type, parameters 0 to 3, and the comment |
| AutomationText.LineLengthExactly | raylib/rcore.c:2927-2944 | a line ends behind its first newline, at the limit, or at the end of the text |
| AutomationText.BuffersOfLines | raylib/rcore.c:2927-2945 | the reading loop sees every line of up to 254 characters in one piece |
| AutomationText.BuffersExactly | raylib/rcore.c:2927-2945 | what the reading loop sees of a text is its first line, or the first 255 characters of a longer one, and then what it sees of the rest; of an unfinished line it sees nothing |
| AutomationText.ExportAutomationEventList | raylib/rcore.c:2991-3012 | header, count and one line for each event |
| AutomationText.ExportedLines | raylib/rcore.c:2994-3012 | the exported text read line by line: twelve lines that are empty or begin with #, the count line, and the line of each event in order |
| AutomationText.ExportedFits | raylib/rcore.c:2991 | the text and its terminator fit the memory allocated for it |
| AutomationText.EventLineFits | raylib/rcore.c:3010-3011 | no event line is cut off, and none contains a newline or begins with another letter |
| AutomationText.LoadAutomationEventList | raylib/rcore.c:2885-2962 | for every text the loaded list is the events on the lines that begin with e, the count is theirs whatever the count line says, and the other slots stay zero |
| AutomationText.EventsByLine | raylib/rcore.c:2929-2945 | a line gives an event if and only if it begins with an e |
| AutomationText.BrokenOff | raylib/rcore.c:2936-2937 | a line of fewer than six numbers gives an event whose other fields are zero |
| AutomationText.Fgets | raylib/rcore.c:2927-2945 | takes at least one character, if there is one, up to and including the first newline or 255 of them; the end of the file is reported if and only if it is reached before either, and then the loader drops the unfinished last line; the buffer stays the old one where nothing is left |
| AutomationText.LoadExported | raylib/rcore.c:2927-3012 | loading what was exported gives back every event: frame, type and four signed parameters |
| AutomationFiles.SavedLogIsLoaded | raylib/rcore.c:2885-3021 | the log of any run of representable frames, recorded with any capacity up to the loader's, is loaded as it was recorded |
| AutomationFiles.SaveAndLoad | raylib/rcore.c:2885-3021 | exporting up to 16384 events and loading the file gives the same list |
| Base64.TablesInverse | raylib/rcore.c:2523-2564 | the decoding table inverts the encoding table, which yields neither padding nor 0 |
| Base64.DigitCodes | raylib/rcore.c:2523-2527 | the character codes of the digits: A to Z, a to z, 0 to 9, + and / |
| Base64.EncodeDataBase64 | raylib/rcore.c:2521-2554 | digit k carries bits 6k to 6k + 5 of the data, filled up with zero bits; the length is four times the groups of three, and only the last group is padded |
| Base64.EncodedGroup | raylib/rcore.c:2537-2551 | octets a, b, c are the digits a >> 2, (a & 3) << 4 | b >> 4, (b & 15) << 2 | c >> 6 and c & 63; octets past the end are 0 and digits for them alone are = |
| Base64.DecodeDataBase64 | raylib/rcore.c:2557-2612 | for every terminated text over the table, padded anywhere, octet i consists of bits 8i to 8i + 7 of its digits |
| Base64.DecodedSize | raylib/rcore.c:2567-2576 | three octets for a group, one less for each padding character |
| Base64.GroupCounts | raylib/rcore.c:2567-2576 | a group counts three octets, two if it ends with = and one if it ends with == |
| Base64.DecodedGroup | raylib/rcore.c:2581-2608 | the three octets of a group, as far as they are counted, are the three bytes of the number that its four digits make side by side |
| Base64.EncodingKeepsBits | raylib/rcore.c:2539-2548 | no bit moves or changes |
| Base64.DecodeEncoded | raylib/rcore.c:2521-2612 | encoded text followed by a 0 meets the decoder's demands and decodes to the data, for every byte string |
| Base64.CanonicalExactly | raylib/rcore.c:2557-2612 | a text survives decoding and encoding if and only if it is canonical in the sense of section 3.5 of RFC 4648 |
| Crc32.TableEntry | raylib/rcore.c:2617-2650 | every one of the 256 entries is its index after eight steps of the register |
| Crc32.TableStepRuns | raylib/rcore.c:2654 | one table step is eight single-bit steps |
| Crc32.ComputeCRC32 | raylib/rcore.c:2615-2657 | the table-driven code is the bit-by-bit CRC of section 8 of RFC 1952 |
| Crc32.CheckValue | raylib/rcore.c:2652-2656 | the code of the digits 1 to 9 is CBF43926, and that of no data is 0 |
| Crc32.RunDifference | raylib/rcore.c:2654 | the register is linear |
| Crc32.Affine | raylib/rcore.c:2615-2657 | crc(x) ^ crc(y) ^ crc(z) == crc(x ^ y ^ z) for strings of one length |
| Crc32.BurstDetected | raylib/rcore.c:2615-2657 | strings of one length that differ only within 32 consecutive bits have different codes |
| Polygon.CheckCollisionPointPoly | raylib/rshapes.c:2224-2241 | true exactly when there are more than two vertices and the ray from the point crosses an odd number of the closed polygon's edges |
| Polygon.CrossesByTurn | raylib/rshapes.c:2232-2233 | the crossing test, without its division, is the sign of a turn; edges that do not straddle are never crossed |
| Polygon.CrossesBothWays | raylib/rshapes.c:2232-2233 | an edge is crossed in either direction or in neither |
| Polygon.RotationInvariant | raylib/rshapes.c:2230-2237 | starting at another vertex does not change the result |
| Polygon.ReversalInvariant | raylib/rshapes.c:2230-2237 | listing the vertices backwards does not change the result |
| Polygon.OutsideBoxNeverInside | raylib/rshapes.c:2224-2241 | a point outside the half-open bounding box is never inside, because a closed cycle straddles a line an even number of times |
| Polygon.OneVertexMore | raylib/rshapes.c:2224-2241 | with one vertex more the test is the test without it, inverted inside the triangle of the new vertex and its two neighbours; so triangles determine it for every polygon |
| Polygon.RectangleExactly | raylib/rshapes.c:2183-2190 | on the corners of a rectangle the test is CheckCollisionPointRec: x <= p.x < x + width and y <= p.y < y + height |
| Polygon.TriangleExactly | raylib/rshapes.c:2224-2241 | on a triangle of any shape and orientation, also without area, the test is true if and only if every edge, taken counterclockwise, has the point on its inner side or is a left or lower one with the point on its line |
| Polygon.TriangleTestsDifferExactly | raylib/rshapes.c:2205-2221 | it differs from CheckCollisionPointTriangle if and only if it is true and the point is on the line of an edge |
| Polygon.UnitTriangle | raylib/rshapes.c:2205-2241 | on the triangle (0, 0), (1, 0), (0, 1) the polygon test is 0 <= x, 0 <= y, x + y < 1, and the triangle test 0 < x, 0 < y, x + y < 1 |
| Polygon.LowerEdgeDiffers | raylib/rshapes.c:2205-2221 | inside a level edge at the smaller y the polygon test is true and the triangle test is not |
| Polygon.MiddleOfLowerEdge | raylib/rshapes.c:2205-2221 | the same at the point (1, 0) of the triangle (0, 0), (2, 0), (0, 2) |
| Quaternions.RootIsPositive | raylib/raymath.h:2312-2313 | for every matrix the number under the root is at least one, so the division is by at least a half |
| Quaternions.BiggestOfUnit | raylib/raymath.h:2283-2311 | for a unit quaternion the chosen component has the biggest square, at least a quarter |
| Quaternions.ChosenExactly | raylib/raymath.h:2287-2310 | of equal components the first in the order w, x, y, z is chosen |
| Quaternions.FromToMatrix | raylib/raymath.h:2283-2344 | a unit quaternion comes back from its matrix as itself or its negative, whichever branch is taken |
| Quaternions.MatrixIsRotation | raylib/raymath.h:2347-2377 | the matrix of a unit quaternion is a rotation |
| Quaternions.ToFromMatrix | raylib/raymath.h:2283-2344 | for every rotation matrix, whichever branch is taken, the quaternion is of length one and its matrix is the given one |
| Quaternions.MatrixRotates | raylib/raymath.h:858-871 | the matrix of a unit quaternion rotates vectors as the quaternion does |
| Quaternions.ColumnsOf | raylib/raymath.h:858-871 | a matrix takes the origin to its last column and the unit vectors to the other columns, moved by the last |
| Quaternions.TransformsLines | raylib/raymath.h:858-871 | a transformation takes a point of a line to the same place on the image of the line |
| Quaternions.KeepsAxis | raylib/raymath.h:874-883 | a unit quaternion leaves its axis where it is |
| Quaternions.QuarterTurns | raylib/raymath.h:874-883 | a quarter turn about z takes x to y, about x takes y to z, and about y takes z to x |
| Quaternions.RotationsCompose | raylib/raymath.h:874-883 | rotating by q2 and then q1 is rotating by their product, for all quaternions |
| Quaternions.TimesBasis | raylib/raymath.h:2108-2121 | the product with the unit quaternion is the other factor, and the products with i, j and k on the right |
| Quaternions.NormMultiplies | raylib/raymath.h:2108-2121 | the product's squared length is the product of the squared lengths |

## Left out

- The audio device, miniaudio, file loading and the sample-rate and format converter: how many input frames it requires is a parameter of the reading loop, in the device callback it is taken to be one-to-one, frames are integers, and silence is 0.
- Stream callbacks and the effect of attached processors on the samples, volume and pan: a buffer is mixed at full volume on one channel.
- Each audio operation is one step under the mutex; the mutex itself is not modelled, and the two "processed" flags are two fields where the source has an array of two.
- The branch of the mixer for a looping buffer that falls short (raylib/raudio.c:2552-2558) is reached only by a looping sound of odd size, which the program does not make.
- Mixer.OnSendAudioDataToDevice: does not cover looping sounds of odd size or sounds that do not loop with frames wider than 8 bytes, neither of which the program makes; AudioBuffers.LoopChunksExactly and Mixer.OneShotPlaysOnceExactly state what reading them does.
- MusicRuns.ListenThrough: does not cover Play while queued frames play, Stop while the song is not heard unless its first frame is due, or the end of a song that is not heard, where decoder and queue part; AudioBuffers.PlayKeepsExactly and MusicPlayer.RewoundInTune say when they do not, and UpdateMusicStream and StopThenRefill what is queued then.
- MusicPlayer.Music.SeekMusicStream: says nothing about the song for positions of about 2^31 frames and more, which the clock reads as negative numbers; and a decoder that is sent past the end stays at the end, as those for WAV and FLAC do.
- StreamRuns.PerformAll: does not cover Play in mid-stream, because the code does not keep its queue there; AudioBuffers.PlayKeepsExactly says when it does.
- XM and MOD modules, the QOA decoder, which does not rewind, and the conversion of a seek position from seconds: the position is given in frames.
- MusicRuns.Listen: does not cover runs through the end of a song that does not loop; MusicRuns.ListenThrough does.
- Music structures whose stream failed to load (a null buffer).
- TextInsert and ComputeSHA1, whose indices and widths do not give the usual specification, and the remaining one-line text functions.
- Utf8.LoadUTF8: does not state what follows the bytes of an empty list, because the code leaves that byte uninitialised.
- Negative codepoints are encoded as the code does, as one byte; the round trips are about codepoints from 1 to 0x10FFFF.
- Integer overflow of sizes: allocations that exceed a C int in TextReplace, EncodeDataBase64 and LoadUTF8.
- Skyline packing, the formula for the atlas size, a null glyph list and a glyph count of zero or less; the rectangle of the first glyph that does not fit stays uninitialised in the code and unspecified here.
- FontAtlas.GenImageFontAtlas: demands that no glyph is wider than the atlas less the padding, higher than the distance of the rows, or put where it reaches below the atlas, because the code does not check and would write over other glyphs or past the image.
- The window, screenshot and frame-rate events of the player.
- Live input while replaying: a gamepad that is present would overwrite what is played.
- The arrays of input state are sequences in a field, updated whole.
- The warning about a wrong event count, the event's description, and numbers beyond 64 bits in an event file.
- AutomationText.LoadAutomationEventList: demands at most 16384 event lines, because the code does not check.
- Base64.DecodeDataBase64: demands characters within the decoding table and a 0 where the next group would begin, because the code does not check; EncodeDataBase64 does not write that 0.
- Floating-point rounding in raymath.h and rshapes.c: the model uses real numbers, and square roots are parameters.
- Drawing, windows, the GPU, fonts, directories, logging, the detection of gestures, cameras, the other vector functions and the game in `src/`.
