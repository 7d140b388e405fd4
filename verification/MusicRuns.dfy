/** Every run of the music player, and the time its clock shows. */
module MusicRuns {

  import opened FrameQueue
  import opened Loops
  import opened AudioBuffers
  import opened MusicPlayer
  import Clock
  import Modular

  datatype MusicOp = Update | Mix(n: nat) | Pause | Resume | Seek(position: nat) | Stop | Play

  /** What a run depends on besides the song's frames: how many these are, how long a half of the
      stream's buffer is, and whether the song loops. */
  datatype Setup = Setup(length: nat, half: nat, looping: bool) {
    predicate Valid() {
      0 < length && 0 < half && length + 2 * half < 0x8000_0000
    }
  }

  /** The music player without its frames: the position of the next frame to be heard, how many
      frames wait from there on, the frame counter, and by how much the clock drifts from it. */
  datatype Player = Player(playing: bool, paused: bool, playhead: nat, waiting: nat, counter: nat, drift: nat) {
    predicate Active() {
      playing && !paused
    }
  }

  const STOPPED := Player(false, false, 0, 0, 0, 0)

  /** Whether an update now is the last one of a song that does not loop. */
  predicate LastUpdate(s: Setup, p: Player)
    requires s.Valid()
  {
    !s.looping && EndsWithin(s.length, p.counter, s.half, RoomFor(s.half, p.waiting))
  }

  /** How many frames of the song are heard in a request of n. */
  function Taken(p: Player, n: nat): nat {
    if p.Active() then Min(n, p.waiting) else 0
  }

  function Next(s: Setup, p: Player, op: MusicOp): Player
    requires s.Valid()
  {
    match op
    case Update =>
      var room := RoomFor(s.half, p.waiting);
      if LastUpdate(s, p) then STOPPED
      else p.(waiting := p.waiting + room, counter := Counted(s.length, p.counter, room), drift := 0)
    case Mix(n) => p.(playhead := p.playhead + Taken(p, n), waiting := p.waiting - Taken(p, n))
    case Pause => p.(paused := true)
    case Resume => p.(paused := false)
    case Seek(position) =>
      p.(playhead := Min(position, s.length), waiting := 0, counter := position,
         drift := DriftAfterSeek(s.half, p.waiting, p.drift))
    case Stop => if p.Active() then STOPPED else p
    case Play => p.(playing := true, paused := false, drift := 0)
  }

  function After(s: Setup, p: Player, ops: seq<MusicOp>): Player
    requires s.Valid()
  {
    if ops == [] then p else Next(s, After(s, p, ops[..|ops| - 1]), ops[|ops| - 1])
  }

  /** Where the player keeps queue, decoder and counter together: a song may end only while it is
      heard, a stop must find it heard or due to start over, a play must find it stopped or its
      queue empty, and a seek must stay within the range of a C integer. */
  predicate Allowed(s: Setup, p: Player, op: MusicOp)
    requires s.Valid()
  {
    match op
    case Update => LastUpdate(s, p) ==> p.Active()
    case Seek(position) => position + 2 * s.half < 0x8000_0000
    case Stop => p.Active() || (p.playhead + p.waiting) % s.length == 0
    case Play => !p.playing || p.waiting == 0
    case _ => true
  }

  predicate Orderly(s: Setup, p: Player, ops: seq<MusicOp>)
    requires s.Valid()
  {
    forall i :: 0 <= i < |ops| ==> Allowed(s, After(s, p, ops[..i]), ops[i])
  }

  /** What is heard in one operation: in a request the song from the playhead on, and then silence. */
  function Output(song: seq<Frame>, p: Player, op: MusicOp): seq<Frame>
    requires 0 < |song|
  {
    if op.Mix? then LoopFrom(song, p.playhead, Taken(p, op.n)) + Silence(op.n - Taken(p, op.n)) else []
  }

  function HeardIn(song: seq<Frame>, s: Setup, p: Player, ops: seq<MusicOp>): seq<Frame>
    requires s.Valid() && 0 < |song|
  {
    if ops == [] then []
    else
      var n := |ops| - 1;
      HeardIn(song, s, p, ops[..n]) + Output(song, After(s, p, ops[..n]), ops[n])
  }

  /** The clock, in frames. */
  function ClockOf(s: Setup, p: Player): nat
    requires s.Valid()
  {
    Modular.Wrap(p.counter - p.waiting + p.drift, s.length)
  }

  // ---- The player refines the machine ----

  ghost function SetupOf(m: Music): (s: Setup)
    requires m.Fed()
    reads m, m.stream, m.stream.data, m.decoder
    ensures s.Valid() && s.length == |m.decoder.song|
  {
    Setup(m.frameCount, m.stream.Half(), m.looping)
  }

  ghost function PlayerOf(m: Music): Player
    requires m.Fed()
    reads m, m.stream, m.stream.data, m.decoder
  {
    Player(m.stream.playing, m.stream.paused, m.Playhead(), |m.stream.Pending()|, m.stream.framesProcessed, m.Drift())
  }

  method Perform(m: Music, op: MusicOp) returns (heard: seq<Frame>)
    requires m.Fed() && Allowed(SetupOf(m), PlayerOf(m), op)
    modifies m`queued, m.stream, m.stream.data, m.decoder
    ensures m.Fed() && SetupOf(m) == old(SetupOf(m))
    ensures PlayerOf(m) == Next(SetupOf(m), old(PlayerOf(m)), op)
    ensures heard == Output(m.decoder.song, old(PlayerOf(m)), op)
  {
    hide LoopFrame, LoopFrom, Modular.Wrap, Silence, InStep, CountsAlong, EndsWithin, FramesLeft, PendingOf,
         CursorIsPending, DriftOf;
    heard := [];
    m.RoomByPending();
    m.FirstFrameDue();
    match op {
      case Update =>
        m.UpdateMusicStream();
        m.NoDrift();
      case Mix(n) =>
        ghost var k;
        heard, k := m.Hear(n);
      case Pause => m.PauseMusicStream();
      case Resume => m.ResumeMusicStream();
      case Seek(position) => m.SeekMusicStream(position);
      case Stop =>
        m.StopMusicStream();
        m.NoDrift();
      case Play =>
        m.PlayMusicStream();
        m.NoDrift();
    }
  }

  lemma AfterNext(s: Setup, p: Player, ops: seq<MusicOp>, i: nat)
    requires s.Valid() && i < |ops|
    ensures After(s, p, ops[..i + 1]) == Next(s, After(s, p, ops[..i]), ops[i])
  {
    assert ops[..i + 1][..i] == ops[..i];
  }

  lemma HeardNext(song: seq<Frame>, s: Setup, p: Player, ops: seq<MusicOp>, i: nat)
    requires s.Valid() && 0 < |song| && i < |ops|
    ensures HeardIn(song, s, p, ops[..i + 1])
            == HeardIn(song, s, p, ops[..i]) + Output(song, After(s, p, ops[..i]), ops[i])
  {
    assert ops[..i + 1][..i] == ops[..i];
  }

  /** The music player is the machine: over any orderly run, of a song that loops or not, what is
      heard and what the clock shows are what the machine predicts from the operations alone. */
  method ListenThrough(m: Music, ops: seq<MusicOp>) returns (heard: seq<Frame>, clock: int)
    requires m.Fed() && Orderly(SetupOf(m), PlayerOf(m), ops)
    modifies m`queued, m.stream, m.stream.data, m.decoder
    ensures m.Fed() && SetupOf(m) == old(SetupOf(m))
    ensures PlayerOf(m) == After(SetupOf(m), old(PlayerOf(m)), ops)
    ensures heard == HeardIn(m.decoder.song, SetupOf(m), old(PlayerOf(m)), ops)
    ensures clock == ClockOf(SetupOf(m), PlayerOf(m))
  {
    hide *;
    ghost var song, s, p := m.decoder.song, SetupOf(m), PlayerOf(m);
    heard := [];
    PlayerParts(m);
    NothingYet(song, s, p);
    assert ops[..0] == [];
    for i := 0 to |ops|
      invariant m.Fed() && SetupOf(m) == s && PlayerOf(m) == After(s, p, ops[..i])
      invariant heard == HeardIn(song, s, p, ops[..i])
    {
      AfterNext(s, p, ops, i);
      HeardNext(song, s, p, ops, i);
      InOrder(s, p, ops, i);
      var out := Perform(m, ops[i]);
      heard := heard + out;
    }
    assert ops[..|ops|] == ops;
    ClockReads(m);
    clock := m.GetMusicTimePlayed();
  }

  lemma NothingYet(song: seq<Frame>, s: Setup, p: Player)
    requires s.Valid() && 0 < |song|
    ensures After(s, p, []) == p && HeardIn(song, s, p, []) == []
  {
  }

  lemma InOrder(s: Setup, p: Player, ops: seq<MusicOp>, i: nat)
    requires s.Valid() && Orderly(s, p, ops) && i < |ops|
    ensures Allowed(s, After(s, p, ops[..i]), ops[i])
  {
    hide After, Allowed;
  }

  lemma ClockReads(m: Music)
    requires m.Fed()
    ensures m.Ready() && 0 < m.frameCount && SetupOf(m).Valid()
    ensures ClockOf(SetupOf(m), PlayerOf(m)) == Modular.Wrap(m.Playhead() + m.Ahead(), m.frameCount)
  {
    hide InStep, Modular.Wrap;
    assert m.Playhead() + m.Ahead() == m.stream.framesProcessed - |m.stream.Pending()| + m.Drift();
  }

  // ---- What the machine promises ----

  /** No operation seeks, or stops the song, or plays it from the front, or ends it. */
  predicate Onward(s: Setup, p: Player, ops: seq<MusicOp>)
    requires s.Valid()
  {
    forall i :: 0 <= i < |ops| ==>
      && !ops[i].Seek? && !ops[i].Stop? && !ops[i].Play?
      && (ops[i].Update? ==> !LastUpdate(s, After(s, p, ops[..i])))
  }

  /** How many frames of a recording were song and not silence. */
  function Count(mask: seq<bool>): nat {
    if mask == [] then 0 else Count(mask[..|mask| - 1]) + if mask[|mask| - 1] then 1 else 0
  }

  /** A recording of a song: where the mask is set, the next frame of the song, which starts over
      at its end; elsewhere silence. */
  ghost predicate Recording(song: seq<Frame>, from: nat, mask: seq<bool>, heard: seq<Frame>)
    requires 0 < |song|
  {
    && |mask| == |heard|
    && forall i :: 0 <= i < |heard| ==>
         heard[i] == if mask[i] then LoopFrame(song, from, Count(mask[..i])) else SILENCE
  }

  /** The mask of one request: k frames of song, then silence. */
  function Mask(k: nat, n: nat): (mask: seq<bool>)
    ensures |mask| == n
  {
    seq(n, i => i < k)
  }

  lemma {:induction false} CountMask(mask: seq<bool>, k: nat, n: nat, j: nat)
    requires j <= n
    ensures Count(mask + Mask(k, n)[..j]) == Count(mask) + Min(k, j)
    decreases j
  {
    var m := mask + Mask(k, n)[..j];
    if j == 0 {
      assert m == mask;
    } else {
      assert m[..|m| - 1] == mask + Mask(k, n)[..j - 1];
      CountMask(mask, k, n, j - 1);
    }
  }

  /** A recording goes on where it stopped. */
  lemma RecordingGoesOn(song: seq<Frame>, from: nat, mask: seq<bool>, heard: seq<Frame>, k: nat, n: nat)
    requires 0 < |song| && k <= n && Recording(song, from, mask, heard)
    ensures var mask' := mask + Mask(k, n);
            && Recording(song, from, mask', heard + (LoopFrom(song, from + Count(mask), k) + Silence(n - k)))
            && Count(mask') == Count(mask) + k
  {
    hide LoopFrame;
    var mask' := mask + Mask(k, n);
    var heard' := heard + (LoopFrom(song, from + Count(mask), k) + Silence(n - k));
    forall i | 0 <= i < |heard'|
      ensures heard'[i] == if mask'[i] then LoopFrame(song, from, Count(mask'[..i])) else SILENCE
    {
      if i < |heard| {
        assert mask'[..i] == mask[..i];
      } else {
        var j := i - |heard|;
        assert mask'[..i] == mask + Mask(k, n)[..j];
        CountMask(mask, k, n, j);
        if j < k {
          FrameLater(song, from, Count(mask), j);
        }
      }
    }
    assert Mask(k, n)[..n] == Mask(k, n);
    CountMask(mask, k, n, n);
  }

  /** The mask of a run. */
  function MaskIn(s: Setup, p: Player, ops: seq<MusicOp>): seq<bool>
    requires s.Valid()
  {
    if ops == [] then []
    else
      var n := |ops| - 1;
      MaskIn(s, p, ops[..n]) + if ops[n].Mix? then Mask(Taken(After(s, p, ops[..n]), ops[n].n), ops[n].n) else []
  }

  /** However updates, device requests, pauses and resumes interleave, the device hears the song
      from the playhead on, over and over, with silence in between, and the playhead has moved by
      what was heard. */
  lemma {:induction false} RunIsRecorded(song: seq<Frame>, s: Setup, p: Player, ops: seq<MusicOp>)
    requires s.Valid() && 0 < |song| && Onward(s, p, ops)
    ensures Recording(song, p.playhead, MaskIn(s, p, ops), HeardIn(song, s, p, ops))
    ensures After(s, p, ops).playhead == p.playhead + Count(MaskIn(s, p, ops))
    decreases |ops|
  {
    hide *;
    if ops == [] {
      NothingRecorded(song, s, p);
    } else {
      var n := |ops| - 1;
      OnwardBefore(s, p, ops);
      RunIsRecorded(song, s, p, ops[..n]);
      LastStep(song, s, p, ops);
      var before := After(s, p, ops[..n]);
      OnwardNext(song, s, before, ops[n]);
      if ops[n].Mix? {
        RecordingGoesOn(song, p.playhead, MaskIn(s, p, ops[..n]), HeardIn(song, s, p, ops[..n]),
                        Taken(before, ops[n].n), ops[n].n);
      } else {
        assert MaskIn(s, p, ops) == MaskIn(s, p, ops[..n]) && HeardIn(song, s, p, ops) == HeardIn(song, s, p, ops[..n]);
      }
    }
  }

  lemma NothingRecorded(song: seq<Frame>, s: Setup, p: Player)
    requires s.Valid() && 0 < |song|
    ensures Recording(song, p.playhead, MaskIn(s, p, []), HeardIn(song, s, p, []))
    ensures After(s, p, []).playhead == p.playhead + Count(MaskIn(s, p, []))
  {
  }

  lemma LastStep(song: seq<Frame>, s: Setup, p: Player, ops: seq<MusicOp>)
    requires s.Valid() && 0 < |song| && 0 < |ops|
    ensures var n := |ops| - 1; var before, op := After(s, p, ops[..n]), ops[n];
            && After(s, p, ops) == Next(s, before, op)
            && HeardIn(song, s, p, ops) == HeardIn(song, s, p, ops[..n]) + Output(song, before, op)
            && MaskIn(s, p, ops) == MaskIn(s, p, ops[..n]) + if op.Mix? then Mask(Taken(before, op.n), op.n) else []
  {
    hide LoopFrom, Silence, Next;
  }

  lemma OnwardNext(song: seq<Frame>, s: Setup, p: Player, op: MusicOp)
    requires s.Valid() && 0 < |song|
    requires !op.Seek? && !op.Stop? && !op.Play? && (op.Update? ==> !LastUpdate(s, p))
    ensures Next(s, p, op).playhead == p.playhead + if op.Mix? then Taken(p, op.n) else 0
    ensures op.Mix? ==>
              && Taken(p, op.n) <= op.n
              && Output(song, p, op) == LoopFrom(song, p.playhead, Taken(p, op.n)) + Silence(op.n - Taken(p, op.n))
    ensures !op.Mix? ==> Output(song, p, op) == []
  {
    hide EndsWithin, Modular.Wrap, LoopFrom, Silence;
  }

  lemma OnwardBefore(s: Setup, p: Player, ops: seq<MusicOp>)
    requires s.Valid() && 0 < |ops| && Onward(s, p, ops)
    ensures Onward(s, p, ops[..|ops| - 1])
    ensures var op := ops[|ops| - 1];
            !op.Seek? && !op.Stop? && !op.Play? && (op.Update? ==> !LastUpdate(s, After(s, p, ops[..|ops| - 1])))
  {
    hide After, LastUpdate;
    assert forall i :: 0 <= i < |ops| - 1 ==> ops[..|ops| - 1][..i] == ops[..i];
  }

  /** A looping song never ends. */
  lemma LoopingGoesOn(s: Setup, p: Player, ops: seq<MusicOp>)
    requires s.Valid() && s.looping
    requires forall op :: op in ops ==> op.Update? || op.Mix? || op.Pause? || op.Resume?
    ensures Onward(s, p, ops)
  {
    hide After;
    assert forall i :: 0 <= i < |ops| ==> ops[i] in ops;
  }

  lemma OnwardIsOrderly(s: Setup, p: Player, ops: seq<MusicOp>)
    requires s.Valid() && Onward(s, p, ops)
    ensures Orderly(s, p, ops)
  {
    hide After, LastUpdate;
  }

  /** Seeks stay within the song. */
  predicate InSong(length: nat, ops: seq<MusicOp>) {
    forall op :: op in ops && op.Seek? ==> op.position <= length
  }

  /** Without a seek past the song's end the clock shows the playhead, and its drift after a seek. */
  lemma {:induction false} ClockFollows(s: Setup, p: Player, ops: seq<MusicOp>)
    requires s.Valid() && InSong(s.length, ops) && CountsAlong(s.length, p.playhead + p.waiting, p.counter)
    ensures var q := After(s, p, ops);
            && CountsAlong(s.length, q.playhead + q.waiting, q.counter)
            && ClockOf(s, q) == Modular.Wrap(q.playhead + q.drift, s.length)
    decreases |ops|
  {
    hide *;
    if ops == [] {
      AfterNothing(s, p);
    } else {
      var n := |ops| - 1;
      InSongBefore(s.length, ops);
      ClockFollows(s, p, ops[..n]);
      NextCountsAlong(s, After(s, p, ops[..n]), ops[n]);
      AfterLast(s, p, ops);
    }
    AlongClock(s, After(s, p, ops));
  }

  lemma AfterNothing(s: Setup, p: Player)
    requires s.Valid()
    ensures After(s, p, []) == p
  {
  }

  lemma AfterLast(s: Setup, p: Player, ops: seq<MusicOp>)
    requires s.Valid() && 0 < |ops|
    ensures After(s, p, ops) == Next(s, After(s, p, ops[..|ops| - 1]), ops[|ops| - 1])
  {
    hide Next;
  }

  lemma InSongBefore(length: nat, ops: seq<MusicOp>)
    requires 0 < |ops| && InSong(length, ops)
    ensures InSong(length, ops[..|ops| - 1]) && (ops[|ops| - 1].Seek? ==> ops[|ops| - 1].position <= length)
  {
    assert ops[|ops| - 1] in ops;
  }

  lemma AlongClock(s: Setup, q: Player)
    requires s.Valid() && CountsAlong(s.length, q.playhead + q.waiting, q.counter)
    ensures ClockOf(s, q) == Modular.Wrap(q.playhead + q.drift, s.length)
  {
    hide Modular.Wrap;
    Modular.WrapShift(q.counter, q.playhead + q.waiting, q.drift - q.waiting, s.length);
    assert q.playhead + q.waiting + (q.drift - q.waiting) == q.playhead + q.drift;
    assert q.counter + (q.drift - q.waiting) == q.counter - q.waiting + q.drift;
  }

  lemma NextCountsAlong(s: Setup, p: Player, op: MusicOp)
    requires s.Valid() && CountsAlong(s.length, p.playhead + p.waiting, p.counter)
    requires op.Seek? ==> op.position <= s.length
    ensures var q := Next(s, p, op); CountsAlong(s.length, q.playhead + q.waiting, q.counter)
  {
    CountsOn(s.length, p.playhead + p.waiting, p.counter, RoomFor(s.half, p.waiting));
    Clock.NoDrift(s.length);
    hide Modular.Wrap, EndsWithin;
  }

  /** Once an update, a play or the run's start has followed the last seek, nothing drifts. */
  predicate Steady(p: Player, ops: seq<MusicOp>) {
    if ops == [] then p.drift == 0
    else
      var op := ops[|ops| - 1];
      op.Update? || op.Play? || (!op.Seek? && Steady(p, ops[..|ops| - 1]))
  }

  lemma {:induction false} SteadyClock(s: Setup, p: Player, ops: seq<MusicOp>)
    requires s.Valid() && Steady(p, ops)
    ensures After(s, p, ops).drift == 0
    decreases |ops|
  {
    if ops == [] {
    } else if !ops[|ops| - 1].Update? && !ops[|ops| - 1].Play? {
      SteadyClock(s, p, ops[..|ops| - 1]);
    }
  }

  /** Plays a song through a run of updates, device requests, pauses and resumes that does not
      reach its end; a looping song has none. */
  method Listen(m: Music, ops: seq<MusicOp>) returns (heard: seq<Frame>, clock: int)
    requires m.Tuned() && Onward(SetupOf(m), PlayerOf(m), ops)
    modifies m`queued, m.stream, m.stream.data, m.decoder
    ensures m.Fed() && PlayerOf(m) == After(SetupOf(m), old(PlayerOf(m)), ops)
    ensures var mask := MaskIn(SetupOf(m), old(PlayerOf(m)), ops);
      && Recording(m.decoder.song, old(m.Playhead()), mask, heard)
      && m.Playhead() == old(m.Playhead()) + Count(mask)
      && (old(m.stream.Settled()) ==> clock == Modular.Wrap(old(m.Playhead()) + Count(mask), m.frameCount))
  {
    hide *;
    ListenPlan(m, ops);
    heard, clock := ListenThrough(m, ops);
    PlayerParts(m);
  }

  /** What is known about such a run before it starts. */
  lemma ListenPlan(m: Music, ops: seq<MusicOp>)
    requires m.Tuned() && Onward(SetupOf(m), PlayerOf(m), ops)
    ensures var song, s, p := m.decoder.song, SetupOf(m), PlayerOf(m); var q := After(s, p, ops);
            && m.Ready() && m.Fed() && 0 < m.frameCount == s.length && Orderly(s, p, ops)
            && Recording(song, m.Playhead(), MaskIn(s, p, ops), HeardIn(song, s, p, ops))
            && q.playhead == m.Playhead() + Count(MaskIn(s, p, ops))
            && (m.stream.Settled() ==> ClockOf(s, q) == Modular.Wrap(q.playhead, s.length))
  {
    hide *;
    assert m.Fed() by { TunedIsFed(m); }
    PlayerParts(m);
    var song, s, p := m.decoder.song, SetupOf(m), PlayerOf(m);
    OnwardIsOrderly(s, p, ops);
    OnwardInSong(s, p, ops);
    RunIsRecorded(song, s, p, ops);
    ClockFollows(s, p, ops);
    if p.drift == 0 {
      SteadyClock(s, p, ops);
    }
  }

  lemma TunedIsFed(m: Music)
    requires m.Tuned()
    ensures m.Fed()
  {
  }

  lemma PlayerParts(m: Music)
    requires m.Fed()
    ensures m.Ready() && PlayerOf(m).playhead == m.Playhead()
            && 0 < SetupOf(m).length == m.frameCount == |m.decoder.song|
    ensures m.Tuned() ==>
              CountsAlong(m.frameCount, PlayerOf(m).playhead + PlayerOf(m).waiting, PlayerOf(m).counter)
    ensures m.stream.Settled() ==> PlayerOf(m).drift == 0
  {
    hide InStep, CountsAlong;
    m.NoDrift();
  }

  lemma {:induction false} OnwardInSong(s: Setup, p: Player, ops: seq<MusicOp>)
    requires s.Valid() && Onward(s, p, ops)
    ensures InSong(s.length, ops) && (p.drift == 0 ==> Steady(p, ops))
    decreases |ops|
  {
    if ops == [] {
    } else {
      OnwardBefore(s, p, ops);
      OnwardInSong(s, p, ops[..|ops| - 1]);
      hide After, LastUpdate;
    }
  }

  // ---- A song that is fed in time is heard without a gap ----

  /** An update before each request. */
  function Alternating(sizes: seq<nat>): seq<MusicOp> {
    if sizes == [] then [] else Alternating(sizes[..|sizes| - 1]) + [Update, MusicOp.Mix(sizes[|sizes| - 1])]
  }

  function Sum(sizes: seq<nat>): nat {
    if sizes == [] then 0 else Sum(sizes[..|sizes| - 1]) + sizes[|sizes| - 1]
  }

  /** A looping song is heard without a gap if it is updated before each request and no request
      is longer than a half of the buffer. */
  lemma {:induction false} Gapless(song: seq<Frame>, s: Setup, p: Player, sizes: seq<nat>)
    requires s.Valid() && 0 < |song| && s.looping && p.Active()
    requires forall i :: 0 <= i < |sizes| ==> sizes[i] <= s.half
    ensures HeardIn(song, s, p, Alternating(sizes)) == LoopFrom(song, p.playhead, Sum(sizes))
    ensures var q := After(s, p, Alternating(sizes)); q.Active() && q.playhead == p.playhead + Sum(sizes)
    decreases |sizes|
  {
    hide *;
    if sizes == [] {
      NoRequests(song, s, p);
    } else {
      var n := |sizes| - 1;
      Gapless(song, s, p, sizes[..n]);
      OneMore(sizes);
      TwoSteps(song, s, p, Alternating(sizes[..n]), Update, MusicOp.Mix(sizes[n]));
      FedOnce(song, s, After(s, p, Alternating(sizes[..n])), sizes[n]);
      LoopInPieces(song, p.playhead, Sum(sizes[..n]), sizes[n]);
      assert HeardIn(song, s, p, Alternating(sizes[..n])) + [] == HeardIn(song, s, p, Alternating(sizes[..n]));
    }
  }

  lemma OneMore(sizes: seq<nat>)
    requires 0 < |sizes|
    ensures var n := |sizes| - 1;
            && Alternating(sizes) == Alternating(sizes[..n]) + [Update, MusicOp.Mix(sizes[n])]
            && Sum(sizes) == Sum(sizes[..n]) + sizes[n]
  {
  }

  lemma NoRequests(song: seq<Frame>, s: Setup, p: Player)
    requires s.Valid() && 0 < |song|
    ensures HeardIn(song, s, p, Alternating([])) == LoopFrom(song, p.playhead, Sum([]))
    ensures After(s, p, Alternating([])) == p && Sum([]) == 0
  {
  }

  lemma TwoSteps(song: seq<Frame>, s: Setup, p: Player, before: seq<MusicOp>, a: MusicOp, b: MusicOp)
    requires s.Valid() && 0 < |song|
    ensures var q := After(s, p, before); var run := before + [a, b];
            && After(s, p, run) == Next(s, Next(s, q, a), b)
            && HeardIn(song, s, p, run) == HeardIn(song, s, p, before) + Output(song, q, a)
              + Output(song, Next(s, q, a), b)
  {
    var run := before + [a, b];
    assert run[..|before| + 1] == before + [a] && (before + [a])[..|before|] == before;
    hide Next, Output;
    LastStep(song, s, p, run);
    LastStep(song, s, p, before + [a]);
    hide After, HeardIn;
  }

  lemma FedOnce(song: seq<Frame>, s: Setup, p: Player, n: nat)
    requires s.Valid() && 0 < |song| && s.looping && p.Active() && n <= s.half
    ensures var q := Next(s, p, Update);
            && Output(song, p, Update) == [] && Output(song, q, MusicOp.Mix(n)) == LoopFrom(song, p.playhead, n)
            && Next(s, q, MusicOp.Mix(n)).playhead == p.playhead + n && Next(s, q, MusicOp.Mix(n)).Active()
  {
    hide EndsWithin, Counted, LoopFrom;
    NoSilence(LoopFrom(song, p.playhead, n));
    hide Silence;
  }

  lemma NoSilence(frames: seq<Frame>)
    ensures frames + Silence(0) == frames
  {
  }

  // ---- A song that does not loop is never heard to its end ----

  /** Halves are queued whole, and never the one that reaches the song's end. */
  lemma {:induction false} QueuedBeforeEnd(s: Setup, p: Player, ops: seq<MusicOp>)
    requires s.Valid() && !s.looping && Orderly(s, p, ops) && forall op :: op in ops ==> !op.Seek?
    requires p.counter == p.playhead + p.waiting < s.length && p.counter % s.half == 0
    ensures var q := After(s, p, ops); q.counter == q.playhead + q.waiting < s.length && q.counter % s.half == 0
    decreases |ops|
  {
    if ops == [] {
    } else {
      var n := |ops| - 1;
      OrderlyBefore(s, p, ops);
      QueuedBeforeEnd(s, p, ops[..n]);
      NextBeforeEnd(s, After(s, p, ops[..n]), ops[n]);
    }
  }

  lemma OrderlyBefore(s: Setup, p: Player, ops: seq<MusicOp>)
    requires s.Valid() && 0 < |ops| && Orderly(s, p, ops)
    ensures Orderly(s, p, ops[..|ops| - 1]) && Allowed(s, After(s, p, ops[..|ops| - 1]), ops[|ops| - 1])
  {
    hide After, Allowed;
    assert forall i :: 0 <= i < |ops| - 1 ==> ops[..|ops| - 1][..i] == ops[..i];
  }

  lemma NextBeforeEnd(s: Setup, p: Player, op: MusicOp)
    requires s.Valid() && !s.looping && Allowed(s, p, op) && !op.Seek?
    requires p.counter == p.playhead + p.waiting < s.length && p.counter % s.half == 0
    ensures var q := Next(s, p, op); q.counter == q.playhead + q.waiting < s.length && q.counter % s.half == 0
  {
    var room := RoomFor(s.half, p.waiting);
    EndsInSong(s.length, p.counter, s.half, room);
    Clock.NoDrift(s.half);
    if p.counter + room < s.length {
      SmallCounter(p.counter + room, s.length);
    }
    Modular.AddModulus(p.counter, s.half);
    Modular.AddModulus(p.counter + s.half, s.half);
    hide Modular.Wrap, EndsWithin;
  }

  /** A song that does not loop is never heard to its end: whatever is heard of it after any run
      without seeks from its start lies in the halves before the one that holds its last frame. */
  lemma NeverHeardToItsEnd(song: seq<Frame>, s: Setup, p: Player, ops: seq<MusicOp>, n: nat)
    requires s.Valid() && |song| == s.length && !s.looping && Orderly(s, p, ops) && forall op :: op in ops ==> !op.Seek?
    requires p.counter == p.playhead == p.waiting == 0
    ensures var q := After(s, p, ops); var k := Taken(q, n);
            && q.playhead + k <= s.half * ((s.length - 1) / s.half) < s.length
            && Output(song, q, MusicOp.Mix(n)) == song[q.playhead..q.playhead + k] + Silence(n - k)
  {
    hide *;
    FromTheStart(s, p);
    QueuedBeforeEnd(s, p, ops);
    var q := After(s, p, ops);
    WholeHalves(q.counter, s.length, s.half);
    HeardPart(song, q, n);
  }

  lemma FromTheStart(s: Setup, p: Player)
    requires s.Valid() && p.counter == p.playhead == p.waiting == 0
    ensures p.counter % s.half == 0 && p.counter < s.length && 0 < s.half
  {
    Clock.NoDrift(s.half);
  }

  lemma HeardPart(song: seq<Frame>, q: Player, n: nat)
    requires q.playhead + q.waiting < |song|
    ensures var k := Taken(q, n);
            && k <= n && k <= q.waiting
            && Output(song, q, MusicOp.Mix(n)) == song[q.playhead..q.playhead + k] + Silence(n - k)
  {
    Stretch(song, q.playhead, Taken(q, n));
    hide LoopFrom, Silence;
  }

  lemma WholeHalves(counter: nat, length: nat, half: nat)
    requires 0 < half && counter < length && counter % half == 0
    ensures counter <= half * ((length - 1) / half) < length
  {
    var a, b := counter / half, (length - 1) / half;
    var d := a - b;
    assert half * a + counter % half == counter && half * b + (length - 1) % half == length - 1;
    assert half * d == half * a - half * b;
    if 0 < d {
      Modular.Scale(half, d);
      assert false;
    }
    if d < 0 {
      Modular.Scale(half, -d);
    }
  }

  /** One that fits the buffer is not heard at all. */
  lemma {:induction false} ShortSongNeverHeard(song: seq<Frame>, s: Setup, p: Player, ops: seq<MusicOp>)
    requires s.Valid() && 0 < |song| && !s.looping && s.length <= 2 * s.half && Orderly(s, p, ops)
             && InSong(s.length, ops)
    requires p.waiting == 0 && p.counter <= s.length
    ensures var q := After(s, p, ops); q.waiting == 0 && q.counter <= s.length
    ensures HeardIn(song, s, p, ops) == Silence(|HeardIn(song, s, p, ops)|)
    decreases |ops|
  {
    if ops == [] {
    } else {
      var n := |ops| - 1;
      OrderlyBefore(s, p, ops);
      ShortSongNeverHeard(song, s, p, ops[..n]);
      var q := After(s, p, ops[..n]);
      EndsInSong(s.length, q.counter, s.half, 2 * s.half);
      hide EndsWithin, Modular.Wrap, LoopFrame;
    }
  }
}
