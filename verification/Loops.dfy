/** Frames played round and round. */
module Loops {

  import opened FrameQueue
  import Modular

  /** The frame j places after a position of the endlessly repeated data. */
  function LoopFrame(data: seq<Frame>, at: nat, j: nat): Frame
    requires 0 < |data|
  {
    data[(at + j) % |data|]
  }

  /** n frames of the repeated data, from a position on. */
  function LoopFrom(data: seq<Frame>, at: nat, n: nat): (s: seq<Frame>)
    requires 0 < |data|
    ensures |s| == n
    ensures forall j :: 0 <= j < n ==> s[j] == LoopFrame(data, at, j)
  {
    seq(n, j requires 0 <= j => LoopFrame(data, at, j))
  }

  lemma LoopFrames(data: seq<Frame>, at: nat, n: nat)
    requires 0 < |data|
    ensures forall j :: 0 <= j < n ==> LoopFrom(data, at, n)[j] == data[(at + j) % |data|]
  {
  }

  lemma FrameLater(data: seq<Frame>, at: nat, m: nat, j: nat)
    requires 0 < |data|
    ensures LoopFrame(data, at + m, j) == LoopFrame(data, at, m + j)
  {
  }

  lemma LoopInPieces(data: seq<Frame>, at: nat, m: nat, n: nat)
    requires 0 < |data|
    ensures LoopFrom(data, at, m + n) == LoopFrom(data, at, m) + LoopFrom(data, at + m, n)
  {
  }

  lemma LoopSuffix(data: seq<Frame>, at: nat, n: nat, k: nat)
    requires 0 < |data| && k <= n
    ensures LoopFrom(data, at, n)[..k] == LoopFrom(data, at, k)
    ensures LoopFrom(data, at, n)[k..] == LoopFrom(data, at + k, n - k)
  {
  }

  /** Positions that are equal modulo the data's length sound the same. */
  lemma SamePosition(data: seq<Frame>, a: nat, b: nat, n: nat)
    requires 0 < |data| && Modular.Wrap(a, |data|) == Modular.Wrap(b, |data|)
    ensures LoopFrom(data, a, n) == LoopFrom(data, b, n)
  {
    forall j | 0 <= j < n
      ensures LoopFrame(data, a, j) == LoopFrame(data, b, j)
    {
      SameFrame(data, a, b, j);
    }
    hide LoopFrame;
  }

  lemma SameFrame(data: seq<Frame>, a: nat, b: nat, j: nat)
    requires 0 < |data| && Modular.Wrap(a, |data|) == Modular.Wrap(b, |data|)
    ensures LoopFrame(data, a, j) == LoopFrame(data, b, j)
  {
    Modular.WrapShift(a, b, j, |data|);
    assert Modular.Wrap(a + j, |data|) == (a + j) % |data| && Modular.Wrap(b + j, |data|) == (b + j) % |data|;
  }

  /** A stretch of the data that does not cross its end. */
  lemma Stretch(data: seq<Frame>, at: nat, n: nat)
    requires 0 < |data| && at + n <= |data|
    ensures LoopFrom(data, at, n) == data[at..at + n]
  {
    hide LoopFrame;
    forall j | 0 <= j < n
      ensures LoopFrame(data, at, j) == data[at + j]
    {
      FrameOf(data, at, j);
    }
  }

  lemma FrameOf(data: seq<Frame>, at: nat, j: nat)
    requires at + j < |data|
    ensures LoopFrame(data, at, j) == data[at + j]
  {
  }

  /** A position and its remainder sound the same. */
  lemma ReducedPosition(data: seq<Frame>, at: nat, n: nat)
    requires 0 < |data|
    ensures LoopFrom(data, Modular.Wrap(at, |data|), n) == LoopFrom(data, at, n)
  {
    Modular.WrapWrap(at, |data|);
    SamePosition(data, Modular.Wrap(at, |data|), at, n);
  }
}
