/** Replacing every occurrence of a pattern in a text, in two passes over the text. Strings are
    their contents; the terminating NUL only appears in the buffer that is returned. */
module TextReplacing {

  datatype Option<+T> = None | Some(value: T)

  const NUL := '\0'

  /** What strstr finds: the leftmost occurrence of a pattern. */
  function Find(text: string, pattern: string): (at: Option<nat>)
    ensures at.Some? ==> at.value + |pattern| <= |text| && Occurs(text, pattern, at.value)
    ensures at.Some? ==> forall k :: 0 <= k < at.value ==> !Occurs(text, pattern, k)
    ensures at.None? ==> forall k :: 0 <= k <= |text| ==> !Occurs(text, pattern, k)
    decreases |text|
  {
    if pattern <= text then Some(0)
    else if text == "" then None
    else
      var rest := Find(text[1..], pattern);
      assert forall k :: 1 <= k <= |text| ==> (Occurs(text, pattern, k) <==> Occurs(text[1..], pattern, k - 1));
      if rest.None? then None else Some(rest.value + 1)
  }

  predicate Occurs(text: string, pattern: string, k: int) {
    0 <= k && k + |pattern| <= |text| && text[k..k + |pattern|] == pattern
  }

  /** Leftmost, non-overlapping replacement. */
  function Replaced(text: string, pattern: string, replacement: string): string
    requires pattern != ""
    decreases |text|
  {
    var at := Find(text, pattern);
    if at.None? then text
    else text[..at.value] + replacement + Replaced(text[at.value + |pattern|..], pattern, replacement)
  }

  /** How many occurrences are replaced. */
  function Count(text: string, pattern: string): nat
    requires pattern != ""
    decreases |text|
  {
    var at := Find(text, pattern);
    if at.None? then 0 else 1 + Count(text[at.value + |pattern|..], pattern)
  }

  /** The size of the allocation, terminator not included, is the size of the result. */
  lemma {:induction false} ReplacedLength(text: string, pattern: string, replacement: string)
    requires pattern != ""
    ensures |Replaced(text, pattern, replacement)| == |text| + (|replacement| - |pattern|) * Count(text, pattern)
    decreases |text|
  {
    hide Find;
    var at := Find(text, pattern);
    if at.Some? {
      var rest := text[at.value + |pattern|..];
      ReplacedLength(rest, pattern, replacement);
      var d, c := |replacement| - |pattern|, Count(rest, pattern);
      assert d * (1 + c) == d + d * c;
    }
  }

  predicate CString(s: string) {
    NUL !in s
  }

  /** The counting and copying passes: both look for the pattern from the end of the last
      occurrence, so they find the same ones, and the buffer is exactly full at the end. */
  method TextReplace(text: Option<string>, pattern: Option<string>, replacement: Option<string>)
    returns (result: Option<array<char>>)
    requires text.Some? ==> CString(text.value)
    requires replacement.Some? ==> CString(replacement.value)
    ensures result.None? <==> text.None? || pattern.None? || replacement.None? || pattern.value == ""
    ensures result.Some? ==>
              && fresh(result.value)
              && result.value[..] == Replaced(text.value, pattern.value, replacement.value) + [NUL]
  {
    if text.None? || pattern.None? || replacement.None? { return None; }
    var replaceLen := |pattern.value|;
    if replaceLen == 0 { return None; }
    var byLen := |replacement.value|;
    var count := CountPass(text.value, pattern.value);
    ReplacedLength(text.value, pattern.value, replacement.value);
    var buffer := new char[|text.value| + (byLen - replaceLen) * count + 1];
    CopyPass(buffer, text.value, pattern.value, replacement.value, count);
    result := Some(buffer);
  }

  method CountPass(text: string, pattern: string) returns (count: nat)
    requires pattern != ""
    ensures count == Count(text, pattern)
  {
    hide Find;
    count := 0;
    var insertPoint := 0;
    assert text[0..] == text;
    while true
      invariant insertPoint <= |text| && Count(text, pattern) == count + Count(text[insertPoint..], pattern)
      decreases |text| - insertPoint
    {
      var temp := Find(text[insertPoint..], pattern);
      if temp.None? { break; }
      NextOccurrence(text, pattern, insertPoint);
      insertPoint := insertPoint + temp.value + |pattern|;
      count := count + 1;
    }
  }

  lemma NextOccurrence(text: string, pattern: string, i: nat)
    requires pattern != "" && i <= |text| && Find(text[i..], pattern).Some?
    ensures var next := i + Find(text[i..], pattern).value + |pattern|;
            next <= |text| && Count(text[i..], pattern) == 1 + Count(text[next..], pattern)
  {
  }

  /** The copying pass. Each strcpy also writes a terminator, which the next copy overwrites. */
  method CopyPass(buffer: array<char>, text: string, pattern: string, replacement: string, count: nat)
    requires pattern != "" && count == Count(text, pattern)
    requires buffer.Length == |Replaced(text, pattern, replacement)| + 1
    modifies buffer
    ensures buffer[..] == Replaced(text, pattern, replacement) + [NUL]
  {
    hide Find, Replaced, Count;
    var left, temp, rest := count, 0, text;
    while left > 0
      invariant left == Count(rest, pattern) && temp <= buffer.Length
      invariant Replaced(text, pattern, replacement) == buffer[..temp] + Replaced(rest, pattern, replacement)
      decreases left
    {
      NextReplaced(rest, pattern, replacement);
      var insertPoint := Find(rest, pattern);
      var lastReplacePos := insertPoint.value;
      ghost var done := buffer[..temp];
      StrNCpy(buffer, temp, rest[..lastReplacePos]);
      temp := temp + lastReplacePos;
      StrCpy(buffer, temp, replacement);
      temp := temp + |replacement|;
      assert buffer[..temp] == done + rest[..lastReplacePos] + replacement;
      rest := rest[lastReplacePos + |pattern|..];
      left := left - 1;
    }
    NoneReplaced(rest, pattern, replacement);
    StrCpy(buffer, temp, rest);
  }

  lemma NextReplaced(text: string, pattern: string, replacement: string)
    requires pattern != "" && Count(text, pattern) > 0
    ensures var at := Find(text, pattern);
            && at.Some? && at.value + |pattern| <= |text|
            && Count(text, pattern) == 1 + Count(text[at.value + |pattern|..], pattern)
            && Replaced(text, pattern, replacement)
               == text[..at.value] + replacement + Replaced(text[at.value + |pattern|..], pattern, replacement)
  {
  }

  lemma NoneReplaced(text: string, pattern: string, replacement: string)
    requires pattern != "" && Count(text, pattern) == 0
    ensures Replaced(text, pattern, replacement) == text
  {
  }

  /** strncpy of a whole piece: no terminator. */
  method StrNCpy(buffer: array<char>, at: nat, piece: string)
    requires at + |piece| <= buffer.Length
    modifies buffer
    ensures buffer[..at + |piece|] == old(buffer[..at]) + piece
  {
    forall i | 0 <= i < |piece| {
      buffer[at + i] := piece[i];
    }
  }

  /** strcpy: the piece and a terminator. */
  method StrCpy(buffer: array<char>, at: nat, piece: string)
    requires at + |piece| < buffer.Length
    modifies buffer
    ensures buffer[..at + |piece| + 1] == old(buffer[..at]) + piece + [NUL]
  {
    forall i | 0 <= i < |piece| {
      buffer[at + i] := piece[i];
    }
    buffer[at + |piece|] := NUL;
  }

  /** The pieces of the text between the occurrences. */
  function Pieces(text: string, pattern: string): (pieces: seq<string>)
    requires pattern != ""
    ensures pieces != []
    decreases |text|
  {
    var at := Find(text, pattern);
    if at.None? then [text] else [text[..at.value]] + Pieces(text[at.value + |pattern|..], pattern)
  }

  function Join(pieces: seq<string>, separator: string): string
    requires pieces != []
  {
    if |pieces| == 1 then pieces[0] else pieces[0] + separator + Join(pieces[1..], separator)
  }

  /** Pieces that the pattern separates from the left: no piece, with the pattern behind it,
      contains an earlier occurrence, and the last piece contains none. */
  ghost predicate SeparatedBy(pieces: seq<string>, pattern: string)
    requires pieces != []
  {
    if |pieces| == 1 then Find(pieces[0], pattern).None?
    else Find(pieces[0] + pattern, pattern) == Some(|pieces[0]|) && SeparatedBy(pieces[1..], pattern)
  }

  /** An occurrence is leftmost because of the text up to its end only. */
  lemma FindIsLocal(piece: string, pattern: string, rest: string)
    ensures Find(piece + pattern, pattern) == Some(|piece|) <==> Find(piece + pattern + rest, pattern) == Some(|piece|)
  {
    hide Find;
    var short, long := piece + pattern, piece + pattern + rest;
    assert Occurs(short, pattern, |piece|) && Occurs(long, pattern, |piece|);
    assert forall k :: 0 <= k <= |piece| ==> (Occurs(short, pattern, k) <==> Occurs(long, pattern, k)) by {
      forall k | 0 <= k <= |piece|
        ensures Occurs(short, pattern, k) <==> Occurs(long, pattern, k)
      {
        assert short[k..k + |pattern|] == long[k..k + |pattern|];
      }
    }
  }

  /** A text that consists of separated pieces is split into just these pieces, and replacing the
      pattern in it joins them by the replacement. */
  lemma {:induction false} ReplacingJoins(pieces: seq<string>, pattern: string, replacement: string)
    requires pieces != [] && pattern != "" && SeparatedBy(pieces, pattern)
    ensures Pieces(Join(pieces, pattern), pattern) == pieces
    ensures Replaced(Join(pieces, pattern), pattern, replacement) == Join(pieces, replacement)
    decreases |pieces|
  {
    hide Find;
    if |pieces| > 1 {
      ReplacingJoins(pieces[1..], pattern, replacement);
      var rest := Join(pieces[1..], pattern);
      FindIsLocal(pieces[0], pattern, rest);
      var text := pieces[0] + pattern + rest;
      assert text[..|pieces[0]|] == pieces[0] && text[|pieces[0]| + |pattern|..] == rest;
    }
  }

  /** Every text consists of separated pieces. */
  lemma {:induction false} PiecesSeparate(text: string, pattern: string)
    requires pattern != ""
    ensures SeparatedBy(Pieces(text, pattern), pattern) && Join(Pieces(text, pattern), pattern) == text
    ensures |Pieces(text, pattern)| == Count(text, pattern) + 1
    decreases |text|
  {
    hide Find;
    var at := Find(text, pattern);
    if at.Some? {
      var piece, rest := text[..at.value], text[at.value + |pattern|..];
      PiecesSeparate(rest, pattern);
      assert text == piece + pattern + rest;
      FindIsLocal(piece, pattern, rest);
      assert Pieces(text, pattern)[1..] == Pieces(rest, pattern);
    }
  }

  lemma NotIn(text: string, pattern: string)
    requires forall k :: 0 <= k <= |text| ==> !Occurs(text, pattern, k)
    ensures Find(text, pattern) == None
  {
  }

  /** From left to right: what was written is not searched again, and occurrences do not overlap. */
  lemma AaaByXa()
    ensures Replaced("aaab", "aa", "xa") == "xaab" && Count("aaab", "aa") == 1
  {
    assert "aaab"[0..2] == "aa" && "aaab"[2..] == "ab";
    assert Find("aaab", "aa") == Some(0);
    assert "ab"[0..2][1] != "aa"[1];
    NotIn("ab", "aa");
    hide Find;
    assert "aaab"[..0] == "";
  }

  /** The first piece stands in front, and the separator between it and the rest. */
  lemma JoinFirst(piece: string, pieces: seq<string>, separator: string)
    requires pieces != []
    ensures Join([piece], separator) == piece
    ensures Join([piece] + pieces, separator) == piece + separator + Join(pieces, separator)
  {
    assert ([piece] + pieces)[1..] == pieces;
  }

  /** Replacing a pattern by itself changes nothing. */
  lemma ReplacingByItself(text: string, pattern: string)
    requires pattern != ""
    ensures Replaced(text, pattern, pattern) == text
  {
  }
}
