/** Encoding codepoints as UTF-8 and the two decoders of raylib's text module. A string is the
    sequence of its bytes, the terminating NUL included. */
module Utf8 {

  type byte = bv8

  /** A C int, as its 32 bits. */
  type codepoint = bv32

  datatype Decoded = Decoded(codepoint: codepoint, size: nat)

  const QUESTION_MARK: codepoint := 0x3f
  const LAST: codepoint := 0x10ffff

  predicate Terminated(s: seq<byte>) {
    0 < |s| && s[|s| - 1] == 0 && forall i :: 0 <= i < |s| - 1 ==> s[i] != 0
  }

  /** Signed comparison of two C ints, the second of them not negative. */
  predicate AtMost(cp: codepoint, bound: codepoint) {
    cp & 0x8000_0000 != 0 || cp <= bound
  }

  function Lead2(cp: codepoint): byte { (((cp >> 6) & 0x1f) | 0xc0) as byte }
  function Lead3(cp: codepoint): byte { (((cp >> 12) & 0x0f) | 0xe0) as byte }
  function Lead4(cp: codepoint): byte { (((cp >> 18) & 0x07) | 0xf0) as byte }
  function Tail12(cp: codepoint): byte { (((cp >> 12) & 0x3f) | 0x80) as byte }
  function Tail6(cp: codepoint): byte { (((cp >> 6) & 0x3f) | 0x80) as byte }
  function Tail0(cp: codepoint): byte { ((cp & 0x3f) | 0x80) as byte }

  function CodepointToUTF8(cp: codepoint): (utf8: seq<byte>)
    ensures |utf8| <= 4
  {
    if AtMost(cp, 0x7f) then [(cp & 0xff) as byte]
    else if AtMost(cp, 0x7ff) then [Lead2(cp), Tail0(cp)]
    else if AtMost(cp, 0xffff) then [Lead3(cp), Tail6(cp), Tail0(cp)]
    else if AtMost(cp, LAST) then [Lead4(cp), Tail12(cp), Tail6(cp), Tail0(cp)]
    else []
  }

  /** A byte of the form 10xxxxxx. */
  predicate Tail(b: byte) {
    b & 0xc0 == 0x80
  }

  /** Bytes of the forms 110xxxxx, 1110xxxx, 11110xxx and 0xxxxxxx. */
  predicate LeadsTwo(b: byte) { b & 0xe0 == 0xc0 }
  predicate LeadsThree(b: byte) { b & 0xf0 == 0xe0 }
  predicate LeadsFour(b: byte) { b & 0xf8 == 0xf0 }
  predicate StandsAlone(b: byte) { b & 0x80 == 0 }

  function Two(a: byte, b: byte): codepoint {
    ((0x1f & a as codepoint) << 6) | (0x3f & b as codepoint)
  }

  function Three(a: byte, b: byte, c: byte): codepoint {
    ((0x0f & a as codepoint) << 12) | ((0x3f & b as codepoint) << 6) | (0x3f & c as codepoint)
  }

  function Four(a: byte, b: byte, c: byte, d: byte): codepoint {
    ((0x07 & a as codepoint) << 18) | ((0x3f & b as codepoint) << 12)
    | ((0x3f & c as codepoint) << 6) | (0x3f & d as codepoint)
  }

  // The values of multi-byte sequences as numbers: 6 bits for each tail byte.

  lemma TwoIs(a: byte, b: byte)
    requires 0xc0 <= a <= 0xdf && 0x80 <= b <= 0xbf
    ensures Two(a, b) == (a as codepoint - 0xc0) * 64 + (b as codepoint - 0x80)
  {
  }

  lemma ThreeIs(a: byte, b: byte, c: byte)
    requires 0xe0 <= a <= 0xef && 0x80 <= b <= 0xbf && 0x80 <= c <= 0xbf
    ensures Three(a, b, c) == (a as codepoint - 0xe0) * 4096 + (b as codepoint - 0x80) * 64 + (c as codepoint - 0x80)
  {
  }

  lemma FourIs(a: byte, b: byte, c: byte, d: byte)
    requires 0xf0 <= a <= 0xf7 && 0x80 <= b <= 0xbf && 0x80 <= c <= 0xbf && 0x80 <= d <= 0xbf
    ensures Four(a, b, c, d)
            == (a as codepoint - 0xf0) * 262144 + (b as codepoint - 0x80) * 4096 + (c as codepoint - 0x80) * 64
               + (d as codepoint - 0x80)
  {
  }

  /** The lenient decoder: any lead byte followed by enough tail bytes is decoded, and anything
      else is a question mark of one byte. It does not look past the terminator. */
  function GetCodepointNext(s: seq<byte>): (d: Decoded)
    requires Terminated(s)
    ensures 1 <= d.size <= 4 && (s[0] != 0 ==> d.size < |s|)
    ensures s[0] != 0 ==> Terminated(s[d.size..])
  {
    if LeadsFour(s[0]) then
      if !Tail(s[1]) || !Tail(s[2]) || !Tail(s[3]) then Decoded(QUESTION_MARK, 1)
      else Decoded(Four(s[0], s[1], s[2], s[3]), 4)
    else if LeadsThree(s[0]) then
      if !Tail(s[1]) || !Tail(s[2]) then Decoded(QUESTION_MARK, 1)
      else Decoded(Three(s[0], s[1], s[2]), 3)
    else if LeadsTwo(s[0]) then
      if !Tail(s[1]) then Decoded(QUESTION_MARK, 1)
      else Decoded(Two(s[0], s[1]), 2)
    else if StandsAlone(s[0]) then Decoded(s[0] as codepoint, 1)
    else Decoded(QUESTION_MARK, 1)
  }

  /** What it does, by the ranges of the bytes. */
  lemma NextExactly(s: seq<byte>)
    requires Terminated(s)
    ensures s[0] <= 0x7f ==> GetCodepointNext(s) == Decoded(s[0] as codepoint, 1)
    ensures 0x80 <= s[0] <= 0xbf || 0xf8 <= s[0] ==> GetCodepointNext(s) == Decoded(0x3f, 1)
    ensures 0xc0 <= s[0] <= 0xdf ==>
              GetCodepointNext(s) == if 0x80 <= s[1] <= 0xbf then Decoded(Two(s[0], s[1]), 2) else Decoded(0x3f, 1)
    ensures 0xe0 <= s[0] <= 0xef ==>
              GetCodepointNext(s) == if 0x80 <= s[1] <= 0xbf && 0x80 <= s[2] <= 0xbf
                                     then Decoded(Three(s[0], s[1], s[2]), 3) else Decoded(0x3f, 1)
    ensures 0xf0 <= s[0] <= 0xf7 ==>
              GetCodepointNext(s) == if 0x80 <= s[1] <= 0xbf && 0x80 <= s[2] <= 0xbf && 0x80 <= s[3] <= 0xbf
                                     then Decoded(Four(s[0], s[1], s[2], s[3]), 4) else Decoded(0x3f, 1)
  {
    ByteRanges(s[0]);
    if 1 < |s| { ByteRanges(s[1]); }
    if 2 < |s| { ByteRanges(s[2]); }
    if 3 < |s| { ByteRanges(s[3]); }
    TailIsNotNul();
    hide Two, Three, Four, LeadsTwo, LeadsThree, LeadsFour, StandsAlone, Tail;
  }

  lemma ByteRanges(b: byte)
    ensures StandsAlone(b) <==> b <= 0x7f
    ensures Tail(b) <==> 0x80 <= b <= 0xbf
    ensures LeadsTwo(b) <==> 0xc0 <= b <= 0xdf
    ensures LeadsThree(b) <==> 0xe0 <= b <= 0xef
    ensures LeadsFour(b) <==> 0xf0 <= b <= 0xf7
  {
  }

  lemma TailIsNotNul()
    ensures !Tail(0)
  {
  }

  /** The codepoints of a string, by the lenient decoder. */
  function DecodeAll(s: seq<byte>): (cps: seq<codepoint>)
    requires Terminated(s)
    ensures |cps| < |s|
    decreases |s|
  {
    if s[0] == 0 then []
    else
      var d := GetCodepointNext(s);
      [d.codepoint] + DecodeAll(s[d.size..])
  }

  /** The bytes each step of the lenient decoder consumes. */
  function Steps(s: seq<byte>): (steps: seq<seq<byte>>)
    requires Terminated(s)
    decreases |s|
  {
    if s[0] == 0 then [] else [s[..GetCodepointNext(s).size]] + Steps(s[GetCodepointNext(s).size..])
  }

  function Flatten(parts: seq<seq<byte>>): seq<byte> {
    if parts == [] then [] else parts[0] + Flatten(parts[1..])
  }

  /** The steps partition any string, valid or not, up to its terminator, one codepoint a step. */
  lemma {:induction false} StepsPartition(s: seq<byte>)
    requires Terminated(s)
    ensures Flatten(Steps(s)) == s[..|s| - 1] && |Steps(s)| == |DecodeAll(s)|
    decreases |s|
  {
    hide GetCodepointNext;
    if s[0] != 0 {
      var n := GetCodepointNext(s).size;
      StepsPartition(s[n..]);
      assert Steps(s)[1..] == Steps(s[n..]);
      assert s[..|s| - 1] == s[..n] + s[n..][..|s[n..]| - 1];
    }
  }

  function EncodeAll(cps: seq<codepoint>): (text: seq<byte>)
    ensures |text| <= 4 * |cps|
    decreases |cps|
  {
    if cps == [] then []
    else EncodeAll(cps[..|cps| - 1]) + CodepointToUTF8(cps[|cps| - 1])
  }

  /** The codepoints that are encoded, NUL excepted: it would end the string. */
  predicate Encodable(cp: codepoint) {
    1 <= cp <= LAST
  }

  predicate AllEncodable(cps: seq<codepoint>) {
    forall i :: 0 <= i < |cps| ==> Encodable(cps[i])
  }

  method TextLength(text: seq<byte>) returns (length: nat)
    requires Terminated(text)
    ensures length == |text| - 1
  {
    length := 0;
    while text[length] != 0
      invariant length < |text|
      decreases |text| - length
    {
      length := length + 1;
    }
  }

  lemma EncodeNext(cps: seq<codepoint>, i: nat)
    requires i < |cps|
    ensures EncodeAll(cps[..i + 1]) == EncodeAll(cps[..i]) + CodepointToUTF8(cps[i])
  {
    assert cps[..i + 1][..i] == cps[..i];
  }

  function Zeros(n: nat): (zeros: seq<byte>)
    ensures |zeros| == n && forall i :: 0 <= i < n ==> zeros[i] == 0
  {
    seq(n, _ => 0)
  }

  /** Encodes into a zeroed buffer of five bytes for every codepoint, then cuts the buffer to
      size. The byte after the text is the terminator if the buffer had room for one. */
  method LoadUTF8(codepoints: seq<codepoint>) returns (utf8: array<byte>)
    ensures fresh(utf8) && utf8.Length == |EncodeAll(codepoints)| + 1
    ensures utf8[..utf8.Length - 1] == EncodeAll(codepoints)
    ensures codepoints != [] ==> utf8[..] == EncodeAll(codepoints) + [0]
  {
    var text := new byte[|codepoints| * 5](_ => 0);
    var size := 0;
    assert EncodeAll(codepoints[..0]) == [];
    assert text[..] == EncodeAll(codepoints[..0]) + Zeros(text.Length);
    hide *;
    for i := 0 to |codepoints|
      invariant size == |EncodeAll(codepoints[..i])|
      invariant text[..] == EncodeAll(codepoints[..i]) + Zeros(text.Length - size)
    {
      EncodeNext(codepoints, i);
      var bytes := CodepointToUTF8(codepoints[i]);
      CopyBytes(text, size, bytes, EncodeAll(codepoints[..i]));
      size := size + |bytes|;
    }
    assert codepoints[..|codepoints|] == codepoints;
    ZerosAfter(EncodeAll(codepoints), text.Length - size);
    utf8 := Cut(text, size);
  }

  lemma ZerosAfter(a: seq<byte>, n: nat)
    ensures (a + Zeros(n))[..|a|] == a
    ensures 0 < n ==> (a + Zeros(n))[..|a| + 1] == a + [0]
  {
  }

  /** The memcpy of one encoded codepoint. */
  method CopyBytes(text: array<byte>, size: nat, bytes: seq<byte>, ghost done: seq<byte>)
    requires size == |done| && size + |bytes| <= text.Length && text[..] == done + Zeros(text.Length - size)
    modifies text
    ensures text[..] == (done + bytes) + Zeros(text.Length - (size + |bytes|))
  {
    forall j | 0 <= j < |bytes| {
      text[size + j] := bytes[j];
    }
  }

  /** The realloc: what both sizes have in common is kept, anything more is arbitrary. */
  method Cut(text: array<byte>, size: nat) returns (utf8: array<byte>)
    requires size <= text.Length
    ensures fresh(utf8) && utf8.Length == size + 1 && utf8[..size] == text[..][..size]
    ensures size < text.Length ==> utf8[..] == text[..][..size + 1]
  {
    utf8 := new byte[size + 1];
    forall j | 0 <= j < size + 1 && j < text.Length {
      utf8[j] := text[j];
    }
  }

  /** Decoding one codepoint at a position inside the text. */
  lemma DecodeNext(text: seq<byte>, i: nat)
    requires i < |text| && Terminated(text[i..])
    ensures text[i] == 0 ==> i == |text| - 1 && DecodeAll(text[i..]) == []
    ensures text[i] != 0 ==>
              var d := GetCodepointNext(text[i..]);
              && i + d.size < |text| && Terminated(text[i + d.size..])
              && DecodeAll(text[i..]) == [d.codepoint] + DecodeAll(text[i + d.size..])
  {
    if text[i] != 0 {
      var d := GetCodepointNext(text[i..]);
      assert text[i..][d.size..] == text[i + d.size..];
    }
  }

  /** Decodes into a buffer with one slot for every byte of the text. */
  method LoadCodepoints(text: seq<byte>) returns (codepoints: array<codepoint>, count: nat)
    requires Terminated(text)
    ensures fresh(codepoints) && codepoints.Length == count && codepoints[..] == DecodeAll(text)
  {
    hide GetCodepointNext, DecodeAll;
    var textLength := TextLength(text);
    var buffer := new codepoint[textLength](_ => 0);
    count := 0;
    var i := 0;
    assert text[0..] == text;
    DecodeNext(text, textLength);
    while i < textLength
      invariant count <= i <= textLength && Terminated(text[i..])
      invariant DecodeAll(text) == buffer[..count] + DecodeAll(text[i..])
    {
      DecodeNext(text, i);
      var d := GetCodepointNext(text[i..]);
      ghost var done := buffer[..count];
      buffer[count] := d.codepoint;
      i := i + d.size;
      count := count + 1;
      assert buffer[..count] == done + [d.codepoint];
    }
    codepoints := Resized(buffer, count);
  }

  method Resized(buffer: array<codepoint>, count: nat) returns (codepoints: array<codepoint>)
    requires count <= buffer.Length
    ensures fresh(codepoints) && codepoints.Length == count && codepoints[..] == buffer[..count]
  {
    codepoints := new codepoint[count](_ => 0);
    forall j | 0 <= j < count {
      codepoints[j] := buffer[j];
    }
  }

  method GetCodepointCount(text: seq<byte>) returns (length: nat)
    requires Terminated(text)
    ensures length == |DecodeAll(text)|
  {
    hide GetCodepointNext, DecodeAll;
    length := 0;
    var ptr := 0;
    assert text[0..] == text;
    DecodeNext(text, ptr);
    while text[ptr] != 0
      invariant ptr < |text| && Terminated(text[ptr..])
      invariant |DecodeAll(text)| == length + |DecodeAll(text[ptr..])|
      decreases |text| - ptr
    {
      DecodeNext(text, ptr);
      var d := GetCodepointNext(text[ptr..]);
      ptr := ptr + d.size;
      length := length + 1;
    }
    DecodeNext(text, ptr);
  }

  /** Before the position there is a byte that is no tail byte. */
  ghost predicate HasLead(s: seq<byte>, at: nat) {
    at <= |s| && exists k :: 0 <= k < at && !Tail(s[k])
  }

  /** The nearest byte to the left of a position that is no tail byte. */
  function LeadBefore(text: seq<byte>, at: nat): (lead: nat)
    requires HasLead(text, at)
    ensures lead < at && !Tail(text[lead]) && forall k :: lead < k < at ==> Tail(text[k])
  {
    if !Tail(text[at - 1]) then at - 1 else LeadBefore(text, at - 1)
  }

  lemma SuffixTerminated(s: seq<byte>, at: nat)
    requires Terminated(s) && at < |s|
    ensures Terminated(s[at..])
  {
  }

  function PreviousFrom(next: Decoded): Decoded {
    if next.codepoint != 0 then next else next.(size := 0)
  }

  /** What a step back reports: what lies at the lead byte, but a NUL with size 0. */
  function SteppedBack(text: seq<byte>, at: nat): Decoded
    requires Terminated(text) && at < |text| && HasLead(text, at)
  {
    SuffixTerminated(text, LeadBefore(text, at));
    PreviousFrom(GetCodepointNext(text[LeadBefore(text, at)..]))
  }

  /** Steps back over tail bytes to a lead byte and decodes there. A string must not start with
      tail bytes for this to stay inside it. */
  method GetCodepointPrevious(text: seq<byte>, at: nat) returns (d: Decoded)
    requires Terminated(text) && at < |text| && HasLead(text, at)
    ensures d == SteppedBack(text, at)
    ensures exists lead :: 0 <= lead < at && Terminated(text[lead..]) && !(0x80 <= text[lead] <= 0xbf)
                           && (forall k :: lead < k < at ==> 0x80 <= text[k] <= 0xbf)
                           && d.codepoint == GetCodepointNext(text[lead..]).codepoint
                           && d.size == if d.codepoint == 0 then 0 else GetCodepointNext(text[lead..]).size
  {
    var ptr := at - 1;
    while text[ptr] & 0x80 != 0 && text[ptr] & 0xc0 == 0x80
      invariant 0 <= ptr < at && forall k :: ptr < k < at ==> Tail(text[k])
      decreases ptr
    {
      ptr := ptr - 1;
    }
    assert LeadBefore(text, at) == ptr;
    hide GetCodepointNext, Tail;
    SuffixTerminated(text, ptr);
    d := PreviousFrom(GetCodepointNext(text[ptr..]));
  }

  /** A NUL encoded in more bytes than one. */
  predicate OverlongNul(s: seq<byte>) {
    || (2 <= |s| && s[0] == 0xc0 && s[1] == 0x80)
    || (3 <= |s| && s[0] == 0xe0 && s[1] == 0x80 && s[2] == 0x80)
    || (4 <= |s| && s[0] == 0xf0 && s[1] == 0x80 && s[2] == 0x80 && s[3] == 0x80)
  }

  /** A step back reports that it has stepped over no bytes exactly when it found an overlong NUL;
      whoever steps back by the reported size then stays where he is. */
  lemma StepsBackNowhereExactly(s: seq<byte>)
    requires Terminated(s) && s[0] != 0
    ensures PreviousFrom(GetCodepointNext(s)).size == 0 <==> OverlongNul(s)
  {
  }

  lemma StepsBackNowhere()
    ensures var s: seq<byte> := [0xc0, 0x80, 0];
      Terminated(s) && GetCodepointNext(s) == Decoded(0, 2) && PreviousFrom(GetCodepointNext(s)) == Decoded(0, 0)
  {
    assert Two(0xc0, 0x80) == 0;
  }

  /** The form of the lead byte says how many tail bytes follow. */
  function LeadSize(b: byte): nat {
    if LeadsFour(b) then 4 else if LeadsThree(b) then 3 else if LeadsTwo(b) then 2
    else if StandsAlone(b) then 1 else 0
  }

  lemma TailBytes(cp: codepoint)
    ensures Tail(Tail0(cp)) && Tail(Tail6(cp)) && Tail(Tail12(cp))
    ensures Tail0(cp) != 0 && Tail6(cp) != 0 && Tail12(cp) != 0
    ensures LeadSize(Lead2(cp)) == 2 && LeadSize(Lead3(cp)) == 3 && LeadSize(Lead4(cp)) == 4
    ensures Lead2(cp) != 0 && Lead3(cp) != 0 && Lead4(cp) != 0
    ensures !Tail(Lead2(cp)) && !Tail(Lead3(cp)) && !Tail(Lead4(cp))
  {
  }

  lemma OneInverts(cp: codepoint)
    requires AtMost(cp, 0x7f) && Encodable(cp)
    ensures var b := (cp & 0xff) as byte; b as codepoint == cp && LeadSize(b) == 1 && b != 0 && !Tail(b)
  {
  }

  lemma TwoInverts(cp: codepoint)
    requires AtMost(cp, 0x7ff) && Encodable(cp)
    ensures Two(Lead2(cp), Tail0(cp)) == cp
  {
  }

  lemma ThreeInverts(cp: codepoint)
    requires AtMost(cp, 0xffff) && Encodable(cp)
    ensures Three(Lead3(cp), Tail6(cp), Tail0(cp)) == cp
  {
  }

  lemma FourInverts(cp: codepoint)
    requires Encodable(cp)
    ensures AtMost(cp, LAST) && Four(Lead4(cp), Tail12(cp), Tail6(cp), Tail0(cp)) == cp
  {
  }

  /** Encoded bytes are not NUL, start with a byte that is not a tail byte, and go on with tail
      bytes only. */
  lemma EncodedShape(cp: codepoint)
    requires Encodable(cp)
    ensures var utf8 := CodepointToUTF8(cp);
            && 1 <= |utf8| && !Tail(utf8[0]) && utf8[0] != 0
            && forall k :: 1 <= k < |utf8| ==> Tail(utf8[k]) && utf8[k] != 0
  {
  }

  /** The decoder's cases, by the form of the lead byte. */
  lemma NextByLead(s: seq<byte>)
    requires Terminated(s)
    ensures LeadSize(s[0]) == 1 ==> GetCodepointNext(s) == Decoded(s[0] as codepoint, 1)
    ensures LeadSize(s[0]) == 2 && |s| > 2 && Tail(s[1]) ==> GetCodepointNext(s) == Decoded(Two(s[0], s[1]), 2)
    ensures LeadSize(s[0]) == 3 && |s| > 3 && Tail(s[1]) && Tail(s[2]) ==>
              GetCodepointNext(s) == Decoded(Three(s[0], s[1], s[2]), 3)
    ensures LeadSize(s[0]) == 4 && |s| > 4 && Tail(s[1]) && Tail(s[2]) && Tail(s[3]) ==>
              GetCodepointNext(s) == Decoded(Four(s[0], s[1], s[2], s[3]), 4)
  {
  }

  /** Decoding inverts encoding, whatever follows. */
  lemma DecodeEncoded(cp: codepoint, rest: seq<byte>)
    requires Encodable(cp) && Terminated(rest)
    ensures Terminated(CodepointToUTF8(cp) + rest)
    ensures GetCodepointNext(CodepointToUTF8(cp) + rest) == Decoded(cp, |CodepointToUTF8(cp)|)
  {
    EncodedShape(cp);
    TailBytes(cp);
    FourInverts(cp);
    if AtMost(cp, 0x7f) { OneInverts(cp); }
    if AtMost(cp, 0x7ff) { TwoInverts(cp); }
    if AtMost(cp, 0xffff) { ThreeInverts(cp); }
    hide Lead2, Lead3, Lead4, Tail0, Tail6, Tail12, AtMost, Tail, Two, Three, Four, GetCodepointNext, LeadSize;
    NextByLead(CodepointToUTF8(cp) + rest);
  }

  lemma {:induction false} EncodeAppend(a: seq<codepoint>, b: seq<codepoint>)
    ensures EncodeAll(a + b) == EncodeAll(a) + EncodeAll(b)
    decreases |b|
  {
    hide CodepointToUTF8;
    if b == [] {
      assert a + b == a;
    } else {
      var init := b[..|b| - 1];
      assert (a + b)[..|a + b| - 1] == a + init;
      EncodeAppend(a, init);
    }
  }

  lemma EncodeFirst(cps: seq<codepoint>)
    requires cps != []
    ensures EncodeAll(cps) == CodepointToUTF8(cps[0]) + EncodeAll(cps[1..])
  {
    hide CodepointToUTF8;
    assert cps == cps[..1] + cps[1..];
    EncodeAppend(cps[..1], cps[1..]);
    assert cps[..1][..0] == [];
    assert EncodeAll(cps[..1]) == EncodeAll([]) + CodepointToUTF8(cps[0]);
  }

  /** Decoding an encoded string gives back its codepoints. */
  lemma {:induction false} RoundTrip(cps: seq<codepoint>)
    requires AllEncodable(cps)
    ensures Terminated(EncodeAll(cps) + [0]) && DecodeAll(EncodeAll(cps) + [0]) == cps
    decreases |cps|
  {
    hide CodepointToUTF8, GetCodepointNext;
    var text := EncodeAll(cps) + [0];
    if cps == [] {
      assert text == [0];
    } else {
      RoundTrip(cps[1..]);
      EncodeFirst(cps);
      var first, rest := CodepointToUTF8(cps[0]), EncodeAll(cps[1..]) + [0];
      assert text == first + rest;
      DecodeEncoded(cps[0], rest);
      EncodedShape(cps[0]);
      assert (first + rest)[|first|..] == rest;
    }
  }

  lemma LastEncoded(cps: seq<codepoint>, k: nat)
    requires 0 < k <= |cps|
    ensures EncodeAll(cps[..k]) == EncodeAll(cps[..k - 1]) + CodepointToUTF8(cps[k - 1])
  {
    hide *;
    EncodeNext(cps, k - 1);
  }

  lemma EncodedAt(cps: seq<codepoint>, k: nat)
    requires k <= |cps|
    ensures EncodeAll(cps) == EncodeAll(cps[..k]) + EncodeAll(cps[k..])
  {
    hide *;
    assert cps == cps[..k] + cps[k..];
    EncodeAppend(cps[..k], cps[k..]);
  }

  /** An encoded string, taken apart before its k-th codepoint. */
  lemma TakenApart(cps: seq<codepoint>, k: nat)
    requires 0 < k <= |cps|
    ensures EncodeAll(cps[..k]) == EncodeAll(cps[..k - 1]) + CodepointToUTF8(cps[k - 1])
    ensures EncodeAll(cps) + [0]
            == EncodeAll(cps[..k - 1]) + (CodepointToUTF8(cps[k - 1]) + (EncodeAll(cps[k..]) + [0]))
  {
    hide *;
    LastEncoded(cps, k);
    EncodedAt(cps, k);
    Regroup(EncodeAll(cps[..k - 1]), CodepointToUTF8(cps[k - 1]), EncodeAll(cps[k..]), [0]);
  }

  lemma Regroup(a: seq<byte>, b: seq<byte>, c: seq<byte>, d: seq<byte>)
    ensures ((a + b) + c) + d == a + (b + (c + d))
  {
  }

  /** Between two parts of a string, a piece that starts with its only byte that is no tail. */
  lemma PieceBetween(before: seq<byte>, piece: seq<byte>, after: seq<byte>)
    requires 1 <= |piece| && !Tail(piece[0]) && forall j :: 1 <= j < |piece| ==> Tail(piece[j])
    ensures var text := before + (piece + after);
            && !Tail(text[|before|]) && text[|before|..] == piece + after
            && forall j :: |before| < j < |before| + |piece| ==> Tail(text[j])
  {
  }

  /** The codepoint that ends at a position of an encoded string: the bytes back to its lead byte
      are its encoding. */
  lemma StepBack(cps: seq<codepoint>, k: nat)
    requires AllEncodable(cps) && 0 < k <= |cps|
    ensures var text := EncodeAll(cps) + [0];
            var at, lead := |EncodeAll(cps[..k])|, |EncodeAll(cps[..k - 1])|;
            && Terminated(text) && lead < at < |text| && at == lead + |CodepointToUTF8(cps[k - 1])|
            && !Tail(text[lead]) && (forall j :: lead < j < at ==> Tail(text[j]))
            && Terminated(text[lead..]) && GetCodepointNext(text[lead..]) == Decoded(cps[k - 1], at - lead)
  {
    assert AllEncodable(cps[k..]) && Encodable(cps[k - 1]);
    hide *;
    RoundTrip(cps);
    RoundTrip(cps[k..]);
    TakenApart(cps, k);
    EncodedShape(cps[k - 1]);
    PieceBetween(EncodeAll(cps[..k - 1]), CodepointToUTF8(cps[k - 1]), EncodeAll(cps[k..]) + [0]);
    DecodeEncoded(cps[k - 1], EncodeAll(cps[k..]) + [0]);
  }

  // ---- Stepping back through any string ----

  /** Where the forward steps of a string begin: after k of them. */
  function StepStart(s: seq<byte>, k: nat): (at: nat)
    requires Terminated(s) && k <= |DecodeAll(s)|
    ensures at < |s| && Terminated(s[at..])
    decreases k
  {
    if k == 0 then assert s[0..] == s; 0
    else
      var n := GetCodepointNext(s).size;
      var at := n + StepStart(s[n..], k - 1);
      assert s[n..][at - n..] == s[at..];
      at
  }

  lemma {:induction false} StepsOnward(s: seq<byte>, k: nat)
    requires Terminated(s) && k < |DecodeAll(s)|
    ensures var at := StepStart(s, k);
      var d := GetCodepointNext(s[at..]);
      && s[at] != 0 && d.codepoint == DecodeAll(s)[k] && StepStart(s, k + 1) == at + d.size
    decreases k
  {
    hide GetCodepointNext;
    assert s[0..] == s;
    if k > 0 {
      var n := GetCodepointNext(s).size;
      StepsOnward(s[n..], k - 1);
      assert s[n..][StepStart(s[n..], k - 1)..] == s[StepStart(s, k)..];
    }
  }

  lemma {:induction false} StepsEnd(s: seq<byte>)
    requires Terminated(s)
    ensures StepStart(s, |DecodeAll(s)|) == |s| - 1
    decreases |s|
  {
    hide GetCodepointNext;
    if s[0] != 0 {
      StepsEnd(s[GetCodepointNext(s).size..]);
    }
  }

  /** Stepping back from the end of forward step k leads to its start, with its codepoint and size. */
  ghost predicate StepsBackTo(s: seq<byte>, k: nat)
    requires Terminated(s) && k < |DecodeAll(s)|
  {
    var lead, at := StepStart(s, k), StepStart(s, k + 1);
    HasLead(s, at) && LeadBefore(s, at) == lead && SteppedBack(s, at) == Decoded(DecodeAll(s)[k], at - lead)
  }

  /** A forward step begins with its only byte that is no tail byte, unless it is a stray tail byte. */
  lemma StepShape(s: seq<byte>)
    requires Terminated(s) && s[0] != 0
    ensures var n := GetCodepointNext(s).size;
      n < |s| && (forall j :: 1 <= j < n ==> Tail(s[j]))
  {
  }

  /** A step back matches the forward step exactly when that is neither a stray tail byte nor an
      overlong NUL. */
  lemma StepsBackExactly(s: seq<byte>, k: nat)
    requires Terminated(s) && k < |DecodeAll(s)|
    ensures StepsBackTo(s, k) <==> !Tail(s[StepStart(s, k)]) && !OverlongNul(s[StepStart(s, k)..])
  {
    var lead, at := StepStart(s, k), StepStart(s, k + 1);
    StepsOnward(s, k);
    StepTails(s, lead);
    StepsBackNowhereExactly(s[lead..]);
    if !Tail(s[lead]) { OnlyLead(s, lead, at); }
    hide GetCodepointNext, OverlongNul, Tail, Terminated, StepStart, DecodeAll, HasLead;
  }

  lemma StepTails(s: seq<byte>, lead: nat)
    requires Terminated(s) && lead < |s| && Terminated(s[lead..]) && s[lead] != 0
    ensures forall j :: lead < j < lead + GetCodepointNext(s[lead..]).size ==> j < |s| && Tail(s[j])
  {
    StepShape(s[lead..]);
    hide GetCodepointNext, Tail, Terminated;
    forall j | lead < j < lead + GetCodepointNext(s[lead..]).size ensures j < |s| && Tail(s[j]) {
      assert s[j] == s[lead..][j - lead];
    }
  }

  lemma OnlyLead(s: seq<byte>, lead: nat, at: nat)
    requires lead < at <= |s| && !Tail(s[lead]) && forall j :: lead < j < at ==> Tail(s[j])
    ensures HasLead(s, at) && LeadBefore(s, at) == lead
  {
    hide Tail;
  }

  /** The codepoints from number k on, last one first. */
  function Backwards(cps: seq<codepoint>, k: nat): (r: seq<codepoint>)
    requires k <= |cps|
    ensures |r| == |cps| - k
    decreases |cps| - k
  {
    if k == |cps| then [] else Backwards(cps, k + 1) + [cps[k]]
  }

  lemma {:induction false} BackwardsAt(cps: seq<codepoint>, k: nat, i: nat)
    requires k <= |cps| && i < |cps| - k
    ensures Backwards(cps, k)[i] == cps[|cps| - 1 - i]
    decreases |cps| - k
  {
    if i < |cps| - k - 1 { BackwardsAt(cps, k + 1, i); }
  }

  /** Every step of the string can be taken back. */
  ghost predicate AllStepBack(s: seq<byte>)
    requires Terminated(s)
  {
    forall k :: 0 <= k < |DecodeAll(s)| ==> StepsBackTo(s, k)
  }

  /** Any string, read backwards from its end: right when every step can be taken back. */
  method LoadBackwards(text: seq<byte>) returns (codepoints: seq<codepoint>)
    requires Terminated(text) && AllStepBack(text)
    ensures codepoints == Backwards(DecodeAll(text), 0)
  {
    hide *;
    ghost var n := |DecodeAll(text)|;
    codepoints := [];
    var at := TextLength(text);
    ghost var k := n;
    StepsEnd(text);
    AtTheStart(text, k);
    NothingBackwards(DecodeAll(text));
    while at > 0
      invariant 0 <= k <= n && at == StepStart(text, k) && (at == 0 <==> k == 0)
      invariant codepoints == Backwards(DecodeAll(text), k)
      decreases k
    {
      k := k - 1;
      codepoints, at := LoadPrevious(text, at, codepoints, k);
    }
  }

  method LoadPrevious(text: seq<byte>, at: nat, after: seq<codepoint>, ghost k: nat)
    returns (codepoints: seq<codepoint>, at': nat)
    requires Terminated(text) && AllStepBack(text) && k < |DecodeAll(text)|
    requires at == StepStart(text, k + 1) && after == Backwards(DecodeAll(text), k + 1)
    ensures at' == StepStart(text, k) && (at' == 0 <==> k == 0) && codepoints == Backwards(DecodeAll(text), k)
  {
    assert StepsBackTo(text, k);
    hide *;
    TakenBack(text, k);
    AtTheStart(text, k);
    BackwardsNext(DecodeAll(text), k);
    var d := GetCodepointPrevious(text, at);
    codepoints := after + [d.codepoint];
    at' := at - d.size;
  }

  lemma NothingBackwards(cps: seq<codepoint>)
    ensures Backwards(cps, |cps|) == []
  {
  }

  lemma BackwardsNext(cps: seq<codepoint>, k: nat)
    requires k < |cps|
    ensures Backwards(cps, k) == Backwards(cps, k + 1) + [cps[k]]
  {
  }

  lemma AtTheStart(s: seq<byte>, k: nat)
    requires Terminated(s) && k <= |DecodeAll(s)|
    ensures StepStart(s, k) == 0 <==> k == 0
  {
    if k > 0 { StepsOnward(s, k - 1); }
  }

  lemma TakenBack(s: seq<byte>, k: nat)
    requires Terminated(s) && k < |DecodeAll(s)| && StepsBackTo(s, k)
    ensures var at := StepStart(s, k + 1);
      && StepStart(s, k) < at < |s| && HasLead(s, at)
      && SteppedBack(s, at) == Decoded(DecodeAll(s)[k], at - StepStart(s, k))
  {
    hide GetCodepointNext, DecodeAll;
    StepsOnward(s, k);
  }

  /** Every step of an encoded string can be taken back. */
  lemma EncodedStepsBack(cps: seq<codepoint>, k: nat)
    requires AllEncodable(cps) && k < |cps|
    ensures Terminated(EncodeAll(cps) + [0]) && DecodeAll(EncodeAll(cps) + [0]) == cps
    ensures StepsBackTo(EncodeAll(cps) + [0], k)
  {
    var text := EncodeAll(cps) + [0];
    RoundTrip(cps);
    EncodedStepStart(cps, text, k);
    StepsOnward(text, k);
    StepBack(cps, k + 1);
    assert cps[..k + 1][..k] == cps[..k];
    hide *;
    StepsBackExactly(text, k);
    NoOverlongNul(text[StepStart(text, k)..], cps[k]);
  }

  lemma NoOverlongNul(s: seq<byte>, cp: codepoint)
    requires Terminated(s) && s[0] != 0 && GetCodepointNext(s).codepoint == cp && Encodable(cp)
    ensures !OverlongNul(s)
  {
    StepsBackNowhereExactly(s);
    hide GetCodepointNext, OverlongNul;
  }

  lemma {:induction false} EncodedStepStart(cps: seq<codepoint>, text: seq<byte>, k: nat)
    requires AllEncodable(cps) && k <= |cps| && text == EncodeAll(cps) + [0] && Terminated(text)
             && DecodeAll(text) == cps
    ensures StepStart(text, k) == |EncodeAll(cps[..k])|
    decreases k
  {
    if k > 0 {
      EncodedStepStart(cps, text, k - 1);
      hide *;
      NextStepStart(cps, text, k);
    }
  }

  lemma NextStepStart(cps: seq<codepoint>, text: seq<byte>, k: nat)
    requires AllEncodable(cps) && 0 < k <= |cps| && text == EncodeAll(cps) + [0] && Terminated(text)
             && DecodeAll(text) == cps
    requires StepStart(text, k - 1) == |EncodeAll(cps[..k - 1])|
    ensures StepStart(text, k) == |EncodeAll(cps[..k])|
  {
    StepBack(cps, k);
    StepsOnward(text, k - 1);
    hide *;
  }
}
