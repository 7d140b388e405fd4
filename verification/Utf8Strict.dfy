/** The strict decoder, the grammar of RFC 3629 it follows, and how both decoders relate to the
    encoder on arbitrary bytes. */
module Utf8Strict {

  import opened Utf8

  predicate Unexpected(b: byte) {
    b == 0 || b >> 6 != 2
  }

  /** GetCodepoint: on an unexpected byte it returns a question mark, and as its size the number of
      bytes it has looked at. */
  function GetCodepoint(s: seq<byte>): (d: Decoded)
    requires Terminated(s)
    ensures 1 <= d.size <= 4
  {
    var octet := s[0];
    if octet <= 0x7f then Decoded(octet as codepoint, 1)
    else if LeadsTwo(octet) then
      if Unexpected(s[1]) then Decoded(QUESTION_MARK, 2)
      else if 0xc2 <= octet <= 0xdf then Decoded(Two(octet, s[1]), 2)
      else Decoded(QUESTION_MARK, 1)
    else if LeadsThree(octet) then
      if Unexpected(s[1]) then Decoded(QUESTION_MARK, 2)
      else if Unexpected(s[2]) then Decoded(QUESTION_MARK, 3)
      else if (octet == 0xe0 && !(0xa0 <= s[1] <= 0xbf)) || (octet == 0xed && !(0x80 <= s[1] <= 0x9f)) then
        Decoded(QUESTION_MARK, 2)
      else Decoded(Three(octet, s[1], s[2]), 3)
    else if LeadsFour(octet) then
      if octet > 0xf4 then Decoded(QUESTION_MARK, 1)
      else if Unexpected(s[1]) then Decoded(QUESTION_MARK, 2)
      else if Unexpected(s[2]) then Decoded(QUESTION_MARK, 3)
      else if Unexpected(s[3]) then Decoded(QUESTION_MARK, 4)
      else if (octet == 0xf0 && !(0x90 <= s[1] <= 0xbf)) || (octet == 0xf4 && !(0x80 <= s[1] <= 0x8f)) then
        Decoded(QUESTION_MARK, 2)
      else
        var cp := Four(octet, s[1], s[2], s[3]);
        Decoded(if cp > LAST then QUESTION_MARK else cp, 4)
    else Decoded(QUESTION_MARK, 1)
  }

  /** Section 4 of RFC 3629: the length of the UTF8-char a string starts with, 0 if none. */
  function RfcLength(s: seq<byte>): nat {
    if Utf8One(s) then 1 else if Utf8Two(s) then 2 else if Utf8Three(s) then 3 else if Utf8Four(s) then 4 else 0
  }

  predicate Within(b: byte, lo: byte, hi: byte) { lo <= b <= hi }

  predicate Utf8Tail(b: byte) { Within(b, 0x80, 0xbf) }

  predicate Utf8One(s: seq<byte>) { 1 <= |s| && Within(s[0], 0x00, 0x7f) }

  predicate Utf8Two(s: seq<byte>) { 2 <= |s| && Within(s[0], 0xc2, 0xdf) && Utf8Tail(s[1]) }

  predicate Utf8Three(s: seq<byte>) {
    3 <= |s| && Utf8Tail(s[2]) &&
    ((s[0] == 0xe0 && Within(s[1], 0xa0, 0xbf)) || (Within(s[0], 0xe1, 0xec) && Utf8Tail(s[1])) ||
     (s[0] == 0xed && Within(s[1], 0x80, 0x9f)) || (Within(s[0], 0xee, 0xef) && Utf8Tail(s[1])))
  }

  predicate Utf8Four(s: seq<byte>) {
    4 <= |s| && Utf8Tail(s[2]) && Utf8Tail(s[3]) &&
    ((s[0] == 0xf0 && Within(s[1], 0x90, 0xbf)) || (Within(s[0], 0xf1, 0xf3) && Utf8Tail(s[1])) ||
     (s[0] == 0xf4 && Within(s[1], 0x80, 0x8f)))
  }

  /** The bit tests of both decoders, as ranges. */
  lemma ByteForms(b: byte)
    ensures StandsAlone(b) <==> b <= 0x7f
    ensures Tail(b) <==> Within(b, 0x80, 0xbf)
    ensures Unexpected(b) <==> !Within(b, 0x80, 0xbf)
    ensures LeadsTwo(b) <==> Within(b, 0xc0, 0xdf)
    ensures LeadsThree(b) <==> Within(b, 0xe0, 0xef)
    ensures LeadsFour(b) <==> Within(b, 0xf0, 0xf7)
  {
  }

  /** The strict decoder accepts exactly what the grammar generates: a string that does not start
      with a UTF8-char decodes to a question mark, one that does never decodes to a question mark
      unless it starts with one, and then value and size are those of the lenient decoder. */
  lemma StrictExactly(s: seq<byte>)
    requires Terminated(s)
    ensures RfcLength(s) == 0 <==> GetCodepoint(s).codepoint == QUESTION_MARK && s[0] != 0x3f
    ensures RfcLength(s) != 0 ==> GetCodepoint(s).size == RfcLength(s) && GetCodepoint(s) == GetCodepointNext(s)
  {
    ByteForms(s[0]);
    if StandsAlone(s[0]) {
      QuestionMark(s[0]);
    } else if LeadsTwo(s[0]) {
      StrictTwo(s);
    } else if LeadsThree(s[0]) {
      StrictThree(s);
    } else if LeadsFour(s[0]) {
      StrictFour(s);
    }
  }

  predicate StrictAt(s: seq<byte>)
    requires Terminated(s)
  {
    if RfcLength(s) == 0 then GetCodepoint(s).codepoint == QUESTION_MARK
    else GetCodepoint(s).codepoint != QUESTION_MARK && GetCodepoint(s).size == RfcLength(s)
         && GetCodepoint(s) == GetCodepointNext(s)
  }

  lemma QuestionMark(b: byte)
    ensures b as codepoint == QUESTION_MARK <==> b == 0x3f
  {
  }

  lemma StrictTwo(s: seq<byte>)
    requires Terminated(s) && LeadsTwo(s[0])
    ensures StrictAt(s) && s[0] != 0x3f
  {
  }

  lemma StrictThree(s: seq<byte>)
    requires Terminated(s) && LeadsThree(s[0])
    ensures StrictAt(s) && s[0] != 0x3f
  {
  }

  lemma StrictFour(s: seq<byte>)
    requires Terminated(s) && LeadsFour(s[0])
    ensures StrictAt(s) && s[0] != 0x3f
  {
  }

  predicate Surrogate(cp: codepoint) {
    0xd800 <= cp <= 0xdfff
  }

  /** An encoded codepoint is generated by the grammar exactly when it is no surrogate. */
  lemma EncodedByGrammar(cp: codepoint, rest: seq<byte>)
    requires Encodable(cp) && Terminated(rest)
    ensures RfcLength(CodepointToUTF8(cp) + rest) == if Surrogate(cp) then 0 else |CodepointToUTF8(cp)|
  {
    var s := CodepointToUTF8(cp) + rest;
    EncodedRanges(cp);
    if AtMost(cp, 0x7f) {
      OneInverts(cp);
      assert s[0] == (cp & 0xff) as byte;
    }
    hide Lead2, Lead3, Lead4, Tail0, Tail6, Tail12, AtMost;
  }

  lemma EncodedRanges(cp: codepoint)
    requires Encodable(cp)
    ensures AtMost(cp, 0x7f) ==> Within((cp & 0xff) as byte, 0x00, 0x7f) && !Surrogate(cp)
    ensures Utf8Tail(Tail0(cp)) && Utf8Tail(Tail6(cp)) && Utf8Tail(Tail12(cp))
    ensures !AtMost(cp, 0x7f) && AtMost(cp, 0x7ff) ==> Within(Lead2(cp), 0xc2, 0xdf) && !Surrogate(cp)
    ensures !AtMost(cp, 0x7ff) && AtMost(cp, 0xffff) ==>
              && Within(Lead3(cp), 0xe0, 0xef) && (Lead3(cp) == 0xe0 ==> Within(Tail6(cp), 0xa0, 0xbf))
              && (Surrogate(cp) <==> Lead3(cp) == 0xed && !Within(Tail6(cp), 0x80, 0x9f))
    ensures !AtMost(cp, 0xffff) ==>
              && Within(Lead4(cp), 0xf0, 0xf4) && (Lead4(cp) == 0xf0 ==> Within(Tail12(cp), 0x90, 0xbf))
              && (Lead4(cp) == 0xf4 ==> Within(Tail12(cp), 0x80, 0x8f)) && !Surrogate(cp) && AtMost(cp, LAST)
  {
  }

  /** The strict decoder inverts the encoder on exactly the codepoints that are no surrogates. */
  lemma StrictInvertsExactly(cp: codepoint, rest: seq<byte>)
    requires Encodable(cp) && Terminated(rest)
    ensures Terminated(CodepointToUTF8(cp) + rest)
    ensures GetCodepoint(CodepointToUTF8(cp) + rest) == Decoded(cp, |CodepointToUTF8(cp)|) <==> !Surrogate(cp)
  {
    hide *;
    var s := CodepointToUTF8(cp) + rest;
    DecodeEncoded(cp, rest);
    EncodedByGrammar(cp, rest);
    EncodedShape(cp);
    StrictExactly(s);
    SurrogateIsNoQuestionMark(cp);
  }

  lemma SurrogateIsNoQuestionMark(cp: codepoint)
    ensures Surrogate(cp) ==> cp != QUESTION_MARK
  {
  }

  /** What is no UTF8-char: how many bytes a question mark stands for. It is the number of bytes up to
      the first that is no tail byte, that byte included; one for a byte that leads nothing; and two
      where all tail bytes are there but the second is out of range. */
  lemma RejectedExactly(s: seq<byte>)
    requires Terminated(s) && RfcLength(s) == 0
    ensures GetCodepoint(s).codepoint == 0x3f
    ensures 0x80 <= s[0] <= 0xbf || 0xf5 <= s[0] ==> GetCodepoint(s).size == 1
    ensures 0xc0 <= s[0] <= 0xdf ==> GetCodepoint(s).size == if 0x80 <= s[1] <= 0xbf then 1 else 2
    ensures 0xe0 <= s[0] <= 0xef ==>
              GetCodepoint(s).size == if 0x80 <= s[1] <= 0xbf && !(0x80 <= s[2] <= 0xbf) then 3 else 2
    ensures 0xf0 <= s[0] <= 0xf4 ==>
              GetCodepoint(s).size == if !(0x80 <= s[1] <= 0xbf) then 2 else if !(0x80 <= s[2] <= 0xbf) then 3
                                      else if !(0x80 <= s[3] <= 0xbf) then 4 else 2
  {
    StrictExactly(s);
    ByteForms(s[0]);
    if 1 < |s| { ByteForms(s[1]); }
    if 2 < |s| { ByteForms(s[2]); }
    if 3 < |s| { ByteForms(s[3]); }
    hide Two, Three, Four, LeadsTwo, LeadsThree, LeadsFour, StandsAlone, Tail, Unexpected;
  }

  /** A multi-byte sequence that the terminator cuts short. */
  predicate CutShort(s: seq<byte>)
    requires Terminated(s)
  {
    && 0xc0 <= s[0] <= 0xf4
    && (s[1] == 0
        || (0xe0 <= s[0] && Tail(s[1])
            && (s[2] == 0 || (0xf0 <= s[0] && Tail(s[2]) && s[3] == 0))))
  }

  /** The strict decoder's size leads past the terminator exactly when the string ends in the
      middle of a multi-byte sequence. */
  lemma StrictStepsPastExactly(s: seq<byte>)
    requires Terminated(s) && s[0] != 0
    ensures GetCodepoint(s).size > |s| - 1 <==> CutShort(s)
  {
  }

  /** The string of the byte C3 alone: its terminator is taken for the second byte of the sequence. */
  lemma StepsPastTerminator()
    ensures Terminated([0xc3, 0]) && CutShort([0xc3, 0]) && GetCodepoint([0xc3, 0]).size == 2
  {
    StrictStepsPastExactly([0xc3, 0]);
  }

  /** A sequence in its shortest form, surrogates allowed. */
  predicate Shortest(s: seq<byte>)
    requires Terminated(s) && s[0] != 0
  {
    if s[0] <= 0x7f then true
    else if 0xc2 <= s[0] <= 0xdf then Tail(s[1])
    else if 0xe0 <= s[0] <= 0xef then Tail(s[1]) && Tail(s[2]) && (s[0] == 0xe0 ==> 0xa0 <= s[1])
    else if 0xf0 <= s[0] <= 0xf4 then
      Tail(s[1]) && Tail(s[2]) && Tail(s[3]) && (s[0] == 0xf0 ==> 0x90 <= s[1]) && (s[0] == 0xf4 ==> s[1] <= 0x8f)
    else false
  }

  predicate AllShortest(s: seq<byte>)
    requires Terminated(s)
    decreases |s|
  {
    s[0] == 0 || (Shortest(s) && AllShortest(s[GetCodepointNext(s).size..]))
  }

  lemma TwoEncodes(a: byte, b: byte)
    requires LeadsTwo(a) && Tail(b)
    ensures Two(a, b) <= 0x7ff && Two(a, b) & 0x8000_0000 == 0 && (0xc2 <= a <==> 0x7f < Two(a, b))
    ensures Lead2(Two(a, b)) == a && Tail0(Two(a, b)) == b
  {
  }

  lemma ThreeEncodes(a: byte, b: byte, c: byte)
    requires LeadsThree(a) && Tail(b) && Tail(c)
    ensures Three(a, b, c) <= 0xffff && Three(a, b, c) & 0x8000_0000 == 0
    ensures 0x7ff < Three(a, b, c) <==> (a == 0xe0 ==> 0xa0 <= b)
    ensures Lead3(Three(a, b, c)) == a && Tail6(Three(a, b, c)) == b && Tail0(Three(a, b, c)) == c
  {
  }

  lemma FourEncodes(a: byte, b: byte, c: byte, d: byte)
    requires LeadsFour(a) && Tail(b) && Tail(c) && Tail(d)
    ensures Four(a, b, c, d) & 0x8000_0000 == 0
    ensures 0xffff < Four(a, b, c, d) <==> (a == 0xf0 ==> 0x90 <= b)
    ensures Four(a, b, c, d) <= LAST <==> a <= 0xf4 && (a == 0xf4 ==> b <= 0x8f)
    ensures Lead4(Four(a, b, c, d)) == a && Tail12(Four(a, b, c, d)) == b
    ensures Tail6(Four(a, b, c, d)) == c && Tail0(Four(a, b, c, d)) == d
  {
  }

  lemma AsciiEncodes(a: byte)
    requires StandsAlone(a)
    ensures AtMost(a as codepoint, 0x7f) && (a as codepoint & 0xff) as byte == a
  {
  }

  lemma QuestionMarkEncodes()
    ensures CodepointToUTF8(QUESTION_MARK) == [0x3f]
  {
  }

  predicate ReencodesExactly(s: seq<byte>)
    requires Terminated(s) && s[0] != 0
  {
    var d := GetCodepointNext(s);
    && |CodepointToUTF8(d.codepoint)| <= d.size
    && (CodepointToUTF8(d.codepoint) == s[..d.size] <==> Shortest(s))
  }

  /** Encoding what the lenient decoder read gives back the bytes exactly when they were a
      sequence in its shortest form, and never more bytes than were read. */
  lemma ReencodeExactly(s: seq<byte>)
    requires Terminated(s) && s[0] != 0
    ensures ReencodesExactly(s)
  {
    ByteForms(s[0]);
    if LeadsFour(s[0]) {
      ReencodeFour(s);
    } else {
      ReencodeShorter(s);
    }
  }

  lemma ReencodeShorter(s: seq<byte>)
    requires Terminated(s) && s[0] != 0 && !LeadsFour(s[0])
    ensures ReencodesExactly(s)
  {
    ByteForms(s[0]);
    QuestionMarkEncodes();
    if StandsAlone(s[0]) {
      AsciiEncodes(s[0]);
    } else if LeadsTwo(s[0]) {
      ByteForms(s[1]);
      if Tail(s[1]) { TwoEncodes(s[0], s[1]); }
    } else if LeadsThree(s[0]) && Tail(s[1]) && Tail(s[2]) {
      ByteForms(s[1]);
      ThreeEncodes(s[0], s[1], s[2]);
    }
    hide LeadsTwo, LeadsThree, LeadsFour, StandsAlone, Tail, Two, Three, Four, Lead2, Lead3, Lead4, Tail0, Tail6,
         Tail12;
  }

  lemma ReencodeFour(s: seq<byte>)
    requires Terminated(s) && LeadsFour(s[0])
    ensures s[0] != 0 && ReencodesExactly(s)
  {
    ByteForms(s[0]);
    QuestionMarkEncodes();
    if Tail(s[1]) && Tail(s[2]) && Tail(s[3]) {
      ByteForms(s[1]);
      FourEncodes(s[0], s[1], s[2], s[3]);
    }
    hide LeadsTwo, LeadsThree, LeadsFour, StandsAlone, Tail, Two, Three, Four, Lead2, Lead3, Lead4, Tail0, Tail6,
         Tail12;
  }

  lemma {:induction false} ReencodedNotLonger(s: seq<byte>)
    requires Terminated(s)
    ensures |EncodeAll(DecodeAll(s))| <= |s| - 1
    decreases |s|
  {
    if s[0] != 0 {
      hide CodepointToUTF8, GetCodepointNext, Shortest;
      var d := GetCodepointNext(s);
      ReencodeExactly(s);
      ReencodedNotLonger(s[d.size..]);
      FirstOf(d.codepoint, DecodeAll(s[d.size..]));
    }
  }

  lemma FirstOf(cp: codepoint, cps: seq<codepoint>)
    ensures EncodeAll([cp] + cps) == CodepointToUTF8(cp) + EncodeAll(cps)
  {
    hide CodepointToUTF8, EncodeAll;
    EncodeFirst([cp] + cps);
    assert ([cp] + cps)[1..] == cps;
  }

  /** A non-empty string, taken apart after its first sequence. */
  lemma FirstSequence(s: seq<byte>)
    requires Terminated(s) && s[0] != 0
    ensures var d := GetCodepointNext(s);
            && d.size < |s| && Terminated(s[d.size..]) && s == s[..d.size] + s[d.size..]
            && EncodeAll(DecodeAll(s)) == CodepointToUTF8(d.codepoint) + EncodeAll(DecodeAll(s[d.size..]))
            && (AllShortest(s) <==> Shortest(s) && AllShortest(s[d.size..]))
            && |CodepointToUTF8(d.codepoint)| <= |s[..d.size]|
            && (CodepointToUTF8(d.codepoint) == s[..d.size] <==> Shortest(s))
  {
    hide *;
    var d := GetCodepointNext(s);
    StepInside(s);
    ReencodedFirst(s);
    DecodedFirst(s);
    ShortestFirst(s);
    FirstOf(d.codepoint, DecodeAll(s[d.size..]));
  }

  lemma StepInside(s: seq<byte>)
    requires Terminated(s) && s[0] != 0
    ensures GetCodepointNext(s).size < |s| && Terminated(s[GetCodepointNext(s).size..])
    ensures s == s[..GetCodepointNext(s).size] + s[GetCodepointNext(s).size..]
  {
    hide GetCodepointNext;
  }

  lemma ReencodedFirst(s: seq<byte>)
    requires Terminated(s) && s[0] != 0
    ensures var d := GetCodepointNext(s);
            && d.size < |s| && |CodepointToUTF8(d.codepoint)| <= |s[..d.size]|
            && (CodepointToUTF8(d.codepoint) == s[..d.size] <==> Shortest(s))
  {
    hide CodepointToUTF8, GetCodepointNext, Shortest;
    ReencodeExactly(s);
  }

  lemma DecodedFirst(s: seq<byte>)
    requires Terminated(s) && s[0] != 0
    ensures var d := GetCodepointNext(s);
            d.size < |s| && Terminated(s[d.size..]) && DecodeAll(s) == [d.codepoint] + DecodeAll(s[d.size..])
  {
    hide GetCodepointNext;
  }

  lemma ShortestFirst(s: seq<byte>)
    requires Terminated(s) && s[0] != 0
    ensures var d := GetCodepointNext(s);
            && d.size < |s| && Terminated(s[d.size..])
            && (AllShortest(s) <==> Shortest(s) && AllShortest(s[d.size..]))
  {
    hide GetCodepointNext, Shortest;
  }

  /** Decoding a string and encoding the result gives the string back exactly when all its
      sequences are in their shortest form. */
  lemma {:induction false} CanonicalExactly(s: seq<byte>)
    requires Terminated(s)
    ensures EncodeAll(DecodeAll(s)) + [0] == s <==> AllShortest(s)
    decreases |s|
  {
    if s[0] == 0 {
      assert s == [0];
    } else {
      hide *;
      FirstSequence(s);
      var d := GetCodepointNext(s);
      var rest := s[d.size..];
      ReencodedNotLonger(rest);
      CanonicalExactly(rest);
      Append3(CodepointToUTF8(d.codepoint), EncodeAll(DecodeAll(rest)), [0]);
      SplitEqual(CodepointToUTF8(d.codepoint), EncodeAll(DecodeAll(rest)) + [0], s[..d.size], rest);
    }
  }

  lemma Append3(a: seq<byte>, b: seq<byte>, c: seq<byte>)
    ensures (a + b) + c == a + (b + c)
  {
  }

  /** Two concatenations whose parts do not differ in length are equal part by part. */
  lemma SplitEqual(a: seq<byte>, b: seq<byte>, a': seq<byte>, b': seq<byte>)
    requires |a| <= |a'| && |b| <= |b'|
    ensures a + b == a' + b' <==> a == a' && b == b'
  {
    if a + b == a' + b' {
      assert |a| == |a'|;
      assert a == (a + b)[..|a|] && a' == (a' + b')[..|a|];
      assert b == (a + b)[|a|..] && b' == (a' + b')[|a|..];
    }
  }
}
