/** Base64 text (section 4 of RFC 4648): the encoder works on groups of three octets and the decoder
    on groups of four digits; the specification is about single bits. */
module Base64 {

  type Octet = bv8

  // ---- The alphabet ----

  const PAD: char := '='

  /** The decoding table, twenty entries a row. */
  function DecodeTable(k: nat): (v: nat)
    requires k < 123
    ensures v < 64
  {
    if k < 40 then 0
    else if k < 60 then [0, 0, 0, 62, 0, 0, 0, 63, 52, 53, 54, 55, 56, 57, 58, 59, 60, 61, 0, 0][k - 40]
    else if k < 80 then [0, 0, 0, 0, 0, 0, 1, 2, 3, 4, 5, 6, 7, 8, 9, 10, 11, 12, 13, 14][k - 60]
    else if k < 100 then [15, 16, 17, 18, 19, 20, 21, 22, 23, 24, 25, 0, 0, 0, 0, 0, 0, 26, 27, 28][k - 80]
    else if k < 120 then [29, 30, 31, 32, 33, 34, 35, 36, 37, 38, 39, 40, 41, 42, 43, 44, 45, 46, 47, 48][k - 100]
    else [49, 50, 51][k - 120]
  }

  function EncodeTable(k: nat): char
    requires k < 64
  {
    if k < 24 then "ABCDEFGHIJKLMNOPQRSTUVWX"[k]
    else if k < 48 then "YZabcdefghijklmnopqrstuv"[k - 24]
    else "wxyz0123456789+/"[k - 48]
  }

  function Digit(v: Octet): (c: char)
    requires v < 64
  {
    EncodeTable(v as nat)
  }

  function Value(c: char): (v: Octet)
    requires c <= 'z'
  {
    DecodeTable(c as nat) as Octet
  }

  /** The alphabet as section 4 of RFC 4648 lists it. */
  function Alphabet(k: nat): char
    requires k < 64
  {
    if k < 26 then 'A' + k as char else if k < 52 then 'a' + (k - 26) as char
    else if k < 62 then '0' + (k - 52) as char else if k == 62 then '+' else '/'
  }

  lemma EncodesAlphabet(k: nat)
    requires k < 64
    ensures EncodeTable(k) == Alphabet(k)
  {
  }

  lemma DecodesAlphabet(k: nat)
    requires k < 64
    ensures DecodeTable(Alphabet(k) as nat) == k
  {
  }

  /** The alphabet's character codes. */
  lemma DigitCodes(v: Octet)
    requires v < 64
    ensures Digit(v) as int == if v < 26 then 65 + v as int else if v < 52 then 71 + v as int
                               else if v < 62 then v as int - 4 else if v == 62 then 43 else 47
  {
    EncodesAlphabet(v as nat);
    hide EncodeTable;
  }

  lemma TablesInverse(v: Octet)
    requires v < 64
    ensures Digit(v) <= 'z' && Value(Digit(v)) == v && Digit(v) != PAD && Digit(v) != '\0'
  {
    EncodesAlphabet(v as nat);
    DecodesAlphabet(v as nat);
  }

  ghost predicate InAlphabet(c: char) {
    exists v: Octet | v < 64 :: Digit(v) == c
  }

  lemma AlphabetInverse(c: char)
    requires InAlphabet(c)
    ensures c <= 'z' && Value(c) < 64 && Digit(Value(c)) == c && c != PAD && c != '\0'
  {
    hide Digit, Value;
    var v: Octet :| v < 64 && Digit(v) == c;
    TablesInverse(v);
  }

  // ---- Bits, most significant first ----

  predicate Bit(b: Octet, k: nat)
    requires k < 8
  {
    (match k
     case 0 => b & 128
     case 1 => b & 64
     case 2 => b & 32
     case 3 => b & 16
     case 4 => b & 8
     case 5 => b & 4
     case 6 => b & 2
     case _ => b & 1) != 0
  }

  function FromBits(b0: bool, b1: bool, b2: bool, b3: bool, b4: bool, b5: bool, b6: bool, b7: bool): (b: Octet)
    ensures Bit(b, 0) == b0 && Bit(b, 1) == b1 && Bit(b, 2) == b2 && Bit(b, 3) == b3
    ensures Bit(b, 4) == b4 && Bit(b, 5) == b5 && Bit(b, 6) == b6 && Bit(b, 7) == b7
    ensures !b0 && !b1 ==> b < 64
  {
    (if b0 then 128 else 0) | (if b1 then 64 else 0) | (if b2 then 32 else 0) | (if b3 then 16 else 0)
    | (if b4 then 8 else 0) | (if b5 then 4 else 0) | (if b6 then 2 else 0) | (if b7 then 1 else 0)
  }

  lemma SameBits(a: Octet, b: Octet)
    requires forall k: nat | k < 8 :: Bit(a, k) == Bit(b, k)
    ensures a == b
  {
    assert Bit(a, 0) == Bit(b, 0) && Bit(a, 1) == Bit(b, 1) && Bit(a, 2) == Bit(b, 2) && Bit(a, 3) == Bit(b, 3);
    assert Bit(a, 4) == Bit(b, 4) && Bit(a, 5) == Bit(b, 5) && Bit(a, 6) == Bit(b, 6) && Bit(a, 7) == Bit(b, 7);
  }

  /** Bit j of a byte string; zero past its end. */
  predicate DataBit(data: seq<Octet>, j: nat) {
    j / 8 < |data| && Bit(data[j / 8], j % 8)
  }

  /** Bit j of a text whose digits carry six bits each; zero past its end. */
  predicate TextBit(text: string, j: nat)
    requires InTable(text)
  {
    j / 6 < |text| && Bit(Value(text[j / 6]), 2 + j % 6)
  }

  predicate InTable(text: string) {
    forall k :: 0 <= k < |text| ==> text[k] <= 'z'
  }

  // ---- The specification ----

  /** The number of digits that carry a bit of the data. */
  function DigitCount(n: nat): nat {
    (8 * n + 5) / 6
  }

  function EncodedLength(n: nat): nat {
    4 * ((n + 2) / 3)
  }

  function Sextet(data: seq<Octet>, k: nat): (v: Octet)
    ensures v < 64
  {
    FromBits(false, false, DataBit(data, 6 * k), DataBit(data, 6 * k + 1), DataBit(data, 6 * k + 2),
             DataBit(data, 6 * k + 3), DataBit(data, 6 * k + 4), DataBit(data, 6 * k + 5))
  }

  /** Six bits a digit, filled up with zero bits to a whole digit and with padding to four digits. */
  function EncodedAt(data: seq<Octet>, k: nat): char {
    if k < DigitCount(|data|) then Digit(Sextet(data, k)) else PAD
  }

  function Encoded(data: seq<Octet>): (text: string)
    ensures |text| == EncodedLength(|data|)
  {
    seq(EncodedLength(|data|), k requires k >= 0 => EncodedAt(data, k))
  }

  function DecodedAt(text: string, i: nat): Octet
    requires InTable(text)
  {
    FromBits(TextBit(text, 8 * i), TextBit(text, 8 * i + 1), TextBit(text, 8 * i + 2), TextBit(text, 8 * i + 3),
             TextBit(text, 8 * i + 4), TextBit(text, 8 * i + 5), TextBit(text, 8 * i + 6), TextBit(text, 8 * i + 7))
  }

  /** What the decoder counts: padding takes an octet away in whatever group it is. */
  function DecodedLength(text: string, groups: nat): (n: nat)
    requires 4 * groups <= |text|
    ensures n <= 3 * groups
  {
    if groups == 0 then 0
    else
      var last := 4 * groups - 1;
      DecodedLength(text, groups - 1)
      + if text[last] != PAD then 3 else if text[last - 1] != PAD then 2 else 1
  }

  /** A group counts for three octets, less one for each padding character at its end. */
  lemma GroupCounts(text: string, g: nat)
    requires 4 * g + 3 < |text|
    ensures DecodedLength(text, 0) == 0
    ensures DecodedLength(text, g + 1) - DecodedLength(text, g)
            == if text[4 * g + 3] != '=' then 3 else if text[4 * g + 2] != '=' then 2 else 1
  {
  }

  function Decoded(text: string): (data: seq<Octet>)
    requires InTable(text)
    ensures |data| == DecodedLength(text, |text| / 4)
  {
    seq(DecodedLength(text, |text| / 4), i requires i >= 0 => DecodedAt(text, i))
  }

  // ---- Encoding ----

  /** Three octets are four digits of six bits each, the first the most significant; what is missing in
      the last group counts as zeros, and digits that carry none of its bits are padding. */
  lemma EncodedGroup(data: seq<Octet>, g: nat, a: Octet, b: Octet, c: Octet)
    requires 3 * g < |data| && a == data[3 * g] && b == (if 3 * g + 1 < |data| then data[3 * g + 1] else 0)
    requires c == (if 3 * g + 2 < |data| then data[3 * g + 2] else 0)
    ensures 4 * g + 3 < |Encoded(data)|
    ensures Encoded(data)[4 * g] == Digit(a >> 2)
    ensures Encoded(data)[4 * g + 1] == Digit(((a & 3) << 4) | (b >> 4))
    ensures Encoded(data)[4 * g + 2] == if 3 * g + 1 < |data| then Digit(((b & 15) << 2) | (c >> 6)) else '='
    ensures Encoded(data)[4 * g + 3] == if 3 * g + 2 < |data| then Digit(c & 63) else '='
  {
    SixBitsOf(a, b, c);
    hide *;
    GroupDigits(data, g, a, b, c);
    InsideText(|data|, g);
    DigitOrPad(data, 4 * g);
    DigitOrPad(data, 4 * g + 1);
    DigitOrPad(data, 4 * g + 2);
    DigitOrPad(data, 4 * g + 3);
  }

  lemma DigitOrPad(data: seq<Octet>, k: nat)
    requires k < EncodedLength(|data|)
    ensures k < |Encoded(data)| && Encoded(data)[k] == if k < DigitCount(|data|) then Digit(Sextet(data, k)) else '='
  {
    hide Digit, Sextet, DigitCount, EncodedLength;
  }

  lemma InsideText(n: nat, g: nat)
    requires 3 * g < n
    ensures 4 * g + 3 < EncodedLength(n) && 4 * g + 1 < DigitCount(n)
    ensures 4 * g + 2 < DigitCount(n) <==> 3 * g + 1 < n
    ensures 4 * g + 3 < DigitCount(n) <==> 3 * g + 2 < n
  {
  }

  lemma SixBitsOf(a: Octet, b: Octet, c: Octet)
    ensures SixBits(Triple(a, b, c), 3) == a >> 2
    ensures SixBits(Triple(a, b, c), 2) == ((a & 3) << 4) | (b >> 4)
    ensures SixBits(Triple(a, b, c), 1) == ((b & 15) << 2) | (c >> 6)
    ensures SixBits(Triple(a, b, c), 0) == c & 63
  {
  }

  /** Three octets side by side. */
  function Triple(a: Octet, b: Octet, c: Octet): bv32 {
    ((a as bv32) << 16) + ((b as bv32) << 8) + (c as bv32)
  }

  /** Six bits of a triple, counted in digits from its right end. */
  function SixBits(triple: bv32, fromRight: nat): Octet
    requires fromRight < 4
  {
    match fromRight
    case 0 => ((triple >> 0) & 0x3F) as Octet
    case 1 => ((triple >> 6) & 0x3F) as Octet
    case 2 => ((triple >> 12) & 0x3F) as Octet
    case _ => ((triple >> 18) & 0x3F) as Octet
  }

  lemma TripleSextets(a: Octet, b: Octet, c: Octet)
    ensures SixBits(Triple(a, b, c), 3) == FromBits(false, false, Bit(a, 0), Bit(a, 1), Bit(a, 2), Bit(a, 3),
                                                    Bit(a, 4), Bit(a, 5))
    ensures SixBits(Triple(a, b, c), 2) == FromBits(false, false, Bit(a, 6), Bit(a, 7), Bit(b, 0), Bit(b, 1),
                                                    Bit(b, 2), Bit(b, 3))
    ensures SixBits(Triple(a, b, c), 1) == FromBits(false, false, Bit(b, 4), Bit(b, 5), Bit(b, 6), Bit(b, 7),
                                                    Bit(c, 0), Bit(c, 1))
    ensures SixBits(Triple(a, b, c), 0) == FromBits(false, false, Bit(c, 2), Bit(c, 3), Bit(c, 4), Bit(c, 5),
                                                    Bit(c, 6), Bit(c, 7))
  {
  }

  /** The four digits of group g of the data; octets past the end are zero. */
  lemma GroupDigits(data: seq<Octet>, g: nat, a: Octet, b: Octet, c: Octet)
    requires 3 * g < |data| && a == data[3 * g]
    requires b == if 3 * g + 1 < |data| then data[3 * g + 1] else 0
    requires c == if 3 * g + 2 < |data| then data[3 * g + 2] else 0
    ensures SixBits(Triple(a, b, c), 3) == Sextet(data, 4 * g)
    ensures SixBits(Triple(a, b, c), 2) == Sextet(data, 4 * g + 1)
    ensures SixBits(Triple(a, b, c), 1) == Sextet(data, 4 * g + 2)
    ensures SixBits(Triple(a, b, c), 0) == Sextet(data, 4 * g + 3)
  {
    hide FromBits, Bit, DataBit, Triple, SixBits;
    TripleSextets(a, b, c);
    OctetBits(data, 3 * g, a);
    OctetBits(data, 3 * g + 1, b);
    OctetBits(data, 3 * g + 2, c);
  }

  lemma OctetBits(data: seq<Octet>, i: nat, a: Octet)
    requires a == if i < |data| then data[i] else 0
    ensures DataBit(data, 8 * i) == Bit(a, 0) && DataBit(data, 8 * i + 1) == Bit(a, 1)
    ensures DataBit(data, 8 * i + 2) == Bit(a, 2) && DataBit(data, 8 * i + 3) == Bit(a, 3)
    ensures DataBit(data, 8 * i + 4) == Bit(a, 4) && DataBit(data, 8 * i + 5) == Bit(a, 5)
    ensures DataBit(data, 8 * i + 6) == Bit(a, 6) && DataBit(data, 8 * i + 7) == Bit(a, 7)
  {
  }

  /** The digits of the first octets, whether or not they will be overwritten by padding. */
  ghost predicate Digits(encoded: seq<char>, data: seq<Octet>, n: nat) {
    n <= |encoded| && forall k: nat | k < n :: encoded[k] == Digit(Sextet(data, k))
  }

  lemma NoDigits(encoded: seq<char>, data: seq<Octet>)
    ensures Digits(encoded, data, 0)
  {
  }

  ghost predicate Padded(encoded: seq<char>, data: seq<Octet>, padding: nat) {
    && padding <= |encoded| && Digits(encoded, data, |encoded| - padding)
    && forall k | |encoded| - padding <= k < |encoded| :: encoded[k] == PAD
  }

  lemma PadOne(encoded: seq<char>, data: seq<Octet>, padding: nat)
    requires Padded(encoded, data, padding) && padding < |encoded|
    ensures Padded(encoded[|encoded| - 1 - padding := PAD], data, padding + 1)
  {
  }

  function Padding(n: nat): nat {
    [0, 2, 1][n % 3]
  }

  lemma PaddingByRemainder(n: nat)
    ensures Padding(n) == if n % 3 == 0 then 0 else 3 - n % 3
  {
  }

  lemma PaddingFills(n: nat)
    ensures Padding(n) <= 2 && n == 3 * (EncodedLength(n) / 4) - Padding(n)
  {
    hide *;
    PaddingByRemainder(n);
    LengthsByRemainder(n / 3, n % 3);
  }

  lemma PaddingFollows(n: nat)
    ensures EncodedLength(n) - Padding(n) == DigitCount(n)
  {
    hide *;
    PaddingByRemainder(n);
    LengthsByRemainder(n / 3, n % 3);
  }

  lemma LengthsByRemainder(q: nat, r: nat)
    requires r < 3
    ensures EncodedLength(3 * q + r) == 4 * q + if r == 0 then 0 else 4
    ensures DigitCount(3 * q + r) == 4 * q + if r == 0 then 0 else r + 1
  {
  }

  lemma AllPadded(encoded: seq<char>, data: seq<Octet>)
    requires |encoded| == EncodedLength(|data|) && Padded(encoded, data, Padding(|data|))
    ensures encoded == Encoded(data)
  {
    PaddingFills(|data|);
    PaddingFollows(|data|);
    hide Digit, Sextet, Padding, DigitCount, EncodedLength;
  }

  method EncodeGroup(encoded: array<char>, data: seq<Octet>, start: nat, j: nat, ghost g: nat) returns (i: nat)
    requires j == 4 * g && start == 3 * g < |data| && j + 4 <= encoded.Length && Digits(encoded[..], data, j)
    modifies encoded
    ensures i == (if start + 3 < |data| then start + 3 else |data|) && Digits(encoded[..], data, j + 4)
  {
    hide Digit, Triple, SixBits, Sextet;
    i := start;
    var octetA: Octet := data[i];
    i := i + 1;
    var octetB: Octet := 0;
    if i < |data| { octetB := data[i]; i := i + 1; }
    var octetC: Octet := 0;
    if i < |data| { octetC := data[i]; i := i + 1; }
    var triple := Triple(octetA, octetB, octetC);
    GroupDigits(data, g, octetA, octetB, octetC);
    encoded[j] := Digit(SixBits(triple, 3));
    encoded[j + 1] := Digit(SixBits(triple, 2));
    encoded[j + 2] := Digit(SixBits(triple, 1));
    encoded[j + 3] := Digit(SixBits(triple, 0));
  }

  method EncodeDataBase64(data: seq<Octet>) returns (encoded: array<char>)
    ensures fresh(encoded) && encoded[..] == Encoded(data)
  {
    hide Digits, Encoded;
    encoded := new char[4 * ((|data| + 2) / 3)];
    NoDigits(encoded[..], data);
    var i, j := 0, 0;
    ghost var g := 0;
    while i < |data|
      invariant j == 4 * g && i == (if 3 * g < |data| then 3 * g else |data|)
      invariant 3 * g < |data| + 3
      invariant Digits(encoded[..], data, j)
    {
      i := EncodeGroup(encoded, data, i, j, g);
      j := j + 4;
      g := g + 1;
    }
    for p := 0 to Padding(|data|)
      invariant Padded(encoded[..], data, p)
    {
      hide *;
      PadOne(encoded[..], data, p);
      encoded[encoded.Length - 1 - p] := PAD;
    }
    AllPadded(encoded[..], data);
  }

  // ---- Decoding ----

  function First(a: Octet, b: Octet): Octet {
    (a << 2) | (b >> 4)
  }

  function Second(b: Octet, c: Octet): Octet {
    (b << 4) | (c >> 2)
  }

  function Third(c: Octet, d: Octet): Octet {
    (c << 6) | d
  }

  lemma OctetsFromDigits(a: Octet, b: Octet, c: Octet, d: Octet)
    requires a < 64 && b < 64 && c < 64 && d < 64
    ensures First(a, b) == FromBits(Bit(a, 2), Bit(a, 3), Bit(a, 4), Bit(a, 5), Bit(a, 6), Bit(a, 7), Bit(b, 2),
                                    Bit(b, 3))
    ensures Second(b, c) == FromBits(Bit(b, 4), Bit(b, 5), Bit(b, 6), Bit(b, 7), Bit(c, 2), Bit(c, 3), Bit(c, 4),
                                     Bit(c, 5))
    ensures Third(c, d) == FromBits(Bit(c, 6), Bit(c, 7), Bit(d, 2), Bit(d, 3), Bit(d, 4), Bit(d, 5), Bit(d, 6),
                                    Bit(d, 7))
  {
  }

  lemma DigitBits(text: string, k: nat)
    requires InTable(text) && k < |text|
    ensures var v := Value(text[k]);
      && TextBit(text, 6 * k) == Bit(v, 2) && TextBit(text, 6 * k + 1) == Bit(v, 3)
        && TextBit(text, 6 * k + 2) == Bit(v, 4)
      && TextBit(text, 6 * k + 3) == Bit(v, 5) && TextBit(text, 6 * k + 4) == Bit(v, 6)
        && TextBit(text, 6 * k + 5) == Bit(v, 7)
  {
    hide Bit, Value;
  }

  /** The octets of group g of a text, by digits. */
  lemma GroupOctets(text: string, g: nat)
    requires InTable(text) && 4 * g + 3 < |text|
    ensures var a, b, c, d := Value(text[4 * g]), Value(text[4 * g + 1]), Value(text[4 * g + 2]),
            Value(text[4 * g + 3]);
      && DecodedAt(text, 3 * g) == First(a, b)
      && DecodedAt(text, 3 * g + 1) == Second(b, c)
      && DecodedAt(text, 3 * g + 2) == Third(c, d)
  {
    hide Bit, Value, TextBit, FromBits, First, Second, Third, InTable;
    DigitBits(text, 4 * g);
    DigitBits(text, 4 * g + 1);
    DigitBits(text, 4 * g + 2);
    DigitBits(text, 4 * g + 3);
    ValuesSmall(text);
    OctetsFromDigits(Value(text[4 * g]), Value(text[4 * g + 1]), Value(text[4 * g + 2]), Value(text[4 * g + 3]));
  }

  /** And back: four digits are three octets, as far as these are counted. */
  lemma DecodedGroup(text: string, g: nat)
    requires InTable(text) && 4 * g + 3 < |text|
    ensures var d := Decoded(text);
            var all := ((Value(text[4 * g]) as bv32) << 18) | ((Value(text[4 * g + 1]) as bv32) << 12)
                       | ((Value(text[4 * g + 2]) as bv32) << 6) | (Value(text[4 * g + 3]) as bv32);
            && (3 * g < |d| ==> d[3 * g] as bv32 == all >> 16)
            && (3 * g + 1 < |d| ==> d[3 * g + 1] as bv32 == (all >> 8) & 0xFF)
            && (3 * g + 2 < |d| ==> d[3 * g + 2] as bv32 == all & 0xFF)
  {
    hide Value, First, Second, Third, DecodedAt, DecodedLength, InTable;
    GroupOctets(text, g);
    ValuesSmall(text);
    OctetsSideBySide(Value(text[4 * g]), Value(text[4 * g + 1]), Value(text[4 * g + 2]), Value(text[4 * g + 3]));
  }

  lemma OctetsSideBySide(a: Octet, b: Octet, c: Octet, d: Octet)
    requires a < 64 && b < 64 && c < 64 && d < 64
    ensures var all := ((a as bv32) << 18) | ((b as bv32) << 12) | ((c as bv32) << 6) | (d as bv32);
            && First(a, b) as bv32 == all >> 16 && Second(b, c) as bv32 == (all >> 8) & 0xFF
            && Third(c, d) as bv32 == all & 0xFF
  {
  }

  lemma ValuesSmall(text: string)
    requires InTable(text)
    ensures forall k :: 0 <= k < |text| ==> text[k] <= 'z' && Value(text[k]) < 64
  {
  }

  /** What the decoder demands of its caller: groups of four characters inside the table, followed
      by a 0 where the next group would start. */
  ghost predicate Terminated(data: string, text: string) {
    && text < data && data[|text|] == '\0' && |text| % 4 == 0 && InTable(text)
    && forall g: nat | 4 * g < |text| :: text[4 * g] != '\0'
  }

  method DecodedSize(data: string, ghost text: string) returns (outSize: nat)
    requires Terminated(data, text)
    ensures outSize == DecodedLength(text, |text| / 4)
  {
    outSize := 0;
    var i := 0;
    while data[4 * i] != '\0'
      invariant 4 * i <= |text| && outSize == DecodedLength(text, i)
      decreases |text| - 4 * i
    {
      if data[4 * i + 3] == PAD {
        if data[4 * i + 2] == PAD { outSize := outSize + 1; } else { outSize := outSize + 2; }
      } else {
        outSize := outSize + 3;
      }
      i := i + 1;
    }
  }

  /** The octets decoded so far. */
  ghost predicate Octets(decoded: seq<Octet>, text: string, n: nat)
    requires InTable(text)
  {
    n <= |decoded| && forall i: nat | i < n :: decoded[i] == DecodedAt(text, i)
  }

  lemma NoOctets(decoded: seq<Octet>, text: string)
    requires InTable(text)
    ensures Octets(decoded, text, 0)
  {
  }

  lemma NextOctet(decoded: seq<Octet>, text: string, i: nat)
    requires InTable(text) && i < |decoded| && Octets(decoded, text, i)
    ensures Octets(decoded[i := DecodedAt(text, i)], text, i + 1)
  {
  }

  lemma AllOctets(decoded: seq<Octet>, text: string)
    requires InTable(text) && Octets(decoded, text, |decoded|) && |decoded| == DecodedLength(text, |text| / 4)
    ensures decoded == Decoded(text)
  {
  }

  method DecodeGroup(decoded: array<Octet>, data: string, i: nat, ghost text: string)
    requires text <= data && InTable(text) && 4 * i + 3 < |text|
    requires 3 * i + 3 <= decoded.Length && Octets(decoded[..], text, 3 * i)
    modifies decoded
    ensures Octets(decoded[..], text, 3 * i + 3)
  {
    ValuesSmall(text);
    hide *;
    GroupOctets(text, i);
    var a := Value(data[4 * i]);
    var b := Value(data[4 * i + 1]);
    var c := Value(data[4 * i + 2]);
    var d := Value(data[4 * i + 3]);
    NextThree(decoded[..], text, i, First(a, b), Second(b, c), Third(c, d));
    decoded[3 * i], decoded[3 * i + 1], decoded[3 * i + 2] := First(a, b), Second(b, c), Third(c, d);
    assert decoded[..] == old(decoded[..])[3 * i := First(a, b)][3 * i + 1 := Second(b, c)][3 * i + 2 := Third(c, d)];
  }

  lemma NextThree(decoded: seq<Octet>, text: string, g: nat, o1: Octet, o2: Octet, o3: Octet)
    requires InTable(text) && 3 * g + 3 <= |decoded| && Octets(decoded, text, 3 * g)
    requires o1 == DecodedAt(text, 3 * g) && o2 == DecodedAt(text, 3 * g + 1) && o3 == DecodedAt(text, 3 * g + 2)
    ensures Octets(decoded[3 * g := o1][3 * g + 1 := o2][3 * g + 2 := o3], text, 3 * g + 3)
  {
    hide *;
    NextOctet(decoded, text, 3 * g);
    NextOctet(decoded[3 * g := o1], text, 3 * g + 1);
    NextOctet(decoded[3 * g := o1][3 * g + 1 := o2], text, 3 * g + 2);
  }

  /** The one octet of group n when the text ends with two padding characters. */
  method DecodeOne(decoded: array<Octet>, data: string, n: nat, ghost text: string)
    requires text <= data && InTable(text) && 4 * n + 3 < |text|
    requires decoded.Length == 3 * n + 1 && Octets(decoded[..], text, 3 * n)
    modifies decoded
    ensures Octets(decoded[..], text, 3 * n + 1)
  {
    ValuesSmall(text);
    hide *;
    GroupOctets(text, n);
    NextOctet(decoded[..], text, 3 * n);
    decoded[decoded.Length - 1] := First(Value(data[4 * n]), Value(data[4 * n + 1]));
  }

  /** The two octets of group n when the text ends with one padding character. */
  method DecodeTwo(decoded: array<Octet>, data: string, n: nat, ghost text: string)
    requires text <= data && InTable(text) && 4 * n + 3 < |text|
    requires decoded.Length == 3 * n + 2 && Octets(decoded[..], text, 3 * n)
    modifies decoded
    ensures Octets(decoded[..], text, 3 * n + 2)
  {
    ValuesSmall(text);
    hide *;
    GroupOctets(text, n);
    NextOctet(decoded[..], text, 3 * n);
    decoded[decoded.Length - 2] := First(Value(data[4 * n]), Value(data[4 * n + 1]));
    NextOctet(decoded[..], text, 3 * n + 1);
    decoded[decoded.Length - 1] := Second(Value(data[4 * n + 1]), Value(data[4 * n + 2]));
  }

  lemma GroupsFit(n: nat, size: nat)
    requires n <= 3 * (size / 4) && size % 4 == 0
    ensures 4 * (n / 3) <= size && (n % 3 != 0 ==> 4 * (n / 3) + 3 < size)
    ensures n == 3 * (n / 3) + n % 3
  {
  }

  method DecodeDataBase64(data: string, ghost text: string) returns (decoded: array<Octet>)
    requires Terminated(data, text)
    ensures fresh(decoded) && decoded[..] == Decoded(text)
  {
    assert InTable(text) && |text| % 4 == 0 && text <= data;
    ValuesSmall(text);
    hide *;
    var outSize := DecodedSize(data, text);
    decoded := new Octet[outSize];
    NoOctets(decoded[..], text);
    GroupsFit(outSize, |text|);
    for i := 0 to outSize / 3
      invariant Octets(decoded[..], text, 3 * i)
    {
      DecodeGroup(decoded, data, i, text);
    }
    if outSize % 3 == 1 {
      DecodeOne(decoded, data, outSize / 3, text);
    } else if outSize % 3 == 2 {
      DecodeTwo(decoded, data, outSize / 3, text);
    }
    AllOctets(decoded[..], text);
  }

  // ---- Round trips ----

  lemma EncodedInTable(data: seq<Octet>)
    ensures InTable(Encoded(data))
  {
    hide Digit, Sextet;
    forall k: nat | k < |Encoded(data)| ensures Encoded(data)[k] <= 'z' {
      TablesInverse(Sextet(data, k));
    }
  }

  lemma SextetBit(data: seq<Octet>, k: nat, r: nat)
    requires r < 6
    ensures Bit(Sextet(data, k), 2 + r) == DataBit(data, 6 * k + r)
  {
    hide Bit, DataBit;
  }

  lemma OctetBit(text: string, i: nat, r: nat)
    requires r < 8 && InTable(text)
    ensures Bit(DecodedAt(text, i), r) == TextBit(text, 8 * i + r)
  {
    hide Bit, TextBit;
  }

  lemma EncodedDigit(data: seq<Octet>, k: nat)
    requires k < DigitCount(|data|)
    ensures k < |Encoded(data)| && Encoded(data)[k] == Digit(Sextet(data, k)) && Encoded(data)[k] <= 'z'
    ensures Value(Encoded(data)[k]) == Sextet(data, k)
  {
    TablesInverse(Sextet(data, k));
    hide Digit, Value, Sextet;
  }

  lemma TextDigit(text: string, k: nat, r: nat)
    requires InTable(text) && k < |text| && r < 6
    ensures TextBit(text, 6 * k + r) == Bit(Value(text[k]), 2 + r)
  {
    hide Bit, Value;
  }

  /** Encoding neither moves nor changes a bit. */
  lemma EncodingKeepsBits(data: seq<Octet>, j: nat)
    requires j < 8 * |data|
    ensures InTable(Encoded(data)) && TextBit(Encoded(data), j) == DataBit(data, j)
  {
    var k, r := j / 6, j % 6;
    assert k < DigitCount(|data|) && j == 6 * k + r;
    hide *;
    EncodedInTable(data);
    EncodedDigit(data, k);
    TextDigit(Encoded(data), k, r);
    SextetBit(data, k, r);
  }

  lemma DataBitAt(data: seq<Octet>, i: nat, r: nat)
    requires i < |data| && r < 8
    ensures DataBit(data, 8 * i + r) == Bit(data[i], r)
  {
  }

  lemma DecodedBit(text: string, i: nat, r: nat)
    requires InTable(text) && i < |Decoded(text)| && r < 8
    ensures DataBit(Decoded(text), 8 * i + r) == TextBit(text, 8 * i + r)
  {
    assert Decoded(text)[i] == DecodedAt(text, i);
    hide *;
    DataBitAt(Decoded(text), i, r);
    OctetBit(text, i, r);
  }

  lemma DecodingKeepsBits(text: string, j: nat)
    requires InTable(text) && j < 8 * |Decoded(text)|
    ensures DataBit(Decoded(text), j) == TextBit(text, j)
  {
    hide *;
    assert j == 8 * (j / 8) + j % 8;
    DecodedBit(text, j / 8, j % 8);
  }

  lemma {:induction false} FullGroups(text: string, groups: nat)
    requires 4 * groups <= |text| && forall g: nat | 0 < g <= groups :: text[4 * g - 1] != PAD
    ensures DecodedLength(text, groups) == 3 * groups
  {
    if groups > 0 {
      FullGroups(text, groups - 1);
    }
  }

  /** The number of padding characters at the end of a text whose groups before the last are full. */
  lemma PaddedLength(text: string, padding: nat)
    requires |text| % 4 == 0 && padding <= 2 && padding <= |text|
    requires forall k | 0 <= k < |text| - padding :: text[k] != PAD
    requires forall k | |text| - padding <= k < |text| :: text[k] == PAD
    ensures DecodedLength(text, |text| / 4) == 3 * (|text| / 4) - padding
  {
    var groups := |text| / 4;
    if padding == 0 { FullGroups(text, groups); } else { FullGroups(text, groups - 1); }
  }

  lemma EncodedShape(data: seq<Octet>) returns (padding: nat)
    ensures padding <= 2 && padding <= |Encoded(data)| && DigitCount(|data|) == |Encoded(data)| - padding
    ensures |data| == 3 * (|Encoded(data)| / 4) - padding
    ensures forall k | 0 <= k < |Encoded(data)| - padding :: InAlphabet(Encoded(data)[k])
    ensures forall k | |Encoded(data)| - padding <= k < |Encoded(data)| :: Encoded(data)[k] == PAD
  {
    padding := Padding(|data|);
    PaddingFills(|data|);
    PaddingFollows(|data|);
    hide Digit, Sextet, InAlphabet, Padding, DigitCount, EncodedLength;
    forall k | 0 <= k < |Encoded(data)| - padding ensures InAlphabet(Encoded(data)[k]) {
      DigitInAlphabet(Sextet(data, k));
    }
  }

  lemma DigitInAlphabet(v: Octet)
    requires v < 64
    ensures InAlphabet(Digit(v)) && Digit(v) != PAD && Digit(v) != '\0'
  {
    TablesInverse(v);
  }

  lemma AlphabetOnly(text: string, n: nat)
    requires n <= |text| && forall k | 0 <= k < n :: InAlphabet(text[k])
    ensures forall k | 0 <= k < n :: text[k] != PAD && text[k] != '\0' && text[k] <= 'z'
  {
    hide InAlphabet;
    forall k | 0 <= k < n ensures text[k] != PAD && text[k] != '\0' && text[k] <= 'z' {
      AlphabetInverse(text[k]);
    }
  }

  /** An encoded text followed by a 0 meets the decoder's demands, and decodes to the data. */
  lemma DecodeEncoded(data: seq<Octet>)
    ensures Terminated(Encoded(data) + ['\0'], Encoded(data))
    ensures InTable(Encoded(data)) && Decoded(Encoded(data)) == data
  {
    var text := Encoded(data);
    hide Encoded, InAlphabet, Decoded;
    EncodedInTable(data);
    var padding := EncodedShape(data);
    AlphabetOnly(text, |text| - padding);
    PaddedLength(text, padding);
    forall i: nat | i < |data| ensures Decoded(text)[i] == data[i] {
      OctetKept(data, i);
    }
  }

  lemma OctetKept(data: seq<Octet>, i: nat)
    requires InTable(Encoded(data)) && i < |data| == |Decoded(Encoded(data))|
    ensures Decoded(Encoded(data))[i] == data[i]
  {
    hide Encoded, Decoded, TextBit, InTable, Bit;
    forall k: nat | k < 8 ensures Bit(Decoded(Encoded(data))[i], k) == Bit(data[i], k) {
      EncodingKeepsBits(data, 8 * i + k);
      DecodingKeepsBits(Encoded(data), 8 * i + k);
    }
    SameBits(Decoded(Encoded(data))[i], data[i]);
  }

  // ---- Which texts survive decoding and encoding ----

  /** Digits of the alphabet, up to two padding characters, and zeros in the bits that belong to no
      octet (section 3.5 of RFC 4648). */
  ghost predicate PaddedBy(text: string, padding: nat) {
    && |text| % 4 == 0 && padding <= 2 && padding <= |text|
    && (forall k | 0 <= k < |text| - padding :: InAlphabet(text[k]))
    && (forall k | |text| - padding <= k < |text| :: text[k] == PAD)
    && (padding == 1 ==> text[|text| - 2] <= 'z' && Value(text[|text| - 2]) & 0x03 == 0)
    && (padding == 2 ==> text[|text| - 3] <= 'z' && Value(text[|text| - 3]) & 0x0F == 0)
  }

  ghost predicate Canonical(text: string) {
    exists padding: nat :: PaddedBy(text, padding)
  }

  lemma LowBits(v: Octet)
    ensures v & 0x03 == 0 <==> !Bit(v, 6) && !Bit(v, 7)
    ensures v & 0x0F == 0 <==> !Bit(v, 4) && !Bit(v, 5) && !Bit(v, 6) && !Bit(v, 7)
    ensures v < 64 <==> !Bit(v, 0) && !Bit(v, 1)
  {
  }

  lemma EncodedCanonical(data: seq<Octet>)
    ensures Canonical(Encoded(data))
  {
    var padding := EncodedShape(data);
    var text := Encoded(data);
    hide Encoded, InAlphabet, Digit, Value, Sextet;
    if padding > 0 {
      var k := |text| - padding - 1;
      SpareSextet(data, k);
      TablesInverse(Sextet(data, k));
    }
    assert PaddedBy(text, padding);
  }

  lemma SpareSextet(data: seq<Octet>, k: nat)
    requires k == DigitCount(|data|) - 1
    ensures k < EncodedLength(|data|) && Encoded(data)[k] == Digit(Sextet(data, k))
    ensures |data| % 3 == 2 ==> Sextet(data, k) & 0x03 == 0
    ensures |data| % 3 == 1 ==> Sextet(data, k) & 0x0F == 0
  {
    LowBits(Sextet(data, k));
    PaddingFills(|data|);
    PaddingFollows(|data|);
    PaddingByRemainder(|data|);
    hide Digit, Bit, Sextet, DataBit, Padding, EncodedLength, DigitCount;
    SpareBit(data, k, 2);
    SpareBit(data, k, 3);
    SpareBit(data, k, 4);
    SpareBit(data, k, 5);
  }

  lemma SpareBit(data: seq<Octet>, k: nat, r: nat)
    requires r < 6
    ensures 8 * |data| <= 6 * k + r ==> !Bit(Sextet(data, k), 2 + r)
  {
  }

  lemma SpareBits(text: string, padding: nat, j: nat)
    requires PaddedBy(text, padding) && InTable(text) && 8 * (3 * (|text| / 4) - padding) <= j < 6 * (|text| - padding)
    ensures !TextBit(text, j)
  {
    hide Value, InAlphabet, InTable, Bit;
    var k := j / 6;
    LowBits(Value(text[k]));
  }

  predicate Spans(text: string, padding: nat)
    requires InTable(text)
  {
    |Decoded(text)| == 3 * (|text| / 4) - padding
  }

  lemma BitKept(text: string, padding: nat, j: nat)
    requires PaddedBy(text, padding) && InTable(text) && j < 6 * (|text| - padding)
    requires Spans(text, padding)
    ensures DataBit(Decoded(text), j) == TextBit(text, j)
  {
    assert |Decoded(text)| == 3 * (|text| / 4) - padding;
    hide *;
    if j < 8 * |Decoded(text)| { DecodingKeepsBits(text, j); }
    else { SpareBits(text, padding, j); PastTheEnd(Decoded(text), j); }
  }

  lemma BitsOfDigit(v: Octet)
    requires v < 64
    ensures v == FromBits(false, false, Bit(v, 2), Bit(v, 3), Bit(v, 4), Bit(v, 5), Bit(v, 6), Bit(v, 7))
  {
  }

  lemma SextetKept(text: string, padding: nat, k: nat)
    requires PaddedBy(text, padding) && InTable(text) && Spans(text, padding) && k < |text| - padding
    ensures var data := Decoded(text);
      && DataBit(data, 6 * k) == TextBit(text, 6 * k) && DataBit(data, 6 * k + 1) == TextBit(text, 6 * k + 1)
      && DataBit(data, 6 * k + 2) == TextBit(text, 6 * k + 2) && DataBit(data, 6 * k + 3) == TextBit(text, 6 * k + 3)
      && DataBit(data, 6 * k + 4) == TextBit(text, 6 * k + 4) && DataBit(data, 6 * k + 5) == TextBit(text, 6 * k + 5)
  {
    hide *;
    BitKept(text, padding, 6 * k);
    BitKept(text, padding, 6 * k + 1);
    BitKept(text, padding, 6 * k + 2);
    BitKept(text, padding, 6 * k + 3);
    BitKept(text, padding, 6 * k + 4);
    BitKept(text, padding, 6 * k + 5);
  }

  lemma DigitKept(text: string, padding: nat, k: nat)
    requires PaddedBy(text, padding) && InTable(text) && k < |text| - padding
    requires Spans(text, padding)
    ensures Digit(Sextet(Decoded(text), k)) == text[k]
  {
    AlphabetInverse(text[k]);
    BitsOfDigit(Value(text[k]));
    hide PaddedBy, InTable, Spans, Decoded, Digit, Value, InAlphabet, Bit, FromBits, DataBit, TextBit;
    DigitBits(text, k);
    SextetKept(text, padding, k);
  }

  lemma PastTheEnd(data: seq<Octet>, j: nat)
    requires 8 * |data| <= j
    ensures !DataBit(data, j)
  {
  }

  lemma CanonicalSurvives(text: string, padding: nat)
    requires PaddedBy(text, padding) && InTable(text)
    ensures Encoded(Decoded(text)) == text
  {
    hide InAlphabet, Value, Decoded, InTable, Digit, Sextet;
    AlphabetOnly(text, |text| - padding);
    PaddedLength(text, padding);
    forall k: nat | k < |text| - padding ensures Digit(Sextet(Decoded(text), k)) == text[k] {
      DigitKept(text, padding, k);
    }
  }

  /** Decoding and encoding gives a text back exactly if it is canonical. */
  lemma CanonicalExactly(text: string)
    requires InTable(text)
    ensures Encoded(Decoded(text)) == text <==> Canonical(text)
  {
    EncodedCanonical(Decoded(text));
    hide PaddedBy, InTable, Encoded, Decoded;
    if Canonical(text) {
      var padding: nat :| PaddedBy(text, padding);
      CanonicalSurvives(text, padding);
    }
  }
}
