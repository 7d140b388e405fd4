/** The text form of an event list: comment lines, a line with the count and a line for each event. */
module AutomationText {
  import opened Automation
  import opened Modular

  const MAX_AUTOMATION_EVENTS: nat := 16384
  const BUFFER_SIZE: nat := 256

  // ---- 32-bit numbers ----

  predicate IsSigned(v: int) {
    -0x8000_0000 <= v < 0x8000_0000
  }

  predicate IsUnsigned(v: int) {
    0 <= v < TWO_TO_THE_32
  }

  /** The 32 bits of a number, printed with a sign. */
  function AsSigned(v: int): (r: int)
    ensures IsSigned(r)
  {
    var u := v % TWO_TO_THE_32;
    if u < 0x8000_0000 then u else u - TWO_TO_THE_32
  }

  function AsUnsigned(v: int): (r: int)
    ensures IsUnsigned(r)
  {
    v % TWO_TO_THE_32
  }

  lemma SameBits(v: int)
    ensures IsUnsigned(v) ==> AsUnsigned(AsSigned(v)) == v
    ensures IsSigned(v) ==> AsSigned(v) == v
  {
  }

  /** The events that can be exported: fields of 32 bits, and a type that has a name. */
  predicate Exportable(e: Event) {
    IsUnsigned(e.frame) && 0 <= e.kind < EVENT_TYPES && IsSigned(e.p0) && IsSigned(e.p1) && IsSigned(e.p2)
      && IsSigned(e.p3)
  }

  // ---- Numbers as text ----

  predicate IsDigit(c: char) {
    '0' <= c <= '9'
  }

  predicate IsBlank(c: char) {
    c == ' ' || '\t' <= c <= '\r'
  }

  function PrintNat(n: nat): (s: string)
    ensures s != [] && forall k :: 0 <= k < |s| ==> IsDigit(s[k])
  {
    var digit := '0' + (n % 10) as char;
    if n < 10 then [digit] else PrintNat(n / 10) + [digit]
  }

  function Print(v: int): string {
    if v < 0 then "-" + PrintNat(-v) else PrintNat(v)
  }

  /** The number of digits at the beginning of a text. */
  function DigitsIn(s: string): (n: nat)
    ensures n <= |s| && (forall k :: 0 <= k < n ==> IsDigit(s[k])) && (n < |s| ==> !IsDigit(s[n]))
  {
    if s != [] && IsDigit(s[0]) then 1 + DigitsIn(s[1..]) else 0
  }

  function DigitValue(c: char): nat
    requires IsDigit(c)
  {
    c as nat - '0' as nat
  }

  function DecimalValue(s: string): nat
    requires forall k :: 0 <= k < |s| ==> IsDigit(s[k])
  {
    if s == [] then 0 else 10 * DecimalValue(s[..|s| - 1]) + DigitValue(s[|s| - 1])
  }

  function SkipBlanks(s: string): (rest: string)
    ensures |rest| <= |s|
  {
    if s != [] && IsBlank(s[0]) then SkipBlanks(s[1..]) else s
  }

  datatype Scanned = NoNumber | Number(value: int, rest: string)

  function Signed(n: nat, negative: bool): int {
    var v: int := n;
    if negative then -v else v
  }

  function ScanDigits(s: string, negative: bool): (r: Scanned)
    ensures r.Number? ==> |r.rest| < |s|
  {
    var n := DigitsIn(s);
    if n == 0 then NoNumber
    else Number(Signed(DecimalValue(s[..n]), negative), s[n..])
  }

  /** One number in decimal, after any blanks. */
  function Scan(s: string): (r: Scanned)
    ensures r.Number? ==> |r.rest| < |s|
  {
    var t := SkipBlanks(s);
    if t == [] then NoNumber
    else if t[0] == '-' then ScanDigits(t[1..], true)
    else if t[0] == '+' then ScanDigits(t[1..], false)
    else ScanDigits(t, false)
  }

  /** Numbers one after another; those after the first that is missing are zero. */
  function ScanAll(s: string, n: nat): (values: seq<int>)
    ensures |values| == n
    decreases n
  {
    if n == 0 then []
    else
      match Scan(s)
      case NoNumber => seq(n, _ => 0)
      case Number(v, rest) => [v] + ScanAll(rest, n - 1)
  }

  /** Digit i of a printed number, counted from its end, and no more digits than it takes. */
  lemma {:induction false} PrintedExactly(n: nat, i: nat)
    requires i < |PrintNat(n)|
    ensures PrintNat(n)[|PrintNat(n)| - 1 - i] as int == 48 + n / Power10(i) % 10
    ensures n < Power10(|PrintNat(n)|) && (10 <= n ==> Power10(|PrintNat(n)| - 1) <= n)
    decreases n
  {
    if n < 10 {
      assert Power10(0) == 1 && Power10(1) == 10;
    } else {
      var s := PrintNat(n / 10);
      assert PrintNat(n) == s + ['0' + (n % 10) as char];
      PrintedExactly(n / 10, if i == 0 then 0 else i - 1);
      if i > 0 {
        DropDigit(n, Power10(i - 1));
        assert Power10(i) == 10 * Power10(i - 1);
      }
      assert Power10(|s| + 1) == 10 * Power10(|s|) && Power10(|s|) == 10 * Power10(|s| - 1);
      if n / 10 < 10 { assert |s| == 1 && Power10(0) == 1; }
      hide PrintNat, Power10;
    }
  }

  lemma DropDigit(n: nat, p: nat)
    requires 0 < p
    ensures n / 10 / p == n / (10 * p)
  {
    var q, r := n / (10 * p), n % (10 * p);
    assert n == 10 * p * q + r;
    var t := r / 10;
    assert n == 10 * (p * q + t) + r % 10;
    Modular.Unique(n, 10, p * q + t, r % 10);
    assert t < p;
    Modular.Unique(n / 10, p, q, t);
  }

  lemma PrintsAsDecimal()
    ensures Print(-305) == "-305" && Print(0) == "0"
  {
    assert PrintNat(3) == "3" && PrintNat(30) == "30" && PrintNat(305) == "305";
  }

  lemma ScansDecimal()
    ensures Scan(" \t+12x") == Number(12, "x") && Scan("-") == NoNumber && Scan("e1") == NoNumber
  {
    assert DigitsIn("x") == 0 && DigitsIn("2x") == 1 && DigitsIn("12x") == 2;
    assert DecimalValue("1") == 1 && "12"[..1] == "1" && DecimalValue("12") == 12 && "12x"[..2] == "12";
    assert SkipBlanks("+12x") == "+12x" && SkipBlanks("\t+12x") == "+12x";
  }

  lemma {:induction false} ValueOfPrinted(n: nat)
    ensures DecimalValue(PrintNat(n)) == n
  {
    var s := PrintNat(n);
    if n >= 10 {
      ValueOfPrinted(n / 10);
      assert s[..|s| - 1] == PrintNat(n / 10);
    } else {
      assert s[..0] == [];
    }
  }

  lemma {:induction false} DigitsBefore(s: string, rest: string)
    requires forall k :: 0 <= k < |s| ==> IsDigit(s[k])
    requires rest == [] || !IsDigit(rest[0])
    ensures DigitsIn(s + rest) == |s|
  {
    if s == [] {
      assert s + rest == rest;
    } else {
      assert (s + rest)[1..] == s[1..] + rest;
      DigitsBefore(s[1..], rest);
    }
  }

  lemma ScanPrintedNat(n: nat, rest: string, negative: bool)
    requires rest == [] || !IsDigit(rest[0])
    ensures ScanDigits(PrintNat(n) + rest, negative) == Number(Signed(n, negative), rest)
  {
    var digits := PrintNat(n);
    DigitsBefore(digits, rest);
    ValueOfPrinted(n);
    hide PrintNat, DigitsIn, DecimalValue;
    assert (digits + rest)[..|digits|] == digits && (digits + rest)[|digits|..] == rest;
  }

  lemma SkipOne(s: string)
    requires s != [] && !IsBlank(s[0])
    ensures SkipBlanks(" " + s) == s
  {
  }

  lemma ScanPrinted(v: int, rest: string)
    requires rest == [] || !IsDigit(rest[0])
    ensures Scan(" " + Print(v) + rest) == Number(v, rest)
  {
    if v < 0 { ScanPrintedNegative(-v, rest); } else { ScanPrintedPositive(v, rest); }
  }

  lemma ScanUnsigned(s: string)
    requires s != [] && IsDigit(s[0])
    ensures Scan(" " + s) == ScanDigits(s, false)
  {
    hide ScanDigits, SkipBlanks;
    SkipOne(s);
  }

  lemma ScanPrintedPositive(n: nat, rest: string)
    requires rest == [] || !IsDigit(rest[0])
    ensures Scan(" " + PrintNat(n) + rest) == Number(n, rest)
  {
    ScanPrintedNat(n, rest, false);
    StartsWithDigit(n, rest);
    AppendMore(PrintNat(n), rest);
    assert Signed(n, false) == n;
    hide *;
    ScanUnsigned(PrintNat(n) + rest);
  }

  lemma StartsWithDigit(n: nat, rest: string)
    ensures PrintNat(n) + rest != [] && IsDigit((PrintNat(n) + rest)[0])
  {
    assert IsDigit(PrintNat(n)[0]);
    hide PrintNat;
  }

  lemma AppendMore(a: string, b: string)
    ensures " " + a + b == " " + (a + b)
  {
  }

  lemma ScanMinus(s: string)
    ensures Scan(" " + ("-" + s)) == ScanDigits(s, true)
  {
    hide ScanDigits, SkipBlanks;
    SkipOne("-" + s);
    assert ("-" + s)[1..] == s;
  }

  lemma ScanPrintedNegative(n: nat, rest: string)
    requires rest == [] || !IsDigit(rest[0])
    ensures Scan(" " + ("-" + PrintNat(n)) + rest) == Number(Signed(n, true), rest)
  {
    ScanPrintedNat(n, rest, true);
    hide *;
    ScanMinus(PrintNat(n) + rest);
    AppendMore("-" + PrintNat(n), rest);
    AppendMinus(PrintNat(n), rest);
  }

  lemma AppendMinus(a: string, b: string)
    ensures "-" + a + b == "-" + (a + b)
  {
  }

  /** Numbers with a blank before each. */
  function PrintAll(values: seq<int>): string {
    if values == [] then "" else " " + Print(values[0]) + PrintAll(values[1..])
  }

  lemma {:induction false} ScanAllPrinted(values: seq<int>, rest: string)
    requires rest == [] || !IsDigit(rest[0])
    ensures ScanAll(PrintAll(values) + rest, |values|) == values
  {
    hide Scan, Print, IsDigit;
    if values != [] {
      var more := PrintAll(values[1..]) + rest;
      StartsBlank(values[1..], rest);
      RegroupNumber(Print(values[0]), PrintAll(values[1..]), rest);
      ScanPrinted(values[0], more);
      ScanAllPrinted(values[1..], rest);
    }
  }

  lemma RegroupNumber(a: string, b: string, c: string)
    ensures " " + a + b + c == " " + a + (b + c)
  {
  }

  lemma StartsBlank(values: seq<int>, rest: string)
    requires rest == [] || !IsDigit(rest[0])
    ensures PrintAll(values) + rest == [] || !IsDigit((PrintAll(values) + rest)[0])
  {
  }

  // ---- Lines ----

  /** How many characters fgets takes: up to a newline, and no more than the limit. */
  function LineLength(text: string, limit: nat): (n: nat)
    ensures n <= |text| && n <= limit && (n == 0 <==> text == [] || limit == 0)
  {
    if text == [] || limit == 0 then 0 else if text[0] == '\n' then 1 else 1 + LineLength(text[1..], limit - 1)
  }

  /** It ends behind the first newline, at the limit, or at the end of the text. */
  lemma {:induction false} LineLengthExactly(text: string, limit: nat)
    ensures var n := LineLength(text, limit);
            && (forall k :: 0 <= k < n - 1 ==> text[k] != '\n')
            && (n < |text| && n < limit ==> 0 < n && text[n - 1] == '\n')
    decreases |text|
  {
    if text != [] && limit != 0 && text[0] != '\n' {
      LineLengthExactly(text[1..], limit - 1);
    }
  }

  /** fgets runs into the end of the file. */
  predicate HitsEnd(text: string) {
    var n := LineLength(text, BUFFER_SIZE - 1);
    n == |text| < BUFFER_SIZE - 1 && (n == 0 || text[n - 1] != '\n')
  }

  /** Line by line, and character by character. */
  lemma BuffersExactly(line: string, rest: string)
    requires line != "" && |line| <= 255 && forall k :: 0 <= k < |line| - 1 ==> line[k] != '\n'
    requires |line| == 255 || line[|line| - 1] == '\n'
    ensures Buffers(line + rest) == [line] + Buffers(rest)
    ensures forall unfinished: string | |unfinished| < 255 && '\n' !in unfinished :: Buffers(unfinished) == []
  {
    LengthOfFirst(line, rest, 255);
    assert (line + rest)[..|line|] == line && (line + rest)[|line|..] == rest;
    forall unfinished: string | |unfinished| < 255 && '\n' !in unfinished
      ensures Buffers(unfinished) == []
    {
      LengthOfUnfinished(unfinished, 255);
    }
  }

  lemma {:induction false} LengthOfFirst(line: string, rest: string, limit: nat)
    requires line != "" && |line| <= limit && forall k :: 0 <= k < |line| - 1 ==> line[k] != '\n'
    requires |line| == limit || line[|line| - 1] == '\n'
    ensures LineLength(line + rest, limit) == |line|
    decreases |line|
  {
    if |line| > 1 {
      assert (line + rest)[1..] == line[1..] + rest;
      LengthOfFirst(line[1..], rest, limit - 1);
    } else {
      assert LineLength((line + rest)[1..], 0) == 0;
    }
  }

  lemma {:induction false} LengthOfUnfinished(line: string, limit: nat)
    requires |line| < limit && '\n' !in line
    ensures LineLength(line, limit) == |line|
    decreases |line|
  {
    if line != "" {
      LengthOfUnfinished(line[1..], limit - 1);
    }
  }

  /** The contents of the buffer in the passes of the loader's loop: an unfinished last line is dropped. */
  function Buffers(text: string): seq<string>
    decreases |text|
  {
    if HitsEnd(text) then []
    else
      var n := LineLength(text, BUFFER_SIZE - 1);
      [text[..n]] + Buffers(text[n..])
  }

  /** What can stand before a newline and be read back in one piece. */
  predicate IsBody(s: string) {
    '\n' !in s && |s| + 1 < BUFFER_SIZE
  }

  function Joined(bodies: seq<string>): string {
    if bodies == [] then "" else bodies[0] + "\n" + Joined(bodies[1..])
  }

  function Lines(bodies: seq<string>): (lines: seq<string>)
    ensures |lines| == |bodies|
  {
    seq(|bodies|, k requires 0 <= k < |bodies| => bodies[k] + "\n")
  }

  lemma {:induction false} LengthOfLine(s: string, rest: string, limit: nat)
    requires '\n' !in s && |s| < limit
    ensures LineLength(s + "\n" + rest, limit) == |s| + 1
    decreases |s|
  {
    var text := s + "\n" + rest;
    if s != [] {
      assert text[1..] == s[1..] + "\n" + rest;
      LengthOfLine(s[1..], rest, limit - 1);
    }
  }

  lemma FirstBuffer(s: string, rest: string)
    requires IsBody(s)
    ensures Buffers(s + "\n" + rest) == [s + "\n"] + Buffers(rest)
  {
    var text := s + "\n" + rest;
    LengthOfLine(s, rest, BUFFER_SIZE - 1);
    hide LineLength;
    assert text[..|s| + 1] == s + "\n" && text[|s| + 1..] == rest;
  }

  lemma {:induction false} BuffersOfLines(bodies: seq<string>)
    requires forall k :: 0 <= k < |bodies| ==> IsBody(bodies[k])
    ensures Buffers(Joined(bodies)) == Lines(bodies)
  {
    if bodies != [] {
      hide Buffers, IsBody;
      FirstBuffer(bodies[0], Joined(bodies[1..]));
      BuffersOfLines(bodies[1..]);
      assert Lines(bodies) == [bodies[0] + "\n"] + Lines(bodies[1..]);
    }
  }

  // ---- The exporter ----

  function EventTypeName(kind: int): string
    requires 0 <= kind < EVENT_TYPES
  {
    match kind
    case 0 => "EVENT_NONE"
    case 1 => "INPUT_KEY_UP"
    case 2 => "INPUT_KEY_DOWN"
    case 3 => "INPUT_KEY_PRESSED"
    case 4 => "INPUT_KEY_RELEASED"
    case 5 => "INPUT_MOUSE_BUTTON_UP"
    case 6 => "INPUT_MOUSE_BUTTON_DOWN"
    case 7 => "INPUT_MOUSE_POSITION"
    case 8 => "INPUT_MOUSE_WHEEL_MOTION"
    case 9 => "INPUT_GAMEPAD_CONNECT"
    case 10 => "INPUT_GAMEPAD_DISCONNECT"
    case 11 => "INPUT_GAMEPAD_BUTTON_UP"
    case 12 => "INPUT_GAMEPAD_BUTTON_DOWN"
    case 13 => "INPUT_GAMEPAD_AXIS_MOTION"
    case 14 => "INPUT_TOUCH_UP"
    case 15 => "INPUT_TOUCH_DOWN"
    case 16 => "INPUT_TOUCH_POSITION"
    case 17 => "INPUT_GESTURE"
    case 18 => "WINDOW_CLOSE"
    case 19 => "WINDOW_MAXIMIZE"
    case 20 => "WINDOW_MINIMIZE"
    case 21 => "WINDOW_RESIZE"
    case 22 => "ACTION_TAKE_SCREENSHOT"
    case _ => "ACTION_SETTARGETFPS"
  }

  lemma FirstNames(kind: int)
    requires 0 <= kind < 8
    ensures '\n' !in EventTypeName(kind) && |EventTypeName(kind)| <= 25
  {
  }

  lemma SecondNames(kind: int)
    requires 8 <= kind < 14
    ensures '\n' !in EventTypeName(kind) && |EventTypeName(kind)| <= 25
  {
  }

  lemma ThirdNames(kind: int)
    requires 14 <= kind < 19
    ensures '\n' !in EventTypeName(kind) && |EventTypeName(kind)| <= 25
  {
  }

  lemma LastNames(kind: int)
    requires 19 <= kind < EVENT_TYPES
    ensures '\n' !in EventTypeName(kind) && |EventTypeName(kind)| <= 25
  {
  }

  lemma NameIsPlain(kind: int)
    requires 0 <= kind < EVENT_TYPES
    ensures '\n' !in EventTypeName(kind) && |EventTypeName(kind)| <= 25
  {
    hide EventTypeName;
    if kind < 8 { FirstNames(kind); } else if kind < 14 { SecondNames(kind); }
    else if kind < 19 { ThirdNames(kind); } else { LastNames(kind); }
  }

  predicate IsComment(s: string) {
    s != [] && s[0] == '#' && '\n' !in s && |s| <= 100
  }

  function Title(): (s: string)
    ensures IsComment(s)
  {
    "# Automation events " + "exporter v1.0 - " + "raylib automation " + "events list"
  }

  function CountComment(): (s: string)
    ensures IsComment(s)
  {
    "#    c <events_count>"
  }

  function EventComment(): (s: string)
    ensures IsComment(s)
  {
    "#    e <frame> " + "<event_type> " + "<param0> <param1> " + "<param2> <param3> " + "// <event_type_name>"
  }

  function InfoComment(): (s: string)
    ensures IsComment(s)
  {
    "# more info and " + "bugs-report:  " + "github.com/" + "raysan5/raylib"
  }

  function SupportComment(): (s: string)
    ensures IsComment(s)
  {
    "# feedback and " + "support:       " + "ray[at]raylib.com"
  }

  function CopyrightComment(): (s: string)
    ensures IsComment(s)
  {
    "# Copyright (c) " + "2023-2024 " + "Ramon Santamaria " + "(@raysan5)"
  }

  /** The comments at the top, and an empty line. */
  function Header(): (bodies: seq<string>)
    ensures |bodies| == 12
    ensures forall k :: 0 <= k < 12 ==> bodies[k] == "" || IsComment(bodies[k])
  {
    assert IsComment("#");
    ["#", Title(), "#", CountComment(), EventComment(), "#", InfoComment(), SupportComment(), "#", CopyrightComment(),
     "#", ""]
  }

  function CountLine(count: nat): string {
    "c " + Print(AsSigned(count))
  }

  function Fields(e: Event): (values: seq<int>)
    ensures |values| == 6
  {
    [AsSigned(e.frame), AsSigned(e.kind), AsSigned(e.p0), AsSigned(e.p1), AsSigned(e.p2), AsSigned(e.p3)]
  }

  function EventLine(e: Event): string
    requires Exportable(e)
  {
    "e" + PrintAll(Fields(e)) + " // Event: " + EventTypeName(e.kind)
  }

  predicate AllExportable(events: seq<Event>) {
    forall k :: 0 <= k < |events| ==> Exportable(events[k])
  }

  function EventLines(events: seq<Event>): (bodies: seq<string>)
    requires AllExportable(events)
    ensures |bodies| == |events|
  {
    seq(|events|, k requires 0 <= k < |events| => EventLine(events[k]))
  }

  function Exported(events: seq<Event>): string
    requires AllExportable(events)
  {
    Joined(Header() + [CountLine(|events|)] + EventLines(events))
  }

  // ---- Lengths ----

  lemma {:induction false} NatLength(n: nat)
    requires n < 10000000000
    ensures |PrintNat(n)| <= 10 && '\n' !in PrintNat(n)
  {
    assert Power10(10) == 10000000000;
    NatLengthBy(n, 10);
  }

  lemma {:induction false} NatLengthBy(n: nat, digits: nat)
    requires n < Power10(digits) && digits > 0
    ensures |PrintNat(n)| <= digits && '\n' !in PrintNat(n)
    decreases digits
  {
    if n >= 10 {
      assert n / 10 < Power10(digits - 1);
      NatLengthBy(n / 10, digits - 1);
      hide Power10;
    }
  }

  function Power10(n: nat): (p: nat)
    ensures 0 < p
  {
    if n == 0 then 1 else 10 * Power10(n - 1)
  }

  lemma PrintLength(v: int)
    requires IsSigned(v)
    ensures |Print(v)| <= 11 && '\n' !in Print(v)
  {
    NatLength(if v < 0 then -v else v);
    hide PrintNat;
  }

  lemma {:induction false} PrintAllLength(values: seq<int>)
    requires forall k :: 0 <= k < |values| ==> IsSigned(values[k])
    ensures |PrintAll(values)| <= 12 * |values| && '\n' !in PrintAll(values)
  {
    hide Print, IsSigned;
    if values != [] {
      PrintLength(values[0]);
      PrintAllLength(values[1..]);
    }
  }

  lemma EventLineFits(e: Event)
    requires Exportable(e)
    ensures IsBody(EventLine(e)) && EventLine(e) != [] && EventLine(e)[0] == 'e'
  {
    PrintAllLength(Fields(e));
    NameIsPlain(e.kind);
    hide PrintAll, EventTypeName, Fields;
  }

  /** The count line holds the count. */
  lemma CountLineCounts(count: nat)
    requires count < 0x8000_0000
    ensures |CountLine(count)| > 2 && CountLine(count)[..2] == "c " && Scan(CountLine(count)[1..]) == Number(count, "")
  {
    SameBits(count);
    ScanPrinted(count, "");
    PrintNotEmpty(count);
    assert CountLine(count)[1..] == " " + Print(count) + "";
    hide Scan, Print, AsSigned;
  }

  lemma PrintNotEmpty(v: int)
    ensures Print(v) != ""
  {
  }

  /** An event line: frame, type and parameters in their order, and the type's name as a comment. */
  lemma EventLineReads(e: Event)
    requires Exportable(e) && e.frame < 0x8000_0000
    ensures EventLine(e) == "e " + Print(e.frame) + " " + Print(e.kind) + " " + Print(e.p0) + " " + Print(e.p1)
                            + " " + Print(e.p2) + " " + Print(e.p3) + " // Event: " + EventTypeName(e.kind)
  {
    SameBits(e.frame);
    SameBits(e.kind);
    SameBits(e.p0);
    SameBits(e.p1);
    SameBits(e.p2);
    SameBits(e.p3);
    assert Fields(e) == [e.frame, e.kind, e.p0, e.p1, e.p2, e.p3];
    SixPrinted(e.frame, e.kind, e.p0, e.p1, e.p2, e.p3);
    hide Print, AsSigned, EventTypeName, PrintAll, Fields;
  }

  lemma SixPrinted(a: int, b: int, c: int, d: int, e: int, f: int)
    ensures "e" + PrintAll([a, b, c, d, e, f])
            == "e " + Print(a) + " " + Print(b) + " " + Print(c) + " " + Print(d) + " " + Print(e) + " " + Print(f)
  {
    hide Print;
    assert PrintAll([f]) == " " + Print(f);
    assert [e, f][1..] == [f] && [d, e, f][1..] == [e, f] && [c, d, e, f][1..] == [d, e, f];
    assert [b, c, d, e, f][1..] == [c, d, e, f] && [a, b, c, d, e, f][1..] == [b, c, d, e, f];
    assert PrintAll([e, f]) == " " + Print(e) + PrintAll([f]);
    assert PrintAll([d, e, f]) == " " + Print(d) + PrintAll([e, f]);
    assert PrintAll([c, d, e, f]) == " " + Print(c) + PrintAll([d, e, f]);
    assert PrintAll([b, c, d, e, f]) == " " + Print(b) + PrintAll([c, d, e, f]);
  }

  lemma CountLineFits(count: nat)
    ensures IsBody(CountLine(count)) && CountLine(count) != [] && CountLine(count)[0] == 'c'
  {
    PrintLength(AsSigned(count));
    hide Print, AsSigned;
  }

  lemma {:induction false} JoinedLength(bodies: seq<string>, most: nat)
    requires forall k :: 0 <= k < |bodies| ==> |bodies[k]| + 1 <= most
    ensures |Joined(bodies)| <= most * |bodies|
  {
    if bodies != [] {
      JoinedLength(bodies[1..], most);
      assert most * |bodies| == most + most * |bodies[1..]|;
    }
  }

  lemma {:induction false} JoinedBoth(a: seq<string>, b: seq<string>)
    ensures Joined(a + b) == Joined(a) + Joined(b)
  {
    if a == [] {
      assert a + b == b;
    } else {
      JoinedBoth(a[1..], b);
      assert (a + b)[1..] == a[1..] + b;
    }
  }

  lemma EventLinesFit(events: seq<Event>)
    requires AllExportable(events)
    ensures forall k :: 0 <= k < |events| ==> IsBody(EventLines(events)[k])
  {
    hide EventLine, Exportable, IsBody;
    forall k | 0 <= k < |events| ensures IsBody(EventLines(events)[k]) {
      EventLineFits(events[k]);
    }
  }

  /** The lines of an exported list: twelve comments or empty lines, the count, and one for each event. */
  lemma ExportedLines(events: seq<Event>)
    requires AllExportable(events)
    ensures var lines := Buffers(Exported(events));
            && |lines| == 13 + |events| && lines[12] == CountLine(|events|) + "\n"
            && (forall k :: 0 <= k < 12 ==> lines[k] == "\n" || (lines[k] != "" && lines[k][0] == '#'))
            && forall k :: 0 <= k < |events| ==> lines[13 + k] == EventLine(events[k]) + "\n"
  {
    var bodies := Header() + [CountLine(|events|)] + EventLines(events);
    assert Exported(events) == Joined(bodies);
    hide *;
    BodiesOf(events, bodies);
    BuffersOfLines(bodies);
    LinesOf(bodies);
  }

  lemma BodiesOf(events: seq<Event>, bodies: seq<string>)
    requires AllExportable(events) && bodies == Header() + [CountLine(|events|)] + EventLines(events)
    ensures |bodies| == 13 + |events| && bodies[12] == CountLine(|events|)
    ensures forall k :: 0 <= k < |bodies| ==> IsBody(bodies[k])
    ensures forall k :: 0 <= k < 12 ==> bodies[k] == "" || (bodies[k] != "" && bodies[k][0] == '#')
    ensures forall k :: 0 <= k < |events| ==> bodies[13 + k] == EventLine(events[k])
  {
    EventLinesFit(events);
    CountLineFits(|events|);
    HeaderLines();
    hide CountLine, EventLine, Header, Exportable, IsBody, IsComment;
  }

  lemma LinesOf(bodies: seq<string>)
    ensures |Lines(bodies)| == |bodies| && forall k :: 0 <= k < |bodies| ==> Lines(bodies)[k] == bodies[k] + "\n"
  {
  }

  lemma HeaderLines()
    ensures forall k :: 0 <= k < 12 ==>
              IsBody(Header()[k]) && (Header()[k] == "" || (Header()[k] != "" && Header()[k][0] == '#'))
  {
    hide Header;
    var h := Header();
  }

  /** The memory that the exporter allocates is enough for the text and its terminator. */
  lemma ExportedFits(events: seq<Event>)
    requires AllExportable(events)
    ensures |Exported(events)| + 1 <= 256 * |events| + 2048
  {
    var h, c, lines := Header(), CountLine(|events|), EventLines(events);
    hide *;
    HeaderFits();
    LinesFit(events);
    ExportedParts(events);
  }

  lemma ExportedParts(events: seq<Event>)
    requires AllExportable(events)
    ensures Exported(events) == Joined(Header()) + Joined([CountLine(|events|)]) + Joined(EventLines(events))
  {
    hide Header, CountLine, EventLines, Joined, AllExportable;
    JoinedBoth(Header(), [CountLine(|events|)]);
    JoinedBoth(Header() + [CountLine(|events|)], EventLines(events));
  }

  lemma LinesFit(events: seq<Event>)
    requires AllExportable(events)
    ensures |Joined([CountLine(|events|)])| <= 256 && |Joined(EventLines(events))| <= 256 * |events|
  {
    CountLineFits(|events|);
    EventLinesFit(events);
    hide CountLine, EventLine, EventLines, Joined, AllExportable;
    JoinedLength([CountLine(|events|)], 256);
    JoinedLength(EventLines(events), 256);
  }

  lemma HeaderFits()
    ensures |Joined(Header())| <= 1212
  {
    var h := Header();
    hide Header, Joined;
    assert forall k :: 0 <= k < |h| ==> |h[k]| + 1 <= 101;
    JoinedLength(h, 101);
  }

  /** The text before line i of the events. */
  function ExportedUpTo(events: seq<Event>, i: nat): string
    requires AllExportable(events) && i <= |events|
  {
    Joined(Header() + [CountLine(|events|)] + EventLines(events)[..i])
  }

  lemma ExportStarts(events: seq<Event>)
    requires AllExportable(events)
    ensures ExportedUpTo(events, 0) == Joined(Header()) + CountLine(|events|) + "\n"
    ensures ExportedUpTo(events, |events|) == Exported(events)
  {
    hide Joined, CountLine, EventLine, Header;
    var c := CountLine(|events|);
    assert Header() + [c] + EventLines(events)[..0] == Header() + [c];
    assert EventLines(events)[..|events|] == EventLines(events);
    JoinedBoth(Header(), [c]);
    JoinOne(c);
    assert Joined(Header()) + (c + "\n") == Joined(Header()) + c + "\n";
  }

  lemma ExportNext(events: seq<Event>, i: nat)
    requires AllExportable(events) && i < |events|
    ensures ExportedUpTo(events, i + 1) == ExportedUpTo(events, i) + EventLine(events[i]) + "\n"
  {
    hide Joined, CountLine, EventLine, Header;
    var before, line := Header() + [CountLine(|events|)] + EventLines(events)[..i], EventLine(events[i]);
    assert Header() + [CountLine(|events|)] + EventLines(events)[..i + 1] == before + [line];
    JoinedBoth(before, [line]);
    JoinOne(line);
    assert Joined(before) + (line + "\n") == Joined(before) + line + "\n";
  }

  method ExportAutomationEventList(events: seq<Event>) returns (text: string)
    requires AllExportable(events)
    ensures text == Exported(events)
  {
    hide *;
    ExportStarts(events);
    text := Joined(Header());
    text := text + CountLine(|events|) + "\n";
    for i := 0 to |events|
      invariant text == ExportedUpTo(events, i)
    {
      text := AppendEvent(text, events, i);
    }
  }

  method AppendEvent(before: string, events: seq<Event>, i: nat) returns (text: string)
    requires AllExportable(events) && i < |events| && before == ExportedUpTo(events, i)
    ensures text == ExportedUpTo(events, i + 1)
  {
    assert Exportable(events[i]);
    hide *;
    ExportNext(events, i);
    text := before + EventLine(events[i]) + "\n";
  }

  lemma JoinOne(body: string)
    ensures Joined([body]) == body + "\n"
  {
  }

  // ---- The loader ----

  /** What sscanf reads from an event line: fields that are missing stay zero. */
  function ScanEvent(line: string): Event
    requires line != []
  {
    var v := ScanAll(line[1..], 6);
    Event(AsUnsigned(v[0]), AsUnsigned(v[1]), AsSigned(v[2]), AsSigned(v[3]), AsSigned(v[4]), AsSigned(v[5]))
  }

  /** The events on those lines that begin with an e. */
  function EventsOn(lines: seq<string>): (events: seq<Event>)
    ensures |events| <= |lines|
  {
    if lines == [] then []
    else EventOn(lines[0]) + EventsOn(lines[1..])
  }

  /** Line by line: an event is read from a line if and only if the line begins with an e. */
  lemma {:induction false} EventsByLine(lines: seq<string>, line: string)
    ensures EventsOn(lines + [line]) == EventsOn(lines) + if line != "" && line[0] == 'e' then [ScanEvent(line)] else []
    ensures EventsOn([]) == []
    decreases |lines|
  {
    hide ScanEvent;
    if lines != [] {
      EventsByLine(lines[1..], line);
      assert (lines + [line])[1..] == lines[1..] + [line];
    }
  }

  /** A line that breaks off: the numbers behind the break are zero. */
  lemma BrokenOff(values: seq<int>, rest: string)
    requires |values| <= 6
    requires Scan(rest) == NoNumber && (rest == "" || !IsDigit(rest[0]))
    ensures var v := values + seq(6 - |values|, _ => 0);
            ScanEvent("e" + PrintAll(values) + rest)
            == Event(AsUnsigned(v[0]), AsUnsigned(v[1]), AsSigned(v[2]), AsSigned(v[3]), AsSigned(v[4]), AsSigned(v[5]))
  {
    hide *;
    ScanBroken(values, rest, 6);
    BehindLetter(PrintAll(values), rest);
    FieldsOf("e" + PrintAll(values) + rest, values + seq(6 - |values|, _ => 0));
  }

  lemma BehindLetter(s: string, rest: string)
    ensures "e" + s + rest != [] && ("e" + s + rest)[1..] == s + rest
  {
  }

  lemma FieldsOf(line: string, v: seq<int>)
    requires line != [] && v == ScanAll(line[1..], 6) && |v| == 6
    ensures ScanEvent(line) == Event(AsUnsigned(v[0]), AsUnsigned(v[1]), AsSigned(v[2]), AsSigned(v[3]),
                                     AsSigned(v[4]), AsSigned(v[5]))
  {
    hide ScanAll;
  }

  lemma {:induction false} ScanBroken(values: seq<int>, rest: string, n: nat)
    requires |values| <= n && Scan(rest) == NoNumber && (rest == "" || !IsDigit(rest[0]))
    ensures ScanAll(PrintAll(values) + rest, n) == values + seq(n - |values|, _ => 0)
    decreases n
  {
    hide Scan, Print, IsDigit;
    if values == [] {
      assert PrintAll(values) + rest == rest;
    } else {
      var more := PrintAll(values[1..]) + rest;
      StartsBlank(values[1..], rest);
      RegroupNumber(Print(values[0]), PrintAll(values[1..]), rest);
      ScanPrinted(values[0], more);
      ScanBroken(values[1..], rest, n - 1);
    }
  }

  function Parsed(text: string): seq<Event> {
    EventsOn(Buffers(text))
  }

  function EventOn(line: string): (optional: seq<Event>)
    ensures |optional| <= 1
  {
    if line != [] && line[0] == 'e' then [ScanEvent(line)] else []
  }

  /** The events that the loader still has to read: in the buffer, and in the rest of the file. */
  function Ahead(eof: bool, buffer: string, rest: string): seq<Event> {
    if eof then [] else EventOn(buffer) + Parsed(rest)
  }

  lemma AheadOnFile(text: string)
    ensures HitsEnd(text) ==> Parsed(text) == []
    ensures !HitsEnd(text) ==>
      var n := LineLength(text, BUFFER_SIZE - 1); Parsed(text) == EventOn(text[..n]) + Parsed(text[n..])
  {
  }

  /** fgets is in the middle of a line, or at its end. */
  predicate Reading(text: string, from: nat, to: nat) {
    && from <= to <= |text| && to - from <= BUFFER_SIZE - 1
    && LineLength(text[from..], BUFFER_SIZE - 1)
       == (to - from) + if to > from && text[to - 1] == '\n'
                        then 0 else LineLength(text[to..], BUFFER_SIZE - 1 - (to - from))
  }

  lemma ReadFrom(text: string, from: nat)
    requires from <= |text|
    ensures Reading(text, from, from)
  {
  }

  lemma ReadOn(text: string, from: nat, to: nat)
    requires Reading(text, from, to) && to < |text| && to - from < BUFFER_SIZE - 1
             && (to == from || text[to - 1] != '\n')
    ensures Reading(text, from, to + 1)
  {
  }

  lemma HitsEndBy(rest: string)
    ensures var n := LineLength(rest, BUFFER_SIZE - 1);
      HitsEnd(rest) == (n == |rest| < BUFFER_SIZE - 1 && (n == 0 || rest[n - 1] != '\n'))
  {
  }

  lemma ReadDone(text: string, from: nat, to: nat)
    requires Reading(text, from, to)
    requires to == |text| || to - from == BUFFER_SIZE - 1 || (to > from && text[to - 1] == '\n')
    ensures LineLength(text[from..], BUFFER_SIZE - 1) == to - from
    ensures HitsEnd(text[from..]) == (to == |text| && to - from < BUFFER_SIZE - 1
                                      && (to == from || text[to - 1] != '\n'))
    ensures !HitsEnd(text[from..]) ==> from < to
    ensures Parsed(text[from..]) == Ahead(HitsEnd(text[from..]), text[from..to], text[to..])
  {
    assert BUFFER_SIZE == 256;
    hide *;
    LineDone(text, from, to);
    var rest, n := text[from..], to - from;
    RestOf(text, from, to);
    HitsEndBy(rest);
    assert HitsEnd(rest) == (n == |rest| < BUFFER_SIZE - 1 && (n == 0 || rest[n - 1] != '\n'));
    AheadOnFile(rest);
    AheadIs(HitsEnd(rest), text[from..to], text[to..]);
  }

  lemma AheadIs(eof: bool, buffer: string, rest: string)
    ensures Ahead(eof, buffer, rest) == if eof then [] else EventOn(buffer) + Parsed(rest)
  {
  }

  lemma LineDone(text: string, from: nat, to: nat)
    requires Reading(text, from, to)
    requires to == |text| || to - from == BUFFER_SIZE - 1 || (to > from && text[to - 1] == '\n')
    ensures from <= to <= |text| && LineLength(text[from..], BUFFER_SIZE - 1) == to - from
  {
  }

  lemma RestOf(text: string, from: nat, to: nat)
    requires from <= to <= |text|
    ensures text[from..][..to - from] == text[from..to] && text[from..][to - from..] == text[to..]
    ensures from < to ==> text[from..][to - from - 1] == text[to - 1]
  {
  }

  /** The next line, or part of a line, of the file; the old buffer when there is nothing left. */
  method Fgets(text: string, from: nat, oldBuffer: string) returns (buffer: string, to: nat, eof: bool)
    requires from <= |text|
    ensures from <= to <= |text| && eof == HitsEnd(text[from..]) && (!eof ==> from < to && buffer != [])
    ensures buffer == if from < to then text[from..to] else oldBuffer
    ensures to == from + LineLength(text[from..], BUFFER_SIZE - 1)
    ensures Parsed(text[from..]) == Ahead(eof, buffer, text[to..])
    ensures to - from <= 255 && (from < |text| ==> from < to) && forall k :: from <= k < to - 1 ==> text[k] != '\n'
    ensures to < |text| && to - from < 255 ==> text[to - 1] == '\n'
    ensures eof <==> to == |text| && to - from < 255 && (to == from || text[to - 1] != '\n')
  {
    assert BUFFER_SIZE == 256;
    hide *;
    buffer, to := ReadLine(text, from);
    ReadDone(text, from, to);
    UpToNewline(text, from);
    eof := to == |text| && to - from < BUFFER_SIZE - 1 && (to == from || text[to - 1] != '\n');
    if to == from { buffer := oldBuffer; }
  }

  lemma UpToNewline(text: string, from: nat)
    requires from <= |text|
    ensures forall k :: from <= k < from + LineLength(text[from..], 255) - 1 ==> text[k] != '\n'
  {
    LineLengthExactly(text[from..], 255);
    hide LineLength;
    forall k | from <= k < from + LineLength(text[from..], 255) - 1 ensures text[k] != '\n' {
      assert text[from..][k - from] == text[k];
    }
  }

  method ReadLine(text: string, from: nat) returns (buffer: string, to: nat)
    requires from <= |text|
    ensures from <= to <= |text| && to - from <= 255 && Reading(text, from, to) && buffer == text[from..to]
    ensures to == |text| || to - from == 255 || (to > from && text[to - 1] == '\n')
  {
    assert BUFFER_SIZE == 256;
    ReadFrom(text, from);
    hide *;
    buffer := [];
    to := from;
    while to < |text| && to - from < BUFFER_SIZE - 1 && (to == from || text[to - 1] != '\n')
      invariant from <= to <= |text| && to - from <= 255 && Reading(text, from, to) && buffer == text[from..to]
    {
      ReadOn(text, from, to);
      buffer := buffer + [text[to]];
      to := to + 1;
    }
  }

  method LoadAutomationEventList(text: string) returns (events: array<Event>, count: nat)
    requires |Parsed(text)| <= MAX_AUTOMATION_EVENTS
    ensures fresh(events) && events.Length == 16384 && count == |Parsed(text)|
    ensures events[..count] == Parsed(text)
    ensures forall k :: count <= k < events.Length ==> events[k] == Event(0, 0, 0, 0, 0, 0)
  {
    hide Parsed, Ahead, HitsEnd, ScanEvent;
    events := new Event[MAX_AUTOMATION_EVENTS](_ => Event(0, 0, 0, 0, 0, 0));
    count := 0;
    assert text[0..] == text;
    var buffer, pos, eof := Fgets(text, 0, "");
    while !eof
      invariant pos <= |text| && count <= |Parsed(text)| && (!eof ==> buffer != [])
      invariant events[..count] + Ahead(eof, buffer, text[pos..]) == Parsed(text)
      invariant forall k :: count <= k < events.Length ==> events[k] == Event(0, 0, 0, 0, 0, 0)
      decreases !eof, |text| - pos
    {
      ghost var before := events[..count];
      AheadOnBuffer(before, buffer, text[pos..]);
      if buffer[0] == 'e' {
        events[count] := ScanEvent(buffer);
        count := count + 1;
        assert events[..count] == before + [ScanEvent(buffer)];
      }
      buffer, pos, eof := Fgets(text, pos, buffer);
    }
    NothingAhead(buffer, text[pos..]);
  }

  lemma AheadOnBuffer(before: seq<Event>, buffer: string, rest: string)
    requires buffer != []
    ensures before + Ahead(false, buffer, rest)
            == (if buffer[0] == 'e' then before + [ScanEvent(buffer)] else before) + Parsed(rest)
    ensures buffer[0] == 'e' ==> |before| < |before + Ahead(false, buffer, rest)|
  {
    hide Parsed, ScanEvent;
  }

  lemma NothingAhead(buffer: string, rest: string)
    ensures Ahead(true, buffer, rest) == []
  {
  }

  // ---- The round trip ----

  /** Scanning the line of an event gives the event back. */
  lemma ScanExported(e: Event)
    requires Exportable(e)
    ensures ScanEvent(EventLine(e) + "\n") == e
  {
    var rest := " // Event: " + EventTypeName(e.kind) + "\n";
    assert rest[0] == ' ';
    SameBits(e.frame);
    SameBits(e.kind);
    SameBits(e.p0);
    SameBits(e.p1);
    SameBits(e.p2);
    SameBits(e.p3);
    Regrouped(PrintAll(Fields(e)), " // Event: ", EventTypeName(e.kind));
    hide PrintAll, EventTypeName, ScanAll, AsSigned, AsUnsigned, IsSigned, IsUnsigned;
    ScanAllPrinted(Fields(e), rest);
  }

  lemma Regrouped(a: string, b: string, c: string)
    ensures ("e" + a + b + c + "\n")[1..] == a + (b + c + "\n")
  {
  }

  lemma {:induction false} OtherLines(lines: seq<string>, more: seq<string>)
    requires forall k :: 0 <= k < |lines| ==> lines[k] == [] || lines[k][0] != 'e'
    ensures EventsOn(lines + more) == EventsOn(more)
  {
    hide ScanEvent;
    if lines == [] {
      assert lines + more == more;
    } else {
      OtherLines(lines[1..], more);
      assert (lines + more)[1..] == lines[1..] + more;
    }
  }

  lemma {:induction false} EventsOnEventLines(events: seq<Event>)
    requires AllExportable(events)
    ensures EventsOn(Lines(EventLines(events))) == events
  {
    hide ScanEvent, EventLine, Exportable;
    if events != [] {
      var lines := Lines(EventLines(events));
      assert Exportable(events[0]);
      ScanExported(events[0]);
      EventLineFits(events[0]);
      assert lines[0] == EventLine(events[0]) + "\n" && lines[0][0] == 'e';
      assert lines[1..] == Lines(EventLines(events[1..]));
      EventsOnEventLines(events[1..]);
      assert events == [events[0]] + events[1..];
    }
  }

  lemma HeaderBodies()
    ensures forall k :: 0 <= k < 12 ==> IsBody(Header()[k]) && (Header()[k] == [] || Header()[k][0] != 'e')
  {
    hide Header;
  }

  lemma AllBodies(events: seq<Event>)
    requires AllExportable(events)
    ensures var bodies := Header() + [CountLine(|events|)] + EventLines(events);
      forall k :: 0 <= k < |bodies| ==> IsBody(bodies[k])
  {
    HeaderBodies();
    CountLineFits(|events|);
    EventLinesFit(events);
    hide Header, CountLine, EventLines, IsBody;
  }

  lemma LinesBoth(a: seq<string>, b: seq<string>)
    ensures Lines(a + b) == Lines(a) + Lines(b)
  {
  }

  lemma TopIsNoEvent(count: nat)
    ensures var lines := Lines(Header() + [CountLine(count)]);
      forall k :: 0 <= k < |lines| ==> lines[k] == [] || lines[k][0] != 'e'
  {
    HeaderBodies();
    CountLineFits(count);
    hide Header, CountLine, IsBody;
  }

  /** What is exported is loaded again, whatever the events and however many. */
  lemma LoadExported(events: seq<Event>)
    requires AllExportable(events)
    ensures Parsed(Exported(events)) == events
  {
    var top, lines := Header() + [CountLine(|events|)], EventLines(events);
    assert Exported(events) == Joined(top + lines);
    assert Parsed(Exported(events)) == EventsOn(Buffers(Exported(events)));
    hide *;
    AllBodies(events);
    BuffersOfLines(top + lines);
    LinesBoth(top, lines);
    TopIsNoEvent(|events|);
    OtherLines(Lines(top), Lines(lines));
    EventsOnEventLines(events);
  }
}
