/** Decoding of backslash codes by frontend/frontend_pipes_xorriso.c. A char stands for a byte. */
module Backslash {

  /** The content of a C string. */
  predicate IsText(s: string) {
    forall k :: 0 <= k < |s| ==> '\0' < s[k] < 256 as char
  }

  predicate IsOctal(c: char) {
    '0' <= c <= '7'
  }

  predicate IsHex(c: char) {
    '0' <= c <= '9' || 'A' <= c <= 'F' || 'a' <= c <= 'f'
  }

  function OctalValue(t: string): (n: nat)
    requires |t| >= 3 && IsOctal(t[0]) && IsOctal(t[1]) && IsOctal(t[2])
    ensures n < 512
  {
    (t[0] as int - '0' as int) * 64 + (t[1] as int - '0' as int) * 8 + (t[2] as int - '0' as int)
  }

  function HexDigit(c: char): (n: nat)
    requires IsHex(c)
    ensures n < 16
  {
    if c <= '9' then c as int - '0' as int
    else if c <= 'F' then c as int - 'A' as int + 10
    else c as int - 'a' as int + 10
  }

  /** What follows a backslash: the byte and the number of characters of its code. */
  datatype Code = NoCode | Code(value: char, length: nat)

  function Letter(c: char): Code {
    match c
    case 'a' => Code(7 as char, 1)
    case 'b' => Code(8 as char, 1)
    case 'e' => Code(27 as char, 1)
    case 'f' => Code(12 as char, 1)
    case 'n' => Code(10 as char, 1)
    case 'r' => Code(13 as char, 1)
    case 't' => Code(9 as char, 1)
    case 'v' => Code(11 as char, 1)
    case '\\' => Code('\\', 1)
    case _ => NoCode
  }

  /** The code at the start of t. No code yields a 0 byte or needs more characters than there are. */
  function CodeOf(t: string): (c: Code)
    ensures c.Code? ==> 1 <= c.length <= |t| && '\0' < c.value < 256 as char
  {
    if t == [] then NoCode
    else if Letter(t[0]).Code? then Letter(t[0])
    else if |t| >= 3 && IsOctal(t[0]) && IsOctal(t[1]) && IsOctal(t[2]) then
      var num := OctalValue(t);
      if 0 < num <= 255 then Code(num as char, 3) else NoCode
    else if |t| >= 3 && t[0] == 'x' && IsHex(t[1]) && IsHex(t[2]) then
      var num := HexDigit(t[1]) * 16 + HexDigit(t[2]);
      if num > 0 then Code(num as char, 3) else NoCode
    else if |t| >= 2 && t[0] == 'c' && 64 as char < t[1] < 96 as char then Code((t[1] as int - 64) as char, 2)
    else NoCode
  }

  function Decode(t: string): (r: string)
    ensures |r| <= |t|
    ensures IsText(t) ==> IsText(r)
  {
    if t == [] then []
    else if t[0] == '\\' && CodeOf(t[1..]).Code? then
      var code := CodeOf(t[1..]);
      [code.value] + Decode(t[1 + code.length..])
    else [t[0]] + Decode(t[1..])
  }

  lemma {:induction false} NothingToDecode(t: string)
    requires '\\' !in t
    ensures Decode(t) == t
  {
    if t != [] {
      NothingToDecode(t[1..]);
    }
  }

  // ---------- octal codes

  function OctalDigit(n: nat): char
    requires n < 8
  {
    ('0' as int + n) as char
  }

  function OctalCode(c: char): string
    requires c < 256 as char
  {
    var n := c as int;
    ['\\', OctalDigit(n / 64), OctalDigit(n / 8 % 8), OctalDigit(n % 8)]
  }

  function OctalText(s: string): string
    requires IsText(s)
  {
    if s == [] then [] else OctalCode(s[0]) + OctalText(s[1..])
  }

  lemma CodeIsOctal(c: char, rest: string)
    requires '\0' < c < 256 as char
    ensures CodeOf(OctalCode(c)[1..] + rest) == Code(c, 3)
  {
    var t := OctalCode(c)[1..] + rest;
    var n := c as int;
    assert t[0] == OctalDigit(n / 64) && t[1] == OctalDigit(n / 8 % 8) && t[2] == OctalDigit(n % 8);
    assert OctalValue(t) == n;
  }

  /** The characters at the start of t which yield the next byte. */
  function StepLength(t: string): (n: nat)
    requires t != []
    ensures 1 <= n <= |t|
  {
    if t[0] == '\\' && CodeOf(t[1..]).Code? then 1 + CodeOf(t[1..]).length else 1
  }

  function StepValue(t: string): char
    requires t != []
  {
    if t[0] == '\\' && CodeOf(t[1..]).Code? then CodeOf(t[1..]).value else t[0]
  }

  lemma DecodeStep(t: string)
    requires t != []
    ensures Decode(t) == [StepValue(t)] + Decode(t[StepLength(t)..])
  {}

  lemma OctalStep(c: char, rest: string)
    requires '\0' < c < 256 as char
    ensures StepLength(OctalCode(c) + rest) == 4 && StepValue(OctalCode(c) + rest) == c
  {
    hide CodeOf;
    CodeIsOctal(c, rest);
    assert (OctalCode(c) + rest)[1..] == OctalCode(c)[1..] + rest;
  }

  /** Text of octal codes decodes to the bytes from which it was made. */
  lemma {:induction false} OctalRoundTrip(s: string)
    requires IsText(s)
    ensures Decode(OctalText(s)) == s
  {
    if s != [] {
      hide Decode, StepValue, StepLength;
      var t := OctalText(s);
      OctalRoundTrip(s[1..]);
      OctalStep(s[0], OctalText(s[1..]));
      DecodeStep(t);
      assert t[4..] == OctalText(s[1..]);
    }
  }

  // ---------- all codes

  /** c is a hexadecimal digit of value v. */
  predicate IsHexDigit(c: char, v: nat) {
    if v < 10 then c as int == '0' as int + v
    else v < 16 && (c as int == 'a' as int + v - 10 || c as int == 'A' as int + v - 10)
  }

  predicate IsLetterCode(letter: char, c: char) {
    match letter
    case 'a' => c as int == 7
    case 'b' => c as int == 8
    case 't' => c as int == 9
    case 'n' => c as int == 10
    case 'v' => c as int == 11
    case 'f' => c as int == 12
    case 'r' => c as int == 13
    case 'e' => c as int == 27
    case '\\' => c == '\\'
    case _ => false
  }

  /** A way to write character c: itself, a letter code, three octal digits, x and two hexadecimal digits,
      or c and a character between @ and `. No byte is 0. */
  predicate Writes(code: string, c: char) {
    && '\0' < c < 256 as char
    && (|| (code == [c] && c != '\\')
        || (|code| == 2 && code[0] == '\\' && IsLetterCode(code[1], c))
        || (|code| == 4 && code[0] == '\\' && IsOctalOf(code[1], code[2], code[3], c))
        || (|code| == 4 && code[0] == '\\' && code[1] == 'x' && IsHexOf(code[2], code[3], c))
        || (|code| == 3 && code[0] == '\\' && code[1] == 'c' && c as int < 32 && code[2] as int == 64 + c as int))
  }

  predicate IsOctalOf(a: char, b: char, d: char, c: char) {
    && '0' <= a <= '7' && '0' <= b <= '7' && '0' <= d <= '7'
    && c as int == (a as int - 48) * 64 + (b as int - 48) * 8 + (d as int - 48)
  }

  predicate IsHexOf(a: char, b: char, c: char) {
    IsHexDigit(a, c as int / 16) && IsHexDigit(b, c as int % 16)
  }

  function Concat(codes: seq<string>): string {
    if codes == [] then [] else codes[0] + Concat(codes[1..])
  }

  lemma WrittenStep(code: string, c: char, rest: string)
    requires Writes(code, c)
    ensures code != [] && StepLength(code + rest) == |code| && StepValue(code + rest) == c
  {
    var t := code + rest;
    if |code| > 1 {
      assert t[1..] == code[1..] + rest && t[1..][0] == code[1];
      CodeAfterBackslash(code, c, rest);
    }
  }

  lemma CodeAfterBackslash(code: string, c: char, rest: string)
    requires Writes(code, c) && |code| > 1
    ensures CodeOf(code[1..] + rest) == Code(c, |code| - 1)
  {
    var t := code[1..] + rest;
    assert t[0] == code[1] && (|code| > 2 ==> t[1] == code[2]) && (|code| > 3 ==> t[2] == code[3]);
    if |code| == 4 && code[1] == 'x' {
      HexDigits(code[2], code[3], c);
    }
  }

  lemma HexDigits(a: char, b: char, c: char)
    requires IsHexOf(a, b, c)
    ensures IsHex(a) && IsHex(b) && HexDigit(a) * 16 + HexDigit(b) == c as int
  {}

  /** Text in which each character is written by any of its codes decodes to these characters. */
  lemma {:induction false} CodedRoundTrip(codes: seq<string>, s: string)
    requires |codes| == |s| && forall k :: 0 <= k < |s| ==> Writes(codes[k], s[k])
    ensures Decode(Concat(codes)) == s
  {
    if s != [] {
      hide Decode, StepValue, StepLength, Writes;
      WrittenStep(codes[0], s[0], Concat(codes[1..]));
      DecodeStep(Concat(codes));
      assert Concat(codes)[|codes[0]|..] == Concat(codes[1..]);
      CodedRoundTrip(codes[1..], s[1..]);
    }
  }

  /** A backslash which does not begin the code of any character stays as it is. */
  lemma NoCodeStays(t: string)
    requires t != [] && t[0] == '\\'
    requires forall n: nat, c :: n <= |t| && n > 1 ==> !Writes(t[..n], c)
    ensures Decode(t) == ['\\'] + Decode(t[1..])
  {
    if CodeOf(t[1..]).Code? {
      CodeIsWritten(t);
      assert false;
    }
  }

  lemma CodeIsWritten(t: string)
    requires t != [] && t[0] == '\\' && CodeOf(t[1..]).Code?
    ensures Writes(t[..1 + CodeOf(t[1..]).length], CodeOf(t[1..]).value)
  {
    var rest := t[1..];
    assert rest[0] == t[1] && (|rest| > 1 ==> rest[1] == t[2]) && (|rest| > 2 ==> rest[2] == t[3]);
  }

  // ---------- in place

  /** The text in a buffer at a given position. It ends by the next 0. */
  ghost predicate Holds(buf: seq<char>, at: nat, text: string) {
    at + |text| < |buf| && buf[at..at + |text|] == text && buf[at + |text|] == '\0'
  }

  /** The text from "at" to "end" has been decoded up to rpt. The result so far ends at wpt. */
  ghost predicate InPlace(was: seq<char>, b: seq<char>, at: nat, wpt: nat, rpt: nat, end: nat) {
    && at <= wpt <= rpt <= end < |was| == |b|
    && b[..at] == was[..at] && b[rpt..] == was[rpt..]
    && Decode(was[at..end]) == b[at..wpt] + Decode(was[rpt..end])
  }

  lemma InPlaceStep(was: seq<char>, b: seq<char>, at: nat, wpt: nat, rpt: nat, end: nat)
    requires InPlace(was, b, at, wpt, rpt, end) && rpt < end
    ensures wpt <= rpt < |b| == |was| && b[rpt..end] == was[rpt..end]
    ensures var rest := was[rpt..end];
      InPlace(was, b[wpt := StepValue(rest)], at, wpt + 1, rpt + StepLength(rest), end)
  {
    hide Decode, StepValue, StepLength;
    var rest := was[rpt..end];
    var c, next := StepValue(rest), rpt + StepLength(rest);
    DecodeStep(rest);
    assert b[rpt..end] == b[rpt..][..end - rpt] == was[rpt..][..end - rpt];
    var b' := b[wpt := c];
    assert b'[at..wpt + 1] == b[at..wpt] + [c];
    assert b'[next..] == b[rpt..][next - rpt..] == was[rpt..][next - rpt..];
    assert rest[next - rpt..] == was[next..end];
  }

  /** Sfile_bsl_interpreter on a text of which all characters are to be examined. */
  method BslInterpreter(buf: array<char>, at: nat, upto: nat) returns (eaten: nat)
    requires at + upto < buf.Length && buf[at + upto] == '\0' && IsText(buf[at..at + upto])
    modifies buf
    ensures var text := old(buf[at..at + upto]);
      Holds(buf[..], at, Decode(text)) && |Decode(text)| + eaten == |text|
    ensures buf[..at] == old(buf[..at])
  {
    hide Decode, CodeOf, InPlace;
    ghost var was := buf[..];
    var end: nat, rpt: nat, wpt: nat := at + upto, at, at;
    InPlaceStart(was, at, end);
    assert was[at..end] == buf[at..end];
    eaten := 0;
    while rpt < end
      invariant rpt <= end && eaten == rpt - wpt && InPlace(was, buf[..], at, wpt, rpt, end)
    {
      InPlaceStep(was, buf[..], at, wpt, rpt, end);
      assert buf[rpt..end] == was[rpt..end];
      var code := if buf[rpt] == '\\' then CodeOf(buf[rpt + 1..end]) else NoCode;
      assert buf[rpt + 1..end] == was[rpt..end][1..];
      var next := rpt + if code.Code? then 1 + code.length else 1;
      buf[wpt] := if code.Code? then code.value else buf[rpt];
      eaten := eaten + (next - rpt) - 1;
      rpt, wpt := next, wpt + 1;
    }
    InPlaceEnd(was, buf[..], at, wpt, end);
    buf[wpt] := '\0';
  }

  lemma InPlaceStart(was: seq<char>, at: nat, end: nat)
    requires at <= end < |was|
    ensures InPlace(was, was, at, at, at, end)
  {}

  lemma InPlaceEnd(was: seq<char>, b: seq<char>, at: nat, wpt: nat, end: nat)
    requires InPlace(was, b, at, wpt, end, end)
    ensures at <= wpt <= end < |b| && b[..at] == was[..at]
    ensures var text := was[at..end]; Holds(b[wpt := '\0'], at, Decode(text)) && |Decode(text)| + (end - wpt) == |text|
    ensures b[wpt := '\0'][..at] == was[..at]
  {
    assert was[end..end] == [] && Decode([]) == [];
    assert b[wpt := '\0'][at..wpt] == b[at..wpt];
  }
}
