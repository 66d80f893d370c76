/**
 The record format of the kernel's upcall channels (support/nfs/cacheio.c):
 fields separated by blanks, with octal escapes in text and a hex form for
 binary data.
 */
module Qword {
  import opened CStrings
  import opened Wrappers

  datatype Field = Text(s: string) | Hex(bytes: string) | Number(n: int)

  // ----- how a field is written --------------------------------------------

  predicate Special(c: char) { c == ' ' || c == '\t' || c == '\n' || c == '\\' }

  function Octal(d: int): char
    requires 0 <= d < 8
  {
    ('0' as int + d) as char
  }

  function EncodeChar(c: char): (e: string)
    ensures |e| == if Special(c) then 4 else 1
  {
    if Special(c) then ['\\', Octal(c as int / 64 % 4), Octal(c as int / 8 % 8), Octal(c as int % 8)] else [c]
  }

  function EncodeText(s: string): string {
    if s == "" then "" else EncodeChar(s[0]) + EncodeText(s[1..])
  }

  function HexPair(c: char): (e: string)
    ensures |e| == 2
  {
    [HexDigit(c as int / 16 % 16), HexDigit(c as int % 16)]
  }

  function EncodeBytes(b: string): (e: string)
    ensures |e| == 2 * |b|
  {
    if b == "" then "" else HexPair(b[0]) + EncodeBytes(b[1..])
  }

  function Digits(n: nat): string {
    if n < 10 then [HexDigit(n)] else Digits(n / 10) + [HexDigit(n % 10)]
  }

  /** printf's %d. */
  function Decimal(n: int): string { if n < 0 then "-" + Digits(-n) else Digits(n) }

  function Encode(f: Field): string {
    match f
    case Text(s) => EncodeText(s) + " "
    case Hex(b) => "\\x" + EncodeBytes(b) + " "
    case Number(n) => Decimal(n) + " "
  }

  function EncodeAll(fs: seq<Field>): string {
    if fs == [] then "" else Encode(fs[0]) + EncodeAll(fs[1..])
  }

  /** What a reader gets for a field. */
  function Content(f: Field): string {
    match f
    case Text(s) => s
    case Hex(b) => b
    case Number(n) => Decimal(n)
  }

  // ----- how a field is read -----------------------------------------------

  function SkipBlanks(s: string): (r: string)
    ensures |r| <= |s| && (r != "" ==> r[0] != ' ')
  {
    if s != "" && s[0] == ' ' then SkipBlanks(s[1..]) else s
  }

  /** Pairs of hex digits, at most `room` of them, and what follows. */
  function ReadHex(s: string, room: int): (r: (string, string))
    ensures |r.1| <= |s|
  {
    if 0 < room && 2 <= |s| && IsHex(s[0]) && IsHex(s[1]) then
      var (v, rest) := ReadHex(s[2..], room - 1);
      ([(16 * HexValue(s[0]) + HexValue(s[1])) as char] + v, rest)
    else ("", s)
  }

  predicate IsOctal(c: char) { '0' <= c <= '7' }

  predicate IsEscape(s: string) {
    4 <= |s| && s[0] == '\\' && IsOctal(s[1]) && s[1] <= '3' && IsOctal(s[2]) && IsOctal(s[3])
  }

  function EscapeValue(s: string): char
    requires IsEscape(s)
  {
    (64 * (s[1] as int - '0' as int) + 8 * (s[2] as int - '0' as int) + (s[3] as int - '0' as int)) as char
  }

  /** Text up to a blank or newline, at most `room` characters of it, and what follows. */
  function ReadText(s: string, room: int): (r: (string, string))
    ensures |r.1| <= |s|
  {
    if room <= 0 || s == "" || s[0] == ' ' || s[0] == '\n' then ("", s)
    else if IsEscape(s) then
      var (v, rest) := ReadText(s[4..], room - 1);
      ([EscapeValue(s)] + v, rest)
    else
      var (v, rest) := ReadText(s[1..], room - 1);
      ([s[0]] + v, rest)
  }

  datatype Got = Got(value: string, rest: string) | Bad

  predicate IsHexForm(s: string) { 2 <= |s| && s[0] == '\\' && s[1] == 'x' }

  /** qword_get (cacheio.c:130-176) with room for `room` characters. */
  function Get(s: string, room: int): Got {
    var t := SkipBlanks(s);
    var (v, rest) := if IsHexForm(t) then ReadHex(t[2..], room) else ReadText(t, room - 1);
    if rest != "" && rest[0] != ' ' && rest[0] != '\n' then Bad else Got(v, SkipBlanks(rest))
  }

  /** The terminator that follows the value is inside a destination of this size, too. */
  predicate TerminatorFits(s: string, room: int) {
    match Get(s, room)
    case Bad => true
    case Got(v, _) => |v| < room
  }

  /** Every escape up to 377 stands for the character of that value; any other backslash stands for itself. */
  lemma EscapesAreRead(a: nat, b: nat, c: nat, rest: string, room: nat)
    requires a < 8 && b < 8 && c < 8 && room > 0
    ensures var s := ['\\', Octal(a), Octal(b), Octal(c)] + rest;
            if a < 4 then
              ReadText(s, room).0 == [(64 * a + 8 * b + c) as char] + ReadText(rest, room - 1).0
            else ReadText(s, room).0 == "\\" + ReadText(s[1..], room - 1).0
  {
    var s := ['\\', Octal(a), Octal(b), Octal(c)] + rest;
    assert s[4..] == rest;
  }

  lemma {:induction false} ReadHexFits(s: string, room: nat)
    ensures |ReadHex(s, room).0| <= room
  {
    if 0 < room && 2 <= |s| { ReadHexFits(s[2..], room - 1); }
  }

  lemma {:induction false} ReadTextFits(s: string, room: nat)
    ensures |ReadText(s, room).0| <= room
    decreases |s|
  {
    if 0 < room && s != "" {
      if IsEscape(s) { ReadTextFits(s[4..], room - 1); } else { ReadTextFits(s[1..], room - 1); }
    }
  }

  /** It always fits behind text.  Behind hex digits it does exactly when their bytes do not fill the destination. */
  lemma TerminatorFitsExactlyWhen(s: string, room: nat)
    requires room > 0 && Get(s, room).Got?
    ensures |Get(s, room).value| <= room
    ensures TerminatorFits(s, room) <==> !(IsHexForm(SkipBlanks(s)) && |Get(s, room).value| == room)
  {
    hide ReadHex, ReadText;
    var t := SkipBlanks(s);
    if IsHexForm(t) { ReadHexFits(t[2..], room); } else { ReadTextFits(t, room - 1); }
  }

  // ----- reading undoes writing --------------------------------------------

  lemma OctalEscape(c: char, rest: string)
    requires Special(c)
    ensures IsEscape(EncodeChar(c) + rest) && EscapeValue(EncodeChar(c) + rest) == c
  {
    var e := EncodeChar(c) + rest;
    assert e[0] == '\\' && e[1] == Octal(c as int / 64 % 4) && e[2] == Octal(c as int / 8 % 8)
        && e[3] == Octal(c as int % 8);
  }

  /** What may follow a field. */
  predicate Delimited(rest: string) { rest != "" && (rest[0] == ' ' || rest[0] == '\n') }

  lemma {:induction false} ReadEncodedText(s: string, rest: string, room: int)
    requires Delimited(rest) && |s| <= room
    ensures ReadText(EncodeText(s) + rest, room) == (s, rest)
  {
    if s == "" {
      assert EncodeText(s) + rest == rest;
    } else {
      var tail := EncodeText(s[1..]) + rest;
      assert EncodeText(s) + rest == EncodeChar(s[0]) + tail;
      ReadEncodedText(s[1..], rest, room - 1);
      if Special(s[0]) {
        OctalEscape(s[0], tail);
        assert (EncodeChar(s[0]) + tail)[4..] == tail;
      } else {
        assert ([s[0]] + tail)[1..] == tail;
      }
      assert s == [s[0]] + s[1..];
    }
  }

  /** Text that does not fit is rejected: the reader stops in front of a character that ends no field. */
  lemma {:induction false} LongTextStops(s: string, rest: string, room: int)
    requires Delimited(rest) && s != "" && room < |s|
    ensures var r := ReadText(EncodeText(s) + rest, room).1; r != "" && r[0] != ' ' && r[0] != '\n'
  {
    var tail := EncodeText(s[1..]) + rest;
    assert EncodeText(s) + rest == EncodeChar(s[0]) + tail;
    if 0 < room {
      assert s[1..] != "";
      LongTextStops(s[1..], rest, room - 1);
      if Special(s[0]) {
        OctalEscape(s[0], tail);
        assert (EncodeChar(s[0]) + tail)[4..] == tail;
      } else {
        assert ([s[0]] + tail)[1..] == tail;
      }
    }
  }

  lemma HexPairValue(c: char)
    requires IsByte(c)
    ensures var p := HexPair(c); IsHex(p[0]) && IsHex(p[1]) && (16 * HexValue(p[0]) + HexValue(p[1])) as char == c
  {
  }

  lemma {:induction false} ReadEncodedBytes(b: string, rest: string, room: int)
    requires Delimited(rest) && |b| <= room && forall i :: 0 <= i < |b| ==> IsByte(b[i])
    ensures ReadHex(EncodeBytes(b) + rest, room) == (b, rest)
  {
    hide HexDigit, HexPair, HexValue;
    if b == "" {
      assert EncodeBytes(b) + rest == rest;
    } else {
      var tail := EncodeBytes(b[1..]) + rest;
      var s := HexPair(b[0]) + tail;
      assert EncodeBytes(b) + rest == s && s[2..] == tail;
      HexPairValue(b[0]);
      ReadEncodedBytes(b[1..], rest, room - 1);
      assert b == [b[0]] + b[1..];
    }
  }

  lemma {:induction false} DigitsArePlain(n: nat)
    ensures Digits(n) != "" && EncodeText(Digits(n)) == Digits(n) && Digits(n)[0] != '-'
    ensures forall i :: 0 <= i < |Digits(n)| ==> IsDigit(Digits(n)[i])
  {
    if n >= 10 { DigitsArePlain(n / 10); }
    PlainText(Digits(n));
  }

  lemma {:induction false} PlainText(s: string)
    requires forall i :: 0 <= i < |s| ==> !Special(s[i])
    ensures EncodeText(s) == s
  {
    if s != "" {
      PlainText(s[1..]);
      assert s == [s[0]] + s[1..];
    }
  }

  /** No blank, tab or newline, and every backslash starts an escape of three octal digits. */
  ghost predicate OneWord(e: string) {
    && ' ' !in e && '\t' !in e && '\n' !in e
    && forall i :: 0 <= i < |e| && e[i] == '\\' ==> IsEscape(e[i..])
  }

  lemma OneWordBehind(c: char, t: string)
    requires OneWord(t)
    ensures OneWord(EncodeChar(c) + t)
  {
    var h, e := EncodeChar(c), EncodeChar(c) + t;
    forall i | 0 <= i < |e| && e[i] == '\\' ensures IsEscape(e[i..]) {
      if i < |h| {
        assert i == 0 && e[0..] == e;
        OctalEscape(c, t);
      } else {
        var k := i - |h|;
        assert t[k] == '\\' && IsEscape(t[k..]) && e[i..] == t[k..];
      }
    }
  }

  /** Text becomes one word, whatever is in it. */
  lemma {:induction false} EncodedTextIsOneWord(s: string)
    ensures OneWord(EncodeText(s))
  {
    hide OneWord;
    if s != "" {
      EncodedTextIsOneWord(s[1..]);
      OneWordBehind(s[0], EncodeText(s[1..]));
    } else {
      EmptyIsOneWord();
    }
  }

  lemma EmptyIsOneWord()
    ensures OneWord("")
  {
  }

  /** Text without blanks, tabs, newlines and backslashes stays as it is. */
  lemma OrdinaryTextStays(s: string)
    requires ' ' !in s && '\t' !in s && '\n' !in s && '\\' !in s
    ensures EncodeText(s) == s
  {
    PlainText(s);
  }

  /** Bytes become pairs of lower-case hex digits, the high one first. */
  lemma {:induction false} BytesInHex(b: string, i: nat)
    requires i < |b| && forall k :: 0 <= k < |b| ==> IsByte(b[k])
    ensures EncodeBytes(b)[2 * i] == "0123456789abcdef"[b[i] as int / 16 % 16]
    ensures EncodeBytes(b)[2 * i + 1] == "0123456789abcdef"[b[i] as int % 16]
  {
    if i == 0 {
      HexDigitIs(b[0] as int / 16 % 16);
      HexDigitIs(b[0] as int % 16);
    } else {
      BytesInHex(b[1..], i - 1);
    }
  }

  /** A number is written as the text of its decimal form. */
  lemma NumberIsText(n: int)
    ensures Encode(Number(n)) == Encode(Text(Decimal(n))) && Decimal(n) != ""
  {
    DigitsArePlain(if n < 0 then -n else n);
    PlainText(Decimal(n));
  }

  /** A field that can be read back: not empty, and made of bytes. */
  ghost predicate Proper(f: Field) {
    match f
    case Text(s) => s != ""
    case Hex(b) => b != "" && forall i :: 0 <= i < |b| ==> IsByte(b[i])
    case Number(_) => true
  }

  /** The destination has room for the field and, for text, its terminator. */
  predicate Fits(f: Field, room: int) {
    if f.Hex? then |Content(f)| <= room else |Content(f)| < room
  }

  lemma TextStart(s: string, rest: string)
    requires s != ""
    ensures var e := EncodeText(s) + rest; e != "" && e[0] != ' ' && !IsHexForm(e) && SkipBlanks(e) == e
  {
    var tail := EncodeText(s[1..]) + rest;
    assert EncodeText(s) + rest == EncodeChar(s[0]) + tail;
  }

  lemma SkipOneBlank(rest: string)
    ensures SkipBlanks(" " + rest) == SkipBlanks(rest)
  {
    assert (" " + rest)[1..] == rest;
  }

  lemma GetIs(e: string, room: int, v: string, rest: string)
    requires e != "" && e[0] != ' ' && !IsHexForm(e) && ReadText(e, room - 1) == (v, rest)
    ensures Get(e, room) == if rest != "" && rest[0] != ' ' && rest[0] != '\n' then Bad else Got(v, SkipBlanks(rest))
  {
    hide ReadText, ReadHex;
  }

  lemma {:induction false} GetTextBefore(s: string, t: string, room: int)
    requires s != "" && Delimited(t)
    ensures Get(EncodeText(s) + t, room) == if |s| < room then Got(s, SkipBlanks(t)) else Bad
  {
    hide ReadText, EncodeText, SkipBlanks, Get;
    TextStart(s, t);
    var (v, rest) := ReadText(EncodeText(s) + t, room - 1);
    GetIs(EncodeText(s) + t, room, v, rest);
    if |s| < room {
      ReadEncodedText(s, t, room - 1);
    } else {
      LongTextStops(s, t, room - 1);
    }
  }

  lemma {:induction false} GetText(s: string, rest: string, room: int)
    requires s != ""
    ensures Get(EncodeText(s) + " " + rest, room) == if |s| < room then Got(s, SkipBlanks(rest)) else Bad
  {
    hide Get, EncodeText, SkipBlanks;
    SkipOneBlank(rest);
    GetTextBefore(s, " " + rest, room);
    assert EncodeText(s) + " " + rest == EncodeText(s) + (" " + rest);
  }

  /** A field that fits is read back whole, and the reader stands at what follows it. */
  lemma GetEncoded(f: Field, rest: string, room: int)
    requires Proper(f) && Fits(f, room)
    ensures Get(Encode(f) + rest, room) == Got(Content(f), SkipBlanks(rest))
  {
    hide Get, SkipBlanks, EncodeText, Decimal;
    match f
    case Text(s) => GetText(s, rest, room);
    case Number(n) =>
      NumberIsText(n);
      GetText(Decimal(n), rest, room);
    case Hex(b) => GetHex(b, rest, room);
  }

  lemma GetHex(b: string, rest: string, room: int)
    requires Proper(Hex(b)) && |b| <= room
    ensures Get(Encode(Hex(b)) + rest, room) == Got(b, SkipBlanks(rest))
  {
    hide ReadText, ReadHex, EncodeBytes;
    var t := " " + rest;
    var e := "\\x" + (EncodeBytes(b) + t);
    assert Encode(Hex(b)) + rest == e && e[2..] == EncodeBytes(b) + t;
    ReadEncodedBytes(b, t, room);
    SkipOneBlank(rest);
  }

  /** Text or a number that is too long for its destination is rejected, never cut short. */
  lemma TooLongIsRejected(f: Field, rest: string, room: int)
    requires Proper(f) && !f.Hex? && !Fits(f, room)
    ensures Get(Encode(f) + rest, room) == Bad
  {
    match f
    case Text(s) => GetText(s, rest, room);
    case Number(n) =>
      NumberIsText(n);
      GetText(Decimal(n), rest, room);
  }

  /** A field can be read whole and still leave no place for the terminator: bytes that fill their destination. */
  lemma EncodedTerminator(f: Field, rest: string, room: int)
    requires Proper(f) && Fits(f, room)
    ensures TerminatorFits(Encode(f) + rest, room) <==> !(f.Hex? && |Content(f)| == room)
  {
    hide Get, Encode;
    GetEncoded(f, rest, room);
  }

  /** Every one of the successive reads stays inside its destination. */
  predicate AllTerminatorsFit(s: string, rooms: seq<int>)
    decreases |rooms|
  {
    rooms == [] || (TerminatorFits(s, rooms[0])
                    && (Get(s, rooms[0]).Got? ==> AllTerminatorsFit(Get(s, rooms[0]).rest, rooms[1..])))
  }

  /** Successive reads, one for each destination. */
  function GetAll(s: string, rooms: seq<int>): Option<(seq<string>, string)>
    decreases |rooms|
  {
    if rooms == [] then Some(([], s))
    else
      match Get(s, rooms[0]) {
        case Bad => None
        case Got(v, rest) =>
          match GetAll(rest, rooms[1..]) {
            case None => None
            case Some((vs, end)) => Some(([v] + vs, end))
          }
      }
  }

  function Contents(fs: seq<Field>): seq<string> {
    if fs == [] then [] else [Content(fs[0])] + Contents(fs[1..])
  }

  lemma FieldStart(f: Field, rest: string)
    requires Proper(f)
    ensures SkipBlanks(Encode(f) + rest) == Encode(f) + rest
  {
    match f
    case Text(s) =>
      TextStart(s, " " + rest);
      assert Encode(f) + rest == EncodeText(s) + (" " + rest);
    case Number(n) =>
      NumberIsText(n);
      TextStart(Decimal(n), " " + rest);
      assert Encode(f) + rest == EncodeText(Decimal(n)) + (" " + rest);
    case Hex(b) => assert (Encode(f) + rest)[0] == '\\';
  }

  /** Every record reads back as the fields it was made from, up to its newline. */
  lemma {:induction false} RecordRoundTrip(fs: seq<Field>, rooms: seq<int>)
    requires |rooms| == |fs| && forall i :: 0 <= i < |fs| ==> Proper(fs[i]) && Fits(fs[i], rooms[i])
    ensures GetAll(EncodeAll(fs) + "\n", rooms) == Some((Contents(fs), "\n"))
    ensures AllTerminatorsFit(EncodeAll(fs) + "\n", rooms) <==>
              forall i :: 0 <= i < |fs| ==> !(fs[i].Hex? && |Content(fs[i])| == rooms[i])
  {
    hide Get, Encode, TerminatorFits;
    if fs == [] {
      assert EncodeAll(fs) + "\n" == "\n";
    } else {
      var rest := EncodeAll(fs[1..]) + "\n";
      assert EncodeAll(fs) + "\n" == Encode(fs[0]) + rest;
      GetEncoded(fs[0], rest, rooms[0]);
      EncodedTerminator(fs[0], rest, rooms[0]);
      if fs[1..] != [] {
        assert rest == Encode(fs[1]) + (EncodeAll(fs[2..]) + "\n") by { assert fs[1..][1..] == fs[2..]; }
        FieldStart(fs[1], EncodeAll(fs[2..]) + "\n");
      }
      RecordRoundTrip(fs[1..], rooms[1..]);
    }
  }

  // ----- how a number is read ----------------------------------------------

  /** The C library's isspace. */
  predicate IsSpace(c: char) { c == ' ' || '\t' <= c <= '\r' }

  function SkipSpace(s: string): string {
    if s != "" && IsSpace(s[0]) then SkipSpace(s[1..]) else s
  }

  /** The digits of a base at the start of a text. */
  function TakeDigits(s: string, base: nat): (d: string)
    ensures |d| <= |s| && forall i :: 0 <= i < |d| ==> IsHex(d[i]) && HexValue(d[i]) < base
  {
    if s == "" || !IsHex(s[0]) || HexValue(s[0]) >= base then "" else [s[0]] + TakeDigits(s[1..], base)
  }

  function DigitsValue(d: string, base: nat): nat
    requires forall i :: 0 <= i < |d| ==> IsHex(d[i])
  {
    if d == "" then 0 else base * DigitsValue(d[..|d| - 1], base) + HexValue(d[|d| - 1])
  }

  /** A number in base 16, 8 or 10 as its first characters say, and what follows it. */
  function Magnitude(s: string): Option<(nat, string)> {
    if 3 <= |s| && s[0] == '0' && (s[1] == 'x' || s[1] == 'X') && IsHex(s[2]) then
      var d := TakeDigits(s[2..], 16);
      Some((DigitsValue(d, 16), s[2..][|d|..]))
    else
      var base := if s != "" && s[0] == '0' then 8 else 10;
      var d := TakeDigits(s, base);
      if d == "" then None else Some((DigitsValue(d, base), s[|d|..]))
  }

  /** strtol and strtoul with base 0: sign, magnitude and the text behind them. */
  function ScanNumber(s: string): (bool, nat, string) {
    var t := SkipSpace(s);
    var signed := t != "" && (t[0] == '-' || t[0] == '+');
    match Magnitude(if signed then t[1..] else t)
    case None => (false, 0, s)
    case Some((m, rest)) => (signed && t[0] == '-', m, rest)
  }

  const TWO31 := 0x8000_0000
  const TWO32 := 0x1_0000_0000
  const TWO63 := 0x8000_0000_0000_0000
  const TWO64 := 0x1_0000_0000_0000_0000

  /** The result of strtol, cut down to an int. */
  function AsInt(negative: bool, m: int): int {
    var v := if negative then (if m > TWO63 then -TWO63 else -m) else if m >= TWO63 then TWO63 - 1 else m;
    var low := v % TWO32;
    if low < TWO31 then low else low - TWO32
  }

  /** The result of strtoul, cut down to an unsigned int. */
  function AsUint(negative: bool, m: int): int {
    var v := if m >= TWO64 then TWO64 - 1 else if negative then (TWO64 - m) % TWO64 else m;
    v % TWO32
  }

  const NUMBER_ROOM := 50

  /** What is read into the number buffer, as a C string; `None` for an error or an empty field. */
  function GetNumber(s: string): Option<(bool, nat)> {
    match Get(s, NUMBER_ROOM)
    case Bad => None
    case Got(v, _) =>
      if v == "" then None
      else
        var (negative, m, rest) := ScanNumber(UpTo(v, '\0'));
        if rest != "" then None else Some((negative, m))
  }

  /** qword_get_int (cacheio.c:178-190). */
  function GetInt(s: string): Option<int> {
    match GetNumber(s)
    case None => None
    case Some((negative, m)) => Some(AsInt(negative, m))
  }

  /** qword_get_uint (cacheio.c:192-204). */
  function GetUint(s: string): Option<int> {
    match GetNumber(s)
    case None => None
    case Some((negative, m)) => Some(AsUint(negative, m))
  }

  /** Digits behind "0x" are read in base sixteen. */
  lemma {:induction false} HexNumber(d: string)
    requires d != "" && forall i :: 0 <= i < |d| ==> IsHex(d[i])
    ensures Magnitude("0x" + d) == Some((DigitsValue(d, 16), ""))
  {
    hide DigitsValue, TakeDigits;
    var s := "0x" + d;
    assert s[0] == '0' && s[1] == 'x' && s[2] == d[0] && s[2..] == d && d[|d|..] == "";
    TakeWholeNumber(d, 16);
  }

  /** Digits that start with a zero are read in base eight. */
  lemma {:induction false} OctalNumber(s: string)
    requires s != "" && s[0] == '0' && forall i :: 0 <= i < |s| ==> IsHex(s[i]) && HexValue(s[i]) < 8
    ensures Magnitude(s) == Some((DigitsValue(s, 8), ""))
  {
    hide DigitsValue, TakeDigits;
    TakeWholeNumber(s, 8);
    assert s[|s|..] == "";
  }

  lemma {:induction false} TakeWholeNumber(d: string, base: nat)
    requires forall i :: 0 <= i < |d| ==> IsHex(d[i]) && HexValue(d[i]) < base
    ensures TakeDigits(d, base) == d
  {
    if d != "" {
      TakeWholeNumber(d[1..], base);
      assert d == [d[0]] + d[1..];
    }
  }

  /** An int that does not fit is cut down to 32 bits, after a long has been filled to its limit. */
  lemma IntsWrap(n: int)
    ensures var r := AsInt(n < 0, if n < 0 then -n else n);
            && -TWO31 <= r < TWO31
            && (-TWO63 <= n < TWO63 ==> (r - n) % TWO32 == 0)
            && (n >= TWO63 ==> r == -1) && (n < -TWO63 ==> r == 0)
  {
  }

  /** So is an unsigned int, after an unsigned long, which takes a negative number modulo its size. */
  lemma UintsWrap(n: int)
    ensures var r := AsUint(n < 0, if n < 0 then -n else n);
            && 0 <= r < TWO32
            && (-TWO64 < n < TWO64 ==> (r - n) % TWO32 == 0)
            && (n <= -TWO64 || TWO64 <= n ==> r == TWO32 - 1)
  {
  }

  /** A printed number starts with a zero only when it is zero, so it is read in base ten. */
  lemma {:induction false} DigitsHaveValue(n: nat)
    ensures (forall i :: 0 <= i < |Digits(n)| ==> IsHex(Digits(n)[i])) && Digits(n) != ""
    ensures DigitsValue(Digits(n), 10) == n && (Digits(n)[0] == '0' ==> n == 0)
  {
    DigitsArePlain(n);
    if n >= 10 {
      DigitsHaveValue(n / 10);
      assert Digits(n)[..|Digits(n)| - 1] == Digits(n / 10);
    } else {
      assert Digits(n)[..0] == "";
    }
  }

  lemma MagnitudeOfDigits(n: nat)
    ensures Magnitude(Digits(n)) == Some((n, ""))
  {
    DigitsArePlain(n);
    DigitsHaveValue(n);
    TakeWholeNumber(Digits(n), 10);
    assert Digits(n)[|Digits(n)|..] == "";
    if n == 0 {
      assert Digits(n) == "0" && "0"[1..] == "" && TakeDigits("0", 8) == "0";
      assert DigitsValue("0", 8) == 0;
    } else {
      assert Digits(n)[0] != '0';
    }
  }

  lemma ScanPrinted(n: int)
    ensures ScanNumber(Decimal(n)) == (n < 0, if n < 0 then -n else n, "")
  {
    hide Magnitude, Digits;
    var m := if n < 0 then -n else n;
    DigitsArePlain(m);
    MagnitudeOfDigits(m);
    if n < 0 { assert Decimal(n)[1..] == Digits(m); }
  }

  function Pow10(k: nat): nat { if k == 0 then 1 else 10 * Pow10(k - 1) }

  lemma {:induction false} DigitsAreFew(n: nat, k: nat)
    requires 0 < k && n < Pow10(k)
    ensures |Digits(n)| <= k
  {
    if n >= 10 { DigitsAreFew(n / 10, k - 1); }
  }

  lemma PrintedFits(n: int)
    requires -TWO32 < n < TWO32
    ensures |Decimal(n)| <= 11 && '\0' !in Decimal(n) && UpTo(Decimal(n), '\0') == Decimal(n)
  {
    var m := if n < 0 then -n else n;
    assert Pow10(5) == 100_000;
    assert Pow10(10) == 100_000 * Pow10(5);
    DigitsAreFew(m, 10);
    DigitsArePlain(m);
    UpToIs(Decimal(n), '\0', Decimal(n));
  }

  lemma GetPrintedNumber(n: int, rest: string)
    requires -TWO32 < n < TWO32
    ensures GetNumber(Encode(Number(n)) + rest) == Some((n < 0, if n < 0 then -n else n))
  {
    hide Get, ScanNumber, Encode;
    PrintedFits(n);
    NumberIsText(n);
    GetEncoded(Number(n), rest, NUMBER_ROOM);
    ScanPrinted(n);
  }

  /** A number that was written is the number that is read, at either width and sign. */
  lemma NumberReadsBack(n: int, rest: string)
    ensures -TWO31 <= n < TWO31 ==> GetInt(Encode(Number(n)) + rest) == Some(n)
    ensures 0 <= n < TWO32 ==> GetUint(Encode(Number(n)) + rest) == Some(n)
  {
    hide GetNumber, Encode;
    if -TWO32 < n < TWO32 { GetPrintedNumber(n, rest); }
  }

  // ----- the writer --------------------------------------------------------

  lemma {:induction false} EncodeAllSnoc(fs: seq<Field>, f: Field)
    ensures EncodeAll(fs + [f]) == EncodeAll(fs) + Encode(f)
  {
    hide Encode;
    if fs == [] {
      assert fs + [f] == [f] && EncodeAll([f]) == Encode(f) + EncodeAll([]);
    } else {
      assert (fs + [f])[1..] == fs[1..] + [f];
      EncodeAllSnoc(fs[1..], f);
    }
  }

  lemma {:induction false} EncodeTextSnoc(s: string, c: char)
    ensures EncodeText(s + [c]) == EncodeText(s) + EncodeChar(c)
  {
    hide EncodeChar;
    if s == "" {
      assert s + [c] == [c] && EncodeText([c]) == EncodeChar(c) + EncodeText("");
    } else {
      assert (s + [c])[1..] == s[1..] + [c];
      EncodeTextSnoc(s[1..], c);
    }
  }

  lemma {:induction false} EncodeBytesSnoc(b: string, c: char)
    ensures EncodeBytes(b + [c]) == EncodeBytes(b) + HexPair(c)
  {
    hide HexPair;
    if b == "" {
      assert b + [c] == [c] && EncodeBytes([c]) == HexPair(c) + EncodeBytes("");
    } else {
      assert (b + [c])[1..] == b[1..] + [c];
      EncodeBytesSnoc(b[1..], c);
    }
  }

  /**
   A message buffer: the write position and the remaining count.  While the
   count is positive the buffer holds exactly the fields; once it is not, it
   never is again and the message is lost.  `stray` tells whether anything was
   written outside the buffer.
   */
  class Message {
    const buf: array<char>
    var at: int
    var len: int
    var stray: bool
    ghost var fields: seq<Field>

    ghost predicate Valid()
      reads this, buf
    {
      len <= buf.Length && (len > 0 ==> 0 <= at && at + len == buf.Length && buf[..at] == EncodeAll(fields))
    }

    constructor (size: nat)
      ensures Valid() && fresh(buf) && fields == [] && len == size == buf.Length && at == 0 && !stray
    {
      buf := new char[size](_ => '\0');
      at, len, stray, fields := 0, size, false, [];
    }

    /** Writes at a position that has room. */
    method Put(text: string, p: nat)
      requires p + |text| <= buf.Length
      modifies buf
      ensures buf[..p + |text|] == old(buf[..p]) + text
    {
      for k := 0 to |text|
        invariant buf[..p + k] == old(buf[..p]) + text[..k]
      {
        buf[p + k] := text[k];
        assert buf[..p + k + 1] == buf[..p + k] + [text[k]];
      }
      assert text[..|text|] == text;
    }

    /** What every append does to the count: it stays positive exactly when the whole field fits with room to spare. */
    twostate predicate Appended(f: Field)
      reads this
    {
      && fields == old(fields) + [f]
      && (len > 0 <==> |Encode(f)| < old(len))
      && (len > 0 ==> len == old(len) - |Encode(f)|)
    }

    /** Nothing was written outside the buffer, and a count too small for the field is now -1. */
    twostate predicate StayedInside(f: Field)
      reads this
    {
      stray == old(stray) && (old(len) >= 0 && |Encode(f)| > old(len) ==> len == -1)
    }

    /** qword_add (cacheio.c:35-68).  Text that does not fit is cut off at most three places before the end. */
    method AddText(s: string)
      requires Valid()
      modifies this, buf
      ensures Valid() && Appended(Text(s)) && StayedInside(Text(s))
      ensures old(len) > 0 && |Encode(Text(s))| > old(len) ==> buf.Length - 3 <= at <= buf.Length
      ensures old(len) <= 0 ==> at == old(at)
    {
      hide EncodeText, EncodeChar, EncodeAll;
      EncodeAllSnoc(fields, Text(s));
      EmptyText();
      fields := fields + [Text(s)];
      if len < 0 {
        return;
      }
      var i, bp, l := 0, at, len;
      ghost var before := if len > 0 then buf[..at] else "";
      while i < |s| && l > 0
        invariant 0 <= i <= |s| && l == len - |EncodeText(s[..i])|
        invariant len > 0 && l >= 0 ==> 0 <= bp && bp + l == buf.Length && buf[..bp] == before + EncodeText(s[..i])
        invariant len > 0 && l < 0 ==> buf.Length - 3 <= bp <= buf.Length
        invariant len <= 0 ==> i == 0 && bp == at
        modifies buf
      {
        EncodeTextSnoc(s[..i], s[i]);
        assert s[..i + 1] == s[..i] + [s[i]];
        if l >= |EncodeChar(s[i])| {
          Put(EncodeChar(s[i]), bp);
          bp := bp + |EncodeChar(s[i])|;
        }
        l := l - |EncodeChar(s[i])|;
        i := i + 1;
      }
      if i < |s| || l < 1 {
        TextGrows(s, i);
        l := -1;
      } else {
        assert s[..i] == s;
        Put(" ", bp);
        bp := bp + 1;
        l := l - 1;
        assert before + EncodeText(s) + " " == before + Encode(Text(s));
      }
      at, len := bp, l;
    }

    lemma EmptyText()
      ensures EncodeText("") == ""
    {
    }

    lemma TextGrows(s: string, i: nat)
      requires i <= |s|
      ensures |EncodeText(s[..i])| <= |EncodeText(s)|
      decreases |s| - i
    {
      if i < |s| {
        EncodeTextSnoc(s[..i], s[i]);
        assert s[..i + 1] == s[..i] + [s[i]];
        TextGrows(s, i + 1);
      } else {
        assert s[..i] == s;
      }
    }

    /**
     qword_addhex (cacheio.c:70-96).  One case goes wrong: no bytes and exactly
     two places left.  Then a blank is written without the "\\x" in front of it,
     and the count stays positive although the field is not there.
     */
    method AddHex(bytes: string)
      requires Valid()
      modifies this, buf
      ensures bytes != "" || old(len) != 2 ==> Valid() && Appended(Hex(bytes))
      ensures stray == old(stray) && (bytes != "" ==> StayedInside(Hex(bytes)))
      ensures bytes == "" && old(len) == 2 ==>
                len == 1 && at == old(at) + 1 && buf[..at] == EncodeAll(old(fields)) + " "
    {
      hide EncodeBytes, HexPair, EncodeAll;
      EncodeAllSnoc(fields, Hex(bytes));
      fields := fields + [Hex(bytes)];
      if len < 0 {
        return;
      }
      var i, bp, l := 0, at, len;
      ghost var before := if len > 0 then buf[..at] else "";
      EmptyBytes();
      if l > 2 {
        Put("\\x", bp);
        i, bp, l := PutPairs(bytes, bp + 2, l - 2);
      }
      if i < |bytes| || l < 1 {
        l := -1;
      } else {
        assert bytes[..i] == bytes;
        Put(" ", bp);
        bp := bp + 1;
        l := l - 1;
        assert before + "\\x" + EncodeBytes(bytes) + " " == before + Encode(Hex(bytes));
      }
      at, len := bp, l;
    }

    /** The digits of as many bytes as there is room for. */
    method PutPairs(bytes: string, start: nat, room: nat) returns (i: nat, bp: nat, l: nat)
      requires start + room == buf.Length
      modifies buf
      ensures i <= |bytes| && l == room - 2 * i && bp + l == buf.Length && (i < |bytes| ==> l < 2)
      ensures buf[..bp] == old(buf[..start]) + EncodeBytes(bytes[..i])
    {
      hide EncodeBytes, HexPair;
      EmptyBytes();
      i, bp, l := 0, start, room;
      ghost var before := buf[..start];
      while i < |bytes| && l >= 2
        invariant i <= |bytes| && l == room - 2 * i && bp + l == buf.Length
        invariant buf[..bp] == before + EncodeBytes(bytes[..i])
      {
        EncodeBytesSnoc(bytes[..i], bytes[i]);
        assert bytes[..i + 1] == bytes[..i] + [bytes[i]];
        Put(HexPair(bytes[i]), bp);
        i, bp, l := i + 1, bp + 2, l - 2;
      }
    }

    lemma EmptyBytes()
      ensures EncodeBytes("") == ""
    {
    }

    /** Places `p` up to but not including `p + n` belong to the buffer. */
    predicate Inside(p: int, n: nat) { 0 <= p && p + n <= buf.Length }

    /** Writes at any position, as memory allows it. */
    method PutAnywhere(text: string, p: int)
      modifies this`stray, buf
      ensures stray <==> old(stray) || (text != "" && !Inside(p, |text|))
      ensures Inside(p, |text|) ==> buf[p..p + |text|] == text
    {
      for k := 0 to |text|
        invariant stray <==> old(stray) || (k > 0 && !Inside(p, k))
        invariant Inside(p, k) ==> buf[p..p + k] == text[..k]
      {
        if 0 <= p + k < buf.Length {
          buf[p + k] := text[k];
        } else {
          stray := true;
        }
        assert text[..k + 1] == text[..k] + [text[k]];
        assert Inside(p, k + 1) ==> buf[p..p + k + 1] == buf[p..p + k] + [text[k]];
      }
      assert text[..|text|] == text;
    }

    /**
     qword_addint and qword_adduint (cacheio.c:98-118).  snprintf gets the count
     as a size: none writes nothing, a positive one bounds the text and its
     terminator, and a negative one is huge and bounds nothing.  Then the whole
     number goes to the place where the last field broke off, and the position
     moves back by the count.
     */
    method AddNumber(n: int)
      requires Valid()
      modifies this, buf
      ensures Valid() && Appended(Number(n))
      ensures stray <==> old(stray) || (old(len) < 0 && !Inside(old(at), |Decimal(n)| + 2))
      ensures old(len) < 0 && Inside(old(at), |Decimal(n)| + 2) ==>
                buf[old(at)..old(at) + |Decimal(n)| + 2] == Decimal(n) + " " + ['\0']
      ensures old(len) <= 0 ==> len == 0 && at == old(at) + old(len)
    {
      hide Decimal, EncodeAll;
      EncodeAllSnoc(fields, Number(n));
      fields := fields + [Number(n)];
      var text := Decimal(n) + " ";
      var l := |text|;
      if len < 0 {
        PutAnywhere(text + ['\0'], at);
      } else if len > 0 {
        var fit := if l < len then text else text[..len - 1];
        Put(fit + ['\0'], at);
        assert (fit + ['\0'])[..|fit|] == fit;
        assert buf[..at + |fit|] == buf[..at + |fit| + 1][..at + |fit|];
      }
      if l > len {
        l := len;
      }
      at, len := at + l, len - l;
    }

    /** qword_addeol (cacheio.c:120-127). */
    method AddEol()
      requires Valid()
      modifies this, buf
      ensures old(len) <= 0 ==> len == old(len)
      ensures old(len) > 0 ==> len == old(len) - 1 && 0 <= at <= buf.Length && buf[..at] == EncodeAll(fields) + "\n"
      ensures fields == old(fields) && stray == old(stray)
    {
      if len <= 0 {
        return;
      }
      Put("\n", at);
      at, len := at + 1, len - 1;
    }
  }

  /**
   A text that does not fit, and then a number of two characters or more: the
   number ends up outside the buffer, whatever its size and what is in it.
   */
  method NumberBehindLostText(m: Message, s: string, n: int)
    requires m.Valid() && 0 < m.len < |Encode(Text(s))| && 2 <= |Decimal(n)|
    modifies m, m.buf
    ensures m.stray
  {
    m.AddText(s);
    m.AddNumber(n);
  }

  // ----- the reader --------------------------------------------------------

  method SkipBlanksFrom(buf: string, from: nat) returns (bp: nat)
    requires from <= |buf|
    ensures from <= bp <= |buf| && buf[bp..] == SkipBlanks(buf[from..])
  {
    bp := from;
    while bp < |buf| && buf[bp] == ' '
      invariant from <= bp <= |buf| && SkipBlanks(buf[bp..]) == SkipBlanks(buf[from..])
    {
      assert buf[bp..][1..] == buf[bp + 1..];
      bp := bp + 1;
    }
  }

  /** The hex branch (cacheio.c:140-149), into the destination. */
  method ReadHexFrom(buf: string, from: nat, dest: array<char>) returns (n: nat, bp: nat)
    requires from <= |buf|
    modifies dest
    ensures from <= bp <= |buf| && n <= dest.Length
    ensures (dest[..n], buf[bp..]) == ReadHex(buf[from..], dest.Length)
  {
    ghost var goal := ReadHex(buf[from..], dest.Length);
    n, bp := 0, from;
    assert dest[..0] + goal.0 == goal.0;
    while bp + 1 < |buf| && IsHex(buf[bp]) && IsHex(buf[bp + 1]) && n < dest.Length
      invariant from <= bp <= |buf| && n <= dest.Length
      invariant dest[..n] + ReadHex(buf[bp..], dest.Length - n).0 == goal.0
                && ReadHex(buf[bp..], dest.Length - n).1 == goal.1
      decreases |buf| - bp
    {
      var c := (16 * HexValue(buf[bp]) + HexValue(buf[bp + 1])) as char;
      ghost var s, done := buf[bp..], dest[..n];
      assert s[2..] == buf[bp + 2..];
      ghost var v := ReadHex(s[2..], dest.Length - n - 1).0;
      assert done + ([c] + v) == done + [c] + v;
      dest[n] := c;
      assert dest[..n + 1] == done + [c];
      n, bp := n + 1, bp + 2;
    }
    assert dest[..n] + "" == dest[..n];
  }

  lemma ReadTextStep(buf: string, bp: nat, dest: string, room: int)
    requires bp < |buf| && buf[bp] != ' ' && buf[bp] != '\n' && |dest| < room
    ensures var s := buf[bp..];
            && (IsEscape(s) ==> bp + 4 <= |buf|)
            && var (c, next) := if IsEscape(s) then (EscapeValue(s), bp + 4) else (buf[bp], bp + 1);
            && dest + ReadText(s, room - |dest|).0 == dest + [c] + ReadText(buf[next..], room - |dest| - 1).0
            && ReadText(s, room - |dest|).1 == ReadText(buf[next..], room - |dest| - 1).1
  {
    var s := buf[bp..];
    assert s[1..] == buf[bp + 1..];
    if IsEscape(s) { assert s[4..] == buf[bp + 4..]; }
  }

  /** The text branch (cacheio.c:151-167), into all but the last place of the destination. */
  method ReadTextFrom(buf: string, from: nat, dest: array<char>) returns (n: nat, bp: nat)
    requires from <= |buf|
    modifies dest
    ensures from <= bp <= |buf| && n <= dest.Length
    ensures (dest[..n], buf[bp..]) == ReadText(buf[from..], dest.Length - 1)
  {
    hide IsEscape, EscapeValue, ReadText;
    var room := dest.Length - 1;
    ghost var goal := ReadText(buf[from..], room);
    n, bp := 0, from;
    assert dest[..0] + goal.0 == goal.0;
    while bp < |buf| && buf[bp] != ' ' && buf[bp] != '\n' && n < room
      invariant from <= bp <= |buf| && n <= dest.Length
      invariant dest[..n] + ReadText(buf[bp..], room - n).0 == goal.0 && ReadText(buf[bp..], room - n).1 == goal.1
      decreases |buf| - bp
    {
      ghost var done := dest[..n];
      ReadTextStep(buf, bp, done, room);
      var c, width := buf[bp], 1;
      if IsEscape(buf[bp..]) {
        c, width := EscapeValue(buf[bp..]), 4;
      }
      dest[n] := c;
      assert dest[..n + 1] == done + [c];
      n, bp := n + 1, bp + width;
    }
    ReadTextEnd(buf[bp..], room - n);
    assert dest[..n] + "" == dest[..n];
  }

  lemma ReadTextEnd(s: string, room: int)
    requires room <= 0 || s == "" || s[0] == ' ' || s[0] == '\n'
    ensures ReadText(s, room) == ("", s)
  {
  }

  /**
   qword_get (cacheio.c:129-176): the length of the value, or -1, and the
   source position, which moves only on success.  `inside` tells whether every
   write, the terminator's included, was inside the destination.
   */
  method QwordGet(buf: string, from: nat, dest: array<char>) returns (len: int, next: nat, inside: bool)
    requires from <= |buf|
    modifies dest
    ensures from <= next <= |buf| && -1 <= len <= dest.Length
    ensures Get(buf[from..], dest.Length) == if len == -1 then Bad else Got(dest[..len], buf[next..])
    ensures len == -1 ==> next == from
    ensures inside <==> TerminatorFits(buf[from..], dest.Length)
    ensures inside && len >= 0 ==> len < dest.Length && dest[len] == '\0'
  {
    hide ReadHex, ReadText, SkipBlanks;
    var bp := SkipBlanksFrom(buf, from);
    var n: nat;
    if bp + 1 < |buf| && buf[bp] == '\\' && buf[bp + 1] == 'x' {
      assert buf[bp..][2..] == buf[bp + 2..];
      n, bp := ReadHexFrom(buf, bp + 2, dest);
    } else {
      n, bp := ReadTextFrom(buf, bp, dest);
    }
    if bp < |buf| && buf[bp] != ' ' && buf[bp] != '\n' {
      return -1, from, true;
    }
    bp := SkipBlanksFrom(buf, bp);
    ghost var value := dest[..n];
    inside := n < dest.Length;
    if inside {
      dest[n] := '\0';
    }
    assert dest[..n] == value;
    return n, bp, inside;
  }

  /**
   qword_get_int (cacheio.c:178-190): the source position moves on even when the
   field is no number.  When the terminator of the field went astray, what
   follows the buffer decides, and any answer is possible.
   */
  method QwordGetInt(buf: string, from: nat) returns (value: Option<int>, next: nat, inside: bool)
    requires from <= |buf|
    ensures from <= next <= |buf| && (inside <==> TerminatorFits(buf[from..], NUMBER_ROOM))
    ensures inside ==> value == GetInt(buf[from..])
    ensures Get(buf[from..], NUMBER_ROOM).Got? ==> buf[next..] == Get(buf[from..], NUMBER_ROOM).rest
  {
    var n;
    n, next, inside := ReadNumber(buf, from);
    value := if n.None? then None else Some(AsInt(n.value.0, n.value.1));
  }

  /** qword_get_uint (cacheio.c:192-204). */
  method QwordGetUint(buf: string, from: nat) returns (value: Option<int>, next: nat, inside: bool)
    requires from <= |buf|
    ensures from <= next <= |buf| && (inside <==> TerminatorFits(buf[from..], NUMBER_ROOM))
    ensures inside ==> value == GetUint(buf[from..])
    ensures Get(buf[from..], NUMBER_ROOM).Got? ==> buf[next..] == Get(buf[from..], NUMBER_ROOM).rest
  {
    var n;
    n, next, inside := ReadNumber(buf, from);
    value := if n.None? then None else Some(AsUint(n.value.0, n.value.1));
  }

  /** What both have in common: the field, then strtol or strtoul on it, which must use all of it. */
  method ReadNumber(buf: string, from: nat) returns (n: Option<(bool, nat)>, next: nat, inside: bool)
    requires from <= |buf|
    ensures from <= next <= |buf| && (inside <==> TerminatorFits(buf[from..], NUMBER_ROOM))
    ensures inside ==> n == GetNumber(buf[from..])
    ensures Get(buf[from..], NUMBER_ROOM).Got? ==> buf[next..] == Get(buf[from..], NUMBER_ROOM).rest
  {
    hide Get, ScanNumber, TerminatorFits;
    var dest := new char[NUMBER_ROOM](_ => '\0');
    var len;
    len, next, inside := QwordGet(buf, from, dest);
    if len <= 0 { return None, next, inside; }
    if !inside {
      n := *;
      return;
    }
    var (negative, m, ep) := ScanNumber(UpTo(dest[..len], '\0'));
    n := if ep != "" then None else Some((negative, m));
  }

  /** Only hex digits of exactly as many bytes as the number buffer holds lead there, and no printed number does. */
  lemma NumberTerminatorFits(n: int, rest: string)
    requires -TWO32 < n < TWO32
    ensures TerminatorFits(Encode(Number(n)) + rest, NUMBER_ROOM)
  {
    hide Get, Encode, TerminatorFits;
    PrintedFits(n);
    NumberIsText(n);
    EncodedTerminator(Number(n), rest, NUMBER_ROOM);
  }
}
