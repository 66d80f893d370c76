/**
 Monitor records of the NSM database (support/nsm/file.c): one line of text
 for each monitored peer, printed by nsm_create_monitor_record, read by
 nsm_parse_line, and removed by rewriting the file without it.
 */
module NsmRecords {
  import opened Wrappers
  import opened CStrings

  const RPCARGSLEN := 36
  const SM_PRIV_SIZE := 16
  const SM_MAXSTRLEN := 1024
  const LINELEN := RPCARGSLEN + SM_PRIV_SIZE * 2 + 1

  /** The static line buffers of insert, load and delete. */
  const LINEBUF := LINELEN + 1 + SM_MAXSTRLEN + 2

  /** The callback arguments, the private cookie and the two names of an SM_MON request. */
  datatype Record = Record(args: seq<nat>, priv: seq<nat>, monName: string, myName: string)

  /** No blank, newline or terminator: what the database requires of a name. */
  predicate CleanName(s: string) { ' ' !in s && '\n' !in s && '\t' !in s && '\0' !in s }

  ghost predicate IsRecord(r: Record) {
    && |r.args| == 4 && (forall i :: 0 <= i < 4 ==> r.args[i] < 0x1_0000_0000)
    && |r.priv| == SM_PRIV_SIZE && (forall i :: 0 <= i < SM_PRIV_SIZE ==> r.priv[i] < 256)
    && CleanName(r.monName) && CleanName(r.myName)
  }

  // ----- hexadecimal -------------------------------------------------------

  /** printf's %0<width>x of a number that has at most that many digits. */
  function PrintHex(v: nat, width: nat): (s: string)
    ensures |s| == width && forall i :: 0 <= i < |s| ==> IsHex(s[i])
  {
    if width == 0 then "" else PrintHex(v / 16, width - 1) + [HexDigit(v % 16)]
  }

  function ParseHex(s: string): nat
    requires forall i :: 0 <= i < |s| ==> IsHex(s[i])
  {
    if s == "" then 0 else 16 * ParseHex(s[..|s| - 1]) + HexValue(s[|s| - 1])
  }

  function Pow16(width: nat): nat { if width == 0 then 1 else 16 * Pow16(width - 1) }

  lemma {:induction false} HexRoundTrip(v: nat, width: nat)
    requires v < Pow16(width)
    ensures ParseHex(PrintHex(v, width)) == v
  {
    if width > 0 {
      var s := PrintHex(v, width);
      assert s[..|s| - 1] == PrintHex(v / 16, width - 1);
      HexRoundTrip(v / 16, width - 1);
    }
  }

  // ----- printing ----------------------------------------------------------

  function PrintArgs(args: seq<nat>): (s: string)
    ensures |s| == 9 * |args|
  {
    if args == [] then "" else PrintHex(args[0], 8) + " " + PrintArgs(args[1..])
  }

  function PrintPriv(priv: seq<nat>): (s: string)
    ensures |s| == 2 * |priv|
  {
    if priv == [] then "" else PrintHex(priv[0], 2) + PrintPriv(priv[1..])
  }

  /** The record as text. */
  function Print(r: Record): string {
    PrintArgs(r.args) + PrintPriv(r.priv) + " " + r.monName + " " + r.myName + "\n"
  }

  // ----- parsing -----------------------------------------------------------

  function SkipSpace(s: string): (r: string)
    ensures |r| <= |s|
  {
    if s != "" && (s[0] == ' ' || s[0] == '\t' || s[0] == '\n') then SkipSpace(s[1..]) else s
  }

  /** The hex digits at the start of a text, at most `width` of them. */
  function TakeHex(s: string, width: nat): (h: string)
    ensures |h| <= |s| && |h| <= width && h == s[..|h|] && forall i :: 0 <= i < |h| ==> IsHex(h[i])
  {
    if width == 0 || s == "" || !IsHex(s[0]) then "" else [s[0]] + TakeHex(s[1..], width - 1)
  }

  /** sscanf of `n` fields "%8x " from the front of a line. */
  function ScanArgs(s: string, n: nat): Option<seq<nat>>
    decreases n
  {
    if n == 0 then Some([])
    else
      var t := SkipSpace(s);
      var h := TakeHex(t, 8);
      if h == "" then None
      else
        match ScanArgs(t[|h|..], n - 1) {
          case None => None
          case Some(rest) => Some([ParseHex(h)] + rest)
        }
  }

  /** `n` times sscanf "%2x", two characters on each time. */
  function ScanPriv(s: string, n: nat): (r: Option<seq<nat>>)
    ensures r.Some? ==> 2 * n <= |s|
  {
    if n == 0 then Some([])
    else
      var h := TakeHex(SkipSpace(s), 2);
      if h == "" || |s| < 2 then None
      else
        match ScanPriv(s[2..], n - 1) {
          case None => None
          case Some(rest) => Some([ParseHex(h)] + rest)
        }
  }

  function SkipBlanks(s: string): string { if s != "" && s[0] == ' ' then SkipBlanks(s[1..]) else s }

  /** nsm_parse_line (file.c:803-842). */
  function Parse(text: string): Option<Record> {
    var line := UpTo(text, '\n');
    match ScanArgs(line, 4)
    case None => None
    case Some(args) =>
      if |line| < RPCARGSLEN then None
      else
        match ScanPriv(line[RPCARGSLEN..], SM_PRIV_SIZE)
        case None => None
        case Some(priv) =>
          var c := line[RPCARGSLEN + 2 * SM_PRIV_SIZE..];
          var names := if c == "" then "" else c[1..];
          var mon := UpTo(names, ' ');
          var rest := names[|mon|..];
          Some(Record(args, priv, mon, SkipBlanks(rest)))
  }

  // ----- parsing undoes printing -------------------------------------------

  lemma {:induction false} TakeAll(h: string, rest: string, width: nat)
    requires |h| == width && forall i :: 0 <= i < |h| ==> IsHex(h[i])
    ensures TakeHex(h + rest, width) == h
  {
    if width > 0 {
      assert (h + rest)[1..] == h[1..] + rest;
      TakeAll(h[1..], rest, width - 1);
    }
  }

  lemma NoSpace(h: string, rest: string)
    requires h != "" && IsHex(h[0])
    ensures SkipSpace(h + rest) == h + rest
  {
  }

  lemma Width8()
    ensures Pow16(8) == 0x1_0000_0000 && Pow16(2) == 256
  {
    assert Pow16(1) == 16;
    assert Pow16(2) == 256;
    assert Pow16(3) == 0x1000;
    assert Pow16(4) == 0x1_0000;
    assert Pow16(5) == 0x10_0000;
    assert Pow16(6) == 0x100_0000;
    assert Pow16(7) == 0x1000_0000;
  }

  lemma {:induction false} ScanPrintedArgs(args: seq<nat>, rest: string)
    requires forall i :: 0 <= i < |args| ==> args[i] < 0x1_0000_0000
    ensures ScanArgs(PrintArgs(args) + rest, |args|) == Some(args)
  {
    hide PrintHex, ParseHex, TakeHex, SkipSpace;
    if args != [] {
      var h := PrintHex(args[0], 8);
      var tail := PrintArgs(args[1..]) + rest;
      assert PrintArgs(args) + rest == h + (" " + tail);
      NoSpace(h, " " + tail);
      TakeAll(h, " " + tail, 8);
      assert (h + (" " + tail))[8..] == " " + tail;
      Width8();
      HexRoundTrip(args[0], 8);
      ScanPrintedArgs(args[1..], rest);
      ScanSkipsBlank(tail, |args| - 1);
      assert args == [args[0]] + args[1..];
    }
  }

  lemma ScanSkipsBlank(s: string, n: nat)
    ensures ScanArgs(" " + s, n) == ScanArgs(s, n)
  {
    assert (" " + s)[1..] == s;
  }

  lemma {:induction false} ScanPrintedPriv(priv: seq<nat>, rest: string)
    requires forall i :: 0 <= i < |priv| ==> priv[i] < 256
    ensures ScanPriv(PrintPriv(priv) + rest, |priv|) == Some(priv)
  {
    hide PrintHex, ParseHex, TakeHex, SkipSpace;
    if priv != [] {
      var h := PrintHex(priv[0], 2);
      var tail := PrintPriv(priv[1..]) + rest;
      assert PrintPriv(priv) + rest == h + tail;
      NoSpace(h, tail);
      TakeAll(h, tail, 2);
      assert (h + tail)[2..] == tail;
      Width8();
      HexRoundTrip(priv[0], 2);
      ScanPrintedPriv(priv[1..], rest);
      assert priv == [priv[0]] + priv[1..];
    }
  }

  lemma {:induction false} ArgsHaveNoNewline(args: seq<nat>)
    ensures '\n' !in PrintArgs(args)
  {
    if args != [] { ArgsHaveNoNewline(args[1..]); }
  }

  lemma {:induction false} PrivHasNoNewline(priv: seq<nat>)
    ensures '\n' !in PrintPriv(priv)
  {
    if priv != [] { PrivHasNoNewline(priv[1..]); }
  }

  /** The line of a record, without its newline. */
  function Line(r: Record): string {
    PrintArgs(r.args) + (PrintPriv(r.priv) + (" " + (r.monName + (" " + r.myName))))
  }

  lemma PrintIsLine(r: Record)
    requires IsRecord(r)
    ensures Print(r) == Line(r) + "\n" && '\n' !in Line(r)
    ensures |Print(r)| == LINELEN + |r.monName| + 1 + |r.myName| + 1
  {
    ArgsHaveNoNewline(r.args);
    PrivHasNoNewline(r.priv);
  }

  lemma NamesSplit(mon: string, my: string)
    requires CleanName(mon) && CleanName(my)
    ensures var s := mon + (" " + my);
            UpTo(s, ' ') == mon && SkipBlanks(s[|mon|..]) == my
  {
    var s := mon + (" " + my);
    UpToIs(s, ' ', mon);
    assert s[|mon|..] == " " + my && (" " + my)[1..] == my;
    assert my != "" ==> my[0] in my;
  }

  /** Parsing a printed record gives it back, whatever its names, as long as they hold no white space. */
  lemma ParsePrinted(r: Record)
    requires IsRecord(r)
    ensures Parse(Print(r)) == Some(r)
  {
    hide ScanArgs, ScanPriv, PrintArgs, PrintPriv, UpTo, SkipBlanks, Print, CleanName;
    PrintIsLine(r);
    var line := Line(r);
    UpToIs(Print(r), '\n', line);
    var names := r.monName + (" " + r.myName);
    var tail := " " + names;
    var body := PrintPriv(r.priv) + tail;
    ScanPrintedArgs(r.args, body);
    ScanPrintedPriv(r.priv, tail);
    assert line[RPCARGSLEN..] == body;
    assert line[RPCARGSLEN + 2 * SM_PRIV_SIZE..] == tail;
    assert tail[1..] == names;
    NamesSplit(r.monName, r.myName);
  }

  // ----- creating a record -------------------------------------------------

  /** snprintf into `remaining` bytes, checked: the text must leave room for its terminator. */
  predicate Fits(text: string, remaining: nat) { |text| < remaining }

  lemma {:induction false} PrintPrivSnoc(priv: seq<nat>, b: nat)
    ensures PrintPriv(priv + [b]) == PrintPriv(priv) + PrintHex(b, 2)
  {
    hide PrintHex;
    if priv == [] {
      assert priv + [b] == [b] && PrintPriv([b]) == PrintHex(b, 2) + PrintPriv([]);
    } else {
      assert (priv + [b])[1..] == priv[1..] + [b];
      PrintPrivSnoc(priv[1..], b);
    }
  }

  /** nsm_priv_to_hex (file.c:632-648). */
  method PrivToHex(priv: seq<nat>, buflen: nat) returns (text: Option<string>)
    requires |priv| == SM_PRIV_SIZE
    ensures text == if |PrintPriv(priv)| < buflen then Some(PrintPriv(priv)) else None
  {
    hide PrintHex;
    var out, remaining := "", buflen;
    assert PrintPriv([]) == "";
    for i := 0 to SM_PRIV_SIZE
      invariant out == PrintPriv(priv[..i]) && remaining == buflen - 2 * i
      invariant i > 0 ==> remaining > 0
    {
      PrintPrivSnoc(priv[..i], priv[i]);
      assert priv[..i + 1] == priv[..i] + [priv[i]];
      var pair := PrintHex(priv[i], 2);
      if !Fits(pair, remaining) {
        return None;
      }
      out, remaining := out + pair, remaining - 2;
    }
    assert priv[..SM_PRIV_SIZE] == priv;
    return Some(out);
  }

  /** nsm_create_monitor_record (file.c:653-685): the whole record or nothing. */
  method CreateRecord(r: Record, buflen: nat) returns (text: Option<string>)
    requires |r.args| == 4 && |r.priv| == SM_PRIV_SIZE
    ensures text == if |Print(r)| < buflen then Some(Print(r)) else None
  {
    var args, remaining := PrintArgs(r.args), buflen;
    if !Fits(args, remaining) {
      return None;
    }
    remaining := remaining - |args|;
    var hex := PrivToHex(r.priv, remaining);
    if hex.None? {
      return None;
    }
    remaining := remaining - |hex.value|;
    var names := " " + r.monName + " " + r.myName + "\n";
    if !Fits(names, remaining) {
      return None;
    }
    assert args + hex.value + names == Print(r);
    return Some(args + hex.value + names);
  }

  // ----- a file of records -------------------------------------------------

  function PrintAll(rs: seq<Record>): string { if rs == [] then "" else Print(rs[0]) + PrintAll(rs[1..]) }

  /** A record that fits the line buffer, as insert demands. */
  ghost predicate Storable(r: Record) { IsRecord(r) && |Print(r)| < LINEBUF }

  ghost predicate AllStorable(rs: seq<Record>) { forall i :: 0 <= i < |rs| ==> Storable(rs[i]) }

  /**
   nsm_insert_monitored_host (file.c:745-801): a record that is too long is
   refused, the others go to the end of the file, which may be new.
   */
  method Insert(file: Option<string>, r: Record) returns (after: Option<string>)
    requires |r.args| == 4 && |r.priv| == SM_PRIV_SIZE
    ensures |Print(r)| >= LINEBUF ==> after == file
    ensures |Print(r)| < LINEBUF ==> after == Some((if file.None? then "" else file.value) + Print(r))
  {
    var text := CreateRecord(r, LINEBUF);
    if text.None? {
      return file;
    }
    match file
    case None => after := Some(text.value); assert "" + text.value == text.value;
    case Some(content) => after := Some(content + text.value);
  }

  lemma {:induction false} AppendedFile(rs: seq<Record>, r: Record)
    ensures PrintAll(rs) + Print(r) == PrintAll(rs + [r])
  {
    hide Print;
    if rs == [] {
      assert rs + [r] == [r] && PrintAll([r]) == Print(r) + PrintAll([]);
    } else {
      assert (rs + [r])[1..] == rs[1..] + [r];
      AppendedFile(rs[1..], r);
    }
  }

  // ----- deleting ----------------------------------------------------------

  /** What one fgets into the line buffer reads. */
  function FirstLine(s: string): (l: string)
    requires s != ""
    ensures 0 < |l| <= |s| && l == s[..|l|]
  {
    var chunk := if |s| < LINEBUF then s else s[..LINEBUF - 1];
    var l := UpTo(chunk, '\n');
    if |l| < |chunk| then chunk[..|l| + 1] else chunk
  }

  predicate IsFor(r: Record, mon: string, my: string) { r.monName == mon && r.myName == my }

  /** What is left of a file, given room for `room` bytes; nothing when a line cannot be parsed or copied. */
  function Remaining(s: string, room: nat, mon: string, my: string): Option<string>
    decreases |s|
  {
    if s == "" then Some("")
    else
      var line := FirstLine(s);
      match Parse(line)
      case None => None
      case Some(r) =>
        if IsFor(r, mon, my) then Remaining(s[|line|..], room, mon, my)
        else if |Print(r)| >= room then None
        else
          match Remaining(s[|line|..], room - |Print(r)|, mon, my)
          case None => None
          case Some(rest) => Some(Print(r) + rest)
  }

  datatype Outcome = Untouched | Unlinked | Rewritten(text: string)

  lemma ParseShape(text: string)
    requires Parse(text).Some?
    ensures |Parse(text).value.args| == 4 && |Parse(text).value.priv| == SM_PRIV_SIZE
  {
    ScanArgsLength(UpTo(text, '\n'), 4);
    ScanPrivLength(UpTo(text, '\n')[RPCARGSLEN..], SM_PRIV_SIZE);
  }

  lemma {:induction false} ScanArgsLength(s: string, n: nat)
    requires ScanArgs(s, n).Some?
    ensures |ScanArgs(s, n).value| == n
    decreases n
  {
    if n > 0 { ScanArgsLength(SkipSpace(s)[|TakeHex(SkipSpace(s), 8)|..], n - 1); }
  }

  lemma {:induction false} ScanPrivLength(s: string, n: nat)
    requires ScanPriv(s, n).Some?
    ensures |ScanPriv(s, n).value| == n
  {
    if n > 0 { ScanPrivLength(s[2..], n - 1); }
  }

  /** nsm_delete_host (file.c:971-1063) on the content of the file. */
  method DeleteHost(content: string, mon: string, my: string) returns (outcome: Outcome)
    ensures outcome ==
              match Remaining(content, |content| + 1, mon, my)
              case None => Untouched
              case Some(text) => if text == "" then Unlinked else Rewritten(text)
  {
    hide Parse, Print, FirstLine;
    var rest, out, remaining: nat := content, "", |content| + 1;
    ghost var goal := Remaining(content, |content| + 1, mon, my);
    assert goal.Some? ==> "" + goal.value == goal.value;
    while rest != ""
      invariant match Remaining(rest, remaining, mon, my)
                case None => goal == None
                case Some(text) => goal == Some(out + text)
      decreases |rest|
    {
      var line := FirstLine(rest);
      rest := rest[|line|..];
      var r := Parse(line);
      if r.None? {
        return Untouched;
      }
      if IsFor(r.value, mon, my) {
        continue;
      }
      ParseShape(line);
      var text := CreateRecord(r.value, remaining);
      if text.None? {
        return Untouched;
      }
      ghost var tail := Remaining(rest, remaining - |text.value|, mon, my);
      assert tail.Some? ==> out + (text.value + tail.value) == out + text.value + tail.value;
      out, remaining := out + text.value, remaining - |text.value|;
    }
    assert out + "" == out;
    if out != "" {
      return Rewritten(out);
    }
    return Unlinked;
  }

  function Without(rs: seq<Record>, mon: string, my: string): seq<Record> {
    if rs == [] then []
    else if IsFor(rs[0], mon, my) then Without(rs[1..], mon, my)
    else [rs[0]] + Without(rs[1..], mon, my)
  }

  lemma FirstLineIsRecord(r: Record, rest: string)
    requires Storable(r)
    ensures FirstLine(Print(r) + rest) == Print(r)
  {
    hide Print;
    PrintIsLine(r);
    var s := Print(r) + rest;
    var chunk := if |s| < LINEBUF then s else s[..LINEBUF - 1];
    var line := Line(r);
    assert |chunk| >= |line| + 1 && chunk[..|line|] == line && chunk[|line|] == '\n';
    UpToIs(chunk, '\n', line);
    assert chunk[..|line| + 1] == Print(r);
  }

  lemma {:induction false} RemainingRecords(rs: seq<Record>, room: nat, mon: string, my: string)
    requires AllStorable(rs) && |PrintAll(rs)| < room
    ensures Remaining(PrintAll(rs), room, mon, my) == Some(PrintAll(Without(rs, mon, my)))
  {
    hide Print, Parse, FirstLine;
    if rs != [] {
      var rest := PrintAll(rs[1..]);
      assert Storable(rs[0]);
      PrintIsLine(rs[0]);
      FirstLineIsRecord(rs[0], rest);
      ParsePrinted(rs[0]);
      assert (Print(rs[0]) + rest)[|Print(rs[0])|..] == rest;
      RemainingRecords(rs[1..], if IsFor(rs[0], mon, my) then room else room - |Print(rs[0])|, mon, my);
      assert ([rs[0]] + Without(rs[1..], mon, my))[1..] == Without(rs[1..], mon, my);
    }
  }

  lemma {:induction false} PrintedIsNotEmpty(rs: seq<Record>)
    ensures PrintAll(rs) == "" <==> rs == []
  {
  }

  /**
   Deleting a pair from a file of inserted records leaves exactly the other
   records, in order and byte for byte; the file goes exactly when none are
   left, and there is always room for the copy.
   */
  lemma DeleteLeavesTheOthers(rs: seq<Record>, mon: string, my: string)
    requires AllStorable(rs)
    ensures Remaining(PrintAll(rs), |PrintAll(rs)| + 1, mon, my) == Some(PrintAll(Without(rs, mon, my)))
    ensures PrintAll(Without(rs, mon, my)) == "" <==> forall i :: 0 <= i < |rs| ==> IsFor(rs[i], mon, my)
  {
    hide Print, Parse, FirstLine, Remaining, Without, PrintAll;
    RemainingRecords(rs, |PrintAll(rs)| + 1, mon, my);
    PrintedIsNotEmpty(Without(rs, mon, my));
    WithoutIsEmpty(rs, mon, my);
  }

  lemma {:induction false} WithoutIsEmpty(rs: seq<Record>, mon: string, my: string)
    ensures Without(rs, mon, my) == [] <==> forall i :: 0 <= i < |rs| ==> IsFor(rs[i], mon, my)
  {
    if rs != [] {
      WithoutIsEmpty(rs[1..], mon, my);
      assert (forall i :: 0 <= i < |rs| ==> IsFor(rs[i], mon, my))
        <==> IsFor(rs[0], mon, my) && forall i :: 0 <= i < |rs[1..]| ==> IsFor(rs[1..][i], mon, my);
    }
  }

  /** One record is removed exactly when both its names are those given. */
  lemma WithoutOne(r: Record, mon: string, my: string)
    ensures Without([r], mon, my) == if r.monName == mon && r.myName == my then [] else [r]
  {
  }

  /** Records are removed or kept one by one. */
  lemma {:induction false} WithoutConcat(a: seq<Record>, b: seq<Record>, mon: string, my: string)
    ensures Without(a + b, mon, my) == Without(a, mon, my) + Without(b, mon, my)
  {
    if a == [] {
      assert a + b == b;
    } else {
      assert (a + b)[1..] == a[1..] + b;
      WithoutConcat(a[1..], b, mon, my);
    }
  }

  /** Numbers are printed in lower-case hex digits, the last digit last. */
  lemma {:induction false} LowerCaseHex(v: nat, width: nat)
    ensures forall i :: 0 <= i < width ==> PrintHex(v, width)[i] in "0123456789abcdef"
    ensures width > 0 ==> PrintHex(v, width)[width - 1] == "0123456789abcdef"[v % 16]
  {
    if width > 0 {
      LowerCaseHex(v / 16, width - 1);
      HexDigitIs(v % 16);
    }
  }
}
