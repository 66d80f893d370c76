/**
 Unit names for paths (systemd/systemd.c).  `UnitName` is the rule of
 systemd.unit(5) on a list of components; the methods are the source's two
 loops, one that computes the length to allocate and one that writes.
 */
module Systemd {
  import opened CStrings
  import opened Paths

  ghost predicate Bytes(s: string) { forall i :: 0 <= i < |s| ==> IsByte(s[i]) }

  ghost predicate AllBytes(cs: seq<string>) { forall i :: 0 <= i < |cs| ==> Bytes(cs[i]) }

  // ----- the rule ----------------------------------------------------------

  const HEX := "0123456789abcdef"

  function Hexify(c: char): (s: string)
    ensures |s| == 4
  {
    ['\\', 'x', HEX[c as int / 16 % 16], HEX[c as int % 16]]
  }

  predicate IsAlnum(c: char) { IsDigit(c) || 'a' <= c <= 'z' || 'A' <= c <= 'Z' }

  predicate Plain(c: char) { IsAlnum(c) || c == ':' || c == '.' || c == '_' }

  function EscapeChar(c: char): (s: string)
    ensures |s| == 1 || |s| == 4
  {
    if Plain(c) then [c] else Hexify(c)
  }

  function EscapeName(s: string): string {
    if s == [] then "" else EscapeChar(s[0]) + EscapeName(s[1..])
  }

  /** A dot is escaped when it comes first in the whole name. */
  function EscapeLead(s: string): string {
    if s != [] && s[0] == '.' then Hexify('.') + EscapeName(s[1..]) else EscapeName(s)
  }

  /** The later components, each behind a dash. */
  function EscapeRest(cs: seq<string>): string {
    if cs == [] then "" else "-" + EscapeName(cs[0]) + EscapeRest(cs[1..])
  }

  function UnitName(cs: seq<string>): string {
    if cs == [] then "-" else EscapeLead(cs[0]) + EscapeRest(cs[1..])
  }

  // ----- reading it back ---------------------------------------------------

  /** Dashes stand for slashes and escapes for the character they name. */
  function Unescape(s: string): string {
    if s == "" then ""
    else if s[0] == '-' then "/" + Unescape(s[1..])
    else if 4 <= |s| && s[0] == '\\' && s[1] == 'x' && IsHex(s[2]) && IsHex(s[3]) then
      [(16 * HexValue(s[2]) + HexValue(s[3])) as char] + Unescape(s[4..])
    else [s[0]] + Unescape(s[1..])
  }

  lemma HexTable(d: int)
    requires 0 <= d < 16
    ensures IsHex(HEX[d]) && HexValue(HEX[d]) == d
  {
  }

  lemma UnescapeHex(c: char, rest: string)
    requires IsByte(c)
    ensures Unescape(Hexify(c) + rest) == [c] + Unescape(rest)
  {
    hide HexValue;
    var s := Hexify(c) + rest;
    assert s[0] == '\\' && s[1] == 'x' && s[2] == HEX[c as int / 16] && s[3] == HEX[c as int % 16];
    assert s[4..] == rest;
    HexTable(c as int / 16);
    HexTable(c as int % 16);
  }

  lemma UnescapeChar(c: char, rest: string)
    requires IsByte(c)
    ensures Unescape(EscapeChar(c) + rest) == [c] + Unescape(rest)
  {
    if Plain(c) {
      assert ([c] + rest)[1..] == rest;
    } else {
      UnescapeHex(c, rest);
    }
  }

  lemma {:induction false} UnescapeName(s: string, rest: string)
    requires Bytes(s)
    ensures Unescape(EscapeName(s) + rest) == s + Unescape(rest)
  {
    hide Unescape, EscapeChar;
    if s == [] {
      assert EscapeName(s) + rest == rest;
    } else {
      assert EscapeName(s) + rest == EscapeChar(s[0]) + (EscapeName(s[1..]) + rest);
      UnescapeChar(s[0], EscapeName(s[1..]) + rest);
      UnescapeName(s[1..], rest);
      assert s == [s[0]] + s[1..];
    }
  }

  lemma UnescapeLead(s: string, rest: string)
    requires Bytes(s)
    ensures Unescape(EscapeLead(s) + rest) == s + Unescape(rest)
  {
    hide Unescape, Hexify, EscapeName;
    if s != [] && s[0] == '.' {
      assert EscapeLead(s) + rest == Hexify('.') + (EscapeName(s[1..]) + rest);
      UnescapeHex('.', EscapeName(s[1..]) + rest);
      UnescapeName(s[1..], rest);
      assert s == ['.'] + s[1..];
    } else {
      UnescapeName(s, rest);
    }
  }

  lemma UnescapeNothing()
    ensures Unescape("") == ""
  {
  }

  lemma UnescapeDash(rest: string)
    ensures Unescape("-" + rest) == "/" + Unescape(rest)
  {
    assert ("-" + rest)[1..] == rest;
  }

  lemma {:induction false} UnescapeRest(cs: seq<string>)
    requires AllBytes(cs)
    ensures Unescape(EscapeRest(cs)) == Slashed(cs)
  {
    hide Unescape, EscapeName;
    UnescapeNothing();
    if cs != [] {
      var tail := EscapeName(cs[0]) + EscapeRest(cs[1..]);
      assert EscapeRest(cs) == "-" + tail;
      UnescapeDash(tail);
      UnescapeName(cs[0], EscapeRest(cs[1..]));
      UnescapeRest(cs[1..]);
      assert "/" + (cs[0] + Slashed(cs[1..])) == "/" + cs[0] + Slashed(cs[1..]);
    }
  }

  /** Unescaping gives the components joined by single slashes, and "/" for the root. */
  lemma UnescapeUnitName(cs: seq<string>)
    requires AllBytes(cs)
    ensures Unescape(UnitName(cs)) == if cs == [] then "/" else cs[0] + Slashed(cs[1..])
  {
    if cs == [] {
      assert "-"[1..] == "";
    } else {
      UnescapeLead(cs[0], EscapeRest(cs[1..]));
      UnescapeRest(cs[1..]);
    }
  }

  /** The components of some path. */
  ghost predicate AreComponents(cs: seq<string>) {
    forall i :: 0 <= i < |cs| ==> cs[i] != "" && '/' !in cs[i]
  }

  lemma {:induction false} ComponentsOfSlashed(cs: seq<string>)
    requires AreComponents(cs)
    ensures Components(Slashed(cs)) == cs
  {
    if cs != [] {
      var tail := cs[0] + Slashed(cs[1..]);
      assert Slashed(cs) == "/" + tail;
      ComponentsSkipSlash(tail);
      ComponentsOfPiece(cs[0], Slashed(cs[1..]));
      ComponentsOfSlashed(cs[1..]);
    }
  }

  /** A unit name can be read back: its path has the components it was made from. */
  lemma UnitNameRoundTrip(cs: seq<string>)
    requires AreComponents(cs) && AllBytes(cs)
    ensures Components(Unescape(UnitName(cs))) == cs
  {
    UnescapeUnitName(cs);
    if cs == [] {
      assert "/"[1..] == "";
    } else {
      ComponentsOfPiece(cs[0], Slashed(cs[1..]));
      ComponentsOfSlashed(cs[1..]);
    }
  }

  // ----- the loops ---------------------------------------------------------

  function SkipSlashes(s: string): (r: string)
    ensures |r| <= |s| && (r != [] ==> r[0] != '/')
  {
    if s != [] && s[0] == '/' then SkipSlashes(s[1..]) else s
  }

  /** What the writing loop puts out for the rest of a path. */
  function Output(s: string): string
    decreases |s|
  {
    if s == [] then ""
    else if s[0] == '/' then
      var r := SkipSlashes(s[1..]);
      if r == [] then "" else "-" + Output(r)
    else EscapeChar(s[0]) + Output(s[1..])
  }

  function Whole(path: string): string {
    var s := SkipSlashes(path);
    if s == [] then "-" else if s[0] == '.' then Hexify('.') + Output(s[1..]) else Output(s)
  }

  lemma {:induction false} SkipKeepsComponents(s: string)
    ensures Components(SkipSlashes(s)) == Components(s)
  {
    if s != [] && s[0] == '/' { SkipKeepsComponents(s[1..]); }
  }

  lemma {:induction false} ComponentsAreComponents(s: string)
    ensures AreComponents(Components(s)) && (Bytes(s) ==> AllBytes(Components(s)))
    decreases |s|
  {
    if s == "" {
    } else if s[0] == '/' {
      ComponentsAreComponents(s[1..]);
    } else {
      ComponentsAreComponents(s[|First(s)|..]);
    }
  }

  /** The writing loop escapes the piece it is in and puts a dash before each later one. */
  lemma {:induction false} OutputIs(s: string)
    ensures Output(s) == EscapeName(First(s)) + EscapeRest(Components(s[|First(s)|..]))
    decreases |s|
  {
    hide EscapeChar, SkipSlashes, Components;
    if s == "" {
      assert Components("") == [] by { NoComponents(); }
    } else if s[0] == '/' {
      var r := SkipSlashes(s[1..]);
      ComponentsAfterSlash(s);
      if r != "" { OutputIs(r); }
    } else {
      OutputIs(s[1..]);
      FirstAndRest(s);
      assert First(s)[0] == s[0];
    }
  }

  lemma NoComponents()
    ensures Components("") == []
  {
  }

  /** Behind a slash come the piece that follows all slashes and its own rest. */
  lemma ComponentsAfterSlash(s: string)
    requires s != "" && s[0] == '/'
    ensures First(s) == "" && s[|First(s)|..] == s
    ensures var r := SkipSlashes(s[1..]);
            Components(s) == if r == "" then [] else [First(r)] + Components(r[|First(r)|..])
  {
    SkipKeepsComponents(s[1..]);
  }

  lemma FirstAndRest(s: string)
    requires s != "" && s[0] != '/'
    ensures First(s) == [s[0]] + First(s[1..]) && First(s)[1..] == First(s[1..])
    ensures s[|First(s)|..] == s[1..][|First(s[1..])|..]
  {
  }

  lemma WholeIsUnitName(path: string)
    ensures Whole(path) == UnitName(Components(path))
  {
    var s := SkipSlashes(path);
    SkipKeepsComponents(path);
    if s != "" {
      OutputIs(s);
      if s[0] == '.' {
        OutputIs(s[1..]);
        FirstAndRest(s);
      }
    }
  }

  /** systemd_len (systemd.c:22-61): exact, but one more than needed for a leading dot. */
  method SystemdLen(path: string) returns (len: nat)
    ensures len == |UnitName(Components(path))| + if SkipSlashes(path) != ""
              && SkipSlashes(path)[0] == '.' then 1 else 0
  {
    WholeIsUnitName(path);
    hide UnitName, Components, Output, Hexify, SkipSlashes;
    var p := SkipAll(path, 0);
    assert path[0..] == path;
    if p == |path| {
      return 1;
    }
    var lead := if path[p] == '.' then 4 else 0;
    ghost var rest := path[p..];
    len := CountRest(path, p);
    if rest[0] == '.' {
      OutputStep(path, p, p + 1);
      assert rest[1..] == path[p + 1..];
    }
    len := lead + len;
  }

  /** The counting loop (systemd.c:43-58). */
  method CountRest(path: string, from: nat) returns (len: nat)
    requires from <= |path|
    ensures len == |Output(path[from..])|
  {
    hide Output, SkipSlashes;
    len := 0;
    var p := from;
    while p < |path|
      invariant p <= |path| && len + |Output(path[p..])| == |Output(path[from..])|
      decreases |path| - p
    {
      var c, at := path[p], p;
      p := p + 1;
      if c == '/' {
        p := SkipAll(path, p);
        if p < |path| {
          len := len + 1;
        }
      } else if Plain(c) {
        len := len + 1;
      } else {
        len := len + 4;
      }
      OutputStep(path, at, p);
    }
    OutputOfNothing();
    assert path[p..] == "";
  }

  /** The inner loop that passes over slashes. */
  method SkipAll(path: string, from: nat) returns (p: nat)
    requires from <= |path|
    ensures from <= p <= |path| && path[p..] == SkipSlashes(path[from..])
  {
    p := from;
    while p < |path| && path[p] == '/'
      invariant from <= p <= |path| && SkipSlashes(path[p..]) == SkipSlashes(path[from..])
    {
      assert path[p..][1..] == path[p + 1..];
      p := p + 1;
    }
  }

  /** hexify (systemd.c:67-74). */
  method PutHex(c: char, buf: array<char>, p: nat) returns (next: nat)
    requires p + 4 <= buf.Length
    modifies buf
    ensures next == p + 4 && buf[..next] == old(buf[..p]) + Hexify(c)
  {
    buf[p], buf[p + 1], buf[p + 2], buf[p + 3] := '\\', 'x', HEX[c as int / 16 % 16], HEX[c as int % 16];
    next := p + 4;
    assert buf[..p] == old(buf[..p]);
  }

  method PutChar(c: char, buf: array<char>, p: nat) returns (next: nat)
    requires p < buf.Length
    modifies buf
    ensures next == p + 1 && buf[..next] == old(buf[..p]) + [c]
  {
    buf[p] := c;
    next := p + 1;
    assert buf[..p] == old(buf[..p]);
  }

  /** One round of the writing loop at path[i]: what it writes, and where it goes on. */
  lemma OutputStep(path: string, i: nat, next: nat)
    requires i < |path|
    requires if path[i] == '/' then next <= |path| && path[next..] == SkipSlashes(path[i + 1..]) else next == i + 1
    ensures Output(path[i..]) ==
              if path[i] != '/' then EscapeChar(path[i]) + Output(path[next..])
              else if next < |path| then "-" + Output(path[next..]) else Output(path[next..])
  {
    assert path[i..][1..] == path[i + 1..];
  }

  /** The main loop (systemd.c:114-129): it never writes past what the rule needs. */
  method PutRest(path: string, from: nat, buf: array<char>, start: nat) returns (p: nat)
    requires from <= |path| && start + |Output(path[from..])| <= buf.Length
    modifies buf
    ensures p == start + |Output(path[from..])| && buf[..p] == old(buf[..start]) + Output(path[from..])
  {
    hide Output, EscapeChar, Hexify, SkipSlashes;
    ghost var goal := buf[..start] + Output(path[from..]);
    p := start;
    var i := from;
    ghost var done := buf[..start];
    while i < |path|
      invariant i <= |path| && p <= |goal| <= buf.Length
      invariant done == buf[..p] && done + Output(path[i..]) == goal
      decreases |path| - i
    {
      i, p, done := PutOne(path, i, buf, p, goal);
    }
    OutputOfNothing();
    assert path[i..] == "" && done + "" == done;
  }

  lemma OutputOfNothing()
    ensures Output("") == ""
  {
  }

  method PutOne(path: string, i: nat, buf: array<char>, p: nat, ghost goal: string)
    returns (next: nat, q: nat, ghost done: string)
    requires i < |path| && p <= |goal| <= buf.Length && buf[..p] + Output(path[i..]) == goal
    modifies buf
    ensures i < next <= |path| && q <= |goal| && done == buf[..q] && done + Output(path[next..]) == goal
  {
    hide Output, EscapeChar, SkipSlashes;
    var c := path[i];
    ghost var before := buf[..p];
    next, q := i + 1, p;
    if c == '/' {
      next := SkipAll(path, next);
      OutputStep(path, i, next);
      if next < |path| {
        q := PutChar('-', buf, q);
        assert before + ("-" + Output(path[next..])) == before + "-" + Output(path[next..]);
      }
    } else {
      OutputStep(path, i, next);
      assert before + (EscapeChar(c) + Output(path[next..])) == before + EscapeChar(c) + Output(path[next..]);
      q := PutEscaped(c, buf, q);
    }
    done := buf[..q];
  }

  method PutEscaped(c: char, buf: array<char>, p: nat) returns (q: nat)
    requires p + |EscapeChar(c)| <= buf.Length
    modifies buf
    ensures q == p + |EscapeChar(c)| && buf[..q] == old(buf[..p]) + EscapeChar(c)
  {
    hide Hexify;
    if Plain(c) {
      q := PutChar(c, buf, p);
    } else {
      q := PutHex(c, buf, p);
    }
  }

  /** The name itself (systemd.c:99-129). */
  method PutName(path: string, buf: array<char>) returns (p: nat)
    requires |Whole(path)| <= buf.Length
    modifies buf
    ensures p == |Whole(path)| && buf[..p] == Whole(path)
  {
    hide Output, Hexify;
    var i := SkipAll(path, 0);
    assert path[0..] == path;
    if i == |path| {
      p := PutChar('-', buf, 0);
    } else if path[i] == '.' {
      assert path[i..][1..] == path[i + 1..];
      p := PutHex('.', buf, 0);
      p := PutRest(path, i + 1, buf, p);
    } else {
      p := PutRest(path, i, buf, 0);
    }
  }

  /**
   systemd_escape (systemd.c:90-134): the unit name, the suffix and a
   terminator fit the buffer allocated for them.
   */
  method SystemdEscape(path: string, suffix: string) returns (result: array<char>)
    ensures fresh(result)
    ensures var name := UnitName(Components(path)) + suffix;
            |name| < result.Length && result[..|name| + 1] == name + ['\0']
  {
    WholeIsUnitName(path);
    hide Whole, UnitName;
    var len := SystemdLen(path);
    result := new char[len + |suffix| + 1](_ => '\0');
    var p := PutName(path, result);
    p := PutSuffix(suffix, result, p);
  }

  /** The final sprintf. */
  method PutSuffix(suffix: string, buf: array<char>, start: nat) returns (p: nat)
    requires start + |suffix| < buf.Length
    modifies buf
    ensures p == start + |suffix| + 1 && buf[..p] == old(buf[..start]) + suffix + ['\0']
  {
    for k := 0 to |suffix|
      invariant buf[..start + k] == old(buf[..start]) + suffix[..k]
    {
      buf[start + k] := suffix[k];
      assert buf[..start + k + 1] == buf[..start + k] + [suffix[k]];
    }
    buf[start + |suffix|] := '\0';
    p := start + |suffix| + 1;
    assert suffix[..|suffix|] == suffix;
    assert buf[..p] == buf[..start + |suffix|] + ['\0'];
  }

  /** Two paths share a unit name exactly when they have the same components. */
  lemma SameUnitName(a: string, b: string)
    requires Bytes(a) && Bytes(b)
    ensures UnitName(Components(a)) == UnitName(Components(b)) <==> Components(a) == Components(b)
  {
    ComponentsAreComponents(a);
    ComponentsAreComponents(b);
    UnitNameRoundTrip(Components(a));
    UnitNameRoundTrip(Components(b));
  }

  // ----- what a unit name looks like ---------------------------------------

  /** The characters systemd allows in a name. */
  predicate Allowed(c: char) {
    '0' <= c <= '9' || 'a' <= c <= 'z' || 'A' <= c <= 'Z' || c == ':' || c == '_' || c == '.' || c == '\\' || c == '-'
  }

  ghost predicate AllAllowed(s: string) { forall i :: 0 <= i < |s| ==> Allowed(s[i]) }

  lemma EscapeIsAllowed(c: char)
    ensures AllAllowed(EscapeChar(c)) && AllAllowed(Hexify(c))
  {
    HexTable(c as int / 16 % 16);
    HexTable(c as int % 16);
  }

  lemma {:induction false} NameIsAllowed(s: string)
    ensures AllAllowed(EscapeName(s))
  {
    if s != "" {
      EscapeIsAllowed(s[0]);
      NameIsAllowed(s[1..]);
    }
  }

  lemma {:induction false} RestIsAllowed(cs: seq<string>)
    ensures AllAllowed(EscapeRest(cs))
  {
    if cs != [] {
      NameIsAllowed(cs[0]);
      RestIsAllowed(cs[1..]);
    }
  }

  /** A unit name is made of allowed characters, is never empty and never starts with a dot. */
  lemma UnitNameIsAllowed(cs: seq<string>)
    requires AreComponents(cs)
    ensures AllAllowed(UnitName(cs)) && UnitName(cs) != "" && UnitName(cs)[0] != '.'
  {
    if cs != [] {
      EscapeIsAllowed('.');
      NameIsAllowed(cs[0]);
      NameIsAllowed(cs[0][1..]);
      RestIsAllowed(cs[1..]);
    }
  }

  /** A name of letters, digits, colons, underscores and dots. */
  ghost predicate Ordinary(s: string) {
    forall i :: 0 <= i < |s| ==> Allowed(s[i]) && s[i] != '\\' && s[i] != '-'
  }

  lemma {:induction false} OrdinaryNameStays(s: string)
    requires Ordinary(s)
    ensures EscapeName(s) == s
  {
    if s != "" {
      OrdinaryNameStays(s[1..]);
      assert s == [s[0]] + s[1..];
    }
  }

  lemma {:induction false} OrdinaryRestIsJoined(cs: seq<string>)
    requires cs != [] && forall i :: 0 <= i < |cs| ==> Ordinary(cs[i])
    ensures cs[0] + EscapeRest(cs[1..]) == Join(cs, '-')
  {
    if |cs| > 1 {
      OrdinaryNameStays(cs[1]);
      OrdinaryRestIsJoined(cs[1..]);
      var rest := EscapeRest(cs[1..][1..]);
      assert EscapeRest(cs[1..]) == "-" + cs[1] + rest;
      assert cs[0] + ("-" + cs[1] + rest) == cs[0] + ['-'] + (cs[1] + rest);
    } else {
      assert cs[1..] == [];
    }
  }

  /** Ordinary components stay as they are, joined by dashes, unless the first starts with a dot. */
  lemma {:induction false} OrdinaryPathIsJoined(cs: seq<string>)
    requires cs != [] && (forall i :: 0 <= i < |cs| ==> Ordinary(cs[i])) && cs[0] != "" && cs[0][0] != '.'
    ensures UnitName(cs) == Join(cs, '-')
  {
    hide EscapeName, EscapeRest, Join, Ordinary;
    OrdinaryNameStays(cs[0]);
    OrdinaryRestIsJoined(cs);
  }
}
