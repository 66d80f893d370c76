/** Pieces of C strings: bytes and hex digits, a text up to a separator, and texts joined by one. */
module CStrings {

  predicate IsByte(c: char) { c as int < 256 }

  /** A plain char is a signed byte; what is not a byte only gets a place of its own. */
  function Signed(c: char): int {
    if c as int < 128 then c as int else if IsByte(c) then c as int - 256 else c as int - 0x11_0100
  }

  predicate IsDigit(c: char) { '0' <= c <= '9' }

  /** isxdigit. */
  predicate IsHex(c: char) { IsDigit(c) || 'a' <= c <= 'f' || 'A' <= c <= 'F' }

  function HexValue(c: char): (v: nat)
    requires IsHex(c)
    ensures v < 16
  {
    if IsDigit(c) then c as int - '0' as int
    else if 'a' <= c <= 'f' then c as int - 'a' as int + 10
    else c as int - 'A' as int + 10
  }

  /** The lower-case hex digit of a value. */
  function HexDigit(v: nat): (c: char)
    requires v < 16
    ensures IsHex(c) && HexValue(c) == v
  {
    if v < 10 then ('0' as int + v) as char else ('a' as int + v - 10) as char
  }

  lemma HexDigitIs(v: nat)
    requires v < 16
    ensures HexDigit(v) == "0123456789abcdef"[v]
  {
  }

  /** The same character, or the two cases of one ASCII letter. */
  predicate SameLetter(a: char, b: char) {
    || a == b
    || ('A' <= a <= 'Z' && b as int == a as int + 32)
    || ('A' <= b <= 'Z' && a as int == b as int + 32)
  }

  /** A hex digit has its value in either case. */
  lemma HexValueIs(c: char)
    requires IsHex(c)
    ensures SameLetter(c, "0123456789abcdef"[HexValue(c)])
  {
  }

  /** A text up to its first `c`, or all of it (strchr, strsep). */
  function UpTo(s: string, c: char): (r: string)
    ensures c !in r && |r| <= |s| && r == s[..|r|] && (|r| < |s| ==> s[|r|] == c)
  {
    if s == "" || s[0] == c then "" else [s[0]] + UpTo(s[1..], c)
  }

  lemma UpToIs(s: string, c: char, r: string)
    requires c !in r && |r| <= |s| && r == s[..|r|] && (|r| < |s| ==> s[|r|] == c)
    ensures UpTo(s, c) == r
  {
    assert |UpTo(s, c)| == |r|;
  }

  function Join(parts: seq<string>, c: char): string {
    if parts == [] then "" else if |parts| == 1 then parts[0] else parts[0] + [c] + Join(parts[1..], c)
  }

  lemma JoinFirst(parts: seq<string>, c: char)
    requires parts != [] && c !in parts[0]
    ensures UpTo(Join(parts, c), c) == parts[0]
    ensures |parts| == 1 ==> Join(parts, c) == parts[0]
    ensures |parts| > 1 ==> Join(parts, c)[|parts[0]|..] == [c] + Join(parts[1..], c)
  {
    if |parts| == 1 {
      UpToIs(parts[0], c, parts[0]);
    } else {
      var s := parts[0] + [c] + Join(parts[1..], c);
      assert Join(parts, c) == s && s[..|parts[0]|] == parts[0] && s[|parts[0]|] == c;
      assert s[|parts[0]|..] == [c] + Join(parts[1..], c);
      UpToIs(s, c, parts[0]);
    }
  }

  /** The pieces of a list in which strsep finds `c`: one more than there are separators. */
  function Split(s: string, c: char): (r: seq<string>)
    ensures r != []
    decreases |s|
  {
    var h := UpTo(s, c);
    if |h| == |s| then [h] else [h] + Split(s[|h| + 1..], c)
  }

  lemma {:induction false} SplitJoined(parts: seq<string>, c: char)
    requires parts != [] && forall i :: 0 <= i < |parts| ==> c !in parts[i]
    ensures Split(Join(parts, c), c) == parts
  {
    JoinFirst(parts, c);
    if |parts| > 1 {
      var s := Join(parts, c);
      assert s[|parts[0]| + 1..] == Join(parts[1..], c);
      SplitJoined(parts[1..], c);
      assert parts == [parts[0]] + parts[1..];
    }
  }

  /** Joining undoes splitting; no piece holds the separator. */
  lemma {:induction false} JoinSplit(s: string, c: char)
    ensures Join(Split(s, c), c) == s && forall i :: 0 <= i < |Split(s, c)| ==> c !in Split(s, c)[i]
    decreases |s|
  {
    var h := UpTo(s, c);
    if |h| < |s| {
      var rest := s[|h| + 1..];
      JoinSplit(rest, c);
      assert Split(s, c)[1..] == Split(rest, c);
      assert s == h + [c] + rest;
    }
  }
}
