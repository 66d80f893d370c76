/**
 The shell-style matcher of support/nfs/wildmat.c.

 A pattern denotes a sequence of tokens, and a token sequence denotes a set of
 texts; neither definition mentions the matcher.  `DoMatch` is the source's
 backtracking loop with its three answers, and `Match` the user-level routine.
 C strings are sequences without their terminator.
 */
module Wildmat {
  import opened Wrappers
  import opened CStrings

  datatype ClassItem = One(c: char) | Range(lo: char, hi: char)

  /** `Never` is a backslash with nothing behind it: the source compares the text with the terminator. */
  datatype Token = Literal(c: char) | AnyChar | Star | Class(negated: bool, items: seq<ClassItem>) | Never

  datatype Verdict = True | False | Abort

  /** toupper(3) in the C locale. */
  function Upper(c: char): char {
    if 'a' <= c <= 'z' then (c as int - 32) as char else c
  }

  // ----- what a pattern means ---------------------------------------------

  /** The items of a bracket expression up to its ']', and what follows it; `None` when it is never closed. */
  function ParseItems(s: string, last: char): (r: Option<(seq<ClassItem>, string)>)
    ensures r.Some? ==> |r.value.1| < |s|
  {
    if s == "" then None
    else if s[0] == ']' then Some(([], s[1..]))
    else if s[0] == '-' && 1 < |s| && s[1] != ']' then
      match ParseItems(s[2..], s[1]) {
        case None => None
        case Some(rest) => Some(([Range(last, s[1])] + rest.0, rest.1))
      }
    else
      match ParseItems(s[1..], s[0]) {
        case None => None
        case Some(rest) => Some(([One(s[0])] + rest.0, rest.1))
      }
  }

  /** A bracket expression behind its '[' and '^': a leading ']' or '-' stands for itself. */
  function ParseBody(s: string): (r: Option<(seq<ClassItem>, string)>)
    ensures r.Some? ==> |r.value.1| < |s|
  {
    if s != "" && (s[0] == ']' || s[0] == '-') then
      match ParseItems(s[1..], s[0]) {
        case None => None
        case Some(rest) => Some(([One(s[0])] + rest.0, rest.1))
      }
    else ParseItems(s, '[')
  }

  /** The first token of a pattern and the pattern behind it; `None` for an unclosed bracket. */
  function ParseToken(p: string): (r: Option<(Token, string)>)
    requires p != ""
    ensures r.Some? ==> |r.value.1| < |p|
  {
    match p[0]
    case '\\' => if |p| == 1 then Some((Never, "")) else Some((Literal(p[1]), p[2..]))
    case '?' => Some((AnyChar, p[1..]))
    case '*' => Some((Star, p[1..]))
    case '[' =>
      var negated := 1 < |p| && p[1] == '^';
      (match ParseBody(if negated then p[2..] else p[1..]) {
        case None => None
        case Some(body) => Some((Class(negated, body.0), body.1))
      })
    case c => Some((Literal(c), p[1..]))
  }

  function Parse(p: string): Option<seq<Token>>
    decreases |p|
  {
    if p == "" then Some([])
    else
      match ParseToken(p) {
        case None => None
        case Some((token, rest)) =>
          match Parse(rest) {
            case None => None
            case Some(tokens) => Some([token] + tokens)
          }
      }
  }

  /** Every bracket expression of the pattern is closed. */
  predicate WellFormed(p: string) { Parse(p).Some? }

  predicate ItemAccepts(item: ClassItem, c: char) {
    match item
    case One(x) => Upper(c) == Upper(x)
    case Range(lo, hi) => Signed(lo) <= Signed(c) <= Signed(hi)
  }

  predicate SomeItemAccepts(items: seq<ClassItem>, c: char) {
    exists i :: 0 <= i < |items| && ItemAccepts(items[i], c)
  }

  predicate Accepts(token: Token, c: char) {
    match token
    case Literal(x) => Upper(c) == Upper(x)
    case AnyChar => true
    case Class(negated, items) => SomeItemAccepts(items, c) != negated
    case _ => false
  }

  /** The texts a token sequence denotes. */
  ghost predicate Denotes(tokens: seq<Token>, text: string) {
    if tokens == [] then text == ""
    else if tokens[0].Star? then exists k :: 0 <= k <= |text| && Denotes(tokens[1..], text[k..])
    else text != "" && Accepts(tokens[0], text[0]) && Denotes(tokens[1..], text[1..])
  }

  /** `text` is in the language of the glob `p`. */
  ghost predicate InLanguage(p: string, text: string)
    requires WellFormed(p)
  {
    Denotes(Parse(p).value, text)
  }

  ghost predicate NoSuffixMatches(p: string, text: string)
    requires WellFormed(p)
  {
    forall k :: 0 <= k <= |text| ==> !InLanguage(p, text[k..])
  }

  // ----- the steps of the matcher -----------------------------------------

  lemma ParseHead(p: string)
    requires p != "" && WellFormed(p)
    ensures ParseToken(p).Some?
    ensures WellFormed(ParseToken(p).value.1)
    ensures Parse(p).value == [ParseToken(p).value.0] + Parse(ParseToken(p).value.1).value
  {
  }

  /** A token that stands for one character moves the question on by one character. */
  lemma SingleStep(p: string, text: string)
    requires p != "" && WellFormed(p) && ParseToken(p).Some?
    requires !ParseToken(p).value.0.Star?
    ensures WellFormed(ParseToken(p).value.1)
    ensures InLanguage(p, text) <==>
            text != "" && Accepts(ParseToken(p).value.0, text[0]) && InLanguage(ParseToken(p).value.1, text[1..])
  {
    ParseHead(p);
    var tokens := Parse(p).value;
    assert tokens[1..] == Parse(ParseToken(p).value.1).value;
  }

  /** If no suffix of the text's tail matches the pattern's tail, no suffix of the text matches the pattern. */
  lemma SingleStepAbort(p: string, text: string)
    requires p != "" && text != "" && WellFormed(p) && ParseToken(p).Some?
    requires !ParseToken(p).value.0.Star?
    requires WellFormed(ParseToken(p).value.1) && NoSuffixMatches(ParseToken(p).value.1, text[1..])
    ensures NoSuffixMatches(p, text)
  {
    forall k | 0 <= k <= |text| ensures !InLanguage(p, text[k..]) {
      SingleStep(p, text[k..]);
      if k < |text| {
        assert text[k..][1..] == text[1..][k..];
      }
    }
  }

  /** A pattern that needs a character cannot match the empty text. */
  lemma EmptyTextAborts(p: string)
    requires p != "" && WellFormed(p) && ParseToken(p).Some? && !ParseToken(p).value.0.Star?
    ensures NoSuffixMatches(p, "")
  {
    SingleStep(p, "");
  }

  lemma StarStep(p: string, text: string)
    requires p != "" && p[0] == '*' && WellFormed(p)
    ensures WellFormed(p[1..])
    ensures InLanguage(p, text) <==> exists k :: 0 <= k <= |text| && InLanguage(p[1..], text[k..])
  {
    ParseHead(p);
    var tokens := Parse(p).value;
    assert tokens[1..] == Parse(p[1..]).value;
  }

  lemma StarAbort(p: string, text: string)
    requires p != "" && p[0] == '*' && WellFormed(p) && WellFormed(p[1..])
    requires NoSuffixMatches(p[1..], text)
    ensures NoSuffixMatches(p, text)
  {
    forall k | 0 <= k <= |text| ensures !InLanguage(p, text[k..]) {
      StarStep(p, text[k..]);
      forall j | 0 <= j <= |text[k..]| ensures !InLanguage(p[1..], text[k..][j..]) {
        assert text[k..][j..] == text[k + j..];
      }
    }
  }

  /** Doubling a star adds nothing to the language. */
  lemma StarsCollapse(p: string, text: string)
    requires 2 <= |p| && p[0] == '*' && p[1] == '*' && WellFormed(p)
    ensures WellFormed(p[1..])
    ensures InLanguage(p, text) <==> InLanguage(p[1..], text)
  {
    StarStep(p, text);
    forall k | 0 <= k <= |text| ensures InLanguage(p[1..], text[k..]) ==> InLanguage(p[1..], text) {
      StarStep(p[1..], text[k..]);
      StarStep(p[1..], text);
      if InLanguage(p[1..], text[k..]) {
        var j :| 0 <= j <= |text[k..]| && InLanguage(p[1..][1..], text[k..][j..]);
        assert text[k..][j..] == text[k + j..];
      }
    }
    assert text[0..] == text;
  }

  lemma TrailingStar(text: string)
    ensures WellFormed("*") && InLanguage("*", text)
  {
    ParseHead("*");
    StarStep("*", text);
    assert "*"[1..] == "";
    assert InLanguage("", text[|text|..]);
  }

  // ----- the source's loops -----------------------------------------------

  /**
   The scan of a bracket expression from the character in front of the next
   item, `p[at]`, up to its ']' (wildmat.c:110-115).
   */
  method ScanItems(p: string, start: nat, c: char, hit: bool) returns (matched: bool, at: nat)
    requires start < |p| && ParseItems(p[start + 1..], p[start]).Some?
    ensures start < at < |p| && p[at] == ']'
    ensures p[at + 1..] == ParseItems(p[start + 1..], p[start]).value.1
    ensures matched <==> hit || SomeItemAccepts(ParseItems(p[start + 1..], p[start]).value.0, c)
  {
    hide ParseItems, SomeItemAccepts, Signed, Upper;
    NoItemAccepts(c);
    ghost var whole := ParseItems(p[start + 1..], p[start]).value;
    matched := hit;
    at := start;
    var last := p[at];
    at := at + 1;
    ghost var seen: seq<ClassItem> := [];
    while at < |p| && p[at] != ']'
      invariant start < at <= |p|
      invariant ParseItems(p[at..], last).Some?
      invariant whole.0 == seen + ParseItems(p[at..], last).value.0
      invariant whole.1 == ParseItems(p[at..], last).value.1
      invariant matched <==> hit || SomeItemAccepts(seen, c)
      decreases |p| - at
    {
      ghost var item := ItemStep(p, at, last, seen);
      if p[at] == '-' && (at + 1 == |p| || p[at + 1] != ']') {
        at := at + 1;
        if Signed(c) <= Signed(p[at]) && Signed(c) >= Signed(last) { matched := true; }
      } else {
        if Upper(c) == Upper(p[at]) { matched := true; }
      }
      last := p[at];
      at := at + 1;
      AppendItem(seen, item, c);
      seen := seen + [item];
    }
    ItemsEnd(p, at, last);
    assert seen + [] == seen;
  }

  lemma NoItemAccepts(c: char)
    ensures !SomeItemAccepts([], c)
  {
  }

  lemma ItemsEnd(p: string, at: nat, last: char)
    requires at <= |p| && ParseItems(p[at..], last).Some? && (at < |p| ==> p[at] == ']')
    ensures at < |p| && ParseItems(p[at..], last).value == ([], p[at + 1..])
  {
    assert at < |p| ==> p[at..][1..] == p[at + 1..];
  }

  /** One item of a bracket expression: what it is, and where the next one starts. */
  lemma ItemStep(p: string, at: nat, last: char, seen: seq<ClassItem>) returns (item: ClassItem)
    requires at < |p| && p[at] != ']' && ParseItems(p[at..], last).Some?
    ensures var range := p[at] == '-' && (at + 1 == |p| || p[at + 1] != ']');
            var end := if range then at + 1 else at;
            && end < |p|
            && item == (if range then Range(last, p[end]) else One(p[end]))
            && ParseItems(p[end + 1..], p[end]).Some?
            && ParseItems(p[at..], last).value.1 == ParseItems(p[end + 1..], p[end]).value.1
            && seen + ParseItems(p[at..], last).value.0
               == seen + [item] + ParseItems(p[end + 1..], p[end]).value.0
  {
    var s := p[at..];
    if p[at] == '-' && (at + 1 == |p| || p[at + 1] != ']') {
      assert s[2..] == p[at + 2..] && s[1] == p[at + 1];
      item := Range(last, p[at + 1]);
    } else {
      assert s[1..] == p[at + 1..];
      item := One(p[at]);
    }
  }

  lemma AppendItem(items: seq<ClassItem>, item: ClassItem, c: char)
    ensures SomeItemAccepts(items + [item], c) <==> SomeItemAccepts(items, c) || ItemAccepts(item, c)
  {
    if SomeItemAccepts(items, c) {
      var i :| 0 <= i < |items| && ItemAccepts(items[i], c);
      assert (items + [item])[i] == items[i];
    }
    assert (items + [item])[|items|] == item;
  }

  lemma PrependItem(items: seq<ClassItem>, item: ClassItem, c: char)
    ensures SomeItemAccepts([item] + items, c) <==> ItemAccepts(item, c) || SomeItemAccepts(items, c)
  {
    if SomeItemAccepts(items, c) {
      var i :| 0 <= i < |items| && ItemAccepts(items[i], c);
      assert ([item] + items)[i + 1] == items[i];
    }
    assert ([item] + items)[0] == item;
  }

  /** The bracket case of the matcher (wildmat.c:101-118): does it accept `c`, and where does it end? */
  method MatchClass(p: string, start: nat, c: char) returns (ok: bool, at: nat)
    requires start < |p| && p[start] == '['
    requires ParseToken(p[start..]).Some?
    ensures start < at < |p|
    ensures p[at + 1..] == ParseToken(p[start..]).value.1
    ensures ok <==> Accepts(ParseToken(p[start..]).value.0, c)
  {
    at := start;
    ghost var tail := p[start..];
    var reverse := at + 1 < |p| && p[at + 1] == '^';
    assert reverse <==> 1 < |tail| && tail[1] == '^';
    if reverse { at := at + 1; }
    ghost var body := if reverse then tail[2..] else tail[1..];
    assert body == p[at + 1..];
    var matched := false;
    if at + 1 < |p| && (p[at + 1] == ']' || p[at + 1] == '-') {
      at := at + 1;
      assert body[0] == p[at];
      assert body[1..] == p[at + 1..];
      if Upper(p[at]) == Upper(c) { matched := true; }
      PrependItem(ParseItems(body[1..], body[0]).value.0, One(body[0]), c);
    } else {
      LastUnused(body, p[at], '[');
    }
    matched, at := ScanItems(p, at, c, matched);
    ok := matched != reverse;
  }

  /** The character in front of a bracket body matters only to a body that starts with '-'. */
  lemma LastUnused(s: string, a: char, b: char)
    requires s == "" || s[0] != '-'
    ensures ParseItems(s, a) == ParseItems(s, b)
  {
  }

  /** Deciding `p1` on `t1` decides `p` on `text`, and so does aborting there. */
  ghost predicate Reduces(p: string, text: string, p1: string, t1: string)
    requires WellFormed(p)
  {
    && WellFormed(p1)
    && (InLanguage(p, text) <==> InLanguage(p1, t1))
    && (NoSuffixMatches(p1, t1) ==> NoSuffixMatches(p, text))
  }

  lemma TokenStep(p: string, text: string, i: nat, t: nat)
    requires i < |p| && t < |text| && p[i] != '*'
    requires WellFormed(p) && Reduces(p, text, p[i..], text[t..])
    ensures ParseToken(p[i..]).Some?
    ensures var (token, rest) := ParseToken(p[i..]).value;
            if Accepts(token, text[t]) then Reduces(p, text, rest, text[t + 1..]) else !InLanguage(p, text)
  {
    ParseHead(p[i..]);
    SingleStep(p[i..], text[t..]);
    assert text[t..][1..] == text[t + 1..];
    if NoSuffixMatches(ParseToken(p[i..]).value.1, text[t + 1..]) { SingleStepAbort(p[i..], text[t..]); }
  }

  lemma TextExhausted(p: string, text: string, i: nat)
    requires i < |p| && p[i] != '*' && WellFormed(p) && Reduces(p, text, p[i..], text[|text|..])
    ensures !InLanguage(p, text) && NoSuffixMatches(p, text)
  {
    ParseHead(p[i..]);
    EmptyTextAborts(p[i..]);
    assert text[|text|..] == "" && text[0..] == text;
  }

  lemma PatternExhausted(text: string)
    ensures WellFormed("") && (InLanguage("", text) <==> text == "")
  {
  }

  /** The token at `p[i]` when it is a character of its own, perhaps behind a backslash. */
  lemma PlainToken(p: string, i: nat)
    requires i < |p| && p[i] != '*' && p[i] != '['
    ensures ParseToken(p[i..]).Some?
    ensures var (token, rest) := ParseToken(p[i..]).value;
            var end := if p[i] == '\\' then i + 1 else i;
            if end == |p| then token == Never
            else rest == p[end + 1..] && token == if p[i] == '?' then AnyChar else Literal(p[end])
  {
    assert p[i..][1..] == p[i + 1..];
    if i + 1 < |p| { assert p[i..][2..] == p[i + 2..]; }
  }

  /**
   Match text and p (wildmat.c:68-127).  ABORT prunes the search: it is given
   only when no suffix of the text can match, so the star loop that returns it
   loses nothing.
   */
  method DoMatch(text: string, p: string) returns (r: Verdict)
    requires WellFormed(p)
    ensures r == True <==> InLanguage(p, text)
    ensures r == Abort ==> NoSuffixMatches(p, text)
    decreases |p|
  {
    hide InLanguage, NoSuffixMatches, WellFormed, ParseToken;
    var t, i := 0, 0;
    assert text[0..] == text && p[0..] == p;
    while i < |p|
      invariant 0 <= i <= |p| && 0 <= t <= |text|
      invariant Reduces(p, text, p[i..], text[t..])
      decreases |p| - i
    {
      if t == |text| && p[i] != '*' {
        TextExhausted(p, text, i);
        return Abort;
      }
      if p[i] == '*' {
        r := MatchStar(text, p, t, i);
        return;
      }
      TokenStep(p, text, i, t);
      if p[i] == '[' {
        var ok, at := MatchClass(p, i, text[t]);
        if !ok { return False; }
        i := at;
      } else {
        PlainToken(p, i);
        if p[i] != '?' {
          if p[i] == '\\' { i := i + 1; }
          if i == |p| || Upper(text[t]) != Upper(p[i]) { return False; }
        }
      }
      t, i := t + 1, i + 1;
    }
    PatternExhausted(text[t..]);
    assert p[i..] == "";
    r := if t == |text| then True else False;
  }

  /** The star case (wildmat.c:90-100): it answers TRUE or ABORT, never FALSE. */
  method MatchStar(text: string, p: string, t: nat, start: nat) returns (r: Verdict)
    requires t <= |text| && start < |p| && p[start] == '*' && WellFormed(p[start..])
    ensures r == True <==> InLanguage(p[start..], text[t..])
    ensures r != False
    ensures r == Abort ==> NoSuffixMatches(p[start..], text[t..])
    decreases |p| - start, 0
  {
    hide InLanguage, WellFormed;
    var i := start + 1;
    ghost var goal, s := p[start..], text[t..];
    while i < |p| && p[i] == '*'
      invariant start < i <= |p|
      invariant p[i - 1] == '*' && WellFormed(p[i - 1..])
      invariant forall x :: InLanguage(goal, x) <==> InLanguage(p[i - 1..], x)
      decreases |p| - i
    {
      ghost var stars := p[i - 1..];
      assert stars[1..] == p[i..];
      StarsCollapse(stars, "");
      forall x ensures InLanguage(stars, x) <==> InLanguage(p[i..], x) { StarsCollapse(stars, x); }
      i := i + 1;
    }
    ghost var star := p[i - 1..];
    assert star[1..] == p[i..];
    StarStep(star, s);
    if i == |p| {
      assert star == "*";
      TrailingStar(s);
      return True;
    }
    var rest := p[i..];
    var u := t;
    while u < |text|
      invariant t <= u <= |text|
      invariant forall k :: t <= k < u ==> !InLanguage(rest, text[k..])
      decreases |text| - u
    {
      var m := DoMatch(text[u..], rest);
      assert text[u..] == s[u - t..];
      if m == True { return True; }
      if m == Abort {
        forall k | 0 <= k <= |s| ensures !InLanguage(rest, s[k..]) {
          assert s[k..] == text[t + k..];
          if u <= t + k { assert text[t + k..] == text[u..][t + k - u..]; }
        }
        StarAbort(star, s);
        assert s[0..] == s;
        return Abort;
      }
      u := u + 1;
    }
    ParseHead(rest);
    EmptyTextAborts(rest);
    forall k | 0 <= k <= |s| ensures !InLanguage(rest, s[k..]) {
      assert s[k..] == text[t + k..];
      if k == |s| { assert s[k..] == ""[0..]; }
    }
    StarAbort(star, s);
    assert s[0..] == s;
    r := Abort;
  }

  /** wildmat (wildmat.c:133-141): true exactly on the language of the pattern. */
  method Match(text: string, p: string) returns (r: bool)
    requires WellFormed(p)
    ensures r <==> InLanguage(p, text)
  {
    if |p| == 1 && p[0] == '*' {
      TrailingStar(text);
      assert p == "*";
      return true;
    }
    var v := DoMatch(text, p);
    r := v == True;
  }

  // ----- the forms of a pattern --------------------------------------------

  lemma UpperIsCase(x: char, y: char)
    ensures Upper(x) == Upper(y) <==> SameLetter(x, y)
  {
  }

  /** An escaped character, and one that is not special, stand for themselves in either case. */
  lemma CharacterMatchesItself(x: char, p: string, text: string)
    requires WellFormed(p)
    ensures WellFormed(['\\', x] + p)
    ensures InLanguage(['\\', x] + p, text) <==>
            text != "" && SameLetter(x, text[0]) && InLanguage(p, text[1..])
    ensures x !in "\\?*[" ==> WellFormed([x] + p)
    ensures x !in "\\?*[" ==>
              (InLanguage([x] + p, text) <==> text != "" && SameLetter(x, text[0]) && InLanguage(p, text[1..]))
  {
    assert (['\\', x] + p)[2..] == p && ([x] + p)[1..] == p;
    if text != "" { UpperIsCase(text[0], x); }
    SingleStep(['\\', x] + p, text);
    if x !in "\\?*[" { SingleStep([x] + p, text); }
  }

  /** A question mark stands for any one character, a star for any text. */
  lemma WildcardsMatchAnything(p: string, text: string)
    requires WellFormed(p)
    ensures WellFormed("?" + p) && WellFormed("*" + p)
    ensures InLanguage("?" + p, text) <==> text != "" && InLanguage(p, text[1..])
    ensures InLanguage("*" + p, text) <==> exists a, b :: text == a + b && InLanguage(p, b)
  {
    assert ("?" + p)[1..] == p && ("*" + p)[1..] == p;
    SingleStep("?" + p, text);
    StarStep("*" + p, text);
    forall a, b | text == a + b && InLanguage(p, b) ensures InLanguage("*" + p, text) {
      assert text[|a|..] == b;
    }
    if InLanguage("*" + p, text) {
      var k :| 0 <= k <= |text| && InLanguage(p, text[k..]);
      assert text == text[..k] + text[k..];
    }
  }

  /** A range stands for its characters, by value, and its first in either case; a caret turns it round. */
  lemma RangeMatchesBetween(x: char, y: char, p: string, text: string)
    requires WellFormed(p) && x !in "^]-" && y != ']'
    ensures var inside := ['[', x, '-', y, ']'] + p;
            && WellFormed(inside)
            && (InLanguage(inside, text) <==>
                text != "" && InRange(x, y, text[0]) && InLanguage(p, text[1..]))
    ensures var outside := ['[', '^', x, '-', y, ']'] + p;
            && WellFormed(outside)
            && (InLanguage(outside, text) <==>
                text != "" && !InRange(x, y, text[0]) && InLanguage(p, text[1..]))
  {
    var body, items := [x, '-', y, ']'] + p, [One(x), Range(x, y)];
    var inside, outside := ['[', x, '-', y, ']'] + p, ['[', '^', x, '-', y, ']'] + p;
    assert inside[1..] == body && outside[2..] == body;
    RangeItems(x, y, p);
    assert ParseToken(inside) == Some((Class(false, items), p));
    assert ParseToken(outside) == Some((Class(true, items), p));
    SingleStep(inside, text);
    SingleStep(outside, text);
    if text != "" { RangeAccepts(x, y, text[0]); }
  }

  predicate InRange(x: char, y: char, c: char) { SameLetter(x, c) || Signed(x) <= Signed(c) <= Signed(y) }

  lemma RangeItems(x: char, y: char, p: string)
    requires x !in "^]-" && y != ']'
    ensures ParseBody([x, '-', y, ']'] + p) == Some(([One(x), Range(x, y)], p))
  {
    var body := [x, '-', y, ']'] + p;
    assert body[1..] == ['-', y, ']'] + p && body[1..][2..] == [']'] + p && ([']'] + p)[1..] == p;
    assert ParseItems([']'] + p, y) == Some(([], p));
    assert ParseItems(body[1..], x) == Some(([Range(x, y)] + [], p));
    assert [One(x)] + ([Range(x, y)] + []) == [One(x), Range(x, y)];
  }

  lemma RangeAccepts(x: char, y: char, c: char)
    ensures SomeItemAccepts([One(x), Range(x, y)], c) <==> InRange(x, y, c)
  {
    var items := [One(x), Range(x, y)];
    UpperIsCase(c, x);
    assert SomeItemAccepts(items, c) <==> ItemAccepts(items[0], c) || ItemAccepts(items[1], c);
  }
}
