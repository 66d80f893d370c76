/** Paths as sequences of components. */
module Paths {
  import opened CStrings

  /** The part of a path in front of its first slash. */
  function First(s: string): string { UpTo(s, '/') }

  /** The non-empty pieces between slashes. */
  function Components(s: string): seq<string>
    decreases |s|
  {
    if s == "" then []
    else if s[0] == '/' then Components(s[1..])
    else [First(s)] + Components(s[|First(s)|..])
  }

  lemma {:induction false} FirstIsWhole(s: string, rest: string)
    requires '/' !in s && (rest == "" || rest[0] == '/')
    ensures First(s + rest) == s
  {
    if s != "" {
      assert (s + rest)[1..] == s[1..] + rest;
      FirstIsWhole(s[1..], rest);
    } else {
      assert s + rest == rest;
    }
  }

  /** A piece without slashes is one component in front of what follows its slash. */
  lemma {:induction false} ComponentsOfPiece(s: string, rest: string)
    requires s != "" && '/' !in s && (rest == "" || rest[0] == '/')
    ensures Components(s + rest) == [s] + Components(rest)
  {
    FirstIsWhole(s, rest);
    assert (s + rest)[|s|..] == rest;
  }

  /** Leading slashes do not count. */
  lemma ComponentsSkipSlash(s: string)
    ensures Components("/" + s) == Components(s)
  {
    assert ("/" + s)[1..] == s;
  }

  /** A path cut at a slash falls into two lists of components. */
  lemma {:induction false} ComponentsSplit(a: string, b: string)
    requires b == "" || b[0] == '/'
    ensures Components(a + b) == Components(a) + Components(b)
    decreases |a|
  {
    if a == "" {
      assert a + b == b;
    } else if a[0] == '/' {
      assert (a + b)[1..] == a[1..] + b;
      ComponentsSplit(a[1..], b);
    } else {
      var h := First(a);
      var rest := a[|h|..];
      assert a == h + rest && a + b == h + (rest + b);
      ComponentsOfPiece(h, rest);
      ComponentsOfPiece(h, rest + b);
      ComponentsSplit(rest, b);
    }
  }

  /** The components behind a slash each. */
  function Slashed(cs: seq<string>): string {
    if cs == [] then "" else "/" + cs[0] + Slashed(cs[1..])
  }

  lemma {:induction false} SlashedSplit(a: seq<string>, b: seq<string>)
    ensures Slashed(a + b) == Slashed(a) + Slashed(b)
  {
    if a == [] {
      assert a + b == b;
    } else {
      assert (a + b)[1..] == a[1..] + b;
      SlashedSplit(a[1..], b);
      assert "/" + a[0] + (Slashed(a[1..]) + Slashed(b)) == Slashed(a) + Slashed(b);
    }
  }

  // ----- clean paths -------------------------------------------------------

  ghost predicate NoDoubleSlash(s: string) {
    forall i :: 0 <= i < |s| - 1 ==> !(s[i] == '/' && s[i + 1] == '/')
  }

  /** An absolute path without doubled or trailing slashes. */
  ghost predicate Clean(s: string) {
    s != "" && s[0] == '/' && NoDoubleSlash(s) && (1 < |s| ==> s[|s| - 1] != '/')
  }

  /** The lengths at which an absolute path is cut: all of it, its first slash, or in front of another. */
  ghost predicate AncestorLength(p: string, n: nat) {
    1 <= n <= |p| && (n == |p| || n == 1 || p[n] == '/')
  }

  /** They are paths to ancestors: their components are a prefix of the path's. */
  lemma AncestorsAreAncestors(p: string, n: nat)
    requires p != "" && p[0] == '/' && AncestorLength(p, n)
    ensures Components(p[..n]) <= Components(p)
  {
    if n == 1 {
      assert p[..1] == "/" && "/"[1..] == "";
    } else {
      assert p == p[..n] + p[n..];
      ComponentsSplit(p[..n], p[n..]);
    }
  }

  /** A clean path is its components behind a slash each; the root has none. */
  lemma {:induction false} CleanIsSlashed(s: string)
    requires Clean(s)
    ensures s == if s == "/" then "/" else Slashed(Components(s))
    ensures s == "/" <==> Components(s) == []
    decreases |s|
  {
    if s == "/" {
      assert s[1..] == "";
    } else {
      var h := First(s[1..]);
      var rest := s[1..][|h|..];
      assert s == "/" + h + rest && s[1..] == h + rest;
      assert h != "" by { assert s[1] != '/'; }
      ComponentsOfPiece(h, rest);
      assert Components(s) == [h] + Components(rest);
      if rest != "" {
        RestIsClean(s, |h| + 1);
        CleanIsSlashed(rest);
      }
    }
  }

  lemma RestIsClean(s: string, k: nat)
    requires Clean(s) && 0 < k < |s| && s[k] == '/'
    ensures Clean(s[k..]) && s[k..] != "/"
  {
    var r := s[k..];
    assert r[|r| - 1] == s[|s| - 1];
    forall i | 0 <= i < |r| - 1 ensures !(r[i] == '/' && r[i + 1] == '/') {
      assert r[i] == s[k + i] && r[i + 1] == s[k + i + 1];
    }
  }

  lemma PrefixIsProper(a: seq<string>, b: seq<string>)
    requires a <= b
    ensures a == b || a < b
  {
    if |a| == |b| {
      assert a == b[..|a|] == b;
    }
  }

  /** A shorter clean path with a prefix of the components has fewer of them. */
  lemma {:induction false} ShorterHasFewer(a: string, b: string)
    requires Clean(a) && Clean(b) && |a| < |b| && Components(a) <= Components(b)
    ensures Components(a) < Components(b)
  {
    hide Components, Slashed, NoDoubleSlash;
    CleanIsSlashed(a);
    CleanIsSlashed(b);
    PrefixIsProper(Components(a), Components(b));
  }

  /**
   A clean path is cut into exactly the clean paths of its ancestors and its
   own, each under the one name an entry for it could have.
   */
  lemma TriesExactlyTheAncestors(p: string, a: string)
    requires Clean(p)
    ensures (exists n: nat :: AncestorLength(p, n) && a == p[..n]) <==> Clean(a) && Components(a) <= Components(p)
  {
    if Clean(a) && Components(a) <= Components(p) {
      AncestorIsTried(p, a);
    }
    forall n: nat | AncestorLength(p, n) && a == p[..n] ensures Clean(a) && Components(a) <= Components(p) {
      AncestorsAreAncestors(p, n);
      AncestorIsClean(p, n);
    }
  }

  lemma AncestorIsClean(p: string, n: nat)
    requires Clean(p) && AncestorLength(p, n)
    ensures Clean(p[..n])
  {
    var a := p[..n];
    assert 1 < n < |p| ==> p[n - 1] != '/';
    forall i | 0 <= i < |a| - 1 ensures !(a[i] == '/' && a[i + 1] == '/') {
      assert a[i] == p[i] && a[i + 1] == p[i + 1];
    }
  }

  lemma {:induction false} AncestorIsTried(p: string, a: string)
    requires Clean(p) && Clean(a) && Components(a) <= Components(p)
    ensures AncestorLength(p, |a|) && a == p[..|a|]
  {
    hide Components, Slashed, NoDoubleSlash;
    CleanIsSlashed(p);
    CleanIsSlashed(a);
    if a != "/" {
      var cs, rest := Components(a), Components(p)[|Components(a)|..];
      assert Components(p) == cs + rest;
      SlashedSplit(cs, rest);
      SlashedStart(rest);
    }
  }

  lemma SlashedStart(cs: seq<string>)
    ensures Slashed(cs) == "" || Slashed(cs)[0] == '/'
  {
  }
}
