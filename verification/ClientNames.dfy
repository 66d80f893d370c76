/**
 Comma-separated lists of client names (support/export/client.c): the list
 composed for an address, and the test whether a name is in a list.
 */
module ClientNames {
  import opened Wrappers
  import opened CStrings
  import opened Clients

  /** A host name as it can stand in a list. */
  predicate Nameable(s: string) { s != "" && ',' !in s }

  ghost predicate AllNameable(names: seq<string>) { forall i :: 0 <= i < |names| ==> Nameable(names[i]) }

  // ----- the order of names ------------------------------------------------

  /** By plain chars: a byte with its high bit set sorts in front of the others. */
  predicate Less(a: string, b: string) {
    if b == "" then false
    else if a == "" then true
    else if a[0] == b[0] then Less(a[1..], b[1..])
    else Signed(a[0]) < Signed(b[0])
  }

  lemma {:induction false} LessIsTotal(a: string, b: string)
    ensures a == b || Less(a, b) || Less(b, a)
    ensures !(Less(a, b) && Less(b, a)) && !Less(a, a)
  {
    if a != "" && b != "" && a[0] == b[0] {
      LessIsTotal(a[1..], b[1..]);
      assert a == [a[0]] + a[1..] && b == [b[0]] + b[1..];
    }
    if a != "" { LessIsTotal(a[1..], a[1..]); }
  }

  lemma {:induction false} LessIsTransitive(a: string, b: string, c: string)
    requires !Less(b, a) && !Less(c, b)
    ensures !Less(c, a)
  {
    if a != "" && b != "" && c != "" && a[0] == b[0] && b[0] == c[0] {
      LessIsTransitive(a[1..], b[1..], c[1..]);
    }
  }

  /** It is the order of a dictionary: a beginning comes first, and otherwise the first difference decides. */
  lemma {:induction false} LessMeans(a: string, b: string)
    ensures Less(a, b) <==> a < b || exists i: nat :: DiffersAt(a, b, i) && Signed(a[i]) < Signed(b[i])
  {
    if a != "" && b != "" {
      if a[0] == b[0] {
        LessMeans(a[1..], b[1..]);
        DiffersBehind(a, b);
      } else {
        assert DiffersAt(a, b, 0);
      }
    }
  }

  ghost predicate DiffersAt(a: string, b: string, i: nat) {
    i < |a| && i < |b| && a[i] != b[i] && forall j :: 0 <= j < i ==> a[j] == b[j]
  }

  lemma DiffersBehind(a: string, b: string)
    requires a != "" && b != "" && a[0] == b[0]
    ensures forall i: nat :: DiffersAt(a, b, i) ==> i > 0 && DiffersAt(a[1..], b[1..], i - 1)
    ensures forall i: nat :: DiffersAt(a[1..], b[1..], i) ==>
              DiffersAt(a, b, i + 1) && a[i + 1] == a[1..][i] && b[i + 1] == b[1..][i]
    ensures a < b <==> a[1..] < b[1..]
  {
    assert forall i :: 0 < i < |a| ==> a[i] == a[1..][i - 1];
    assert forall i :: 0 < i < |b| ==> b[i] == b[1..][i - 1];
    assert a == [a[0]] + a[1..] && b == [b[0]] + b[1..];
  }

  ghost predicate Sorted(names: seq<string>) {
    forall i, j :: 0 <= i < j < |names| ==> !Less(names[j], names[i])
  }

  // ----- inserting a name --------------------------------------------------

  /** A name goes in front of the first one that is not less. */
  function Insert(names: seq<string>, add: string): seq<string> {
    if names == [] then [add]
    else if Less(names[0], add) then [names[0]] + Insert(names[1..], add)
    else [add] + names
  }

  function Sort(names: seq<string>): seq<string> {
    if names == [] then [] else Insert(Sort(names[..|names| - 1]), names[|names| - 1])
  }

  lemma {:induction false} InsertKeepsNames(names: seq<string>, add: string)
    ensures multiset(Insert(names, add)) == multiset(names) + multiset{add}
  {
    if names != [] {
      assert names == [names[0]] + names[1..];
      InsertKeepsNames(names[1..], add);
    }
  }

  lemma {:induction false} InsertKeepsSorted(names: seq<string>, add: string)
    requires Sorted(names)
    ensures Sorted(Insert(names, add))
  {
    if names == [] {
    } else if Less(names[0], add) {
      InsertKeepsSorted(names[1..], add);
      InsertKeepsNames(names[1..], add);
      var rest := Insert(names[1..], add);
      LessIsTotal(names[0], add);
      forall j | 0 <= j < |rest| ensures !Less(rest[j], names[0]) {
        assert rest[j] in multiset(rest);
        assert rest[j] == add || rest[j] in names[1..];
      }
    } else {
      forall j | 0 <= j < |names| ensures !Less(names[j], add) {
        if j > 0 { LessIsTransitive(add, names[0], names[j]); }
      }
    }
  }

  /** The composed list is sorted and keeps every name as often as it matched. */
  lemma {:induction false} SortSorts(names: seq<string>)
    ensures Sorted(Sort(names)) && multiset(Sort(names)) == multiset(names)
  {
    if names != [] {
      var n := |names| - 1;
      assert names == names[..n] + [names[n]];
      SortSorts(names[..n]);
      InsertKeepsSorted(Sort(names[..n]), names[n]);
      InsertKeepsNames(Sort(names[..n]), names[n]);
    }
  }

  lemma LeastComesFirst(a: seq<string>, x: string)
    requires Sorted(a) && x in a
    ensures !Less(x, a[0])
  {
    LessIsTotal(x, x);
  }

  lemma {:induction false} SortedIsUnique(a: seq<string>, b: seq<string>)
    requires Sorted(a) && Sorted(b) && multiset(a) == multiset(b)
    ensures a == b
  {
    if a == [] {
      assert |multiset(b)| == 0;
    } else {
      assert b != [] by { assert a[0] in multiset(b); }
      assert a[0] == b[0] by {
        assert a[0] in multiset(b) && b[0] in multiset(a);
        LeastComesFirst(b, a[0]);
        LeastComesFirst(a, b[0]);
        LessIsTotal(a[0], b[0]);
      }
      assert a == [a[0]] + a[1..] && b == [b[0]] + b[1..];
      assert multiset(a[1..]) == multiset(a) - multiset{a[0]};
      SortedIsUnique(a[1..], b[1..]);
    }
  }

  // ----- lists as strings --------------------------------------------------

  /**
   name_cmp (client.c:456-467): compare the name at `list[at..]` with `b`.
   */
  method NameCmp(list: string, at: nat, b: string) returns (r: int)
    requires at <= |list|
    ensures r < 0 <==> Less(UpTo(list[at..], ','), b)
    ensures r == 0 <==> UpTo(list[at..], ',') == b
  {
    ghost var h := UpTo(list[at..], ',');
    assert h == list[at..][..|h|] && forall k :: 0 <= k < |h| ==> h[k] == list[at + k];
    var i := 0;
    while at + i < |list| && i < |b| && list[at + i] != ',' && list[at + i] == b[i]
      invariant 0 <= i <= |h| && i <= |b|
      invariant h[..i] == b[..i]
      invariant Less(h, b) <==> Less(h[i..], b[i..])
      decreases |b| - i
    {
      assert h[i..][1..] == h[i + 1..] && b[i..][1..] == b[i + 1..];
      i := i + 1;
    }
    assert i == |h| <==> at + i == |list| || list[at + i] == ',';
    var ended := at + i == |list| || list[at + i] == ',';
    if i == |b| && ended {
      LessIsTotal(b, b);
      return 0;
    }
    if i == |b| { return 1; }
    if ended { return -1; }
    r := Signed(list[at + i]) - Signed(b[i]);
  }

  /** Where the name at `cp` ends: the next comma, or the end of the list. */
  function NextComma(s: string, from: nat): (e: nat)
    requires from <= |s|
    ensures from <= e <= |s| && (e < |s| ==> s[e] == ',') && forall k :: from <= k < e ==> s[k] != ','
    decreases |s| - from
  {
    if from == |s| || s[from] == ',' then from else NextComma(s, from + 1)
  }

  /** What becomes of a list from some name on, or from its end. */
  function InsertText(rest: string, add: string): string
    decreases |rest|
  {
    var h := UpTo(rest, ',');
    if rest == "" then "," + add
    else if !Less(h, add) then add + "," + rest
    else if |h| == |rest| then h + "," + add
    else h + "," + InsertText(rest[|h| + 1..], add)
  }

  lemma JoinInFront(x: string, names: seq<string>)
    requires names != []
    ensures Join([x] + names, ',') == x + "," + Join(names, ',')
  {
    assert ([x] + names)[1..] == names;
  }

  /** That is the insertion among the pieces of the list, whatever they are. */
  lemma {:induction false} InsertTextInserts(rest: string, add: string)
    requires rest != "" || add != ""
    ensures InsertText(rest, add) == Join(Insert(Split(rest, ','), add), ',')
    decreases |rest|
  {
    var h := UpTo(rest, ',');
    var names := Split(rest, ',');
    JoinSplit(rest, ',');
    if !Less(h, add) {
      JoinInFront(add, names);
    } else if |h| == |rest| {
      JoinInFront(h, [add]);
    } else {
      var tail := rest[|h| + 1..];
      InsertTextInserts(tail, add);
      assert names[1..] == Split(tail, ',');
      JoinInFront(h, Insert(names[1..], add));
    }
  }

  /** The list with one name more.  An empty list is dropped, although it is what an empty name alone makes. */
  function Extended(was: Option<string>, add: string): string {
    if was.None? || was.value == "" then add else Join(Insert(Split(was.value, ','), add), ',')
  }

  /** strncpy or strcat behind the `n` characters already in the buffer, with its terminator. */
  method Cat(buf: array<char>, n: nat, text: string) returns (m: nat)
    requires n + |text| < buf.Length
    modifies buf
    ensures m == n + |text| && buf[..m] == old(buf[..n]) + text && buf[m] == '\0'
  {
    for k := 0 to |text|
      invariant buf[..n + k] == old(buf[..n]) + text[..k]
    {
      buf[n + k] := text[k];
      assert buf[..n + k + 1] == buf[..n + k] + [text[k]];
    }
    assert text[..|text|] == text;
    m := n + |text|;
    buf[m] := '\0';
    assert buf[..m] == old(buf[..n]) + text;
  }

  /**
   The copies of add_name (client.c:491-504): they stay inside a buffer of the
   two lengths and two characters more.
   */
  method Assemble(list: string, cp: nat, add: string) returns (r: string)
    requires cp <= |list|
    ensures r == list[..cp] + (if cp != 0 && cp == |list| then "," else "") + add
                 + if cp < |list| then "," + list[cp..] else ""
  {
    var buf := new char[|add| + 2 + |list|](_ => '\0');
    var n := Cat(buf, 0, list[..cp]);
    if cp != 0 && cp == |list| {
      n := Cat(buf, n, ",");
    }
    n := Cat(buf, n, add);
    if cp < |list| {
      n := Cat(buf, n, ",");
      n := Cat(buf, n, list[cp..]);
    }
    r := buf[..n];
  }

  /** add_name (client.c:469-507), on any two strings. */
  method AddName(was: Option<string>, add: string) returns (r: string)
    ensures r == Extended(was, add)
  {
    hide Insert, InsertText, Less, Split, UpTo, Join;
    var list := if was.None? then "" else was.value;
    var cp := FindPlace(list, add);
    InsertHere(list[cp..], add);
    if list != "" { InsertTextInserts(list, add); }
    r := Assemble(list, cp, add);
  }

  /** The walk of add_name over the names that are less than the new one (client.c:482-490). */
  method FindPlace(list: string, add: string) returns (cp: nat)
    ensures cp <= |list| && list[..cp] + InsertText(list[cp..], add) == InsertText(list, add)
    ensures cp < |list| ==> !Less(UpTo(list[cp..], ','), add)
  {
    hide InsertText, Less, UpTo, NextComma;
    cp := 0;
    assert list[..0] + InsertText(list, add) == InsertText(list, add) && list[0..] == list;
    while cp < |list|
      invariant cp <= |list| && list[..cp] + InsertText(list[cp..], add) == InsertText(list, add)
      decreases |list| - cp
    {
      var cmp := NameCmp(list, cp, add);
      if cmp >= 0 {
        return;
      }
      var e := NextComma(list, cp);
      StepOverName(list, cp, add);
      cp := if e < |list| then e + 1 else e;
    }
  }

  lemma InsertHere(rest: string, add: string)
    requires rest == "" || !Less(UpTo(rest, ','), add)
    ensures InsertText(rest, add) == if rest == "" then "," + add else add + "," + rest
  {
  }

  lemma InsertTextStep(rest: string, add: string)
    requires rest != "" && Less(UpTo(rest, ','), add)
    ensures var h := UpTo(rest, ',');
            InsertText(rest, add) ==
              if |h| == |rest| then h + InsertText("", add) else h + "," + InsertText(rest[|h| + 1..], add)
  {
  }

  /** Stepping over a name that is less, and its comma, leaves what has been passed as it is. */
  lemma StepOverName(list: string, cp: nat, add: string)
    requires cp < |list| && Less(UpTo(list[cp..], ','), add)
    ensures var e := NextComma(list, cp);
            var next := if e < |list| then e + 1 else e;
            list[..cp] + InsertText(list[cp..], add) == list[..next] + InsertText(list[next..], add)
  {
    hide InsertText, Less;
    var e := NextComma(list, cp);
    var rest := list[cp..];
    UpToIs(rest, ',', list[cp..e]);
    InsertTextStep(rest, add);
    if e < |list| {
      assert rest[e - cp + 1..] == list[e + 1..];
      assert list[..e + 1] == list[..cp] + list[cp..e] + ",";
    } else {
      assert list[e..] == "" && list[..e] == list[..cp] + list[cp..e];
    }
  }

  // ----- adding one name after the other -----------------------------------

  function ComposedText(names: seq<string>): Option<string> {
    if names == [] then None
    else Some(Extended(ComposedText(names[..|names| - 1]), names[|names| - 1]))
  }

  ghost predicate CommaFree(names: seq<string>) { forall i :: 0 <= i < |names| ==> ',' !in names[i] }

  lemma SortCommaFree(names: seq<string>)
    requires CommaFree(names)
    ensures CommaFree(Sort(names)) && |Sort(names)| == |names|
  {
    SortSorts(names);
    assert |multiset(Sort(names))| == |multiset(names)|;
    forall i | 0 <= i < |Sort(names)| ensures ',' !in Sort(names)[i] {
      assert Sort(names)[i] in multiset(names);
    }
  }

  lemma {:induction false} ComposedIsSorted(names: seq<string>)
    requires names != [] && CommaFree(names) && (|names| > 1 ==> names[0] != "")
    ensures ComposedText(names) == Some(Join(Sort(names), ','))
  {
    var n := |names| - 1;
    var before := names[..n];
    if n == 0 {
      assert before == [] && Sort(names) == [names[0]];
    } else {
      ComposedIsSorted(before);
      SortCommaFree(before);
      var list := Join(Sort(before), ',');
      assert list != "" by {
        if n == 1 { assert before == [names[0]] && Sort(before) == [names[0]]; }
      }
      SplitJoined(Sort(before), ',');
    }
  }

  lemma {:induction false} InsertCommaFree(names: seq<string>, add: string)
    requires CommaFree(names) && ',' !in add
    ensures CommaFree(Insert(names, add)) && |Insert(names, add)| == |names| + 1
  {
    if names != [] && Less(names[0], add) { InsertCommaFree(names[1..], add); }
  }

  /** An empty name that comes first is lost. */
  lemma {:induction false} EmptyFirstIsLost(names: seq<string>)
    requires |names| > 1 && names[0] == "" && CommaFree(names)
    ensures |Split(ComposedText(names).value, ',')| < |names|
  {
    var n := |names| - 1;
    var before, x := names[..n], names[n];
    var t := ComposedText(before).value;
    UpToIs(x, ',', x);
    if n == 1 {
      assert before == [""] && ComposedText([""]) == Some(Extended(ComposedText([]), "")) == Some("");
    } else if t != "" {
      EmptyFirstIsLost(before);
      JoinSplit(t, ',');
      InsertCommaFree(Split(t, ','), x);
      SplitJoined(Insert(Split(t, ','), x), ',');
    }
  }

  /**
   The composed list is sorted and keeps every name with its multiplicity
   exactly when no name holds a comma and an empty one does not come first.
   */
  lemma {:induction false} KeepsNamesExactlyWhen(names: seq<string>)
    requires names != []
    ensures var listed := Split(ComposedText(names).value, ',');
            Sorted(listed) && multiset(listed) == multiset(names)
            <==> CommaFree(names) && (|names| > 1 ==> names[0] != "")
  {
    var text := ComposedText(names).value;
    var listed := Split(text, ',');
    if CommaFree(names) && (|names| > 1 ==> names[0] != "") {
      ComposedIsSorted(names);
      SortCommaFree(names);
      SplitJoined(Sort(names), ',');
      SortSorts(names);
    }
    if multiset(listed) == multiset(names) {
      JoinSplit(text, ',');
      forall i | 0 <= i < |names| ensures ',' !in names[i] {
        assert names[i] in multiset(listed);
      }
      if |names| > 1 && names[0] == "" {
        assert |listed| == |multiset(listed)| == |multiset(names)| == |names|;
        EmptyFirstIsLost(names);
      }
    }
  }

  /** The list depends on which names match, not on the order in which the clients were added. */
  lemma OrderDoesNotMatter(a: seq<string>, b: seq<string>)
    requires multiset(a) == multiset(b) && AllNameable(a)
    ensures ComposedText(a) == ComposedText(b)
  {
    assert |multiset(a)| == |a| && |multiset(b)| == |b|;
    forall i | 0 <= i < |b| ensures Nameable(b[i]) { assert b[i] in multiset(a); }
    if a != [] {
      ComposedIsSorted(a);
      ComposedIsSorted(b);
      SortSorts(a);
      SortSorts(b);
      SortedIsUnique(Sort(a), Sort(b));
    }
  }

  /** The name at `i` comes first, and the others follow in their order. */
  function ToFront(names: seq<string>, i: nat): (r: seq<string>)
    requires i < |names|
    ensures |r| == |names| && r[0] == names[i] && multiset(r) == multiset(names)
  {
    assert names == names[..i] + [names[i]] + names[i + 1..];
    [names[i]] + names[..i] + names[i + 1..]
  }

  /** An empty name is lost when it comes first and kept when another does, so the two lists differ. */
  lemma EmptyNameMakesOrderMatter(names: seq<string>, i: nat, j: nat)
    requires CommaFree(names) && i < |names| && j < |names| && names[i] == "" && names[j] != ""
    ensures ComposedText(ToFront(names, i)) != ComposedText(ToFront(names, j))
  {
    var lost, kept := ToFront(names, i), ToFront(names, j);
    forall k | 0 <= k < |names| ensures ',' !in lost[k] && ',' !in kept[k] {
      assert lost[k] in multiset(names) && kept[k] in multiset(names);
    }
    EmptyFirstIsLost(lost);
    ComposedIsSorted(kept);
    SortCommaFree(kept);
    SplitJoined(Sort(kept), ',');
  }

  /** The shortest pair of orders that differ for an empty name. */
  lemma OrderMattersWithEmptyNames()
    ensures ComposedText(["", "*"]) == Some("*") && ComposedText(["*", ""]) == Some(",*")
  {
    hide InsertText;
    TwoNames("*", "");
    InsertHere("*", "");
    assert "" + "," + "*" == ",*";
    assert ["", "*"][..1] == [""] && [""][..0] == [];
    assert ComposedText([""]) == Some(Extended(ComposedText([]), "")) == Some("");
  }

  ghost predicate OrderIrrelevant(names: seq<string>) {
    forall b: seq<string> :: multiset(b) == multiset(names) ==> ComposedText(b) == ComposedText(names)
  }

  lemma AllEmptyIsOneOrder(names: seq<string>, b: seq<string>)
    requires multiset(b) == multiset(names) && forall i :: 0 <= i < |names| ==> names[i] == ""
    ensures b == names
  {
    assert |multiset(b)| == |b| && |multiset(names)| == |names|;
    forall i | 0 <= i < |b| ensures b[i] == "" { assert b[i] in multiset(names); }
  }

  /**
   Among names without commas the order in which the clients were added does
   not matter exactly when none of the names is empty or all of them are.
   */
  lemma OrderDoesNotMatterExactlyWhen(names: seq<string>)
    requires CommaFree(names)
    ensures OrderIrrelevant(names) <==> "" !in names || forall i :: 0 <= i < |names| ==> names[i] == ""
  {
    if "" !in names {
      forall b: seq<string> | multiset(b) == multiset(names) ensures ComposedText(b) == ComposedText(names) {
        OrderDoesNotMatter(names, b);
      }
    } else if forall i :: 0 <= i < |names| ==> names[i] == "" {
      forall b: seq<string> | multiset(b) == multiset(names) ensures ComposedText(b) == ComposedText(names) {
        AllEmptyIsOneOrder(names, b);
      }
    } else {
      var i: nat :| i < |names| && names[i] == "";
      var j: nat :| j < |names| && names[j] != "";
      EmptyNameMakesOrderMatter(names, i, j);
    }
  }

  /** With a comma in a name the order does matter: the pieces are compared one by one. */
  lemma OrderMattersWithCommas()
    ensures ComposedText(["b", "a,c"]) == Some("a,c,b") && ComposedText(["a,c", "b"]) == Some("a,b,c")
  {
    hide ComposedText, InsertText;
    TwoNames("b", "a,c");
    InFront("b", "a,c");
    assert "a,c" + "," + "b" == "a,c,b";
    TwoNames("a,c", "b");
    Between();
  }

  lemma InFront(list: string, add: string)
    requires list != "" && ',' !in list && add != "" && Signed(add[0]) < Signed(list[0])
    ensures InsertText(list, add) == add + "," + list
  {
    UpToIs(list, ',', list);
  }

  lemma Between()
    ensures InsertText("a,c", "b") == "a,b,c"
  {
    hide InsertText;
    UpToIs("a,c", ',', "a");
    assert Less("a", "b") && "a,c"[2..] == "c";
    InsertTextStep("a,c", "b");
    InFront("c", "b");
  }

  lemma TwoNames(a: string, b: string)
    requires a != ""
    ensures ComposedText([a, b]) == Some(InsertText(a, b))
  {
    assert [a, b][..1] == [a] && [a][..0] == [];
    assert ComposedText([a]) == Some(Extended(ComposedText([]), a)) == Some(a);
    InsertTextInserts(a, b);
  }

  // ----- testing a name ----------------------------------------------------

  /** `name` stands in the list between commas, or between a comma and an end. */
  ghost predicate ListedAt(list: string, k: nat, name: string) {
    && k < |list| && (k == 0 || list[k - 1] == ',')
    && k + |name| <= |list| && list[k..k + |name|] == name
    && (k + |name| == |list| || list[k + |name|] == ',')
  }

  ghost predicate Listed(list: string, name: string) { exists k: nat :: ListedAt(list, k, name) }

  /** client_member (client.c:439-454). */
  method Member(list: string, name: string) returns (r: bool)
    ensures r <==> Listed(list, name)
  {
    var at := 0;
    while at < |list|
      invariant at <= |list| && (at == 0 || list[at - 1] == ',')
      invariant forall k :: 0 <= k < at ==> !ListedAt(list, k, name)
      decreases |list| - at
    {
      if at + |name| <= |list| && list[at..at + |name|] == name
         && (at + |name| == |list| || list[at + |name|] == ',') {
        assert ListedAt(list, at, name);
        return true;
      }
      var comma := NextComma(list, at);
      assert forall k :: at < k <= comma ==> !ListedAt(list, k, name);
      if comma == |list| {
        return false;
      }
      at := comma + 1;
    }
    return false;
  }

  lemma {:induction false} ListedInJoin(names: seq<string>, name: string)
    requires AllNameable(names) && Nameable(name)
    ensures Listed(Join(names, ','), name) <==> name in names
  {
    if names == [] {
    } else if |names| == 1 {
      OnlyName(names[0], name);
      assert names == [names[0]];
    } else {
      var rest := Join(names[1..], ',');
      ListedInJoin(names[1..], name);
      assert names == [names[0]] + names[1..];
      OnlyName(names[0], name);
      FirstOrLater(names[0], rest, name);
    }
  }

  lemma OnlyName(a: string, name: string)
    requires Nameable(a) && Nameable(name)
    ensures Listed(a, name) <==> a == name
    ensures forall k: nat :: ListedAt(a, k, name) ==> k == 0 && a == name
  {
    forall k: nat | ListedAt(a, k, name) ensures k == 0 && a == name {
    }
    if a == name { assert ListedAt(a, 0, name); }
  }

  lemma FirstOrLater(a: string, rest: string, name: string)
    requires Nameable(a) && Nameable(name)
    ensures Listed(a + "," + rest, name) <==> a == name || Listed(rest, name)
  {
    var list := a + "," + rest;
    if a == name { assert ListedAt(list, 0, name); }
    if Listed(rest, name) {
      var k: nat :| ListedAt(rest, k, name);
      ListedBehind(a, rest, name, k);
      assert ListedAt(list, |a| + 1 + k, name);
    }
    if Listed(list, name) {
      var k: nat :| ListedAt(list, k, name);
      if k <= |a| {
        StartsInFirst(a, rest, name, k);
      } else {
        ListedBehind(a, rest, name, k - |a| - 1);
      }
    }
  }

  lemma ListedBehind(a: string, rest: string, name: string, k: nat)
    ensures ListedAt(a + "," + rest, |a| + 1 + k, name) <==> ListedAt(rest, k, name)
  {
    var list, n := a + "," + rest, |a| + 1;
    assert list[n..] == rest;
    assert list[n - 1] == ',';
    if k + |name| <= |rest| { assert list[n + k..n + k + |name|] == rest[k..k + |name|]; }
  }

  lemma StartsInFirst(a: string, rest: string, name: string, k: nat)
    requires Nameable(a) && Nameable(name) && k <= |a| && ListedAt(a + "," + rest, k, name)
    ensures a == name
  {
    var list := a + "," + rest;
    assert list[|a|] == ',' && forall i :: 0 <= i < |a| ==> list[i] == a[i];
    assert k == 0;
    assert forall i :: 0 <= i < |name| ==> list[i] == name[i] && name[i] in name;
    assert |name| == |a|;
    assert a == list[..|a|];
  }

  // ----- the list of an address --------------------------------------------

  /** The names of the clients that match an address, in list order. */
  function Matching(env: Env, clients: seq<Client>, ai: AddrInfo): seq<string> {
    if clients == [] then []
    else
      var n := |clients| - 1;
      Matching(env, clients[..n], ai) + if Check(env, clients[n], ai) then [clients[n].hostname] else []
  }

  lemma {:induction false} MatchingNames(env: Env, clients: seq<Client>, ai: AddrInfo, name: string)
    ensures name in Matching(env, clients, ai) <==>
              exists c :: c in clients && Check(env, c, ai) && c.hostname == name
  {
    if clients != [] {
      var n := |clients| - 1;
      MatchingNames(env, clients[..n], ai, name);
      assert clients == clients[..n] + [clients[n]];
    }
  }

  lemma {:induction false} MatchingNameable(env: Env, clients: seq<Client>, ai: AddrInfo)
    requires forall c :: c in clients ==> Nameable(c.hostname)
    ensures AllNameable(Matching(env, clients, ai))
  {
    if clients != [] { MatchingNameable(env, clients[..|clients| - 1], ai); }
  }

  lemma SortNameable(names: seq<string>)
    requires AllNameable(names)
    ensures AllNameable(Sort(names))
  {
    SortSorts(names);
    forall i | 0 <= i < |Sort(names)| ensures Nameable(Sort(names)[i]) {
      assert Sort(names)[i] in multiset(names);
    }
  }

  function AllClients(lists: seq<seq<Client>>): seq<Client> {
    if lists == [] then [] else AllClients(lists[..|lists| - 1]) + lists[|lists| - 1]
  }

  lemma {:induction false} ClientsOf(lists: seq<seq<Client>>, t: nat, c: Client)
    requires t < |lists| && c in lists[t]
    ensures c in AllClients(lists)
  {
    var n := |lists| - 1;
    if t < n { ClientsOf(lists[..n], t, c); }
  }

  ghost predicate NameableClients(lists: seq<seq<Client>>) {
    forall t, c :: 0 <= t < |lists| && c in lists[t] ==> Nameable(c.hostname)
  }

  lemma {:induction false} AllNameableClients(lists: seq<seq<Client>>)
    requires NameableClients(lists)
    ensures forall c :: c in AllClients(lists) ==> Nameable(c.hostname)
  {
    if lists != [] { AllNameableClients(lists[..|lists| - 1]); }
  }

  /** client_compose (client.c:414-429): the names of all clients that match, added one by one. */
  method Compose(env: Env, lists: seq<seq<Client>>, ai: AddrInfo) returns (name: Option<string>)
    ensures name == ComposedText(Matching(env, AllClients(lists), ai))
    ensures NameableClients(lists) && name.Some? ==>
              name == Some(Join(Sort(Matching(env, AllClients(lists), ai)), ','))
  {
    name := None;
    for t := 0 to |lists|
      invariant name == ComposedText(Matching(env, AllClients(lists[..t]), ai))
    {
      name := ComposeList(env, AllClients(lists[..t]), lists[t], ai, name);
      assert lists[..t + 1][..t] == lists[..t];
    }
    assert lists[..|lists|] == lists;
    if NameableClients(lists) && name.Some? { ComposedForAddress(env, lists, ai); }
  }

  lemma ComposedForAddress(env: Env, lists: seq<seq<Client>>, ai: AddrInfo)
    requires NameableClients(lists)
    ensures var names := Matching(env, AllClients(lists), ai);
            ComposedText(names) == if names == [] then None else Some(Join(Sort(names), ','))
  {
    var names := Matching(env, AllClients(lists), ai);
    AllNameableClients(lists);
    MatchingNameable(env, AllClients(lists), ai);
    if names != [] { ComposedIsSorted(names); }
  }

  /** The inner loop of client_compose: the clients of one type, behind those already seen. */
  method ComposeList(env: Env, ghost seen: seq<Client>, list: seq<Client>, ai: AddrInfo, was: Option<string>)
    returns (name: Option<string>)
    requires was == ComposedText(Matching(env, seen, ai))
    ensures name == ComposedText(Matching(env, seen + list, ai))
  {
    name := was;
    assert seen + list[..0] == seen;
    for i := 0 to |list|
      invariant name == ComposedText(Matching(env, seen + list[..i], ai))
    {
      assert seen + list[..i + 1] == seen + list[..i] + [list[i]];
      MatchingSnoc(env, seen + list[..i], list[i], ai);
      if Check(env, list[i], ai) {
        var s := AddName(name, list[i].hostname);
        name := Some(s);
      }
    }
    assert list[..|list|] == list;
  }

  lemma MatchingSnoc(env: Env, seen: seq<Client>, c: Client, ai: AddrInfo)
    ensures var names, more := Matching(env, seen, ai), Matching(env, seen + [c], ai);
            if Check(env, c, ai) then ComposedText(more) == Some(Extended(ComposedText(names), c.hostname))
            else more == names
  {
    var names := Matching(env, seen, ai);
    assert (seen + [c])[..|seen|] == seen;
    assert (names + [c.hostname])[..|names|] == names;
    assert names + [] == names;
  }

  // ----- the two verdicts agree --------------------------------------------

  /**
   A name is in the list composed for an address exactly when some client of
   that name matches the address.
   */
  lemma ListedMeansSomeMatch(env: Env, lists: seq<seq<Client>>, ai: AddrInfo, name: string)
    requires NameableClients(lists) && Nameable(name)
    ensures Listed(Join(Sort(Matching(env, AllClients(lists), ai)), ','), name) <==>
              exists c :: c in AllClients(lists) && Check(env, c, ai) && c.hostname == name
  {
    var names := Matching(env, AllClients(lists), ai);
    AllNameableClients(lists);
    MatchingNameable(env, AllClients(lists), ai);
    SortNameable(names);
    SortSorts(names);
    ListedInJoin(Sort(names), name);
    assert name in Sort(names) <==> name in multiset(Sort(names));
    assert name in names <==> name in multiset(names);
    MatchingNames(env, AllClients(lists), ai, name);
  }

  /**
   With distinct names the name-list verdict on a client is the address
   verdict on it (auth.c:155-163).
   */
  lemma VerdictsAgree(env: Env, lists: seq<seq<Client>>, ai: AddrInfo, c: Client)
    requires NameableClients(lists)
    requires forall x, y :: x in AllClients(lists) && y in AllClients(lists) && x.hostname == y.hostname ==> x == y
    requires c in AllClients(lists)
    ensures Listed(Join(Sort(Matching(env, AllClients(lists), ai)), ','), c.hostname) <==> Check(env, c, ai)
  {
    AllNameableClients(lists);
    ListedMeansSomeMatch(env, lists, ai, c.hostname);
  }
}
