/**
 Security flavors of an export (support/nfs/exports.c): the per-flavor options
 as they are printed, and the part of the option parser that reads them.
 */
module SecInfo {
  import opened Wrappers
  import opened CStrings

  datatype Flag =
    | READONLY | INSECURE_PORT | ROOTSQUASH | ALLSQUASH | ASYNC | GATHERED_WRITES | NOREADDIRPLUS
    | SECURITY_LABEL | NOHIDE | NOSUBTREECHECK | NOAUTHNLM | FSID | CROSSMOUNT | NOACL | V4ROOT | PNFS

  type Flags = set<Flag>

  /** flav_map: two pairs of names share a number. */
  datatype Flavor = Krb5 | Krb5i | Krb5p | Unix | Sys | Null | NoneFlavor

  function Name(f: Flavor): string {
    match f
    case Krb5 => "krb5"
    case Krb5i => "krb5i"
    case Krb5p => "krb5p"
    case Unix => "unix"
    case Sys => "sys"
    case Null => "null"
    case NoneFlavor => "none"
  }

  function Number(f: Flavor): int {
    match f
    case Krb5 => 390003
    case Krb5i => 390004
    case Krb5p => 390005
    case Unix => 1
    case Sys => 1
    case Null => 0
    case NoneFlavor => 0
  }

  /** find_flavor (exports.c:485-492). */
  function FindFlavor(name: string): (r: Option<Flavor>)
    ensures r.Some? ==> Name(r.value) == name
  {
    if name == "krb5" then Some(Krb5)
    else if name == "krb5i" then Some(Krb5i)
    else if name == "krb5p" then Some(Krb5p)
    else if name == "unix" then Some(Unix)
    else if name == "sys" then Some(Sys)
    else if name == "null" then Some(Null)
    else if name == "none" then Some(NoneFlavor)
    else None
  }

  lemma FindsItsName(f: Flavor)
    ensures FindFlavor(Name(f)) == Some(f)
  {
    assert |"krb5"| == 4 && |"krb5i"| == 5 && |"krb5p"| == 5 && |"unix"| == 4 && |"sys"| == 3 && |"null"| == 4
        && |"none"| == 4;
    assert "krb5i"[4] == 'i' && "krb5p"[4] == 'p';
    assert "krb5"[0] == 'k' && "unix"[0] == 'u' && "null"[1] == 'u' && "none"[1] == 'o' && "null"[0] == 'n'
        && "none"[0] == 'n';
  }

  /** Only "unix" and "sys", and "null" and "none", are two names of one flavor. */
  lemma SharedNumbers(f: Flavor, g: Flavor)
    ensures Number(f) == Number(g) <==> f == g || {f, g} == {Unix, Sys} || {f, g} == {Null, NoneFlavor}
  {
    assert {f, g} == {Unix, Sys} ==> f in {Unix, Sys} && g in {Unix, Sys};
    assert {f, g} == {Null, NoneFlavor} ==> f in {Null, NoneFlavor} && g in {Null, NoneFlavor};
  }

  datatype SecEntry = SecEntry(flav: Flavor, flags: Flags)

  /** e_flags and e_secinfo of an export entry. */
  datatype Entry = Entry(flags: Flags, sec: seq<SecEntry>)

  const SECFLAVOR_COUNT := 8

  // ----- options -----------------------------------------------------------

  /** A keyword sets or clears one flag. */
  datatype Effect = Effect(on: bool, flag: Flag)

  /** The flag keywords of parseopts (exports.c:663-720). */
  function Keyword(opt: string): Option<Effect> {
    var r := AccessKeyword(opt);
    if r.Some? then r else FileKeyword(opt)
  }

  function AccessKeyword(opt: string): Option<Effect> {
    if opt == "ro" then Some(Effect(true, READONLY))
    else if opt == "rw" then Some(Effect(false, READONLY))
    else if opt == "secure" then Some(Effect(false, INSECURE_PORT))
    else if opt == "insecure" then Some(Effect(true, INSECURE_PORT))
    else if opt == "root_squash" then Some(Effect(true, ROOTSQUASH))
    else if opt == "no_root_squash" then Some(Effect(false, ROOTSQUASH))
    else if opt == "all_squash" then Some(Effect(true, ALLSQUASH))
    else if opt == "no_all_squash" then Some(Effect(false, ALLSQUASH))
    else if opt == "auth_nlm" then Some(Effect(false, NOAUTHNLM))
    else if opt == "no_auth_nlm" then Some(Effect(true, NOAUTHNLM))
    else if opt == "secure_locks" then Some(Effect(false, NOAUTHNLM))
    else if opt == "insecure_locks" then Some(Effect(true, NOAUTHNLM))
    else if opt == "acl" then Some(Effect(false, NOACL))
    else if opt == "no_acl" then Some(Effect(true, NOACL))
    else None
  }

  function FileKeyword(opt: string): Option<Effect> {
    if opt == "sync" then Some(Effect(false, ASYNC))
    else if opt == "async" then Some(Effect(true, ASYNC))
    else if opt == "nordirplus" then Some(Effect(true, NOREADDIRPLUS))
    else if opt == "security_label" then Some(Effect(true, SECURITY_LABEL))
    else if opt == "nohide" then Some(Effect(true, NOHIDE))
    else if opt == "hide" then Some(Effect(false, NOHIDE))
    else if opt == "crossmnt" then Some(Effect(true, CROSSMOUNT))
    else if opt == "nocrossmnt" then Some(Effect(false, CROSSMOUNT))
    else if opt == "wdelay" then Some(Effect(true, GATHERED_WRITES))
    else if opt == "no_wdelay" then Some(Effect(false, GATHERED_WRITES))
    else if opt == "subtree_check" then Some(Effect(false, NOSUBTREECHECK))
    else if opt == "no_subtree_check" then Some(Effect(true, NOSUBTREECHECK))
    else if opt == "pnfs" then Some(Effect(true, PNFS))
    else if opt == "no_pnfs" then Some(Effect(false, PNFS))
    else None
  }

  /** The keywords on who may access what come in pairs, one setting and one clearing a flag. */
  lemma AccessKeywords()
    ensures Keyword("ro") == Some(Effect(true, READONLY)) && Keyword("rw") == Some(Effect(false, READONLY))
    ensures Keyword("insecure") == Some(Effect(true, INSECURE_PORT))
    ensures Keyword("secure") == Some(Effect(false, INSECURE_PORT))
    ensures Keyword("root_squash") == Some(Effect(true, ROOTSQUASH))
    ensures Keyword("no_root_squash") == Some(Effect(false, ROOTSQUASH))
    ensures Keyword("all_squash") == Some(Effect(true, ALLSQUASH))
    ensures Keyword("no_all_squash") == Some(Effect(false, ALLSQUASH))
    ensures Keyword("insecure_locks") == Keyword("no_auth_nlm") == Some(Effect(true, NOAUTHNLM))
    ensures Keyword("secure_locks") == Keyword("auth_nlm") == Some(Effect(false, NOAUTHNLM))
    ensures Keyword("no_acl") == Some(Effect(true, NOACL)) && Keyword("acl") == Some(Effect(false, NOACL))
  {
    hide FileKeyword;
  }

  /** So do those on what is mounted below an export. */
  lemma MountKeywords()
    ensures Keyword("nohide") == Some(Effect(true, NOHIDE)) && Keyword("hide") == Some(Effect(false, NOHIDE))
    ensures Keyword("crossmnt") == Some(Effect(true, CROSSMOUNT))
    ensures Keyword("nocrossmnt") == Some(Effect(false, CROSSMOUNT))
  {
  }

  /** Those on writing. */
  lemma WriteKeywords()
    ensures Keyword("async") == Some(Effect(true, ASYNC)) && Keyword("sync") == Some(Effect(false, ASYNC))
    ensures Keyword("wdelay") == Some(Effect(true, GATHERED_WRITES))
    ensures Keyword("no_wdelay") == Some(Effect(false, GATHERED_WRITES))
  {
  }

  /** And those on checking that a file is below the export. */
  lemma SubtreeKeywords()
    ensures Keyword("no_subtree_check") == Some(Effect(true, NOSUBTREECHECK))
    ensures Keyword("subtree_check") == Some(Effect(false, NOSUBTREECHECK))
  {
  }

  /** The pair for pNFS, and two keywords that only set a flag. */
  lemma OtherKeywords()
    ensures Keyword("pnfs") == Some(Effect(true, PNFS)) && Keyword("no_pnfs") == Some(Effect(false, PNFS))
    ensures Keyword("nordirplus") == Some(Effect(true, NOREADDIRPLUS))
    ensures Keyword("security_label") == Some(Effect(true, SECURITY_LABEL))
  {
  }

  /** secinfo_flag_displaymap (exports.c:213-223). */
  const DISPLAYED: seq<Flag> := [READONLY, INSECURE_PORT, ROOTSQUASH, ALLSQUASH]

  function Shown(f: Flag, on: bool): string
    requires f in DISPLAYED
  {
    match f
    case READONLY => if on then "ro" else "rw"
    case INSECURE_PORT => if on then "insecure" else "secure"
    case ROOTSQUASH => if on then "root_squash" else "no_root_squash"
    case ALLSQUASH => if on then "all_squash" else "no_all_squash"
    case _ => ""
  }

  /** What is shown for a flag is the keyword that restores it. */
  lemma ShownIsKeyword(f: Flag, on: bool)
    requires f in DISPLAYED
    ensures Keyword(Shown(f, on)) == Some(Effect(on, f))
  {
    hide FileKeyword;
    assert f == READONLY || f == INSECURE_PORT || f == ROOTSQUASH || f == ALLSQUASH;
  }

  // ----- parsing -----------------------------------------------------------

  /** Where a flavor is, or would be appended. */
  function IndexOf(sec: seq<SecEntry>, flav: Flavor): (i: nat)
    ensures i <= |sec|
  {
    if sec == [] then 0 else if Number(sec[0].flav) == Number(flav) then 0 else 1 + IndexOf(sec[1..], flav)
  }

  /** secinfo_addflavor (exports.c:466-483): a new flavor starts with the entry-wide flags. */
  function AddFlavor(ep: Entry, flav: Flavor): Entry {
    if IndexOf(ep.sec, flav) < |ep.sec| then ep else ep.(sec := ep.sec + [SecEntry(flav, ep.flags)])
  }

  /** parse_flavors (exports.c:498-516); `active` holds the indices seen so far. */
  function AddFlavors(ep: Entry, active: set<nat>, names: seq<string>): Option<(Entry, set<nat>)>
    decreases |names|
  {
    if names == [] then Some((ep, active))
    else
      match FindFlavor(names[0])
      case None => None
      case Some(flav) =>
        var i := IndexOf(ep.sec, flav);
        if i >= SECFLAVOR_COUNT then None else AddFlavors(AddFlavor(ep, flav), active + {i}, names[1..])
  }

  function Changed(flags: Flags, effect: Effect): Flags {
    if effect.on then flags + {effect.flag} else flags - {effect.flag}
  }

  /** setflags and clearflags (exports.c:588-615): the entry-wide flags and those of the active flavors. */
  function Apply(ep: Entry, active: set<nat>, effect: Effect): (r: Entry)
    ensures |r.sec| == |ep.sec|
    ensures forall k :: 0 <= k < |ep.sec| ==> r.sec[k].flav == ep.sec[k].flav
    ensures forall k :: 0 <= k < |ep.sec| ==>
              r.sec[k].flags == if k in active then Changed(ep.sec[k].flags, effect) else ep.sec[k].flags
  {
    Entry(Changed(ep.flags, effect),
          seq(|ep.sec|, k requires 0 <= k < |ep.sec| =>
            if k in active then ep.sec[k].(flags := Changed(ep.sec[k].flags, effect)) else ep.sec[k]))
  }

  /** One option of the list. */
  function DoOption(ep: Entry, active: set<nat>, opt: string): Option<(Entry, set<nat>)> {
    match Keyword(opt)
    case Some(effect) => Some((Apply(ep, active, effect), active))
    case None => if "sec=" <= opt then AddFlavors(ep, {}, Split(opt[4..], ':')) else None
  }

  function DoOptions(ep: Entry, active: set<nat>, opts: seq<string>): Option<(Entry, set<nat>)>
    decreases |opts|
  {
    if opts == [] then Some((ep, active))
    else
      match DoOption(ep, active, opts[0])
      case None => None
      case Some((ep', active')) => DoOptions(ep', active', opts[1..])
  }

  /** fix_pseudoflavor_flags (exports.c:622-630): flags that may not vary are spread to every flavor. */
  function Fix(ep: Entry, mask: Flags): Entry {
    ep.(sec := seq(|ep.sec|, k requires 0 <= k < |ep.sec| => ep.sec[k].(flags := ep.sec[k].flags + (ep.flags - mask))))
  }

  /** Every flag outside the mask has one value, in the entry and in each of its flavors. */
  ghost predicate Uniform(ep: Entry, mask: Flags) {
    forall k, f :: 0 <= k < |ep.sec| && f !in mask ==> (f in ep.sec[k].flags <==> f in ep.flags)
  }

  /** Fixing gives every flavor the entry's flags that may not vary, and changes nothing else. */
  lemma FixMeans(ep: Entry, mask: Flags, k: nat, f: Flag)
    requires k < |ep.sec|
    ensures var fixed := Fix(ep, mask);
            && fixed.flags == ep.flags && |fixed.sec| == |ep.sec| && fixed.sec[k].flav == ep.sec[k].flav
            && (f in fixed.sec[k].flags <==> f in ep.sec[k].flags || (f in ep.flags && f !in mask))
  {
  }

  /**
   The source wants flags that may not vary to agree with the entry's.  Fixing
   only sets flags: they agree exactly when no flavor had kept one that a
   later option cleared.
   */
  lemma FixMakesUniformExactlyWhen(ep: Entry, mask: Flags)
    ensures Uniform(Fix(ep, mask), mask) <==> forall k :: 0 <= k < |ep.sec| ==> ep.sec[k].flags - mask <= ep.flags
  {
    var fixed := Fix(ep, mask);
    if Uniform(fixed, mask) {
      forall k, f | 0 <= k < |ep.sec| && f in ep.sec[k].flags - mask ensures f in ep.flags {
        assert f in fixed.sec[k].flags;
      }
    }
  }

  predicate Touches(opt: string, f: Flag) { Keyword(opt).Some? && Keyword(opt).value.flag == f }

  /** Entry and old flavors keep their value of a flag; new flavors have the entry's. */
  ghost predicate Inherits(ep: Entry, after: Entry, f: Flag) {
    && (f in after.flags <==> f in ep.flags) && |ep.sec| <= |after.sec|
    && (forall k :: 0 <= k < |ep.sec| ==> (f in after.sec[k].flags <==> f in ep.sec[k].flags))
    && (forall k :: |ep.sec| <= k < |after.sec| ==> (f in after.sec[k].flags <==> f in ep.flags))
  }

  lemma {:induction false} FlavorsInherit(ep: Entry, active: set<nat>, names: seq<string>, f: Flag)
    requires AddFlavors(ep, active, names).Some?
    ensures Inherits(ep, AddFlavors(ep, active, names).value.0, f)
    decreases |names|
  {
    if names != [] {
      var flav := FindFlavor(names[0]).value;
      FlavorsInherit(AddFlavor(ep, flav), active + {IndexOf(ep.sec, flav)}, names[1..], f);
    }
  }

  lemma OptionInherits(ep: Entry, active: set<nat>, opt: string, f: Flag)
    requires DoOption(ep, active, opt).Some? && !Touches(opt, f)
    ensures Inherits(ep, DoOption(ep, active, opt).value.0, f)
  {
    hide Keyword, AddFlavors;
    if Keyword(opt).None? { FlavorsInherit(ep, {}, Split(opt[4..], ':'), f); }
  }

  lemma InheritsIsTransitive(a: Entry, b: Entry, c: Entry, f: Flag)
    requires Inherits(a, b, f) && Inherits(b, c, f)
    ensures Inherits(a, c, f)
  {
  }

  lemma {:induction false} UntouchedInherits(ep: Entry, active: set<nat>, opts: seq<string>, f: Flag)
    requires DoOptions(ep, active, opts).Some? && forall j :: 0 <= j < |opts| ==> !Touches(opts[j], f)
    ensures Inherits(ep, DoOptions(ep, active, opts).value.0, f)
    decreases |opts|
  {
    hide DoOption, Touches;
    if opts != [] {
      var (mid, next) := DoOption(ep, active, opts[0]).value;
      OptionInherits(ep, active, opts[0], f);
      UntouchedInherits(mid, next, opts[1..], f);
      InheritsIsTransitive(ep, mid, DoOptions(ep, active, opts).value.0, f);
    }
  }

  /** No later option touches the flag. */
  ghost predicate LastWord(opts: seq<string>, i: nat, f: Flag) {
    i < |opts| && Touches(opts[i], f) && forall j :: i < j < |opts| ==> !Touches(opts[j], f)
  }

  /** The last option on a flag clears it while a flavor that has it is not among the active ones. */
  ghost predicate LeavesBehind(flags: Flags, opts: seq<string>, i: nat, f: Flag) {
    && LastWord(opts, i, f) && !Keyword(opts[i]).value.on
    && DoOptions(Entry(flags, []), {}, opts[..i]).Some?
    && var (ep, active) := DoOptions(Entry(flags, []), {}, opts[..i]).value;
       exists k: nat :: k < |ep.sec| && k !in active && f in ep.sec[k].flags
  }

  ghost predicate Agrees(ep: Entry, f: Flag) { forall k :: 0 <= k < |ep.sec| && f in ep.sec[k].flags ==> f in ep.flags }

  lemma AgreesAfterLastWord(flags: Flags, opts: seq<string>, i: nat, f: Flag)
    requires DoOptions(Entry(flags, []), {}, opts).Some? && LastWord(opts, i, f)
    ensures Agrees(DoOptions(Entry(flags, []), {}, opts).value.0, f) <==> !LeavesBehind(flags, opts, i, f)
  {
    hide Keyword, AddFlavors;
    var start, effect := Entry(flags, []), Keyword(opts[i]).value;
    assert opts == opts[..i] + opts[i..] && opts[i..][0] == opts[i] && opts[i..][1..] == opts[i + 1..];
    DoConcat(start, {}, opts[..i], opts[i..]);
    var (ep, active) := DoOptions(start, {}, opts[..i]).value;
    var mid := Apply(ep, active, effect);
    UntouchedInherits(mid, active, opts[i + 1..], f);
    var final := DoOptions(start, {}, opts).value.0;
    assert DoOptions(mid, active, opts[i + 1..]).value.0 == final;
    if !effect.on && LeavesBehind(flags, opts, i, f) {
      var k: nat :| k < |ep.sec| && k !in active && f in ep.sec[k].flags;
      assert f in final.sec[k].flags && f !in final.flags;
    }
  }

  lemma {:induction false} LastWordOrNone(opts: seq<string>, f: Flag)
    ensures (forall j :: 0 <= j < |opts| ==> !Touches(opts[j], f)) || exists i: nat :: LastWord(opts, i, f)
  {
    hide Touches;
    if opts != [] {
      var n := |opts| - 1;
      if Touches(opts[n], f) {
        assert LastWord(opts, n, f);
      } else {
        LastWordOrNone(opts[..n], f);
        if exists i: nat :: LastWord(opts[..n], i, f) {
          var i: nat :| LastWord(opts[..n], i, f);
          assert LastWord(opts, i, f);
        } else {
          assert forall j :: 0 <= j < n ==> opts[..n][j] == opts[j];
        }
      }
    }
  }

  /**
   The option lists that end in agreement, from an entry without flavors: those
   in which no flag that may not vary is cleared for the last time while a
   flavor that has it is not active.
   */
  lemma ListEndsUniformExactlyWhen(flags: Flags, opts: seq<string>, mask: Flags)
    requires DoOptions(Entry(flags, []), {}, opts).Some?
    ensures Uniform(Fix(DoOptions(Entry(flags, []), {}, opts).value.0, mask), mask)
            <==> forall i: nat, f :: f !in mask ==> !LeavesBehind(flags, opts, i, f)
  {
    var final := DoOptions(Entry(flags, []), {}, opts).value.0;
    forall f | f !in mask ensures Agrees(final, f) <==> forall i: nat :: !LeavesBehind(flags, opts, i, f) {
      AgreesExactlyWhen(flags, opts, f);
    }
    FixMakesUniformExactlyWhen(final, mask);
    AgreesIsSubset(final, mask);
  }

  lemma AgreesExactlyWhen(flags: Flags, opts: seq<string>, f: Flag)
    requires DoOptions(Entry(flags, []), {}, opts).Some?
    ensures Agrees(DoOptions(Entry(flags, []), {}, opts).value.0, f) <==>
              forall i: nat :: !LeavesBehind(flags, opts, i, f)
  {
    hide LeavesBehind, Agrees;
    LastWordOrNone(opts, f);
    forall i: nat | LastWord(opts, i, f)
      ensures Agrees(DoOptions(Entry(flags, []), {}, opts).value.0, f) <==> !LeavesBehind(flags, opts, i, f)
    {
      AgreesAfterLastWord(flags, opts, i, f);
    }
    forall i: nat | LeavesBehind(flags, opts, i, f) ensures LastWord(opts, i, f) { LeavesBehindLast(flags, opts,
        i, f); }
    if forall j :: 0 <= j < |opts| ==> !Touches(opts[j], f) { UntouchedAgrees(flags, opts, f); }
  }

  lemma LeavesBehindLast(flags: Flags, opts: seq<string>, i: nat, f: Flag)
    requires LeavesBehind(flags, opts, i, f)
    ensures LastWord(opts, i, f)
  {
  }

  lemma {:induction false} UntouchedAgrees(flags: Flags, opts: seq<string>, f: Flag)
    requires DoOptions(Entry(flags, []), {}, opts).Some? && forall j :: 0 <= j < |opts| ==> !Touches(opts[j], f)
    ensures Agrees(DoOptions(Entry(flags, []), {}, opts).value.0, f)
  {
    UntouchedInherits(Entry(flags, []), {}, opts, f);
  }

  lemma AgreesIsSubset(ep: Entry, mask: Flags)
    ensures (forall f :: f !in mask ==> Agrees(ep, f)) <==> forall k :: 0 <= k < |ep.sec| ==>
              ep.sec[k].flags - mask <= ep.flags
  {
    if forall k :: 0 <= k < |ep.sec| ==> ep.sec[k].flags - mask <= ep.flags {
      forall f, k | f !in mask && 0 <= k < |ep.sec| && f in ep.sec[k].flags ensures f in ep.flags {
        assert f in ep.sec[k].flags - mask;
      }
    }
  }

  /** Such a list of options: the first flavor stays asynchronous although the entry no longer is. */
  lemma LaterOptionLeavesFlavorBehind(mask: Flags)
    requires ASYNC !in mask
    ensures var r := DoOptions(Entry({}, []), {}, ["sec=sys", "async", "sec=krb5", "sync"]);
            r.Some? && !Uniform(Fix(r.value.0, mask), mask)
  {
    hide DoOptions, DoOption, Uniform, Fix;
    var e1, e2 := Entry({}, [SecEntry(Sys, {})]), Entry({ASYNC}, [SecEntry(Sys, {ASYNC})]);
    assert "sec=sys" == "sec=" + Name(Sys);
    OneFlavor(Entry({}, []), {}, Sys);
    assert Entry({}, []).sec + e1.sec == e1.sec;
    SyncOption(e1, {0}, e2, true);
    TwoOptions(Entry({}, []), {}, "sec=sys", "async", ["sec=krb5", "sync"], e1, {0}, e2, {0});
    assert ["sec=sys", "async", "sec=krb5", "sync"] == ["sec=sys", "async"] + ["sec=krb5", "sync"];
    FlavorLeftBehind(e2, mask);
  }

  lemma FlavorLeftBehind(ep: Entry, mask: Flags)
    requires ep == Entry({ASYNC}, [SecEntry(Sys, {ASYNC})]) && ASYNC !in mask
    ensures var r := DoOptions(ep, {0}, ["sec=krb5", "sync"]); r.Some? && !Uniform(Fix(r.value.0, mask), mask)
  {
    hide DoOptions;
    var e3 := ep.(sec := ep.sec + [SecEntry(Krb5, {ASYNC})]);
    var e4 := Apply(e3, {1}, Effect(false, ASYNC));
    assert "sec=krb5" == "sec=" + Name(Krb5);
    OneFlavor(ep, {0}, Krb5);
    SyncOption(e3, {1}, e4, false);
    assert ["sec=krb5", "sync"] == ["sec=krb5", "sync"] + [];
    TwoOptions(ep, {0}, "sec=krb5", "sync", [], e3, {1}, e4, {1});
    NoOptions(e4, {1});
    assert ASYNC in Fix(e4, mask).sec[0].flags && ASYNC !in e4.flags;
  }

  lemma OneFlavor(ep: Entry, active: set<nat>, flav: Flavor)
    requires DistinctFlavors(ep.sec + [SecEntry(flav, ep.flags)]) && |ep.sec| < SECFLAVOR_COUNT
    ensures DoOption(ep, active, "sec=" + Name(flav)) ==
              Some((ep.(sec := ep.sec + [SecEntry(flav, ep.flags)]), {|ep.sec|}))
  {
    hide DoOption;
    var group := [SecEntry(flav, ep.flags)];
    SecOption(ep, active, group);
    assert Join(Names(group), ':') == Name(flav);
    assert Fresh(group, ep.flags) == group;
    assert Range(|ep.sec|, |ep.sec| + 1) == {|ep.sec|};
  }

  lemma SyncOption(ep: Entry, active: set<nat>, after: Entry, on: bool)
    requires after.flags == Apply(ep, active, Effect(on, ASYNC)).flags
    requires after.sec == Apply(ep, active, Effect(on, ASYNC)).sec
    ensures DoOption(ep, active, if on then "async" else "sync") == Some((after, active))
  {
  }

  lemma TwoOptions(ep: Entry, active: set<nat>, a: string, b: string, rest: seq<string>,
                   e1: Entry, active1: set<nat>, e2: Entry, active2: set<nat>)
    requires DoOption(ep, active, a) == Some((e1, active1)) && DoOption(e1, active1, b) == Some((e2, active2))
    ensures DoOptions(ep, active, [a, b] + rest) == DoOptions(e2, active2, rest)
  {
    hide DoOption;
    assert ([a, b] + rest)[1..] == [b] + rest && ([b] + rest)[1..] == rest;
  }

  lemma NoOptions(ep: Entry, active: set<nat>)
    ensures DoOptions(ep, active, []) == Some((ep, active))
  {
  }

  // ----- printing ----------------------------------------------------------

  /** How many flavors from the first on have its flags. */
  function GroupLength(sec: seq<SecEntry>): (n: nat)
    requires sec != []
    ensures 0 < n <= |sec| && forall k :: 0 <= k < n ==> sec[k].flags == sec[0].flags
  {
    if |sec| == 1 || sec[1].flags != sec[0].flags then 1 else 1 + GroupLength(sec[1..])
  }

  function Names(sec: seq<SecEntry>): (r: seq<string>)
    ensures |r| == |sec|
  {
    if sec == [] then [] else [Name(sec[0].flav)] + Names(sec[1..])
  }

  /** secinfo_flags_show (exports.c:225-234). */
  function FlagOptions(shown: seq<Flag>, flags: Flags, mask: Flags): seq<string>
    requires forall f :: f in shown ==> f in DISPLAYED
  {
    if shown == [] then []
    else (if shown[0] in mask then [Shown(shown[0], shown[0] in flags)] else []) + FlagOptions(shown[1..], flags, mask)
  }

  /** secinfo_show (exports.c:236-253): the options for a list of flavors, group by group. */
  function Options(sec: seq<SecEntry>, mask: Flags): seq<string>
    decreases |sec|
  {
    if sec == [] then []
    else
      var n := GroupLength(sec);
      ["sec=" + Join(Names(sec[..n]), ':')] + FlagOptions(DISPLAYED, sec[0].flags, mask) + Options(sec[n..], mask)
  }

  // ----- parsing undoes printing -------------------------------------------

  /** The same flavors, with the same value of every flag that is shown. */
  ghost predicate Same(a: seq<SecEntry>, b: seq<SecEntry>, mask: Flags) {
    && |a| == |b|
    && (forall k :: 0 <= k < |a| ==> a[k].flav == b[k].flav)
    && (forall k, f :: 0 <= k < |a| && f in DISPLAYED && f in mask ==> (f in a[k].flags <==> f in b[k].flags))
  }

  /** Every flavor list is built by secinfo_addflavor: no number occurs twice. */
  ghost predicate DistinctFlavors(sec: seq<SecEntry>) {
    forall i, j :: 0 <= i < j < |sec| ==> Number(sec[i].flav) != Number(sec[j].flav)
  }

  lemma {:induction false} NewFlavor(sec: seq<SecEntry>, flav: Flavor)
    requires forall k :: 0 <= k < |sec| ==> Number(sec[k].flav) != Number(flav)
    ensures IndexOf(sec, flav) == |sec|
  {
    if sec != [] { NewFlavor(sec[1..], flav); }
  }

  /** The entries a group adds: its flavors, with the entry-wide flags. */
  function Fresh(sec: seq<SecEntry>, flags: Flags): (r: seq<SecEntry>)
    ensures |r| == |sec| && forall k :: 0 <= k < |sec| ==> r[k] == SecEntry(sec[k].flav, flags)
  {
    if sec == [] then [] else [SecEntry(sec[0].flav, flags)] + Fresh(sec[1..], flags)
  }

  function Range(lo: nat, hi: nat): (r: set<nat>)
    ensures forall k :: k in r <==> lo <= k < hi
    decreases hi - lo
  {
    if hi <= lo then {} else {lo} + Range(lo + 1, hi)
  }

  lemma {:induction false} AddNewFlavors(ep: Entry, active: set<nat>, group: seq<SecEntry>)
    requires DistinctFlavors(ep.sec + group) && |ep.sec| + |group| <= SECFLAVOR_COUNT
    ensures AddFlavors(ep, active, Names(group)) ==
              Some((ep.(sec := ep.sec + Fresh(group, ep.flags)), active + Range(|ep.sec|, |ep.sec| + |group|)))
    decreases |group|, 1
  {
    if group == [] {
      assert ep.sec + Fresh(group, ep.flags) == ep.sec;
      assert active + Range(|ep.sec|, |ep.sec|) == active;
    } else {
      AddNewFlavorsStep(ep, active, group);
    }
  }

  lemma {:induction false} AddNewFlavorsStep(ep: Entry, active: set<nat>, group: seq<SecEntry>)
    requires group != [] && DistinctFlavors(ep.sec + group) && |ep.sec| + |group| <= SECFLAVOR_COUNT
    ensures AddFlavors(ep, active, Names(group)) ==
              Some((ep.(sec := ep.sec + Fresh(group, ep.flags)), active + Range(|ep.sec|, |ep.sec| + |group|)))
    decreases |group|, 0
  {
    hide AddFlavors, DistinctFlavors, Range, Names, Fresh, IndexOf;
    var n, next := |ep.sec|, ep.(sec := ep.sec + [SecEntry(group[0].flav, ep.flags)]);
    FirstIsNew(ep.sec, group);
    AddOne(ep, active, group);
    SameNumbers(ep.sec, group, next.sec);
    AddNewFlavors(next, active + {n}, group[1..]);
    FreshStep(ep.sec, group, ep.flags);
    RangeStep(active, n, n + |group|);
  }

  lemma FreshStep(sec: seq<SecEntry>, group: seq<SecEntry>, flags: Flags)
    requires group != []
    ensures sec + [SecEntry(group[0].flav, flags)] + Fresh(group[1..], flags) == sec + Fresh(group, flags)
  {
  }

  lemma RangeStep(active: set<nat>, lo: nat, hi: nat)
    requires lo < hi
    ensures active + {lo} + Range(lo + 1, hi) == active + Range(lo, hi)
  {
  }

  lemma {:induction false} AddOne(ep: Entry, active: set<nat>, group: seq<SecEntry>)
    requires group != [] && IndexOf(ep.sec, group[0].flav) == |ep.sec| < SECFLAVOR_COUNT
    ensures AddFlavors(ep, active, Names(group)) ==
              AddFlavors(ep.(sec := ep.sec + [SecEntry(group[0].flav, ep.flags)]), active + {|ep.sec|},
                  Names(group[1..]))
  {
    hide FindFlavor, Name, IndexOf;
    FindsItsName(group[0].flav);
    assert Names(group)[1..] == Names(group[1..]);
  }

  lemma {:induction false} FirstIsNew(sec: seq<SecEntry>, group: seq<SecEntry>)
    requires group != [] && DistinctFlavors(sec + group)
    ensures IndexOf(sec, group[0].flav) == |sec|
  {
    assert forall k :: 0 <= k < |sec| ==> (sec + group)[k] == sec[k];
    assert (sec + group)[|sec|] == group[0];
    NewFlavor(sec, group[0].flav);
  }

  lemma SameNumbers(sec: seq<SecEntry>, group: seq<SecEntry>, next: seq<SecEntry>)
    requires group != [] && DistinctFlavors(sec + group)
    requires |next| == |sec| + 1 && next[..|sec|] == sec && next[|sec|].flav == group[0].flav
    ensures DistinctFlavors(next + group[1..])
  {
    var a, b := sec + group, next + group[1..];
    assert |a| == |b|;
    forall i | 0 <= i < |a| ensures b[i].flav == a[i].flav {
      if i < |sec| {
        assert b[i] == next[..|sec|][i];
      } else if i > |sec| {
        assert b[i] == group[1..][i - |sec| - 1];
      }
    }
  }

  lemma {:induction false} DoConcat(ep: Entry, active: set<nat>, a: seq<string>, b: seq<string>)
    ensures DoOptions(ep, active, a + b) ==
              match DoOptions(ep, active, a)
              case None => None
              case Some((ep', active')) => DoOptions(ep', active', b)
    decreases |a|
  {
    hide DoOption;
    if a == [] {
      assert a + b == b;
    } else {
      assert (a + b)[1..] == a[1..] + b && (a + b)[0] == a[0];
      match DoOption(ep, active, a[0])
      case None =>
      case Some((ep', active')) => DoConcat(ep', active', a[1..], b);
    }
  }

  /**
   What the flag options of a group do: they settle the shown flags of the
   active flavors and touch no other flavor.
   */
  ghost predicate Settled(before: Entry, after: Entry, active: set<nat>, shown: seq<Flag>, flags: Flags, mask: Flags) {
    && |after.sec| == |before.sec|
    && (forall k :: 0 <= k < |before.sec| ==> after.sec[k].flav == before.sec[k].flav)
    && (forall k :: 0 <= k < |before.sec| && k !in active ==> after.sec[k] == before.sec[k])
    && (forall k, f :: 0 <= k < |before.sec| && k in active && f in mask ==>
          (f in after.sec[k].flags <==> if f in shown then f in flags else f in before.sec[k].flags))
  }

  lemma SettleOne(ep: Entry, after: Entry, active: set<nat>, shown: seq<Flag>, flags: Flags, mask: Flags)
    requires shown != [] && shown[0] in mask && shown[0] !in shown[1..]
    requires Settled(Apply(ep, active, Effect(shown[0] in flags, shown[0])), after, active, shown[1..], flags, mask)
    ensures Settled(ep, after, active, shown, flags, mask)
  {
    var mid := Apply(ep, active, Effect(shown[0] in flags, shown[0]));
    assert shown == [shown[0]] + shown[1..];
    forall k | 0 <= k < |ep.sec| && k !in active ensures after.sec[k] == ep.sec[k] {
      assert mid.sec[k].flav == ep.sec[k].flav && mid.sec[k].flags == ep.sec[k].flags;
    }
    forall k, f | 0 <= k < |ep.sec| && k in active && f in mask
      ensures f in after.sec[k].flags <==> if f in shown then f in flags else f in ep.sec[k].flags
    {
      assert mid.sec[k].flags == Changed(ep.sec[k].flags, Effect(shown[0] in flags, shown[0]));
    }
  }

  lemma SettleNone(ep: Entry, after: Entry, active: set<nat>, shown: seq<Flag>, flags: Flags, mask: Flags)
    requires shown != [] && shown[0] !in mask && Settled(ep, after, active, shown[1..], flags, mask)
    ensures Settled(ep, after, active, shown, flags, mask)
  {
    assert shown == [shown[0]] + shown[1..];
  }

  ghost predicate NoRepeats(shown: seq<Flag>) { forall i, j :: 0 <= i < j < |shown| ==> shown[i] != shown[j] }

  lemma {:induction false} FlagOptionsSettle(ep: Entry, active: set<nat>, shown: seq<Flag>, flags: Flags, mask: Flags)
    requires (forall f :: f in shown ==> f in DISPLAYED) && NoRepeats(shown)
    ensures DoOptions(ep, active, FlagOptions(shown, flags, mask)).Some?
    ensures var (after, active') := DoOptions(ep, active, FlagOptions(shown, flags, mask)).value;
            active' == active && Settled(ep, after, active, shown, flags, mask)
    decreases |shown|
  {
    hide Keyword, Shown, Settled, Apply;
    if shown == [] {
      NothingSettled(ep, active, flags, mask);
    } else {
      var f, rest := shown[0], FlagOptions(shown[1..], flags, mask);
      if f in mask {
        ShownIsKeyword(f, f in flags);
        var mid := Apply(ep, active, Effect(f in flags, f));
        var opts := FlagOptions(shown, flags, mask);
        assert opts == [Shown(f, f in flags)] + rest && opts[1..] == rest;
        FlagOptionsSettle(mid, active, shown[1..], flags, mask);
        SettleOne(ep, DoOptions(mid, active, rest).value.0, active, shown, flags, mask);
      } else {
        assert FlagOptions(shown, flags, mask) == rest;
        FlagOptionsSettle(ep, active, shown[1..], flags, mask);
        SettleNone(ep, DoOptions(ep, active, rest).value.0, active, shown, flags, mask);
      }
    }
  }

  lemma NothingSettled(ep: Entry, active: set<nat>, flags: Flags, mask: Flags)
    ensures Settled(ep, ep, active, [], flags, mask)
  {
  }

  lemma SecIsNoKeyword(rest: string)
    ensures Keyword("sec=" + rest) == None
  {
    hide AccessKeyword, FileKeyword;
    SecIsNoAccessKeyword(rest);
    SecIsNoFileKeyword(rest);
  }

  lemma SecIsNoAccessKeyword(rest: string)
    ensures AccessKeyword("sec=" + rest) == None
  {
    assert ("sec=" + rest)[0] == 's' && ("sec=" + rest)[3] == '=';
  }

  lemma SecIsNoFileKeyword(rest: string)
    ensures FileKeyword("sec=" + rest) == None
  {
    assert ("sec=" + rest)[0] == 's' && ("sec=" + rest)[3] == '=';
  }

  lemma {:induction false} NamesHave(sec: seq<SecEntry>, i: nat)
    requires i < |sec|
    ensures Names(sec)[i] == Name(sec[i].flav)
  {
    if i > 0 { NamesHave(sec[1..], i - 1); }
  }

  lemma NamesAreWords(f: Flavor)
    ensures Name(f) != "" && ':' !in Name(f) && ',' !in Name(f)
  {
  }

  /** The sec= option of a group adds its flavors at the end and makes them the active ones. */
  lemma {:induction false} SecOption(ep: Entry, active: set<nat>, group: seq<SecEntry>)
    requires group != [] && DistinctFlavors(ep.sec + group) && |ep.sec| + |group| <= SECFLAVOR_COUNT
    ensures DoOption(ep, active, "sec=" + Join(Names(group), ':')) ==
              Some((ep.(sec := ep.sec + Fresh(group, ep.flags)), Range(|ep.sec|, |ep.sec| + |group|)))
  {
    hide Keyword, Name, Range, DistinctFlavors, AddFlavors, Join, Split, Names;
    var list := Join(Names(group), ':');
    SecIsNoKeyword(list);
    assert ("sec=" + list)[4..] == list;
    forall i | 0 <= i < |group| ensures ':' !in Names(group)[i] {
      NamesHave(group, i);
      NamesAreWords(group[i].flav);
    }
    SplitJoined(Names(group), ':');
    AddNewFlavors(ep, {}, group);
    assert {} + Range(|ep.sec|, |ep.sec| + |group|) == Range(|ep.sec|, |ep.sec| + |group|);
  }

  lemma DisplayedOnce()
    ensures NoRepeats(DISPLAYED)
  {
  }

  /** One group of the printed options rebuilds one group of the list. */
  lemma GroupRebuilt(ep: Entry, active: set<nat>, orig: seq<SecEntry>, i: nat, n: nat, mask: Flags)
    requires i < |orig| <= SECFLAVOR_COUNT && DistinctFlavors(orig) && Same(ep.sec, orig[..i], mask)
    requires n == GroupLength(orig[i..])
    ensures var opts := ["sec=" + Join(Names(orig[i..][..n]), ':')] + FlagOptions(DISPLAYED, orig[i].flags, mask);
            && DoOptions(ep, active, opts).Some?
            && Same(DoOptions(ep, active, opts).value.0.sec, orig[..i + n], mask)
  {
    hide Keyword, Name, Range, DoOption, FlagOptions;
    var group := orig[i..][..n];
    PrefixDistinct(ep.sec, group, orig, i, n, mask);
    SecOption(ep, active, group);
    var sec := "sec=" + Join(Names(group), ':');
    var mid, now := ep.(sec := ep.sec + Fresh(group, ep.flags)), Range(i, i + n);
    DisplayedOnce();
    FlagOptionsSettle(mid, now, DISPLAYED, orig[i].flags, mask);
    var shown := FlagOptions(DISPLAYED, orig[i].flags, mask);
    assert ([sec] + shown)[1..] == shown && ([sec] + shown)[0] == sec;
    SettledIsSame(ep, mid, DoOptions(mid, now, shown).value.0, orig, i, n, mask);
  }

  lemma PrefixDistinct(sec: seq<SecEntry>, group: seq<SecEntry>, orig: seq<SecEntry>, i: nat, n: nat, mask: Flags)
    requires i + n <= |orig| && DistinctFlavors(orig) && Same(sec, orig[..i], mask) && group == orig[i..][..n]
    ensures DistinctFlavors(sec + group)
  {
    hide Number;
    forall k | 0 <= k < i + n ensures (sec + group)[k].flav == orig[k].flav {
      if k < i { assert orig[..i][k] == orig[k]; }
    }
  }

  lemma SettledIsSame(ep: Entry, mid: Entry, after: Entry, orig: seq<SecEntry>, i: nat, n: nat, mask: Flags)
    requires i + n <= |orig| && Same(ep.sec, orig[..i], mask)
    requires forall k :: i <= k < i + n ==> orig[k].flags == orig[i].flags
    requires mid == ep.(sec := ep.sec + Fresh(orig[i..][..n], ep.flags))
    requires n > 0 && Settled(mid, after, Range(i, i + n), DISPLAYED, orig[i].flags, mask)
    ensures Same(after.sec, orig[..i + n], mask)
  {
    var b := orig[..i + n];
    forall k | 0 <= k < i + n
      ensures after.sec[k].flav == b[k].flav
      ensures forall f :: f in DISPLAYED && f in mask ==> (f in after.sec[k].flags <==> f in b[k].flags)
    {
      if k < i {
        assert orig[..i][k] == orig[k] && mid.sec[k] == ep.sec[k];
      } else {
        assert mid.sec[k].flav == orig[i..][..n][k - i].flav;
      }
    }
  }

  lemma NothingShown(mask: Flags)
    ensures Options([], mask) == []
  {
  }

  lemma OptionsStep(sec: seq<SecEntry>, mask: Flags)
    requires sec != []
    ensures var n := GroupLength(sec);
            Options(sec, mask) == ["sec=" + Join(Names(sec[..n]), ':')] + FlagOptions(DISPLAYED, sec[0].flags, mask)
                                  + Options(sec[n..], mask)
  {
  }

  lemma {:induction false} RestRebuilt(ep: Entry, active: set<nat>, orig: seq<SecEntry>, i: nat, mask: Flags)
    requires i <= |orig| <= SECFLAVOR_COUNT && DistinctFlavors(orig) && Same(ep.sec, orig[..i], mask)
    ensures DoOptions(ep, active, Options(orig[i..], mask)).Some?
    ensures Same(DoOptions(ep, active, Options(orig[i..], mask)).value.0.sec, orig, mask)
    decreases |orig| - i
  {
    hide DoOptions, Options, FlagOptions, Same, DistinctFlavors;
    var rest := orig[i..];
    if rest == [] {
      assert orig[..i] == orig;
      NothingShown(mask);
      NoOptions(ep, active);
    } else {
      var n := GroupLength(rest);
      var head := ["sec=" + Join(Names(rest[..n]), ':')] + FlagOptions(DISPLAYED, rest[0].flags, mask);
      GroupRebuilt(ep, active, orig, i, n, mask);
      var (mid, now) := DoOptions(ep, active, head).value;
      assert rest[n..] == orig[i + n..];
      OptionsStep(rest, mask);
      DoConcat(ep, active, head, Options(rest[n..], mask));
      RestRebuilt(mid, now, orig, i + n, mask);
    }
  }

  lemma FixKeepsShown(ep: Entry, orig: seq<SecEntry>, mask: Flags)
    requires Same(ep.sec, orig, mask)
    ensures Same(Fix(ep, mask).sec, orig, mask)
  {
  }

  /**
   The options printed for a list of flavors, parsed into an entry without
   flavors, rebuild the same flavors in the same order, each with the same
   value of every flag that is shown, although later groups also change the
   entry-wide flags.
   */
  lemma OptionsRoundTrip(orig: seq<SecEntry>, flags: Flags, mask: Flags)
    requires DistinctFlavors(orig) && |orig| <= SECFLAVOR_COUNT
    ensures DoOptions(Entry(flags, []), {}, Options(orig, mask)).Some?
    ensures Same(Fix(DoOptions(Entry(flags, []), {}, Options(orig, mask)).value.0, mask).sec, orig, mask)
  {
    hide DoOptions, Options;
    assert orig[0..] == orig && orig[..0] == [];
    RestRebuilt(Entry(flags, []), {}, orig, 0, mask);
    FixKeepsShown(DoOptions(Entry(flags, []), {}, Options(orig, mask)).value.0, orig, mask);
  }

  // ----- options as text ---------------------------------------------------

  predicate IsBlank(c: char) { c == ' ' || c == '\t' }

  function SkipBlanks(s: string): (r: string)
    ensures |r| <= |s|
  {
    if s != "" && IsBlank(s[0]) then SkipBlanks(s[1..]) else s
  }

  /** How parseopts cuts its text: at commas, with blanks behind them skipped; a comma at the end starts no option. */
  function Cut(s: string): seq<string>
    decreases |s|
  {
    if s == "" then []
    else
      var h := UpTo(s, ',');
      if |h| == |s| then [h] else [h] + Cut(SkipBlanks(s[|h| + 1..]))
  }

  function OptionList(text: string): seq<string> { Cut(SkipBlanks(text)) }

  /** The sec= and flag part of parseopts (exports.c:635-849). */
  function ParseText(ep: Entry, text: string, mask: Flags): Option<Entry> {
    match DoOptions(ep, {}, OptionList(text))
    case None => None
    case Some((e, _)) => Some(Fix(e, mask))
  }

  /** An option as it can stand in a list. */
  predicate IsOption(opt: string) { opt != "" && !IsBlank(opt[0]) && ',' !in opt }

  lemma {:induction false} CutJoined(opts: seq<string>)
    requires forall i :: 0 <= i < |opts| ==> IsOption(opts[i])
    ensures OptionList(Join(opts, ',')) == opts && SkipBlanks(Join(opts, ',')) == Join(opts, ',')
  {
    if opts != [] {
      JoinFirst(opts, ',');
      var s := Join(opts, ',');
      assert s[0] == opts[0][0];
      if |opts| > 1 {
        assert s[|opts[0]| + 1..] == Join(opts[1..], ',');
        CutJoined(opts[1..]);
        assert opts == [opts[0]] + opts[1..];
      }
    }
  }

  lemma ShownIsOption(f: Flag, on: bool)
    requires f in DISPLAYED
    ensures IsOption(Shown(f, on))
  {
  }

  lemma {:induction false} JoinedNamesHaveNoComma(names: seq<string>)
    requires forall i :: 0 <= i < |names| ==> ',' !in names[i]
    ensures ',' !in Join(names, ':')
  {
    if |names| > 1 { JoinedNamesHaveNoComma(names[1..]); }
  }

  lemma {:induction false} FlagOptionsAreOptions(shown: seq<Flag>, flags: Flags, mask: Flags)
    requires forall f :: f in shown ==> f in DISPLAYED
    ensures forall i :: 0 <= i < |FlagOptions(shown, flags, mask)| ==> IsOption(FlagOptions(shown, flags, mask)[i])
  {
    hide Shown, IsOption;
    if shown != [] {
      FlagOptionsAreOptions(shown[1..], flags, mask);
      ShownIsOption(shown[0], shown[0] in flags);
    }
  }

  lemma {:induction false} OptionsAreOptions(sec: seq<SecEntry>, mask: Flags)
    ensures forall i :: 0 <= i < |Options(sec, mask)| ==> IsOption(Options(sec, mask)[i])
    decreases |sec|
  {
    hide FlagOptions, Name;
    if sec != [] {
      var n := GroupLength(sec);
      var names := Names(sec[..n]);
      forall i | 0 <= i < n ensures ',' !in names[i] {
        NamesHave(sec[..n], i);
        NamesAreWords(sec[..n][i].flav);
      }
      JoinedNamesHaveNoComma(names);
      assert IsOption("sec=" + Join(names, ':'));
      FlagOptionsAreOptions(DISPLAYED, sec[0].flags, mask);
      OptionsAreOptions(sec[n..], mask);
    }
  }

  /** Options as they are printed, each behind a comma. */
  function Printed(opts: seq<string>): string { if opts == [] then "" else "," + opts[0] + Printed(opts[1..]) }

  lemma {:induction false} PrintedIsJoined(opts: seq<string>)
    requires opts != []
    ensures Printed(opts) == "," + Join(opts, ',')
  {
    if |opts| > 1 { PrintedIsJoined(opts[1..]); }
  }

  /** The text printed for a nonempty list of flavors, read without its leading comma, rebuilds the list. */
  lemma TextRoundTrip(orig: seq<SecEntry>, flags: Flags, mask: Flags)
    requires orig != [] && DistinctFlavors(orig) && |orig| <= SECFLAVOR_COUNT
    ensures Printed(Options(orig, mask)) != ""
    ensures var r := ParseText(Entry(flags, []), Printed(Options(orig, mask))[1..], mask);
            r.Some? && Same(r.value.sec, orig, mask)
  {
    hide DoOptions, Same, Fix, Cut;
    var opts := Options(orig, mask);
    assert opts != [];
    hide Options;
    OptionsAreOptions(orig, mask);
    PrintedIsJoined(opts);
    assert Printed(opts)[1..] == Join(opts, ',');
    CutJoined(opts);
    OptionsRoundTrip(orig, flags, mask);
  }

  // ----- the source's loops ------------------------------------------------

  class Exportent {
    var flags: Flags
    var sec: seq<SecEntry>

    function Value(): Entry
      reads this
    {
      Entry(flags, sec)
    }

    constructor (flags: Flags)
      ensures Value() == Entry(flags, [])
    {
      this.flags, sec := flags, [];
    }

    /** secinfo_addflavor (exports.c:466-483); -1 when the list is full. */
    method AppendFlavor(flav: Flavor) returns (i: int)
      modifies this
      ensures var k := IndexOf(old(sec), flav);
              if k == |old(sec)| && k >= SECFLAVOR_COUNT then i == -1 && Value() == old(Value())
              else i == k && Value() == AddFlavor(old(Value()), flav)
    {
      var p := 0;
      assert sec[0..] == sec;
      while p < |sec| && Number(sec[p].flav) != Number(flav)
        invariant 0 <= p <= |sec| && IndexOf(sec, flav) == p + IndexOf(sec[p..], flav)
      {
        assert sec[p..][1..] == sec[p + 1..];
        p := p + 1;
      }
      if p < |sec| {
        return p;
      }
      if p >= SECFLAVOR_COUNT {
        return -1;
      }
      sec := sec + [SecEntry(flav, flags)];
      return p;
    }

    /** parse_flavors (exports.c:498-516): the empty set is the error answer. */
    method ParseFlavors(str: string) returns (active: set<nat>)
      requires |sec| <= SECFLAVOR_COUNT
      modifies this
      ensures |sec| <= SECFLAVOR_COUNT
      ensures match AddFlavors(old(Value()), {}, Split(str, ':'))
              case None => active == {}
              case Some((e, a)) => active == a != {} && Value() == e
    {
      hide FindFlavor, IndexOf;
      active := {};
      var rest := Split(str, ':');
      ghost var goal := AddFlavors(Value(), {}, rest);
      while rest != []
        invariant |sec| <= SECFLAVOR_COUNT && goal == AddFlavors(Value(), active, rest)
        invariant rest == [] ==> active != {}
        decreases |rest|
      {
        var flav := FindFlavor(rest[0]);
        if flav.None? {
          return {};
        }
        var bit := AppendFlavor(flav.value);
        if bit < 0 {
          return {};
        }
        active := active + {bit};
        rest := rest[1..];
      }
    }

    /** setflags and clearflags (exports.c:588-615). */
    method ChangeFlags(effect: Effect, active: set<nat>)
      modifies this
      ensures Value() == Apply(old(Value()), active, effect)
    {
      flags := Changed(flags, effect);
      ghost var goal := Apply(old(Value()), active, effect).sec;
      for bit := 0 to |sec|
        invariant |sec| == |old(sec)| && flags == Changed(old(flags), effect)
        invariant forall k :: 0 <= k < bit ==> sec[k] == goal[k]
        invariant forall k :: bit <= k < |sec| ==> sec[k] == old(sec)[k]
      {
        if bit in active {
          sec := sec[bit := sec[bit].(flags := Changed(sec[bit].flags, effect))];
        }
      }
      assert sec == goal;
    }

    /** fix_pseudoflavor_flags (exports.c:622-630). */
    method FixFlags(mask: Flags)
      modifies this
      ensures Value() == Fix(old(Value()), mask)
    {
      for p := 0 to |sec|
        invariant |sec| == |old(sec)| && flags == old(flags)
        invariant forall k :: 0 <= k < p ==> sec[k] == old(sec)[k].(flags := old(sec)[k].flags + (flags - mask))
        invariant forall k :: p <= k < |sec| ==> sec[k] == old(sec)[k]
      {
        sec := sec[p := sec[p].(flags := sec[p].flags + (flags - mask))];
      }
      assert sec == Fix(old(Value()), mask).sec;
    }

    /** The option loop of parseopts (exports.c:649-849). */
    method ParseOpts(text: string, mask: Flags) returns (ok: bool)
      requires |sec| <= SECFLAVOR_COUNT
      modifies this
      ensures match ParseText(old(Value()), text, mask)
              case None => !ok
              case Some(e) => ok && Value() == e
    {
      hide DoOption, Fix, SkipBlanks, UpTo;
      var cp := SkipBlanks(text);
      var active: set<nat> := {};
      ghost var goal := DoOptions(Value(), {}, Cut(cp));
      while cp != ""
        invariant |sec| <= SECFLAVOR_COUNT && goal == DoOptions(Value(), active, Cut(cp))
        decreases |cp|
      {
        ghost var opts := Cut(cp);
        var opt := UpTo(cp, ',');
        cp := if |opt| == |cp| then "" else SkipBlanks(cp[|opt| + 1..]);
        assert opts == [opt] + Cut(cp) && opts[1..] == Cut(cp);
        ok, active := ProcessKeyword(opt, active);
        if !ok { return; }
      }
      FixFlags(mask);
      return true;
    }

    /** The keywords of parseopts (exports.c:662-843), as far as they are flags or flavors. */
    method ProcessKeyword(opt: string, active: set<nat>) returns (ok: bool, after: set<nat>)
      requires |sec| <= SECFLAVOR_COUNT
      modifies this
      ensures |sec| <= SECFLAVOR_COUNT
      ensures match DoOption(old(Value()), active, opt)
              case None => !ok
              case Some((e, a)) => ok && Value() == e && after == a
    {
      hide Keyword, AddFlavors, Apply, Split;
      var effect := Keyword(opt);
      if effect.Some? {
        ChangeFlags(effect.value, active);
        return true, active;
      }
      if !("sec=" <= opt) {
        return false, active;
      }
      after := ParseFlavors(opt[4..]);
      ok := after != {};
    }

    /** secinfo_show (exports.c:236-253): an empty list is shown as the sys flavor. */
    method Show(mask: Flags) returns (out: string)
      modifies this
      ensures Value() == if old(sec) == [] then AddFlavor(old(Value()), Sys) else old(Value())
      ensures out == Printed(Options(sec, mask))
    {
      if sec == [] {
        var i := AppendFlavor(Sys);
      }
      out := ShowGroups(sec, mask);
    }

    /** One group for each run of flavors with equal flags. */
    static method ShowGroups(sec: seq<SecEntry>, mask: Flags) returns (out: string)
      ensures out == Printed(Options(sec, mask))
    {
      hide Options, Printed, FlagOptions;
      out := "";
      var p1 := 0;
      ghost var goal := Printed(Options(sec, mask));
      assert sec[0..] == sec && "" + goal == goal;
      while p1 < |sec|
        invariant 0 <= p1 <= |sec| && out + Printed(Options(sec[p1..], mask)) == goal
        decreases |sec| - p1
      {
        var n := GroupLength(sec[p1..]);
        var group := ["sec=" + Join(Names(sec[p1..][..n]), ':')] + FlagOptions(DISPLAYED, sec[p1].flags, mask);
        PrintedStep(sec, p1, group, out, mask);
        out := out + Printed(group);
        p1 := p1 + n;
      }
      NothingPrinted(mask);
      assert sec[p1..] == [] && out + "" == out;
    }
  }

  lemma PrintedStep(sec: seq<SecEntry>, p1: nat, group: seq<string>, out: string, mask: Flags)
    requires p1 < |sec|
    requires var n := GroupLength(sec[p1..]);
             group == ["sec=" + Join(Names(sec[p1..][..n]), ':')] + FlagOptions(DISPLAYED, sec[p1].flags, mask)
    ensures out + Printed(Options(sec[p1..], mask))
            == out + Printed(group) + Printed(Options(sec[p1 + GroupLength(sec[p1..])..], mask))
  {
    hide Printed, FlagOptions, Join, Names;
    var n := GroupLength(sec[p1..]);
    var rest := Options(sec[p1 + n..], mask);
    assert sec[p1..][n..] == sec[p1 + n..];
    PrintedConcat(group, rest);
    assert out + (Printed(group) + Printed(rest)) == out + Printed(group) + Printed(rest);
  }

  lemma NothingPrinted(mask: Flags)
    ensures Printed(Options([], mask)) == ""
  {
  }

  lemma {:induction false} PrintedConcat(a: seq<string>, b: seq<string>)
    ensures Printed(a + b) == Printed(a) + Printed(b)
  {
    if a == [] {
      assert a + b == b;
    } else {
      assert (a + b)[1..] == a[1..] + b;
      PrintedConcat(a[1..], b);
    }
  }
}
