/**
 The hashed export list of support/export/export.c: one intrusive list per
 client type, in which every hash bucket is a run delimited by two pointers.
 */
module ExportTable {
  import opened Wrappers
  import opened CStrings
  import opened Clients

  const HASH_TABLE_SIZE := 1021

  /** The parts of an export entry the table's users look at. */
  datatype ExportEnt = ExportEnt(
    hostname: string,
    path: string,
    v4root: bool,
    crossmnt: bool,
    insecurePort: bool,
    fsid: Option<nat>)

  /** An nfs_export.  Only its fsid changes once it is made; its link belongs to the table it is in. */
  class Export {
    const client: Client
    const ent: ExportEnt
    var fsid: Option<nat>

    constructor (client: Client, ent: ExportEnt)
      ensures this.client == client && this.ent == ent && fsid == ent.fsid
    {
      this.client, this.ent := client, ent;
      fsid := ent.fsid;
    }
  }

  // ----- the hash ----------------------------------------------------------

  /** strtoint (export.c:422-433) from index `i` on: 32-bit wrap-around. */
  function StrToInt(s: string, i: nat, n: int): int
    requires i <= |s|
    decreases |s| - i
  {
    if i == |s| then n else StrToInt(s, i + 1, (n + Signed(s[i]) * i) % 0x1_0000_0000)
  }

  /** export_hash (export.c:438-444). */
  function Hash(path: string): (h: nat)
    ensures h < HASH_TABLE_SIZE
  {
    StrToInt(path, 0, 0) % HASH_TABLE_SIZE
  }

  function Bucket(e: Export): (h: nat)
    ensures h < HASH_TABLE_SIZE
  {
    Hash(e.ent.path)
  }

  // ----- lists -------------------------------------------------------------

  ghost predicate Distinct(list: seq<Export>) {
    forall i, j :: 0 <= i < j < |list| ==> list[i] != list[j]
  }

  /** Every bucket is one contiguous run of the list. */
  ghost predicate BucketsAreRuns(list: seq<Export>) {
    forall i, j, k :: 0 <= i <= j <= k < |list| && Bucket(list[i]) == Bucket(list[k]) ==>
        Bucket(list[j]) == Bucket(list[i])
  }

  predicate IsEntry(e: Export, client: Client, path: string) { e.client == client && e.ent.path == path }

  /** A plain scan for the first entry with this client and path. */
  function FirstEntry(list: seq<Export>, client: Client, path: string): (r: Option<Export>)
    ensures r.Some? ==> r.value in list && r.value.client == client && r.value.ent.path == path
    ensures r.None? ==> forall e :: e in list ==> !(e.client == client && e.ent.path == path)
  {
    if list == [] then None
    else if IsEntry(list[0], client, path) then Some(list[0])
    else FirstEntry(list[1..], client, path)
  }

  lemma {:induction false} FirstEntryAt(list: seq<Export>, n: nat, client: Client, path: string)
    requires n <= |list| && forall i :: 0 <= i < n ==> !IsEntry(list[i], client, path)
    requires n < |list| ==> IsEntry(list[n], client, path)
    ensures FirstEntry(list, client, path) == if n < |list| then Some(list[n]) else None
  {
    if n > 0 { FirstEntryAt(list[1..], n - 1, client, path); }
  }

  /** Following `next` from `head` visits exactly the list. */
  ghost predicate Linked(head: Export?, next: map<Export, Export?>, list: seq<Export>) {
    && head == (if list == [] then null else list[0])
    && (forall i :: 0 <= i < |list| ==> list[i] in next)
    && (forall i :: 0 <= i < |list| - 1 ==> next[list[i]] == list[i + 1])
    && (list != [] ==> next[list[|list| - 1]] == null)
  }

  function Inserted(list: seq<Export>, k: nat, e: Export): seq<Export>
    requires k <= |list|
  {
    list[..k] + [e] + list[k..]
  }

  /** The position behind the last entry of bucket `h`, or the front if there is none. */
  function Behind(list: seq<Export>, h: nat): (k: nat)
    ensures k <= |list|
  {
    if list == [] then 0
    else if Bucket(list[|list| - 1]) == h then |list|
    else Behind(list[..|list| - 1], h)
  }

  /** The list with `e` put behind the last entry of its bucket, or in front when the bucket is new. */
  function Place(list: seq<Export>, e: Export): seq<Export> { Inserted(list, Behind(list, Bucket(e)), e) }

  /** Bucket `h` is empty, or it is exactly list[lo..hi] and the two pointers delimit it. */
  ghost predicate Delimits(list: seq<Export>, first: Export?, last: Export?, lo: int, hi: int, h: nat) {
    if first == null then forall i :: 0 <= i < |list| ==> Bucket(list[i]) != h
    else
      && 0 <= lo < hi <= |list|
      && first == list[lo]
      && last == list[hi - 1]
      && (forall i :: 0 <= i < |list| ==> (Bucket(list[i]) == h <==> lo <= i < hi))
  }

  function Shift(bound: int, k: int): int { if bound >= k then bound + 1 else bound }

  lemma InsertKeepsOtherBucket(list: seq<Export>, first: Export?, last: Export?, lo: int, hi: int, h: nat,
                               k: nat, e: Export)
    requires Delimits(list, first, last, lo, hi, h) && k <= |list| && Bucket(e) != h
    requires first != null ==> k <= lo || hi <= k
    ensures Delimits(Inserted(list, k, e), first, last, Shift(lo, k), Shift(hi, k + 1), h)
  {
    var r := Inserted(list, k, e);
    assert forall i :: 0 <= i < k ==> r[i] == list[i];
    assert forall i :: k < i < |r| ==> r[i] == list[i - 1];
  }

  lemma InsertGrowsBucket(list: seq<Export>, first: Export?, last: Export?, lo: int, hi: int, h: nat, e: Export)
    requires Delimits(list, first, last, lo, hi, h) && Bucket(e) == h
    ensures first == null ==> Delimits(Inserted(list, 0, e), e, e, 0, 1, h)
    ensures first != null ==> Delimits(Inserted(list, hi, e), first, e, lo, hi + 1, h)
  {
    if first == null {
      var r := Inserted(list, 0, e);
      assert forall i :: 0 < i < |r| ==> r[i] == list[i - 1];
    } else {
      var r := Inserted(list, hi, e);
      assert forall i :: 0 <= i < hi ==> r[i] == list[i];
      assert forall i :: hi < i < |r| ==> r[i] == list[i - 1];
    }
  }

  /** Every bucket of the table is delimited. */
  ghost predicate Delimited(list: seq<Export>, first: seq<Export?>, last: seq<Export?>, lo: seq<int>, hi: seq<int>) {
    && |first| == HASH_TABLE_SIZE && |last| == HASH_TABLE_SIZE && |lo| == HASH_TABLE_SIZE && |hi| == HASH_TABLE_SIZE
    && (forall h :: 0 <= h < HASH_TABLE_SIZE ==> Delimits(list, first[h], last[h], lo[h], hi[h], h))
  }

  lemma DelimitedBucketsAreRuns(list: seq<Export>, first: seq<Export?>, last: seq<Export?>, lo: seq<int>, hi: seq<int>)
    requires Delimited(list, first, last, lo, hi)
    ensures BucketsAreRuns(list)
  {
    forall i, j, k | 0 <= i <= j <= k < |list| && Bucket(list[i]) == Bucket(list[k])
      ensures Bucket(list[j]) == Bucket(list[i])
    {
      var h := Bucket(list[i]);
      assert Delimits(list, first[h], last[h], lo[h], hi[h], h);
    }
  }

  lemma {:induction false} BehindBucket(list: seq<Export>, first: Export?, last: Export?, lo: int, hi: int, h: nat)
    requires Delimits(list, first, last, lo, hi, h)
    ensures Behind(list, h) == if first == null then 0 else hi
  {
    if list != [] {
      var n := |list| - 1;
      if first == null || hi <= n { BehindBucket(list[..n], first, last, lo, hi, h); }
    }
  }

  /** The place of a new entry is not inside another bucket. */
  lemma PlaceSplitsNoBucket(list: seq<Export>, first: seq<Export?>, last: seq<Export?>, lo: seq<int>, hi: seq<int>,
                            e: Export, h: nat)
    requires Delimited(list, first, last, lo, hi) && h < HASH_TABLE_SIZE && h != Bucket(e) && first[h] != null
    ensures Behind(list, Bucket(e)) <= lo[h] || hi[h] <= Behind(list, Bucket(e))
  {
    var b := Bucket(e);
    BehindBucket(list, first[b], last[b], lo[b], hi[b], b);
    assert Delimits(list, first[b], last[b], lo[b], hi[b], b);
    assert Delimits(list, first[h], last[h], lo[h], hi[h], h);
    if first[b] != null && lo[h] < hi[b] < hi[h] {
      assert false;
    }
  }

  ghost function ShiftAll(bounds: seq<int>, k: int): (r: seq<int>)
    ensures |r| == |bounds| && forall h :: 0 <= h < |bounds| ==> r[h] == Shift(bounds[h], k)
  {
    seq(|bounds|, h requires 0 <= h < |bounds| => Shift(bounds[h], k))
  }

  lemma AddKeepsDelimited(list: seq<Export>, first: seq<Export?>, last: seq<Export?>, lo: seq<int>, hi: seq<int>,
                          e: Export)
    returns (newLo: seq<int>, newHi: seq<int>)
    requires Delimited(list, first, last, lo, hi)
    ensures first[Bucket(e)] == null ==>
              && Behind(list, Bucket(e)) == 0
              && Delimited(Place(list, e), first[Bucket(e) := e], last[Bucket(e) := e], newLo, newHi)
    ensures first[Bucket(e)] != null ==>
              && 0 < Behind(list, Bucket(e)) && last[Bucket(e)] == list[Behind(list, Bucket(e)) - 1]
              && Delimited(Place(list, e), first, last[Bucket(e) := e], newLo, newHi)
  {
    var b, k := Bucket(e), Behind(list, Bucket(e));
    BehindBucket(list, first[b], last[b], lo[b], hi[b], b);
    newLo := ShiftAll(lo, k)[b := if first[b] == null then 0 else lo[b]];
    newHi := ShiftAll(hi, k + 1)[b := k + 1];
    forall h | 0 <= h < HASH_TABLE_SIZE && h != b
      ensures Delimits(Inserted(list, k, e), first[h], last[h], newLo[h], newHi[h], h)
    {
      if first[h] != null { PlaceSplitsNoBucket(list, first, last, lo, hi, e, h); }
      InsertKeepsOtherBucket(list, first[h], last[h], lo[h], hi[h], h, k, e);
    }
    InsertGrowsBucket(list, first[b], last[b], lo[b], hi[b], b, e);
  }

  /** Only a bucket's own run can hold the entry a plain scan would find. */
  lemma ScanOfRun(list: seq<Export>, lo: int, hi: int, client: Client, path: string)
    requires 0 <= lo <= hi <= |list|
    requires forall i :: 0 <= i < |list| && !(lo <= i < hi) ==> list[i].ent.path != path
    ensures FirstEntry(list, client, path) == FirstEntry(list[lo..hi], client, path)
  {
    DropBack(list, hi, client, path);
    SkipFront(list[..hi], lo, client, path);
    assert list[..hi][lo..] == list[lo..hi];
  }

  lemma {:induction false} SkipFront(list: seq<Export>, lo: nat, client: Client, path: string)
    requires lo <= |list| && forall i :: 0 <= i < lo ==> list[i].ent.path != path
    ensures FirstEntry(list, client, path) == FirstEntry(list[lo..], client, path)
  {
    if lo == 0 {
      assert list[0..] == list;
    } else {
      SkipFront(list, lo - 1, client, path);
      assert list[lo - 1..][1..] == list[lo..];
    }
  }

  lemma {:induction false} DropBack(list: seq<Export>, hi: nat, client: Client, path: string)
    requires hi <= |list| && forall i :: hi <= i < |list| ==> list[i].ent.path != path
    ensures FirstEntry(list, client, path) == FirstEntry(list[..hi], client, path)
    decreases |list| - hi
  {
    if hi == |list| {
      assert list[..hi] == list;
    } else {
      DropBack(list, hi + 1, client, path);
      AppendMiss(list[..hi], list[hi], client, path);
      assert list[..hi + 1] == list[..hi] + [list[hi]];
    }
  }

  lemma {:induction false} AppendMiss(list: seq<Export>, e: Export, client: Client, path: string)
    ensures FirstEntry(list, client, path).Some? ==>
              FirstEntry(list + [e], client, path) == FirstEntry(list, client, path)
    ensures FirstEntry(list, client, path).None? ==>
              FirstEntry(list + [e], client, path) == FirstEntry([e], client, path)
  {
    if list != [] {
      assert (list + [e])[1..] == list[1..] + [e];
      AppendMiss(list[1..], e, client, path);
    } else {
      assert list + [e] == [e];
    }
  }

  lemma InsertKeepsDistinct(list: seq<Export>, k: nat, e: Export)
    requires Distinct(list) && e !in list && k <= |list|
    ensures Distinct(Inserted(list, k, e))
  {
    var r := Inserted(list, k, e);
    assert forall i :: 0 <= i < k ==> r[i] == list[i];
    assert forall i :: k < i < |r| ==> r[i] == list[i - 1];
  }

  lemma LinkInFront(head: Export?, next: map<Export, Export?>, list: seq<Export>, e: Export)
    requires Linked(head, next, list) && e !in list
    ensures Linked(e, next[e := head], Inserted(list, 0, e))
  {
    assert Inserted(list, 0, e) == [e] + list;
  }

  lemma LinkBehind(head: Export?, next: map<Export, Export?>, list: seq<Export>, e: Export, k: nat)
    requires Linked(head, next, list) && Distinct(list) && e !in list && 0 < k <= |list|
    ensures Linked(head, next[list[k - 1] := e][e := next[list[k - 1]]], Inserted(list, k, e))
  {
    var r := Inserted(list, k, e);
    assert forall i :: 0 <= i < k ==> r[i] == list[i];
    assert forall i :: k < i < |r| ==> r[i] == list[i - 1];
    assert forall i :: 0 <= i < |list| && i != k - 1 ==> list[i] != list[k - 1];
  }

  /** All entries, in client-type then list order: the order in which the program walks them. */
  function Concat(lists: seq<seq<Export>>): seq<Export> {
    if lists == [] then [] else Concat(lists[..|lists| - 1]) + lists[|lists| - 1]
  }

  lemma ConcatStep(lists: seq<seq<Export>>, i: nat)
    requires i < |lists|
    ensures Concat(lists[..i + 1]) == Concat(lists[..i]) + lists[i]
  {
    assert lists[..i + 1][..i] == lists[..i];
  }

  // ----- the table of one client type --------------------------------------

  /** An exp_hash_table.  `next` holds the m_next links of the entries in its list. */
  class HashTable {
    const kind: int
    var head: Export?
    var next: map<Export, Export?>
    var first: seq<Export?>
    var last: seq<Export?>
    ghost var list: seq<Export>
    ghost var lo: seq<int>
    ghost var hi: seq<int>

    ghost predicate Valid()
      reads this
    {
      Delimited(list, first, last, lo, hi) && Distinct(list) && Linked(head, next, list)
    }

    constructor (kind: int)
      ensures Valid() && list == [] && this.kind == kind
    {
      this.kind := kind;
      head, next := null, map[];
      first := seq(HASH_TABLE_SIZE, _ => null);
      last := seq(HASH_TABLE_SIZE, _ => null);
      list := [];
      lo := seq(HASH_TABLE_SIZE, _ => 0);
      hi := seq(HASH_TABLE_SIZE, _ => 0);
    }

    /** In every valid table a bucket is one run holding all and only its entries. */
    lemma BucketsAreContiguous()
      requires Valid()
      ensures BucketsAreRuns(list)
    {
      DelimitedBucketsAreRuns(list, first, last, lo, hi);
    }

    /** What a walk along the list relies on. */
    lemma Walkable(i: int)
      requires Valid()
      ensures Distinct(list) && head == (if list == [] then null else list[0])
      ensures 0 <= i < |list| ==> list[i] in next && next[list[i]] == if i + 1 < |list| then list[i + 1] else null
    {
    }

    /** export_freeall's reset of one table. */
    method Clear()
      modifies this
      ensures Valid() && list == []
    {
      head, next := null, map[];
      first := seq(HASH_TABLE_SIZE, _ => null);
      last := seq(HASH_TABLE_SIZE, _ => null);
      list := [];
      lo := seq(HASH_TABLE_SIZE, _ => 0);
      hi := seq(HASH_TABLE_SIZE, _ => 0);
    }

    /** export_add (export.c:295-321): a new bucket goes to the front, an entry of an old one behind its last. */
    method Add(e: Export)
      requires Valid() && e !in list
      modifies this
      ensures Valid() && list == Place(old(list), e)
    {
      InsertKeepsDistinct(list, Behind(list, Bucket(e)), e);
      if first[Bucket(e)] == null {
        AddInFront(e);
      } else {
        AddBehind(e);
      }
    }

    method AddInFront(e: Export)
      requires Valid() && e !in list && first[Bucket(e)] == null && Distinct(Place(list, e))
      modifies this
      ensures Valid() && list == Place(old(list), e)
    {
      var h := Bucket(e);
      LinkInFront(head, next, list, e);
      lo, hi := AddKeepsDelimited(list, first, last, lo, hi, e);
      list := Place(list, e);
      first, last := first[h := e], last[h := e];
      next := next[e := head];
      head := e;
    }

    method AddBehind(e: Export)
      requires Valid() && e !in list && first[Bucket(e)] != null && Distinct(Place(list, e))
      modifies this
      ensures Valid() && list == Place(old(list), e)
    {
      var h := Bucket(e);
      ghost var newLo, newHi := AddKeepsDelimited(list, first, last, lo, hi, e);
      LinkBehind(head, next, list, e, Behind(list, h));
      var behind := next[last[h]];
      next := next[last[h] := e][e := behind];
      last := last[h := e];
      list, lo, hi := Place(list, e), newLo, newHi;
    }

    /** The bucket walk of export_lookup (export.c:372-380) finds what a plain scan of the list would find. */
    method Lookup(client: Client, path: string) returns (r: Option<Export>)
      requires Valid()
      ensures r == FirstEntry(list, client, path)
    {
      var h := Hash(path);
      assert Delimits(list, first[h], last[h], lo[h], hi[h], h);
      if first[h] == null {
        return None;
      }
      ScanOfRun(list, lo[h], hi[h], client, path);
      r := WalkRun(first[h], next[last[h]], client, path, lo[h], hi[h]);
    }

    /** Walks the list from `from`, which is list[lo], up to `stop`, which is what follows list[hi - 1]. */
    method WalkRun(from: Export?, stop: Export?, client: Client, path: string, ghost lo: nat, ghost hi: nat)
      returns (r: Option<Export>)
      requires Linked(head, next, list) && Distinct(list) && lo < hi <= |list|
      requires from == list[lo] && stop == next[list[hi - 1]]
      ensures r == FirstEntry(list[lo..hi], client, path)
    {
      var exp := from;
      ghost var i := lo;
      assert hi < |list| ==> next[list[hi - 1]] == list[hi];
      while exp != null && exp != stop
        invariant lo <= i <= hi
        invariant exp == if i < |list| then list[i] else null
        invariant forall j :: lo <= j < i ==> !IsEntry(list[j], client, path)
        decreases hi - i
      {
        if exp.client == client && exp.ent.path == path {
          FirstEntryAt(list[lo..hi], i - lo, client, path);
          return Some(exp);
        }
        exp := next[exp];
        i := i + 1;
      }
      assert i == hi;
      FirstEntryAt(list[lo..hi], hi - lo, client, path);
      r := None;
    }
  }
}
