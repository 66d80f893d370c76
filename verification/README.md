# A verified model of nfs-utils

This project models the parts of nfs-utils in which several functions keep one
promise together, and proves those promises in Dafny.

* **The export table.** `mountd` keeps every export in memory: one intrusive
  list per client type, in which each hash bucket is a run of neighbours.
  Reading the table file, creating and duplicating exports, the NFSv4 pseudo
  root pass (which inserts into the list it is walking), the kernel's export
  lookup with its per-client verdict cache and slash-count prefilter, the MOUNT
  path search, reference counts and the full free all work on that one
  structure. (`Clients`, `ExportTable`, `Exports`, `PseudoRoot`, `Reload`,
  `ClientNames`, `ExportLookup`, `Mountd`, `Paths`, `MountAuth`)
* **The thread work queue**, as atomic steps of a creator, a worker, any number
  of synchronous submit calls and any number of shutdown calls. (`WorkQueue`)
* **The glob matcher** `wildmat` with its three-valued answer. (`Wildmat`)
* **The NSM database**: the state number under crashes and failing system
  calls, and the monitor records. (`NsmState`, `NsmRecords`)
* **Retries**: the queue of file handle requests `mountd` could not answer.
  (`DelayedQueue`)
* **Text forms**: the kernel's quoted-word records, the `sec=` option lists,
  and systemd unit names. (`Qword`, `SecInfo`, `Systemd`)

`Wrappers` and `CStrings` hold what several modules share.

## How to read it

Code that changes things step by step is a method or a class here, proved
against a specification function; what the code promises is then proved of that
function, or is an invariant every method keeps. Code that only computes is a
function. Protocols are state machines: `Enabled` and `Do` give one atomic
step, and the results hold for every run.

The main results, and what each is measured against:

| result | independent meaning |
|---|---|
| hashed lookup | `FirstEntry`, a linear scan for the first entry with that client and path |
| bucket layout | `BucketsAreRuns`, equal buckets only next to each other |
| pseudo root pass | `Rooted` and `Extends`: exactly one entry at each ancestor, nothing lost, nothing unjustified; `RootedMeans` puts it in components of paths |
| kernel lookup | `PlainWalk`, every entry judged by the uncached verdict and the path; `IsBest` says which entry that is, and `FindsTheNearestExport` which directory it is for |
| MOUNT search | `Decided`: the nearest entry for the caller, found by components of paths, and its port rule |
| reference counts | `Refs`, the number of listed entries that point to a client |
| composed client list | `Sorted` and the multiset of matching names |
| name-list verdict | the address verdict, client by client |
| glob matcher | `Denotes`, the language of a pattern |
| work queue | `Reachable` states; the ghost orders `submitted` and `ran` |
| state number | the ghost list of all numbers ever stored; `IsLeastOdd` for the number of one call |
| reload | `Rebuilt`: what the entries of the file say, and the pseudo root exactly when no accepted entry is the root |
| retries | the history of attempts, request by request |
| record deletion | `Without` on the list of records |
| quoted words, options, unit names | reading back what was written |

Some things the code does not achieve in general. They come with the exact
condition under which it does:

* A shutdown can let the worker free the queue under another call. If no call
  begins once the shutdown flag is set, it can do so exactly when another call,
  submit or shutdown, is in progress at that moment, be it only waiting for the
  mutex, or the worker had already left (`FreeOvertakesExactlyCallsInProgress`;
  `FreeCanOvertakeACall` is a run).
* A state file that is there but cannot be read restarts the state number at 3,
  so over any run the stored numbers grow exactly when no update that began
  with such a read took effect after one of 3 or more had been stored
  (`StoredNumbersGrowExactlyWhen`; `ReadErrorLosesTheCount` is a run).
* `qword_addhex` leaves a wrong record with a positive count exactly for no
  bytes and two places left (`AddHex`).
* `qword_addint` and `qword_adduint` write outside the buffer exactly when the
  count is negative and the number, its blank and its terminator do not happen
  to fit behind the place where the last field broke off (`AddNumber`). Behind a
  text that did not fit, every number of two characters or more goes astray
  (`NumberBehindLostText`).
* `qword_get` writes its terminator outside the destination exactly for hex
  digits whose bytes fill it (`TerminatorFitsExactlyWhen`).
* Composing a client list keeps the names, sorted and each as often as it
  matched, exactly when no name holds a comma and an empty one does not come
  first (`KeepsNamesExactlyWhen`).
* Among names without commas the order of the clients does not matter for the
  composed list exactly when none of the names is empty or all are
  (`OrderDoesNotMatterExactlyWhen`; `OrderMattersWithEmptyNames` is a pair of
  lists). For names with commas no exact condition is given, only that the order
  can matter (`OrderMattersWithCommas`).
* Creating an export keeps keys unique exactly when the key was not there
  (`AddKeepsUniqueExactlyWhen`).
* Fixing up an entry's flags only sets them, so a flavor can keep a flag that
  may not vary after a later option cleared it for the entry. The flags agree,
  as the comment asks, exactly when no flavor holds such a flag
  (`FixMakesUniformExactlyWhen`). Seen from the option list: exactly when no
  such flag is cleared for the last time while a flavor that has it is not
  active (`ListEndsUniformExactlyWhen`; `LaterOptionLeavesFlavorBehind` is a
  list).
* Two clients of one name share their name-list verdict, so it is the address
  verdict of *some* client of that name (`ListedMeansSomeMatch`), and of the
  client itself when names are distinct (`VerdictsAgree`).

Two more need an assumption the code cannot check: without exact path identity
a shorter match can win (`ShorterCanWin`; `LongestIsFoundExactlyWhen` says for
any list when it does not), and without a clock that only goes forward a request
is retried early (`ClockBackRetriesEarly`).

Name resolution, netgroups, the validity of a network, "same directory" by file
handle or inode, and kernel features are arbitrary but fixed parameters. Of them
it is only assumed that a name that resolves has an address and that the
validity of a network does not depend on the case of letters, in which
`client_lookup` compares names too. Clocks, DNS answers and results of system
calls are parameters or part of a step.

Where a comment and the code differ, the model follows the code: unit names
keep `:` unescaped although the quoted rule does not list it, and the length
computed for a unit name with a leading dot counts that dot twice.

## Model

| member | source | states |
|---|---|---|
| WorkQueue.XworkQueue.constructor | support/misc/workqueue.c:25-30 | the queue starts empty |
| WorkQueue.XworkQueue.Enqueue | support/misc/workqueue.c:32-38 | the item becomes the last of the linked list, and head, tail and links stay consistent |
| WorkQueue.XworkQueue.Dequeue | support/misc/workqueue.c:40-50 | the first item is unlinked and returned, or nothing when there is none |
| WorkQueue.StepKeepsInv | support/misc/workqueue.c:78-180 | every atomic step of every thread keeps the invariant on mutex, queue, jobs, sleep and start-up |
| WorkQueue.RunsKeepInv | support/misc/workqueue.c:78-180 | so does every interleaving |
| WorkQueue.ReturnsAfterOneRun | support/misc/workqueue.c:164-180 | in every reachable state a function ran at most once, and a submit call that can return has had its function run exactly once |
| WorkQueue.RunsInQueueOrder | support/misc/workqueue.c:78-104 | functions run in the order of queueing, and ran, in hand and queued together are exactly what was submitted |
| WorkQueue.WorkerTouchesOnlyBlockedCalls | support/misc/workqueue.c:97-104 | the item the worker holds or will take belongs to a call that is blocked, so the item on that call's stack still exists |
| WorkQueue.NoLostWakeup | support/misc/workqueue.c:91-118 | a sleeping worker has no work and no shutdown, or a signal is about to be sent under the mutex; a waiting call's job is queued or in hand |
| WorkQueue.LeavesOnlyWhenDone | support/misc/workqueue.c:97-110 | as the worker leaves there was a shutdown, the queue is empty, every submitted job has run and no call waits |
| WorkQueue.NothingRunsAfterwards | support/misc/workqueue.c:97-110 | once it has left nothing runs any more in any run, and a call that waits then waits for ever |
| WorkQueue.StepLowersRank | support/misc/workqueue.c:91-180 | every step lowers a bound on the steps still possible |
| WorkQueue.RunsEnd | support/misc/workqueue.c:91-180 | no run is longer than that bound allows |
| WorkQueue.StuckMeansDone | support/misc/workqueue.c:91-180 | there is no deadlock: when nobody can move and the queue is not freed, every call has returned |
| WorkQueue.EveryCallReturns | support/misc/workqueue.c:164-180 | without a shutdown, every maximal run has answered and run every call |
| WorkQueue.FreeCanOvertakeACall | support/misc/workqueue.c:120-137 | a run in which the worker frees the queue under a call that has been answered and still needs the mutex |
| WorkQueue.DoomedIsOvertaken | support/misc/workqueue.c:91-137 | after a shutdown, a call that is not about to give the mutex back can always be overtaken by the release, without any new call |
| WorkQueue.NotDoomedIsSafe | support/misc/workqueue.c:91-137 | after a shutdown with no such call, submit or shutdown, waiting for the mutex or not, no run without new calls frees the queue under a call |
| WorkQueue.FreeOvertakesExactlyCallsInProgress | support/misc/workqueue.c:112-137 | if no call begins after the flag is set, the queue can be freed under a call if and only if another call is in progress then, at least waiting for the mutex, or the worker had left |
| WorkQueue.FirstShutdownIsSafeExactlyWhenAlone | support/misc/workqueue.c:112-137 | for the first shutdown the condition is that no other call is in progress |
| Wildmat.SingleStepAbort | support/nfs/wildmat.c:75-89 | an ABORT for the rest of pattern and text is one for the whole, behind a token for one character |
| Wildmat.StarAbort | support/nfs/wildmat.c:97-100 | an ABORT behind a star is one for the starred pattern |
| Wildmat.StarsCollapse | support/nfs/wildmat.c:91-93 | consecutive stars have the language of one |
| Wildmat.TrailingStar | support/nfs/wildmat.c:94-96 | a trailing star accepts every text |
| Wildmat.ScanItems | support/nfs/wildmat.c:110-115 | the scan ends at the closing bracket and has matched exactly when some item accepts the character |
| Wildmat.MatchClass | support/nfs/wildmat.c:101-118 | the bracket case succeeds exactly when the token accepts the character, and stops behind it |
| Wildmat.MatchStar | support/nfs/wildmat.c:90-100 | the star case says TRUE exactly on the language, otherwise ABORT, and then no suffix of the text matches |
| Wildmat.DoMatch | support/nfs/wildmat.c:68-127 | TRUE exactly when the text is in the pattern's language; ABORT only when no suffix of the text is; the recursion ends |
| Wildmat.Match | support/nfs/wildmat.c:133-141 | true exactly on the language of the pattern |
| Wildmat.CharacterMatchesItself | support/nfs/wildmat.c:75-87 | an escaped character, and one that is not special, stand for themselves in either case of a letter, in front of any pattern |
| Wildmat.WildcardsMatchAnything | support/nfs/wildmat.c:88-100 | a question mark stands for any one character and a star for any text, in front of any pattern |
| Wildmat.RangeMatchesBetween | support/nfs/wildmat.c:101-118 | a range stands for its first character in either case and those between its ends, as signed chars; a caret turns it round |
| Clients.TypeMeans | support/export/client.c:782-806 | every identifier without a backslash: empty or a star is everybody, then by its beginning, and otherwise the first of `*?[/` makes it a wildcard or a network, and none a host |
| Clients.EscapedIsPlain | support/export/client.c:796-803 | behind plain characters, a backslash takes the meaning from the character that follows it |
| Clients.SameNameMeans | support/export/client.c:288-292 | names are the same exactly when they differ in the case of ASCII letters only |
| Clients.WhoMatches | support/export/client.c:750-772 | a host client matches exactly the callers that share an address with it, an anonymous one all, a GSS one none |
| Clients.FindMeans | support/export/client.c:268-314 | whether a client is found, by address for a host and by name otherwise, and the canonical name and at most sixteen addresses of the one to be made |
| Clients.FindIsStable | support/export/client.c:248-293 | a client appended to its list never changes what an earlier successful lookup finds |
| Clients.AddedIsFound | support/export/client.c:268-314 | the client made for a missing name is the one the next lookup of that name finds |
| ExportTable.PlaceSplitsNoBucket | support/export/export.c:309-320 | the place of a new entry is never inside another bucket's run |
| ExportTable.AddKeepsDelimited | support/export/export.c:309-320 | after an insertion first and last pointers delimit, bucket by bucket, all and only its entries |
| ExportTable.DelimitedBucketsAreRuns | support/export/export.c:295-321 | buckets delimited that way are contiguous runs of the list |
| ExportTable.ScanOfRun | support/export/export.c:372-380 | a scan of the bucket's run finds what a scan of the whole list finds |
| ExportTable.HashTable.BucketsAreContiguous | support/export/export.c:295-321 | in every valid table each bucket is one contiguous run |
| ExportTable.HashTable.Add | support/export/export.c:295-321 | the pointer updates insert at the front or behind the bucket's last entry, and keep the list linked, distinct and delimited |
| ExportTable.HashTable.Lookup | support/export/export.c:372-380 | the bucket walk returns the first entry of the whole list with that client and path, or nothing if there is none |
| ExportTable.HashTable.Clear | support/export/export.c:408-412 | the reset leaves an empty valid table |
| Exports.RefsOfInserted | support/export/export.c:244-260 | an insertion adds one reference to its own client and none to any other |
| Exports.AddKeepsTyped | support/export/export.c:295-321 | it keeps entries with the list of their client's type and adds one reference to its client |
| Exports.AddKeepsUniqueExactlyWhen | support/export/export.c:295-321 | keys stay unique if and only if the new one was not there |
| Exports.LookupIsStable | support/export/client.c:268-314 | resolution being fixed, a client looked up is found again, and every entry's host still leads to its client |
| Exports.LookedUpExactlyWhenAccepted | support/export/client.c:268-314 | a client is found or made if and only if the name of a host resolves, when that is asked for, and a network is valid |
| Exports.ExportList.AddClient | support/export/client.c:248-258 | the client goes to the end of the list of its type, with no reference |
| Exports.ExportList.ClientLookup | support/export/client.c:268-314 | the client the lists hold, a new one at the end, or none, which is exactly for a host that is not accepted; the same name finds it afterwards, and the table's invariant holds |
| Exports.ExportList.Lookup | support/export/export.c:359-381 | the first entry for the looked-up client and path in the list of its type, or nothing if there is none |
| Exports.ExportList.Link | support/export/export.c:244-260 | the reference and the insertion together keep every count equal to the number of entries that point to the client |
| Exports.ExportList.Create | support/export/export.c:227-242 | a new entry for the host's client is inserted if and only if the host is accepted, or nothing changes; buckets and counts stay right, and keys stay unique if this one was not there |
| Exports.ExportList.Dup | support/export/export.c:267-293 | the copy has the same options, belongs to a new FQDN client of its own with one reference and no cached verdict, and the table stays valid |
| Exports.ExportList.ExportFind | support/export/export.c:331-348 | the first entry, by client type and then list order, with this path and a client that matches the address; itself if it is for a single host, else a new copy with the same options for a new client of the host's canonical name and addresses; nothing if and only if there is none; the lists gain the copy and nothing else |
| Exports.ExportList.Release | support/export/client.c:355-361 | one reference less, and never called at zero |
| Exports.ExportList.ReleaseTable | support/export/export.c:403-407 | the walk along a list takes the counts of all its clients to zero and leaves the others |
| Exports.ExportList.FreeTable | support/export/export.c:402-413 | one list is emptied and every count still equals the references left |
| Exports.ExportList.FreeAll | support/export/export.c:396-415 | the full free never meets a count of zero too early and ends with every count at zero and every list empty |
| PseudoRoot.PlaceAmongReals | support/export/v4root.c:243-261 | the place of a real entry among the real ones does not depend on pseudo entries added around it, so the walk resumes where it was |
| PseudoRoot.PseudofsUpdate | support/export/v4root.c:174-193 | afterwards there is an entry at the path for the source's client; nothing is lost, and what is new is a pseudo export on the way to the source with the fsid it was made with |
| PseudoRoot.AddParents | support/export/v4root.c:195-221 | afterwards "/" and every prefix that ends before a slash has an entry for the export's client |
| PseudoRoot.Visit | support/export/v4root.c:252-259 | one real entry's turn: its ancestors are covered, "/" gets fsid 0 if it had none, and the entries already passed stay passed |
| PseudoRoot.WalkTable | support/export/v4root.c:244-261 | the loop ends although it inserts into the list it walks, covers every real entry of the list, and gives fsid 0 exactly to real entries at "/" without one |
| PseudoRoot.CoveredIsRooted | support/export/v4root.c:230-265 | with unique keys, covered entries have exactly one entry at each ancestor |
| PseudoRoot.PrefixesAreAncestors | support/export/v4root.c:195-221 | for a clean path the places that get an entry are exactly "/" and the paths of the directories above it, by components |
| PseudoRoot.RootedMeans | support/export/v4root.c:230-265 | in a rooted list every directory above a real export has exactly one entry for its client |
| PseudoRoot.V4rootSet | support/export/v4root.c:230-265 | after the pass every real export has an entry at "/" and at each ancestor for its client, and exactly one if keys were unique; real exports keep their identity and order; every added entry is V4ROOT, takes any port, crosses no mount and has fsid 0 at "/" and none elsewhere; a real export at "/" without fsid gets 0; every client of a real export has an entry at "/" with an fsid; without need or support nothing changes |
| Reload.ReadEntry | support/export/xtab.c:50-73 | an entry whose host is accepted is served afterwards, everything served before still is, and nothing else is added; it is the root if and only if it is accepted and has fsid 0 |
| Reload.ReadEntries | support/export/xtab.c:35-88 | reading into an empty table serves every accepted entry and holds nothing else; a pseudo root is needed if and only if no accepted entry has fsid 0 |
| Reload.Reload | support/export/auth.c:117-121 | from any table: old counts end at zero, all accepted entries are served, only these are real, keys are unique; if pseudo roots are supported and no accepted entry has fsid 0 the tree is rooted, and otherwise the table holds entries of the file only; whatever is not from the file is V4ROOT, takes any port, crosses no mount and has fsid 0 at "/" only; real entries keep the file's fsid, except that "/" gets 0; every client of a real export has an entry at "/" with an fsid |
| ClientNames.LessIsTotal | support/export/client.c:456-467 | name comparison is a strict total order |
| ClientNames.LessIsTransitive | support/export/client.c:456-467 | and transitive |
| ClientNames.LessMeans | support/export/client.c:456-467 | it is dictionary order on signed chars: a proper beginning first, otherwise the first difference decides |
| ClientNames.NameCmp | support/export/client.c:456-467 | negative, zero or positive as the name up to its comma is less than, equal to or greater than the other |
| ClientNames.FindPlace | support/export/client.c:482-490 | the walk stops at the end or at the first name that is not less, and what it passed stays as it is |
| ClientNames.AddName | support/export/client.c:469-507 | for any two strings: the list with the new name inserted among its pieces, or the name alone if there was no list or an empty one |
| ClientNames.Assemble | support/export/client.c:491-504 | the copies put the text together, and each with its terminator stays inside a buffer of the two lengths and two characters more |
| ClientNames.SortSorts | support/export/client.c:469-507 | inserting one by one sorts and keeps every name as often as it came |
| ClientNames.SortedIsUnique | support/export/client.c:414-429 | there is only one sorted list of a multiset of names |
| ClientNames.ComposedIsSorted | support/export/client.c:414-429 | names without commas, the first of several not empty, compose to their sorted join |
| ClientNames.KeepsNamesExactlyWhen | support/export/client.c:414-429 | the pieces of the composed list are the names, sorted and with multiplicity, if and only if no name holds a comma and an empty one does not come first |
| ClientNames.OrderMattersWithCommas | support/export/client.c:482-490 | two orders of the same names, one with a comma, that compose to different lists |
| ClientNames.OrderDoesNotMatterExactlyWhen | support/export/client.c:414-429 | among names without commas, all orders of the clients compose to one string if and only if no name is empty or all are |
| ClientNames.OrderMattersWithEmptyNames | support/export/client.c:491-504 | two orders of an empty name and another that compose to different lists |
| ClientNames.OrderDoesNotMatter | support/export/client.c:414-429 | for non-empty names without commas the composed string does not depend on the order of the clients |
| ClientNames.Compose | support/export/client.c:414-429 | the names of all clients that match, added one by one; with non-empty names without commas, their sorted join |
| ClientNames.Member | support/export/client.c:439-454 | true exactly when the name stands between commas in the list |
| ClientNames.ListedInJoin | support/export/client.c:439-454 | in a joined list of names exactly its names are listed |
| ClientNames.ListedMeansSomeMatch | support/export/client.c:414-454 | a name is listed for an address exactly when some client of that name matches the address |
| ClientNames.VerdictsAgree | support/export/auth.c:155-163 | with distinct names the name-list verdict on a client is its address verdict |
| ExportLookup.VerdictMeans | support/export/auth.c:155-163 | a domain that starts with `$` is judged by address, any other by whether the client's name is among the names of the list |
| ExportLookup.PathMatchesWhatItCovers | support/export/cache.c:598-620 | under exact path identity, for clean paths: the entry is for that path, or it is CROSSMOUNT and its components are a proper beginning of the path's |
| ExportLookup.PathMatchesExactlyWhen | support/export/cache.c:575-620 | for any same-directory answer: the path is the entry's directory, or the entry is CROSSMOUNT and for "/" or for a part of the path in front of a slash |
| ExportLookup.MatchCache.Begin | support/export/auth.c:213-226 | a bracket opens with a generation no client carries, never zero |
| ExportLookup.MatchCache.ClientMatches | support/export/auth.c:233-252 | the verdict is the uncached one; inside a bracket it is remembered; outside, the stamps are neither read nor written |
| ExportLookup.PrefilterIsSound | support/export/cache.c:622-639 | without CROSSMOUNT a different number of slashes means the path test fails |
| ExportLookup.ExportMatches | support/export/cache.c:626-657 | prefilter, cached verdict and path test together are the plain conjunction |
| ExportLookup.WalkTable | support/export/cache.c:1267-1303 | the inner loop continues the plain walk by one list |
| ExportLookup.LookupExportWalk | support/export/cache.c:1257-1306 | the nested loops find what the plain walk over all lists finds |
| ExportLookup.LookupExport | support/export/cache.c:1308-1324 | so does the bracketed lookup, for every fixed same-directory answer, and it leaves the cache closed |
| ExportLookup.WalkFindsBest | support/export/cache.c:1266-1304 | when plain matches agree in length the walk finds nothing only if nothing matches, else the first of the longest real matches, or the first match if none is real |
| ExportLookup.ExactWalkFindsBest | support/export/cache.c:1257-1306 | under exact path identity that is always so |
| ExportLookup.FindsTheNearestExport | support/export/cache.c:1257-1306 | under exact path identity the lookup finds nothing only if no entry for the caller covers the path, a V4ROOT entry only if no real one does, and otherwise a real one that every other real one is at or above |
| ExportLookup.ShorterCanWin | support/export/cache.c:1284-1302 | without it, a shorter match that comes first wins over a longer one |
| ExportLookup.BestOfTwoExactlyWhen | support/export/cache.c:1284-1302 | of two real matches the first is kept if and only if the second is not longer or neither is CROSSMOUNT, and the better one is found if and only if the second is not longer or one is CROSSMOUNT |
| ExportLookup.LongestIsFoundExactlyWhen | support/export/cache.c:1266-1304 | in any list, the first of the longest real matches is found if and only if it is CROSSMOUNT or the walk of what precedes it found nothing, a V4ROOT entry or a CROSSMOUNT one |
| Mountd.Server.Lookup | support/export/cache.c:1308-1324 | in every valid state below 2^64 walks a lookup finds what a plain walk of the present table finds |
| Mountd.Server.ReloadTable | support/export/auth.c:117-121 | a reload keeps the stamps sound, has only new clients, serves the entries of the file, is rooted if that is supported and no accepted entry has fsid 0, and otherwise holds entries of the file only |
| Mountd.Server.Create | support/export/export.c:227-242 | a creation keeps the stamps sound, happens if and only if the host is accepted, and the client it may add is new |
| Mountd.Server.Duplicate | support/export/client.c:325-349 | a duplication keeps the stamps sound, because the copy belongs to a new client without a verdict; the copy has the options of the original, for the one host |
| Mountd.Server.FindOrCopy | support/export/export.c:331-348 | export_find keeps the stamps sound; its answer is none exactly when no entry suits, the first that suits if it is for a single host, and else a copy, which is all the table gains |
| Mountd.Server.Serve | support/export/cache.c:1308-1324 | over any sequence of walks, reloads, creations and finds with fewer than 2^64 walks, every walk's answer is that of a plain walk of the table of that moment, and each table and each other answer follow from the table before: a reload rebuilds and roots it, a creation adds one entry if and only if the host is accepted, a find adds a copy exactly when the first entry that suits is not for a single host |
| Mountd.Life | support/export/auth.c:210-252 | the same from an empty table on |
| Paths.ComponentsSplit | support/export/auth.c:338-348 | a path cut at a slash falls into two lists of components |
| MountAuth.CleanedIsClean | support/export/auth.c:390-402 | a cleaned path has no double slash, no trailing slash unless it is "/", and the same components |
| MountAuth.FixPath | support/export/auth.c:390-402 | the in-place loops compute the cleaned path |
| Paths.AncestorsAreAncestors | support/export/auth.c:338-348 | every prefix the search tries has a prefix of the path's components |
| Paths.TriesExactlyTheAncestors | support/export/auth.c:330-348 | for a cleaned path the names tried are exactly the clean names of its ancestors and its own, so no entry is missed for being spelt differently |
| MountAuth.Newcache | support/export/auth.c:273-291 | outside a bracket the walk finds the first real entry at exactly that path whose client matches, and touches no stamp |
| MountAuth.Internal | support/export/auth.c:294-311 | the first usable entry for exactly this path decides: granted if it takes any port or the port is below 1024, and otherwise refused for the port, not passed over; not exported if there is none |
| MountAuth.AnswerIsUnique | support/export/auth.c:338-348 | there is one answer per table, path and port |
| MountAuth.LongestIsNearest | support/export/auth.c:338-348 | the first usable entry at the longest length tried is the nearest entry that serves the path: every other is above it or later for the same directory |
| MountAuth.AnsweredIsDecided | support/export/auth.c:294-348 | the answer of the search is the decision of the nearest entry by its port rule, and not exported exactly when no entry serves the path |
| MountAuth.DecisionIsUnique | support/export/auth.c:294-348 | which is one answer for every table, path and port |
| MountAuth.Search | support/export/auth.c:338-348 | on every absolute path the loop ends with the answer of the longest prefix at a slash, or all of it, that has a usable entry, or refuses when there is none |
| MountAuth.GetClientHostname | support/export/auth.c:137-153 | by address: `$` and the address; otherwise no name exactly when no client matches, `DEFAULT` for one match with an empty name, and the sorted list of the matching names when all are proper |
| MountAuth.CallerIsWhoMatches | support/export/auth.c:137-163 | with distinct proper names, a client stands for the caller exactly when it matches the caller's address, and a caller without a name matches none |
| MountAuth.Authenticate | support/export/auth.c:313-388 | relative paths, unresolved callers and callers that match no client are refused; otherwise it is granted by the real entry for the caller with the longest beginning of the requested path's components, the first such in the table, if that takes any port or the port is below 1024, refused as an illegal port if it does not, and not exported exactly when there is no such entry |
| NsmState.StepKeepsInv | support/nsm/file.c:455-507 | every system call, failure and crash keeps the file whole and the stored numbers growing, apart from a late read error |
| NsmState.RunKeepsInv | support/nsm/file.c:455-507 | so does every run |
| NsmState.StateFileIsAlwaysWhole | support/nsm/file.c:212-263 | in every run with any failures and crashes, the state file is absent or one complete number |
| NsmState.StoredNumbersGrow | support/nsm/file.c:212-263 | the numbers stored are strictly increasing and the last one is in the file |
| NsmState.UpdatesReturnGrowingOddNumbers | support/nsm/file.c:455-507 | a successful update returns an odd number above all stored before it, and a successful call that does not update the least odd number not below the last stored |
| NsmState.UpdateStoresTheNextOdd | support/nsm/file.c:491-506 | an update in which nothing fails stores and returns the least odd number more than one above the last, from every number and stray temporary file |
| NsmState.ReadReturnsAnOdd | support/nsm/file.c:491-506 | a call without update in which nothing fails returns the least odd number not below the last and leaves the disk as it is |
| NsmState.FirstCallStoresThree | support/nsm/file.c:466-506 | a call on a missing file in which nothing fails stores and returns 3 |
| NsmState.ReturnsZeroExactlyWhen | support/nsm/file.c:450-506 | over every run a call returns zero if and only if one of its own steps failed: opening other than for a missing file, creating, writing, closing or renaming |
| NsmState.ReadErrorRestarts | support/nsm/file.c:481-489 | after a failed read the next number is 3, and growth survives exactly when none of 3 or more was stored |
| NsmState.StoredNumbersGrowExactlyWhen | support/nsm/file.c:455-507 | over every run with any failures and crashes, the stored numbers grow if and only if no update that began with a read error took effect after a number of 3 or more had been stored |
| NsmState.ReadErrorLosesTheCount | support/nsm/file.c:481-489 | a run that shows the loss, for every stored number of 3 or more |
| NsmRecords.HexRoundTrip | support/nsm/file.c:662-666 | fixed-width hex reads back |
| NsmRecords.ParsePrinted | support/nsm/file.c:803-842 | parsing undoes printing for every record whose names hold no white space |
| NsmRecords.PrivToHex | support/nsm/file.c:632-648 | the whole cookie, or an error exactly when it does not fit |
| NsmRecords.CreateRecord | support/nsm/file.c:653-685 | the whole record, or an error exactly when it does not fit |
| NsmRecords.Insert | support/nsm/file.c:745-801 | the record goes to the end of the file, which may be new, unless it is too long for the line buffer |
| NsmRecords.AppendedFile | support/nsm/file.c:687-735 | inserting keeps the file a concatenation of printed records |
| NsmRecords.DeleteHost | support/nsm/file.c:971-1063 | for every content: left alone on a parse error or lack of room, unlinked when nothing was copied, else rewritten with what was copied |
| NsmRecords.RemainingRecords | support/nsm/file.c:1009-1042 | on a file of records the copy is the printed records without the pair, and the room suffices |
| NsmRecords.DeleteLeavesTheOthers | support/nsm/file.c:971-1063 | deleting leaves exactly the other records, in order and byte for byte, and the file goes exactly when none are left |
| NsmRecords.WithoutOne | support/nsm/file.c:1026-1028 | a record goes exactly when both its names are those given |
| NsmRecords.WithoutConcat | support/nsm/file.c:1009-1042 | records go or stay one by one, in order |
| NsmRecords.LowerCaseHex | support/nsm/file.c:662-666 | hex digits are printed in lower case |
| DelayedQueue.Queue.NfsdFh | support/export/cache.c:1031-1070 | the walk along the links appends an undecided request, in a new node, behind all others; the list stays linked and holds every undecided request exactly once |
| DelayedQueue.Queue.BeforeWait | support/export/cache.c:1845-1855 | the wait is the least after which the head is due, and the list still holds every undecided request exactly once |
| DelayedQueue.Queue.AfterWait | support/export/cache.c:1858-1867 | a head that is due is unlinked and tried; undecided, the same node goes behind all others, so that every undecided request is still there exactly once, in nodes that were there before |
| DelayedQueue.Queue.Append | support/export/cache.c:1065-1069 | the walk to the last link puts the node at the end of the linked list |
| DelayedQueue.Queue.RetryFh | support/export/cache.c:1072-1087 | a decided request leaves the queue, an undecided one goes to its end with the time its attempt ended |
| DelayedQueue.Queue.Drive | support/export/cache.c:1031-1087 | any sequence of arrivals, preparations and retries leaves the linked list as the run of the state machine says |
| DelayedQueue.Life | support/export/cache.c:1845-1867 | from an empty queue on the linked list holds every undecided request once, and with a clock that does not go back it is sorted and nothing is retried early |
| DelayedQueue.RunKeepsOrder | support/export/cache.c:1031-1087 | with a clock that does not go back the queue stays sorted by last attempt |
| DelayedQueue.HeadDecides | support/export/cache.c:1845-1867 | then the head alone decides whether anything is due, and the wait ends as the first request becomes due |
| DelayedQueue.RunHoldsUndecided | support/export/cache.c:1031-1087 | in every run, whatever the clock does, a request is queued, once and as it arrived, exactly when no attempt at it has been decided |
| DelayedQueue.NothingIsRetriedEarly | support/export/cache.c:1858-1867 | with a clock that does not go back, any two attempts at one request are at least 120 seconds apart, from the end of the earlier to the beginning of the later, and the queue holds the end of the last one |
| DelayedQueue.ClockBackRetriesEarly | support/export/cache.c:1848-1850 | a run with a clock that went back, in which two attempts at one request are closer |
| Qword.EncodedTextIsOneWord | support/nfs/cacheio.c:35-68 | a text is written without blank, tab or newline, and every backslash written starts an octal escape |
| Qword.OrdinaryTextStays | support/nfs/cacheio.c:35-68 | a text without blanks, tabs, newlines and backslashes is written as it is |
| Qword.BytesInHex | support/nfs/cacheio.c:70-96 | each byte is written as two lower-case hex digits, the high one first |
| Qword.Message.AddText | support/nfs/cacheio.c:35-68 | the escaped field is appended whole, or the count goes to zero or below and stays there; nothing is written outside the buffer |
| Qword.Message.AddHex | support/nfs/cacheio.c:70-96 | likewise for a hex field, except for no bytes with two places left, where a bare blank is written |
| Qword.Message.AddNumber | support/nfs/cacheio.c:98-118 | likewise for a number, but it writes outside the buffer if and only if the count was negative and the number with blank and terminator does not fit at the position |
| Qword.NumberBehindLostText | support/nfs/cacheio.c:35-118 | a text that does not fit and then a number of two characters or more always write outside the buffer |
| Qword.Message.AddEol | support/nfs/cacheio.c:120-127 | with a positive count the buffer is exactly the encoded fields and a newline |
| Qword.QwordGet | support/nfs/cacheio.c:129-176 | the value in the destination and its length, or an error, and the position, which moves only on success; whether every write, terminator included, stayed inside the destination |
| Qword.EscapesAreRead | support/nfs/cacheio.c:151-167 | every octal escape up to 377 is read as the character of that value, and a larger one as it stands |
| Qword.TerminatorFitsExactlyWhen | support/nfs/cacheio.c:140-175 | the terminator stays inside the destination if and only if the value is not hex digits whose bytes fill it |
| Qword.GetEncoded | support/nfs/cacheio.c:129-176 | a field that fits is read back whole and the reader stands at the next one |
| Qword.EncodedTerminator | support/nfs/cacheio.c:129-176 | for a written field that fits, that is: unless it is a hex field of exactly the size of its destination |
| Qword.TooLongIsRejected | support/nfs/cacheio.c:151-171 | text or a number too long for its destination is an error, never cut short |
| Qword.RecordRoundTrip | support/nfs/cacheio.c:129-176 | successive reads of a record return its fields in order, up to the newline, and all writes stay inside exactly when no hex field fills its destination |
| Qword.QwordGetInt | support/nfs/cacheio.c:178-190 | unless the field's terminator went outside the number buffer: the number with base detection, range clamping and truncation to int, or an error for an empty field or trailing characters |
| Qword.QwordGetUint | support/nfs/cacheio.c:192-204 | likewise unsigned |
| Qword.NumberTerminatorFits | support/nfs/cacheio.c:178-204 | no printed number sends its terminator outside |
| Qword.NumberReadsBack | support/nfs/cacheio.c:98-118 | every int and every unsigned int that was written is the one that is read |
| Qword.HexNumber | support/nfs/cacheio.c:178-204 | digits behind `0x` are read in base sixteen |
| Qword.OctalNumber | support/nfs/cacheio.c:178-204 | digits that start with a zero are read in base eight |
| Qword.IntsWrap | support/nfs/cacheio.c:178-190 | every number is cut to 32 bits by value, after being held to the range of a long |
| Qword.UintsWrap | support/nfs/cacheio.c:192-204 | likewise unsigned, a negative number modulo the size of a long |
| SecInfo.SharedNumbers | support/nfs/exports.c:39-48 | two names are one flavor exactly for unix and sys, and for null and none |
| SecInfo.AccessKeywords | support/nfs/exports.c:663-720 | the flag each keyword on access sets or clears |
| SecInfo.MountKeywords | support/nfs/exports.c:663-720 | likewise on what is mounted below an export |
| SecInfo.SubtreeKeywords | support/nfs/exports.c:663-720 | likewise on checking that a file is below an export |
| SecInfo.WriteKeywords | support/nfs/exports.c:663-720 | likewise on writing |
| SecInfo.OtherKeywords | support/nfs/exports.c:663-720 | and the others |
| SecInfo.ShownIsKeyword | support/nfs/exports.c:213-234 | the word shown for a flag is the option that sets or clears it |
| SecInfo.Exportent.AppendFlavor | support/nfs/exports.c:466-483 | the index of a flavor that is there, or it is appended with the entry-wide flags, or -1 when the list is full |
| SecInfo.Exportent.ParseFlavors | support/nfs/exports.c:498-516 | all named flavors are in the list and the answer is the set of their indices; empty for an unknown name or a full list |
| SecInfo.Exportent.ChangeFlags | support/nfs/exports.c:588-615 | the flag changes entry-wide and in exactly the active flavors |
| SecInfo.Exportent.FixFlags | support/nfs/exports.c:622-630 | flags outside the kernel's mask are spread to every flavor |
| SecInfo.FixMeans | support/nfs/exports.c:617-630 | a flavor has a flag afterwards exactly if it had it before or the entry has it and it may not vary; nothing else changes |
| SecInfo.FixMakesUniformExactlyWhen | support/nfs/exports.c:617-630 | flags outside the mask agree between entry and flavors afterwards if and only if no flavor held one the entry had lost |
| SecInfo.ListEndsUniformExactlyWhen | support/nfs/exports.c:588-630 | an option list on an entry without flavors ends in agreement if and only if no flag outside the mask is cleared for the last time while a flavor that has it is not active |
| SecInfo.LaterOptionLeavesFlavorBehind | support/nfs/exports.c:602-630 | an option list after which a flavor keeps a flag that the entry lost |
| SecInfo.Exportent.ProcessKeyword | support/nfs/exports.c:662-843 | one option: its flag changes, or its flavors are added and become the active ones, or it is an error |
| SecInfo.Exportent.ParseOpts | support/nfs/exports.c:649-849 | the loop over the text computes the effect of its list of options, or fails |
| SecInfo.Exportent.Show | support/nfs/exports.c:236-253 | the text printed is the list of options, group by group, after adding sys to an empty list |
| SecInfo.FlagOptionsSettle | support/nfs/exports.c:225-234 | the options shown for a group set every shown flag of the active flavors and touch no other flavor |
| SecInfo.GroupRebuilt | support/nfs/exports.c:245-252 | parsing one printed group rebuilds it behind the groups already there |
| SecInfo.OptionsRoundTrip | support/nfs/exports.c:236-253 | parsing all printed options rebuilds the flavors in order with every shown flag |
| SecInfo.TextRoundTrip | support/nfs/exports.c:649-849 | so does parsing the printed text |
| Systemd.SystemdLen | systemd/systemd.c:22-61 | the length of the unit name, one more with a leading dot |
| Systemd.PutHex | systemd/systemd.c:67-74 | the escape is written at the position |
| Systemd.PutRest | systemd/systemd.c:114-129 | the loop writes exactly its part of the name and not past it |
| Systemd.SystemdEscape | systemd/systemd.c:90-134 | name, suffix and terminator are written inside the buffer allocated from the computed length |
| Systemd.WholeIsUnitName | systemd/systemd.c:99-129 | the loops' output is the unit name of the path's components, whatever its slashes |
| Systemd.UnescapeUnitName | systemd/systemd.c:76-89 | unescaping gives the components joined by single slashes, "/" for the root |
| Systemd.UnitNameRoundTrip | systemd/systemd.c:76-89 | the components can be read back from the name |
| Systemd.SameUnitName | systemd/systemd.c:76-89 | two paths share a unit name exactly when their components are equal |
| Systemd.UnitNameIsAllowed | systemd/systemd.c:76-89 | a unit name has only letters, digits and `:_.\-`, is never empty and never starts with a dot |
| Systemd.OrdinaryPathIsJoined | systemd/systemd.c:76-89 | components of letters, digits, colons, underscores and dots stay as they are, joined by dashes, unless the first starts with a dot |

## Left out

- WorkQueue.StepKeepsInv: condition variables wake nobody without a signal; POSIX permits spurious wakeups, and the source does not re-test a predicate after waiting.
- Wildmat.DoMatch: patterns with an unclosed bracket expression are outside the model, as the file header asks.
- ClientNames.OrderDoesNotMatterExactlyWhen: for names without commas; with commas only an example of two orders is given.
- NsmState.StoredNumbersGrow: counting past INT_MAX, which C does not define, is not modelled.
- NsmState.StateFileIsAlwaysWhole: a synchronous write followed by a rename is taken to survive a crash, as the source assumes.
- NsmRecords.ParsePrinted: nsm_parse_line is a function on the text, so cutting the line in place is not captured; signs and "0x" prefixes that sscanf would also accept are read as parse errors.
- Qword.Message.AddNumber: a C library that refuses sizes above INT_MAX, as POSIX allows, writes nothing at a negative count; position and count move alike.
- NsmRecords.Insert: failing system calls of the insertion.
- SecInfo.Exportent.ProcessKeyword: options that are neither flags nor `sec=` are errors here, and the flags set by an unknown one are not stated.
- SecInfo.Exportent.ParseOpts: options that are neither flags nor `sec=` are errors here, and nothing is said of the entry after an error.
- ExportTable.HashTable.Add: the link of an entry is kept in a map of its table instead of in the entry, so that one entry linked into two tables is not captured.
- ExportLookup.WalkTable: the warning about an export to two clients and its `m_warned` flag.
- PseudoRoot.PseudofsUpdate: security flavors and UUIDs of pseudo exports.
- Reload.Reload: the inode test in front of a reload and `check_useipaddr`.
- Netmask construction and subnet matching, DNS and netgroup queries: fixed parameters.
- `nfsd_handle_fh`, `next_mnt`, `uuid_by_path`: mount-table and block-device I/O.
- Junctions, the re-export database, `xprtsec=`, squash id lists, path tokens of the exports file.
- Failing memory allocation, channels, sockets, forking, logging.
