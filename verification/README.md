# ocid, modelled and verified in Dafny

ocid is a peer-to-peer replicator and registry for container images. This
project models what a node decides and keeps, and proves that it does so
correctly:

- **Replication and retention of one node** (`Releases`, `Retention`, `Nodes`,
  `Machine`). A node stores signed release records, each naming blobs by sha256
  and by BLAKE3; index entries and pins (`blob:<sha256>` tags) say which data
  stays. `Nodes` has the operations as methods of a class over those four
  collections, each proved against a function of the old disk. `Machine` cuts
  the operations into the steps between which others can run: fetches advance
  blob by blob under the read side of the collection lock, pruning and sweeping
  go pin by pin under its write side, and pushes, uploads, record removals and
  the blob store's own collector take no lock. The invariant of that machine
  gives the safety of every reachable state.
- **Windows** (`Policies`, `Windows`, `Convergence`, `Syncs`). Rules combine to a
  window of an image (the newest N tags, and fixed tags); `select` decides both
  what is fetched and what is pruned. What a window promises is defined without
  sorting (`Chosen`), and `select` is measured against that.
  `Convergence` proves that announcements, inventory syncs, pulls and prunings,
  step by step interleaved, end where keeping everything and selecting once
  would end. `Syncs` says when one sync is a merge and what a second one does.
- **Manifest closure** (`Manifests`). The depth-first walk of `collect_refs`
  over a content-addressed graph that may be cyclic, its exact result, and the
  push that announces it.
- **Publisher names in DNS** (`DnsRecords`, `DnsResolver`). The record format
  with its printer, parser, string splitter and signed bytes, and the
  trust-on-first-use pins behind a cache with a clock.
- **Small parsers** (`Names`, `Identity`, `ImageRefs`, `Sse`). References and
  seed rules print and parse back; the event stream is cut into frames that do
  not depend on how the bytes arrive.

`Text` holds strings: order, UTF-8 length, splitting, joining, decimal, hex.

## How the source is read

A digest is `Sha256(content)` and a hash `Blake3(content)`, so both hash
functions are injective and `HashOf` relates the two addresses of one content.
A disk is *well filed* when records, entries and pins sit under what they
belong to. A reference is *consistent* when both addresses and the size belong
to one content; this is what `verify_blob` accepts. Publisher ids are strings
of 64 lower-case hex digits. Strings are sequences of Unicode scalar values and
limits in bytes are measured by `ByteLen`. JSON documents, URL parsing,
signature checks, DNS answers, clock values and what peers deliver are
parameters of the operations, and every statement holds for all of them.
A listing of a map, a set or a directory comes in any order unless the source
sorts it.

Some promises do not hold of the source for every input. Each has a lemma with
the condition under which it does and what happens otherwise:

- `select` removes only adjacent repetitions of a tag (`SelectExactlyWhen`,
  `SelectCanMissATag`); windows of up to two tags are not affected
  (`SmallWindowIsExact`).
- `txt_strings` is documented to keep every string to 255 bytes; a relay of 249
  bytes, which `validate_relay` accepts, makes one of 256
  (`StringsFitExactlyWhen`, `LongRelayDoesNotFit`). The comment there cites section 3.1 of RFC 7208
  for the concatenation of strings; it is section 3.3.
- `ImageRef::parse` applies the 255-byte limit of a name to publisher and name
  together (`ParseUndoesDisplayExactlyWhen`, `LongNameDoesNotParse`).
- Dropping a pasted registry location is documented to turn only invalid
  references into valid ones; it also hides names and aliases that begin with
  such a segment (`StrippingHidesExactlyWhen`, `LocalhostIsHidden`).
- A zone is documented as lower case; upper-case letters are accepted
  (`ZoneOfLabels`).
- `fetch_release` takes data that is there and indexed as it is, so a record
  whose two hashes of a blob name different contents can be stored incomplete
  (`FetchedCompleteExactlyWhen`, `MismatchIsObtained`).
- `collect_refs` visits a digest once, as what it is first listed as
  (`CollectIsClosure`, `OneMediaTypeAgrees`, `LayerThenManifest`).
- An inventory sync inherits the gap of `select`, and prunes nothing when it
  wants nothing (`SyncMergesExactlyWhen`, `SyncIsMerge`, `TagPassedOver`,
  `UnprunedStays`). A second sync can fetch more (`SecondSyncExactlyWhen`,
  `SecondSyncFetchesMore`).
- `unseed` undoes `seed` only when no earlier rule fell under the new one
  (`UnseedUndoesSeedExactlyWhen`).
- A push does not take the collection lock (`PushIsSafeExactlyWhen`,
  `UnsparedPushIsReachable`).

## Model

| member | source | states |
|---|---|---|
| `Machine.ReachableIsSafe` | crates/ocid/src/node.rs:1171-1284 | in every state reachable from an empty node, through any interleaving of fetch steps, pruning, sweeps, record removals, uploads, pushes and collections of the blob store, and whatever records arrive: the manifest of a stored release, and each of its blobs, has its data, index entry and pin if and only if its two hashes match, so every stored release with consistent references is complete; and no running fetch has lost a matching blob it has passed |
| `Machine.StepKeepsInv` | crates/ocid/src/node.rs:1206-1284 | each single step of any party keeps the invariant: pins have data, entries are pinned but for the one the sweep has just unpinned, matching blobs of stored releases are recorded and out of the running sweep's reach, fetches keep what they did, and only verified blobs are pinned |
| `Machine.RunKeepsInv` | crates/ocid/src/node.rs:1171-1204 | any run of steps keeps it |
| `Machine.FetchOnlyAdvances` | crates/ocid/src/node.rs:1206-1284 | while a fetch runs, whatever the others do, its count of blobs passed never drops, its release does not change, and the matching blobs it had passed are still recorded at the end |
| `Machine.StoreFetchedKeepsInv` | crates/ocid/src/node.rs:1260-1284 | a fetch that has gone through its blobs stores a record whose matching blobs are all recorded |
| `Machine.RecordPresentKeepsInv` | crates/ocid/src/node.rs:1252-1255 | recording data found unindexed, which happens only when it verifies, is safe |
| `Machine.StoreGcKeepsInv` | crates/ocid/src/store.rs:57-70 | the blob store's own collector, at any moment, takes neither pinned data nor a protected download |
| `Machine.CollectorTakesExactly` | crates/ocid/src/store.rs:57-70 | the collector leaves exactly the data that is pinned or that some fetch is downloading, verifying or recording, and touches nothing else |
| `Machine.SweepStepSpares` | crates/ocid/src/node.rs:1571-1603 | no step of a sweep takes the data, entry or pin of a matching blob that was live and out of reach, nor brings it within reach |
| `Machine.SweepStepKeepsInv` | crates/ocid/src/node.rs:1571-1603 | each step of a sweep, unpinning a dead pin, dropping its entry, sparing a live one, or dropping an entry nothing keeps, keeps the invariant |
| `Machine.UnsparedPushIsReachable` | crates/ocid/src/registry.rs:490-553 | a push that passes its checks while the running sweep can take its manifest is reachable: an upload, then a sweep begins, then the push |
| `Machine.RemovalKeepsInv` | crates/ocid/src/node.rs:1476-1502 | removing records at any moment, under no lock, is safe |
| `Machine.UploadKeepsInv` | crates/ocid/src/store.rs:99-126 | storing an uploaded blob at any moment, under no lock, is safe |
| `Machine.ArrivalsAreExact` | crates/ocid/src/store.rs:99-126 | an upload files the content under its own two hashes and its size and touches no other blob; a push stores its release unless a newer one of the tag is there and touches nothing else |
| `Machine.PushKeepsInv` | crates/ocid/src/registry.rs:490-553 | a push that passes its checks keeps the invariant when no running sweep can take its blobs |
| `Machine.PushIsSafeExactlyWhen` | crates/ocid/src/registry.rs:490-553 | a push, which does not take the collection lock, keeps the node safe if and only if the sweep running at that moment spares its blobs; otherwise a run of sweep steps exists after which the pushed record is stored and incomplete |
| `Machine.FetchIsARun` | crates/ocid/src/node.rs:1206-1284 | a fetch as one call that succeeds is a run of the steps: it can go through undisturbed and then leaves exactly the disk that the call leaves |
| `Machine.SweepInAnyOrder` | crates/ocid/src/node.rs:1565-1606 | a sweep taken pin by pin and entry by entry in any order ends with the disk that the sweep as one call leaves |
| `Machine.PruningIsARun` | crates/ocid/src/node.rs:1112-1155 | with nobody holding the lock, dropping any records and sweeping as one call is a run of the steps, ending in the same disk |
| `Machine.RemovalIsARun` | crates/ocid/src/node.rs:1476-1502 | so is a removal, which drops its records before it asks for the lock |
| `Nodes.Node.constructor` | crates/ocid/src/store.rs:57-70 | a new node stores nothing and is well filed |
| `Nodes.Node.RecordBlob` | crates/ocid/src/store.rs:90-96 | the pin and the index entry of the blob are set, nothing else changes |
| `Nodes.Node.PutBlobBytes` | crates/ocid/src/store.rs:99-126 | refused exactly when a digest is expected and differs, and then nothing changes; otherwise the blob's data, pin and entry are set, with both its addresses, its size and the media type given, and nothing else is |
| `Nodes.Node.VerifyBlob` | crates/ocid/src/store.rs:166-191 | reading the data buffer by buffer accepts exactly the references whose sha256 and size belong to the content behind their BLAKE3 |
| `Nodes.Node.IsComplete` | crates/ocid/src/store.rs:226-233 | true exactly when the data of the manifest and of every listed blob is there |
| `Nodes.Node.StoreRelease` | crates/ocid-core/src/index.rs:198-213 | the record is written exactly when its tag has none, an older one, or one of the same second and another manifest |
| `Nodes.Node.ListReleases` | crates/ocid-core/src/index.rs:260-275 | every stored release once, sorted by reference |
| `Nodes.Node.LocalReleases` | crates/ocid/src/node.rs:1043-1051 | exactly the stored releases of the image, each tag once |
| `Nodes.Node.ListPins` | crates/ocid/src/store.rs:201-217 | every pin once |
| `Nodes.Node.LiveHashes` | crates/ocid/src/node.rs:1565-1580 | exactly the hashes of manifests and blobs of releases that are not ignored |
| `Nodes.Node.SweepBlobs` | crates/ocid/src/node.rs:1565-1606 | the two loops leave exactly the swept disk (a dry run: the disk as it was) and count, while deleting, exactly the dead pins and their bytes in the index as it was before |
| `Nodes.Node.DropPins` | crates/ocid/src/node.rs:1571-1589 | the first loop, alone: counts against the original index although it deletes from it |
| `Nodes.Node.DropEntries` | crates/ocid/src/node.rs:1590-1603 | the second loop, alone: exactly the entries neither live nor pinned go |
| `Nodes.TalliedFacts` | crates/ocid/src/node.rs:1571-1589 | counting while deleting counts every dead pin once and with its original size, in a dry run as in a real one |
| `Nodes.Node.EnforceWindow` | crates/ocid/src/node.rs:1112-1155 | own and uncovered images are left alone; of a covered image exactly the releases outside its window go, and then the blobs only they named |
| `Nodes.Node.EnforceAllWindows` | crates/ocid/src/node.rs:1158-1167 | image by image, in any order, with a sweep after each, the result is that of pruning every covered image at once and sweeping once |
| `Nodes.Node.RetainedSet` | crates/ocid/src/node.rs:1442-1472 | exactly the references of own releases and of covered ones inside their windows |
| `Nodes.Node.Gc` | crates/ocid/src/node.rs:1506-1556 | real run: exactly the unretained (and, unless forced, expired) records go and the blobs only they named; dry run: nothing changes; both: the report lists exactly the records removed, in order, and the pins and bytes freed |
| `Nodes.Node.RemoveRelease` | crates/ocid/src/node.rs:1476-1502 | exactly the records of the tag, or of the whole image, go, and then the blobs only they named; the answer says whether the image is foreign and has a window left |
| `Nodes.Node.Wanted` | crates/ocid/src/node.rs:1014-1041 | exactly the remote releases that the image's window selects among local and remote and that are not held, or held older |
| `Nodes.Node.FetchRelease` | crates/ocid/src/node.rs:1206-1284 | succeeds exactly when the manifest and each blob, counting what the ones before it brought, is there and indexed, or there and verifies, or can be downloaded and verifies; then the data of all is there and indexed and the record is put; otherwise it stops at one blob, keeping what was done before and at most that blob's unpinned data, and changes no record |
| `Nodes.FetchSucceedsExactlyWhen` | crates/ocid/src/node.rs:1206-1256 | going blob by blob over the growing disk succeeds exactly when each blob passes in terms of the first disk and the blobs before it |
| `Nodes.FetchedCompleteExactlyWhen` | crates/ocid/src/node.rs:1231-1256 | on a sound disk a fetch that succeeds loses nothing recorded, and a blob of the fetched release ends up recorded if and only if both its hashes name one content: data already there and indexed is not verified |
| `Nodes.MismatchIsObtained` | crates/ocid/src/node.rs:1252-1256 | a reference that names one stored content by sha256 and another by BLAKE3 is obtained and not recorded |
| `Nodes.Node.Publish` | crates/ocid/src/node.rs:1340-1356 | only our own releases are stored, by the rule of put_release |
| `Nodes.Node.AttachReferrer` | crates/ocid/src/node.rs:1386-1419 | exactly our releases of the subject that lack the referrer are updated, each once, and their number returned |
| `Nodes.AttachIsExact` | crates/ocid/src/node.rs:1386-1419 | record by record: our releases of the subject without the referrer gain it, the new blobs and the greater of the clock and the next second; every other record is as it was |
| `Nodes.UpdatesAreAll` | crates/ocid/src/node.rs:1394-1417 | publishing the updated records one after the other, each judged by put_release, leaves every one of them stored |
| `Nodes.SecondAttachFindsNothing` | crates/ocid/src/node.rs:1386-1419 | attaching the same referrer again to the store the first call left, whatever the clocks say, updates nothing |
| `Nodes.LaterAttachFindsOnlyNewer` | crates/ocid/src/node.rs:1386-1419 | attaching it to any later store updates only releases that have been published since |
| `Nodes.WithBlobRecords` | crates/ocid/src/store.rs:90-96 | recording one obtained blob keeps the disk sound and loses nothing |
| `Retention.SweepKeepsLive` | crates/ocid/src/node.rs:1571-1605 | a sweep keeps exactly the pins and the index entries whose hash is the manifest's or a blob's of a remaining release |
| `Retention.LiveIsNamed` | crates/ocid/src/node.rs:1565-1580 | a hash is live exactly when it is the manifest's or a blob's of some release |
| `Retention.RemovedExactlyWhen` | crates/ocid/src/node.rs:1112-1155 | pruning takes a record exactly when it is foreign, its image has a window, and neither the tag is fixed nor fewer than N tags of the image are later; gc takes it exactly when it is foreign, not inside such a window, and past grace or forced |
| `Retention.SweepConservesBytes` | crates/ocid/src/node.rs:1571-1605 | indexed size of the pins before is what is freed plus indexed size of the pins after |
| `Retention.SweptTwice` | crates/ocid/src/node.rs:1158-1167 | a sweep followed by further removals and a sweep leaves what one sweep at the end leaves |
| `Retention.EnforceOneMore` | crates/ocid/src/node.rs:1158-1167 | enforcing the window of one image does not change what the others keep |
| `Retention.ForcedGcIsExact` | crates/ocid/src/node.rs:1506-1537 | a forced gc leaves exactly the retained set and a second one removes nothing |
| `Retention.GcAgreesWithWindows` | crates/ocid/src/node.rs:1442-1472 | on every covered image a forced gc keeps exactly, and any gc at least, what enforcing all windows keeps |
| `Retention.EnforcedIsStable` | crates/ocid/src/node.rs:1158-1167 | enforcing windows twice changes nothing, and what they keep of covered images gc retains |
| `Retention.OwnAndNamedStay` | crates/ocid/src/node.rs:1442-1472 | own releases, and tags named by a rule or pin, survive both pruning and gc |
| `Retention.GcReportUnique` | crates/ocid/src/node.rs:1506-1556 | the report that gc owes is determined by the disk, the policy and the clock, so a dry run reports what the real run reports |
| `Retention.ReportCountsWhatGoes` | crates/ocid/src/node.rs:1506-1556 | the report lists exactly the references that go, in order, and counts the pins, and their indexed bytes, of contents that no record left names as manifest or blob |
| `Windows.SelectLoop` | crates/ocid-core/src/config.rs:388-399 | sort, adjacent dedup and take compute the specified selection: it has the fixed tags and nothing unknown besides; of two known unfixed tags with one timestamp each the later, or in the same second the greater, is selected first; and it stops only at N tags or when all known are selected |
| `Windows.SelectLatest` | crates/ocid-core/src/config.rs:383-399 | with N = 1 and one timestamp per tag the unfixed selection is the tag of the greatest timestamp, and of the greatest tag within that second |
| `Windows.NewerIsTaken` | crates/ocid-core/src/config.rs:388-399 | for one timestamp per tag: whatever is later than a selected unfixed tag, or of the same second and greater, is selected |
| `Windows.SelectWithinWindow` | crates/ocid-core/src/config.rs:383-399 | for any input, no tag outside the N newest distinct tags and the fixed tags is selected |
| `Windows.SelectExactlyWhen` | crates/ocid-core/src/config.rs:388-399 | for any window and input, the selection is exactly the window's fixed tags and N newest tags if and only if the window keeps everything or no unfixed tag among the N newest has N or more places taken before its newest entry, where an entry takes a place unless the next newer one has its tag |
| `Windows.TakenExactlyWhen` | crates/ocid-core/src/config.rs:388-399 | a tag is taken exactly when fewer than N places are taken before its newest entry |
| `Windows.RankedIsSlots` | crates/ocid-core/src/config.rs:390-391 | sorting and dropping adjacent repetitions keeps exactly the entries that another tag separates from every newer copy of theirs |
| `Windows.SmallWindowIsExact` | crates/ocid-core/src/config.rs:388-399 | a window of up to two tags is exact for any input |
| `Windows.SelectIsWindow` | crates/ocid-core/src/config.rs:383-399 | with one timestamp per tag the selection is exactly the fixed tags and the N newest tags |
| `Windows.SelectCanMissATag` | crates/ocid-core/src/config.rs:391-391 | two timestamps of one tag around another tag take two of a window's three places, and the third tag is missed |
| `Windows.SelectMonotone` | crates/ocid-core/src/config.rs:388-399 | a wider window selects at least as much |
| `Windows.SelectIdempotent` | crates/ocid-core/src/config.rs:388-399 | selecting again among the entries of selected tags selects the same tags |
| `Windows.RankedFacts` | crates/ocid-core/src/config.rs:388-391 | the deduplicated list is strictly newest first, invents nothing and holds the newest entry of every tag |
| `Convergence.InterleavingsConverge` | crates/ocid/src/node.rs:949-1107 | announcements, inventories, deliveries, pulls and prunings of one image, step by step interleaved in any way: when fetches succeed, no decision on an inventory passes a tag over, and nothing is in flight or pending at the end, the store holds exactly what keeping every release told of and selecting once over the newest timestamp per tag holds; the run starts with no sync under way, in any store that is within its window or still has a pruning pending or a pull unpruned |
| `Convergence.OrderDoesNotMatter` | crates/ocid/src/node.rs:949-1107 | two such runs that are told of the same releases, by whatever announcements, inventories and pulls and in any order, end in the same store |
| `Convergence.SettledIsWindow` | crates/ocid/src/node.rs:949-1107 | the same from such a start with failed announcements, and peers that hand over newer releases, over what was dealt with |
| `Convergence.RunKeepsInv` | crates/ocid/src/node.rs:1112-1155 | at every moment of such a run every tag of the window of what was dealt with is held at its newest or about to be received by a sync, and nothing held is newer than was dealt with |
| `Convergence.PassedOverExactlyWhen` | crates/ocid/src/node.rs:1014-1041 | the tags counted as passed over are exactly those of the window of local and remote together that are neither held at their newest nor selected |
| `Convergence.RaisedIsWanted` | crates/ocid/src/node.rs:1014-1041 | a tag that an inventory raises into the window of everything heard is wanted, unless a tag is passed over |
| `Convergence.NothingIsLost` | crates/ocid/src/node.rs:1053-1107 | when no fetch fails and peers deliver what was announced, what was in flight or told is exactly what was dealt with or is still in flight |
| `Convergence.DeclinedIsOutside` | crates/ocid/src/node.rs:1014-1041 | an announcement that is declined is either known already or outside the window of everything known |
| `Convergence.WindowIsStable` | crates/ocid-core/src/config.rs:388-399 | dropping releases outside the window does not change which of the others are inside |
| `Convergence.PruningSettles` | crates/ocid/src/node.rs:1112-1155 | pruning a store that holds the window of everything heard gives exactly that window |
| `Syncs.SyncMergesExactlyWhen` | crates/ocid/src/node.rs:981-1006 | a sync gives the window of local and remote together if and only if no tag it owes is crowded out in the two lists, and something is wanted or the store was pruned before: when nothing is wanted nothing is enforced |
| `Syncs.TagPassedOver` | crates/ocid/src/node.rs:1014-1041 | a peer's old copy of a held tag can crowd out a tag of the merged window |
| `Syncs.UnprunedStays` | crates/ocid/src/node.rs:982-985 | a store that a pull left outside its window is left so by a peer with nothing new |
| `Syncs.SyncIsMerge` | crates/ocid/src/node.rs:981-1006 | with one timestamp per tag a sync is a merge if and only if something is wanted or the store was pruned before |
| `Syncs.SmallWindowPassesNothingOver` | crates/ocid/src/node.rs:1014-1041 | under a window of up to two tags no decision passes a tag over |
| `Syncs.SyncIsARun` | crates/ocid/src/node.rs:981-1006 | an undisturbed sync is a run of the interleaved steps: one decision, a delivery for each release wanted, one pruning |
| `Syncs.SecondSyncExactlyWhen` | crates/ocid/src/node.rs:981-1006 | for any two lists, a second sync with the same inventory fetches nothing, and changes nothing, if and only if the first wanted nothing or every tag it passed over is passed over again |
| `Syncs.SecondSyncChangesNothing` | crates/ocid/src/node.rs:981-1006 | in particular when the first wanted nothing or passed no tag over |
| `Syncs.SecondSyncOfOneTimestamp` | crates/ocid/src/node.rs:981-1006 | in particular when local and remote together know one timestamp per tag |
| `Syncs.SecondSyncFetchesMore` | crates/ocid/src/node.rs:981-1006 | a held older copy can crowd a tag out of the first sync, so that the second fetches it |
| `Releases.StoredIsWinner` | crates/ocid-core/src/index.rs:198-213 | after any sequence of puts each key holds a release with the greatest timestamp put and the manifest of the last put with that timestamp |
| `Releases.StoredPerTag` | crates/ocid-core/src/index.rs:198-213 | the same per publisher, name and tag: a record is stored if and only if one was put, is one of those put, none of which is newer |
| `Releases.AttachedLands` | crates/ocid/src/node.rs:1398-1415 | the re-signed record has the greater of the clock and the next second as timestamp, so it supersedes the stored one even when the clock went back; it keeps every blob and referrer, in order, and gains the new ones |
| `Releases.SecondAttachDoesNothing` | crates/ocid/src/node.rs:1392-1397 | a record that was updated is not updated again for the same referrer |
| `Releases.ReferenceInjective` | crates/ocid-core/src/release.rs:122-128 | releases with valid names and tags have different references unless they have the same key |
| `Releases.ReferenceText` | crates/ocid-core/src/release.rs:122-128 | the reference is publisher, slash, name, colon, tag |
| `Manifests.CollectRefs` | crates/ocid/src/registry.rs:664-699 | the loop and its recursion compute the specified walk: same references, same refusal, and the index changed by nothing but media types filled in; it ends on every input, cyclic ones included |
| `Manifests.ReferencedExactly` | crates/ocid-core/src/oci.rs:205-216 | a manifest references its config and its layers, or the manifests of an index, and nothing else |
| `Manifests.ChildrenExactly` | crates/ocid/src/registry.rs:687-698 | a descriptor typed as one of the four manifest kinds leads to exactly what the manifest under its digest references; any other leads nowhere |
| `Manifests.ParseManifestCases` | crates/ocid-core/src/oci.rs:150-168 | which of the two kinds a document is read as: by its own media type, else the content type, else by the presence of `manifests` |
| `Manifests.CollectIsClosure` | crates/ocid/src/registry.rs:664-699 | when descriptors of one digest lead to the same children (as when each digest has one media type), the walk succeeds exactly when everything reachable is uploaded and every reachable manifest parses, and then returns exactly the reachable digests, each once |
| `Manifests.CollectReaches` | crates/ocid/src/registry.rs:668-698 | for any input, whatever is visited is reachable from the manifest |
| `Manifests.CollectsOnce` | crates/ocid/src/registry.rs:684-686 | for any input, no digest is returned twice |
| `Manifests.RefusalIsReal` | crates/ocid/src/registry.rs:669-693 | for any input, a refusal names a reachable descriptor that is missing or does not parse |
| `Manifests.CollectCloses` | crates/ocid/src/registry.rs:664-699 | for any input, a walk that succeeds has visited its roots and the children of all it visited |
| `Manifests.CollectOnlyTypes` | crates/ocid/src/registry.rs:680-683 | a walk, refused or not, changes nothing on disk but missing media types and the pins set with them |
| `Manifests.LayerThenManifest` | crates/ocid/src/registry.rs:684-698 | a blob listed first as a layer and then as a manifest is visited once, as a layer: the walk is complete if and only if the manifest names nothing but itself |
| `Manifests.LookUp` | crates/ocid/src/registry.rs:669-683 | finds exactly the uploaded blobs and fills the entry's missing media type from the descriptor, leaving one that is there |
| `Manifests.CheckPut` | crates/ocid/src/registry.rs:460-512 | refuses exactly for the first failing check, in the source's order, with no more changed than media types |
| `Manifests.PushAcceptedExactlyWhen` | crates/ocid/src/registry.rs:460-512 | when descriptors of one digest lead to the same children, a push is accepted if and only if it is our own, parses, has its whole closure uploaded and parsing, and goes to a valid tag or to the digest of its bytes |
| `Manifests.RefusedInOrder` | crates/ocid/src/registry.rs:460-512 | for any push: denied exactly when it is not our own, invalid exactly when it then does not parse; a refusal over a blob names a reachable descriptor not uploaded or not parsing; target refusals only for a wrong digest or an invalid tag |
| `Manifests.ManifestPut` | crates/ocid/src/registry.rs:460-567 | refused pushes change no record, no data, and of entries and pins only what filling in a missing media type sets; accepted ones store the manifest, and under the pushed tag a record with the request's publisher, name and tag, the manifest, the collected references as blobs, the clock's timestamp and no referrers, unless a newer record is there; every other record is the one before with our releases of the subject updated |
| `Manifests.SubjectedExactly` | crates/ocid/src/registry.rs:520-535 | record by record: our releases of the pushed manifest's subject that lack it gain it as referrer, with the manifest and all it references among their blobs, and a later timestamp; every other record is unchanged |
| `Manifests.RecordNamesItsParts` | crates/ocid/src/registry.rs:538-549 | a record that lists what was collected names, by digest, the config and every layer, or every manifest of an index |
| `Manifests.RecordNamesTheClosure` | crates/ocid/src/registry.rs:538-549 | and exactly the digests reachable from the manifest, when descriptors of one digest lead to the same children |
| `Manifests.AnnouncedIsTheClosure` | crates/ocid/src/registry.rs:489-553 | the release announced by an accepted push has every blob consistent, indexed and present (the checks the concurrent model asks of a push) and names exactly the manifest's closure |
| `Manifests.ReannouncedIsSafe` | crates/ocid/src/registry.rs:520-535 | so has every release of the subject that the same push updates and announces again, if it was complete before |
| `Manifests.OneMediaTypeAgrees` | crates/ocid/src/registry.rs:664-699 | when each reachable digest is always referenced with one media type, its descriptors lead to the same children |
| `DnsRecords.ParseLoop` | crates/ocid-core/src/dns.rs:158-214 | the token loop computes the specified parse, with its error cases |
| `DnsRecords.ParseUndoesToTxt` | crates/ocid-core/src/dns.rs:110-120 | every well-formed record parses back from its text |
| `DnsRecords.ParseAnyOrder` | crates/ocid-core/src/dns.rs:158-214 | so does any reordering or repetition of its fields, relays containing `=` included |
| `DnsRecords.ParsedIsWellFormed` | crates/ocid-core/src/dns.rs:158-214 | whatever parses is well formed and survives printing and parsing again |
| `DnsRecords.ParsesExactlyWhen` | crates/ocid-core/src/dns.rs:158-214 | text parses to a record if and only if every whitespace-separated token is one of the six keys with a value that key may have, and the last value of each key is the record's: version `ocid1`, key, timestamp and signature, and each hint or none |
| `DnsRecords.PrintedText` | crates/ocid-core/src/dns.rs:110-120 | the printed text, letter for letter: `v=ocid1 k=.. ts=..`, then relay and seed if there, then `sig=..` |
| `Text.ParseU64ExactlyWhen` | crates/ocid-core/src/dns.rs:178-183 | a timestamp is read from exactly the decimal forms of 64-bit numbers, with any leading zeros and at most one plus sign |
| `DnsRecords.TxtStrings` | crates/ocid-core/src/dns.rs:127-153 | no token cut, and the strings' concatenation is the text byte for byte; one string if and only if the text has at most 255 bytes, and a string ends only where the next token would not fit; all keep to 255 bytes if and only if the relay has at most 248 |
| `DnsRecords.Gather` | crates/ocid-core/src/dns.rs:133-147 | the chunk loop groups the tokens in order, leaving room for the trailing space in every group of several tokens and closing a group only when the next token and its space would not fit |
| `DnsRecords.StringsFitExactlyWhen` | crates/ocid-core/src/dns.rs:127-153 | for every such grouping, the 255-byte limit holds if and only if the relay leaves room for its trailing space |
| `DnsRecords.LongRelayDoesNotFit` | crates/ocid-core/src/dns.rs:238-252 | a 249-byte relay that the URL library takes is valid and makes a string of more than 255 bytes |
| `DnsRecords.PayloadInjective` | crates/ocid-core/src/dns.rs:260-275 | the signed bytes determine zone, key, timestamp and both hints, for valid zones and relays |
| `DnsRecords.PayloadText` | crates/ocid-core/src/dns.rs:260-275 | the signed text, letter for letter: `ocid1`, zone, key, timestamp, then relay and seed if there |
| `DnsRecords.ZoneOfLabels` | crates/ocid-core/src/dns.rs:280-298 | a zone is valid exactly when it has at most 253 bytes and two or more labels of 1 to 63 letters, digits and inner hyphens, none of digits alone; letters of either case are accepted, though the comment says lower case |
| `DnsResolver.DnsService.constructor` | crates/ocid/src/dns_resolver.rs:77-96 | pins as saved, an empty cache |
| `DnsResolver.DnsService.ResolveZone` | crates/ocid/src/dns_resolver.rs:120-211 | disabled: nothing; a hit: the cached answer, never as a new pin; no record among the answers: none, remembered for 30 seconds; else the first that parses is judged: a bad signature, then an age over the limit, then another pinned key refuses it and changes nothing, and otherwise it is the answer with its hints, newly pinned if and only if there was no pin, pinned afterwards, and cached for 60 seconds or the least ttl read, whichever is shorter |
| `DnsResolver.DnsService.FindRecord` | crates/ocid/src/dns_resolver.rs:158-172 | the loop finds the first answer that parses as a record and the least ttl read on the way |
| `DnsResolver.ResolveAnswersRightly` | crates/ocid/src/dns_resolver.rs:120-211 | the resolution answers as stated of `ResolveZone`, for any state and query |
| `DnsResolver.DnsService.CacheNegative` | crates/ocid/src/dns_resolver.rs:223-230 | a miss is remembered for 30 seconds and nothing else changes |
| `DnsResolver.DnsService.Unpin` | crates/ocid/src/dns_resolver.rs:215-221 | pin and cache entry of the zone go, others stay; true exactly when there was a pin |
| `DnsResolver.StepKeepsAgreement` | crates/ocid/src/dns_resolver.rs:191-203 | a cached publisher is always the pinned one |
| `DnsResolver.PinsAreKept` | crates/ocid-core/src/dns.rs:352-375 | only an unpin of the zone changes or removes its pin |
| `DnsResolver.AnswerIsPinned` | crates/ocid/src/dns_resolver.rs:120-211 | an answer names the publisher pinned after it, and is newly pinned exactly when there was no pin before |
| `DnsResolver.PinnedForTheRun` | crates/ocid/src/dns_resolver.rs:120-211 | from a pinned state every later answer names the pinned publisher and none is newly pinned, until an unpin |
| `DnsResolver.OnePublisherBetweenUnpins` | crates/ocid/src/dns_resolver.rs:120-221 | between two unpins of a zone, over any queries, answers, clock values, restarts and events of other zones, every answer names one publisher and only the first can be newly pinned |
| `DnsResolver.AnswersAreFresh` | crates/ocid/src/dns_resolver.rs:124-203 | over any run from any saved pins, every answer, cache hits included, rests on a record that verified for the zone in that run and is at most the allowed age plus 60 seconds old when the answer is given |
| `DnsResolver.StepKeepsBacking` | crates/ocid/src/dns_resolver.rs:193-203 | every cached publisher rests on an admitted record from at most 60 seconds before the entry expires |
| `Names.ValidNameExactlyWhen` | crates/ocid-core/src/oci.rs:223-243 | the valid names are exactly the paths of up to 255 lower-case letters, digits, dots, underscores, hyphens and slashes whose components all begin with a letter or digit and of which none is empty, so a name never leaves the directory it is joined to |
| `Names.ValidTagExactlyWhen` | crates/ocid-core/src/oci.rs:245-259 | the valid tags: 1 to 128 letters, digits, dots, underscores and hyphens, the first no dot or hyphen |
| `Names.SplitTagExactlyWhen` | crates/ocid-core/src/oci.rs:348-359 | what splits, and into what: a valid name, or a valid name, a colon and a valid tag |
| `Names.SplitTagJoined` | crates/ocid-core/src/oci.rs:348-359 | splitting a printed name and tag gives them back |
| `Names.NameAndTagInjective` | crates/ocid-core/src/oci.rs:337-346 | different valid names and tags print differently |
| `ImageRefs.ParseExplicitUndoesDisplay` | crates/ocid-core/src/oci.rs:300-312 | printing a valid reference and parsing it explicitly gives it back |
| `ImageRefs.ParseUndoesDisplayExactlyWhen` | crates/ocid-core/src/oci.rs:316-330 | under every policy and own id, parsing gives a printed reference back if and only if its name has at most 190 bytes |
| `ImageRefs.LongNameDoesNotParse` | crates/ocid-core/src/oci.rs:316-330 | a valid name of 200 letters does not parse back |
| `ImageRefs.ParseUndoesPastedDisplay` | crates/ocid-core/src/oci.rs:267-287 | the same with a pasted registry location, with or without scheme, in front |
| `ImageRefs.PrefixedNameValidExactlyWhen` | crates/ocid-core/src/oci.rs:316-330 | the 255-byte limit is applied to publisher and name together: the prefixed name is valid if and only if the name has at most 190 bytes |
| `ImageRefs.PublisherFirst` | crates/ocid-core/src/oci.rs:384-402 | a key, or a domain with a recorded key, before the first slash names the publisher of the rest, which must be a valid name |
| `ImageRefs.AliasesBeforeOwn` | crates/ocid-core/src/oci.rs:404-414 | otherwise an alias of an image goes before an alias of a publisher, and that before our own image of the name |
| `ImageRefs.AliasMeans` | crates/ocid-core/src/config.rs:736-750 | a recorded alias means the key, or the key and name, that its target spells |
| `ImageRefs.SlashesAround` | crates/ocid-core/src/oci.rs:372-372 | slashes around a repository path make no difference |
| `ImageRefs.ZoneIsNoLocation` | crates/ocid-core/src/oci.rs:261-266 | no domain counts as a pasted location |
| `ImageRefs.StrippingHidesExactlyWhen` | crates/ocid-core/src/oci.rs:261-287 | a reference whose location is dropped would have resolved as it stands if and only if its first segment is a key in some form or an alias of a publisher before a valid name, or it is an alias of an image or else a valid name: the comment says it never would |
| `ImageRefs.StrippedMeansRest` | crates/ocid-core/src/oci.rs:316-330 | a valid name that begins with such a segment, written alone, means what its rest means |
| `ImageRefs.LocalhostIsHidden` | crates/ocid-core/src/oci.rs:267-287 | `localhost/app` is such a name |
| `Policies.ParseUndoesPrint` | crates/ocid-core/src/config.rs:514-526 | parsing a printed rule gives it back under every policy |
| `Policies.ParsedRuleIsValid` | crates/ocid-core/src/config.rs:514-526 | whatever parses is a valid rule that prints and parses to itself |
| `Policies.RuleParsesExactlyWhen` | crates/ocid-core/src/config.rs:514-526 | text parses to a rule if and only if it is a publisher slot without slash that stands for the rule's publisher, a slash, and a valid name, or a valid name, a colon and a valid tag |
| `Policies.RecordedDomain` | crates/ocid-core/src/config.rs:495-510 | a domain stands for the key recorded for it, and is refused while none is |
| `Policies.DomainRuleMeansKey` | crates/ocid-core/src/config.rs:514-526 | a rule with a recorded domain parses to the rule of the key |
| `Policies.ComputeWindow` | crates/ocid-core/src/config.rs:553-578 | the loops over follows, seeds and pins compute the specified window, in terms of the rules: a tag is fixed if and only if some seed or pin parses to exactly this publisher, name and tag; modes count from the first follow of the publisher and from seeds that parse to this publisher and name without a tag; the window is full if and only if one of them is, and its N is the greatest they ask for (at least 1 each), or 0 |
| `Policies.WindowFollowsRules` | crates/ocid-core/src/config.rs:553-578 | the same of the specified window |
| `Policies.CombineIsWidest` | crates/ocid-core/src/config.rs:377-382 | rules combine to the widest window whatever their order: everything if some rule says so, else the largest count, with exactly the named tags |
| `Policies.CoveredWhenSomeRule` | crates/ocid-core/src/config.rs:580-582 | the window is empty if and only if no seed or pin is for a tag of the image, no follow is of its publisher, and no seed is for the whole image |
| `Policies.UnseedUndoesSeedExactlyWhen` | crates/ocid-core/src/config.rs:593-636 | removing a seed rule just added restores the policy if and only if no earlier rule fell under it |
| `Policies.SeedingIsExact` | crates/ocid-core/src/config.rs:593-611 | seeding sets the mode of the first entry written exactly like the rule, or appends the rule, reports whether that changed the policy, and changes nothing else |
| `Policies.UnseedingIsExact` | crates/ocid-core/src/config.rs:614-640 | unseeding removes exactly the entries, however written, that parse to the rule's publisher and name, and to its tag if it has one |
| `Identity.ParseHexPublisher` | crates/ocid-core/src/identity.rs:90-109 | a publisher's 64-digit form parses to that publisher |
| `Sse.FirstGap` | crates/ocitop/src/main.rs:586-586 | the first empty line, or none |
| `Sse.Drain` | crates/ocitop/src/main.rs:586-600 | every complete frame leaves the buffer; frames and rest concatenate to what was there |
| `Sse.Listen` | crates/ocitop/src/main.rs:580-602 | over any chunks, the emitted frames and the left-over buffer are a framing of the whole stream, and the events are those of the frames in order |
| `Sse.FramesInBytes` | crates/ocitop/src/main.rs:585-587 | a frame ends with two newline bytes and has no other two in a row; the rest has none |
| `Sse.FramingIsUnique` | crates/ocitop/src/main.rs:580-601 | a byte stream has one framing |
| `Sse.CutsDoNotMatter` | crates/ocitop/src/main.rs:580-601 | two ways of cutting one stream into chunks give the same frames and the same left-over |

## Left out

Stated weaker than one might ask:

- Machine.ReachableIsSafe: runs contain a push only when the running sweep spares its blobs, because otherwise the statement is false; Machine.PushIsSafeExactlyWhen says what happens then.
- Machine.PushKeepsInv: checking the blobs, storing the record and answering is one step, and so are storing an uploaded blob, verifying and recording data found unindexed, and each listing of the records, of the pins and of the index.
- Machine.FetchOnlyAdvances: a fetch that is dropped in the middle (a registry request that times out) is the step that gives it up, so nothing is said of in-flight entries such a request leaves behind.
- Manifests.CollectIsClosure: one direction only as to its condition. Without agreement the walk may or may not still reach everything, depending on what other descriptors list; Manifests.LayerThenManifest decides the smallest such case both ways.
- Convergence.InterleavingsConverge: the window is fixed during a run and the image is not our own; a change of policy starts a new run. A run has no sync fetch that fails: what a sync decided not to fetch may depend on one it then cannot fetch, and the source leaves that to the next sync.
- Syncs.SyncMergesExactlyWhen: the peer delivers what is asked for; a fetch that fails and a record the peer no longer has are skipped by the source and left to the next sync.
- DnsResolver.DnsService.ResolveZone: resolving is one step from the pin check to the cache insert, and so is unpinning; saving the pins succeeds.
- DnsResolver.AnswersAreFresh: the clock of the cache and the clock of record ages advance together, and an answer is not validated before its query began.
- DnsRecords.PayloadInjective: assumes of the URL library that what it accepts contains a colon.
- Identity.ParseHexPublisher: every string of 64 hex digits is a key; the curve check of the key library is not modelled.
- Releases.AttachedLands: timestamps are unbounded, so the increment of the greatest 64-bit timestamp is not modelled.
- Nodes.Node.FetchRelease: which provider delivers and the order they are tried in are one set of obtainable blobs.
- Nodes.Node.Gc: the grace period is the set of records past it; uploads and referrer files it also prunes are not modelled.
- Nodes.Node.StoreRelease: the referrer files that put_release writes beside the record are not modelled.
- Nodes.Node.Publish: the announcement that follows the store, and so its failure, is not modelled.
- Nodes.Node.AttachReferrer: an announcement that fails ends the source's loop early; the model's announcements do not fail.
- Manifests.ManifestPut: the referrer's index file, events and the announcement to peers are not modelled, and a failing announcement therefore neither; digests in references are values, not text.
- Sse.Listen: decoding a frame (UTF-8, `data:` lines, JSON) is a function of the frame; reconnecting and the receiver going away end or restart the loop and are not modelled.

Not modelled:

- Crashes between two writes; the second loop of a sweep repairs only entries that are still dead.
- Files and their encoding (JSON, TOML, postcard): index, policy and pins are maps that save and load faithfully, and writes succeed.
- Signatures of releases: a record is what its publisher signed.
- Rules other than seeds: adding and removing follows, pins and aliases, and rewriting domain rules.
- The network: endpoints, gossip, mDNS, pkarr, TLS, HTTP routing, ranges, uploads in parts.
- Deleting manifests by digest, tag and catalogue listings, referrer listings: look-ups over what is modelled.
- Peers, events, metrics, the command line, the terminal UI but for its stream reader, and the desktop extension.
