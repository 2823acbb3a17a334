/** The node's store and the operations that fill, prune and sweep it
    (crates/ocid/src/store.rs, crates/ocid-core/src/index.rs and the
    replication, publishing and collection parts of crates/ocid/src/node.rs),
    one call at a time. */
module Nodes {
  import opened Text
  import opened Identity
  import opened Names
  import opened Windows
  import opened Policies
  import opened Releases
  import opened Retention
  import Convergence

  // ------------------------------------------------------------------ listings

  predicate SortedByReference(rs: seq<Release>)
  {
    forall i, j :: 0 <= i < j < |rs| ==> Less(Reference(KeyOf(rs[i])), Reference(KeyOf(rs[j])))
  }

  /** `list_releases`: every release once, sorted by reference. */
  ghost predicate IsListing(rs: seq<Release>, releases: map<Key, Release>)
  {
    && SortedByReference(rs)
    && (forall r :: r in rs ==> KeyOf(r) in releases && releases[KeyOf(r)] == r)
    && (forall k :: k in releases ==> releases[k] in rs)
  }

  function InsertByReference(r: Release, rs: seq<Release>): seq<Release>
  {
    if rs == [] || Less(Reference(KeyOf(r)), Reference(KeyOf(rs[0]))) then [r] + rs
    else [rs[0]] + InsertByReference(r, rs[1..])
  }

  lemma {:induction false} InsertByReferenceMembers(r: Release, rs: seq<Release>)
    ensures forall x :: x in InsertByReference(r, rs) <==> x == r || x in rs
  {
    if rs != [] {
      InsertByReferenceMembers(r, rs[1..]);
      assert rs == [rs[0]] + rs[1..];
    }
  }

  lemma {:induction false} InsertByReferenceSorted(r: Release, rs: seq<Release>)
    requires SortedByReference(rs)
    requires forall x :: x in rs ==> Reference(KeyOf(x)) != Reference(KeyOf(r))
    ensures SortedByReference(InsertByReference(r, rs))
  {
    if rs != [] {
      TailMembers(rs);
      if Less(Reference(KeyOf(r)), Reference(KeyOf(rs[0]))) {
        forall j | 0 < j < |rs| ensures Less(Reference(KeyOf(r)), Reference(KeyOf(rs[j]))) {
          LessTransitive(Reference(KeyOf(r)), Reference(KeyOf(rs[0])), Reference(KeyOf(rs[j])));
        }
      } else {
        LessTotal(Reference(KeyOf(r)), Reference(KeyOf(rs[0])));
        InsertByReferenceSorted(r, rs[1..]);
        InsertByReferenceMembers(r, rs[1..]);
        var t := InsertByReference(r, rs[1..]);
        forall j | 0 <= j < |t| ensures Less(Reference(KeyOf(rs[0])), Reference(KeyOf(t[j]))) {
          assert t[j] == r || t[j] in rs[1..];
        }
      }
    }
  }

  /** Releases whose reference is not to be ignored. */
  function Unignored(releases: map<Key, Release>, ignore: set<string>): map<Key, Release>
  {
    map k | k in releases && Reference(k) !in ignore :: releases[k]
  }

  function Entries(rs: seq<Release>): seq<Entry>
  {
    seq(|rs|, i requires 0 <= i < |rs| => Entry(rs[i].tag, rs[i].timestamp))
  }

  /** `local_releases_of`: the releases of one image, each tag once. */
  ghost predicate IsImageListing(rs: seq<Release>, releases: map<Key, Release>, publisher: PublisherId, name: string)
  {
    && (forall r :: r in rs ==> KeyOf(r) in releases && releases[KeyOf(r)] == r && OfImage(KeyOf(r), publisher, name))
    && (forall k :: k in releases && OfImage(k, publisher, name) ==> releases[k] in rs)
    && DistinctTags(Entries(rs))
  }

  lemma ImageListingLists(rs: seq<Release>, releases: map<Key, Release>, publisher: PublisherId, name: string)
    requires IsImageListing(rs, releases, publisher, name)
    requires forall k :: k in releases ==> KeyOf(releases[k]) == k
    ensures Convergence.Lists(Entries(rs), ImageTags(releases, publisher, name))
  {
    var es, m := Entries(rs), ImageTags(releases, publisher, name);
    forall e | e in es ensures e.tag in m && m[e.tag] == e.ts {
      var i :| 0 <= i < |es| && es[i] == e;
      assert rs[i] in rs && KeyOf(rs[i]) in releases;
    }
    forall t | t in m ensures t in Tags(es) {
      var r := releases[Key(publisher, name, t)];
      assert r in rs;
      var i :| 0 <= i < |rs| && rs[i] == r;
      assert es[i] in es && es[i].tag == t;
    }
  }

  /** Everything a blob of a stored release needs: data, index entry, pin. */
  predicate Recorded(disk: Disk, b: BlobRef)
  {
    && b.hash in disk.data
    && b.digest in disk.index
    && b.digest in disk.pins && disk.pins[b.digest] == b.hash
  }

  predicate Complete(disk: Disk, r: Release)
  {
    forall b :: b in AllBlobs(r) ==> Recorded(disk, b)
  }

  /** Hashes named by listed releases that are not ignored. */
  lemma UnignoredAreNamed(releases: map<Key, Release>, ignore: set<string>)
    ensures forall h :: h in Live(Unignored(releases, ignore)) <==>
      exists k :: k in releases && Reference(k) !in ignore
        && (releases[k].manifest.hash == h || exists b :: b in releases[k].blobs && b.hash == h)
  {
    var rest := Unignored(releases, ignore);
    LiveIsNamed(rest);
    assert forall k :: k in rest ==> k in releases && Reference(k) !in ignore && rest[k] == releases[k];
    assert forall k :: k in releases && Reference(k) !in ignore ==> k in rest && rest[k] == releases[k];
    forall h | Named(rest, h)
      ensures exists k :: k in releases && Reference(k) !in ignore
                && (releases[k].manifest.hash == h || exists b :: b in releases[k].blobs && b.hash == h)
    {
      var k :| k in rest && (rest[k].manifest.hash == h || exists b :: b in rest[k].blobs && b.hash == h);
      assert releases[k] == rest[k];
    }
  }

  function HashesOf(rs: seq<Release>, ignore: set<string>): set<Hash>
  {
    set r, b | r in rs && Reference(KeyOf(r)) !in ignore && b in AllBlobs(r) :: b.hash
  }

  lemma HashesOfSnoc(rs: seq<Release>, r: Release, ignore: set<string>)
    ensures HashesOf(rs + [r], ignore)
         == HashesOf(rs, ignore) + if Reference(KeyOf(r)) in ignore then {} else set b | b in AllBlobs(r) :: b.hash
  {
    assert forall x :: x in rs + [r] <==> x in rs || x == r;
  }

  lemma HashesOfListing(rs: seq<Release>, releases: map<Key, Release>, ignore: set<string>)
    requires IsListing(rs, releases) && forall k :: k in releases ==> KeyOf(releases[k]) == k
    ensures HashesOf(rs, ignore) == Live(Unignored(releases, ignore))
  {
    var kept := Unignored(releases, ignore);
    assert forall r :: r in rs && Reference(KeyOf(r)) !in ignore ==> KeyOf(r) in kept && kept[KeyOf(r)] == r;
    assert forall k :: k in kept ==> kept[k] in rs && KeyOf(kept[k]) == k && Reference(k) !in ignore;
  }

  predicate Distinct(ds: seq<Digest>)
  {
    forall i, j :: 0 <= i < j < |ds| ==> ds[i] != ds[j]
  }

  ghost predicate IsPinListing(ps: seq<Digest>, pins: map<Digest, Hash>)
  {
    Distinct(ps) && forall d :: d in ps <==> d in pins
  }

  /** What the pin loop of a sweep has counted and left. */
  datatype Tally = Tally(removed: nat, bytes: nat, pins: map<Digest, Hash>, index: map<Digest, BlobRef>)

  function TallyOne(dryRun: bool, t: Tally, d: Digest): Tally
  {
    if dryRun then t.(removed := t.removed + 1, bytes := t.bytes + SizeAt(t.index, d))
    else Tally(t.removed + 1, t.bytes + SizeAt(t.index, d), t.pins - {d}, t.index - {d})
  }

  function Tallied(dryRun: bool, live: set<Hash>, ps: seq<Digest>, pins: map<Digest, Hash>,
                   index: map<Digest, BlobRef>): Tally
  {
    if ps == [] then Tally(0, 0, pins, index)
    else
      var t := Tallied(dryRun, live, ps[..|ps| - 1], pins, index);
      var d := ps[|ps| - 1];
      if d !in pins || pins[d] in live then t else TallyOne(dryRun, t, d)
  }

  /** `dead` has been counted against the original index and, in a real run,
      dropped. */
  ghost predicate Accounts(dryRun: bool, t: Tally, dead: set<Digest>, pins: map<Digest, Hash>,
                           index: map<Digest, BlobRef>)
  {
    && t.removed == |dead| && t.bytes == SizeOf(index, dead)
    && t.pins == (if dryRun then pins else pins - dead)
    && t.index == (if dryRun then index else index - dead)
  }

  lemma AccountsForOneMore(dryRun: bool, t: Tally, dead: set<Digest>, d: Digest, pins: map<Digest, Hash>,
                           index: map<Digest, BlobRef>)
    requires Accounts(dryRun, t, dead, pins, index) && d !in dead
    ensures Accounts(dryRun, TallyOne(dryRun, t, d), dead + {d}, pins, index)
  {
    SizeOfGrow(index, dead, d);
    assert SizeAt(t.index, d) == SizeAt(index, d);
    assert index - dead - {d} == index - (dead + {d});
    assert pins - dead - {d} == pins - (dead + {d});
  }

  /** Dead pins among the listed ones. */
  function DeadAmong(ps: seq<Digest>, pins: map<Digest, Hash>, live: set<Hash>): set<Digest>
  {
    set d | d in ps && d in pins && pins[d] !in live
  }

  lemma DeadAmongNext(ps: seq<Digest>, d: Digest, pins: map<Digest, Hash>, live: set<Hash>)
    requires Distinct(ps + [d])
    ensures DeadAmong(ps + [d], pins, live)
         == DeadAmong(ps, pins, live) + if d !in pins || pins[d] in live then {} else {d}
    ensures d !in DeadAmong(ps, pins, live)
  {
    var all := ps + [d];
    assert all[|ps|] == d && forall i :: 0 <= i < |ps| ==> all[i] == ps[i];
  }

  /** Deleting while counting does not change the count: each pin is listed
      once. */
  lemma {:induction false} TalliedFacts(dryRun: bool, live: set<Hash>, ps: seq<Digest>, pins: map<Digest, Hash>,
                                        index: map<Digest, BlobRef>)
    requires Distinct(ps)
    ensures Accounts(dryRun, Tallied(dryRun, live, ps, pins, index), DeadAmong(ps, pins, live), pins, index)
  {
    if ps == [] {
      assert DeadAmong(ps, pins, live) == {};
    } else {
      var front, d := ps[..|ps| - 1], ps[|ps| - 1];
      assert ps == front + [d];
      TalliedFacts(dryRun, live, front, pins, index);
      DeadAmongNext(front, d, pins, live);
      var dead := DeadAmong(front, pins, live);
      if d in pins && pins[d] !in live {
        AccountsForOneMore(dryRun, Tallied(dryRun, live, front, pins, index), dead, d, pins, index);
      } else {
        assert dead + {} == dead;
      }
    }
  }

  lemma TalliedIsDead(dryRun: bool, live: set<Hash>, ps: seq<Digest>, disk: Disk)
    requires IsPinListing(ps, disk.pins)
    ensures Accounts(dryRun, Tallied(dryRun, live, ps, disk.pins, disk.index), Dead(disk, live), disk.pins, disk.index)
  {
    TalliedFacts(dryRun, live, ps, disk.pins, disk.index);
    assert DeadAmong(ps, disk.pins, live) == Dead(disk, live);
  }

  /** The two loops of a sweep leave the swept disk. */
  lemma LoopsSweep(disk: Disk, live: set<Hash>, pins: map<Digest, Hash>, index: map<Digest, BlobRef>)
    requires pins == disk.pins - Dead(disk, live)
    requires index == disk.index - Dead(disk, live)
    ensures Swept(disk, live).pins == pins
    ensures Swept(disk, live).index
         == map d | d in index && (index[d].hash in live || index[d].hash in pins.Values) :: index[d]
  {
  }

  /** Keys of listed releases outside a selection. */
  function Outside(rs: seq<Release>, selected: set<string>): set<Key>
  {
    set r | r in rs && r.tag !in selected :: KeyOf(r)
  }

  lemma OutsideSnoc(rs: seq<Release>, r: Release, selected: set<string>)
    ensures Outside(rs + [r], selected) == Outside(rs, selected) + if r.tag in selected then {} else {KeyOf(r)}
  {
    assert forall x :: x in rs + [r] <==> x in rs || x == r;
  }

  /** Removing what lies outside the selection is enforcing the window. */
  lemma OutsideIsPruned(c: Config, rs: seq<Release>, releases: map<Key, Release>, publisher: PublisherId, name: string,
                        selected: set<string>)
    requires IsImageListing(rs, releases, publisher, name) && Managed(c, publisher, name)
    requires forall k :: k in releases ==> KeyOf(releases[k]) == k
    requires selected == Select(WindowFor(c, publisher, name), Entries(rs))
    ensures releases - Outside(rs, selected) == EnforcedImage(c, releases, publisher, name)
  {
    ImageListingLists(rs, releases, publisher, name);
    Convergence.ListingNewest(Entries(rs), ImageTags(releases, publisher, name));
    SelectIsWindow(WindowFor(c, publisher, name), Entries(rs));
    forall k | k in releases && OfImage(k, publisher, name)
      ensures k in Outside(rs, selected) <==> !InWindow(c, releases, k)
    {
      assert releases[k] in rs;
    }
  }

  lemma UnmanagedStays(c: Config, releases: map<Key, Release>, publisher: PublisherId, name: string)
    ensures !Managed(c, publisher, name) ==> EnforcedImage(c, releases, publisher, name) == releases
  {
  }

  datatype FetchError = NoProviders | DownloadFailed | VerificationFailed

  // --------------------------------------------------------- facts about loops

  /** Index entries are pinned and pins have their data. */
  predicate SoundDisk(disk: Disk)
  {
    && (forall d :: d in disk.index ==> d in disk.pins)
    && (forall d :: d in disk.pins ==> disk.pins[d] in disk.data)
  }

  /** Nothing recorded is lost. */
  ghost predicate Grown(before: Disk, after: Disk)
  {
    forall b: BlobRef :: Matching(b) && Recorded(before, b) ==> Recorded(after, b)
  }

  /** Does a fetch get past the blob? Data already there and indexed is taken
      as it is; everything else is verified. */
  predicate Obtainable(disk: Disk, b: BlobRef, providers: bool, available: set<Hash>)
  {
    if b.hash in disk.data then b.digest in disk.index || Consistent(b)
    else providers && b.hash in available && Consistent(b)
  }

  /** The disk once a consistent blob has been fetched, or found and recorded,
      or found recorded. */
  function WithBlob(disk: Disk, b: BlobRef): Disk
  {
    if b.hash in disk.data && b.digest in disk.index then disk
    else disk.(data := disk.data + {b.hash}, pins := disk.pins[b.digest := b.hash], index := disk.index[b.digest := b])
  }

  function WithBlobs(disk: Disk, bs: seq<BlobRef>): Disk
  {
    if bs == [] then disk else WithBlob(WithBlobs(disk, bs[..|bs| - 1]), bs[|bs| - 1])
  }

  predicate AllObtainable(disk: Disk, bs: seq<BlobRef>, providers: bool, available: set<Hash>)
  {
    bs == [] ||
    (AllObtainable(disk, bs[..|bs| - 1], providers, available)
     && Obtainable(WithBlobs(disk, bs[..|bs| - 1]), bs[|bs| - 1], providers, available))
  }

  /** A blob that failed may leave its data, neither indexed nor pinned. */
  predicate LeftOver(before: Disk, b: BlobRef, after: Disk)
  {
    after == before || after == before.(data := before.data + {b.hash})
  }

  predicate StoppedAt(before: Disk, bs: seq<BlobRef>, n: nat, after: Disk)
    requires n < |bs|
  {
    LeftOver(WithBlobs(before, bs[..n]), bs[n], after)
  }

  lemma {:induction false} WithBlobsKeepsReleases(disk: Disk, bs: seq<BlobRef>)
    ensures WithBlobs(disk, bs).releases == disk.releases
  {
    if bs != [] { WithBlobsKeepsReleases(disk, bs[..|bs| - 1]); }
  }

  /** The data of a blob is there and its digest indexed. */
  predicate Arrived(disk: Disk, b: BlobRef)
  {
    b.hash in disk.data && b.digest in disk.index
  }

  lemma {:induction false} BlobsArrive(disk: Disk, bs: seq<BlobRef>)
    ensures forall b :: b in bs ==> Arrived(WithBlobs(disk, bs), b)
  {
    if bs != [] {
      BlobsArrive(disk, bs[..|bs| - 1]);
      assert bs == bs[..|bs| - 1] + [bs[|bs| - 1]];
    }
  }

  lemma ReleaseArrives(disk: Disk, r: Release)
    ensures Arrived(WithBlobs(disk, AllBlobs(r)), r.manifest)
    ensures forall b :: b in r.blobs ==> Arrived(WithBlobs(disk, AllBlobs(r)), b)
  {
    BlobsArrive(disk, AllBlobs(r));
    assert r.manifest in AllBlobs(r) && forall b :: b in r.blobs ==> b in AllBlobs(r);
  }

  lemma {:induction false} WithBlobsHold(disk: Disk, bs: seq<BlobRef>)
    ensures forall h :: h in WithBlobs(disk, bs).data <==> h in disk.data || exists b :: b in bs && b.hash == h
    ensures forall d :: d in WithBlobs(disk, bs).index <==> d in disk.index || exists b :: b in bs && b.digest == d
  {
    if bs != [] {
      WithBlobsHold(disk, bs[..|bs| - 1]);
      assert bs == bs[..|bs| - 1] + [bs[|bs| - 1]];
    }
  }

  /** When a fetch gets past its `i`-th blob. Counted as there is what the disk
      had and what the blobs before it brought: data that is there and indexed
      is taken, data there and not indexed must verify, anything else must be
      downloaded and verify. */
  ghost predicate Passes(disk: Disk, bs: seq<BlobRef>, i: nat, providers: bool, available: set<Hash>)
    requires i < |bs|
  {
    var verifies := bs[i].digest == Sha256(bs[i].hash.content) && bs[i].size == |bs[i].hash.content|;
    if bs[i].hash in disk.data || (exists j :: 0 <= j < i && bs[j].hash == bs[i].hash)
    then bs[i].digest in disk.index || (exists j :: 0 <= j < i && bs[j].digest == bs[i].digest) || verifies
    else providers && bs[i].hash in available && verifies
  }

  lemma PassesNext(disk: Disk, bs: seq<BlobRef>, i: nat, providers: bool, available: set<Hash>)
    requires i < |bs|
    ensures Passes(disk, bs, i, providers, available) <==>
            Obtainable(WithBlobs(disk, bs[..i]), bs[i], providers, available)
  {
    WithBlobsHold(disk, bs[..i]);
    assert forall j :: 0 <= j < i ==> bs[..i][j] == bs[j] && bs[j] in bs[..i];
  }

  /** A fetch succeeds if and only if it gets past every blob. */
  lemma {:induction false} FetchSucceedsExactlyWhen(disk: Disk, bs: seq<BlobRef>, n: nat, providers: bool,
                                                    available: set<Hash>)
    requires n <= |bs|
    ensures AllObtainable(disk, bs[..n], providers, available) <==>
            forall i :: 0 <= i < n ==> Passes(disk, bs, i, providers, available)
  {
    if n > 0 {
      FetchSucceedsExactlyWhen(disk, bs, n - 1, providers, available);
      PassesNext(disk, bs, n - 1, providers, available);
      assert bs[..n][..n - 1] == bs[..n - 1];
    }
  }

  lemma {:induction false} PrefixObtainable(disk: Disk, bs: seq<BlobRef>, n: nat, providers: bool, available: set<Hash>)
    requires n <= |bs| && AllObtainable(disk, bs, providers, available)
    ensures AllObtainable(disk, bs[..n], providers, available)
  {
    if n < |bs| {
      PrefixObtainable(disk, bs[..|bs| - 1], n, providers, available);
      assert bs[..|bs| - 1][..n] == bs[..n];
    } else {
      assert bs[..n] == bs;
    }
  }

  lemma NoPrefixNoWhole(disk: Disk, bs: seq<BlobRef>, n: nat, providers: bool, available: set<Hash>)
    requires n <= |bs|
    ensures AllObtainable(disk, bs, providers, available) ==> AllObtainable(disk, bs[..n], providers, available)
  {
    if AllObtainable(disk, bs, providers, available) { PrefixObtainable(disk, bs, n, providers, available); }
  }

  lemma WithBlobRecords(disk: Disk, b: BlobRef, providers: bool, available: set<Hash>)
    requires WellFiled(disk) && SoundDisk(disk) && Obtainable(disk, b, providers, available)
    ensures var d := WithBlob(disk, b);
            WellFiled(d) && SoundDisk(d) && Grown(disk, d) && (Recorded(d, b) <==> Matching(b))
  {
  }

  /** A fetch that ends well loses nothing that was recorded, so complete
      releases stay complete; the fetched release is complete if and only if
      each of its blobs names one content by both hashes. */
  lemma {:induction false} FetchedCompleteExactlyWhen(disk: Disk, bs: seq<BlobRef>, providers: bool,
                                                      available: set<Hash>)
    requires WellFiled(disk) && SoundDisk(disk) && AllObtainable(disk, bs, providers, available)
    ensures var d := WithBlobs(disk, bs);
            WellFiled(d) && SoundDisk(d) && Grown(disk, d)
            && forall b :: b in bs ==> (Recorded(d, b) <==> Matching(b))
  {
    if bs != [] {
      var front, b := bs[..|bs| - 1], bs[|bs| - 1];
      assert bs == front + [b];
      FetchedCompleteExactlyWhen(disk, front, providers, available);
      WithBlobRecords(WithBlobs(disk, front), b, providers, available);
    }
  }

  /** Such a fetch is possible: two contents stored, a reference that names
      one by sha256 and the other by BLAKE3. It is obtained and not recorded. */
  lemma MismatchIsObtained(one: Content, other: Content, size: nat)
    requires one != other
    ensures var b := BlobRef(Sha256(one), Blake3(other), size, None);
            var disk := WithBlobs(Disk(map[], map[], map[], {}),
                                  [BlobRef(Sha256(one), Blake3(one), |one|, None),
                                   BlobRef(Sha256(other), Blake3(other), |other|, None)]);
            WellFiled(disk) && SoundDisk(disk) && Obtainable(disk, b, false, {})
            && WithBlob(disk, b) == disk && !Recorded(disk, b)
  {
    var a := BlobRef(Sha256(one), Blake3(one), |one|, None);
    var c := BlobRef(Sha256(other), Blake3(other), |other|, None);
    assert [a, c][..1] == [a] && [a][..0] == [];
    var disk := Disk(map[], map[], map[], {});
    assert WithBlobs(disk, [a]) == WithBlob(disk, a);
    assert WithBlobs(disk, [a, c]) == WithBlob(WithBlob(disk, a), c);
  }

  lemma SomethingGone(releases: map<Key, Release>, removed: set<Key>)
    requires removed != {} && removed <= releases.Keys
    ensures releases - removed != releases
  {
    var k :| k in removed;
    assert k in releases && k !in releases - removed;
  }

  /** The releases `attach_referrer` updates. */
  function Subjects(a: Attachment, releases: map<Key, Release>): set<Key>
  {
    set k | k in releases && a.AppliesTo(releases[k])
  }

  function UpdateAll(a: Attachment, releases: map<Key, Release>): map<Key, Release>
  {
    map k | k in releases :: a.Updated(releases[k])
  }

  /** The records `attach_referrer` publishes, in the order of the listing. */
  function Updates(a: Attachment, rs: seq<Release>): seq<Release>
  {
    if rs == [] then []
    else
      var front, r := Updates(a, rs[..|rs| - 1]), rs[|rs| - 1];
      if a.AppliesTo(r) then front + [a.Attached(r)] else front
  }

  function PutOnto(m: map<Key, Release>, rs: seq<Release>): map<Key, Release>
  {
    if rs == [] then m else PutRelease(PutOnto(m, rs[..|rs| - 1]), rs[|rs| - 1])
  }

  lemma PutOntoSnoc(m: map<Key, Release>, rs: seq<Release>, r: Release)
    ensures PutOnto(m, rs + [r]) == PutRelease(PutOnto(m, rs), r)
  {
    assert (rs + [r])[..|rs|] == rs;
  }

  predicate DistinctKeys(rs: seq<Release>)
  {
    forall i, j :: 0 <= i < j < |rs| ==> KeyOf(rs[i]) != KeyOf(rs[j])
  }

  function Keys(rs: seq<Release>): set<Key> { set r | r in rs :: KeyOf(r) }

  function Refs(rs: seq<Release>): seq<string>
  {
    seq(|rs|, i requires 0 <= i < |rs| => Reference(KeyOf(rs[i])))
  }

  lemma PrunedOneMore(rs: seq<Release>, r: Release)
    ensures Refs(rs + [r]) == Refs(rs) + [Reference(KeyOf(r))]
    ensures Keys(rs + [r]) == Keys(rs) + {KeyOf(r)}
  {
    assert forall x :: x in rs + [r] <==> x in rs || x == r;
  }

  lemma DistinctFront(rs: seq<Release>)
    requires DistinctKeys(rs) && rs != []
    ensures var front, last := rs[..|rs| - 1], rs[|rs| - 1];
            && DistinctKeys(front) && KeyOf(last) !in Keys(front) && Keys(rs) == Keys(front) + {KeyOf(last)}
            && forall x :: x in rs <==> x in front || x == last
  {
    var front, last := rs[..|rs| - 1], rs[|rs| - 1];
    assert rs == front + [last];
    PrunedOneMore(front, last);
    assert forall i :: 0 <= i < |front| ==> rs[i] == front[i] && KeyOf(rs[i]) != KeyOf(rs[|rs| - 1]);
  }

  /** Records under distinct keys that each supersede what is stored all
      land. */
  lemma {:induction false} AllLand(m: map<Key, Release>, rs: seq<Release>)
    requires DistinctKeys(rs)
    requires forall r :: r in rs ==> KeyOf(r) in m && Supersedes(r, m[KeyOf(r)])
    ensures PutOnto(m, rs).Keys == m.Keys
    ensures forall r :: r in rs ==> PutOnto(m, rs)[KeyOf(r)] == r
    ensures forall k :: k in m && k !in Keys(rs) ==> PutOnto(m, rs)[k] == m[k]
  {
    if rs != [] {
      var front, last := rs[..|rs| - 1], rs[|rs| - 1];
      DistinctFront(rs);
      AllLand(m, front);
      forall r | r in front ensures KeyOf(r) != KeyOf(last) { assert KeyOf(r) in Keys(front); }
    }
  }

  lemma {:induction false} UpdatesFacts(a: Attachment, rs: seq<Release>)
    requires DistinctKeys(rs)
    ensures DistinctKeys(Updates(a, rs))
    ensures forall u :: u in Updates(a, rs) <==> exists r :: r in rs && a.AppliesTo(r) && a.Attached(r) == u
    ensures forall k :: k in Keys(Updates(a, rs)) ==> k in Keys(rs)
  {
    if rs != [] {
      var front, r := rs[..|rs| - 1], rs[|rs| - 1];
      DistinctFront(rs);
      UpdatesFacts(a, front);
      if a.AppliesTo(r) {
        AttachedLands(a, r);
        var us := Updates(a, front);
        PrunedOneMore(us, a.Attached(r));
        forall i | 0 <= i < |us| ensures KeyOf(us[i]) != KeyOf(r) { assert KeyOf(us[i]) in Keys(us); }
      }
    }
  }

  lemma {:induction false} KeysCardinality(rs: seq<Release>)
    requires DistinctKeys(rs)
    ensures |Keys(rs)| == |rs|
  {
    if rs == [] {
      assert Keys(rs) == {};
    } else {
      var front, r := rs[..|rs| - 1], rs[|rs| - 1];
      DistinctFront(rs);
      KeysCardinality(front);
    }
  }

  lemma UpdatesUnder(a: Attachment, releases: map<Key, Release>, rs: seq<Release>)
    requires IsListing(rs, releases) && forall k :: k in releases ==> KeyOf(releases[k]) == k
    requires forall u :: u in Updates(a, rs) <==> exists r :: r in rs && a.AppliesTo(r) && a.Attached(r) == u
    ensures forall u :: u in Updates(a, rs) ==> KeyOf(u) in releases && Supersedes(u, releases[KeyOf(u)])
    ensures Keys(Updates(a, rs)) == Subjects(a, releases)
  {
    var us := Updates(a, rs);
    forall u | u in us
      ensures KeyOf(u) in releases && Supersedes(u, releases[KeyOf(u)]) && KeyOf(u) in Subjects(a, releases)
    {
      var r :| r in rs && a.AppliesTo(r) && a.Attached(r) == u;
      AttachedLands(a, r);
    }
    forall k | k in Subjects(a, releases) ensures k in Keys(us) {
      AttachedLands(a, releases[k]);
      assert releases[k] in rs && a.Attached(releases[k]) in us;
    }
  }

  lemma SortedIsDistinct(rs: seq<Release>)
    requires SortedByReference(rs)
    ensures forall i, j :: 0 <= i < j < |rs| ==> KeyOf(rs[i]) != KeyOf(rs[j])
  {
    forall i, j | 0 <= i < j < |rs| ensures KeyOf(rs[i]) != KeyOf(rs[j]) {
      LessTotal(Reference(KeyOf(rs[i])), Reference(KeyOf(rs[j])));
    }
  }

  /** Publishing the updates one by one updates every release once. */
  lemma UpdatesAreAll(a: Attachment, releases: map<Key, Release>, rs: seq<Release>)
    requires IsListing(rs, releases) && forall k :: k in releases ==> KeyOf(releases[k]) == k
    ensures PutOnto(releases, Updates(a, rs)) == UpdateAll(a, releases)
    ensures |Updates(a, rs)| == |Subjects(a, releases)|
  {
    var us := Updates(a, rs);
    SortedIsDistinct(rs);
    UpdatesFacts(a, rs);
    UpdatesUnder(a, releases, rs);
    AllLand(releases, us);
    KeysCardinality(us);
    forall k | k in releases ensures PutOnto(releases, us)[k] == a.Updated(releases[k]) {
      if a.AppliesTo(releases[k]) { assert a.Attached(releases[k]) in us; }
    }
  }

  lemma UpdateAllFiled(a: Attachment, disk: Disk)
    requires WellFiled(disk)
    ensures WellFiled(disk.(releases := UpdateAll(a, disk.releases)))
  {
    forall k | k in disk.releases ensures KeyOf(a.Updated(disk.releases[k])) == k {
      if a.AppliesTo(disk.releases[k]) { AttachedLands(a, disk.releases[k]); }
    }
  }

  /** `attach_referrer` changes exactly our records of the subject that do not
      have the referrer yet, each to the same release with the referrer and the
      blobs it lacked, dated later than before. */
  lemma AttachIsExact(a: Attachment, releases: map<Key, Release>, k: Key)
    requires k in releases
    ensures k in UpdateAll(a, releases)
    ensures var before, updated := releases[k], UpdateAll(a, releases)[k];
            if before.publisher == a.me && before.manifest.digest == a.subject
               && forall x :: x in before.referrers ==> x.digest != a.referrer.digest
            then
              && updated.publisher == before.publisher && updated.name == before.name && updated.tag == before.tag
              && updated.manifest == before.manifest && updated.referrers == before.referrers + [a.referrer]
              && before.blobs <= updated.blobs && updated.timestamp > before.timestamp
              && (forall b :: b in a.blobs ==> exists x :: x in updated.blobs && x.digest == b.digest)
              && (forall b :: b in updated.blobs ==> b in before.blobs || b in a.blobs)
            else updated == before
  {
    if a.AppliesTo(releases[k]) {
      AttachedLands(a, releases[k]);
    }
  }

  /** A second call with the same referrer updates nothing. */
  lemma SecondAttachFindsNothing(a: Attachment, b: Attachment, releases: map<Key, Release>)
    requires b.me == a.me && b.subject == a.subject && b.referrer == a.referrer
    ensures Subjects(b, UpdateAll(a, releases)) == {}
    ensures UpdateAll(b, UpdateAll(a, releases)) == UpdateAll(a, releases)
  {
    forall k | k in releases { SecondAttachDoesNothing(a, b, releases[k]); }
  }

  /** Later, it updates only releases that were published in between. */
  lemma LaterAttachFindsOnlyNewer(a: Attachment, b: Attachment, releases: map<Key, Release>, later: map<Key, Release>,
                                  k: Key)
    requires b.me == a.me && b.subject == a.subject && b.referrer == a.referrer
    requires k in Subjects(b, later)
    ensures k in releases ==> later[k] != UpdateAll(a, releases)[k]
  {
    if k in releases { SecondAttachDoesNothing(a, b, releases[k]); }
  }

  lemma AllReposEnforced(c: Config, rs: seq<Release>, releases: map<Key, Release>, images: set<(PublisherId, string)>)
    requires IsListing(rs, releases) && images == set r | r in rs :: (r.publisher, r.name)
    requires forall k :: k in releases ==> KeyOf(releases[k]) == k
    ensures EnforcedFor(c, releases, images) == Enforced(c, releases)
  {
    forall k | k in releases ensures (k.publisher, k.name) in images {
      assert releases[k] in rs;
    }
  }

  function KeptOf(c: Config, releases: map<Key, Release>, images: set<(PublisherId, string)>): set<string>
  {
    set k | k in Retained(c, releases) && (k.publisher, k.name) in images :: Reference(k)
  }

  lemma KeptOfOneMore(c: Config, releases: map<Key, Release>, images: set<(PublisherId, string)>,
                      repo: (PublisherId, string))
    ensures KeptOf(c, releases, images + {repo}) == KeptOf(c, releases, images) + KeptOf(c, releases, {repo})
  {
  }

  lemma KeptOfAll(c: Config, rs: seq<Release>, releases: map<Key, Release>, images: set<(PublisherId, string)>)
    requires IsListing(rs, releases) && images == set r | r in rs :: (r.publisher, r.name)
    requires forall k :: k in releases ==> KeyOf(releases[k]) == k
    ensures KeptOf(c, releases, images) == set k | k in Retained(c, releases) :: Reference(k)
  {
    forall k | k in Retained(c, releases) ensures (k.publisher, k.name) in images {
      assert releases[k] in rs;
    }
  }

  /** The listed releases of one image. */
  function GroupOf(rs: seq<Release>, publisher: PublisherId, name: string): seq<Release>
  {
    if rs == [] then []
    else
      var front := GroupOf(rs[..|rs| - 1], publisher, name);
      if OfImage(KeyOf(rs[|rs| - 1]), publisher, name) then front + [rs[|rs| - 1]] else front
  }

  lemma {:induction false} GroupMembers(rs: seq<Release>, publisher: PublisherId, name: string)
    requires forall i, j :: 0 <= i < j < |rs| ==> KeyOf(rs[i]) != KeyOf(rs[j])
    ensures forall r :: r in GroupOf(rs, publisher, name) <==> r in rs && OfImage(KeyOf(r), publisher, name)
    ensures DistinctTags(Entries(GroupOf(rs, publisher, name)))
  {
    if rs != [] {
      var front, last := rs[..|rs| - 1], rs[|rs| - 1];
      GroupMembers(front, publisher, name);
      assert rs == front + [last];
      if OfImage(KeyOf(last), publisher, name) {
        var group := GroupOf(front, publisher, name);
        var es := Entries(group);
        forall e | e in es ensures e.tag != last.tag {
          var i :| 0 <= i < |es| && es[i] == e;
          assert group[i] in group && group[i] in front;
          var j :| 0 <= j < |front| && front[j] == group[i];
          assert KeyOf(rs[j]) != KeyOf(rs[|rs| - 1]);
        }
        DistinctAppend(es, Entry(last.tag, last.timestamp));
        assert Entries(group + [last]) == es + [Entry(last.tag, last.timestamp)];
      }
    }
  }

  lemma GroupIsImageListing(rs: seq<Release>, releases: map<Key, Release>, publisher: PublisherId, name: string)
    requires IsListing(rs, releases)
    requires forall k :: k in releases ==> KeyOf(releases[k]) == k
    ensures IsImageListing(GroupOf(rs, publisher, name), releases, publisher, name)
  {
    SortedIsDistinct(rs);
    GroupMembers(rs, publisher, name);
  }

  /** A group's contribution to the retained set, when `chosen` tells which of
      its releases are retained. */
  lemma GroupKept(c: Config, group: seq<Release>, releases: map<Key, Release>, publisher: PublisherId, name: string,
                  chosen: set<string>)
    requires IsImageListing(group, releases, publisher, name)
    requires forall k :: k in releases ==> KeyOf(releases[k]) == k
    requires publisher == c.me ==> chosen == set r | r in group :: r.tag
    requires publisher != c.me && !Managed(c, publisher, name) ==> chosen == {}
    requires Managed(c, publisher, name) ==>
      forall k :: k in releases && OfImage(k, publisher, name) ==> (k.tag in chosen <==> InWindow(c, releases, k))
    ensures KeptOf(c, releases, {(publisher, name)})
         == set r | r in group && r.tag in chosen :: Reference(KeyOf(r))
  {
    var kept := set r | r in group && r.tag in chosen :: Reference(KeyOf(r));
    forall s | s in KeptOf(c, releases, {(publisher, name)}) ensures s in kept {
      var k :| k in Retained(c, releases) && (k.publisher, k.name) == (publisher, name) && Reference(k) == s;
      assert releases[k] in group;
    }
    forall s | s in kept ensures s in KeptOf(c, releases, {(publisher, name)}) {
      var r :| r in group && r.tag in chosen && Reference(KeyOf(r)) == s;
      assert KeyOf(r) in Retained(c, releases);
    }
  }

  lemma GroupSelected(c: Config, group: seq<Release>, releases: map<Key, Release>, publisher: PublisherId, name: string,
                      selected: set<string>)
    requires IsImageListing(group, releases, publisher, name)
    requires forall k :: k in releases ==> KeyOf(releases[k]) == k
    requires selected == Select(WindowFor(c, publisher, name), Entries(group))
    ensures forall k :: k in releases && OfImage(k, publisher, name) ==>
              (k.tag in selected <==> InWindow(c, releases, k))
  {
    ImageListingLists(group, releases, publisher, name);
    Convergence.ListingNewest(Entries(group), ImageTags(releases, publisher, name));
    SelectIsWindow(WindowFor(c, publisher, name), Entries(group));
  }

  /** The releases the pruning loop of gc removes. */
  function Pruned(rs: seq<Release>, keep: set<string>, force: bool, expired: set<Key>): seq<Release>
  {
    if rs == [] then []
    else
      var front := Pruned(rs[..|rs| - 1], keep, force, expired);
      var k := KeyOf(rs[|rs| - 1]);
      if Reference(k) !in keep && (force || k in expired) then front + [rs[|rs| - 1]] else front
  }

  lemma {:induction false} PrunedMembers(rs: seq<Release>, keep: set<string>, force: bool, expired: set<Key>)
    requires SortedByReference(rs)
    ensures forall r :: r in Pruned(rs, keep, force, expired) <==>
      r in rs && Reference(KeyOf(r)) !in keep && (force || KeyOf(r) in expired)
    ensures SortedByReference(Pruned(rs, keep, force, expired))
  {
    if rs != [] {
      var front, last := rs[..|rs| - 1], rs[|rs| - 1];
      PrunedMembers(front, keep, force, expired);
      assert rs == front + [last];
      var pruned := Pruned(front, keep, force, expired);
      forall i | 0 <= i < |pruned| ensures Less(Reference(KeyOf(pruned[i])), Reference(KeyOf(last))) {
        assert pruned[i] in front;
        var j :| 0 <= j < |front| && front[j] == pruned[i];
        assert Less(Reference(KeyOf(rs[j])), Reference(KeyOf(rs[|rs| - 1])));
      }
    }
  }

  lemma RefsMembers(rs: seq<Release>)
    ensures forall s :: s in Refs(rs) <==> exists k :: k in Keys(rs) && Reference(k) == s
  {
    forall s | s in Refs(rs) ensures exists k :: k in Keys(rs) && Reference(k) == s {
      var i :| 0 <= i < |Refs(rs)| && Refs(rs)[i] == s;
      assert KeyOf(rs[i]) in Keys(rs);
    }
    forall k | k in Keys(rs) ensures Reference(k) in Refs(rs) {
      var r :| r in rs && KeyOf(r) == k;
      var i :| 0 <= i < |rs| && rs[i] == r;
      assert Refs(rs)[i] == Reference(k);
    }
  }

  /** What the loop removes is what gc should remove; the references come out
      in order. */
  lemma PrunedRefs(c: Config, rs: seq<Release>, releases: map<Key, Release>, keep: set<string>, force: bool,
                   expired: set<Key>)
    requires IsListing(rs, releases)
    requires forall k :: k in releases ==> KeyOf(releases[k]) == k && ValidKey(k)
    requires keep == set k | k in Retained(c, releases) :: Reference(k)
    ensures var pruned := Pruned(rs, keep, force, expired);
            && Keys(pruned) == Removed(c, releases, force, expired)
            && Ascending(Refs(pruned))
            && forall s :: s in Refs(pruned) <==>
                 exists k :: k in Removed(c, releases, force, expired) && Reference(k) == s
  {
    var pruned := Pruned(rs, keep, force, expired);
    PrunedMembers(rs, keep, force, expired);
    forall k | k in releases ensures k in Keys(pruned) <==> k in Removed(c, releases, force, expired) {
      assert releases[k] in rs;
      if Reference(k) in keep {
        var x :| x in Retained(c, releases) && Reference(x) == Reference(k);
        ReferenceInjective(x, k);
      }
    }
    RefsMembers(pruned);
  }

  /** Ignoring the removed references is the same as having removed the
      releases: references are injective. */
  lemma IgnoreRemoved(releases: map<Key, Release>, removed: set<Key>, refs: seq<string>)
    requires removed <= releases.Keys && forall k :: k in releases ==> ValidKey(k)
    requires forall s :: s in refs <==> exists k :: k in removed && Reference(k) == s
    ensures Unignored(releases, set s | s in refs) == releases - removed
    ensures Unignored(releases - removed, set s | s in refs) == releases - removed
  {
    forall k | k in releases ensures Reference(k) in refs <==> k in removed {
      if Reference(k) in refs {
        var x :| x in removed && Reference(x) == Reference(k);
        ReferenceInjective(x, k);
      }
    }
  }

  // ------------------------------------------------------------------ the node

  class Node {
    const me: PublisherId
    const forms: KeyForms
    var policy: Policy
    var releases: map<Key, Release>
    var index: map<Digest, BlobRef>
    var pins: map<Digest, Hash>
    var data: set<Hash>

    /** A new node: nothing stored. */
    constructor (me: PublisherId, forms: KeyForms, policy: Policy)
      ensures Valid() && View() == Disk(map[], map[], map[], {}) && Settings() == Config(me, forms, policy)
    {
      this.me, this.forms, this.policy := me, forms, policy;
      releases, index, pins, data := map[], map[], map[], {};
    }

    function View(): Disk
      reads this
    {
      Disk(releases, index, pins, data)
    }

    function Settings(): Config
      reads this
    {
      Config(me, forms, policy)
    }

    ghost predicate Valid()
      reads this
    {
      WellFiled(View())
    }

    // ---------------------------------------------------------- store.rs

    /** `record_blob`: pin, then index entry. */
    method RecordBlob(b: BlobRef)
      requires Valid() && Consistent(b)
      modifies this`pins, this`index
      ensures Valid()
      ensures pins == old(pins)[b.digest := b.hash] && index == old(index)[b.digest := b]
    {
      pins := pins[b.digest := b.hash];
      index := index[b.digest := b];
    }

    /** `put_blob_bytes`; `None` when the digest is not the expected one. */
    method PutBlobBytes(content: Content, expected: Option<Digest>, mediaType: Option<string>)
      returns (r: Option<BlobRef>)
      requires Valid()
      modifies this`pins, this`index, this`data
      ensures Valid()
      ensures r.None? <==> expected.Some? && expected.value != Sha256(content)
      ensures r.None? ==> View() == old(View())
      ensures r.Some? ==> Consistent(r.value) && r.value.digest == Sha256(content) && Recorded(View(), r.value)
                          && r.value.mediaType == mediaType
      ensures r.Some? ==> pins == old(pins)[r.value.digest := r.value.hash]
                          && index == old(index)[r.value.digest := r.value] && data == old(data) + {r.value.hash}
    {
      var digest := Sha256(content);
      if expected.Some? && expected.value != digest { return None; }
      var b := BlobRef(digest, Blake3(content), |content|, mediaType);
      data := data + {b.hash};
      pins := pins[digest := b.hash];
      index := index[digest := b];
      r := Some(b);
    }

    /** `verify_blob`: read the data under the BLAKE3 address in buffers and
        compare its sha256 and size. It accepts exactly consistent blobs. */
    method VerifyBlob(b: BlobRef) returns (ok: bool)
      ensures ok <==> b.digest == Sha256(b.hash.content) && b.size == |b.hash.content|
      ensures ok <==> Consistent(b)
    {
      var stored := b.hash.content;
      var hashed: Content := [];
      var total := 0;
      while total < |stored|
        invariant total <= |stored| && hashed == stored[..total]
      {
        var n := if |stored| - total < 65536 then |stored| - total else 65536;
        assert stored[..total + n] == stored[..total] + stored[total..total + n];
        hashed := hashed + stored[total..total + n];
        total := total + n;
      }
      assert hashed == stored;
      ok := Sha256(hashed) == b.digest && total == b.size;
    }

    /** `is_complete`. */
    method IsComplete(r: Release) returns (ok: bool)
      ensures ok <==> r.manifest.hash in data && forall b :: b in r.blobs ==> b.hash in data
    {
      var bs := AllBlobs(r);
      assert forall b :: b in r.blobs ==> b in bs;
      assert forall b :: b in bs ==> b == r.manifest || b in r.blobs;
      for i := 0 to |bs|
        invariant forall k :: 0 <= k < i ==> bs[k].hash in data
      {
        if bs[i].hash !in data {
          assert bs[i] in bs;
          return false;
        }
      }
      assert r.manifest in bs && forall b :: b in bs ==> b.hash in data;
      ok := true;
    }

    // ---------------------------------------------------------- index.rs

    /** `put_release`. */
    method StoreRelease(r: Release) returns (written: bool)
      modifies this`releases
      ensures releases == PutRelease(old(releases), r)
      ensures written <==> KeyOf(r) in old(releases) ==> Supersedes(r, old(releases)[KeyOf(r)])
      ensures releases == if written then old(releases)[Key(r.publisher, r.name, r.tag) := r] else old(releases)
      ensures var k := Key(r.publisher, r.name, r.tag);
              written <==>
                (k in old(releases) ==>
                   || r.timestamp > old(releases)[k].timestamp
                   || (r.timestamp == old(releases)[k].timestamp
                       && r.manifest.digest != old(releases)[k].manifest.digest))
    {
      var k := KeyOf(r);
      if k in releases && !Supersedes(r, releases[k]) { return false; }
      releases := releases[k := r];
      written := true;
    }

    method ListReleases() returns (rs: seq<Release>)
      requires Valid()
      ensures IsListing(rs, releases)
    {
      rs := [];
      var todo := releases.Keys;
      while todo != {}
        invariant todo <= releases.Keys
        invariant IsListing(rs, Only(releases, releases.Keys - todo))
        decreases todo
      {
        var k :| k in todo;
        forall x | x in rs ensures Reference(KeyOf(x)) != Reference(k) {
          if Reference(KeyOf(x)) == Reference(k) { ReferenceInjective(KeyOf(x), k); }
        }
        InsertByReferenceSorted(releases[k], rs);
        InsertByReferenceMembers(releases[k], rs);
        rs := InsertByReference(releases[k], rs);
        todo := todo - {k};
      }
      assert Only(releases, releases.Keys - todo) == releases;
    }

    method LocalReleases(publisher: PublisherId, name: string) returns (rs: seq<Release>)
      requires Valid()
      ensures IsImageListing(rs, releases, publisher, name)
    {
      rs := [];
      var todo := set k | k in releases && OfImage(k, publisher, name);
      while todo != {}
        invariant forall k :: k in todo ==> k in releases && OfImage(k, publisher, name)
        invariant IsImageListing(rs, releases - todo, publisher, name)
        decreases todo
      {
        var k :| k in todo;
        var es := Entries(rs);
        assert Entries(rs + [releases[k]]) == es + [Entry(k.tag, releases[k].timestamp)];
        forall e | e in es ensures e.tag != k.tag {
          var i :| 0 <= i < |es| && es[i] == e;
          assert rs[i] in rs;
        }
        DistinctAppend(es, Entry(k.tag, releases[k].timestamp));
        rs := rs + [releases[k]];
        todo := todo - {k};
      }
      assert releases - {} == releases;
    }

    // -------------------------------------------------- sweeping, pruning

    /** The live set of a sweep: hashes of every release not ignored. */
    method LiveHashes(ignore: set<string>) returns (live: set<Hash>)
      requires Valid()
      ensures live == Live(Unignored(releases, ignore))
      ensures forall h :: h in live <==>
        exists k :: k in releases && Reference(k) !in ignore
          && (releases[k].manifest.hash == h || exists b :: b in releases[k].blobs && b.hash == h)
    {
      var rs := ListReleases();
      live := {};
      for i := 0 to |rs|
        invariant live == HashesOf(rs[..i], ignore)
      {
        HashesOfSnoc(rs[..i], rs[i], ignore);
        assert rs[..i + 1] == rs[..i] + [rs[i]];
        if Reference(KeyOf(rs[i])) !in ignore {
          live := live + set b | b in AllBlobs(rs[i]) :: b.hash;
        }
      }
      assert rs[..|rs|] == rs;
      HashesOfListing(rs, releases, ignore);
      UnignoredAreNamed(releases, ignore);
    }

    /** `list_pins`: every pin once, in the order of the store. */
    method ListPins() returns (ps: seq<Digest>)
      ensures IsPinListing(ps, pins)
    {
      ps := [];
      var todo := pins.Keys;
      while todo != {}
        invariant todo <= pins.Keys && Distinct(ps)
        invariant forall d :: d in ps <==> d in pins && d !in todo
        decreases todo
      {
        var d :| d in todo;
        ps := ps + [d];
        todo := todo - {d};
      }
    }

    /** The first loop of a sweep: count and drop the dead pins. */
    method DropPins(dryRun: bool, live: set<Hash>) returns (removed: nat, bytes: nat)
      modifies this`pins, this`index
      ensures removed == |Dead(old(View()), live)| && bytes == SizeOf(old(index), Dead(old(View()), live))
      ensures pins == if dryRun then old(pins) else old(pins) - Dead(old(View()), live)
      ensures index == if dryRun then old(index) else old(index) - Dead(old(View()), live)
    {
      var listed := ListPins();
      var hashes := pins;
      removed, bytes := 0, 0;
      for i := 0 to |listed|
        invariant Tally(removed, bytes, pins, index) == Tallied(dryRun, live, listed[..i], hashes, old(index))
      {
        var d := listed[i];
        assert listed[..i + 1][..i] == listed[..i];
        assert d in listed;
        if hashes[d] !in live {
          removed := removed + 1;
          bytes := bytes + SizeAt(index, d);
          if !dryRun {
            pins := pins - {d};
            index := index - {d};
          }
        }
      }
      assert listed[..|listed|] == listed;
      TalliedIsDead(dryRun, live, listed, old(View()));
    }

    /** The second loop of a sweep. */
    method DropEntries(dryRun: bool, live: set<Hash>)
      modifies this`index
      ensures index == if dryRun then old(index)
              else map d | d in old(index) && (old(index)[d].hash in live || old(index)[d].hash in pins.Values)
                   :: old(index)[d]
    {
      var pinned := pins.Values;
      var listed := index;
      var todo := listed.Keys;
      while todo != {}
        invariant todo <= listed.Keys
        invariant index == if dryRun then listed
          else map d | d in listed && (d in todo || listed[d].hash in live || listed[d].hash in pinned) :: listed[d]
        decreases todo
      {
        var d :| d in todo;
        todo := todo - {d};
        if listed[d].hash !in live && listed[d].hash !in pinned && !dryRun {
          index := index - {d};
        }
      }
    }

    /** `sweep_blobs_locked`: drop the pins no remaining release names, then
        the index entries that are neither live nor pinned. A dry run counts
        the same and changes nothing. */
    method SweepBlobs(dryRun: bool, ignore: set<string>) returns (removed: nat, bytes: nat)
      requires Valid()
      modifies this`pins, this`index
      ensures Valid()
      ensures var live := Live(Unignored(releases, ignore));
              && removed == |Dead(old(View()), live)|
              && bytes == SizeOf(old(index), Dead(old(View()), live))
              && View() == if dryRun then old(View()) else Swept(old(View()), live)
    {
      var live := LiveHashes(ignore);
      removed, bytes := DropPins(dryRun, live);
      if !dryRun { LoopsSweep(old(View()), live, pins, index); }
      DropEntries(dryRun, live);
      WellFiledAfterRemovals(old(View()), View());
    }

    /** The pruning loop of `enforce_window`. */
    method RemoveOutside(local: seq<Release>, selected: set<string>) returns (removed: nat)
      modifies this`releases
      ensures releases == old(releases) - Outside(local, selected)
      ensures removed == 0 <==> releases == old(releases)
    {
      removed := 0;
      for i := 0 to |local|
        invariant releases == old(releases) - Outside(local[..i], selected)
        invariant removed == 0 ==> releases == old(releases)
        invariant removed > 0 ==> exists k :: k in old(releases) && k !in releases
      {
        OutsideSnoc(local[..i], local[i], selected);
        assert local[..i + 1] == local[..i] + [local[i]];
        var k := KeyOf(local[i]);
        if local[i].tag !in selected && k in releases {
          removed := removed + 1;
          releases := releases - {k};
        }
      }
      assert local[..|local|] == local;
    }

    method PruneAndSweep(local: seq<Release>, selected: set<string>)
      requires Valid()
      modifies this`releases, this`pins, this`index
      ensures Valid() && View() == After(old(View()), old(releases) - Outside(local, selected))
    {
      var removed := RemoveOutside(local, selected);
      WellFiledAfterRemovals(old(View()), View());
      if removed > 0 {
        assert Unignored(releases, {}) == releases;
        var _, _ := SweepBlobs(false, {});
      }
    }

    /** `enforce_window`. */
    method EnforceWindow(publisher: PublisherId, name: string)
      requires Valid()
      modifies this`releases, this`pins, this`index
      ensures Valid()
      ensures View() == After(old(View()), EnforcedImage(Settings(), old(releases), publisher, name))
    {
      UnmanagedStays(Settings(), releases, publisher, name);
      if publisher == me { return; }
      var w := ComputeWindow(forms, policy, publisher, name);
      if w.IsEmpty() { return; }
      var local := LocalReleases(publisher, name);
      var selected := SelectLoop(w, Entries(local));
      OutsideIsPruned(Settings(), local, releases, publisher, name, selected);
      PruneAndSweep(local, selected);
    }

    method EnforceNext(repo: (PublisherId, string), ghost disk: Disk, ghost done: set<(PublisherId, string)>)
      requires Valid() && repo !in done
      requires View() == After(disk, EnforcedFor(Settings(), disk.releases, done))
      modifies this`releases, this`pins, this`index
      ensures Valid()
      ensures View() == After(disk, EnforcedFor(Settings(), disk.releases, done + {repo}))
    {
      ghost var some := EnforcedFor(Settings(), disk.releases, done);
      ghost var more := EnforcedFor(Settings(), disk.releases, done + {repo});
      EnforceOneMore(Settings(), disk.releases, done, repo.0, repo.1);
      AfterTwice(disk, some, more);
      EnforceWindow(repo.0, repo.1);
    }

    /** `enforce_all_windows`. */
    method EnforceAllWindows()
      requires Valid()
      modifies this`releases, this`pins, this`index
      ensures Valid()
      ensures View() == After(old(View()), Enforced(Settings(), old(releases)))
    {
      var rs := ListReleases();
      var repos := set r | r in rs :: (r.publisher, r.name);
      var todo := repos;
      assert EnforcedFor(Settings(), releases, {}) == releases;
      while todo != {}
        invariant todo <= repos && Valid()
        invariant View() == After(old(View()), EnforcedFor(Settings(), old(releases), repos - todo))
        decreases todo
      {
        var repo :| repo in todo;
        EnforceNext(repo, old(View()), repos - todo);
        assert repos - todo + {repo} == repos - (todo - {repo});
        todo := todo - {repo};
      }
      AllReposEnforced(Settings(), rs, old(releases), repos - todo);
    }

    method RetainedOfImage(rs: seq<Release>, publisher: PublisherId, name: string) returns (more: set<string>)
      requires Valid() && IsListing(rs, releases)
      ensures more == KeptOf(Settings(), releases, {(publisher, name)})
    {
      var group := GroupOf(rs, publisher, name);
      GroupIsImageListing(rs, releases, publisher, name);
      if publisher == me {
        more := set r | r in group :: Reference(KeyOf(r));
        GroupKept(Settings(), group, releases, publisher, name, set r | r in group :: r.tag);
        assert forall r :: r in group ==> r.tag in set x | x in group :: x.tag;
        return;
      }
      var w := ComputeWindow(forms, policy, publisher, name);
      if w.IsEmpty() {
        more := {};
        GroupKept(Settings(), group, releases, publisher, name, {});
        return;
      }
      var selected := SelectLoop(w, Entries(group));
      more := set r | r in group && r.tag in selected :: Reference(KeyOf(r));
      GroupSelected(Settings(), group, releases, publisher, name, selected);
      GroupKept(Settings(), group, releases, publisher, name, selected);
    }

    /** `retained_set`, as references, image by image. */
    method RetainedSet(rs: seq<Release>) returns (keep: set<string>)
      requires Valid() && IsListing(rs, releases)
      ensures keep == set k | k in Retained(Settings(), releases) :: Reference(k)
    {
      var repos := set r | r in rs :: (r.publisher, r.name);
      var todo := repos;
      keep := {};
      while todo != {}
        invariant todo <= repos
        invariant keep == KeptOf(Settings(), releases, repos - todo)
        decreases todo
      {
        var repo :| repo in todo;
        assert repos - (todo - {repo}) == repos - todo + {repo};
        KeptOfOneMore(Settings(), releases, repos - todo, repo);
        var more := RetainedOfImage(rs, repo.0, repo.1);
        keep := keep + more;
        todo := todo - {repo};
      }
      KeptOfAll(Settings(), rs, releases, repos - todo);
    }

    /** The pruning loop of `gc`. */
    method PruneUnretained(dryRun: bool, force: bool, expired: set<Key>, rs: seq<Release>, keep: set<string>)
      returns (refs: seq<string>)
      modifies this`releases
      ensures refs == Refs(Pruned(rs, keep, force, expired))
      ensures releases == if dryRun then old(releases) else old(releases) - Keys(Pruned(rs, keep, force, expired))
    {
      refs := [];
      for i := 0 to |rs|
        invariant refs == Refs(Pruned(rs[..i], keep, force, expired))
        invariant releases
               == if dryRun then old(releases) else old(releases) - Keys(Pruned(rs[..i], keep, force, expired))
      {
        assert rs[..i + 1][..i] == rs[..i];
        var k := KeyOf(rs[i]);
        if Reference(k) !in keep && (force || k in expired) {
          PrunedOneMore(Pruned(rs[..i], keep, force, expired), rs[i]);
          refs := refs + [Reference(k)];
          if !dryRun { releases := releases - {k}; }
        }
      }
      assert rs[..|rs|] == rs;
    }

    method PruneForGc(dryRun: bool, force: bool, expired: set<Key>) returns (refs: seq<string>)
      requires Valid()
      modifies this`releases
      ensures Ascending(refs)
      ensures forall s :: s in refs <==>
                exists k :: k in Removed(Settings(), old(releases), force, expired) && Reference(k) == s
      ensures releases == if dryRun then old(releases) else Collected(Settings(), old(releases), force, expired)
    {
      var rs := ListReleases();
      var keep := RetainedSet(rs);
      refs := PruneUnretained(dryRun, force, expired, rs, keep);
      PrunedRefs(Settings(), rs, old(releases), keep, force, expired);
    }

    /** `gc`: prune what policy does not retain (past grace unless forced),
        then sweep. `expired` holds the keys whose record is past grace. */
    method Gc(dryRun: bool, force: bool, expired: set<Key>) returns (report: GcReport)
      requires Valid()
      modifies this`releases, this`pins, this`index
      ensures Valid()
      ensures IsGcReport(Settings(), old(View()), force, expired, report)
      ensures View() == if dryRun then old(View())
                        else var left := Collected(Settings(), old(releases), force, expired);
                             Swept(old(View()).(releases := left), Live(left))
    {
      var refs := PruneForGc(dryRun, force, expired);
      WellFiledAfterRemovals(old(View()), View());
      IgnoreRemoved(old(releases), Removed(Settings(), old(releases), force, expired), refs);
      var blobs, bytes := SweepBlobs(dryRun, set s | s in refs);
      report := GcReport(refs, blobs, bytes);
    }

    method RemoveAndSweep(removed: set<Key>)
      requires Valid() && removed <= releases.Keys
      modifies this`releases, this`pins, this`index
      ensures Valid() && View() == After(old(View()), old(releases) - removed)
    {
      releases := releases - removed;
      WellFiledAfterRemovals(old(View()), View());
      if removed != {} {
        SomethingGone(old(releases), removed);
        assert Unignored(releases, {}) == releases;
        var _, _ := SweepBlobs(false, {});
      } else {
        assert releases == old(releases);
      }
    }

    /** `remove_release` of the control API: the records of one tag or of the
        whole image go, then their blobs are swept. */
    method RemoveRelease(publisher: PublisherId, name: string, tag: Option<string>)
      returns (removed: set<Key>, stillWanted: bool)
      requires Valid()
      modifies this`releases, this`pins, this`index
      ensures Valid()
      ensures removed == set k | k in old(releases) && k.publisher == publisher && k.name == name
                                 && (tag.Some? ==> k.tag == tag.value)
      ensures View() == After(old(View()), old(releases) - removed)
      ensures var w := WindowOf(forms, policy, publisher, name);
              stillWanted <==> publisher != me && (w.full || w.last > 0 || w.tags != {})
    {
      removed := set k | k in releases && OfImage(k, publisher, name) && (tag.Some? ==> k.tag == tag.value);
      RemoveAndSweep(removed);
      var w := ComputeWindow(forms, policy, publisher, name);
      stillWanted := publisher != me && !w.IsEmpty();
    }

    // ------------------------------------------------------------ replication

    /** `select_wanted` on the local releases of an image. */
    method Wanted(publisher: PublisherId, name: string, remote: seq<Entry>)
      returns (wanted: seq<Entry>, ghost listing: seq<Entry>)
      requires Valid()
      ensures Convergence.Lists(listing, ImageTags(releases, publisher, name))
      ensures wanted == Convergence.SelectWanted(WindowFor(Settings(), publisher, name),
                                                 ImageTags(releases, publisher, name), listing, remote)
      ensures forall e :: e in wanted <==>
        && e in remote && e.tag in Select(WindowOf(forms, policy, publisher, name), listing + remote)
        && (Key(publisher, name, e.tag) in releases ==> e.ts > releases[Key(publisher, name, e.tag)].timestamp)
    {
      var local := LocalReleases(publisher, name);
      ImageListingLists(local, releases, publisher, name);
      listing := Entries(local);
      var w := ComputeWindow(forms, policy, publisher, name);
      if w.IsEmpty() { return [], listing; }
      var selected := SelectLoop(w, Entries(local) + remote);
      wanted := Convergence.Wanted(ImageTags(releases, publisher, name), selected, remote);
    }

    /** One turn of that loop. */
    method FetchBlob(b: BlobRef, providers: bool, available: set<Hash>) returns (got: Result<(), FetchError>)
      requires Valid()
      modifies this`index, this`pins, this`data
      ensures Valid()
      ensures got.Ok? <==> Obtainable(old(View()), b, providers, available)
      ensures got.Ok? ==> View() == WithBlob(old(View()), b)
      ensures got.Err? ==> LeftOver(old(View()), b, View())
    {
      if b.hash !in data {
        if !providers { return Err(NoProviders); }
        if b.hash !in available { return Err(DownloadFailed); }
        data := data + {b.hash};
        var ok := VerifyBlob(b);
        if !ok { return Err(VerificationFailed); }
        RecordBlob(b);
      } else if b.digest !in index {
        var ok := VerifyBlob(b);
        if !ok { return Err(VerificationFailed); }
        RecordBlob(b);
      }
      got := Ok(());
    }

    /** The loop over the blobs; `n` are done when it ends. */
    method FetchBlobs(blobs: seq<BlobRef>, providers: bool, available: set<Hash>)
      returns (done: Result<(), FetchError>, ghost n: nat)
      requires Valid()
      modifies this`index, this`pins, this`data
      ensures Valid()
      ensures done.Ok? <==> AllObtainable(old(View()), blobs, providers, available)
      ensures done.Ok? ==> View() == WithBlobs(old(View()), blobs)
      ensures done.Err? ==> n < |blobs| && StoppedAt(old(View()), blobs, n, View())
    {
      n := 0;
      for i := 0 to |blobs|
        invariant n == i && Valid() && View() == WithBlobs(old(View()), blobs[..i])
        invariant AllObtainable(old(View()), blobs[..i], providers, available)
      {
        assert blobs[..i + 1][..i] == blobs[..i];
        NoPrefixNoWhole(old(View()), blobs, i + 1, providers, available);
        done := FetchBlob(blobs[i], providers, available);
        if done.Err? { return done, n; }
        n := n + 1;
      }
      assert blobs[..|blobs|] == blobs;
      done := Ok(());
    }

    /** `fetch_release_inner`, alone on the node: `available` are the blobs the
        providers can deliver. A failure leaves what was done so far. */
    method FetchRelease(r: Release, providers: bool, available: set<Hash>) returns (done: Result<(), FetchError>)
      requires Valid() && ValidKey(KeyOf(r))
      modifies this`releases, this`index, this`pins, this`data
      ensures Valid()
      ensures done.Ok? <==> AllObtainable(old(View()), AllBlobs(r), providers, available)
      ensures done.Ok? <==>
        forall i :: 0 <= i <= |r.blobs| ==> Passes(old(View()), [r.manifest] + r.blobs, i, providers, available)
      ensures done.Ok? ==> View() == WithBlobs(old(View()), AllBlobs(r)).(releases := PutRelease(old(releases), r))
      ensures done.Err? ==> exists n :: 0 <= n < |AllBlobs(r)| && StoppedAt(old(View()), AllBlobs(r), n, View())
      ensures done.Ok? ==> Arrived(View(), r.manifest) && forall b :: b in r.blobs ==> Arrived(View(), b)
      ensures done.Err? ==> releases == old(releases)
    {
      ghost var n;
      FetchSucceedsExactlyWhen(View(), [r.manifest] + r.blobs, |r.blobs| + 1, providers, available);
      assert AllBlobs(r)[..|r.blobs| + 1] == [r.manifest] + r.blobs == AllBlobs(r);
      done, n := FetchBlobs(AllBlobs(r), providers, available);
      if done.Ok? {
        WithBlobsKeepsReleases(old(View()), AllBlobs(r));
        ReleaseArrives(old(View()), r);
        var _ := StoreRelease(r);
      }
    }

    // ------------------------------------------------------------- publishing

    /** `publish`: only our own releases. */
    method Publish(r: Release) returns (ok: bool)
      modifies this`releases
      ensures ok <==> r.publisher == me
      ensures releases == if ok then PutRelease(old(releases), r) else old(releases)
    {
      if r.publisher != me { return false; }
      var _ := StoreRelease(r);
      ok := true;
    }

    method PublishUpdates(a: Attachment, rs: seq<Release>) returns (n: nat)
      requires a.me == me
      modifies this`releases
      ensures releases == PutOnto(old(releases), Updates(a, rs)) && n == |Updates(a, rs)|
    {
      n := 0;
      for i := 0 to |rs|
        invariant releases == PutOnto(old(releases), Updates(a, rs[..i])) && n == |Updates(a, rs[..i])|
      {
        assert rs[..i + 1][..i] == rs[..i];
        if a.AppliesTo(rs[i]) {
          PutOntoSnoc(old(releases), Updates(a, rs[..i]), a.Attached(rs[i]));
          var _ := Publish(a.Attached(rs[i]));
          n := n + 1;
        }
      }
      assert rs[..|rs|] == rs;
    }

    /** `attach_referrer`: every release of ours with that manifest gains the
        referrer and its blobs and is published again. */
    method AttachReferrer(a: Attachment) returns (n: nat)
      requires Valid() && a.me == me
      modifies this`releases
      ensures Valid()
      ensures releases == UpdateAll(a, old(releases)) && n == |Subjects(a, old(releases))|
    {
      var rs := ListReleases();
      UpdatesAreAll(a, releases, rs);
      UpdateAllFiled(a, View());
      n := PublishUpdates(a, rs);
    }
  }
}
