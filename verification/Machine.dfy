/** One node under concurrency: fetches advance blob by blob under the read
    side of the collection lock, pruning and sweeping under its write side,
    while pushes, uploads, record removals and the blob store's own collector
    take no lock (crates/ocid/src/node.rs, `fetch_release`,
    `fetch_release_inner`, `enforce_window`, `gc`, `sweep_blobs_locked`,
    `remove_release`; crates/ocid/src/registry.rs, `manifest_put`;
    crates/ocid/src/store.rs). */
module Machine {
  import opened Text
  import opened Identity
  import opened Names
  import opened Releases
  import opened Retention
  import opened Nodes

  /** How far a fetch is with its current blob. `Queued` waits for the read
      lock; from `Protected` to `Pinned` it holds a temp tag. */
  datatype Stage = Queued | Idle | Protected | Downloaded | Verified | Pinned

  datatype Fetch = Fetch(release: Release, next: nat, stage: Stage)
  {
    function Blobs(): seq<BlobRef> { AllBlobs(release) }

    predicate Reading() { !stage.Queued? }

    predicate HoldsTemp() { !stage.Queued? && !stage.Idle? }
  }

  /** The write side: records may go while `Pruning`; a sweep computes what is
      live, lists the pins, unpins (`gap` is unpinned but still indexed), lists
      the pins left, lists the index and drops entries. */
  datatype Writer =
    | NoWriter
    | Pruning
    | ListingPins(live: set<Hash>)
    | Unpinning(live: set<Hash>, todo: set<Digest>, gap: Option<Digest>)
    | ListingEntries(live: set<Hash>, pinned: set<Hash>)
    | Unindexing(live: set<Hash>, pinned: set<Hash>, todo: set<Digest>)

  /** `fetches` is also the in-flight set: one fetch a reference. */
  datatype System = System(disk: Disk, fetches: map<Key, Fetch>, writer: Writer)

  datatype Event =
    // fetch_release
    | BeginFetch(r: Release)
    | TakeReadLock(k: Key)
    | Protect(k: Key)
    | Download(k: Key)
    | Verify(k: Key)
    | Pin(k: Key)
    | Index(k: Key)
    | RecordPresent(k: Key)
    | SkipIndexed(k: Key)
    | StoreFetched(k: Key)
    | GiveUp(k: Key)
    // enforce_window, gc, sweep_blobs_locked
    | TakeWriteLock
    | PruneRecords(keys: set<Key>)
    | StartSweep
    | ListPins
    | Unpin(d: Digest)
    | Unindex
    | SparePin(d: Digest)
    | EndUnpinning
    | ListEntries
    | DropEntry(d: Digest)
    | SpareEntry(d: Digest)
    | DropWriteLock
    // no lock
    | RemoveRecords(keys: set<Key>)
    | Upload(content: Content, mediaType: Option<string>)
    | Push(r: Release)
    | StoreGc

  // -------------------------------------------------------------------- steps

  predicate At(s: System, k: Key, stage: Stage)
  {
    k in s.fetches && s.fetches[k].stage == stage
  }

  predicate HasNext(s: System, k: Key)
    requires k in s.fetches
  {
    s.fetches[k].next < |s.fetches[k].Blobs()|
  }

  function NextBlob(s: System, k: Key): BlobRef
    requires k in s.fetches && HasNext(s, k)
  {
    s.fetches[k].Blobs()[s.fetches[k].next]
  }

  predicate NobodyReads(s: System)
  {
    forall k :: k in s.fetches ==> !s.fetches[k].Reading()
  }

  /** Hashes some fetch protects with a temp tag. */
  function Temps(s: System): set<Hash>
  {
    set k | k in s.fetches && s.fetches[k].HoldsTemp() && HasNext(s, k) :: NextBlob(s, k).hash
  }

  /** What `manifest_put` checks of a release before publishing it: it is our
      own, and every blob is indexed and its data there. */
  predicate PushChecks(me: PublisherId, s: System, r: Release)
  {
    && r.publisher == me && ValidKey(KeyOf(r)) && ConsistentRelease(r)
    && forall b :: b in AllBlobs(r) ==> b.digest in s.disk.index && b.hash in s.disk.data
  }

  /** Can a step left of the running sweep take the pin or index entry of
      `b`? */
  predicate Taken(w: Writer, b: BlobRef)
  {
    match w
    case ListingPins(live) => b.hash !in live
    case Unpinning(live, todo, gap) => gap == Some(b.digest) || (b.hash !in live && b.digest in todo)
    case ListingEntries(live, pinned) => b.hash !in live && b.hash !in pinned
    case Unindexing(live, pinned, todo) => b.hash !in live && b.hash !in pinned && b.digest in todo
    case _ => false
  }

  predicate Spared(w: Writer, r: Release)
  {
    forall b :: b in AllBlobs(r) ==> !Taken(w, b)
  }

  /** May the step happen? A blob that does not verify stops its fetch: only
      giving up is left. Data already there and indexed is not verified. */
  predicate Enabled(me: PublisherId, s: System, ev: Event)
  {
    match ev
    case BeginFetch(r) => KeyOf(r) !in s.fetches && ValidKey(KeyOf(r))
    case TakeReadLock(k) => At(s, k, Queued) && s.writer.NoWriter?
    case Protect(k) => At(s, k, Idle) && HasNext(s, k) && NextBlob(s, k).hash !in s.disk.data
    case Download(k) => At(s, k, Protected) && HasNext(s, k)
    case Verify(k) => At(s, k, Downloaded) && HasNext(s, k) && Consistent(NextBlob(s, k))
    case Pin(k) => At(s, k, Verified) && HasNext(s, k)
    case Index(k) => At(s, k, Pinned) && HasNext(s, k)
    case RecordPresent(k) =>
      At(s, k, Idle) && HasNext(s, k) && NextBlob(s, k).hash in s.disk.data && NextBlob(s, k).digest !in s.disk.index
      && Consistent(NextBlob(s, k))
    case SkipIndexed(k) =>
      At(s, k, Idle) && HasNext(s, k) && NextBlob(s, k).hash in s.disk.data && NextBlob(s, k).digest in s.disk.index
    case StoreFetched(k) => At(s, k, Idle) && !HasNext(s, k)
    case GiveUp(k) => k in s.fetches
    case TakeWriteLock => s.writer.NoWriter? && NobodyReads(s)
    case PruneRecords(_) => s.writer.Pruning?
    case StartSweep => s.writer.Pruning?
    case ListPins => s.writer.ListingPins?
    case Unpin(d) => s.writer.Unpinning? && s.writer.gap.None? && d in s.writer.todo && HashOf(d) !in s.writer.live
    case Unindex => s.writer.Unpinning? && s.writer.gap.Some?
    case SparePin(d) => s.writer.Unpinning? && s.writer.gap.None? && d in s.writer.todo && HashOf(d) in s.writer.live
    case EndUnpinning => s.writer.Unpinning? && s.writer.gap.None? && s.writer.todo == {}
    case ListEntries => s.writer.ListingEntries?
    case DropEntry(d) =>
      s.writer.Unindexing? && d in s.writer.todo && HashOf(d) !in s.writer.live && HashOf(d) !in s.writer.pinned
    case SpareEntry(d) =>
      s.writer.Unindexing? && d in s.writer.todo && (HashOf(d) in s.writer.live || HashOf(d) in s.writer.pinned)
    case DropWriteLock => s.writer.Pruning? || (s.writer.Unindexing? && s.writer.todo == {})
    case RemoveRecords(_) => true
    case Upload(_, _) => true
    case Push(r) => PushChecks(me, s, r) && Spared(s.writer, r)
    case StoreGc => true
  }

  function Step(s: System, k: Key, stage: Stage): System
    requires k in s.fetches
  {
    s.(fetches := s.fetches[k := s.fetches[k].(stage := stage)])
  }

  function Advance(s: System, k: Key): System
    requires k in s.fetches
  {
    s.(fetches := s.fetches[k := s.fetches[k].(stage := Idle, next := s.fetches[k].next + 1)])
  }

  function WithReleases(s: System, releases: map<Key, Release>): System
  {
    s.(disk := s.disk.(releases := releases))
  }

  /** A disk on which `b`, whose data is there, is pinned and indexed. */
  function WithEntry(disk: Disk, b: BlobRef): Disk
  {
    disk.(pins := disk.pins[b.digest := b.hash], index := disk.index[b.digest := b])
  }

  /** What the blob store's own collector leaves. */
  function StoreCollected(s: System): Disk
  {
    s.disk.(data := s.disk.data * (s.disk.pins.Values + Temps(s)))
  }

  /** The push as the code does it: it does not look at the lock. */
  function Pushed(s: System, r: Release): System
  {
    WithReleases(s, PutRelease(s.disk.releases, r))
  }

  function Next(me: PublisherId, s: System, ev: Event): System
    requires Enabled(me, s, ev)
  {
    var disk := s.disk;
    match ev
    case BeginFetch(r) => s.(fetches := s.fetches[KeyOf(r) := Fetch(r, 0, Queued)])
    case TakeReadLock(k) => Step(s, k, Idle)
    case Protect(k) => Step(s, k, Protected)
    case Download(k) => Step(s.(disk := disk.(data := disk.data + {NextBlob(s, k).hash})), k, Downloaded)
    case Verify(k) => Step(s, k, Verified)
    case Pin(k) =>
      var b := NextBlob(s, k);
      Step(s.(disk := disk.(pins := disk.pins[b.digest := b.hash])), k, Pinned)
    case Index(k) =>
      var b := NextBlob(s, k);
      Advance(s.(disk := disk.(index := disk.index[b.digest := b])), k)
    case RecordPresent(k) => Advance(s.(disk := WithEntry(disk, NextBlob(s, k))), k)
    case SkipIndexed(k) => Advance(s, k)
    case StoreFetched(k) =>
      WithReleases(s, PutRelease(disk.releases, s.fetches[k].release)).(fetches := s.fetches - {k})
    case GiveUp(k) => s.(fetches := s.fetches - {k})
    case TakeWriteLock => s.(writer := Pruning)
    case PruneRecords(keys) => WithReleases(s, disk.releases - keys)
    case StartSweep => s.(writer := ListingPins(Live(disk.releases)))
    case ListPins => s.(writer := Unpinning(s.writer.live, disk.pins.Keys, None))
    case Unpin(d) =>
      s.(disk := disk.(pins := disk.pins - {d}), writer := Unpinning(s.writer.live, s.writer.todo - {d}, Some(d)))
    case Unindex =>
      s.(disk := disk.(index := disk.index - {s.writer.gap.value}),
         writer := Unpinning(s.writer.live, s.writer.todo, None))
    case SparePin(d) => s.(writer := Unpinning(s.writer.live, s.writer.todo - {d}, s.writer.gap))
    case EndUnpinning => s.(writer := ListingEntries(s.writer.live, disk.pins.Values))
    case ListEntries => s.(writer := Unindexing(s.writer.live, s.writer.pinned, disk.index.Keys))
    case DropEntry(d) =>
      s.(disk := disk.(index := disk.index - {d}),
         writer := Unindexing(s.writer.live, s.writer.pinned, s.writer.todo - {d}))
    case SpareEntry(d) => s.(writer := Unindexing(s.writer.live, s.writer.pinned, s.writer.todo - {d}))
    case DropWriteLock => s.(writer := NoWriter)
    case RemoveRecords(keys) => WithReleases(s, disk.releases - keys)
    case Upload(c, mt) =>
      var b := BlobRef(Sha256(c), Blake3(c), |c|, mt);
      s.(disk := disk.(data := disk.data + {b.hash}, pins := disk.pins[b.digest := b.hash],
                       index := disk.index[b.digest := b]))
    case Push(r) => Pushed(s, r)
    case StoreGc => s.(disk := StoreCollected(s))
  }

  // ---------------------------------------------------------------- invariant

  /** Pins have their data; index entries are pinned, but for the sweep's gap. */
  predicate StoreSound(s: System)
  {
    && WellFiled(s.disk)
    && (forall d :: d in s.disk.pins ==> HashOf(d) in s.disk.data)
    && (forall d :: d in s.disk.index ==> d in s.disk.pins || (s.writer.Unpinning? && s.writer.gap == Some(d)))
  }

  /** A blob whose hashes match is present, indexed and pinned, and no step
      left of the running sweep can take it. */
  predicate BlobSafe(disk: Disk, w: Writer, b: BlobRef)
  {
    Matching(b) ==> Recorded(disk, b) && !Taken(w, b)
  }

  predicate ReleaseSafe(disk: Disk, w: Writer, r: Release)
  {
    forall b :: b in AllBlobs(r) ==> BlobSafe(disk, w, b)
  }

  /** So is every blob of every stored release. A reference whose hashes do not
      match can be stored; it is owed nothing and harms no other. */
  predicate ReleasesSafe(s: System)
  {
    forall k :: k in s.disk.releases ==> ReleaseSafe(s.disk, s.writer, s.disk.releases[k])
  }

  /** What a fetch has done so far is still there. */
  predicate FetchSafe(disk: Disk, f: Fetch)
  {
    && ValidKey(KeyOf(f.release))
    && f.next <= |f.Blobs()| && (f.HoldsTemp() ==> f.next < |f.Blobs()|)
    && (!f.Reading() ==> f.next == 0)
    && (f.Reading() ==> forall i :: 0 <= i < f.next && Matching(f.Blobs()[i]) ==> Recorded(disk, f.Blobs()[i]))
    && (f.stage.Downloaded? || f.stage.Verified? || f.stage.Pinned? ==> f.Blobs()[f.next].hash in disk.data)
    && (f.stage.Verified? || f.stage.Pinned? ==> Consistent(f.Blobs()[f.next]))
    && (f.stage.Pinned? ==> f.Blobs()[f.next].digest in disk.pins)
  }

  predicate FetchesSafe(s: System)
  {
    && (forall k :: k in s.fetches ==> KeyOf(s.fetches[k].release) == k && FetchSafe(s.disk, s.fetches[k]))
    && (!s.writer.NoWriter? ==> NobodyReads(s))
  }

  predicate Inv(s: System)
  {
    StoreSound(s) && ReleasesSafe(s) && FetchesSafe(s)
  }

  // ------------------------------------------------------------- preservation

  /** A disk that only gained keeps what was complete and recorded. */
  lemma GrowthKeeps(before: Disk, after: Disk)
    requires WellFiled(before) && WellFiled(after)
    requires before.data <= after.data && before.pins.Keys <= after.pins.Keys && before.index.Keys <= after.index.Keys
    ensures forall b :: Recorded(before, b) ==> Recorded(after, b)
  {
  }

  lemma StillSafe(before: Disk, after: Disk, w: Writer)
    requires forall b :: Recorded(before, b) ==> Recorded(after, b)
    ensures forall r :: ReleaseSafe(before, w, r) ==> ReleaseSafe(after, w, r)
  {
    forall r | ReleaseSafe(before, w, r) ensures ReleaseSafe(after, w, r) {
      forall b | b in AllBlobs(r) ensures BlobSafe(after, w, b) { assert BlobSafe(before, w, b); }
    }
  }

  /** Fetch steps that touch no record and no other fetch. */
  lemma GrowthStep(s: System, s': System, k: Key)
    requires Inv(s) && k in s.fetches && s.fetches[k].Reading()
    requires WellFiled(s'.disk) && s'.disk.releases == s.disk.releases && s'.writer == s.writer
    requires s.disk.data <= s'.disk.data && s.disk.pins.Keys <= s'.disk.pins.Keys
    requires s.disk.index.Keys <= s'.disk.index.Keys
    requires s'.fetches.Keys == s.fetches.Keys && forall x :: x in s.fetches && x != k ==> s'.fetches[x] == s.fetches[x]
    requires KeyOf(s'.fetches[k].release) == k && FetchSafe(s'.disk, s'.fetches[k]) && StoreSound(s')
    ensures Inv(s')
  {
    GrowthKeeps(s.disk, s'.disk);
    StillSafe(s.disk, s'.disk, s.writer);
  }

  lemma ProtectKeepsInv(me: PublisherId, s: System, k: Key)
    requires Inv(s) && Enabled(me, s, Protect(k))
    ensures Inv(Next(me, s, Protect(k)))
  {
    GrowthStep(s, Next(me, s, Protect(k)), k);
  }

  lemma VerifyKeepsInv(me: PublisherId, s: System, k: Key)
    requires Inv(s) && Enabled(me, s, Verify(k))
    ensures Inv(Next(me, s, Verify(k)))
  {
    GrowthStep(s, Next(me, s, Verify(k)), k);
  }

  /** A fetch whose current blob is recorded, or does not match, moves on. */
  lemma AdvancedIsSafe(before: Disk, after: Disk, f: Fetch)
    requires FetchSafe(before, f) && f.Reading() && f.next < |f.Blobs()|
    requires forall b :: Recorded(before, b) ==> Recorded(after, b)
    requires Matching(f.Blobs()[f.next]) ==> Recorded(after, f.Blobs()[f.next])
    ensures FetchSafe(after, f.(stage := Idle, next := f.next + 1))
  {
  }

  lemma SkipKeepsInv(me: PublisherId, s: System, k: Key)
    requires Inv(s) && Enabled(me, s, SkipIndexed(k))
    ensures Inv(Next(me, s, SkipIndexed(k)))
  {
    AdvancedIsSafe(s.disk, s.disk, s.fetches[k]);
    GrowthStep(s, Advance(s, k), k);
  }

  lemma DownloadKeepsInv(me: PublisherId, s: System, k: Key)
    requires Inv(s) && Enabled(me, s, Download(k))
    ensures Inv(Next(me, s, Download(k)))
  {
    var s' := Next(me, s, Download(k));
    GrowthKeeps(s.disk, s'.disk);
    GrowthStep(s, s', k);
  }

  lemma PinKeepsInv(me: PublisherId, s: System, k: Key)
    requires Inv(s) && Enabled(me, s, Pin(k))
    ensures Inv(Next(me, s, Pin(k)))
  {
    var s' := Next(me, s, Pin(k));
    GrowthKeeps(s.disk, s'.disk);
    GrowthStep(s, s', k);
  }

  lemma EntryIsRecorded(disk: Disk, b: BlobRef)
    requires WellFiled(disk) && Consistent(b) && b.hash in disk.data
    ensures WellFiled(WithEntry(disk, b)) && Recorded(WithEntry(disk, b), b)
    ensures forall x :: Recorded(disk, x) ==> Recorded(WithEntry(disk, b), x)
  {
    GrowthKeeps(disk, WithEntry(disk, b));
  }

  lemma RecordingKeepsInv(s: System, k: Key)
    requires Inv(s) && k in s.fetches && s.fetches[k].Reading() && HasNext(s, k)
    requires Consistent(NextBlob(s, k)) && NextBlob(s, k).hash in s.disk.data
    ensures Inv(Advance(s.(disk := WithEntry(s.disk, NextBlob(s, k))), k))
  {
    var f, b := s.fetches[k], NextBlob(s, k);
    EntryIsRecorded(s.disk, b);
    AdvancedIsSafe(s.disk, WithEntry(s.disk, b), f);
    GrowthStep(s, Advance(s.(disk := WithEntry(s.disk, b)), k), k);
  }

  lemma IndexKeepsInv(me: PublisherId, s: System, k: Key)
    requires Inv(s) && Enabled(me, s, Index(k))
    ensures Inv(Next(me, s, Index(k)))
  {
    var f := s.fetches[k];
    var b := f.Blobs()[f.next];
    assert s.disk.pins[b.digest := b.hash] == s.disk.pins;
    RecordingKeepsInv(s, k);
  }

  lemma RecordPresentKeepsInv(me: PublisherId, s: System, k: Key)
    requires Inv(s) && Enabled(me, s, RecordPresent(k))
    ensures Inv(Next(me, s, RecordPresent(k)))
  {
    RecordingKeepsInv(s, k);
  }

  /** Fetches come and go; nothing on disk changes. */
  lemma ArrivalKeepsInv(me: PublisherId, s: System, r: Release)
    requires Inv(s) && Enabled(me, s, BeginFetch(r))
    ensures Inv(Next(me, s, BeginFetch(r)))
  {
  }

  lemma DepartureKeepsInv(me: PublisherId, s: System, k: Key)
    requires Inv(s) && Enabled(me, s, GiveUp(k))
    ensures Inv(Next(me, s, GiveUp(k)))
  {
  }

  lemma ReadLockKeepsInv(me: PublisherId, s: System, k: Key)
    requires Inv(s) && Enabled(me, s, TakeReadLock(k))
    ensures Inv(Next(me, s, TakeReadLock(k)))
  {
  }

  lemma WriteLockKeepsInv(me: PublisherId, s: System, ev: Event)
    requires Inv(s) && Enabled(me, s, ev) && (ev.TakeWriteLock? || ev.DropWriteLock?)
    ensures Inv(Next(me, s, ev))
  {
  }

  /** Records come and go without touching a blob. */
  lemma RecordsOnly(s: System, releases: map<Key, Release>)
    requires Inv(s) && WellFiled(s.disk.(releases := releases))
    requires forall k :: k in releases ==> ReleaseSafe(s.disk, s.writer, releases[k])
    ensures Inv(WithReleases(s, releases))
  {
    var s' := WithReleases(s, releases);
    assert forall b :: Recorded(s.disk, b) ==> Recorded(s'.disk, b);
    StillSafe(s.disk, s'.disk, s.writer);
  }

  lemma PutKeepsInv(s: System, r: Release)
    requires Inv(s) && ValidKey(KeyOf(r)) && ReleaseSafe(s.disk, s.writer, r)
    ensures Inv(Pushed(s, r))
  {
    RecordsOnly(s, PutRelease(s.disk.releases, r));
  }

  lemma StoreFetchedKeepsInv(me: PublisherId, s: System, k: Key)
    requires Inv(s) && Enabled(me, s, StoreFetched(k))
    ensures Inv(Next(me, s, StoreFetched(k)))
  {
    var f := s.fetches[k];
    forall b | b in AllBlobs(f.release) ensures BlobSafe(s.disk, s.writer, b) {
      var i :| 0 <= i < |f.Blobs()| && f.Blobs()[i] == b;
    }
    PutKeepsInv(s, f.release);
  }

  /** A push the sweep cannot hurt finds its blobs pinned. */
  lemma PushedIsSafe(me: PublisherId, s: System, r: Release, b: BlobRef)
    requires StoreSound(s) && PushChecks(me, s, r) && Spared(s.writer, r) && b in AllBlobs(r)
    ensures BlobSafe(s.disk, s.writer, b)
  {
    assert Consistent(b);
  }

  lemma PushKeepsInv(me: PublisherId, s: System, r: Release)
    requires Inv(s) && PushChecks(me, s, r) && Spared(s.writer, r)
    ensures Inv(Pushed(s, r))
  {
    forall b | b in AllBlobs(r) ensures BlobSafe(s.disk, s.writer, b) { PushedIsSafe(me, s, r, b); }
    PutKeepsInv(s, r);
  }

  lemma RemovalKeepsInv(s: System, keys: set<Key>)
    requires Inv(s)
    ensures Inv(WithReleases(s, s.disk.releases - keys))
  {
    RecordsOnly(s, s.disk.releases - keys);
  }

  lemma UploadKeepsInv(me: PublisherId, s: System, c: Content, mt: Option<string>)
    requires Inv(s)
    ensures Inv(Next(me, s, Upload(c, mt)))
  {
    GrowthKeeps(s.disk, Next(me, s, Upload(c, mt)).disk);
    StillSafe(s.disk, Next(me, s, Upload(c, mt)).disk, s.writer);
  }

  lemma CollectorSparesPinned(s: System)
    requires StoreSound(s)
    ensures forall b :: Recorded(s.disk, b) ==> Recorded(StoreCollected(s), b)
    ensures StoreSound(s.(disk := StoreCollected(s)))
  {
    forall d | d in s.disk.pins ensures s.disk.pins[d] in s.disk.pins.Values {}
  }

  lemma CollectorSparesFetch(s: System, k: Key)
    requires Inv(s) && k in s.fetches
    ensures FetchSafe(StoreCollected(s), s.fetches[k])
  {
    CollectorSparesPinned(s);
    assert s.fetches[k].HoldsTemp() ==> NextBlob(s, k).hash in Temps(s);
  }

  /** The blob store's collector spares pinned data and protected downloads. */
  lemma StoreGcKeepsInv(me: PublisherId, s: System)
    requires Inv(s)
    ensures Inv(Next(me, s, StoreGc))
  {
    CollectorSparesPinned(s);
    StillSafe(s.disk, StoreCollected(s), s.writer);
    forall k | k in s.fetches ensures FetchSafe(StoreCollected(s), s.fetches[k]) {
      CollectorSparesFetch(s, k);
    }
  }

  /** The steps of a sweep. */
  predicate SweepEvent(ev: Event)
  {
    || ev.ListPins? || ev.Unpin? || ev.Unindex? || ev.SparePin? || ev.EndUnpinning?
    || ev.ListEntries? || ev.DropEntry? || ev.SpareEntry?
  }

  lemma UnpinningSound(me: PublisherId, s: System, ev: Event)
    requires StoreSound(s) && Enabled(me, s, ev) && (ev.ListPins? || ev.Unpin? || ev.Unindex? || ev.SparePin?)
    ensures StoreSound(Next(me, s, ev))
  {
  }

  lemma SweepStepSound(me: PublisherId, s: System, ev: Event)
    requires StoreSound(s) && Enabled(me, s, ev) && (ev.StartSweep? || SweepEvent(ev))
    ensures StoreSound(Next(me, s, ev))
  {
    if ev.ListPins? || ev.Unpin? || ev.Unindex? || ev.SparePin? { UnpinningSound(me, s, ev); }
  }

  lemma UnpinSpares(me: PublisherId, s: System, d: Digest, b: BlobRef)
    requires Enabled(me, s, Unpin(d)) && Matching(b) && Recorded(s.disk, b) && !Taken(s.writer, b)
    ensures Recorded(Next(me, s, Unpin(d)).disk, b) && !Taken(Next(me, s, Unpin(d)).writer, b)
  {
  }

  lemma UnpinningSpares(me: PublisherId, s: System, ev: Event, b: BlobRef)
    requires WellFiled(s.disk) && Enabled(me, s, ev) && SweepEvent(ev) && s.writer.Unpinning?
    requires Matching(b) && Recorded(s.disk, b) && !Taken(s.writer, b)
    ensures Recorded(Next(me, s, ev).disk, b) && !Taken(Next(me, s, ev).writer, b)
  {
    if ev.Unpin? {
      UnpinSpares(me, s, ev.d, b);
    } else if ev.EndUnpinning? {
      assert s.disk.pins[b.digest] in s.disk.pins.Values;
    }
  }

  lemma ListingSpares(me: PublisherId, s: System, ev: Event, b: BlobRef)
    requires Enabled(me, s, ev) && (ev.StartSweep? || ev.ListPins? || ev.ListEntries?)
    requires Matching(b) && Recorded(s.disk, b) && !Taken(s.writer, b) && b.hash in Live(s.disk.releases)
    ensures Recorded(Next(me, s, ev).disk, b) && !Taken(Next(me, s, ev).writer, b)
  {
  }

  lemma UnindexingSpares(me: PublisherId, s: System, ev: Event, b: BlobRef)
    requires Enabled(me, s, ev) && SweepEvent(ev) && s.writer.Unindexing?
    requires Matching(b) && Recorded(s.disk, b) && !Taken(s.writer, b)
    ensures Recorded(Next(me, s, ev).disk, b) && !Taken(Next(me, s, ev).writer, b)
  {
  }

  /** What a live blob has, no step of a sweep takes. */
  lemma SweepStepSpares(me: PublisherId, s: System, ev: Event, b: BlobRef)
    requires StoreSound(s) && Enabled(me, s, ev) && (ev.StartSweep? || SweepEvent(ev))
    requires Matching(b) && Recorded(s.disk, b) && !Taken(s.writer, b) && b.hash in Live(s.disk.releases)
    ensures Recorded(Next(me, s, ev).disk, b) && !Taken(Next(me, s, ev).writer, b)
  {
    if s.writer.Unpinning? {
      UnpinningSpares(me, s, ev, b);
    } else if s.writer.Unindexing? {
      UnindexingSpares(me, s, ev, b);
    } else {
      ListingSpares(me, s, ev, b);
    }
  }

  lemma SweepStepSparesRelease(me: PublisherId, s: System, ev: Event, k: Key)
    requires Inv(s) && Enabled(me, s, ev) && (ev.StartSweep? || SweepEvent(ev)) && k in s.disk.releases
    ensures ReleaseSafe(Next(me, s, ev).disk, Next(me, s, ev).writer, s.disk.releases[k])
  {
    forall b | b in AllBlobs(s.disk.releases[k]) ensures BlobSafe(Next(me, s, ev).disk, Next(me, s, ev).writer, b) {
      assert BlobSafe(s.disk, s.writer, b) && b.hash in Live(s.disk.releases);
      if Matching(b) { SweepStepSpares(me, s, ev, b); }
    }
  }

  /** A writer's step that takes nothing a stored release needs. */
  lemma WriterStep(s: System, s': System)
    requires Inv(s) && !s.writer.NoWriter? && s'.fetches == s.fetches
    requires s'.disk.releases == s.disk.releases && s'.disk.data == s.disk.data && StoreSound(s') && ReleasesSafe(s')
    ensures Inv(s')
  {
    forall k | k in s.fetches ensures FetchSafe(s'.disk, s.fetches[k]) {
      assert !s.fetches[k].Reading();
    }
  }

  lemma SweepStepKeepsInv(me: PublisherId, s: System, ev: Event)
    requires Inv(s) && Enabled(me, s, ev) && (ev.StartSweep? || SweepEvent(ev))
    ensures Inv(Next(me, s, ev))
  {
    var s' := Next(me, s, ev);
    SweepStepSound(me, s, ev);
    forall k | k in s.disk.releases ensures ReleaseSafe(s'.disk, s'.writer, s.disk.releases[k]) {
      SweepStepSparesRelease(me, s, ev, k);
    }
    WriterStep(s, s');
  }

  lemma FetchStepKeepsInv(me: PublisherId, s: System, ev: Event)
    requires Inv(s) && Enabled(me, s, ev)
    requires ev.TakeReadLock? || ev.Protect? || ev.Download? || ev.Verify? || ev.Pin? || ev.Index?
             || ev.RecordPresent? || ev.SkipIndexed? || ev.StoreFetched?
    ensures Inv(Next(me, s, ev))
  {
    match ev
    case TakeReadLock(k) => ReadLockKeepsInv(me, s, k);
    case Download(k) => DownloadKeepsInv(me, s, k);
    case Pin(k) => PinKeepsInv(me, s, k);
    case Index(k) => IndexKeepsInv(me, s, k);
    case RecordPresent(k) => RecordPresentKeepsInv(me, s, k);
    case StoreFetched(k) => StoreFetchedKeepsInv(me, s, k);
    case Protect(k) => ProtectKeepsInv(me, s, k);
    case Verify(k) => VerifyKeepsInv(me, s, k);
    case SkipIndexed(k) => SkipKeepsInv(me, s, k);
  }

  lemma WriterStepKeepsInv(me: PublisherId, s: System, ev: Event)
    requires Inv(s) && Enabled(me, s, ev)
    requires ev.TakeWriteLock? || ev.DropWriteLock? || ev.PruneRecords? || ev.StartSweep? || SweepEvent(ev)
    ensures Inv(Next(me, s, ev))
  {
    if ev.TakeWriteLock? || ev.DropWriteLock? {
      WriteLockKeepsInv(me, s, ev);
    } else if ev.PruneRecords? {
      RemovalKeepsInv(s, ev.keys);
    } else {
      SweepStepKeepsInv(me, s, ev);
    }
  }

  lemma FreeStepKeepsInv(me: PublisherId, s: System, ev: Event)
    requires Inv(s) && Enabled(me, s, ev)
    requires ev.BeginFetch? || ev.GiveUp? || ev.Push? || ev.RemoveRecords? || ev.Upload? || ev.StoreGc?
    ensures Inv(Next(me, s, ev))
  {
    match ev
    case BeginFetch(r) => ArrivalKeepsInv(me, s, r);
    case GiveUp(k) => DepartureKeepsInv(me, s, k);
    case Push(r) => PushKeepsInv(me, s, r);
    case RemoveRecords(keys) => RemovalKeepsInv(s, keys);
    case Upload(c, mt) => UploadKeepsInv(me, s, c, mt);
    case StoreGc => StoreGcKeepsInv(me, s);
  }

  lemma StepKeepsInv(me: PublisherId, s: System, ev: Event)
    requires Inv(s) && Enabled(me, s, ev)
    ensures Inv(Next(me, s, ev))
  {
    if ev.BeginFetch? || ev.GiveUp? || ev.Push? || ev.RemoveRecords? || ev.Upload? || ev.StoreGc? {
      FreeStepKeepsInv(me, s, ev);
    } else if ev.TakeReadLock? || ev.Protect? || ev.Download? || ev.Verify? || ev.Pin? || ev.Index?
              || ev.RecordPresent? || ev.SkipIndexed? || ev.StoreFetched? {
      FetchStepKeepsInv(me, s, ev);
    } else {
      WriterStepKeepsInv(me, s, ev);
    }
  }

  /** The blob store's collector takes exactly the data that is neither pinned
      nor being downloaded, verified or recorded by a fetch. */
  lemma CollectorTakesExactly(me: PublisherId, s: System, h: Hash)
    ensures h in Next(me, s, StoreGc).disk.data <==>
            h in s.disk.data
            && ((exists d :: d in s.disk.pins && s.disk.pins[d] == h)
                || exists k :: k in s.fetches
                     && (s.fetches[k].stage == Protected || s.fetches[k].stage == Downloaded
                         || s.fetches[k].stage == Verified || s.fetches[k].stage == Pinned)
                     && s.fetches[k].next <= |s.fetches[k].release.blobs|
                     && (if s.fetches[k].next == 0 then s.fetches[k].release.manifest.hash
                         else s.fetches[k].release.blobs[s.fetches[k].next - 1].hash) == h)
    ensures Next(me, s, StoreGc).disk == s.disk.(data := Next(me, s, StoreGc).disk.data)
  {
    forall k | k in s.fetches && s.fetches[k].HoldsTemp() && HasNext(s, k)
      ensures NextBlob(s, k).hash in Temps(s)
    {
    }
  }

  // --------------------------------------------------------------------- runs

  ghost predicate Runs(me: PublisherId, s: System, evs: seq<Event>, last: System)
    decreases |evs|
  {
    if evs == [] then s == last
    else Enabled(me, s, evs[0]) && Runs(me, Next(me, s, evs[0]), evs[1..], last)
  }

  lemma RunOne(me: PublisherId, s: System, ev: Event)
    requires Enabled(me, s, ev)
    ensures Runs(me, s, [ev], Next(me, s, ev))
  {
    assert [ev][1..] == [];
  }

  lemma RunTwo(me: PublisherId, s: System, ev: Event, ev': Event)
    requires Enabled(me, s, ev) && Enabled(me, Next(me, s, ev), ev')
    ensures Runs(me, s, [ev, ev'], Next(me, Next(me, s, ev), ev'))
  {
    RunOne(me, Next(me, s, ev), ev');
    assert [ev, ev'][1..] == [ev'];
  }

  lemma {:induction false} RunKeepsInv(me: PublisherId, s: System, evs: seq<Event>, last: System)
    requires Inv(s) && Runs(me, s, evs, last)
    ensures Inv(last)
    decreases |evs|
  {
    if evs != [] {
      StepKeepsInv(me, s, evs[0]);
      RunKeepsInv(me, Next(me, s, evs[0]), evs[1..], last);
    }
  }

  /** A node starting with an empty disk. */
  const START := System(Disk(map[], map[], map[], {}), map[], NoWriter)

  /** The data of a blob is there, its digest is indexed, and the data pinned
      under it. */
  predicate Held(disk: Disk, b: BlobRef)
  {
    && b.hash in disk.data && b.digest in disk.index
    && b.digest in disk.pins && disk.pins[b.digest] == b.hash
  }

  lemma StoredIsHeld(s: System, k: Key, b: BlobRef)
    requires Inv(s) && k in s.disk.releases
    requires b == s.disk.releases[k].manifest || b in s.disk.releases[k].blobs
    ensures Held(s.disk, b) <==> b.digest.content == b.hash.content
  {
    assert b in AllBlobs(s.disk.releases[k]);
    assert BlobSafe(s.disk, s.writer, b);
  }

  /** The manifest and the blobs a fetch has passed, as far as they match, are
      still held. */
  predicate StillHas(disk: Disk, f: Fetch)
  {
    f.next > 0 ==>
      && f.next - 1 <= |f.release.blobs|
      && (f.release.manifest.digest.content == f.release.manifest.hash.content ==> Held(disk, f.release.manifest))
      && forall b :: b in f.release.blobs[..f.next - 1] ==> (b.digest.content == b.hash.content ==> Held(disk, b))
  }

  lemma PassedIsHeld(s: System, k: Key)
    requires Inv(s) && k in s.fetches && s.fetches[k].stage != Queued
    ensures StillHas(s.disk, s.fetches[k])
  {
    var f := s.fetches[k];
    assert FetchSafe(s.disk, f);
    if f.next > 0 {
      assert f.Blobs()[0] == f.release.manifest;
      forall b | b in f.release.blobs[..f.next - 1] && b.digest.content == b.hash.content ensures Held(s.disk, b) {
        var i :| 0 <= i < f.next - 1 && f.release.blobs[i] == b;
        assert f.Blobs()[i + 1] == b && Matching(b);
      }
    }
  }

  /** In every reachable state the manifest and each blob of a stored release
      are present, indexed and pinned if and only if the reference's two hashes
      name one content, whatever other records arrived; and every running fetch
      still holds each matching blob it has passed, the manifest first. */
  lemma ReachableIsSafe(me: PublisherId, evs: seq<Event>, s: System)
    requires Runs(me, START, evs, s)
    ensures forall k, b ::
              k in s.disk.releases && (b == s.disk.releases[k].manifest || b in s.disk.releases[k].blobs) ==>
              (b.hash in s.disk.data && b.digest in s.disk.index
               && b.digest in s.disk.pins && s.disk.pins[b.digest] == b.hash
               <==> b.digest.content == b.hash.content)
    ensures forall k :: k in s.fetches && s.fetches[k].stage != Queued ==> StillHas(s.disk, s.fetches[k])
  {
    assert Inv(START);
    RunKeepsInv(me, START, evs, s);
    forall k, b | k in s.disk.releases && (b == s.disk.releases[k].manifest || b in s.disk.releases[k].blobs)
      ensures Held(s.disk, b) <==> b.digest.content == b.hash.content
    {
      StoredIsHeld(s, k, b);
    }
    forall k | k in s.fetches && s.fetches[k].stage != Queued ensures StillHas(s.disk, s.fetches[k]) {
      PassedIsHeld(s, k);
    }
  }

  predicate Ends(ev: Event, k: Key)
  {
    (ev.StoreFetched? || ev.GiveUp?) && ev.k == k
  }

  lemma StepAdvances(me: PublisherId, s: System, ev: Event, k: Key)
    requires Enabled(me, s, ev) && k in s.fetches && s.fetches[k].Reading() && !Ends(ev, k)
    ensures var s' := Next(me, s, ev);
            k in s'.fetches && s'.fetches[k].Reading() && s'.fetches[k].release == s.fetches[k].release
            && s'.fetches[k].next >= s.fetches[k].next
  {
  }

  /** While a fetch runs its count of blobs passed never drops and its
      release never changes, whatever the others do. */
  lemma {:induction false} FetchOnlyAdvances(me: PublisherId, s: System, evs: seq<Event>, last: System, k: Key)
    requires Inv(s) && Runs(me, s, evs, last) && k in s.fetches && s.fetches[k].Reading()
    requires forall ev :: ev in evs ==> !Ends(ev, k)
    ensures k in last.fetches && last.fetches[k].Reading() && last.fetches[k].release == s.fetches[k].release
    ensures last.fetches[k].next >= s.fetches[k].next
    ensures forall i :: 0 <= i < s.fetches[k].next && Matching(s.fetches[k].Blobs()[i]) ==>
              Recorded(last.disk, s.fetches[k].Blobs()[i])
    decreases |evs|
  {
    RunKeepsInv(me, s, evs, last);
    if evs != [] {
      TailMembers(evs);
      StepKeepsInv(me, s, evs[0]);
      StepAdvances(me, s, evs[0], k);
      FetchOnlyAdvances(me, Next(me, s, evs[0]), evs[1..], last, k);
    }
  }

  // ------------------------------------------------------- a fetch by its steps

  lemma {:induction false} RunsOn(me: PublisherId, a: System, evs: seq<Event>, b: System, more: seq<Event>, c: System)
    requires Runs(me, a, evs, b) && Runs(me, b, more, c)
    ensures Runs(me, a, evs + more, c)
    decreases |evs|
  {
    if evs == [] {
      assert evs + more == more;
    } else {
      assert (evs + more)[1..] == evs[1..] + more;
      RunsOn(me, Next(me, a, evs[0]), evs[1..], b, more, c);
    }
  }

  /** The state after the fetch has dealt with its current blob. */
  function PastBlob(s: System, k: Key): System
    requires k in s.fetches && HasNext(s, k)
  {
    Advance(s.(disk := WithBlob(s.disk, NextBlob(s, k))), k)
  }

  /** The state once the missing current blob is pinned. */
  function PinnedState(s: System, k: Key): System
    requires k in s.fetches && HasNext(s, k)
  {
    var b := NextBlob(s, k);
    Step(s.(disk := s.disk.(data := s.disk.data + {b.hash}, pins := s.disk.pins[b.digest := b.hash])), k, Pinned)
  }

  lemma PinSteps(me: PublisherId, s: System, k: Key)
    requires At(s, k, Idle) && HasNext(s, k) && NextBlob(s, k).hash !in s.disk.data && Consistent(NextBlob(s, k))
    ensures exists evs :: Runs(me, s, evs, PinnedState(s, k))
  {
    var s2 := Step(s.(disk := s.disk.(data := s.disk.data + {NextBlob(s, k).hash})), k, Downloaded);
    assert s2 == Next(me, Next(me, s, Protect(k)), Download(k));
    RunTwo(me, s, Protect(k), Download(k));
    assert PinnedState(s, k) == Next(me, Next(me, s2, Verify(k)), Pin(k));
    RunTwo(me, s2, Verify(k), Pin(k));
    RunsOn(me, s, [Protect(k), Download(k)], s2, [Verify(k), Pin(k)], PinnedState(s, k));
  }

  /** The steps that download, verify, pin and index a missing blob. */
  lemma DownloadSteps(me: PublisherId, s: System, k: Key)
    requires At(s, k, Idle) && HasNext(s, k) && NextBlob(s, k).hash !in s.disk.data && Consistent(NextBlob(s, k))
    ensures exists evs :: Runs(me, s, evs, PastBlob(s, k))
  {
    var s4 := PinnedState(s, k);
    PinSteps(me, s, k);
    var evs :| Runs(me, s, evs, s4);
    assert Next(me, s4, Index(k)) == PastBlob(s, k);
    RunOne(me, s4, Index(k));
    RunsOn(me, s, evs, s4, [Index(k)], PastBlob(s, k));
  }

  lemma BlobAlone(me: PublisherId, s: System, k: Key, providers: bool, available: set<Hash>)
    requires At(s, k, Idle) && HasNext(s, k) && Obtainable(s.disk, NextBlob(s, k), providers, available)
    ensures exists evs :: Runs(me, s, evs, PastBlob(s, k))
  {
    var b := NextBlob(s, k);
    if b.hash !in s.disk.data {
      DownloadSteps(me, s, k);
    } else if b.digest in s.disk.index {
      assert Next(me, s, SkipIndexed(k)) == PastBlob(s, k);
      RunOne(me, s, SkipIndexed(k));
    } else {
      assert s.disk.data + {b.hash} == s.disk.data;
      assert Next(me, s, RecordPresent(k)) == PastBlob(s, k);
      RunOne(me, s, RecordPresent(k));
    }
  }

  /** The fetch over: its blobs as a fetch in one call leaves them, its record
      put. */
  function Fetched(s: System, k: Key, from: Disk): System
    requires k in s.fetches
  {
    var r := s.fetches[k].release;
    System(WithBlobs(from, AllBlobs(r)).(releases := PutRelease(from.releases, r)), s.fetches - {k}, s.writer)
  }

  lemma NextIsObtainable(s: System, k: Key, from: Disk, providers: bool, available: set<Hash>)
    requires At(s, k, Idle) && HasNext(s, k)
    requires s.disk == WithBlobs(from, s.fetches[k].Blobs()[..s.fetches[k].next])
    requires AllObtainable(from, s.fetches[k].Blobs(), providers, available)
    ensures Obtainable(s.disk, NextBlob(s, k), providers, available)
  {
    var bs, n := s.fetches[k].Blobs(), s.fetches[k].next;
    PrefixObtainable(from, bs, n + 1, providers, available);
    assert bs[..n + 1][..n] == bs[..n];
  }

  lemma PastBlobGoesOn(s: System, k: Key, from: Disk)
    requires At(s, k, Idle) && HasNext(s, k)
    requires s.disk == WithBlobs(from, s.fetches[k].Blobs()[..s.fetches[k].next])
    ensures var past, f := PastBlob(s, k), s.fetches[k];
            && k in past.fetches && past.fetches[k] == f.(next := f.next + 1)
            && past.disk == WithBlobs(from, f.Blobs()[..f.next + 1])
            && Fetched(past, k, from) == Fetched(s, k, from)
  {
    var past, f := PastBlob(s, k), s.fetches[k];
    assert f.Blobs()[..f.next + 1][..f.next] == f.Blobs()[..f.next];
    assert past.fetches - {k} == s.fetches - {k};
  }

  lemma StoreAlone(me: PublisherId, s: System, k: Key, from: Disk)
    requires At(s, k, Idle) && s.fetches[k].next == |s.fetches[k].Blobs()|
    requires s.disk == WithBlobs(from, s.fetches[k].Blobs()[..s.fetches[k].next])
    ensures Runs(me, s, [StoreFetched(k)], Fetched(s, k, from))
  {
    var f := s.fetches[k];
    assert f.Blobs()[..f.next] == f.Blobs();
    WithBlobsKeepsReleases(from, f.Blobs());
    assert Next(me, s, StoreFetched(k)) == Fetched(s, k, from);
    RunOne(me, s, StoreFetched(k));
  }

  lemma {:induction false} RestAlone(me: PublisherId, s: System, k: Key, from: Disk, providers: bool,
                                     available: set<Hash>)
    requires At(s, k, Idle) && s.fetches[k].next <= |s.fetches[k].Blobs()|
    requires AllObtainable(from, s.fetches[k].Blobs(), providers, available)
    requires s.disk == WithBlobs(from, s.fetches[k].Blobs()[..s.fetches[k].next])
    ensures exists evs :: Runs(me, s, evs, Fetched(s, k, from))
    decreases |s.fetches[k].Blobs()| - s.fetches[k].next
  {
    var f := s.fetches[k];
    if HasNext(s, k) {
      var past := PastBlob(s, k);
      NextIsObtainable(s, k, from, providers, available);
      BlobAlone(me, s, k, providers, available);
      var evs :| Runs(me, s, evs, past);
      PastBlobGoesOn(s, k, from);
      RestAlone(me, past, k, from, providers, available);
      var more :| Runs(me, past, more, Fetched(s, k, from));
      RunsOn(me, s, evs, past, more, Fetched(s, k, from));
    } else {
      StoreAlone(me, s, k, from);
    }
  }

  /** A fetch as one call that succeeds is a run of these steps: with nobody
      holding the write side it can go through undisturbed, and then leaves the
      disk that the call leaves. */
  lemma FetchIsARun(me: PublisherId, s: System, r: Release, providers: bool, available: set<Hash>)
    requires Enabled(me, s, BeginFetch(r)) && s.writer.NoWriter?
    requires AllObtainable(s.disk, AllBlobs(r), providers, available)
    ensures exists evs :: Runs(me, s, evs,
              s.(disk := WithBlobs(s.disk, AllBlobs(r)).(releases := PutRelease(s.disk.releases, r))))
  {
    var k := KeyOf(r);
    var s2 := Next(me, Next(me, s, BeginFetch(r)), TakeReadLock(k));
    RunTwo(me, s, BeginFetch(r), TakeReadLock(k));
    assert AllBlobs(r)[..0] == [];
    RestAlone(me, s2, k, s.disk, providers, available);
    assert s2.fetches - {k} == s.fetches;
    var evs :| Runs(me, s2, evs, Fetched(s2, k, s.disk));
    RunsOn(me, s, [BeginFetch(r), TakeReadLock(k)], s2, evs, Fetched(s2, k, s.disk));
  }

  // ------------------------------------------------------- a sweep by its steps

  function GapSet(gap: Option<Digest>): set<Digest>
  {
    match gap case Some(d) => {d} case None => {}
  }

  /** Entries not yet looked at, or live, or pinned. */
  function Kept(from: Disk, live: set<Hash>, pinned: set<Hash>, todo: set<Digest>): map<Digest, BlobRef>
  {
    map d | d in from.index && d !in Dead(from, live) && (d in todo || HashOf(d) in live || HashOf(d) in pinned)
      :: from.index[d]
  }

  /** How far a sweep that began on `from` is: its dead pins outside `todo` are
      gone, then so are the entries outside `todo` that nothing keeps. */
  ghost predicate Sweeping(from: Disk, live: set<Hash>, s: System)
  {
    && s.disk.releases == from.releases && s.disk.data == from.data
    && match s.writer
       case ListingPins(l) => l == live && s.disk == from
       case Unpinning(l, todo, gap) =>
         var gone := Dead(from, live) - todo;
         l == live && todo <= from.pins.Keys && GapSet(gap) <= gone
         && s.disk.pins == from.pins - gone && s.disk.index == from.index - (gone - GapSet(gap))
       case ListingEntries(l, pinned) =>
         l == live && s.disk.pins == from.pins - Dead(from, live) && pinned == s.disk.pins.Values
         && s.disk.index == from.index - Dead(from, live)
       case Unindexing(l, pinned, todo) =>
         l == live && s.disk.pins == from.pins - Dead(from, live) && pinned == s.disk.pins.Values
         && s.disk.index == Kept(from, live, pinned, todo)
       case _ => false
  }

  lemma UnpinningStep(me: PublisherId, from: Disk, live: set<Hash>, s: System, ev: Event)
    requires WellFiled(from) && Sweeping(from, live, s) && SweepEvent(ev) && Enabled(me, s, ev) && s.writer.Unpinning?
    ensures Sweeping(from, live, Next(me, s, ev))
  {
    var todo := s.writer.todo;
    var gone := Dead(from, live) - todo;
    match ev
    case Unpin(d) => assert Dead(from, live) - (todo - {d}) == gone + {d};
    case SparePin(d) => assert Dead(from, live) - (todo - {d}) == gone;
    case Unindex => assert gone - GapSet(None) == gone;
    case EndUnpinning => assert gone == Dead(from, live);
  }

  lemma UnindexingStep(me: PublisherId, from: Disk, live: set<Hash>, s: System, ev: Event)
    requires WellFiled(from) && Sweeping(from, live, s) && SweepEvent(ev) && Enabled(me, s, ev) && s.writer.Unindexing?
    ensures Sweeping(from, live, Next(me, s, ev))
  {
    assert ev.DropEntry? || ev.SpareEntry?;
    var pinned, todo := s.writer.pinned, s.writer.todo;
    assert Kept(from, live, pinned, todo - {ev.d})
        == if HashOf(ev.d) in live || HashOf(ev.d) in pinned then s.disk.index else s.disk.index - {ev.d};
  }

  lemma SweepStep(me: PublisherId, from: Disk, live: set<Hash>, s: System, ev: Event)
    requires WellFiled(from) && Sweeping(from, live, s) && SweepEvent(ev) && Enabled(me, s, ev)
    ensures Sweeping(from, live, Next(me, s, ev))
  {
    if s.writer.Unpinning? {
      UnpinningStep(me, from, live, s, ev);
    } else if s.writer.Unindexing? {
      UnindexingStep(me, from, live, s, ev);
    } else if ev.ListPins? {
      assert Dead(from, live) - from.pins.Keys == {};
    } else {
      assert s.disk.index == Kept(from, live, s.writer.pinned, s.disk.index.Keys);
    }
  }

  lemma {:induction false} SweepRun(me: PublisherId, from: Disk, live: set<Hash>, s: System, evs: seq<Event>,
                                    last: System)
    requires WellFiled(from) && Sweeping(from, live, s) && Runs(me, s, evs, last)
    requires forall ev :: ev in evs ==> SweepEvent(ev)
    ensures Sweeping(from, live, last)
    decreases |evs|
  {
    if evs != [] {
      TailMembers(evs);
      SweepStep(me, from, live, s, evs[0]);
      SweepRun(me, from, live, Next(me, s, evs[0]), evs[1..], last);
    }
  }

  lemma KeptIsSwept(from: Disk, live: set<Hash>, pins: map<Digest, Hash>)
    requires WellFiled(from) && pins == from.pins - Dead(from, live)
    ensures from.(pins := pins, index := Kept(from, live, pins.Values, {})) == Swept(from, live)
  {
    forall h | h in pins.Values ensures h in live {
      var d :| d in pins && pins[d] == h;
    }
  }

  /** Whatever order a sweep takes pins and entries in, it ends with the disk
      that the sweep as one call leaves. */
  lemma SweepInAnyOrder(me: PublisherId, s: System, evs: seq<Event>, last: System)
    requires WellFiled(s.disk) && s.writer.Pruning?
    requires forall ev :: ev in evs ==> SweepEvent(ev)
    requires Runs(me, Next(me, s, StartSweep), evs, last)
    requires Enabled(me, last, DropWriteLock)
    ensures last.disk == Swept(s.disk, Live(s.disk.releases))
  {
    var live := Live(s.disk.releases);
    SweepRun(me, s.disk, live, Next(me, s, StartSweep), evs, last);
    KeptIsSwept(s.disk, live, last.disk.pins);
  }

  predicate InSweep(w: Writer)
  {
    w.ListingPins? || w.Unpinning? || w.ListingEntries? || w.Unindexing?
  }

  predicate SweepDone(w: Writer)
  {
    w.Unindexing? && w.todo == {}
  }

  /** How much of a sweep is left. */
  function Phase(w: Writer): nat
  {
    match w case ListingPins(_) => 4 case Unpinning(_, _, _) => 3 case ListingEntries(_, _) => 2 case _ => 1
  }

  function Todo(w: Writer): set<Digest>
  {
    match w case Unpinning(_, todo, _) => todo case Unindexing(_, _, todo) => todo case _ => {}
  }

  predicate InGap(w: Writer) { w.Unpinning? && w.gap.Some? }

  /** A step the sweep can take next. */
  lemma SweepGoesOn(me: PublisherId, s: System) returns (ev: Event)
    requires InSweep(s.writer) && !SweepDone(s.writer)
    ensures SweepEvent(ev) && Enabled(me, s, ev)
  {
    match s.writer
    case ListingPins(_) => ev := ListPins;
    case ListingEntries(_, _) => ev := ListEntries;
    case Unpinning(live, todo, gap) =>
      if gap.Some? {
        ev := Unindex;
      } else if todo == {} {
        ev := EndUnpinning;
      } else {
        var d :| d in todo;
        ev := if HashOf(d) in live then SparePin(d) else Unpin(d);
      }
    case Unindexing(live, pinned, todo) =>
      var d :| d in todo;
      ev := if HashOf(d) in live || HashOf(d) in pinned then SpareEntry(d) else DropEntry(d);
  }

  predicate LessLeft(w: Writer, w': Writer)
  {
    || Phase(w') < Phase(w)
    || (Phase(w') == Phase(w)
        && (|Todo(w')| < |Todo(w)| || (Todo(w') == Todo(w) && InGap(w) && !InGap(w'))))
  }

  lemma OneLess(todo: set<Digest>, d: Digest)
    requires d in todo
    ensures |todo - {d}| < |todo|
  {
  }

  lemma UnpinningShrinks(me: PublisherId, s: System, ev: Event)
    requires (ev.Unpin? || ev.SparePin? || ev.Unindex?) && Enabled(me, s, ev)
    ensures InSweep(Next(me, s, ev).writer) && LessLeft(s.writer, Next(me, s, ev).writer)
  {
    if !ev.Unindex? { OneLess(s.writer.todo, ev.d); }
  }

  lemma UnindexingShrinks(me: PublisherId, s: System, ev: Event)
    requires (ev.DropEntry? || ev.SpareEntry?) && Enabled(me, s, ev)
    ensures InSweep(Next(me, s, ev).writer) && LessLeft(s.writer, Next(me, s, ev).writer)
  {
    OneLess(s.writer.todo, ev.d);
  }

  lemma SweepShrinks(me: PublisherId, s: System, ev: Event)
    requires SweepEvent(ev) && Enabled(me, s, ev)
    ensures InSweep(Next(me, s, ev).writer) && LessLeft(s.writer, Next(me, s, ev).writer)
    ensures Next(me, s, ev).fetches == s.fetches
  {
    if ev.Unpin? || ev.SparePin? || ev.Unindex? {
      UnpinningShrinks(me, s, ev);
    } else if ev.DropEntry? || ev.SpareEntry? {
      UnindexingShrinks(me, s, ev);
    }
  }

  lemma RunsFrom(me: PublisherId, s: System, ev: Event, rest: seq<Event>, last: System)
    requires Enabled(me, s, ev) && Runs(me, Next(me, s, ev), rest, last)
    ensures Runs(me, s, [ev] + rest, last)
  {
    assert ([ev] + rest)[1..] == rest;
  }

  /** A sweep that has begun can end. */
  lemma {:induction false} SweepEnds(me: PublisherId, s: System) returns (evs: seq<Event>, last: System)
    requires InSweep(s.writer)
    ensures Runs(me, s, evs, last) && SweepDone(last.writer) && last.fetches == s.fetches
    ensures forall ev :: ev in evs ==> SweepEvent(ev)
    decreases Phase(s.writer), |Todo(s.writer)|, if InGap(s.writer) then 1 else 0
  {
    if SweepDone(s.writer) {
      evs, last := [], s;
    } else {
      var ev := SweepGoesOn(me, s);
      SweepShrinks(me, s, ev);
      var rest;
      rest, last := SweepEnds(me, Next(me, s, ev));
      RunsFrom(me, s, ev, rest, last);
      evs := [ev] + rest;
    }
  }

  /** From the first step of a sweep to the release of the lock. */
  lemma SweepToTheEnd(me: PublisherId, s: System)
    requires WellFiled(s.disk) && s.writer.Pruning?
    ensures exists evs :: Runs(me, s, evs, System(Swept(s.disk, Live(s.disk.releases)), s.fetches, NoWriter))
  {
    var evs, last := SweepEnds(me, Next(me, s, StartSweep));
    SweepInAnyOrder(me, s, evs, last);
    RunOne(me, last, DropWriteLock);
    RunsOn(me, Next(me, s, StartSweep), evs, last, [DropWriteLock], Next(me, last, DropWriteLock));
    RunsFrom(me, s, StartSweep, evs + [DropWriteLock], Next(me, last, DropWriteLock));
  }

  /** Pruning, gc and removal as one call are runs of these steps: with nobody
      holding the lock the records can go and the sweep be taken to its end
      undisturbed, and then the disk is the one the call leaves. */
  lemma PruningIsARun(me: PublisherId, s: System, keys: set<Key>)
    requires WellFiled(s.disk) && s.writer.NoWriter? && NobodyReads(s)
    ensures var left := s.disk.releases - keys;
            exists evs :: Runs(me, s, evs, s.(disk := Swept(s.disk.(releases := left), Live(left))))
  {
    var pruned := WithReleases(s.(writer := Pruning), s.disk.releases - keys);
    var end := System(Swept(pruned.disk, Live(pruned.disk.releases)), s.fetches, NoWriter);
    SweepToTheEnd(me, pruned);
    var evs :| Runs(me, pruned, evs, end);
    RunsFrom(me, s.(writer := Pruning), PruneRecords(keys), evs, end);
    RunsFrom(me, s, TakeWriteLock, [PruneRecords(keys)] + evs, end);
  }

  /** Removal drops the records before it asks for the lock. */
  lemma RemovalIsARun(me: PublisherId, s: System, keys: set<Key>)
    requires WellFiled(s.disk) && s.writer.NoWriter? && NobodyReads(s)
    ensures var left := s.disk.releases - keys;
            exists evs :: Runs(me, s, [RemoveRecords(keys), TakeWriteLock] + evs,
                               s.(disk := Swept(s.disk.(releases := left), Live(left))))
  {
    var removed := WithReleases(s, s.disk.releases - keys);
    var swept := removed.(writer := Pruning);
    var end := System(Swept(removed.disk, Live(removed.disk.releases)), s.fetches, NoWriter);
    SweepToTheEnd(me, swept);
    var evs :| Runs(me, swept, evs, end);
    RunsFrom(me, removed, TakeWriteLock, evs, end);
    RunsFrom(me, s, RemoveRecords(keys), [TakeWriteLock] + evs, end);
    assert [RemoveRecords(keys)] + ([TakeWriteLock] + evs) == [RemoveRecords(keys), TakeWriteLock] + evs;
  }

  /** An upload files the content under its own hashes and touches no other
      blob; a push stores its release unless a newer one of the tag is there,
      and touches nothing else. */
  lemma ArrivalsAreExact(me: PublisherId, s: System, c: Content, mt: Option<string>, r: Release)
    ensures var up := Next(me, s, Upload(c, mt));
            && up.disk.index[Sha256(c)] == BlobRef(Sha256(c), Blake3(c), |c|, mt)
            && up.disk.pins[Sha256(c)] == Blake3(c) && up.disk.data == s.disk.data + {Blake3(c)}
            && up.disk.index - {Sha256(c)} == s.disk.index - {Sha256(c)}
            && up.disk.pins - {Sha256(c)} == s.disk.pins - {Sha256(c)}
            && up.disk.releases == s.disk.releases && up.fetches == s.fetches && up.writer == s.writer
    ensures Enabled(me, s, Push(r)) ==>
      var pushed, k := Next(me, s, Push(r)), Key(r.publisher, r.name, r.tag);
      && pushed == s.(disk := s.disk.(releases := pushed.disk.releases))
      && k in pushed.disk.releases && pushed.disk.releases - {k} == s.disk.releases - {k}
      && pushed.disk.releases[k].timestamp >= r.timestamp
      && (pushed.disk.releases[k] == r || (k in s.disk.releases && pushed.disk.releases[k] == s.disk.releases[k]))
      && ((k !in s.disk.releases || s.disk.releases[k].timestamp < r.timestamp) ==> pushed.disk.releases[k] == r)
  {
  }

  // -------------------------------------------------- pushes during a sweep

  /** `r` is stored though one of its blobs is gone. */
  predicate Broken(s: System, r: Release)
  {
    KeyOf(r) in s.disk.releases && s.disk.releases[KeyOf(r)] == r && !Complete(s.disk, r)
  }

  lemma ListedIsTaken(me: PublisherId, s: System, r: Release, b: BlobRef)
    requires KeyOf(r) in s.disk.releases && s.disk.releases[KeyOf(r)] == r
    requires b in AllBlobs(r) && Consistent(b) && Taken(s.writer, b) && b.digest in s.disk.index
    requires s.writer.ListingEntries? || (s.writer.ListingPins? && b.digest in s.disk.pins)
    ensures exists evs, last :: Runs(me, s, evs, last) && Broken(last, r)
  {
    if s.writer.ListingEntries? {
      RunTwo(me, s, ListEntries, DropEntry(b.digest));
      assert !Recorded(Next(me, Next(me, s, ListEntries), DropEntry(b.digest)).disk, b);
    } else {
      RunTwo(me, s, ListPins, Unpin(b.digest));
      assert !Recorded(Next(me, Next(me, s, ListPins), Unpin(b.digest)).disk, b);
    }
  }

  lemma GapIsTaken(me: PublisherId, s: System, r: Release, b: BlobRef)
    requires KeyOf(r) in s.disk.releases && s.disk.releases[KeyOf(r)] == r
    requires b in AllBlobs(r) && Consistent(b) && Taken(s.writer, b) && s.writer.Unpinning? && s.writer.gap.Some?
    ensures exists evs, last :: Runs(me, s, evs, last) && Broken(last, r)
  {
    var s1 := Next(me, s, Unindex);
    if s.writer.gap == Some(b.digest) {
      RunOne(me, s, Unindex);
      assert !Recorded(s1.disk, b);
    } else {
      RunTwo(me, s, Unindex, Unpin(b.digest));
      assert !Recorded(Next(me, s1, Unpin(b.digest)).disk, b);
    }
  }

  /** A blob the sweep can take is taken within two of its steps. */
  lemma SweepTakes(me: PublisherId, s: System, r: Release, b: BlobRef)
    requires KeyOf(r) in s.disk.releases && s.disk.releases[KeyOf(r)] == r
    requires b in AllBlobs(r) && Consistent(b) && Taken(s.writer, b)
    requires b.digest in s.disk.index && (s.writer.ListingPins? ==> b.digest in s.disk.pins)
    ensures exists evs, last :: Runs(me, s, evs, last) && Broken(last, r)
  {
    var d := b.digest;
    if s.writer.Unindexing? {
      RunOne(me, s, DropEntry(d));
      assert !Recorded(Next(me, s, DropEntry(d)).disk, b);
    } else if s.writer.ListingEntries? || s.writer.ListingPins? {
      ListedIsTaken(me, s, r, b);
    } else if s.writer.gap.Some? {
      GapIsTaken(me, s, r, b);
    } else {
      RunOne(me, s, Unpin(d));
      assert !Recorded(Next(me, s, Unpin(d)).disk, b);
    }
  }

  /** A push that passes the code's own checks keeps the node safe if and only
      if the sweep running at that moment, if any, spares its blobs; otherwise
      the sweep's next steps leave the pushed release incomplete. */
  lemma PushIsSafeExactlyWhen(me: PublisherId, s: System, r: Release)
    requires Inv(s) && PushChecks(me, s, r)
    requires KeyOf(r) in s.disk.releases ==> Supersedes(r, s.disk.releases[KeyOf(r)])
    ensures Spared(s.writer, r) ==> Inv(Pushed(s, r))
    ensures !Spared(s.writer, r) ==> exists evs, last :: Runs(me, Pushed(s, r), evs, last) && Broken(last, r)
  {
    if Spared(s.writer, r) {
      PushKeepsInv(me, s, r);
    } else {
      var b :| b in AllBlobs(r) && Taken(s.writer, b);
      SweepTakes(me, Pushed(s, r), r, b);
    }
  }

  lemma UploadThenSweep(me: PublisherId, c: Content) returns (s: System)
    ensures exists evs :: Runs(me, START, evs, s)
    ensures var b := BlobRef(Sha256(c), Blake3(c), |c|, None);
            s.disk == Disk(map[], map[b.digest := b], map[b.digest := b.hash], {b.hash})
            && s.writer == ListingPins({})
  {
    var s2 := Next(me, Next(me, START, Upload(c, None)), TakeWriteLock);
    RunTwo(me, START, Upload(c, None), TakeWriteLock);
    s := Next(me, s2, StartSweep);
    RunOne(me, s2, StartSweep);
    RunsOn(me, START, [Upload(c, None), TakeWriteLock], s2, [StartSweep], s);
  }

  /** Such a push is possible: an upload just before a sweep begins, then the
      push of the manifest uploaded. */
  lemma UnsparedPushIsReachable(me: PublisherId, name: string, tag: string, c: Content, ts: nat)
    requires ValidName(name) && ValidTag(tag)
    ensures var r := Release(me, name, tag, BlobRef(Sha256(c), Blake3(c), |c|, None), [], ts, []);
            exists evs, s :: Runs(me, START, evs, s) && PushChecks(me, s, r) && !Spared(s.writer, r)
              && KeyOf(r) !in s.disk.releases
  {
    var b := BlobRef(Sha256(c), Blake3(c), |c|, None);
    var r := Release(me, name, tag, b, [], ts, []);
    var s3 := UploadThenSweep(me, c);
    assert b in AllBlobs(r) && Taken(s3.writer, b);
  }
}
