/** Blobs, signed releases and the release records of the index
    (crates/ocid-core/src/release.rs, crates/ocid-core/src/index.rs). */
module Releases {
  import opened Text
  import opened Identity
  import opened Names

  // --------------------------------------------------------------------- blobs

  type Content = seq<byte>

  /** The two addresses of a content. Both hash functions are taken to be
      injective: an address is the content it was computed from. */
  datatype Digest = Sha256(content: Content)

  datatype Hash = Blake3(content: Content)

  datatype BlobRef = BlobRef(digest: Digest, hash: Hash, size: nat, mediaType: Option<string>)

  function HashOf(d: Digest): Hash { Blake3(d.content) }

  /** Both addresses and the size belong to one content: what `verify_blob`
      accepts. */
  predicate Consistent(b: BlobRef)
  {
    b.hash == HashOf(b.digest) && b.size == |b.digest.content|
  }

  /** Both addresses belong to one content. */
  predicate Matching(b: BlobRef)
  {
    b.hash == HashOf(b.digest)
  }

  // ------------------------------------------------------------------ releases

  datatype Referrer = Referrer(digest: Digest, mediaType: string)

  datatype Release = Release(
    publisher: PublisherId,
    name: string,
    tag: string,
    manifest: BlobRef,
    blobs: seq<BlobRef>,
    timestamp: nat,
    referrers: seq<Referrer>)

  datatype Key = Key(publisher: PublisherId, name: string, tag: string)

  function KeyOf(r: Release): Key { Key(r.publisher, r.name, r.tag) }

  predicate ValidKey(k: Key) { ValidName(k.name) && ValidTag(k.tag) }

  function AllBlobs(r: Release): seq<BlobRef> { [r.manifest] + r.blobs }

  predicate ConsistentRelease(r: Release)
  {
    forall b :: b in AllBlobs(r) ==> Consistent(b)
  }

  /** `reference`: `<hex>/<name>:<tag>`. */
  function Reference(k: Key): string { k.publisher + "/" + NameAndTag(k.name, Some(k.tag)) }

  lemma ReferenceText(k: Key)
    ensures Reference(k) == k.publisher + "/" + k.name + ":" + k.tag
  {
    assert k.publisher + "/" + (k.name + ":" + k.tag) == k.publisher + "/" + k.name + ":" + k.tag;
  }

  /** Distinct releases have distinct references. */
  lemma ReferenceInjective(a: Key, b: Key)
    requires ValidKey(a) && ValidKey(b) && Reference(a) == Reference(b)
    ensures a == b
  {
    HexHasNone(a.publisher);
    HexHasNone(b.publisher);
    SplitOnceAt(a.publisher, '/', NameAndTag(a.name, Some(a.tag)));
    SplitOnceAt(b.publisher, '/', NameAndTag(b.name, Some(b.tag)));
    NameAndTagInjective(a.name, a.tag, b.name, b.tag);
  }

  /** `supersedes`: newer, or as old with another manifest. */
  predicate Supersedes(r: Release, existing: Release)
  {
    || r.timestamp > existing.timestamp
    || (r.timestamp == existing.timestamp && r.manifest.digest != existing.manifest.digest)
  }

  /** The timestamp rule of `Release::sign`. */
  function Sign(me: PublisherId, now: nat, payload: Release): Release
  {
    payload.(publisher := me, timestamp := if payload.timestamp == 0 then now else payload.timestamp)
  }

  // --------------------------------------------------------------- put_release

  function PutRelease(m: map<Key, Release>, r: Release): map<Key, Release>
  {
    if KeyOf(r) in m && !Supersedes(r, m[KeyOf(r)]) then m else m[KeyOf(r) := r]
  }

  function PutAll(rs: seq<Release>): map<Key, Release>
  {
    if rs == [] then map[] else PutRelease(PutAll(rs[..|rs| - 1]), rs[|rs| - 1])
  }

  /** The manifest of the last release put under `key` with timestamp `ts`. */
  function LastManifest(rs: seq<Release>, key: Key, ts: nat): Option<Digest>
  {
    if rs == [] then None
    else
      var last := rs[|rs| - 1];
      if KeyOf(last) == key && last.timestamp == ts then Some(last.manifest.digest)
      else LastManifest(rs[..|rs| - 1], key, ts)
  }

  predicate Puts(r: Release, publisher: PublisherId, name: string, tag: string, ts: nat)
  {
    r.publisher == publisher && r.name == name && r.tag == tag && r.timestamp == ts
  }

  lemma {:induction false} LastPut(rs: seq<Release>, publisher: PublisherId, name: string, tag: string, ts: nat)
    returns (i: nat)
    requires LastManifest(rs, Key(publisher, name, tag), ts).Some?
    ensures i < |rs| && Puts(rs[i], publisher, name, tag, ts)
    ensures Some(rs[i].manifest.digest) == LastManifest(rs, Key(publisher, name, tag), ts)
    ensures forall j :: i < j < |rs| ==> !Puts(rs[j], publisher, name, tag, ts)
  {
    if Puts(rs[|rs| - 1], publisher, name, tag, ts) {
      i := |rs| - 1;
    } else {
      i := LastPut(rs[..|rs| - 1], publisher, name, tag, ts);
    }
  }

  /** `stored` has the greatest timestamp put under `key`, and the manifest of
      the last release put with that timestamp. */
  predicate IsWinner(rs: seq<Release>, key: Key, stored: Release)
  {
    && stored in rs && KeyOf(stored) == key
    && (forall r :: r in rs && KeyOf(r) == key ==> r.timestamp <= stored.timestamp)
    && LastManifest(rs, key, stored.timestamp) == Some(stored.manifest.digest)
  }

  /** After any sequence of puts each key holds its winner; a tie goes to the
      last writer. */
  lemma {:induction false} StoredIsWinner(rs: seq<Release>, key: Key)
    ensures key in PutAll(rs) <==> exists r :: r in rs && KeyOf(r) == key
    ensures key in PutAll(rs) ==> IsWinner(rs, key, PutAll(rs)[key])
  {
    if rs != [] {
      var front, last := rs[..|rs| - 1], rs[|rs| - 1];
      StoredIsWinner(front, key);
      assert rs == front + [last];
      assert forall r :: r in rs <==> r in front || r == last;
    }
  }

  /** The same, field by field: after any sequence of puts there is a record
      for a publisher, name and tag if and only if one was put; it is one of
      those put, none of which is newer, and the last put with its timestamp
      has its manifest. */
  lemma StoredPerTag(rs: seq<Release>, publisher: PublisherId, name: string, tag: string)
    ensures Key(publisher, name, tag) in PutAll(rs) <==>
            exists r :: r in rs && r.publisher == publisher && r.name == name && r.tag == tag
    ensures Key(publisher, name, tag) in PutAll(rs) ==>
              var s := PutAll(rs)[Key(publisher, name, tag)];
              && s in rs && s.publisher == publisher && s.name == name && s.tag == tag
              && (forall r :: r in rs && r.publisher == publisher && r.name == name && r.tag == tag ==>
                    r.timestamp <= s.timestamp)
              && exists i :: 0 <= i < |rs| && Puts(rs[i], publisher, name, tag, s.timestamp)
                   && rs[i].manifest.digest == s.manifest.digest
                   && forall j :: i < j < |rs| ==> !Puts(rs[j], publisher, name, tag, s.timestamp)
  {
    var k := Key(publisher, name, tag);
    StoredIsWinner(rs, k);
    assert forall r: Release :: KeyOf(r) == k <==> r.publisher == publisher && r.name == name && r.tag == tag;
    if k in PutAll(rs) {
      var i := LastPut(rs, publisher, name, tag, PutAll(rs)[k].timestamp);
    }
  }

  // ----------------------------------------------------------- attach_referrer

  predicate HasReferrer(r: Release, d: Digest)
  {
    exists x :: x in r.referrers && x.digest == d
  }

  predicate HasBlob(blobs: seq<BlobRef>, d: Digest)
  {
    exists b :: b in blobs && b.digest == d
  }

  /** The blob list extended by the blobs it lacks. */
  function AddMissing(blobs: seq<BlobRef>, more: seq<BlobRef>): (r: seq<BlobRef>)
    ensures blobs <= r
    decreases |more|
  {
    if more == [] then blobs
    else AddMissing(if HasBlob(blobs, more[0].digest) then blobs else blobs + [more[0]], more[1..])
  }

  /** A call of `attach_referrer`: us, the manifest, the referrer and its
      blobs, and the clock each record is signed by. */
  datatype Attachment = Attachment(
    me: PublisherId, subject: Digest, referrer: Referrer, blobs: seq<BlobRef>, clock: Key -> nat)
  {
    /** Is this one of our releases of the subject that lacks the referrer? */
    predicate AppliesTo(r: Release)
    {
      r.publisher == me && r.manifest.digest == subject && !HasReferrer(r, referrer.digest)
    }

    /** The release with the referrer attached, re-signed. */
    function Attached(r: Release): Release
    {
      var now := clock(KeyOf(r));
      Sign(me, now, r.(
        referrers := r.referrers + [referrer],
        blobs := AddMissing(r.blobs, blobs),
        timestamp := if now < r.timestamp + 1 then r.timestamp + 1 else now))
    }

    function Updated(r: Release): Release { if AppliesTo(r) then Attached(r) else r }
  }

  lemma {:induction false} AddMissingHasAll(blobs: seq<BlobRef>, more: seq<BlobRef>)
    ensures forall b :: b in more ==> HasBlob(AddMissing(blobs, more), b.digest)
    ensures forall b :: b in AddMissing(blobs, more) ==> b in blobs || b in more
    decreases |more|
  {
    if more != [] {
      var next := if HasBlob(blobs, more[0].digest) then blobs else blobs + [more[0]];
      AddMissingHasAll(next, more[1..]);
      TailMembers(more);
      assert more[0] in blobs + [more[0]];
      var x :| x in next && x.digest == more[0].digest;
      assert x in AddMissing(next, more[1..]);
    }
  }

  /** The updated record always lands, even when the clock went back; it keeps
      every earlier blob and referrer and gains the new ones. */
  lemma AttachedLands(a: Attachment, r: Release)
    requires a.AppliesTo(r)
    ensures var u := a.Attached(r);
            && u.publisher == r.publisher == a.me && u.name == r.name && u.tag == r.tag
            && u.timestamp == (if a.clock(KeyOf(r)) > r.timestamp then a.clock(KeyOf(r)) else r.timestamp + 1)
            && KeyOf(u) == KeyOf(r) && Supersedes(u, r) && u.referrers == r.referrers + [a.referrer]
            && r.blobs <= u.blobs && r.referrers <= u.referrers && u.manifest == r.manifest
            && (forall b :: b in a.blobs ==> HasBlob(u.blobs, b.digest))
            && (forall b :: b in u.blobs ==> b in r.blobs || b in a.blobs)
            && HasReferrer(u, a.referrer.digest)
  {
    AddMissingHasAll(r.blobs, a.blobs);
    assert a.Attached(r).referrers[|r.referrers|] == a.referrer;
  }

  /** Attaching the same referrer again, at any time, does nothing. */
  lemma SecondAttachDoesNothing(a: Attachment, b: Attachment, r: Release)
    requires b.me == a.me && b.subject == a.subject && b.referrer == a.referrer
    ensures !b.AppliesTo(a.Updated(r)) && b.Updated(a.Updated(r)) == a.Updated(r)
  {
    if a.AppliesTo(r) { AttachedLands(a, r); }
  }
}
