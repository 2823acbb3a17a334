/** Pushing a manifest: the closure of everything it references, and the
    release built from it (crates/ocid/src/registry.rs, `collect_refs` and
    `manifest_put`; crates/ocid-core/src/oci.rs, `Manifest`). */
module Manifests {
  import opened Text
  import opened Identity
  import opened Names
  import opened Releases
  import opened Retention
  import opened Nodes
  import Machine
  import Windows

  const OCI_MANIFEST := "application/vnd.oci.image.manifest.v1+json"
  const OCI_INDEX := "application/vnd.oci.image.index.v1+json"
  const DOCKER_MANIFEST := "application/vnd.docker.distribution.manifest.v2+json"
  const DOCKER_LIST := "application/vnd.docker.distribution.manifest.list.v2+json"

  predicate IsManifestType(mt: string)
  {
    mt == OCI_MANIFEST || mt == OCI_INDEX || mt == DOCKER_MANIFEST || mt == DOCKER_LIST
  }

  // ------------------------------------------------------------------ manifests

  datatype Descriptor = Descriptor(mediaType: string, digest: Digest)

  datatype Manifest =
    | Image(mediaType: Option<string>, subject: Option<Descriptor>, config: Descriptor, layers: seq<Descriptor>)
    | Index(mediaType: Option<string>, subject: Option<Descriptor>, manifests: seq<Descriptor>)
  {
    /** `referenced`: what the manifest names, the subject aside. */
    function Referenced(): seq<Descriptor>
    {
      match this
      case Image(_, _, config, layers) => [config] + layers
      case Index(_, _, manifests) => manifests
    }

    function MediaType(): string
    {
      match mediaType
      case Some(mt) => mt
      case None => if Image? then OCI_MANIFEST else OCI_INDEX
    }
  }

  /** A JSON document as `Manifest::parse` looks at it: its `mediaType` when
      that is a string, whether it has `manifests`, and what it reads as when
      taken for an image manifest or for an index. */
  datatype Document = Document(
    mediaType: Option<string>, hasManifests: bool, asImage: Option<Manifest>, asIndex: Option<Manifest>)

  /** The JSON library. */
  type Json = Content -> Option<Document>

  function ParseManifest(json: Json, bytes: Content, contentType: Option<string>): Option<Manifest>
  {
    match json(bytes)
    case None => None
    case Some(doc) =>
      var mt := match doc.mediaType
                case Some(own) => own
                case None => match contentType case Some(hint) => hint case None => "";
      if mt == OCI_INDEX || mt == DOCKER_LIST || (mt == "" && doc.hasManifests) then doc.asIndex else doc.asImage
  }

  /** How a document reads: its own media type decides, else the hint; without
      either it is an index if it has `manifests`. */
  lemma ParseManifestCases(json: Json, bytes: Content, hint: Option<string>)
    ensures json(bytes).None? ==> ParseManifest(json, bytes, hint) == None
    ensures json(bytes).Some? ==>
              var doc := json(bytes).value;
              && (doc.mediaType == Some("application/vnd.oci.image.index.v1+json")
                  || doc.mediaType == Some("application/vnd.docker.distribution.manifest.list.v2+json") ==>
                    ParseManifest(json, bytes, hint) == doc.asIndex)
              && (doc.mediaType.Some? && doc.mediaType != Some("") ==>
                    ParseManifest(json, bytes, hint) == ParseManifest(json, bytes, None))
              && (doc.mediaType.None? && hint.Some? && hint.value != "" ==>
                    ParseManifest(json, bytes, hint)
                    == if hint.value == "application/vnd.oci.image.index.v1+json"
                          || hint.value == "application/vnd.docker.distribution.manifest.list.v2+json"
                       then doc.asIndex else doc.asImage)
              && (doc.mediaType.None? && hint.None? ==>
                    ParseManifest(json, bytes, hint) == if doc.hasManifests then doc.asIndex else doc.asImage)
              && (doc.mediaType == Some("application/vnd.oci.image.manifest.v1+json")
                  || doc.mediaType == Some("application/vnd.docker.distribution.manifest.v2+json") ==>
                    ParseManifest(json, bytes, hint) == doc.asImage)
  {
  }

  /** An image names its config and its layers, an index its manifests; neither
      names its subject. */
  lemma ReferencedExactly(m: Manifest, d: Descriptor)
    ensures d in m.Referenced() <==>
            match m
            case Image(_, _, config, layers) => d == config || d in layers
            case Index(_, _, manifests) => d in manifests
  {
  }

  // ----------------------------------------------------------------- the closure

  datatype Refusal =
    | Denied
    | ManifestInvalid
    | BlobUnknown(digest: Digest)
    | BlobInvalid(digest: Digest)
    | DigestInvalid
    | TagInvalid

  /** A walk in progress: the disk, and the descriptors visited so far. */
  datatype Walk = Walk(disk: Disk, seen: seq<Descriptor>)

  datatype Outcome = Outcome(walk: Walk, error: Option<Refusal>)

  function Digests(ds: seq<Descriptor>): set<Digest>
  {
    set d | d in ds :: d.digest
  }

  lemma DigestsSnoc(ds: seq<Descriptor>, d: Descriptor)
    ensures Digests(ds + [d]) == Digests(ds) + {d.digest}
  {
    assert forall x :: x in ds + [d] <==> x in ds || x == d;
  }

  /** Has the blob been uploaded? */
  predicate Available(disk: Disk, d: Digest)
  {
    d in disk.index && disk.index[d].hash in disk.data
  }

  /** The index entry of a blob that had no media type gets its referrer's. */
  function Typed(disk: Disk, d: Descriptor): (r: Disk)
    requires d.digest in disk.index
    ensures r.index.Keys == disk.index.Keys && r.data == disk.data && r.releases == disk.releases
  {
    var b := disk.index[d.digest];
    if b.mediaType.None? then
      disk.(pins := disk.pins[d.digest := b.hash], index := disk.index[d.digest := b.(mediaType := Some(d.mediaType))])
    else disk
  }

  /** The descriptors that visiting `d` leads to; `None` when it is a manifest
      that does not parse. */
  function Children(json: Json, d: Descriptor): Option<seq<Descriptor>>
  {
    if !IsManifestType(d.mediaType) then Some([])
    else
      match ParseManifest(json, d.digest.content, Some(d.mediaType))
      case None => None
      case Some(m) => Some(m.Referenced())
  }

  function ChildrenOf(json: Json, d: Descriptor): seq<Descriptor>
  {
    match Children(json, d) case Some(cs) => cs case None => []
  }

  /** What a descriptor leads to: nothing, unless it is typed as one of the four
      kinds of manifest; then what that manifest references. */
  lemma ChildrenExactly(json: Json, d: Descriptor, c: Descriptor)
    ensures d.mediaType != "application/vnd.oci.image.manifest.v1+json"
            && d.mediaType != "application/vnd.oci.image.index.v1+json"
            && d.mediaType != "application/vnd.docker.distribution.manifest.v2+json"
            && d.mediaType != "application/vnd.docker.distribution.manifest.list.v2+json" ==>
              Children(json, d) == Some([])
    ensures d.mediaType == "application/vnd.oci.image.manifest.v1+json"
            || d.mediaType == "application/vnd.oci.image.index.v1+json"
            || d.mediaType == "application/vnd.docker.distribution.manifest.v2+json"
            || d.mediaType == "application/vnd.docker.distribution.manifest.list.v2+json" ==>
              match ParseManifest(json, d.digest.content, Some(d.mediaType))
              case None => Children(json, d) == None
              case Some(Image(_, _, config, layers)) =>
                Children(json, d).Some? && (c in Children(json, d).value <==> c == config || c in layers)
              case Some(Index(_, _, manifests)) =>
                Children(json, d).Some? && (c in Children(json, d).value <==> c in manifests)
  {
  }

  /** How many stored blobs the walk has not visited. */
  function Unvisited(w: Walk): nat
  {
    |w.disk.index.Keys - Digests(w.seen)|
  }

  function WithType(w: Walk, d: Descriptor): Walk
    requires d.digest in w.disk.index
  {
    Walk(Typed(w.disk, d), w.seen)
  }

  function Visit(w: Walk, d: Descriptor): Walk
    requires d.digest in w.disk.index
  {
    Walk(Typed(w.disk, d), w.seen + [d])
  }

  lemma Visiting(w: Walk, d: Descriptor)
    requires d.digest in w.disk.index && d.digest !in Digests(w.seen)
    ensures Unvisited(Visit(w, d)) < Unvisited(w)
  {
    DigestsSnoc(w.seen, d);
    var before, after := w.disk.index.Keys - Digests(w.seen), w.disk.index.Keys - Digests(w.seen + [d]);
    assert before == after + {d.digest};
  }

  lemma KeysDecide(w: Walk, later: Walk)
    requires later.disk.index.Keys == w.disk.index.Keys && w.seen <= later.seen
    ensures Unvisited(later) <= Unvisited(w)
  {
    Windows.SubsetCardinality(later.disk.index.Keys - Digests(later.seen), w.disk.index.Keys - Digests(w.seen));
  }

  /** Visiting the descriptors in order, depth first. Every descent visits one
      more stored digest, so the walk ends even on a cycle. */
  function Collect(json: Json, w: Walk, ds: seq<Descriptor>): (r: Outcome)
    ensures w.seen <= r.walk.seen && r.walk.disk.index.Keys == w.disk.index.Keys
    decreases Unvisited(w), |ds|
  {
    if ds == [] then Outcome(w, None)
    else if !Available(w.disk, ds[0].digest) then Outcome(w, Some(BlobUnknown(ds[0].digest)))
    else if ds[0].digest in Digests(w.seen) then
      KeysDecide(w, WithType(w, ds[0]));
      Collect(json, WithType(w, ds[0]), ds[1..])
    else
      match Children(json, ds[0])
      case None => Outcome(WithType(w, ds[0]), Some(BlobInvalid(ds[0].digest)))
      case Some(cs) =>
        Visiting(w, ds[0]);
        var below := Collect(json, Visit(w, ds[0]), cs);
        if below.error.Some? then below
        else
          KeysDecide(w, below.walk);
          Collect(json, below.walk, ds[1..])
  }

  lemma SeenGrows(a: seq<Descriptor>, b: seq<Descriptor>)
    requires a <= b
    ensures Digests(a) <= Digests(b)
  {
  }

  // -------------------------------------------------------------- reachability

  predicate IsPath(json: Json, path: seq<Descriptor>)
  {
    path != [] && forall i :: 0 < i < |path| ==> path[i] in ChildrenOf(json, path[i - 1])
  }

  /** `d` is one of the roots, or below one of them. */
  ghost predicate Reachable(json: Json, roots: seq<Descriptor>, d: Descriptor)
  {
    exists path :: IsPath(json, path) && path[0] in roots && path[|path| - 1] == d
  }

  lemma RootIsReachable(json: Json, roots: seq<Descriptor>, d: Descriptor)
    requires d in roots
    ensures Reachable(json, roots, d)
  {
    assert IsPath(json, [d]);
  }

  lemma MoreRoots(json: Json, few: seq<Descriptor>, many: seq<Descriptor>, d: Descriptor)
    requires Reachable(json, few, d) && forall x :: x in few ==> x in many
    ensures Reachable(json, many, d)
  {
  }

  lemma ReachableBelow(json: Json, roots: seq<Descriptor>, root: Descriptor, d: Descriptor)
    requires root in roots && Reachable(json, ChildrenOf(json, root), d)
    ensures Reachable(json, roots, d)
  {
    var path :| IsPath(json, path) && path[0] in ChildrenOf(json, root) && path[|path| - 1] == d;
    var longer := [root] + path;
    assert forall i :: 0 < i < |longer| ==> longer[i] == path[i - 1];
    assert IsPath(json, longer) && longer[|longer| - 1] == d;
  }

  /** A visit of `d` fails: not uploaded, or a manifest that does not parse. */
  predicate Unusable(json: Json, disk: Disk, d: Descriptor)
  {
    !Available(disk, d.digest) || Children(json, d).None?
  }

  function Complaint(disk: Disk, d: Descriptor): Refusal
  {
    if Available(disk, d.digest) then BlobInvalid(d.digest) else BlobUnknown(d.digest)
  }

  // ------------------------------------------------------- what a walk changes

  /** The same entry, but for a media type filled in. */
  predicate Filled(before: BlobRef, after: BlobRef)
  {
    after == before || (before.mediaType.None? && after == before.(mediaType := after.mediaType))
  }

  /** The pin there was, or the one that belongs to the entry. */
  predicate PinStays(before: Disk, d: Digest, pin: Hash)
  {
    (d in before.pins && pin == before.pins[d]) || (d in before.index && pin == before.index[d].hash)
  }

  ghost predicate OnlyTyped(before: Disk, after: Disk)
  {
    && after.releases == before.releases && after.data == before.data
    && after.index.Keys == before.index.Keys
    && (forall d :: d in before.index ==> Filled(before.index[d], after.index[d]))
    && before.pins.Keys <= after.pins.Keys
    && forall d :: d in after.pins ==> PinStays(before, d, after.pins[d])
  }

  lemma TypedOnlyTypes(disk: Disk, d: Descriptor)
    requires d.digest in disk.index
    ensures OnlyTyped(disk, Typed(disk, d))
  {
  }

  lemma OnlyTypedTwice(a: Disk, b: Disk, c: Disk)
    requires OnlyTyped(a, b) && OnlyTyped(b, c)
    ensures OnlyTyped(a, c)
  {
    forall d | d in a.index ensures Filled(a.index[d], c.index[d]) {
      assert Filled(a.index[d], b.index[d]) && Filled(b.index[d], c.index[d]);
    }
    forall d | d in c.pins ensures PinStays(a, d, c.pins[d]) {
      assert PinStays(b, d, c.pins[d]);
      if d in a.index { assert Filled(a.index[d], b.index[d]); }
      if d in b.pins { assert PinStays(a, d, b.pins[d]); }
    }
  }

  /** Nothing in the index but missing media types changes. */
  lemma {:induction false} CollectOnlyTypes(json: Json, w: Walk, ds: seq<Descriptor>)
    ensures OnlyTyped(w.disk, Collect(json, w, ds).walk.disk)
    decreases Unvisited(w), |ds|
  {
    if ds != [] && Available(w.disk, ds[0].digest) {
      TypedOnlyTypes(w.disk, ds[0]);
      if ds[0].digest in Digests(w.seen) {
        KeysDecide(w, WithType(w, ds[0]));
        CollectOnlyTypes(json, WithType(w, ds[0]), ds[1..]);
        OnlyTypedTwice(w.disk, Typed(w.disk, ds[0]), Collect(json, w, ds).walk.disk);
      } else if Children(json, ds[0]).Some? {
        OnlyTypesBelow(json, w, ds);
      }
    }
  }

  lemma {:induction false} OnlyTypesBelow(json: Json, w: Walk, ds: seq<Descriptor>)
    requires ds != [] && !Unusable(json, w.disk, ds[0]) && ds[0].digest !in Digests(w.seen)
    ensures OnlyTyped(w.disk, Collect(json, w, ds).walk.disk)
    decreases Unvisited(w), |ds|, 0
  {
    var cs := ChildrenOf(json, ds[0]);
    var below := Collect(json, Visit(w, ds[0]), cs);
    TypedOnlyTypes(w.disk, ds[0]);
    Visiting(w, ds[0]);
    CollectOnlyTypes(json, Visit(w, ds[0]), cs);
    OnlyTypedTwice(w.disk, Visit(w, ds[0]).disk, below.walk.disk);
    if below.error.None? {
      KeysDecide(w, below.walk);
      CollectOnlyTypes(json, below.walk, ds[1..]);
      OnlyTypedTwice(w.disk, below.walk.disk, Collect(json, below.walk, ds[1..]).walk.disk);
    }
  }

  lemma SameComplaints(json: Json, before: Disk, after: Disk)
    requires OnlyTyped(before, after)
    ensures forall d :: Available(after, d) <==> Available(before, d)
    ensures forall d :: Unusable(json, after, d) <==> Unusable(json, before, d)
    ensures forall d :: Complaint(after, d) == Complaint(before, d)
  {
    forall d ensures Available(after, d) <==> Available(before, d) {
      if d in before.index { assert Filled(before.index[d], after.index[d]); }
    }
  }

  // ---------------------------------------------------------------- soundness

  /** Whatever the walk visits is reachable from its roots. */
  lemma {:induction false} CollectReaches(json: Json, w: Walk, ds: seq<Descriptor>, d: Descriptor)
    requires d in Collect(json, w, ds).walk.seen && d !in w.seen
    ensures Reachable(json, ds, d)
    decreases Unvisited(w), |ds|
  {
    if ds != [] && Available(w.disk, ds[0].digest) {
      TailMembers(ds);
      if ds[0].digest in Digests(w.seen) {
        KeysDecide(w, WithType(w, ds[0]));
        CollectReaches(json, WithType(w, ds[0]), ds[1..], d);
        MoreRoots(json, ds[1..], ds, d);
      } else if Children(json, ds[0]).Some? {
        var below := Collect(json, Visit(w, ds[0]), ChildrenOf(json, ds[0]));
        Visiting(w, ds[0]);
        KeysDecide(w, below.walk);
        if d == ds[0] {
          RootIsReachable(json, ds, d);
        } else if d in below.walk.seen {
          CollectReaches(json, Visit(w, ds[0]), ChildrenOf(json, ds[0]), d);
          ReachableBelow(json, ds, ds[0], d);
        } else {
          CollectReaches(json, below.walk, ds[1..], d);
          MoreRoots(json, ds[1..], ds, d);
        }
      }
    }
  }

  predicate DistinctDigests(ds: seq<Descriptor>)
  {
    forall i, j :: 0 <= i < j < |ds| ==> ds[i].digest != ds[j].digest
  }

  /** No digest twice. */
  lemma {:induction false} CollectsOnce(json: Json, w: Walk, ds: seq<Descriptor>)
    requires DistinctDigests(w.seen)
    ensures DistinctDigests(Collect(json, w, ds).walk.seen)
    decreases Unvisited(w), |ds|
  {
    if ds != [] && Available(w.disk, ds[0].digest) {
      if ds[0].digest in Digests(w.seen) {
        KeysDecide(w, WithType(w, ds[0]));
        CollectsOnce(json, WithType(w, ds[0]), ds[1..]);
      } else if Children(json, ds[0]).Some? {
        CollectsOnceBelow(json, w, ds);
      }
    }
  }

  lemma StillDistinct(seen: seq<Descriptor>, d: Descriptor)
    requires DistinctDigests(seen) && d.digest !in Digests(seen)
    ensures DistinctDigests(seen + [d])
  {
    forall i | 0 <= i < |seen| ensures seen[i].digest != d.digest { assert seen[i] in seen; }
  }

  lemma {:induction false} CollectsOnceBelow(json: Json, w: Walk, ds: seq<Descriptor>)
    requires ds != [] && !Unusable(json, w.disk, ds[0]) && ds[0].digest !in Digests(w.seen)
    requires DistinctDigests(w.seen)
    ensures DistinctDigests(Collect(json, w, ds).walk.seen)
    decreases Unvisited(w), |ds|, 0
  {
    var cs := ChildrenOf(json, ds[0]);
    var below := Collect(json, Visit(w, ds[0]), cs);
    Visiting(w, ds[0]);
    StillDistinct(w.seen, ds[0]);
    CollectsOnce(json, Visit(w, ds[0]), cs);
    if below.error.None? {
      KeysDecide(w, below.walk);
      CollectsOnce(json, below.walk, ds[1..]);
    }
  }

  /** A refusal names a reachable descriptor that is broken. */
  lemma {:induction false} RefusalIsReal(json: Json, w: Walk, ds: seq<Descriptor>) returns (d: Descriptor)
    requires Collect(json, w, ds).error.Some?
    ensures Reachable(json, ds, d) && Unusable(json, w.disk, d)
    ensures Collect(json, w, ds).error == Some(Complaint(w.disk, d))
    decreases Unvisited(w), |ds|
  {
    TailMembers(ds);
    if Unusable(json, w.disk, ds[0]) && (!Available(w.disk, ds[0].digest) || ds[0].digest !in Digests(w.seen)) {
      d := ds[0];
      RootIsReachable(json, ds, d);
    } else if ds[0].digest in Digests(w.seen) {
      KeysDecide(w, WithType(w, ds[0]));
      d := RefusalIsReal(json, WithType(w, ds[0]), ds[1..]);
      MoreRoots(json, ds[1..], ds, d);
    } else {
      d := RefusalBelow(json, w, ds);
    }
  }

  lemma {:induction false} RefusalBelow(json: Json, w: Walk, ds: seq<Descriptor>) returns (d: Descriptor)
    requires Collect(json, w, ds).error.Some? && ds != []
    requires !Unusable(json, w.disk, ds[0]) && ds[0].digest !in Digests(w.seen)
    ensures Reachable(json, ds, d) && Unusable(json, w.disk, d)
    ensures Collect(json, w, ds).error == Some(Complaint(w.disk, d))
    decreases Unvisited(w), |ds|, 0
  {
    var cs := ChildrenOf(json, ds[0]);
    var below := Collect(json, Visit(w, ds[0]), cs);
    Visiting(w, ds[0]);
    TypedOnlyTypes(w.disk, ds[0]);
    if below.error.Some? {
      d := RefusalIsReal(json, Visit(w, ds[0]), cs);
      SameComplaints(json, w.disk, Visit(w, ds[0]).disk);
      ReachableBelow(json, ds, ds[0], d);
    } else {
      CollectOnlyTypes(json, Visit(w, ds[0]), cs);
      OnlyTypedTwice(w.disk, Visit(w, ds[0]).disk, below.walk.disk);
      SameComplaints(json, w.disk, below.walk.disk);
      KeysDecide(w, below.walk);
      d := RefusalIsReal(json, below.walk, ds[1..]);
      TailMembers(ds);
      MoreRoots(json, ds[1..], ds, d);
    }
  }

  // -------------------------------------------------------------- completeness

  /** Everything `d` refers to has been visited. */
  predicate Covered(json: Json, seen: seq<Descriptor>, d: Descriptor)
  {
    Digests(ChildrenOf(json, d)) <= Digests(seen)
  }

  /** Is everything visited since `before` in order and covered by `after`? */
  ghost predicate Closed(json: Json, before: Walk, after: seq<Descriptor>, seen: seq<Descriptor>)
  {
    forall d :: d in after && d !in before.seen ==> Covered(json, seen, d) && !Unusable(json, before.disk, d)
  }

  lemma DigestsCons(ds: seq<Descriptor>)
    requires ds != []
    ensures Digests(ds) == {ds[0].digest} + Digests(ds[1..])
  {
    TailMembers(ds);
  }

  /** A walk that ends well has visited its roots, and whatever it visited was
      in order and has its children visited too. */
  lemma {:induction false} CollectCloses(json: Json, w: Walk, ds: seq<Descriptor>)
    requires Collect(json, w, ds).error.None?
    ensures var seen := Collect(json, w, ds).walk.seen;
            Digests(ds) <= Digests(seen) && Closed(json, w, seen, seen)
    decreases Unvisited(w), |ds|
  {
    if ds != [] {
      TypedOnlyTypes(w.disk, ds[0]);
      SameComplaints(json, w.disk, Typed(w.disk, ds[0]));
      DigestsCons(ds);
      if ds[0].digest in Digests(w.seen) {
        KeysDecide(w, WithType(w, ds[0]));
        CollectCloses(json, WithType(w, ds[0]), ds[1..]);
        SeenGrows(w.seen, Collect(json, w, ds).walk.seen);
      } else {
        CollectClosesBelow(json, w, ds);
      }
    }
  }

  lemma ClosedStep(json: Json, w: Walk, d: Descriptor, below: Walk, seen: seq<Descriptor>)
    requires !Unusable(json, w.disk, d) && Digests(ChildrenOf(json, d)) <= Digests(below.seen)
    requires forall x :: Unusable(json, below.disk, x) <==> Unusable(json, w.disk, x)
    requires forall x :: Unusable(json, Visit(w, d).disk, x) <==> Unusable(json, w.disk, x)
    requires Closed(json, Visit(w, d), below.seen, below.seen)
    requires Closed(json, below, seen, seen) && Visit(w, d).seen <= below.seen && below.seen <= seen
    ensures Closed(json, w, seen, seen) && d.digest in Digests(seen)
  {
    SeenGrows(below.seen, seen);
    assert Visit(w, d).seen[|w.seen|] == d;
    forall x | x in seen && x !in w.seen ensures Covered(json, seen, x) && !Unusable(json, w.disk, x) {
      if x in below.seen && x != d {
        assert x !in Visit(w, d).seen;
        assert Covered(json, below.seen, x);
      }
    }
  }

  /** The children of the first root, then the other roots. */
  lemma {:induction false} CollectClosesBelow(json: Json, w: Walk, ds: seq<Descriptor>)
    requires ds != [] && Collect(json, w, ds).error.None? && ds[0].digest !in Digests(w.seen)
    ensures var seen := Collect(json, w, ds).walk.seen;
            Digests(ds) <= Digests(seen) && Closed(json, w, seen, seen)
    decreases Unvisited(w), |ds|, 0
  {
    var d, cs := ds[0], ChildrenOf(json, ds[0]);
    var start := Visit(w, d);
    var below := Collect(json, start, cs).walk;
    var seen := Collect(json, below, ds[1..]).walk.seen;
    Visiting(w, d);
    CollectCloses(json, start, cs);
    KeysDecide(w, below);
    CollectCloses(json, below, ds[1..]);
    CollectOnlyTypes(json, start, cs);
    SameComplaints(json, start.disk, below.disk);
    TypedOnlyTypes(w.disk, d);
    SameComplaints(json, w.disk, start.disk);
    ClosedStep(json, w, d, below, seen);
    DigestsCons(ds);
  }

  /** Descriptors of one digest lead to the same descriptors. It holds when
      every digest is always referenced with one media type. */
  ghost predicate Agree(json: Json, roots: seq<Descriptor>)
  {
    forall a, b :: Reachable(json, roots, a) && Reachable(json, roots, b) && a.digest == b.digest ==>
      Children(json, a) == Children(json, b)
  }

  lemma OneMediaTypeAgrees(json: Json, roots: seq<Descriptor>)
    requires forall a, b :: Reachable(json, roots, a) && Reachable(json, roots, b) && a.digest == b.digest ==>
               a.mediaType == b.mediaType
    ensures Agree(json, roots)
  {
    forall a, b | Reachable(json, roots, a) && Reachable(json, roots, b) && a.digest == b.digest ensures a == b {}
  }

  lemma LinkIsVisited(json: Json, roots: seq<Descriptor>, seen: seq<Descriptor>, front: seq<Descriptor>,
                      last: Descriptor)
    requires Agree(json, roots) && IsPath(json, front) && front[0] in roots
    requires last in ChildrenOf(json, front[|front| - 1])
    requires front[|front| - 1].digest in Digests(seen)
    requires forall d :: d in seen ==> Reachable(json, roots, d) && Covered(json, seen, d)
    ensures last.digest in Digests(seen)
  {
    var parent := front[|front| - 1];
    var visited :| visited in seen && visited.digest == parent.digest;
    assert Reachable(json, roots, parent) && Covered(json, seen, visited);
    assert last in ChildrenOf(json, visited);
  }

  /** With agreement, a closed visit that has the roots has all of a path. */
  lemma {:induction false} PathIsVisited(json: Json, roots: seq<Descriptor>, seen: seq<Descriptor>,
                                         path: seq<Descriptor>)
    requires Agree(json, roots) && IsPath(json, path) && path[0] in roots
    requires Digests(roots) <= Digests(seen)
    requires forall d :: d in seen ==> Reachable(json, roots, d) && Covered(json, seen, d)
    ensures path[|path| - 1].digest in Digests(seen)
    decreases |path|
  {
    if |path| > 1 {
      var front, last := path[..|path| - 1], path[|path| - 1];
      PathIsVisited(json, roots, seen, front);
      LinkIsVisited(json, roots, seen, front, last);
    }
  }

  /** `collect_refs` succeeds exactly when everything reachable has been
      uploaded and every reachable manifest parses, and then returns exactly
      the digests reachable, each once. */
  lemma CollectIsClosure(json: Json, disk: Disk, roots: seq<Descriptor>)
    requires Agree(json, roots)
    ensures Collect(json, Walk(disk, []), roots).error.None? <==>
            forall d :: Reachable(json, roots, d) ==> !Unusable(json, disk, d)
    ensures var r := Collect(json, Walk(disk, []), roots);
            r.error.None? ==>
              && DistinctDigests(r.walk.seen)
              && forall x :: x in Digests(r.walk.seen) <==> exists d :: Reachable(json, roots, d) && d.digest == x
  {
    var r := Collect(json, Walk(disk, []), roots);
    if r.error.Some? {
      var _ := RefusalIsReal(json, Walk(disk, []), roots);
    } else {
      CollectsOnce(json, Walk(disk, []), roots);
      CollectCloses(json, Walk(disk, []), roots);
      forall d | d in r.walk.seen ensures Reachable(json, roots, d) {
        CollectReaches(json, Walk(disk, []), roots, d);
      }
      forall d | Reachable(json, roots, d) ensures d.digest in Digests(r.walk.seen) && !Unusable(json, disk, d) {
        var path :| IsPath(json, path) && path[0] in roots && path[|path| - 1] == d;
        PathIsVisited(json, roots, r.walk.seen, path);
        var visited :| visited in r.walk.seen && visited.digest == d.digest;
        assert !Unusable(json, disk, visited);
      }
    }
  }

  lemma VisitedAgain(json: Json, w: Walk, d: Descriptor)
    requires Available(w.disk, d.digest) && d.digest in Digests(w.seen)
    ensures Collect(json, w, [d]) == Outcome(WithType(w, d), None)
  {
    assert [d][1..] == [];
    assert Collect(json, WithType(w, d), []) == Outcome(WithType(w, d), None);
  }

  /** Without agreement children can be missed: a blob listed first as a layer
      and then as a manifest is visited once, as a layer. The walk is complete
      if and only if the manifest names nothing else. */
  lemma LayerThenManifest(json: Json, disk: Disk, layer: Descriptor, manifest: Descriptor)
    requires layer.digest == manifest.digest && !IsManifestType(layer.mediaType)
    requires !Unusable(json, disk, manifest)
    ensures var r := Collect(json, Walk(disk, []), [layer, manifest]);
            && r.error.None? && r.walk.seen == [layer]
            && (Covered(json, r.walk.seen, manifest) <==>
                forall c :: c in ChildrenOf(json, manifest) ==> c.digest == layer.digest)
  {
    var w := Walk(disk, []);
    var w1 := Visit(w, layer);
    assert [layer, manifest][1..] == [manifest] && [manifest][1..] == [];
    assert w1.seen == [layer] && Digests([layer]) == {layer.digest};
    TypedOnlyTypes(disk, layer);
    SameComplaints(json, disk, w1.disk);
    assert Collect(json, w1, []) == Outcome(w1, None);
    VisitedAgain(json, w1, manifest);
    assert Collect(json, w, [layer, manifest]) == Collect(json, w1, [manifest]);
    assert forall c :: c in ChildrenOf(json, manifest) ==> c.digest in Digests(ChildrenOf(json, manifest));
  }

  // --------------------------------------------------------------- collect_refs

  /** `refs` are the index entries of the visited digests, all with a media
      type. */
  ghost predicate Listed(index: map<Digest, BlobRef>, seen: seq<Descriptor>, refs: seq<BlobRef>)
  {
    && |refs| == |seen|
    && forall i :: 0 <= i < |seen| ==>
         seen[i].digest in index && refs[i] == index[seen[i].digest] && refs[i].mediaType.Some?
  }

  lemma ListedStays(before: Disk, after: Disk, seen: seq<Descriptor>, refs: seq<BlobRef>)
    requires OnlyTyped(before, after) && Listed(before.index, seen, refs)
    ensures Listed(after.index, seen, refs)
  {
    forall i | 0 <= i < |seen| ensures after.index[seen[i].digest] == refs[i] {
      assert Filled(before.index[seen[i].digest], after.index[seen[i].digest]);
    }
  }

  lemma ListedDigests(index: map<Digest, BlobRef>, seen: seq<Descriptor>, refs: seq<BlobRef>, d: Digest)
    requires Listed(index, seen, refs) && forall x :: x in index ==> index[x].digest == x
    ensures HasBlob(refs, d) <==> d in Digests(seen)
  {
    if HasBlob(refs, d) {
      var b :| b in refs && b.digest == d;
      var i :| 0 <= i < |refs| && refs[i] == b;
      assert seen[i] in seen;
    }
    if d in Digests(seen) {
      var i :| 0 <= i < |seen| && seen[i].digest == d;
      assert refs[i] in refs;
    }
  }

  /** The entry of an uploaded blob, its media type filled in. */
  method LookUp(node: Node, d: Descriptor) returns (r: Option<BlobRef>)
    requires node.Valid()
    modifies node`pins, node`index
    ensures node.Valid()
    ensures r.Some? <==> Available(old(node.View()), d.digest)
    ensures r.None? ==> node.View() == old(node.View())
    ensures r.Some? ==> node.View() == Typed(old(node.View()), d)
                        && r.value == node.index[d.digest] && r.value.mediaType.Some?
                        && var b := old(node.index)[d.digest];
                           r.value == if b.mediaType.Some? then b else b.(mediaType := Some(d.mediaType))
  {
    if d.digest !in node.index || node.index[d.digest].hash !in node.data { return None; }
    var b := node.index[d.digest];
    if b.mediaType.None? {
      b := b.(mediaType := Some(d.mediaType));
      node.RecordBlob(b);
    }
    r := Some(b);
  }

  lemma ListedNext(before: Disk, d: Descriptor, seen: seq<Descriptor>, refs: seq<BlobRef>)
    requires Available(before, d.digest) && Listed(before.index, seen, refs) && WellFiled(before)
    ensures Listed(Typed(before, d).index, seen, refs)
    ensures HasBlob(refs, d.digest) <==> d.digest in Digests(seen)
    ensures Listed(Typed(before, d).index, seen + [d], refs + [Typed(before, d).index[d.digest]])
  {
    TypedOnlyTypes(before, d);
    ListedStays(before, Typed(before, d), seen, refs);
    ListedDigests(before.index, seen, refs, d.digest);
  }

  /** The walk after `so`, unless that ended it. */
  function GoOn(json: Json, so: Outcome, ds: seq<Descriptor>): Outcome
  {
    if so.error.Some? then so else Collect(json, so.walk, ds)
  }

  lemma CollectAlone(json: Json, w: Walk, d: Descriptor)
    ensures Collect(json, w, [d])
         == if !Available(w.disk, d.digest) then Outcome(w, Some(BlobUnknown(d.digest)))
            else if d.digest in Digests(w.seen) then Outcome(WithType(w, d), None)
            else match Children(json, d)
                 case None => Outcome(WithType(w, d), Some(BlobInvalid(d.digest)))
                 case Some(cs) => Collect(json, Visit(w, d), cs)
  {
    assert [d][1..] == [];
    assert forall x: Walk :: Collect(json, x, []) == Outcome(x, None);
  }

  lemma FirstThenRest(json: Json, w: Walk, ds: seq<Descriptor>, i: nat)
    requires i < |ds|
    ensures Collect(json, w, ds[i..]) == GoOn(json, Collect(json, w, [ds[i]]), ds[i + 1..])
    ensures Unvisited(Collect(json, w, [ds[i]]).walk) <= Unvisited(w)
  {
    CollectAlone(json, w, ds[i]);
    assert ds[i..][1..] == ds[i + 1..];
    KeysDecide(w, Collect(json, w, [ds[i]]).walk);
  }

  /** `collect_refs`: refuses at the first blob that is missing or does not
      parse; `seen` and `visited` are the descriptors behind `out` and
      `refs`. */
  method CollectRefs(node: Node, json: Json, m: Manifest, out: seq<BlobRef>, ghost seen: seq<Descriptor>)
    returns (refs: seq<BlobRef>, error: Option<Refusal>, ghost visited: seq<Descriptor>)
    requires node.Valid() && Listed(node.index, seen, out)
    modifies node`pins, node`index
    ensures node.Valid() && Listed(node.index, visited, refs)
    ensures Collect(json, Walk(old(node.View()), seen), m.Referenced())
         == Outcome(Walk(node.View(), visited), error)
    decreases Unvisited(Walk(node.View(), seen)), 1
  {
    ghost var start := Walk(node.View(), seen);
    var ds := m.Referenced();
    refs, error, visited := out, None, seen;
    var i := 0;
    while i < |ds| && error.None?
      invariant 0 <= i <= |ds|
      invariant node.Valid() && Listed(node.index, visited, refs)
      invariant Unvisited(Walk(node.View(), visited)) <= Unvisited(start)
      invariant Collect(json, start, ds) == GoOn(json, Outcome(Walk(node.View(), visited), error), ds[i..])
    {
      FirstThenRest(json, Walk(node.View(), visited), ds, i);
      refs, error, visited := CollectOne(node, json, ds[i], refs, visited);
      i := i + 1;
    }
  }

  /** One round of the loop. */
  method CollectOne(node: Node, json: Json, d: Descriptor, out: seq<BlobRef>, ghost seen: seq<Descriptor>)
    returns (refs: seq<BlobRef>, error: Option<Refusal>, ghost visited: seq<Descriptor>)
    requires node.Valid() && Listed(node.index, seen, out)
    modifies node`pins, node`index
    ensures node.Valid() && Listed(node.index, visited, refs)
    ensures Collect(json, Walk(old(node.View()), seen), [d]) == Outcome(Walk(node.View(), visited), error)
    decreases Unvisited(Walk(node.View(), seen)), 0
  {
    ghost var w := Walk(node.View(), seen);
    CollectAlone(json, w, d);
    var r := LookUp(node, d);
    if r.None? { return out, Some(BlobUnknown(d.digest)), seen; }
    ListedNext(w.disk, d, seen, out);
    if HasBlob(out, d.digest) { return out, None, seen; }
    if IsManifestType(d.mediaType) {
      var child := ParseManifest(json, r.value.hash.content, Some(d.mediaType));
      if child.None? { return out, Some(BlobInvalid(d.digest)), seen; }
      Visiting(w, d);
      refs, error, visited := CollectRefs(node, json, child.value, out + [r.value], seen + [d]);
    } else {
      refs, error, visited := out + [r.value], None, seen + [d];
    }
  }

  // --------------------------------------------------------------- manifest_put

  datatype Target = ByDigest(digest: Digest) | ByTag(tag: string)

  /** A push, its repository already resolved to a publisher and a valid
      name. */
  datatype Put = Put(
    publisher: PublisherId, name: string, target: Target, contentType: Option<string>, bytes: Content)
  {
    predicate Fits()
    {
      match target
      case ByDigest(d) => d == Sha256(bytes)
      case ByTag(t) => ValidTag(t)
    }

    function MediaType(m: Manifest): string
    {
      match contentType case Some(mt) => mt case None => m.MediaType()
    }

    /** The release that announces the manifest `ref` with everything it
        references. */
    function Announced(me: PublisherId, now: nat, ref: BlobRef, refs: seq<BlobRef>): Release
      requires target.ByTag?
    {
      Sign(me, now, Release(publisher, name, target.tag, ref, refs, 0, []))
    }
  }

  /** Why a push is refused, if it is. */
  function Refused(me: PublisherId, json: Json, disk: Disk, req: Put): Option<Refusal>
  {
    if req.publisher != me then Some(Denied)
    else
      match ParseManifest(json, req.bytes, req.contentType)
      case None => Some(ManifestInvalid)
      case Some(m) =>
        var c := Collect(json, Walk(disk, []), m.Referenced());
        if c.error.Some? then c.error
        else if req.Fits() then None
        else if req.target.ByDigest? then Some(DigestInvalid) else Some(TagInvalid)
  }

  function AttachmentOf(me: PublisherId, req: Put, m: Manifest, clock: Key -> nat, ref: BlobRef, refs: seq<BlobRef>)
    : Attachment
    requires m.subject.Some?
  {
    Attachment(me, m.subject.value.digest, Referrer(ref.digest, req.MediaType(m)), [ref] + refs, clock)
  }

  /** The records once our releases of the manifest's subject are updated. */
  function Subjected(me: PublisherId, releases: map<Key, Release>, req: Put, m: Manifest, clock: Key -> nat,
                     ref: BlobRef, refs: seq<BlobRef>): map<Key, Release>
  {
    if m.subject.Some? then UpdateAll(AttachmentOf(me, req, m, clock, ref, refs), releases) else releases
  }

  /** A pushed manifest with a subject becomes a referrer of exactly our
      releases of that subject that do not have it yet; each then names the
      manifest and everything collected for it, and nothing else changes. */
  lemma SubjectedExactly(me: PublisherId, releases: map<Key, Release>, req: Put, m: Manifest, clock: Key -> nat,
                         ref: BlobRef, refs: seq<BlobRef>, k: Key)
    requires k in releases
    ensures k in Subjected(me, releases, req, m, clock, ref, refs)
    ensures var before, after := releases[k], Subjected(me, releases, req, m, clock, ref, refs)[k];
            if m.subject.Some? && before.publisher == me && before.manifest.digest == m.subject.value.digest
               && forall x :: x in before.referrers ==> x.digest != ref.digest
            then
              && after.publisher == before.publisher && after.name == before.name && after.tag == before.tag
              && after.manifest == before.manifest && before.blobs <= after.blobs && after.timestamp > before.timestamp
              && |after.referrers| == |before.referrers| + 1 && before.referrers <= after.referrers
              && after.referrers[|before.referrers|].digest == ref.digest
              && (exists x :: x in after.blobs && x.digest == ref.digest)
              && (forall b :: b in refs ==> exists x :: x in after.blobs && x.digest == b.digest)
              && (forall b :: b in after.blobs ==> b in before.blobs || b == ref || b in refs)
            else after == before
  {
    if m.subject.Some? {
      var a := AttachmentOf(me, req, m, clock, ref, refs);
      AttachIsExact(a, releases, k);
      assert ref in a.blobs && forall b :: b in refs ==> b in a.blobs;
    }
  }

  /** The records after an accepted push: our releases of the manifest's
      subject updated, then the release under the pushed tag. */
  function Records(me: PublisherId, releases: map<Key, Release>, req: Put, m: Manifest, now: nat, clock: Key -> nat,
                   ref: BlobRef, refs: seq<BlobRef>): map<Key, Release>
  {
    var attached := Subjected(me, releases, req, m, clock, ref, refs);
    if req.target.ByTag? then PutRelease(attached, req.Announced(me, now, ref, refs)) else attached
  }

  /** The disk, records aside, after it: the closure's blobs typed and the
      manifest itself stored. */
  ghost predicate Stored(json: Json, before: Disk, after: Disk, m: Manifest, ref: BlobRef, refs: seq<BlobRef>)
  {
    var c := Collect(json, Walk(before, []), m.Referenced());
    && c.error.None? && Listed(c.walk.disk.index, c.walk.seen, refs)
    && after.(releases := before.releases)
       == Machine.WithEntry(c.walk.disk.(data := before.data + {ref.hash}), ref)
  }

  /** The checks of `manifest_put`, in its order. */
  method CheckPut(node: Node, json: Json, req: Put) returns (r: Result<Manifest, Refusal>, refs: seq<BlobRef>)
    requires node.Valid()
    modifies node`pins, node`index
    ensures node.Valid() && OnlyTyped(old(node.View()), node.View())
    ensures r.Err? <==> Refused(node.me, json, old(node.View()), req).Some?
    ensures r.Err? ==> Some(r.error) == Refused(node.me, json, old(node.View()), req)
    ensures r.Ok? ==>
              var c := Collect(json, Walk(old(node.View()), []), r.value.Referenced());
              && ParseManifest(json, req.bytes, req.contentType) == Some(r.value)
              && c.error.None? && node.View() == c.walk.disk && Listed(node.index, c.walk.seen, refs)
  {
    if req.publisher != node.me { return Err(Denied), []; }
    var m := ParseManifest(json, req.bytes, req.contentType);
    if m.None? { return Err(ManifestInvalid), []; }
    CollectOnlyTypes(json, Walk(node.View(), []), m.value.Referenced());
    var error;
    ghost var visited;
    refs, error, visited := CollectRefs(node, json, m.value, [], []);
    if error.Some? { return Err(error.value), refs; }
    if req.target.ByDigest? {
      if req.target.digest != Sha256(req.bytes) { return Err(DigestInvalid), refs; }
    } else if !ValidTag(req.target.tag) {
      return Err(TagInvalid), refs;
    }
    r := Ok(m.value);
  }

  lemma PutFiled(disk: Disk, r: Release)
    requires WellFiled(disk) && ValidKey(KeyOf(r))
    ensures WellFiled(disk.(releases := PutRelease(disk.releases, r)))
  {
  }

  /** Attach to the subject, then announce the tag. */
  method Announce(node: Node, req: Put, m: Manifest, now: nat, clock: Key -> nat, ref: BlobRef, refs: seq<BlobRef>)
    requires node.Valid() && req.publisher == node.me && ValidName(req.name)
    requires req.target.ByTag? ==> ValidTag(req.target.tag)
    modifies node`releases
    ensures node.Valid()
    ensures node.releases == Records(node.me, old(node.releases), req, m, now, clock, ref, refs)
  {
    if m.subject.Some? {
      var _ := node.AttachReferrer(AttachmentOf(node.me, req, m, clock, ref, refs));
    }
    if req.target.ByTag? {
      PutFiled(node.View(), req.Announced(node.me, now, ref, refs));
      var _ := node.Publish(req.Announced(node.me, now, ref, refs));
    }
  }

  /** What a push leaves under its tag. */
  lemma RecordedAs(me: PublisherId, releases: map<Key, Release>, req: Put, m: Manifest, now: nat, clock: Key -> nat,
                   ref: BlobRef, refs: seq<BlobRef>)
    requires req.target.ByTag? && req.publisher == me
    ensures var prior := Subjected(me, releases, req, m, clock, ref, refs);
            var after := Records(me, releases, req, m, now, clock, ref, refs);
            var k := Key(req.publisher, req.name, req.target.tag);
            && k in after && after - {k} == prior - {k}
            && (var rec := after[k];
                if k !in prior || now > prior[k].timestamp
                   || (now == prior[k].timestamp && ref.digest != prior[k].manifest.digest)
                then
                  && rec.publisher == req.publisher && rec.name == req.name && rec.tag == req.target.tag
                  && rec.manifest == ref && rec.blobs == refs
                  && rec.timestamp == now && rec.referrers == []
                else rec == prior[k])
  {
  }

  /** `manifest_put`: nothing is recorded unless the whole closure is there. */
  method ManifestPut(node: Node, json: Json, req: Put, now: nat, clock: Key -> nat)
    returns (r: Result<BlobRef, Refusal>, refs: seq<BlobRef>)
    requires node.Valid() && ValidName(req.name)
    modifies node`releases, node`pins, node`index, node`data
    ensures node.Valid()
    ensures r.Err? <==> Refused(node.me, json, old(node.View()), req).Some?
    ensures r.Err? ==> Some(r.error) == Refused(node.me, json, old(node.View()), req)
                       && OnlyTyped(old(node.View()), node.View())
    ensures r.Ok? ==>
              var m := ParseManifest(json, req.bytes, req.contentType);
              && m.Some? && r.value.digest == Sha256(req.bytes) && Consistent(r.value)
              && Stored(json, old(node.View()), node.View(), m.value, r.value, refs)
              && node.releases == Records(node.me, old(node.releases), req, m.value, now, clock, r.value, refs)
              && r.value.mediaType.Some?
              && (req.contentType.Some? ==> r.value.mediaType == req.contentType)
              && (req.contentType.None? && m.value.mediaType.Some? ==> r.value.mediaType == m.value.mediaType)
              && (req.contentType.None? && m.value.mediaType.None? ==>
                    r.value.mediaType.value == if m.value.Image? then "application/vnd.oci.image.manifest.v1+json"
                                               else "application/vnd.oci.image.index.v1+json")
    ensures r.Ok? && req.target.ByTag? ==>
              var prior := Subjected(node.me, old(node.releases), req,
                                     ParseManifest(json, req.bytes, req.contentType).value, clock, r.value, refs);
              var k := Key(req.publisher, req.name, req.target.tag);
              && k in node.releases
              && (var rec := node.releases[k];
                  if k !in prior || now > prior[k].timestamp
                     || (now == prior[k].timestamp && Sha256(req.bytes) != prior[k].manifest.digest)
                  then
                    && rec.publisher == req.publisher && rec.name == req.name && rec.tag == req.target.tag
                    && rec.manifest == r.value && rec.blobs == refs
                    && rec.timestamp == now && rec.referrers == []
                  else rec == prior[k])
              && node.releases - {k} == prior - {k}
    ensures r.Ok? && req.target.ByDigest? ==>
              node.releases == Subjected(node.me, old(node.releases), req,
                                         ParseManifest(json, req.bytes, req.contentType).value, clock, r.value, refs)
  {
    var checked;
    checked, refs := CheckPut(node, json, req);
    if checked.Err? { return Err(checked.error), refs; }
    var m := checked.value;
    var stored := node.PutBlobBytes(req.bytes, Some(Sha256(req.bytes)), Some(req.MediaType(m)));
    if req.target.ByTag? { RecordedAs(node.me, node.releases, req, m, now, clock, stored.value, refs); }
    Announce(node, req, m, now, clock, stored.value, refs);
    r := Ok(stored.value);
  }

  /** Which pushes are accepted, when descriptors of one digest agree: our own,
      of text that parses as a manifest, all of whose closure is uploaded and
      parses, under a valid tag or under the digest of its bytes. */
  lemma PushAcceptedExactlyWhen(me: PublisherId, json: Json, disk: Disk, req: Put)
    requires var m := ParseManifest(json, req.bytes, req.contentType); m.Some? ==> Agree(json, m.value.Referenced())
    ensures Refused(me, json, disk, req) == None <==>
            && req.publisher == me
            && (req.target.ByDigest? ==> req.target.digest == Sha256(req.bytes))
            && (req.target.ByTag? ==> ValidTag(req.target.tag))
            && var m := ParseManifest(json, req.bytes, req.contentType);
               && m.Some?
               && forall d :: Reachable(json, m.value.Referenced(), d) ==>
                    && d.digest in disk.index && disk.index[d.digest].hash in disk.data
                    && Children(json, d).Some?
  {
    var m := ParseManifest(json, req.bytes, req.contentType);
    if m.Some? {
      CollectIsClosure(json, disk, m.value.Referenced());
      forall d ensures Unusable(json, disk, d) <==>
        !(d.digest in disk.index && disk.index[d.digest].hash in disk.data && Children(json, d).Some?)
      {
      }
    }
  }

  /** The refusals, for any push: the owner is checked first, then the text,
      then the closure, then the target. */
  lemma RefusedInOrder(me: PublisherId, json: Json, disk: Disk, req: Put)
    ensures Refused(me, json, disk, req) == Some(Denied) <==> req.publisher != me
    ensures Refused(me, json, disk, req) == Some(ManifestInvalid) <==>
            req.publisher == me && ParseManifest(json, req.bytes, req.contentType).None?
    ensures Refused(me, json, disk, req) == Some(DigestInvalid) ==>
            req.target.ByDigest? && req.target.digest != Sha256(req.bytes)
    ensures Refused(me, json, disk, req) == Some(TagInvalid) ==> req.target.ByTag? && !ValidTag(req.target.tag)
    ensures var r := Refused(me, json, disk, req);
            var m := ParseManifest(json, req.bytes, req.contentType);
            (r.Some? && (r.value.BlobUnknown? || r.value.BlobInvalid?)) ==>
              m.Some?
              && (exists d :: Reachable(json, m.value.Referenced(), d) && d.digest == r.value.digest
                    && (if r.value.BlobUnknown? then !(d.digest in disk.index && disk.index[d.digest].hash in disk.data)
                        else Children(json, d).None?))
  {
    var m := ParseManifest(json, req.bytes, req.contentType);
    if req.publisher == me && m.Some? && Collect(json, Walk(disk, []), m.value.Referenced()).error.Some? {
      var d := RefusalIsReal(json, Walk(disk, []), m.value.Referenced());
    }
  }

  /** One collected reference: consistent, indexed, and its data there. */
  lemma CollectedRef(json: Json, disk: Disk, roots: seq<Descriptor>, refs: seq<BlobRef>, b: BlobRef)
    requires WellFiled(disk) && b in refs
    requires var c := Collect(json, Walk(disk, []), roots);
             c.error.None? && Listed(c.walk.disk.index, c.walk.seen, refs)
    ensures Consistent(b) && b.digest in Collect(json, Walk(disk, []), roots).walk.disk.index && b.hash in disk.data
    ensures b.digest in Digests(Collect(json, Walk(disk, []), roots).walk.seen)
  {
    var w := Walk(disk, []);
    var c := Collect(json, w, roots).walk;
    CollectCloses(json, w, roots);
    CollectOnlyTypes(json, w, roots);
    var i :| 0 <= i < |refs| && refs[i] == b;
    var d := c.seen[i];
    assert d in c.seen && !Unusable(json, disk, d);
    assert Filled(disk.index[d.digest], c.disk.index[d.digest]);
  }

  lemma RefsOfSeen(json: Json, disk: Disk, roots: seq<Descriptor>, refs: seq<BlobRef>, x: Digest)
    requires WellFiled(disk)
    requires var c := Collect(json, Walk(disk, []), roots);
             c.error.None? && Listed(c.walk.disk.index, c.walk.seen, refs)
    ensures HasBlob(refs, x) <==> x in Digests(Collect(json, Walk(disk, []), roots).walk.seen)
  {
    var c := Collect(json, Walk(disk, []), roots).walk;
    CollectOnlyTypes(json, Walk(disk, []), roots);
    forall d | d in c.disk.index ensures c.disk.index[d].digest == d {
      assert Filled(disk.index[d], c.disk.index[d]);
    }
    ListedDigests(c.disk.index, c.seen, refs, x);
  }

  /** A release announced by an accepted push passes the checks that make it
      safe to publish, and names exactly the manifest's closure. */
  lemma AnnouncedIsTheClosure(json: Json, before: Disk, after: Disk, me: PublisherId, req: Put, m: Manifest, now: nat,
                              ref: BlobRef, refs: seq<BlobRef>)
    requires WellFiled(before) && Stored(json, before, after, m, ref, refs)
    requires Consistent(ref) && req.publisher == me && ValidName(req.name)
    requires req.target.ByTag? && ValidTag(req.target.tag)
    ensures Machine.PushChecks(me, Machine.System(after, map[], Machine.NoWriter), req.Announced(me, now, ref, refs))
    ensures Agree(json, m.Referenced()) ==>
              forall x :: HasBlob(refs, x) <==> exists d :: Reachable(json, m.Referenced(), d) && d.digest == x
  {
    var roots := m.Referenced();
    var c := Collect(json, Walk(before, []), roots).walk;
    CollectOnlyTypes(json, Walk(before, []), roots);
    forall b | b in AllBlobs(req.Announced(me, now, ref, refs))
      ensures Consistent(b) && b.digest in after.index && b.hash in after.data
    {
      if b in refs { CollectedRef(json, before, roots, refs, b); }
    }
    if Agree(json, roots) {
      CollectIsClosure(json, before, roots);
      forall x ensures HasBlob(refs, x) <==> x in Digests(c.seen) {
        RefsOfSeen(json, before, roots, refs, x);
      }
    }
  }

  lemma PartsAreRoots(m: Manifest)
    ensures match m
            case Image(_, _, config, layers) =>
              config in m.Referenced() && forall d :: d in layers ==> d in m.Referenced()
            case Index(_, _, manifests) => forall d :: d in manifests ==> d in m.Referenced()
  {
  }

  lemma PartsAreNamed(json: Json, disk: Disk, roots: seq<Descriptor>, refs: seq<BlobRef>, d: Descriptor)
    requires WellFiled(disk) && d in roots
    requires var c := Collect(json, Walk(disk, []), roots);
             c.error.None? && Listed(c.walk.disk.index, c.walk.seen, refs)
    ensures exists b :: b in refs && b.digest == d.digest
  {
    CollectCloses(json, Walk(disk, []), roots);
    RefsOfSeen(json, disk, roots, refs, d.digest);
    assert HasBlob(refs, d.digest);
  }

  /** A record that lists what was collected names every part of the manifest. */
  lemma RecordNamesItsParts(json: Json, before: Disk, after: Disk, m: Manifest, ref: BlobRef, rec: Release)
    requires WellFiled(before) && Stored(json, before, after, m, ref, rec.blobs)
    ensures match m
            case Image(_, _, config, layers) =>
              && (exists b :: b in rec.blobs && b.digest == config.digest)
              && forall d :: d in layers ==> exists b :: b in rec.blobs && b.digest == d.digest
            case Index(_, _, manifests) =>
              forall d :: d in manifests ==> exists b :: b in rec.blobs && b.digest == d.digest
  {
    var roots := m.Referenced();
    PartsAreRoots(m);
    forall d | d in roots ensures exists b :: b in rec.blobs && b.digest == d.digest {
      PartsAreNamed(json, before, roots, rec.blobs, d);
    }
  }

  /** And, with agreement, exactly the digests reachable from it. */
  lemma RecordNamesTheClosure(json: Json, before: Disk, after: Disk, m: Manifest, ref: BlobRef, rec: Release)
    requires WellFiled(before) && Stored(json, before, after, m, ref, rec.blobs) && Agree(json, m.Referenced())
    ensures forall d :: Reachable(json, m.Referenced(), d) ==> exists b :: b in rec.blobs && b.digest == d.digest
    ensures forall b :: b in rec.blobs ==> exists d :: Reachable(json, m.Referenced(), d) && d.digest == b.digest
  {
    var roots := m.Referenced();
    var seen := Collect(json, Walk(before, []), roots).walk.seen;
    CollectIsClosure(json, before, roots);
    forall d | Reachable(json, roots, d) ensures exists b :: b in rec.blobs && b.digest == d.digest {
      RefsOfSeen(json, before, roots, rec.blobs, d.digest);
      assert d.digest in Digests(seen) && HasBlob(rec.blobs, d.digest);
    }
    forall b | b in rec.blobs ensures exists d :: Reachable(json, roots, d) && d.digest == b.digest {
      CollectedRef(json, before, roots, rec.blobs, b);
      assert b.digest in Digests(seen);
    }
  }

  /** So does every release of the subject that the same push re-announces, if
      it was complete. */
  lemma ReannouncedIsSafe(json: Json, before: Disk, after: Disk, me: PublisherId, req: Put, m: Manifest,
                          clock: Key -> nat, ref: BlobRef, refs: seq<BlobRef>, r: Release)
    requires WellFiled(before) && Stored(json, before, after, m, ref, refs) && Consistent(ref)
    requires ValidKey(KeyOf(r)) && ConsistentRelease(r) && Complete(before, r)
    requires m.subject.Some? && AttachmentOf(me, req, m, clock, ref, refs).AppliesTo(r)
    ensures Machine.PushChecks(me, Machine.System(after, map[], Machine.NoWriter),
                               AttachmentOf(me, req, m, clock, ref, refs).Attached(r))
  {
    var a := AttachmentOf(me, req, m, clock, ref, refs);
    AttachedLands(a, r);
    CollectOnlyTypes(json, Walk(before, []), m.Referenced());
    forall b | b in AllBlobs(a.Attached(r)) ensures Consistent(b) && b.digest in after.index && b.hash in after.data {
      assert b in AllBlobs(r) || b == ref || b in refs;
      if b in refs {
        CollectedRef(json, before, m.Referenced(), refs, b);
      } else if b in AllBlobs(r) {
        assert Recorded(before, b);
      }
    }
  }
}
