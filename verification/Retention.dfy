/** What a node keeps: releases inside their windows and the blobs those
    releases name (crates/ocid/src/node.rs, `retained_set`, `gc`,
    `enforce_window`, `sweep_blobs_locked`), as functions of the disk. */
module Retention {
  import opened Text
  import opened Identity
  import opened Windows
  import opened Policies
  import opened Releases
  import Convergence

  /** Release records, index entries, pins (`blob:<sha256>` tags) and the data
      in the blob store. */
  datatype Disk = Disk(
    releases: map<Key, Release>,
    index: map<Digest, BlobRef>,
    pins: map<Digest, Hash>,
    data: set<Hash>)

  /** Records sit under their own keys; entries and pins belong to the content
      they are filed under. */
  predicate WellFiled(disk: Disk)
  {
    && (forall k :: k in disk.releases ==> KeyOf(disk.releases[k]) == k && ValidKey(k))
    && (forall d :: d in disk.index ==> disk.index[d].digest == d && Consistent(disk.index[d]))
    && (forall d :: d in disk.pins ==> disk.pins[d] == HashOf(d))
  }

  /** Removing records, entries or pins keeps a disk well filed. */
  lemma WellFiledAfterRemovals(disk: Disk, disk': Disk)
    requires WellFiled(disk)
    requires forall k :: k in disk'.releases ==> k in disk.releases && disk'.releases[k] == disk.releases[k]
    requires forall d :: d in disk'.index ==> d in disk.index && disk'.index[d] == disk.index[d]
    requires forall d :: d in disk'.pins ==> d in disk.pins && disk'.pins[d] == disk.pins[d]
    ensures WellFiled(disk')
  {
  }

  // ----------------------------------------------------------------- sweeping

  /** Hashes some release names. */
  function Live(releases: map<Key, Release>): set<Hash>
  {
    set k, b | k in releases && b in AllBlobs(releases[k]) :: b.hash
  }

  function Dead(disk: Disk, live: set<Hash>): set<Digest>
  {
    set d | d in disk.pins && disk.pins[d] !in live
  }

  /** The disk after a sweep. */
  function Swept(disk: Disk, live: set<Hash>): Disk
  {
    var dead := Dead(disk, live);
    disk.(pins := disk.pins - dead,
          index := map d | d in disk.index && d !in dead && disk.index[d].hash in live :: disk.index[d])
  }

  function SizeAt(index: map<Digest, BlobRef>, d: Digest): nat
  {
    if d in index then index[d].size else 0
  }

  /** Indexed size of a set of digests. */
  ghost function SizeOf(index: map<Digest, BlobRef>, s: set<Digest>): nat
  {
    if s == {} then 0 else var d :| d in s; SizeAt(index, d) + SizeOf(index, s - {d})
  }

  lemma {:induction false} SizeOfTake(index: map<Digest, BlobRef>, s: set<Digest>, d: Digest)
    requires d in s
    ensures SizeOf(index, s) == SizeAt(index, d) + SizeOf(index, s - {d})
    decreases |s|
  {
    var x :| x in s && SizeOf(index, s) == SizeAt(index, x) + SizeOf(index, s - {x});
    if x != d {
      SizeOfTake(index, s - {x}, d);
      SizeOfTake(index, s - {d}, x);
      assert s - {x} - {d} == s - {d} - {x};
    }
  }

  lemma SizeOfGrow(index: map<Digest, BlobRef>, s: set<Digest>, d: Digest)
    requires d !in s
    ensures SizeOf(index, s + {d}) == SizeOf(index, s) + if d in index then index[d].size else 0
    ensures |s + {d}| == |s| + 1 && SizeOf(index, {}) == 0
  {
    SizeOfTake(index, s + {d}, d);
    assert s + {d} - {d} == s;
  }

  lemma {:induction false} SizeOfUnion(index: map<Digest, BlobRef>, a: set<Digest>, b: set<Digest>)
    requires a !! b
    ensures SizeOf(index, a + b) == SizeOf(index, a) + SizeOf(index, b)
    decreases |a|
  {
    if a == {} {
      assert a + b == b;
    } else {
      var d :| d in a;
      SizeOfTake(index, a, d);
      SizeOfTake(index, a + b, d);
      assert a + b - {d} == (a - {d}) + b;
      SizeOfUnion(index, a - {d}, b);
    }
  }

  lemma {:induction false} SizeOfSame(index: map<Digest, BlobRef>, index': map<Digest, BlobRef>, s: set<Digest>)
    requires forall d :: d in s ==> SizeAt(index, d) == SizeAt(index', d)
    ensures SizeOf(index, s) == SizeOf(index', s)
    decreases |s|
  {
    if s != {} {
      var d :| d in s;
      SizeOfTake(index, s, d);
      SizeOfTake(index', s, d);
      SizeOfSame(index, index', s - {d});
    }
  }

  /** Does some release name the hash, as its manifest or as one of its
      blobs? */
  ghost predicate Named(releases: map<Key, Release>, h: Hash)
  {
    exists k :: k in releases
      && (releases[k].manifest.hash == h || exists b :: b in releases[k].blobs && b.hash == h)
  }

  lemma LiveIsNamed(releases: map<Key, Release>)
    ensures forall h :: h in Live(releases) <==> Named(releases, h)
  {
    forall h | Named(releases, h) ensures h in Live(releases) {
      var k :| k in releases
               && (releases[k].manifest.hash == h || exists b :: b in releases[k].blobs && b.hash == h);
      if releases[k].manifest.hash == h {
        assert releases[k].manifest in AllBlobs(releases[k]);
      } else {
        var b :| b in releases[k].blobs && b.hash == h;
        assert b in AllBlobs(releases[k]);
      }
    }
  }

  /** A sweep keeps exactly the pins and index entries of contents that a
      remaining release names; the pins it drops are the dead ones, and it
      leaves records and data alone. */
  lemma SweepKeepsLive(disk: Disk)
    requires WellFiled(disk)
    ensures var swept := Swept(disk, Live(disk.releases));
            && WellFiled(swept) && swept.releases == disk.releases && swept.data == disk.data
            && (forall d :: d in swept.pins <==> d in disk.pins && Named(disk.releases, Blake3(d.content)))
            && (forall d :: d in swept.index <==> d in disk.index && Named(disk.releases, Blake3(d.content)))
            && (forall d :: d in swept.index ==> swept.index[d] == disk.index[d])
            && forall d :: d in Dead(disk, Live(disk.releases)) <==> d in disk.pins && d !in swept.pins
  {
    LiveIsNamed(disk.releases);
  }

  /** Bytes are conserved: the indexed size of the pins before a sweep is what
      it frees plus the indexed size of the pins after it. */
  lemma SweepConservesBytes(disk: Disk, live: set<Hash>)
    requires WellFiled(disk)
    ensures SizeOf(disk.index, disk.pins.Keys)
         == SizeOf(disk.index, Dead(disk, live)) + SizeOf(Swept(disk, live).index, Swept(disk, live).pins.Keys)
  {
    var dead, kept := Dead(disk, live), Swept(disk, live).pins.Keys;
    assert disk.pins.Keys == dead + kept;
    SizeOfUnion(disk.index, dead, kept);
    SizeOfSame(disk.index, Swept(disk, live).index, kept);
  }

  lemma LiveShrinks(small: map<Key, Release>, large: map<Key, Release>)
    requires forall k :: k in small ==> k in large && small[k] == large[k]
    ensures Live(small) <= Live(large)
  {
  }

  lemma SweptNarrower(disk: Disk, wide: set<Hash>, narrow: set<Hash>)
    requires narrow <= wide
    ensures Swept(Swept(disk, wide), narrow) == Swept(disk, narrow)
  {
    var one, direct := Swept(disk, wide), Swept(disk, narrow);
    var two := Swept(one, narrow);
    assert two.pins == direct.pins;
    forall d | d in disk.index ensures d in two.index <==> d in direct.index {
      assert d in Dead(disk, wide) ==> d in Dead(disk, narrow);
    }
    assert two.index == direct.index;
  }

  /** Sweeping after a further removal makes the earlier sweep superfluous. */
  lemma SweptTwice(disk: Disk, first: map<Key, Release>, second: map<Key, Release>)
    requires forall k :: k in second ==> k in first && second[k] == first[k]
    ensures Swept(Swept(disk.(releases := first), Live(first)).(releases := second), Live(second))
         == Swept(disk.(releases := second), Live(second))
  {
    LiveShrinks(second, first);
    SweptNarrower(disk.(releases := first), Live(first), Live(second));
  }

  // ------------------------------------------------------------------ windows

  /** Who we are and what policy says. */
  datatype Config = Config(me: PublisherId, forms: KeyForms, policy: Policy)

  function WindowFor(c: Config, publisher: PublisherId, name: string): Window
  {
    WindowOf(c.forms, c.policy, publisher, name)
  }

  predicate OfImage(k: Key, publisher: PublisherId, name: string)
  {
    k.publisher == publisher && k.name == name
  }

  /** Tags and timestamps of one image. */
  function ImageTags(releases: map<Key, Release>, publisher: PublisherId, name: string): map<string, nat>
  {
    map k | k in releases && OfImage(k, publisher, name) :: k.tag := releases[k].timestamp
  }

  function Only(releases: map<Key, Release>, keys: set<Key>): map<Key, Release>
  {
    map k | k in releases && k in keys :: releases[k]
  }

  /** Is the image foreign and covered by some rule? */
  predicate Managed(c: Config, publisher: PublisherId, name: string)
  {
    publisher != c.me && !WindowFor(c, publisher, name).IsEmpty()
  }

  predicate InWindow(c: Config, releases: map<Key, Release>, k: Key)
  {
    k.tag in Chosen(WindowFor(c, k.publisher, k.name), ImageTags(releases, k.publisher, k.name))
  }

  /** What enforcing all windows keeps: everything but managed releases outside
      their window. */
  function Enforced(c: Config, releases: map<Key, Release>): map<Key, Release>
  {
    map k | k in releases && (Managed(c, k.publisher, k.name) ==> InWindow(c, releases, k)) :: releases[k]
  }

  /** The same for one image. */
  function EnforcedImage(c: Config, releases: map<Key, Release>, publisher: PublisherId, name: string)
    : map<Key, Release>
  {
    map k | k in releases && (OfImage(k, publisher, name) && Managed(c, publisher, name) ==> InWindow(c, releases, k))
      :: releases[k]
  }

  /** The disk once `releases'` are what is left: swept if anything went. */
  function After(disk: Disk, releases': map<Key, Release>): Disk
  {
    if releases' == disk.releases then disk else Swept(disk.(releases := releases'), Live(releases'))
  }

  lemma SubmapChain(a: map<Key, Release>, b: map<Key, Release>, c: map<Key, Release>)
    requires forall k :: k in b ==> k in c && b[k] == c[k]
    requires forall k :: k in a ==> k in b && a[k] == b[k]
    requires b != c
    ensures a != c
  {
    assert a == c ==> b == c;
  }

  /** A further loss after a loss is the loss in one go. */
  lemma AfterTwice(disk: Disk, first: map<Key, Release>, second: map<Key, Release>)
    requires forall k :: k in first ==> k in disk.releases && first[k] == disk.releases[k]
    requires forall k :: k in second ==> k in first && second[k] == first[k]
    ensures After(After(disk, first), second) == After(disk, second)
  {
    if first != disk.releases {
      if second == first {
        assert After(disk, first).releases == first;
      } else {
        SweptTwice(disk, first, second);
        assert second != disk.releases by { SubmapChain(second, first, disk.releases); }
      }
    }
  }

  /** Enforcing the windows of some images only. */
  function EnforcedFor(c: Config, releases: map<Key, Release>, images: set<(PublisherId, string)>): map<Key, Release>
  {
    map k | k in releases
          && ((k.publisher, k.name) in images && Managed(c, k.publisher, k.name) ==> InWindow(c, releases, k))
      :: releases[k]
  }

  lemma SameTagsSameChoice(c: Config, a: map<Key, Release>, b: map<Key, Release>, k: Key)
    requires ImageTags(a, k.publisher, k.name) == ImageTags(b, k.publisher, k.name)
    ensures InWindow(c, a, k) <==> InWindow(c, b, k)
  {
  }

  lemma TagsUntouched(c: Config, releases: map<Key, Release>, images: set<(PublisherId, string)>,
                      publisher: PublisherId, name: string)
    requires (publisher, name) !in images
    ensures ImageTags(EnforcedFor(c, releases, images), publisher, name) == ImageTags(releases, publisher, name)
  {
    var some := EnforcedFor(c, releases, images);
    var tags, tags' := ImageTags(releases, publisher, name), ImageTags(some, publisher, name);
    forall t | t in tags ensures t in tags' && tags'[t] == tags[t] {
      assert Key(publisher, name, t) in some;
    }
  }

  /** Images do not interfere: enforcing one more leaves the others alone. */
  lemma EnforceOneMore(c: Config, releases: map<Key, Release>, images: set<(PublisherId, string)>,
                       publisher: PublisherId, name: string)
    requires (publisher, name) !in images
    ensures EnforcedImage(c, EnforcedFor(c, releases, images), publisher, name)
         == EnforcedFor(c, releases, images + {(publisher, name)})
  {
    var some := EnforcedFor(c, releases, images);
    TagsUntouched(c, releases, images, publisher, name);
    var left, goal := EnforcedImage(c, some, publisher, name), EnforcedFor(c, releases, images + {(publisher, name)});
    forall k | k in releases ensures k in left <==> k in goal {
      if OfImage(k, publisher, name) { SameTagsSameChoice(c, some, releases, k); }
    }
    assert left.Keys == goal.Keys;
  }

  /** `retained_set`: own releases, and managed ones inside their window. */
  function Retained(c: Config, releases: map<Key, Release>): set<Key>
  {
    set k | k in releases
         && (k.publisher == c.me || (Managed(c, k.publisher, k.name) && InWindow(c, releases, k)))
  }

  /** What gc removes: what is not retained, past grace unless forced. */
  function Removed(c: Config, releases: map<Key, Release>, force: bool, expired: set<Key>): set<Key>
  {
    set k | k in releases && k !in Retained(c, releases) && (force || k in expired)
  }

  function Collected(c: Config, releases: map<Key, Release>, force: bool, expired: set<Key>): map<Key, Release>
  {
    releases - Removed(c, releases, force, expired)
  }

  /** Keeping at least what a window chooses leaves the choice as it was. */
  lemma ChoiceIsStable(c: Config, releases: map<Key, Release>, kept: map<Key, Release>, k: Key)
    requires forall x :: x in kept ==> x in releases && kept[x] == releases[x]
    requires forall x :: x in releases && OfImage(x, k.publisher, k.name) && InWindow(c, releases, x) ==> x in kept
    requires k in kept
    ensures InWindow(c, kept, k) <==> InWindow(c, releases, k)
  {
    var w := WindowFor(c, k.publisher, k.name);
    var m, part := ImageTags(releases, k.publisher, k.name), ImageTags(kept, k.publisher, k.name);
    forall t | t in m && t in Chosen(w, m) ensures t in part && part[t] == m[t] {
      assert Key(k.publisher, k.name, t) in kept;
    }
    assert k.tag in part;
    Convergence.WindowIsStable(w, part, m, k.tag);
  }

  /** A forced gc leaves exactly the retained set, and a second one removes
      nothing. */
  lemma ForcedGcIsExact(c: Config, releases: map<Key, Release>)
    ensures Collected(c, releases, true, {}).Keys == Retained(c, releases)
    ensures Removed(c, Collected(c, releases, true, {}), true, {}) == {}
  {
    var kept := Collected(c, releases, true, {});
    forall k | k in kept ensures k in Retained(c, kept) {
      assert k in Retained(c, releases);
      if k.publisher != c.me { ChoiceIsStable(c, releases, kept, k); }
    }
  }

  /** On images the policy covers, gc (forced or not, whatever has expired)
      keeps at least, and forced exactly, what enforcing all windows keeps. */
  lemma GcAgreesWithWindows(c: Config, releases: map<Key, Release>, force: bool, expired: set<Key>, k: Key)
    requires k in releases && Managed(c, k.publisher, k.name)
    ensures k in Enforced(c, releases) ==> k in Collected(c, releases, force, expired)
    ensures k in Enforced(c, releases) <==> k in Collected(c, releases, true, expired)
  {
  }

  /** Enforcing windows twice changes nothing, and gc afterwards removes no
      managed release. */
  lemma EnforcedIsStable(c: Config, releases: map<Key, Release>)
    ensures Enforced(c, Enforced(c, releases)) == Enforced(c, releases)
    ensures forall k :: k in Enforced(c, releases) && Managed(c, k.publisher, k.name) ==>
              k in Retained(c, Enforced(c, releases))
  {
    var kept := Enforced(c, releases);
    forall k | k in kept && Managed(c, k.publisher, k.name) ensures InWindow(c, kept, k) {
      ChoiceIsStable(c, releases, kept, k);
    }
  }

  /** Own releases are never pruned or collected; pinned and tagged-seed
      releases of a foreign image never either. */
  lemma OwnAndNamedStay(c: Config, releases: map<Key, Release>, force: bool, expired: set<Key>, k: Key)
    requires k in releases
    requires k.publisher == c.me || k.tag in WindowFor(c, k.publisher, k.name).tags
    ensures k in Enforced(c, releases) && k in Collected(c, releases, force, expired)
  {
  }

  // --------------------------------------------- retention, in plain terms

  /** The tags of the same image released later, or in the same second with a
      greater name. */
  function LaterTags(releases: map<Key, Release>, k: Key): set<string>
    requires k in releases
  {
    set x | x in releases && x.publisher == k.publisher && x.name == k.name
            && (releases[x].timestamp > releases[k].timestamp
                || (releases[x].timestamp == releases[k].timestamp && Less(k.tag, x.tag))) :: x.tag
  }

  lemma LaterIsAbove(releases: map<Key, Release>, k: Key)
    requires k in releases
    ensures LaterTags(releases, k)
         == Above(ImageTags(releases, k.publisher, k.name), Entry(k.tag, releases[k].timestamp))
  {
    var m := ImageTags(releases, k.publisher, k.name);
    forall t | t in m && Newer(Entry(t, m[t]), Entry(k.tag, releases[k].timestamp))
      ensures t in LaterTags(releases, k)
    {
      assert Key(k.publisher, k.name, t) in releases;
    }
  }

  lemma InWindowExactlyWhen(c: Config, releases: map<Key, Release>, k: Key)
    requires k in releases
    ensures var w := WindowFor(c, k.publisher, k.name);
            InWindow(c, releases, k) <==> w.full || k.tag in w.tags || |LaterTags(releases, k)| < w.last
  {
    LaterIsAbove(releases, k);
    assert ImageTags(releases, k.publisher, k.name)[k.tag] == releases[k].timestamp;
  }

  /** Enforcing all windows removes a release if and only if it is foreign, its
      image has a window, and the window neither keeps everything, nor names
      the tag, nor has room for it after the tags released later. gc removes a
      release if and only if it is foreign, outside such a window or of an image
      without one, and past grace unless forced. */
  lemma RemovedExactlyWhen(c: Config, releases: map<Key, Release>, force: bool, expired: set<Key>, k: Key)
    requires k in releases
    ensures var w := WindowFor(c, k.publisher, k.name);
            var has := w.full || w.last > 0 || w.tags != {};
            var inside := w.full || k.tag in w.tags || |LaterTags(releases, k)| < w.last;
            && (k !in Enforced(c, releases) <==> k.publisher != c.me && has && !inside)
            && (k !in EnforcedImage(c, releases, k.publisher, k.name) <==> k.publisher != c.me && has && !inside)
            && (k !in Collected(c, releases, force, expired) <==>
                k.publisher != c.me && !(has && inside) && (force || k in expired))
    ensures k in Enforced(c, releases) ==> Enforced(c, releases)[k] == releases[k]
    ensures forall publisher, name :: publisher != k.publisher || name != k.name ==>
              k in EnforcedImage(c, releases, publisher, name)
    ensures k in Collected(c, releases, force, expired) ==> Collected(c, releases, force, expired)[k] == releases[k]
  {
    InWindowExactlyWhen(c, releases, k);
  }

  // ----------------------------------------------------------------- reporting

  datatype GcReport = GcReport(releases: seq<string>, blobs: nat, bytes: nat)

  predicate Ascending(s: seq<string>)
  {
    forall i, j :: 0 <= i < j < |s| ==> Less(s[i], s[j])
  }

  /** The report gc owes for a disk: the references it removes, in order, and
      how many pins and indexed bytes no other release names. */
  ghost predicate IsGcReport(c: Config, disk: Disk, force: bool, expired: set<Key>, report: GcReport)
  {
    var removed := Removed(c, disk.releases, force, expired);
    var dead := Dead(disk, Live(disk.releases - removed));
    && Ascending(report.releases)
    && (forall s :: s in report.releases <==> exists k :: k in removed && Reference(k) == s)
    && report.blobs == |dead|
    && report.bytes == SizeOf(disk.index, dead)
  }

  /** The report in the terms of the records and of what they name. */
  lemma ReportCountsWhatGoes(c: Config, disk: Disk, force: bool, expired: set<Key>, report: GcReport)
    requires IsGcReport(c, disk, force, expired, report)
    ensures var left := Collected(c, disk.releases, force, expired);
            var gone := set d | d in disk.pins && !Named(left, disk.pins[d]);
            && (forall s :: s in report.releases <==> exists k :: k in disk.releases && k !in left && Reference(k) == s)
            && (forall i, j :: 0 <= i < j < |report.releases| ==> Less(report.releases[i], report.releases[j]))
            && report.blobs == |gone| && report.bytes == SizeOf(disk.index, gone)
  {
    var left := Collected(c, disk.releases, force, expired);
    LiveIsNamed(left);
    assert (set d | d in disk.pins && !Named(left, disk.pins[d])) == Dead(disk, Live(left));
    forall k ensures k in Removed(c, disk.releases, force, expired) <==> k in disk.releases && k !in left { }
  }

  lemma AscendingTail(a: seq<string>)
    requires Ascending(a) && a != []
    ensures Ascending(a[1..])
    ensures forall s :: s in a[1..] <==> s in a && s != a[0]
  {
    LessTotal(a[0], a[0]);
    assert a == [a[0]] + a[1..];
    assert forall i :: 0 <= i < |a[1..]| ==> a[1..][i] == a[i + 1];
  }

  lemma HeadsAgree(a: seq<string>, b: seq<string>)
    requires a != [] && b != [] && Ascending(a) && Ascending(b) && forall s :: s in a <==> s in b
    ensures a[0] == b[0]
  {
    assert a[0] in b && b[0] in a;
    var i :| 0 <= i < |b| && b[i] == a[0];
    var j :| 0 <= j < |a| && a[j] == b[0];
    LessTotal(a[0], b[0]);
  }

  lemma {:induction false} AscendingUnique(a: seq<string>, b: seq<string>)
    requires Ascending(a) && Ascending(b) && forall s :: s in a <==> s in b
    ensures a == b
  {
    assert (a != [] ==> a[0] in b) && (b != [] ==> b[0] in a);
    if a != [] {
      HeadsAgree(a, b);
      assert forall s :: s in a[1..] <==> s in b[1..] by {
        AscendingTail(a);
        AscendingTail(b);
      }
      AscendingUnique(a[1..], b[1..]);
      assert a == [a[0]] + a[1..] && b == [b[0]] + b[1..];
    }
  }

  /** There is one such report, so a dry run announces exactly what the real
      run from the same state reports. */
  lemma GcReportUnique(c: Config, disk: Disk, force: bool, expired: set<Key>, report: GcReport, report': GcReport)
    requires IsGcReport(c, disk, force, expired, report) && IsGcReport(c, disk, force, expired, report')
    ensures report == report'
  {
    AscendingUnique(report.releases, report'.releases);
  }
}
