/** Retention windows: which tags of an image are kept
    (crates/ocid-core/src/config.rs, `Window`). */
module Windows {
  import opened Text

  /** One known release of an image: its tag and its timestamp. */
  datatype Entry = Entry(tag: string, ts: nat)

  /** Effective retention of one image. */
  datatype Window = Window(full: bool, last: nat, tags: set<string>)
  {
    predicate IsEmpty() { !full && last == 0 && tags == {} }
  }

  /** Newest first; within one second the greater tag counts as newer. */
  predicate Newer(a: Entry, b: Entry)
  {
    a.ts > b.ts || (a.ts == b.ts && Less(b.tag, a.tag))
  }

  lemma NewerTotal(a: Entry, b: Entry)
    ensures a == b || Newer(a, b) || Newer(b, a)
    ensures !(Newer(a, b) && Newer(b, a))
    ensures a == b ==> !Newer(a, b)
  {
    LessTotal(a.tag, b.tag);
  }

  lemma NewerTransitive(a: Entry, b: Entry, c: Entry)
    requires Newer(a, b) && Newer(b, c)
    ensures Newer(a, c)
  {
    if a.ts == b.ts == c.ts { LessTransitive(c.tag, b.tag, a.tag); }
  }

  // ------------------------------------------------------- sort, dedup, take

  predicate Descending(s: seq<Entry>)
  {
    forall i, j :: 0 <= i < j < |s| ==> s[i] == s[j] || Newer(s[i], s[j])
  }

  predicate StrictlyDescending(s: seq<Entry>)
  {
    forall i, j :: 0 <= i < j < |s| ==> Newer(s[i], s[j])
  }

  function Insert(e: Entry, s: seq<Entry>): (r: seq<Entry>)
    ensures |r| == |s| + 1
  {
    if s == [] || !Newer(s[0], e) then [e] + s else [s[0]] + Insert(e, s[1..])
  }

  /** The known releases, newest first. */
  function Sort(known: seq<Entry>): (r: seq<Entry>)
    ensures |r| == |known|
  {
    if known == [] then [] else Insert(known[|known| - 1], Sort(known[..|known| - 1]))
  }

  lemma {:induction false} InsertMembers(e: Entry, s: seq<Entry>)
    ensures forall x :: x in Insert(e, s) <==> x == e || x in s
  {
    if s != [] {
      InsertMembers(e, s[1..]);
      assert s == [s[0]] + s[1..];
    }
  }

  lemma {:induction false} SortMembers(known: seq<Entry>)
    ensures forall x :: x in Sort(known) <==> x in known
  {
    if known != [] {
      var front, e := known[..|known| - 1], known[|known| - 1];
      SortMembers(front);
      InsertMembers(e, Sort(front));
      assert known == front + [e];
    }
  }

  lemma {:induction false} InsertDescending(e: Entry, s: seq<Entry>)
    requires Descending(s)
    ensures Descending(Insert(e, s))
  {
    if s == [] {
    } else if !Newer(s[0], e) {
      forall j | 0 <= j < |s| ensures e == s[j] || Newer(e, s[j]) {
        NewerTotal(e, s[0]);
        if e != s[0] && s[0] != s[j] { NewerTransitive(e, s[0], s[j]); }
      }
    } else {
      InsertDescending(e, s[1..]);
      InsertMembers(e, s[1..]);
      var t := Insert(e, s[1..]);
      forall j | 0 <= j < |t| ensures s[0] == t[j] || Newer(s[0], t[j]) {
        assert t[j] == e || t[j] in s[1..];
      }
    }
  }

  lemma {:induction false} SortDescending(known: seq<Entry>)
    ensures Descending(Sort(known))
  {
    if known != [] {
      SortDescending(known[..|known| - 1]);
      InsertDescending(known[|known| - 1], Sort(known[..|known| - 1]));
    }
  }

  /** Drops every entry whose tag is that of the entry kept just before it
      (`dedup_by` removes only adjacent repetitions). */
  function Dedup(s: seq<Entry>, previous: Option<string>): (r: seq<Entry>)
    ensures |r| <= |s|
    ensures forall x :: x in r ==> x in s
  {
    if s == [] then []
    else if previous == Some(s[0].tag) then Dedup(s[1..], previous)
    else [s[0]] + Dedup(s[1..], Some(s[0].tag))
  }

  /** The deduplicated, newest-first list `select` takes a prefix of. */
  function Ranked(known: seq<Entry>): seq<Entry>
  {
    Dedup(Sort(known), None)
  }

  function Tags(s: seq<Entry>): set<string>
  {
    set e | e in s :: e.tag
  }

  function Prefix(s: seq<Entry>, n: nat): seq<Entry>
  {
    if n < |s| then s[..n] else s
  }

  /** The tags inside the window, given every known release of the image. */
  function Select(w: Window, known: seq<Entry>): set<string>
  {
    w.tags + if w.full then Tags(Ranked(known)) else Tags(Prefix(Ranked(known), w.last))
  }

  /** `Vec::dedup_by` on equal tags. */
  method DedupLoop(sorted: seq<Entry>) returns (ranked: seq<Entry>)
    ensures ranked == Dedup(sorted, None)
  {
    ranked := [];
    var previous: Option<string> := None;
    for i := 0 to |sorted|
      invariant ranked + Dedup(sorted[i..], previous) == Dedup(sorted, None)
    {
      var rest := sorted[i..];
      assert rest[0] == sorted[i] && rest[1..] == sorted[i + 1..];
      if previous != Some(sorted[i].tag) {
        ranked := ranked + [sorted[i]];
        previous := Some(sorted[i].tag);
      }
    }
  }

  lemma TagsAppend(s: seq<Entry>, e: Entry)
    ensures Tags(s + [e]) == Tags(s) + {e.tag}
  {
    forall t | t in Tags(s) + {e.tag} ensures t in Tags(s + [e]) {
      if t in Tags(s) {
        var x :| x in s && x.tag == t;
        assert x in s + [e];
      } else {
        assert e in s + [e];
      }
    }
  }

  lemma TagInPrefix(s: seq<Entry>, j: nat, k: nat)
    requires j < |s| && k <= |s|
    ensures j < k ==> s[j].tag in Tags(s[..k])
  {
    if j < k { assert s[j] == s[..k][j]; }
  }

  // --------------------------------------------------- what the window means

  /** The newest timestamp seen for each tag. */
  function Record(m: map<string, nat>, e: Entry): map<string, nat>
  {
    if e.tag in m && m[e.tag] >= e.ts then m else m[e.tag := e.ts]
  }

  function Newest(known: seq<Entry>): map<string, nat>
  {
    if known == [] then map[] else Record(Newest(known[..|known| - 1]), known[|known| - 1])
  }

  /** Tags whose newest release is newer than `e`. */
  function Above(m: map<string, nat>, e: Entry): set<string>
  {
    set t | t in m && Newer(Entry(t, m[t]), e)
  }

  /** Tags with fewer than `n` tags above them: the `n` newest tags. */
  function Top(m: map<string, nat>, n: nat): set<string>
  {
    set t | t in m && |Above(m, Entry(t, m[t]))| < n
  }

  /** What a window promises: its fixed tags and the `last` newest tags, or
      everything. A definition that knows nothing of sorting. */
  function Chosen(w: Window, m: map<string, nat>): set<string>
  {
    w.tags + if w.full then m.Keys else Top(m, w.last)
  }

  lemma {:induction false} NewestIsNewest(known: seq<Entry>)
    ensures forall e :: e in known ==> e.tag in Newest(known) && Newest(known)[e.tag] >= e.ts
    ensures forall t :: t in Newest(known) ==> Entry(t, Newest(known)[t]) in known
  {
    if known != [] {
      var front, e := known[..|known| - 1], known[|known| - 1];
      NewestIsNewest(front);
      assert known == front + [e];
    }
  }

  predicate OneTimestampPerTag(known: seq<Entry>)
  {
    forall a, b :: a in known && b in known && a.tag == b.tag ==> a.ts == b.ts
  }

  // ------------------------------------------------------ the ranked list

  /** After keeping `e`, everything kept later is strictly older. */
  lemma {:induction false} DedupSkips(s: seq<Entry>, e: Entry)
    requires Descending(s)
    requires forall x :: x in s ==> e == x || Newer(e, x)
    ensures forall x :: x in Dedup(s, Some(e.tag)) ==> Newer(e, x)
  {
    if s != [] {
      if e.tag == s[0].tag {
        DedupSkips(s[1..], e);
      } else {
        assert forall x :: x in s[1..] ==> s[0] == x || Newer(s[0], x);
        DedupSkips(s[1..], s[0]);
        assert s[0] in s && Newer(e, s[0]);
        forall x | x in Dedup(s[1..], Some(s[0].tag)) ensures Newer(e, x) {
          NewerTransitive(e, s[0], x);
        }
      }
    }
  }

  lemma {:induction false} DedupStrict(s: seq<Entry>, previous: Option<string>)
    requires Descending(s)
    ensures StrictlyDescending(Dedup(s, previous))
  {
    if s != [] {
      if previous == Some(s[0].tag) {
        DedupStrict(s[1..], previous);
      } else {
        DedupStrict(s[1..], Some(s[0].tag));
        DedupSkips(s[1..], s[0]);
      }
    }
  }

  /** The newest entry of a tag survives. */
  lemma {:induction false} DedupKeepsNewest(s: seq<Entry>, previous: Option<string>, e: Entry)
    requires Descending(s) && e in s && previous != Some(e.tag)
    requires forall x :: x in s && x.tag == e.tag ==> x.ts <= e.ts
    ensures e in Dedup(s, previous)
  {
    if s[0].tag == e.tag {
      var j :| 0 <= j < |s| && s[j] == e;
      LessTotal(e.tag, e.tag);
      assert s[0] == s[j] || Newer(s[0], s[j]);
      assert s[0] in s;
    } else {
      assert s == [s[0]] + s[1..];
      DedupKeepsNewest(s[1..], if previous == Some(s[0].tag) then previous else Some(s[0].tag), e);
    }
  }

  /** The ranked list is strictly newest-first, holds only known entries and
      holds the newest entry of every tag. */
  lemma RankedFacts(known: seq<Entry>)
    ensures StrictlyDescending(Ranked(known))
    ensures forall e :: e in Ranked(known) ==> e in known
    ensures forall t :: t in Newest(known) ==> Entry(t, Newest(known)[t]) in Ranked(known)
    ensures forall e :: e in Ranked(known) ==> e.tag in Newest(known) && Newest(known)[e.tag] >= e.ts
  {
    SortDescending(known);
    SortMembers(known);
    DedupStrict(Sort(known), None);
    NewestIsNewest(known);
    forall t | t in Newest(known) ensures Entry(t, Newest(known)[t]) in Ranked(known) {
      DedupKeepsNewest(Sort(known), None, Entry(t, Newest(known)[t]));
    }
  }

  // ---------------------------------------------------------- cardinalities

  predicate DistinctTags(s: seq<Entry>)
  {
    forall i, j :: 0 <= i < j < |s| ==> s[i].tag != s[j].tag
  }

  lemma DistinctAppend(s: seq<Entry>, e: Entry)
    ensures DistinctTags(s + [e]) <==> DistinctTags(s) && e.tag !in Tags(s)
  {
    var t := s + [e];
    assert t[|s|] == e && forall i :: 0 <= i < |s| ==> t[i] == s[i];
    if e.tag in Tags(s) {
      var x :| x in s && x.tag == e.tag;
      var i :| 0 <= i < |s| && s[i] == x;
      assert t[i].tag == t[|s|].tag;
    }
    assert forall i :: 0 <= i < |s| ==> s[i] in s && s[i].tag in Tags(s);
  }

  lemma {:induction false} TagsCardinality(s: seq<Entry>)
    ensures |Tags(s)| <= |s|
    ensures |Tags(s)| == |s| <==> DistinctTags(s)
  {
    if s == [] {
      assert Tags(s) == {};
    } else {
      var front, e := s[..|s| - 1], s[|s| - 1];
      assert s == front + [e];
      TagsAppend(front, e);
      TagsCardinality(front);
      DistinctAppend(front, e);
    }
  }

  lemma SubsetCardinality<T>(a: set<T>, b: set<T>)
    requires a <= b
    ensures |a| <= |b|
    ensures |a| == |b| ==> a == b
  {
    var rest := b - a;
    assert b == a + rest;
    assert |b| == |a| + |rest|;
  }

  /** The tags above an entry of the ranked list all come before it. */
  lemma AboveIsBefore(known: seq<Entry>, k: nat)
    requires k < |Ranked(known)|
    ensures Above(Newest(known), Ranked(known)[k]) <= Tags(Ranked(known)[..k])
  {
    var l, m := Ranked(known), Newest(known);
    RankedFacts(known);
    forall t | t in Above(m, l[k]) ensures t in Tags(l[..k]) {
      var e := Entry(t, m[t]);
      var j :| 0 <= j < |l| && l[j] == e;
      assert k < j ==> Newer(l[k], l[j]);
      NewerTotal(l[j], l[k]);
      assert j < k && e == l[..k][j];
    }
  }

  /** Conversely, the tags before the newest entry of a tag are above it. */
  lemma BeforeIsAbove(known: seq<Entry>, k: nat, t: string)
    requires k <= |Ranked(known)| && t in Newest(known) && t !in Tags(Ranked(known)[..k])
    ensures Tags(Ranked(known)[..k]) <= Above(Newest(known), Entry(t, Newest(known)[t]))
  {
    var l, m := Ranked(known), Newest(known);
    RankedFacts(known);
    var e := Entry(t, m[t]);
    var j :| 0 <= j < |l| && l[j] == e;
    TagInPrefix(l, j, k);
    forall u | u in Tags(l[..k]) ensures u in Above(m, e) {
      var x :| x in l[..k] && x.tag == u;
      var i :| 0 <= i < k && l[i] == x;
      assert Newer(l[i], l[j]);
      assert x in l;
      if m[u] > x.ts { assert Newer(Entry(u, m[u]), e); }
    }
  }

  /** A taken prefix holds only tags among the newest, for any input. */
  lemma PrefixWithinTop(known: seq<Entry>, n: nat)
    ensures Tags(Prefix(Ranked(known), n)) <= Top(Newest(known), n)
  {
    var l, m := Ranked(known), Newest(known);
    RankedFacts(known);
    forall t | t in Tags(Prefix(l, n)) ensures t in Top(m, n) {
      var x :| x in Prefix(l, n) && x.tag == t;
      var i :| 0 <= i < |Prefix(l, n)| && Prefix(l, n)[i] == x;
      assert l[i] == x && x in l;
      AboveIsBefore(known, i);
      TagsCardinality(l[..i]);
      SubsetCardinality(Above(m, x), Tags(l[..i]));
      var best := Entry(t, m[t]);
      assert Above(m, best) <= Above(m, x) by {
        forall u | u in Above(m, best) ensures u in Above(m, x) {
          if best != x {
            assert Newer(best, x);
            NewerTransitive(Entry(u, m[u]), best, x);
          }
        }
      }
      SubsetCardinality(Above(m, best), Above(m, x));
    }
  }

  // ----------------------------------------------------------- main results

  /** For any input, `select` never keeps a tag outside the window. */
  lemma SelectWithinWindow(w: Window, known: seq<Entry>)
    ensures Select(w, known) <= Chosen(w, Newest(known))
  {
    PrefixWithinTop(known, w.last);
    RankedFacts(known);
  }

  lemma NewestKeys(known: seq<Entry>)
    ensures Newest(known).Keys == Tags(known) == Tags(Ranked(known))
  {
    RankedFacts(known);
    NewestIsNewest(known);
    forall t | t in Newest(known) ensures t in Tags(Ranked(known)) && t in Tags(known) {
      assert Entry(t, Newest(known)[t]).tag == t;
    }
  }

  function Elements(known: seq<Entry>): set<Entry>
  {
    set e | e in known
  }

  predicate Separated(es: set<Entry>, x: Entry)
  {
    forall y :: y in es && y.tag == x.tag && Newer(y, x) ==>
      exists z :: z in es && z.tag != x.tag && Newer(y, z) && Newer(z, x)
  }

  /** Entries that are not next to a newer one of their tag: between them and
      each newer copy of the tag lies another tag. Each takes a place in the
      list `select` takes its prefix of. */
  function Slots(es: set<Entry>): set<Entry>
  {
    set x | x in es && Separated(es, x)
  }

  /** The places taken before `e`. */
  function Crowd(es: set<Entry>, e: Entry): set<Entry>
  {
    set x | x in Slots(es) && Newer(x, e)
  }

  /** One entry dropped as an adjacent repetition. */
  lemma DroppedIsNoSlot(before: seq<Entry>, s: seq<Entry>)
    requires Descending(before + s) && before != [] && s != []
    requires before[|before| - 1].tag == s[0].tag
    ensures s[0] in before || !Separated(Elements(before + s), s[0])
  {
    var all, b, h := before + s, before[|before| - 1], s[0];
    assert all[|before| - 1] == b && all[|before|] == h;
    NewerTotal(b, h);
    forall z | z in all ensures !(Newer(b, z) && Newer(z, h)) {
      var i :| 0 <= i < |all| && all[i] == z;
      NewerTotal(z, b);
      NewerTotal(z, h);
      assert i < |before| - 1 ==> z == b || Newer(z, b);
      assert i > |before| ==> z == h || Newer(h, z);
    }
    assert b in before && b in Elements(all);
  }

  /** One entry kept. */
  lemma KeptIsSlot(before: seq<Entry>, s: seq<Entry>)
    requires Descending(before + s) && s != []
    requires before == [] || before[|before| - 1].tag != s[0].tag
    ensures s[0] !in before && Separated(Elements(before + s), s[0])
  {
    var all, h := before + s, s[0];
    assert all[|before|] == h;
    forall i | 0 <= i < |before| ensures before[i] != h {
      assert all[i] == before[i] && all[|before| - 1] == before[|before| - 1];
      NewerTotal(before[|before| - 1], h);
      NewerTotal(before[i], before[|before| - 1]);
    }
    forall y | y in Elements(all) && y.tag == h.tag && Newer(y, h)
      ensures exists z :: z in Elements(all) && z.tag != h.tag && Newer(y, z) && Newer(z, h)
    {
      var i :| 0 <= i < |all| && all[i] == y;
      NewerTotal(y, h);
      assert i > |before| ==> y == h || Newer(h, y);
      var b := before[|before| - 1];
      assert all[|before| - 1] == b && b in all;
      NewerTotal(b, h);
    }
  }

  /** Dropping adjacent repetitions keeps exactly the slots. */
  lemma {:induction false} DedupKeepsSlots(before: seq<Entry>, s: seq<Entry>, x: Entry)
    requires Descending(before + s)
    ensures x in Dedup(s, if before == [] then None else Some(before[|before| - 1].tag))
       <==> x in s && x !in before && Separated(Elements(before + s), x)
    decreases |s|
  {
    if s != [] {
      var next := before + [s[0]];
      assert next + s[1..] == before + s && s == [s[0]] + s[1..];
      DedupKeepsSlots(next, s[1..], x);
      if before != [] && before[|before| - 1].tag == s[0].tag {
        DroppedIsNoSlot(before, s);
      } else {
        KeptIsSlot(before, s);
      }
    }
  }

  lemma RankedIsSlots(known: seq<Entry>)
    ensures forall x :: x in Ranked(known) <==> x in Slots(Elements(known))
  {
    SortDescending(known);
    SortMembers(known);
    assert [] + Sort(known) == Sort(known);
    assert Elements(Sort(known)) == Elements(known);
    forall x ensures x in Ranked(known) <==> x in Slots(Elements(known)) {
      DedupKeepsSlots([], Sort(known), x);
    }
  }

  lemma BeforeIsNewer(l: seq<Entry>, j: nat, x: Entry)
    requires StrictlyDescending(l) && j < |l| && x in l
    ensures x in l[..j] <==> Newer(x, l[j])
  {
    var i :| 0 <= i < |l| && l[i] == x;
    NewerTotal(l[i], l[j]);
    if i < j {
      assert l[..j][i] == x;
    } else {
      forall k | 0 <= k < j ensures l[..j][k] != x { NewerTotal(l[k], l[i]); }
    }
  }

  lemma ElementsSnoc(s: seq<Entry>, e: Entry)
    ensures Elements(s + [e]) == Elements(s) + {e}
  {
  }

  lemma {:induction false} StrictSize(s: seq<Entry>)
    requires StrictlyDescending(s)
    ensures |Elements(s)| == |s|
  {
    if s == [] {
      assert Elements(s) == {};
    } else {
      var front, e := s[..|s| - 1], s[|s| - 1];
      StrictSize(front);
      NewerTotal(e, e);
      assert forall x :: x in front ==> Newer(x, e);
      ElementsSnoc(front, e);
      assert s == front + [e];
    }
  }

  /** An entry of the ranked list stands behind exactly its crowd. */
  lemma CrowdIsPosition(known: seq<Entry>, j: nat)
    requires j < |Ranked(known)|
    ensures |Crowd(Elements(known), Ranked(known)[j])| == j
  {
    var l := Ranked(known);
    RankedFacts(known);
    RankedIsSlots(known);
    forall x | x in l ensures x in l[..j] <==> Newer(x, l[j]) { BeforeIsNewer(l, j, x); }
    assert forall x :: x in l[..j] ==> x in l;
    assert Crowd(Elements(known), l[j]) == Elements(l[..j]);
    StrictSize(l[..j]);
  }

  /** A tag is among the first `n` ranked if and only if fewer than `n` places
      are taken before its newest entry. */
  lemma TakenExactlyWhen(known: seq<Entry>, n: nat, t: string)
    requires t in Newest(known)
    ensures t in Tags(Prefix(Ranked(known), n))
       <==> |Crowd(Elements(known), Entry(t, Newest(known)[t]))| < n
  {
    var l, e := Ranked(known), Entry(t, Newest(known)[t]);
    RankedFacts(known);
    var j :| 0 <= j < |l| && l[j] == e;
    CrowdIsPosition(known, j);
    if j < n {
      assert Prefix(l, n)[j] == e;
    }
    if t in Tags(Prefix(l, n)) {
      var x :| x in Prefix(l, n) && x.tag == t;
      var i :| 0 <= i < |Prefix(l, n)| && Prefix(l, n)[i] == x;
      assert l[i] == x && x in l;
      LessTotal(t, t);
      assert i < j ==> Newer(l[i], l[j]);
    }
  }

  /** `select` gives exactly the window if and only if no tag it owes for being
      among the newest is crowded out. It may be: only adjacent repetitions of
      a tag are dropped. */
  lemma SelectExactlyWhen(w: Window, known: seq<Entry>)
    ensures Select(w, known) == Chosen(w, Newest(known))
       <==> w.full || forall t :: t in Top(Newest(known), w.last) && t !in w.tags ==>
                        |Crowd(Elements(known), Entry(t, Newest(known)[t]))| < w.last
  {
    SelectWithinWindow(w, known);
    NewestKeys(known);
    if !w.full {
      forall t | t in Newest(known)
        ensures t in Tags(Prefix(Ranked(known), w.last))
           <==> |Crowd(Elements(known), Entry(t, Newest(known)[t]))| < w.last
      {
        TakenExactlyWhen(known, w.last, t);
      }
    }
  }

  lemma RankedDistinct(known: seq<Entry>)
    requires OneTimestampPerTag(known)
    ensures DistinctTags(Ranked(known))
  {
    var l := Ranked(known);
    RankedFacts(known);
    forall i, j | 0 <= i < j < |l| ensures l[i].tag != l[j].tag {
      var a, b := l[i], l[j];
      assert a in known && b in known && Newer(a, b);
      LessTotal(a.tag, a.tag);
    }
  }

  /** With one timestamp per tag nothing is crowded out. */
  lemma CrowdIsAbove(known: seq<Entry>, t: string)
    requires OneTimestampPerTag(known) && t in Newest(known)
    ensures var e := Entry(t, Newest(known)[t]); |Crowd(Elements(known), e)| <= |Above(Newest(known), e)|
  {
    var l, e := Ranked(known), Entry(t, Newest(known)[t]);
    RankedFacts(known);
    RankedDistinct(known);
    var j :| 0 <= j < |l| && l[j] == e;
    CrowdIsPosition(known, j);
    TagsCardinality(l[..j]);
    BeforeIsAbove(known, j, t);
    SubsetCardinality(Tags(l[..j]), Above(Newest(known), e));
  }

  /** With one timestamp per tag `select` is exactly the window. */
  lemma SelectIsWindow(w: Window, known: seq<Entry>)
    requires OneTimestampPerTag(known)
    ensures Select(w, known) == Chosen(w, Newest(known))
  {
    forall t | t in Top(Newest(known), w.last)
      ensures |Crowd(Elements(known), Entry(t, Newest(known)[t]))| < w.last
    {
      CrowdIsAbove(known, t);
    }
    SelectExactlyWhen(w, known);
  }

  predicate NoRepeats(s: seq<Entry>)
  {
    |s| < 2 || (s[0].tag != s[1].tag && NoRepeats(s[1..]))
  }

  lemma {:induction false} DedupAlternates(s: seq<Entry>, previous: Option<string>)
    ensures NoRepeats(Dedup(s, previous))
    ensures Dedup(s, previous) != [] ==> previous != Some(Dedup(s, previous)[0].tag)
  {
    if s != [] {
      if previous == Some(s[0].tag) {
        DedupAlternates(s[1..], previous);
      } else {
        DedupAlternates(s[1..], Some(s[0].tag));
        assert ([s[0]] + Dedup(s[1..], Some(s[0].tag)))[1..] == Dedup(s[1..], Some(s[0].tag));
      }
    }
  }

  lemma FirstTwoDiffer(known: seq<Entry>, n: nat)
    requires n <= 2 && n <= |Ranked(known)|
    ensures DistinctTags(Ranked(known)[..n])
  {
    DedupAlternates(Sort(known), None);
  }

  lemma NotCrowdedOut(known: seq<Entry>, n: nat, t: string)
    requires n <= 2 && t in Top(Newest(known), n)
    ensures t in Tags(Prefix(Ranked(known), n))
  {
    var l, m := Ranked(known), Newest(known);
    NewestKeys(known);
    if n <= |l| {
      FirstTwoDiffer(known, n);
      TagsCardinality(l[..n]);
      if t !in Tags(l[..n]) {
        BeforeIsAbove(known, n, t);
        SubsetCardinality(Tags(l[..n]), Above(m, Entry(t, m[t])));
      }
    }
  }

  /** Windows of up to two tags are exact for any input: the first two ranked
      entries have different tags. */
  lemma SmallWindowIsExact(w: Window, known: seq<Entry>)
    requires w.last <= 2
    ensures Select(w, known) == Chosen(w, Newest(known))
  {
    SelectWithinWindow(w, known);
    NewestKeys(known);
    forall t | t in Top(Newest(known), w.last) ensures t in Tags(Prefix(Ranked(known), w.last)) {
      NotCrowdedOut(known, w.last, t);
    }
  }

  lemma TagsOfFour(k: seq<Entry>)
    requires |k| == 4 && k[0].tag == k[2].tag
    ensures Tags(k[..3]) == {k[0].tag, k[1].tag}
    ensures Tags(k) == {k[0].tag, k[1].tag, k[3].tag}
  {
    assert k[..3][0] == k[0] && k[..3][1] == k[1];
    assert k == k[..3] + [k[3]];
    TagsAppend(k[..3], k[3]);
  }

  /** Without adjacent repetitions there is nothing to drop. */
  lemma {:induction false} DedupFixed(s: seq<Entry>, previous: Option<string>)
    requires s != [] ==> previous != Some(s[0].tag)
    requires NoRepeats(s)
    ensures Dedup(s, previous) == s
  {
    if s != [] { DedupFixed(s[1..], Some(s[0].tag)); }
  }

  lemma {:induction false} InsertLast(e: Entry, s: seq<Entry>)
    requires forall x :: x in s ==> Newer(x, e)
    ensures Insert(e, s) == s + [e]
  {
    if s != [] { InsertLast(e, s[1..]); }
  }

  /** Sorting leaves a newest-first list as it is. */
  lemma {:induction false} SortedIsFixed(s: seq<Entry>)
    requires StrictlyDescending(s)
    ensures Sort(s) == s
  {
    if s != [] {
      var front, e := s[..|s| - 1], s[|s| - 1];
      SortedIsFixed(front);
      InsertLast(e, front);
    }
  }

  lemma SelectAlternating(known: seq<Entry>, n: nat)
    requires StrictlyDescending(known) && n < |known|
    requires NoRepeats(known)
    ensures Select(Window(false, n, {}), known) == Tags(known[..n])
    ensures Newest(known).Keys == Tags(known)
  {
    SortedIsFixed(known);
    DedupFixed(known, None);
    NewestKeys(known);
  }

  /** No more tags than places: all are kept. */
  lemma TopOfFew(m: map<string, nat>, n: nat)
    requires |m.Keys| <= n
    ensures Top(m, n) == m.Keys
  {
    forall t | t in m ensures t in Top(m, n) {
      var e := Entry(t, m[t]);
      NewerTotal(e, e);
      SubsetCardinality(Above(m, e), m.Keys - {t});
    }
  }

  /** The plain claim is false: a tag known at two timestamps with another
      tag between them (a, b, a, c, each older than the one before) takes two
      of three places, so the third tag is missed. */
  lemma SelectCanMissATag(k: seq<Entry>)
    requires |k| == 4 && k[0].tag == k[2].tag && |{k[0].tag, k[1].tag, k[3].tag}| == 3
    requires k[0].ts > k[1].ts > k[2].ts > k[3].ts
    ensures Select(Window(false, 3, {}), k) == {k[0].tag, k[1].tag}
    ensures Chosen(Window(false, 3, {}), Newest(k)) == {k[0].tag, k[1].tag, k[3].tag}
  {
    assert NoRepeats(k[2..]) && k[1..][1..] == k[2..];
    SelectAlternating(k, 3);
    TagsOfFour(k);
    TopOfFew(Newest(k), 3);
  }

  /** A wider window never selects less. */
  lemma SelectMonotone(w: Window, w': Window, known: seq<Entry>)
    requires (w.full ==> w'.full) && w.last <= w'.last && w.tags <= w'.tags
    ensures Select(w, known) <= Select(w', known)
  {
    var l := Ranked(known);
    assert forall e :: e in Prefix(l, w.last) ==> e in Prefix(l, w'.last) && e in l;
  }

  // ------------------------------------------------------------ idempotence

  function Keep(s: seq<Entry>, tags: set<string>): (r: seq<Entry>)
    ensures |r| <= |s|
  {
    if s == [] then []
    else if s[0].tag in tags then [s[0]] + Keep(s[1..], tags)
    else Keep(s[1..], tags)
  }

  lemma {:induction false} KeepMembers(s: seq<Entry>, tags: set<string>)
    ensures forall e :: e in Keep(s, tags) <==> e in s && e.tag in tags
  {
    if s != [] {
      KeepMembers(s[1..], tags);
      assert s == [s[0]] + s[1..];
    }
  }

  lemma KeepCons(h: Entry, s: seq<Entry>, tags: set<string>)
    ensures Keep([h] + s, tags) == if h.tag in tags then [h] + Keep(s, tags) else Keep(s, tags)
  {
    assert ([h] + s)[1..] == s;
  }

  lemma {:induction false} KeepAppend(s: seq<Entry>, e: Entry, tags: set<string>)
    ensures Keep(s + [e], tags) == if e.tag in tags then Keep(s, tags) + [e] else Keep(s, tags)
  {
    if s == [] {
      KeepCons(e, [], tags);
      assert [] + [e] == [e] + [];
    } else {
      assert (s + [e])[1..] == s[1..] + [e];
      KeepAppend(s[1..], e, tags);
    }
  }

  /** An entry no older than the rest goes first. */
  lemma InsertFirst(e: Entry, s: seq<Entry>)
    requires forall x :: x in s ==> e == x || Newer(e, x)
    ensures Insert(e, s) == [e] + s
  {
    if s != [] { NewerTotal(e, s[0]); }
  }

  lemma InsertCons(e: Entry, h: Entry, s: seq<Entry>)
    requires Newer(h, e)
    ensures Insert(e, [h] + s) == [h] + Insert(e, s)
  {
    assert ([h] + s)[1..] == s;
  }

  lemma {:induction false} KeepInsert(e: Entry, s: seq<Entry>, tags: set<string>)
    requires Descending(s)
    ensures Keep(Insert(e, s), tags) == if e.tag in tags then Insert(e, Keep(s, tags)) else Keep(s, tags)
  {
    if s == [] || !Newer(s[0], e) {
      forall x | x in s ensures e == x || Newer(e, x) {
        NewerTotal(e, s[0]);
        if e != s[0] && s[0] != x { NewerTransitive(e, s[0], x); }
      }
      KeepMembers(s, tags);
      InsertFirst(e, Keep(s, tags));
      KeepCons(e, s, tags);
    } else {
      var h, t := s[0], s[1..];
      assert s == [h] + t;
      KeepInsert(e, t, tags);
      InsertCons(e, h, t);
      KeepCons(h, Insert(e, t), tags);
      KeepCons(h, t, tags);
      InsertCons(e, h, Keep(t, tags));
    }
  }

  lemma SortAppend(s: seq<Entry>, e: Entry)
    ensures Sort(s + [e]) == Insert(e, Sort(s))
  {
    assert (s + [e])[..|s|] == s;
  }

  lemma {:induction false} KeepSort(known: seq<Entry>, tags: set<string>)
    ensures Sort(Keep(known, tags)) == Keep(Sort(known), tags)
  {
    if known != [] {
      var front, e := known[..|known| - 1], known[|known| - 1];
      assert known == front + [e];
      KeepSort(front, tags);
      SortDescending(front);
      KeepInsert(e, Sort(front), tags);
      KeepAppend(front, e, tags);
      SortAppend(Keep(front, tags), e);
      SortAppend(front, e);
    }
  }

  lemma PrefixCons(e: Entry, s: seq<Entry>, n: nat)
    requires n > 0
    ensures Prefix([e] + s, n) == [e] + Prefix(s, n - 1)
  {
  }

  /** Dropping tags the prefix does not use leaves the prefix as it is. */
  lemma {:induction false} KeepPrefix(s: seq<Entry>, previous: Option<string>, n: nat, tags: set<string>)
    requires Tags(Prefix(Dedup(s, previous), n)) <= tags
    requires previous.Some? ==> previous.value in tags
    ensures Prefix(Dedup(Keep(s, tags), previous), n) == Prefix(Dedup(s, previous), n)
  {
    if s != [] && n > 0 {
      var k := Keep(s[1..], tags);
      if previous == Some(s[0].tag) {
        assert ([s[0]] + k)[1..] == k;
        KeepPrefix(s[1..], previous, n, tags);
      } else {
        var d := Dedup(s[1..], Some(s[0].tag));
        PrefixCons(s[0], d, n);
        assert s[0] in Prefix([s[0]] + d, n);
        assert forall x :: x in Prefix(d, n - 1) ==> x in Prefix([s[0]] + d, n);
        KeepPrefix(s[1..], Some(s[0].tag), n - 1, tags);
        assert ([s[0]] + k)[1..] == k;
        PrefixCons(s[0], Dedup(k, Some(s[0].tag)), n);
      }
    }
  }

  /** Selecting again from what was kept keeps all of it, for any input. */
  lemma SelectIdempotent(w: Window, known: seq<Entry>)
    ensures Select(w, Keep(known, Select(w, known))) == Select(w, known)
  {
    var tags := Select(w, known);
    var l := Ranked(known);
    var n := if w.full then |known| else w.last;
    assert w.full ==> Prefix(l, n) == l;
    KeepSort(known, tags);
    KeepPrefix(Sort(known), None, n, tags);
  }

  // ------------------------------------------- what is selected, in plain terms

  /** Fixed tags are in, the others are known tags, and unless everything is
      kept there are at most `last` of those. */
  predicate Keeps(w: Window, known: seq<Entry>, out: set<string>)
  {
    && w.tags <= out
    && (forall t :: t in out ==> t in w.tags || exists e :: e in known && e.tag == t)
    && (w.full ==> forall e :: e in known ==> e.tag in out)
    && (!w.full ==> |out| <= |w.tags| + w.last)
  }

  /** A tag selected for being new enough brings with it every tag released
      later, or in the same second with a greater name. `x` is the newest known
      release of its tag. */
  predicate PrefersNewer(w: Window, known: seq<Entry>, out: set<string>)
  {
    forall x, y :: x in known && y in known && x.tag in out && x.tag !in w.tags ==>
      (forall z :: z in known && z.tag == x.tag ==> z.ts <= x.ts) ==>
      (y.ts > x.ts || (y.ts == x.ts && Less(x.tag, y.tag))) ==>
      y.tag in out
  }

  /** No place is left empty: `last` known tags are in, or all. */
  predicate FillsUp(w: Window, known: seq<Entry>, out: set<string>)
  {
    (exists e :: e in known && e.tag !in out) ==> |set e | e in known && e.tag in out :: e.tag| >= w.last
  }

  lemma UnionSize<T>(a: set<T>, b: set<T>)
    ensures |a + b| <= |a| + |b|
  {
    SubsetCardinality(b - a, b);
    assert a + b == a + (b - a);
  }

  lemma SelectKeeps(w: Window, known: seq<Entry>)
    ensures Keeps(w, known, Select(w, known))
  {
    var taken := Prefix(Ranked(known), w.last);
    NewestKeys(known);
    TagsCardinality(taken);
    assert forall e :: e in taken ==> e in Ranked(known);
    RankedFacts(known);
    if !w.full { UnionSize(w.tags, Tags(taken)); }
    forall t | t in Select(w, known) ensures t in w.tags || exists e :: e in known && e.tag == t {
      if t !in w.tags { assert t in Tags(known); }
    }
    forall e | e in known && w.full ensures e.tag in Select(w, known) { assert e.tag in Tags(known); }
  }

  lemma NewerIsTaken(w: Window, known: seq<Entry>, x: Entry, y: Entry)
    requires !w.full && x in known && y in known && x.tag in Select(w, known) && x.tag !in w.tags
    requires forall z :: z in known && z.tag == x.tag ==> z.ts <= x.ts
    requires y.ts > x.ts || (y.ts == x.ts && Less(x.tag, y.tag))
    ensures y.tag in Select(w, known)
  {
    var m := Newest(known);
    NewestIsNewest(known);
    assert Entry(x.tag, m[x.tag]) in known;
    var best := Entry(y.tag, m[y.tag]);
    TakenExactlyWhen(known, w.last, x.tag);
    TakenExactlyWhen(known, w.last, y.tag);
    assert Newer(y, x) && (best == y || Newer(best, y));
    if best != y { NewerTransitive(best, y, x); }
    forall e | e in Crowd(Elements(known), best) ensures e in Crowd(Elements(known), x) {
      NewerTransitive(e, best, x);
    }
    SubsetCardinality(Crowd(Elements(known), best), Crowd(Elements(known), x));
  }

  lemma SelectPrefersNewer(w: Window, known: seq<Entry>)
    ensures PrefersNewer(w, known, Select(w, known))
  {
    SelectKeeps(w, known);
    forall x, y | x in known && y in known && x.tag in Select(w, known) && x.tag !in w.tags
      && (forall z :: z in known && z.tag == x.tag ==> z.ts <= x.ts)
      && (y.ts > x.ts || (y.ts == x.ts && Less(x.tag, y.tag)))
      ensures y.tag in Select(w, known)
    {
      if !w.full { NewerIsTaken(w, known, x, y); }
    }
  }

  lemma SelectFillsUp(w: Window, known: seq<Entry>)
    requires OneTimestampPerTag(known)
    ensures FillsUp(w, known, Select(w, known))
  {
    var l, out := Ranked(known), Select(w, known);
    NewestKeys(known);
    if exists e :: e in known && e.tag !in out {
      var e :| e in known && e.tag !in out;
      assert e.tag in Tags(known);
      RankedDistinct(known);
      assert !w.full && w.last < |l|;
      TagsCardinality(l[..w.last]);
      var there := set e | e in known && e.tag in out :: e.tag;
      forall t | t in Tags(l[..w.last]) ensures t in there {
        var x :| x in l[..w.last] && x.tag == t;
        assert x in l && t in Tags(l) && t in Tags(known);
      }
      SubsetCardinality(Tags(l[..w.last]), there);
    }
  }

  lemma FirstIsNewest(known: seq<Entry>, y: Entry)
    requires y in known && Ranked(known) != [] && y != Ranked(known)[0]
    ensures Newer(Ranked(known)[0], y)
  {
    var l, m := Ranked(known), Newest(known);
    RankedFacts(known);
    NewestIsNewest(known);
    var best := Entry(y.tag, m[y.tag]);
    var j :| 0 <= j < |l| && l[j] == best;
    if best != y { assert Newer(best, y); }
    if j > 0 && best != y { NewerTransitive(l[0], best, y); }
  }

  /** With a window of one the only unfixed tag selected is that of the
      release that is newest, the greater tag winning within one second. */
  lemma SelectLatest(w: Window, known: seq<Entry>) returns (x: Entry)
    requires !w.full && w.last == 1 && known != []
    ensures x in known && Select(w, known) == w.tags + {x.tag}
    ensures forall y :: y in known && y != x ==> y.ts < x.ts || (y.ts == x.ts && Less(y.tag, x.tag))
  {
    var l := Ranked(known);
    NewestKeys(known);
    RankedFacts(known);
    assert known[0] in known && known[0].tag in Tags(known);
    x := l[0];
    assert Prefix(l, 1) == [x] && Tags([x]) == {x.tag};
    forall y | y in known && y != x ensures Newer(x, y) { FirstIsNewest(known, y); }
  }

  /** The sort. */
  method SortLoop(known: seq<Entry>) returns (sorted: seq<Entry>)
    ensures sorted == Sort(known)
  {
    sorted := [];
    for i := 0 to |known|
      invariant sorted == Sort(known[..i])
    {
      assert known[..i + 1][..i] == known[..i];
      sorted := Insert(known[i], sorted);
    }
    assert known[..|known|] == known;
  }

  /** The fixed tags, then all ranked tags or the first `last` of them. */
  method TakeLoop(w: Window, ranked: seq<Entry>) returns (out: set<string>)
    ensures out == w.tags + if w.full then Tags(ranked) else Tags(Prefix(ranked, w.last))
  {
    out := w.tags;
    var n := if w.full then |ranked| else if w.last < |ranked| then w.last else |ranked|;
    for i := 0 to n
      invariant out == w.tags + Tags(ranked[..i])
    {
      TagsAppend(ranked[..i], ranked[i]);
      assert ranked[..i + 1] == ranked[..i] + [ranked[i]];
      out := out + {ranked[i].tag};
    }
    assert ranked[..|ranked|] == ranked;
  }

  /** `Window::select`: sort, drop adjacent repetitions, take. */
  method SelectLoop(w: Window, known: seq<Entry>) returns (out: set<string>)
    ensures out == Select(w, known)
    ensures Keeps(w, known, out) && PrefersNewer(w, known, out)
    ensures OneTimestampPerTag(known) ==> FillsUp(w, known, out)
  {
    var sorted := SortLoop(known);
    var ranked := DedupLoop(sorted);
    out := TakeLoop(w, ranked);
    SelectKeeps(w, known);
    SelectPrefersNewer(w, known);
    if OneTimestampPerTag(known) { SelectFillsUp(w, known); }
  }
}
