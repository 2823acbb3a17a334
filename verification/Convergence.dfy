/** Replication of one foreign image under a fixed window: what announcements,
    inventory syncs, pulls and prunings, step by step interleaved, leave in the
    store (crates/ocid/src/node.rs, `select_wanted`, `on_announcement`,
    `sync_with`, `get_or_fetch`, `enforce_window`). */
module Convergence {
  import opened Text
  import opened Windows

  /** A listing of the local releases of the image, in whatever order the
      store returns them. */
  predicate Lists(listing: seq<Entry>, local: map<string, nat>)
  {
    && DistinctTags(listing)
    && Tags(listing) == local.Keys
    && forall e :: e in listing ==> e.tag in local && local[e.tag] == e.ts
  }

  function Restrict(m: map<string, nat>, tags: set<string>): map<string, nat>
  {
    map t | t in m && t in tags :: m[t]
  }

  /** `Index::put_release` seen through tags and timestamps: an older release
      never replaces a newer one, a tie keeps the timestamp. */
  function RecordAll(m: map<string, nat>, s: seq<Entry>): map<string, nat>
  {
    if s == [] then m else Record(RecordAll(m, s[..|s| - 1]), s[|s| - 1])
  }

  lemma {:induction false} RecordAllFacts(m: map<string, nat>, s: seq<Entry>)
    ensures forall t :: t in m ==> t in RecordAll(m, s) && RecordAll(m, s)[t] >= m[t]
    ensures forall e :: e in s ==> e.tag in RecordAll(m, s) && RecordAll(m, s)[e.tag] >= e.ts
    ensures forall t :: t in RecordAll(m, s) ==>
      (t in m && RecordAll(m, s)[t] == m[t]) || Entry(t, RecordAll(m, s)[t]) in s
  {
    if s != [] {
      RecordAllFacts(m, s[..|s| - 1]);
      assert s == s[..|s| - 1] + [s[|s| - 1]];
    }
  }

  lemma RecordOne(m: map<string, nat>, e: Entry)
    ensures RecordAll(m, [e]) == Record(m, e)
  {
    assert [e][..0] == [];
    assert RecordAll(m, []) == m;
  }

  lemma {:induction false} RecordAllConcat(m: map<string, nat>, a: seq<Entry>, b: seq<Entry>)
    ensures RecordAll(m, a + b) == RecordAll(RecordAll(m, a), b)
  {
    if b == [] {
      assert a + b == a;
    } else {
      assert (a + b)[..|a + b| - 1] == a + b[..|b| - 1];
      RecordAllConcat(m, a, b[..|b| - 1]);
    }
  }

  /** Recording looks at which releases there are, not at their order or
      number. */
  lemma RecordingIsUnordered(m: map<string, nat>, a: seq<Entry>, b: seq<Entry>)
    requires forall e :: e in a <==> e in b
    ensures RecordAll(m, a) == RecordAll(m, b)
  {
    RecordAllFacts(m, a);
    RecordAllFacts(m, b);
    var x, y := RecordAll(m, a), RecordAll(m, b);
    assert forall t :: t in x <==> t in y;
    assert forall t :: t in x ==> x[t] <= y[t] && y[t] <= x[t];
  }

  lemma {:induction false} NewestConcat(a: seq<Entry>, b: seq<Entry>)
    ensures Newest(a + b) == RecordAll(Newest(a), b)
  {
    if b == [] {
      assert a + b == a;
    } else {
      assert (a + b)[..|a + b| - 1] == a + b[..|b| - 1];
      NewestConcat(a, b[..|b| - 1]);
    }
  }

  lemma ListingNewest(listing: seq<Entry>, local: map<string, nat>)
    requires Lists(listing, local)
    ensures Newest(listing) == local
    ensures OneTimestampPerTag(listing)
  {
    NewestIsNewest(listing);
    NewestKeys(listing);
  }

  // ------------------------------------------- newest tags under partial loss

  lemma {:induction false} Oldest(m: map<string, nat>, s: set<string>) returns (x: string)
    requires s != {} && s <= m.Keys
    ensures x in s && forall u :: u in s ==> u == x || Newer(Entry(u, m[u]), Entry(x, m[x]))
    decreases |s|
  {
    x :| x in s;
    if s != {x} {
      var y := Oldest(m, s - {x});
      NewerTotal(Entry(x, m[x]), Entry(y, m[y]));
      if Newer(Entry(x, m[x]), Entry(y, m[y])) {
        x := y;
      } else {
        forall u | u in s && u != x && u != y ensures Newer(Entry(u, m[u]), Entry(x, m[x])) {
          NewerTransitive(Entry(u, m[u]), Entry(y, m[y]), Entry(x, m[x]));
        }
      }
    }
  }

  lemma AboveTransitive(m: map<string, nat>, e: Entry, x: string)
    requires x in Above(m, e)
    ensures Above(m, Entry(x, m[x])) <= Above(m, e) - {x}
  {
    NewerTotal(Entry(x, m[x]), Entry(x, m[x]));
    forall u | u in Above(m, Entry(x, m[x])) ensures u in Above(m, e) {
      NewerTransitive(Entry(u, m[u]), Entry(x, m[x]), e);
    }
  }

  /** If at least `n` tags are above an entry, `n` of the newest ones are. */
  lemma {:induction false} TopFillsAbove(m: map<string, nat>, e: Entry, n: nat)
    requires |Above(m, e)| >= n
    ensures |Top(m, n) * Above(m, e)| >= n
    decreases |Above(m, e)|
  {
    var above := Above(m, e);
    if |above| == n {
      forall x | x in above ensures x in Top(m, n) {
        AboveTransitive(m, e, x);
        SubsetCardinality(Above(m, Entry(x, m[x])), above - {x});
      }
      assert Top(m, n) * above == above;
    } else {
      var x := Oldest(m, above);
      AboveTransitive(m, e, x);
      var higher := Above(m, Entry(x, m[x]));
      assert above - {x} <= higher;
      assert higher == above - {x};
      TopFillsAbove(m, Entry(x, m[x]), n);
      SubsetCardinality(Top(m, n) * higher, Top(m, n) * above);
    }
  }

  /** `part` knows a subset of the tags, none at a newer timestamp. */
  predicate Below(part: map<string, nat>, m: map<string, nat>)
  {
    part.Keys <= m.Keys && forall t :: t in part ==> part[t] <= m[t]
  }

  /** `part` misses nothing of the window of `m`. */
  predicate HoldsWindow(w: Window, part: map<string, nat>, m: map<string, nat>)
  {
    forall t :: t in m && t in Chosen(w, m) ==> t in part && part[t] == m[t]
  }

  lemma AboveShrinks(part: map<string, nat>, m: map<string, nat>, e: Entry)
    requires Below(part, m)
    ensures Above(part, e) <= Above(m, e)
  {
    forall u | u in Above(part, e) ensures u in Above(m, e) {
      if m[u] != part[u] { NewerTransitive(Entry(u, m[u]), Entry(u, part[u]), e); }
    }
  }

  /** Losing what is outside the window does not move the window. */
  lemma WindowIsStable(w: Window, part: map<string, nat>, m: map<string, nat>, t: string)
    requires Below(part, m) && HoldsWindow(w, part, m) && t in part
    ensures t in Chosen(w, part) <==> t in Chosen(w, m)
  {
    if !w.full && t !in w.tags {
      var mine, best := Entry(t, part[t]), Entry(t, m[t]);
      if t in Top(m, w.last) {
        AboveShrinks(part, m, best);
        SubsetCardinality(Above(part, best), Above(m, best));
      } else {
        TopFillsAbove(m, best, w.last);
        var blockers := Top(m, w.last) * Above(m, best);
        forall u | u in blockers ensures u in Above(part, mine) {
          assert u in Chosen(w, m);
          if best != mine { NewerTransitive(Entry(u, m[u]), best, mine); }
        }
        SubsetCardinality(blockers, Above(part, mine));
      }
    }
  }

  /** Pruning a partial view that holds the window gives the window of the
      whole. */
  lemma PruningSettles(w: Window, part: map<string, nat>, m: map<string, nat>)
    requires Below(part, m) && HoldsWindow(w, part, m)
    ensures Restrict(part, Chosen(w, part)) == Restrict(m, Chosen(w, m))
  {
    forall t | t in part ensures t in Chosen(w, part) <==> t in Chosen(w, m) {
      WindowIsStable(w, part, m, t);
    }
  }

  /** Does the store hold only what is inside its own window? */
  predicate WithinWindow(w: Window, local: map<string, nat>)
  {
    Restrict(local, Chosen(w, local)) == local
  }

  lemma PruningIdempotent(w: Window, m: map<string, nat>)
    ensures var kept := Restrict(m, Chosen(w, m)); Restrict(kept, Chosen(w, kept)) == kept
  {
    PruningSettles(w, Restrict(m, Chosen(w, m)), m);
  }

  // -------------------------------------------------------------- decisions

  function Wanted(local: map<string, nat>, selected: set<string>, remote: seq<Entry>): (r: seq<Entry>)
    ensures forall e :: e in r <==>
      e in remote && e.tag in selected && (e.tag in local ==> e.ts > local[e.tag])
  {
    if remote == [] then []
    else
      var e := remote[|remote| - 1];
      var front := remote[..|remote| - 1];
      assert remote == front + [e];
      Wanted(local, selected, front)
      + if e.tag in selected && (e.tag in local ==> e.ts > local[e.tag]) then [e] else []
  }

  /** `select_wanted`: inside the window of local and remote knowledge, and
      newer than what is held. */
  function SelectWanted(w: Window, local: map<string, nat>, listing: seq<Entry>, remote: seq<Entry>): seq<Entry>
  {
    if w.IsEmpty() then [] else Wanted(local, Select(w, listing + remote), remote)
  }

  /** Removing one tag's repetitions leaves the rest of the prefix distinct. */
  lemma PrefixDistinctWithout(listing: seq<Entry>, local: map<string, nat>, e: Entry, n: nat)
    requires Lists(listing, local)
    requires n <= |Ranked(listing + [e])| && e.tag !in Tags(Ranked(listing + [e])[..n])
    ensures DistinctTags(Ranked(listing + [e])[..n])
  {
    var known := listing + [e];
    var l := Ranked(known)[..n];
    RankedFacts(known);
    forall i, j | 0 <= i < j < |l| ensures l[i].tag != l[j].tag {
      var a, b := l[i], l[j];
      assert Ranked(known)[i] == a && Ranked(known)[j] == b && Newer(a, b);
      assert a in l && b in l && a in Ranked(known) && b in Ranked(known);
      assert a in listing && b in listing;
      LessTotal(a.tag, a.tag);
    }
  }

  lemma NewestWithOne(listing: seq<Entry>, local: map<string, nat>, e: Entry)
    requires Lists(listing, local) && (e.tag in local ==> e.ts > local[e.tag])
    ensures Newest(listing + [e]) == local[e.tag := e.ts]
  {
    ListingNewest(listing, local);
    NewestConcat(listing, [e]);
    assert RecordAll(local, []) == local && [e][..0] == [];
  }

  /** A full prefix of distinct tags has `n` tags above any tag it misses. */
  lemma FullPrefixBlocks(known: seq<Entry>, n: nat, t: string)
    requires n <= |Ranked(known)| && DistinctTags(Ranked(known)[..n])
    requires t in Newest(known) && t !in Tags(Ranked(known)[..n])
    ensures |Above(Newest(known), Entry(t, Newest(known)[t]))| >= n
  {
    TagsCardinality(Ranked(known)[..n]);
    BeforeIsAbove(known, n, t);
    SubsetCardinality(Tags(Ranked(known)[..n]), Above(Newest(known), Entry(t, Newest(known)[t])));
  }

  /** A release declined though newer than the held one has the whole window
      above it: for a single announcement the decision is exact. */
  lemma DeclinedIsOutside(w: Window, local: map<string, nat>, listing: seq<Entry>, e: Entry)
    requires Lists(listing, local) && !w.IsEmpty()
    requires SelectWanted(w, local, listing, [e]) == []
    requires e.tag in local ==> e.ts > local[e.tag]
    ensures !w.full && e.tag !in w.tags && |Above(local, e)| >= w.last
  {
    var known := listing + [e];
    var l := Ranked(known);
    assert e in [e] && e.tag !in Select(w, known);
    NewestWithOne(listing, local, e);
    NewestKeys(known);
    PrefixDistinctWithout(listing, local, e, w.last);
    FullPrefixBlocks(known, w.last, e.tag);
    NewerTotal(e, e);
    assert Above(Newest(known), e) == Above(local, e);
  }

  // --------------------------------------------------- what a decision misses

  function Held(local: map<string, nat>): set<Entry>
  {
    set t | t in local :: Entry(t, local[t])
  }

  lemma KnownElements(local: map<string, nat>, listing: seq<Entry>, remote: seq<Entry>)
    requires Lists(listing, local)
    ensures Elements(listing + remote) == Held(local) + Elements(remote)
    ensures Newest(listing + remote) == RecordAll(local, remote)
  {
    ListingNewest(listing, local);
    NewestConcat(listing, remote);
    assert Elements(listing) == Held(local) by {
      forall t | t in local ensures Entry(t, local[t]) in listing {
        var e :| e in listing && e.tag == t;
      }
    }
  }

  lemma SelectedExactlyWhen(w: Window, known: seq<Entry>, t: string)
    requires t in Newest(known)
    ensures t in Select(w, known) <==>
            t in w.tags || w.full || |Crowd(Elements(known), Entry(t, Newest(known)[t]))| < w.last
  {
    NewestKeys(known);
    TakenExactlyWhen(known, w.last, t);
  }

  /** The tags the window of local and remote together owes for being among the
      newest, not yet held at their newest, and crowded out. */
  function PassedOver(w: Window, local: map<string, nat>, remote: seq<Entry>): set<string>
  {
    var merged := RecordAll(local, remote);
    if w.full then {}
    else
      set t | t in Top(merged, w.last) && t !in w.tags && !(t in local && local[t] == merged[t])
              && |Crowd(Held(local) + Elements(remote), Entry(t, merged[t]))| >= w.last
  }

  predicate NothingPassedOver(w: Window, local: map<string, nat>, remote: seq<Entry>)
  {
    PassedOver(w, local, remote) == {}
  }

  /** They are exactly the tags of that window that are neither held at their
      newest nor selected. */
  lemma PassedOverExactlyWhen(w: Window, local: map<string, nat>, listing: seq<Entry>, remote: seq<Entry>, t: string)
    requires Lists(listing, local) && t in RecordAll(local, remote)
    ensures t in PassedOver(w, local, remote) <==>
            && t in Chosen(w, RecordAll(local, remote))
            && !(t in local && local[t] == RecordAll(local, remote)[t])
            && t !in Select(w, listing + remote)
  {
    KnownElements(local, listing, remote);
    SelectedExactlyWhen(w, listing + remote, t);
  }

  /** After the fetches a tag is at its newest exactly when it was before, or
      was selected. */
  lemma FetchedFacts(w: Window, local: map<string, nat>, listing: seq<Entry>, remote: seq<Entry>)
    requires Lists(listing, local) && !w.IsEmpty()
    ensures var merged := RecordAll(local, remote);
            var fetched := RecordAll(local, SelectWanted(w, local, listing, remote));
            Below(fetched, merged)
            && forall t :: t in merged ==>
                 (t in fetched && fetched[t] == merged[t]
                  <==> (t in local && local[t] == merged[t]) || t in Select(w, listing + remote))
  {
    var merged := RecordAll(local, remote);
    var wanted := SelectWanted(w, local, listing, remote);
    RecordAllFacts(local, remote);
    RecordAllFacts(local, wanted);
    assert forall t :: t in merged && !(t in local && local[t] == merged[t]) ==> Entry(t, merged[t]) in remote;
  }

  // ---------------------------------------------------- interleaved handling

  /** The image: what is stored; which announced releases are being fetched; of
      each inventory sync under way, what it has decided to fetch and not yet
      received; how many announced fetches still have their pruning ahead of
      them; and whether, since the last pruning, a release was pulled
      (`get_or_fetch`, after which nothing is pruned) or the policy changed. */
  datatype Image = Image(
    local: map<string, nat>,
    fetching: multiset<Entry>,
    syncs: map<nat, multiset<Entry>>,
    prunes: nat,
    pulled: bool)

  /** Decide on an announcement, finish its fetch (the peer may hand over a
      newer release than the announced one), give it up, or run the pruning
      that follows it; decide on an inventory, receive one of the releases
      wanted of it, or prune after the last one; store a pulled release; prune
      for another reason (gc, policy). */
  datatype Event =
    | Announce(listing: seq<Entry>, e: Entry)
    | Deliver(e: Entry, got: Entry)
    | Fail(e: Entry)
    | Prune(listing: seq<Entry>)
    | Inventory(id: nat, listing: seq<Entry>, remote: seq<Entry>)
    | Receive(id: nat, e: Entry, got: Entry)
    | Finish(id: nat, listing: seq<Entry>)
    | Pull(got: Entry)
    | Tidy(listing: seq<Entry>)

  predicate Enabled(s: Image, ev: Event)
  {
    match ev
    case Announce(listing, _) => Lists(listing, s.local)
    case Deliver(e, _) => e in s.fetching
    case Fail(e) => e in s.fetching
    case Prune(listing) => Lists(listing, s.local) && s.prunes > 0
    case Inventory(id, listing, _) => id !in s.syncs && Lists(listing, s.local)
    case Receive(id, e, got) => id in s.syncs && e in s.syncs[id] && got.tag == e.tag && got.ts >= e.ts
    case Finish(id, listing) => id in s.syncs && s.syncs[id] == multiset{} && Lists(listing, s.local)
    case Pull(_) => true
    case Tidy(listing) => Lists(listing, s.local)
  }

  predicate Declines(w: Window, s: Image, ev: Event)
  {
    ev.Announce? && SelectWanted(w, s.local, ev.listing, [ev.e]) == []
  }

  function Next(w: Window, s: Image, ev: Event): Image
    requires Enabled(s, ev)
  {
    match ev
    case Announce(_, e) => if Declines(w, s, ev) then s else s.(fetching := s.fetching + multiset{e})
    case Deliver(e, got) =>
      s.(local := Record(s.local, got), fetching := s.fetching - multiset{e}, prunes := s.prunes + 1)
    case Fail(e) => s.(fetching := s.fetching - multiset{e})
    case Prune(listing) =>
      s.(local := Restrict(s.local, Select(w, listing)), prunes := s.prunes - 1, pulled := false)
    case Inventory(id, listing, remote) =>
      var wanted := SelectWanted(w, s.local, listing, remote);
      if wanted == [] then s else s.(syncs := s.syncs[id := multiset(wanted)])
    case Receive(id, e, got) =>
      s.(local := Record(s.local, got), syncs := s.syncs[id := s.syncs[id] - multiset{e}])
    case Finish(id, listing) =>
      s.(local := Restrict(s.local, Select(w, listing)), syncs := s.syncs - {id}, pulled := false)
    case Pull(got) => s.(local := Record(s.local, got), pulled := true)
    case Tidy(listing) => s.(local := Restrict(s.local, Select(w, listing)), pulled := false)
  }

  ghost predicate Runs(w: Window, s: Image, evs: seq<Event>, last: Image)
    decreases |evs|
  {
    if evs == [] then s == last
    else Enabled(s, evs[0]) && Runs(w, Next(w, s, evs[0]), evs[1..], last)
  }

  /** Does the step, if it decides on an inventory, pass nothing over? */
  predicate DecidesWell(w: Window, s: Image, ev: Event)
  {
    ev.Inventory? ==> NothingPassedOver(w, s.local, ev.remote)
  }

  /** Does the run pass nothing over? */
  predicate AlwaysDecidesWell(w: Window, s: Image, evs: seq<Event>)
    decreases |evs|
  {
    evs == [] || !Enabled(s, evs[0])
    || (DecidesWell(w, s, evs[0]) && AlwaysDecidesWell(w, Next(w, s, evs[0]), evs[1..]))
  }

  function Dealt(w: Window, s: Image, ev: Event): seq<Entry>
  {
    match ev
    case Announce(_, e) => if Declines(w, s, ev) then [e] else []
    case Deliver(_, got) => [got]
    case Inventory(_, _, remote) => remote
    case Receive(_, e, got) => if got == e then [] else [got]
    case Pull(got) => [got]
    case _ => []
  }

  /** The releases a run dealt with: declined announcements, inventories
      decided on, delivered and pulled releases. */
  function DealtWith(w: Window, s: Image, evs: seq<Event>): seq<Entry>
    decreases |evs|
  {
    if evs == [] || !Enabled(s, evs[0]) then []
    else Dealt(w, s, evs[0]) + DealtWith(w, Next(w, s, evs[0]), evs[1..])
  }

  /** No sync is under way, no pruning is pending, and what was pulled has been
      through one. */
  predicate Settled(s: Image) { s.syncs == map[] && s.prunes == 0 && !s.pulled }

  /** A sync under way is to receive `e`. */
  predicate InFlight(s: Image, e: Entry)
  {
    exists id :: id in s.syncs && e in s.syncs[id]
  }

  predicate HeldOrFetched(s: Image, e: Entry)
  {
    (e.tag in s.local && s.local[e.tag] == e.ts) || InFlight(s, e)
  }

  /** The window of `heard` is held, up to what syncs under way are to
      receive. */
  predicate HoldsOrFetches(w: Window, s: Image, heard: map<string, nat>)
  {
    forall t :: t in heard && t in Chosen(w, heard) ==> HeldOrFetched(s, Entry(t, heard[t]))
  }

  ghost predicate Heard(s: Image, heard: map<string, nat>)
  {
    forall e :: InFlight(s, e) ==> e.tag in heard && heard[e.tag] >= e.ts
  }

  /** `heard` is everything dealt with so far, newest timestamp per tag. */
  ghost predicate Inv(w: Window, s: Image, heard: map<string, nat>)
  {
    && Below(s.local, heard) && Heard(s, heard)
    && HoldsOrFetches(w, s, heard)
    && (Settled(s) ==> WithinWindow(w, s.local))
  }

  /** A larger view with the same newest copy of a tag chooses it less. */
  lemma ChosenFromLarger(w: Window, part: map<string, nat>, m: map<string, nat>, t: string)
    requires Below(part, m) && t in part && part[t] == m[t] && t in Chosen(w, m)
    ensures t in Chosen(w, part)
  {
    AboveShrinks(part, m, Entry(t, m[t]));
    SubsetCardinality(Above(part, Entry(t, m[t])), Above(m, Entry(t, m[t])));
  }

  /** What was in the window before, at the same timestamp, is still there. */
  lemma StillHeldOrFetched(w: Window, s: Image, heard: map<string, nat>, heard': map<string, nat>, t: string)
    requires HoldsOrFetches(w, s, heard) && Below(heard, heard')
    requires t in heard && heard[t] == heard'[t] && t in Chosen(w, heard')
    ensures HeldOrFetched(s, Entry(t, heard[t]))
  {
    ChosenFromLarger(w, heard, heard', t);
  }

  /** A release is stored: announced, pulled, or received by a sync. */
  lemma StoringKeepsTag(w: Window, s: Image, got: Entry, s': Image, heard: map<string, nat>, t: string)
    requires Below(s.local, heard) && HoldsOrFetches(w, s, heard) && s'.local == Record(s.local, got)
    requires forall e :: InFlight(s, e) ==> InFlight(s', e) || (e.tag == got.tag && e.ts <= got.ts)
    requires t in Record(heard, got) && t in Chosen(w, Record(heard, got))
    ensures HeldOrFetched(s', Entry(t, Record(heard, got)[t]))
  {
    if t in heard && Record(heard, got)[t] == heard[t] {
      StillHeldOrFetched(w, s, heard, Record(heard, got), t);
    }
  }

  lemma StoringKeepsWindow(w: Window, s: Image, got: Entry, s': Image, heard: map<string, nat>)
    requires Below(s.local, heard) && HoldsOrFetches(w, s, heard) && s'.local == Record(s.local, got)
    requires forall e :: InFlight(s, e) ==> InFlight(s', e) || (e.tag == got.tag && e.ts <= got.ts)
    ensures Below(s'.local, Record(heard, got)) && HoldsOrFetches(w, s', Record(heard, got))
  {
    forall t | t in Record(heard, got) && t in Chosen(w, Record(heard, got))
      ensures HeldOrFetched(s', Entry(t, Record(heard, got)[t]))
    {
      StoringKeepsTag(w, s, got, s', heard, t);
    }
  }

  /** One that was announced or pulled. */
  lemma StoredKeepsInv(w: Window, s: Image, got: Entry, s': Image, heard: map<string, nat>)
    requires Inv(w, s, heard) && s'.local == Record(s.local, got) && s'.syncs == s.syncs && !Settled(s')
    ensures Inv(w, s', Record(heard, got))
  {
    assert forall e :: InFlight(s', e) <==> InFlight(s, e);
    StoringKeepsWindow(w, s, got, s', heard);
  }

  /** What a sync receives was in flight; the rest still is. */
  lemma ReceiveFlights(w: Window, s: Image, ev: Event)
    requires ev.Receive? && Enabled(s, ev)
    ensures forall e :: InFlight(Next(w, s, ev), e) ==> InFlight(s, e)
    ensures forall e :: InFlight(s, e) ==> e == ev.e || InFlight(Next(w, s, ev), e)
  {
    var s' := Next(w, s, ev);
    forall e | InFlight(s, e) && e != ev.e ensures InFlight(s', e) {
      var id :| id in s.syncs && e in s.syncs[id];
      assert e in s'.syncs[id];
    }
    forall e | InFlight(s', e) ensures InFlight(s, e) {
      var id :| id in s'.syncs && e in s'.syncs[id];
      assert e in s.syncs[id];
    }
  }

  lemma ReceiveIsHeard(w: Window, s: Image, ev: Event, heard: map<string, nat>)
    requires Heard(s, heard) && ev.Receive? && Enabled(s, ev)
    ensures Heard(Next(w, s, ev), Record(heard, ev.got))
  {
    ReceiveFlights(w, s, ev);
  }

  lemma ReceiveKeepsInv(w: Window, s: Image, ev: Event, heard: map<string, nat>)
    requires Inv(w, s, heard) && ev.Receive? && Enabled(s, ev)
    ensures Inv(w, Next(w, s, ev), Record(heard, ev.got))
  {
    ReceiveFlights(w, s, ev);
    StoringKeepsWindow(w, s, ev.got, Next(w, s, ev), heard);
    ReceiveIsHeard(w, s, ev, heard);
    assert ev.id in Next(w, s, ev).syncs;
  }

  /** A declined announcement does not raise its tag into the window. */
  lemma NotRaised(w: Window, s: Image, listing: seq<Entry>, e: Entry, heard: map<string, nat>)
    requires Below(s.local, heard) && !w.IsEmpty() && Lists(listing, s.local)
    requires SelectWanted(w, s.local, listing, [e]) == [] && (e.tag in heard ==> heard[e.tag] < e.ts)
    ensures e.tag !in Chosen(w, Record(heard, e))
  {
    DeclinedIsOutside(w, s.local, listing, e);
    AboveShrinks(s.local, Record(heard, e), e);
    SubsetCardinality(Above(s.local, e), Above(Record(heard, e), e));
  }

  lemma DeclineKeepsInv(w: Window, s: Image, listing: seq<Entry>, e: Entry, heard: map<string, nat>)
    requires Inv(w, s, heard) && !w.IsEmpty() && Lists(listing, s.local)
    requires SelectWanted(w, s.local, listing, [e]) == []
    ensures Inv(w, s, Record(heard, e))
  {
    forall t | t in Record(heard, e) && t in Chosen(w, Record(heard, e))
      ensures HeldOrFetched(s, Entry(t, Record(heard, e)[t]))
    {
      if t in heard && Record(heard, e)[t] == heard[t] {
        StillHeldOrFetched(w, s, heard, Record(heard, e), t);
      } else {
        NotRaised(w, s, listing, e, heard);
      }
    }
  }

  /** A tag an inventory raises into the window is wanted. */
  lemma RaisedIsWanted(w: Window, s: Image, listing: seq<Entry>, remote: seq<Entry>, heard: map<string, nat>, t: string)
    requires Below(s.local, heard) && !w.IsEmpty() && Lists(listing, s.local)
    requires NothingPassedOver(w, s.local, remote)
    requires var heard' := RecordAll(heard, remote);
             t in heard' && t in Chosen(w, heard') && !(t in heard && heard[t] == heard'[t])
    ensures Entry(t, RecordAll(heard, remote)[t]) in SelectWanted(w, s.local, listing, remote)
  {
    var merged, heard' := RecordAll(s.local, remote), RecordAll(heard, remote);
    RecordAllFacts(s.local, remote);
    RecordAllFacts(heard, remote);
    assert Below(merged, heard');
    assert Entry(t, heard'[t]) in remote && merged[t] == heard'[t];
    ChosenFromLarger(w, merged, heard', t);
    PassedOverExactlyWhen(w, s.local, listing, remote, t);
  }

  lemma InventoryFlights(w: Window, s: Image, ev: Event)
    requires ev.Inventory? && Enabled(s, ev)
    ensures forall e :: InFlight(Next(w, s, ev), e) <==>
              InFlight(s, e) || e in SelectWanted(w, s.local, ev.listing, ev.remote)
  {
    var s' := Next(w, s, ev);
    var wanted := SelectWanted(w, s.local, ev.listing, ev.remote);
    if wanted != [] {
      assert forall e :: e in wanted <==> e in multiset(wanted);
      assert ev.id in s'.syncs && s'.syncs[ev.id] == multiset(wanted);
      forall e | InFlight(s, e) ensures InFlight(s', e) {
        var id :| id in s.syncs && e in s.syncs[id];
        assert id in s'.syncs && s'.syncs[id] == s.syncs[id];
      }
    }
  }

  lemma InventoryKeepsTag(w: Window, s: Image, ev: Event, heard: map<string, nat>, t: string)
    requires Inv(w, s, heard) && !w.IsEmpty() && ev.Inventory? && Enabled(s, ev) && DecidesWell(w, s, ev)
    requires t in RecordAll(heard, ev.remote) && t in Chosen(w, RecordAll(heard, ev.remote))
    ensures HeldOrFetched(Next(w, s, ev), Entry(t, RecordAll(heard, ev.remote)[t]))
  {
    RecordAllFacts(heard, ev.remote);
    InventoryFlights(w, s, ev);
    if t in heard && heard[t] == RecordAll(heard, ev.remote)[t] {
      StillHeldOrFetched(w, s, heard, RecordAll(heard, ev.remote), t);
    } else {
      RaisedIsWanted(w, s, ev.listing, ev.remote, heard, t);
    }
  }

  lemma InventoryIsHeard(w: Window, s: Image, ev: Event, heard: map<string, nat>)
    requires Below(s.local, heard) && Heard(s, heard) && ev.Inventory? && Enabled(s, ev)
    ensures Below(s.local, RecordAll(heard, ev.remote)) && Heard(Next(w, s, ev), RecordAll(heard, ev.remote))
  {
    RecordAllFacts(heard, ev.remote);
    InventoryFlights(w, s, ev);
  }

  lemma InventoryKeepsInv(w: Window, s: Image, ev: Event, heard: map<string, nat>)
    requires Inv(w, s, heard) && !w.IsEmpty() && ev.Inventory? && Enabled(s, ev) && DecidesWell(w, s, ev)
    ensures Inv(w, Next(w, s, ev), RecordAll(heard, ev.remote))
  {
    InventoryIsHeard(w, s, ev, heard);
    forall t | t in RecordAll(heard, ev.remote) && t in Chosen(w, RecordAll(heard, ev.remote))
      ensures HeldOrFetched(Next(w, s, ev), Entry(t, RecordAll(heard, ev.remote)[t]))
    {
      InventoryKeepsTag(w, s, ev, heard, t);
    }
    assert Next(w, s, ev) != s ==> ev.id in Next(w, s, ev).syncs;
  }

  /** Pruning takes nothing of the window of everything heard. */
  lemma PruningKeepsInv(w: Window, s: Image, listing: seq<Entry>, s': Image, heard: map<string, nat>)
    requires Inv(w, s, heard) && Lists(listing, s.local)
    requires s'.local == Restrict(s.local, Select(w, listing)) && forall e :: InFlight(s', e) <==> InFlight(s, e)
    ensures Inv(w, s', heard)
  {
    ListingNewest(listing, s.local);
    SelectIsWindow(w, listing);
    PruningIdempotent(w, s.local);
    forall t | t in heard && t in Chosen(w, heard) ensures HeldOrFetched(s', Entry(t, heard[t])) {
      if t in s.local && s.local[t] == heard[t] { ChosenFromLarger(w, s.local, heard, t); }
    }
  }

  lemma FinishKeepsInv(w: Window, s: Image, ev: Event, heard: map<string, nat>)
    requires Inv(w, s, heard) && ev.Finish? && Enabled(s, ev)
    ensures Inv(w, Next(w, s, ev), heard)
  {
    var s' := Next(w, s, ev);
    forall e | InFlight(s, e) ensures InFlight(s', e) {
      var id :| id in s.syncs && e in s.syncs[id];
      assert id in s'.syncs;
    }
    PruningKeepsInv(w, s, ev.listing, s', heard);
  }

  lemma SameFlights(w: Window, s: Image, s': Image, heard: map<string, nat>)
    requires Inv(w, s, heard) && s'.local == s.local && s'.syncs == s.syncs && (Settled(s') ==> Settled(s))
    ensures Inv(w, s', heard)
  {
    assert forall e :: InFlight(s', e) <==> InFlight(s, e);
  }

  lemma AnnouncedStepKeepsInv(w: Window, s: Image, ev: Event, heard: map<string, nat>)
    requires Inv(w, s, heard) && !w.IsEmpty() && Enabled(s, ev) && (ev.Announce? || ev.Deliver? || ev.Fail? || ev.Pull?)
    ensures Inv(w, Next(w, s, ev), RecordAll(heard, Dealt(w, s, ev)))
  {
    if ev.Announce? {
      RecordOne(heard, ev.e);
      if Declines(w, s, ev) {
        DeclineKeepsInv(w, s, ev.listing, ev.e, heard);
      } else {
        SameFlights(w, s, Next(w, s, ev), heard);
      }
    } else if ev.Fail? {
      SameFlights(w, s, Next(w, s, ev), heard);
    } else {
      RecordOne(heard, ev.got);
      StoredKeepsInv(w, s, ev.got, Next(w, s, ev), heard);
    }
  }

  lemma ReceiveStepKeepsInv(w: Window, s: Image, ev: Event, heard: map<string, nat>)
    requires Inv(w, s, heard) && ev.Receive? && Enabled(s, ev)
    ensures Inv(w, Next(w, s, ev), RecordAll(heard, Dealt(w, s, ev)))
  {
    ReceiveKeepsInv(w, s, ev, heard);
    RecordOne(heard, ev.got);
    assert InFlight(s, ev.e);
  }

  lemma StepKeepsInv(w: Window, s: Image, ev: Event, heard: map<string, nat>)
    requires Inv(w, s, heard) && !w.IsEmpty() && Enabled(s, ev) && DecidesWell(w, s, ev)
    ensures Inv(w, Next(w, s, ev), RecordAll(heard, Dealt(w, s, ev)))
  {
    match ev
    case Prune(listing) => PruningKeepsInv(w, s, listing, Next(w, s, ev), heard);
    case Tidy(listing) => PruningKeepsInv(w, s, listing, Next(w, s, ev), heard);
    case Inventory(_, _, _) => InventoryKeepsInv(w, s, ev, heard);
    case Receive(_, _, _) => ReceiveStepKeepsInv(w, s, ev, heard);
    case Finish(_, _) => FinishKeepsInv(w, s, ev, heard);
    case _ => AnnouncedStepKeepsInv(w, s, ev, heard);
  }

  lemma {:induction false} RunKeepsInv(w: Window, s: Image, evs: seq<Event>, last: Image, heard: map<string, nat>)
    requires Inv(w, s, heard) && !w.IsEmpty() && Runs(w, s, evs, last) && AlwaysDecidesWell(w, s, evs)
    ensures Inv(w, last, RecordAll(heard, DealtWith(w, s, evs)))
    decreases |evs|
  {
    if evs != [] {
      var next := Next(w, s, evs[0]);
      var first := Dealt(w, s, evs[0]);
      StepKeepsInv(w, s, evs[0], heard);
      RunKeepsInv(w, next, evs[1..], last, RecordAll(heard, first));
      RecordAllConcat(heard, first, DealtWith(w, next, evs[1..]));
    }
  }

  /** A run may start in any image with no sync under way; one that claims to
      be settled must hold no more than its window. */
  predicate Fresh(w: Window, s: Image)
  {
    s.syncs == map[] && (Settled(s) ==> WithinWindow(w, s.local))
  }

  /** However decisions, deliveries, pulls and prunings interleave, failed
      announcements included: once the image is settled the store holds what
      keeping everything dealt with and selecting once would hold. */
  lemma SettledIsWindow(w: Window, s: Image, evs: seq<Event>, last: Image)
    requires !w.IsEmpty() && Fresh(w, s)
    requires Runs(w, s, evs, last) && AlwaysDecidesWell(w, s, evs) && Settled(last)
    ensures var heard := RecordAll(s.local, DealtWith(w, s, evs));
            last.local == Restrict(heard, Chosen(w, heard))
  {
    var heard := RecordAll(s.local, DealtWith(w, s, evs));
    RunKeepsInv(w, s, evs, last, s.local);
    assert forall e :: !InFlight(last, e);
    PruningSettles(w, last.local, heard);
  }

  /** The releases a run is told of: announced, listed or pulled. */
  function ToldBy(ev: Event): seq<Entry>
  {
    match ev
    case Announce(_, e) => [e]
    case Inventory(_, _, remote) => remote
    case Pull(got) => [got]
    case _ => []
  }

  function Told(evs: seq<Event>): seq<Entry>
  {
    if evs == [] then [] else ToldBy(evs[0]) + Told(evs[1..])
  }

  /** No fetch fails, and peers hand over what they announced or listed. */
  predicate AsAnnounced(ev: Event)
  {
    !ev.Fail? && (ev.Deliver? || ev.Receive? ==> ev.got == ev.e)
  }

  lemma StepLosesNothing(w: Window, s: Image, ev: Event)
    requires Enabled(s, ev) && AsAnnounced(ev)
    ensures multiset(ToldBy(ev)) + s.fetching == multiset(Dealt(w, s, ev)) + Next(w, s, ev).fetching
  {
    if ev.Announce? {
      assert Declines(w, s, ev) || Next(w, s, ev).fetching == s.fetching + multiset{ev.e};
    } else if ev.Inventory? {
      assert Next(w, s, ev).fetching == s.fetching;
    }
  }

  lemma MultisetSums<T>(a: seq<T>, b: seq<T>, c: seq<T>, d: seq<T>, x: multiset<T>, y: multiset<T>, z: multiset<T>)
    requires multiset(a) + x == multiset(c) + y
    requires multiset(b) + y == multiset(d) + z
    ensures multiset(a + b) + x == multiset(c + d) + z
  {
    forall e | true ensures (multiset(a + b) + x)[e] == (multiset(c + d) + z)[e] {
      assert (multiset(a) + x)[e] == (multiset(c) + y)[e];
      assert (multiset(b) + y)[e] == (multiset(d) + z)[e];
    }
  }

  /** When no fetch fails and peers hand over what was announced, what is
      dealt with is what was told, up to announced fetches still under way. */
  lemma {:induction false} NothingIsLost(w: Window, s: Image, evs: seq<Event>, last: Image)
    requires Runs(w, s, evs, last)
    requires forall ev :: ev in evs ==> AsAnnounced(ev)
    ensures multiset(Told(evs)) + s.fetching == multiset(DealtWith(w, s, evs)) + last.fetching
    decreases |evs|
  {
    if evs != [] {
      var ev, rest := evs[0], evs[1..];
      var next := Next(w, s, ev);
      assert ev in evs && forall x :: x in rest ==> x in evs;
      StepLosesNothing(w, s, ev);
      NothingIsLost(w, next, rest, last);
      MultisetSums(ToldBy(ev), Told(rest), Dealt(w, s, ev), DealtWith(w, next, rest),
                   s.fetching, next.fetching, last.fetching);
    }
  }

  // ------------------------------------------------------------ main results

  lemma SameMembers(a: seq<Entry>, b: seq<Entry>)
    requires multiset(a) == multiset(b)
    ensures forall e :: e in a <==> e in b
  {
    assert forall e :: e in a <==> e in multiset(a);
    assert forall e :: e in b <==> e in multiset(b);
  }

  /** A run that converges: its fetches succeed, its decisions pass nothing
      over, and at its end nothing is in flight or pending. */
  ghost predicate Converges(w: Window, s: Image, evs: seq<Event>, last: Image)
  {
    && Runs(w, s, evs, last) && Settled(last) && last.fetching == multiset{}
    && AlwaysDecidesWell(w, s, evs) && forall ev :: ev in evs ==> AsAnnounced(ev)
  }

  /** Any set of announcements, inventories and pulls whose fetches succeed
      leaves, once all pending prunings have run, exactly what keeping
      everything told of and selecting once over the newest timestamp per tag
      leaves. `told` is what was in flight at the start and what the run was
      told, in any order. */
  lemma InterleavingsConverge(w: Window, s: Image, evs: seq<Event>, last: Image, told: seq<Entry>)
    requires !w.IsEmpty() && Fresh(w, s)
    requires Converges(w, s, evs, last)
    requires multiset(told) == multiset(Told(evs)) + s.fetching
    ensures var heard := RecordAll(s.local, told);
            last.local == Restrict(heard, Chosen(w, heard))
  {
    SettledIsWindow(w, s, evs, last);
    NothingIsLost(w, s, evs, last);
    SameMembers(told, DealtWith(w, s, evs));
    RecordingIsUnordered(s.local, told, DealtWith(w, s, evs));
  }

  /** Two runs that are told the same releases, by whatever announcements,
      inventories and pulls, in whatever order and however the steps fall, end
      in the same store. */
  lemma OrderDoesNotMatter(w: Window, s: Image, evs: seq<Event>, last: Image, evs': seq<Event>, last': Image)
    requires !w.IsEmpty() && Fresh(w, s) && s.fetching == multiset{}
    requires Converges(w, s, evs, last) && Converges(w, s, evs', last')
    requires forall e :: e in Told(evs) <==> e in Told(evs')
    ensures last.local == last'.local
  {
    InterleavingsConverge(w, s, evs, last, Told(evs));
    InterleavingsConverge(w, s, evs', last', Told(evs'));
    RecordingIsUnordered(s.local, Told(evs), Told(evs'));
  }
}
