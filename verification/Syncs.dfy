/** One inventory sync of one foreign image with one peer, undisturbed: when it
    is a merge, and what a second one does (crates/ocid/src/node.rs,
    `sync_with`). */
module Syncs {
  import opened Text
  import opened Windows
  import opened Convergence

  /** One sync of the image with one peer that delivers what is asked for:
      nothing at all happens when nothing is wanted, otherwise what is wanted
      is fetched and the window enforced. */
  function SyncOnce(w: Window, local: map<string, nat>, listing: seq<Entry>, remote: seq<Entry>): map<string, nat>
  {
    var wanted := SelectWanted(w, local, listing, remote);
    if wanted == [] then local
    else
      var fetched := RecordAll(local, wanted);
      Restrict(fetched, Chosen(w, fetched))
  }

  /** What is fetched holds the merged window if and only if nothing is passed
      over. */
  lemma FetchedHoldsExactlyWhen(w: Window, local: map<string, nat>, listing: seq<Entry>, remote: seq<Entry>)
    requires Lists(listing, local) && !w.IsEmpty()
    ensures HoldsWindow(w, RecordAll(local, SelectWanted(w, local, listing, remote)), RecordAll(local, remote))
       <==> NothingPassedOver(w, local, remote)
  {
    var merged := RecordAll(local, remote);
    FetchedFacts(w, local, listing, remote);
    forall t | t in merged
      ensures t in PassedOver(w, local, remote) <==>
              t in Chosen(w, merged) && !(t in local && local[t] == merged[t]) && t !in Select(w, listing + remote)
    {
      PassedOverExactlyWhen(w, local, listing, remote, t);
    }
    assert forall t :: t in PassedOver(w, local, remote) ==> t in merged;
  }

  lemma WindowTellsHolding(w: Window, part: map<string, nat>, m: map<string, nat>)
    requires Below(part, m)
    ensures Restrict(part, Chosen(w, part)) == Restrict(m, Chosen(w, m)) <==> HoldsWindow(w, part, m)
  {
    if HoldsWindow(w, part, m) { PruningSettles(w, part, m); }
    if Restrict(part, Chosen(w, part)) == Restrict(m, Chosen(w, m)) {
      forall t | t in m && t in Chosen(w, m) ensures t in part && part[t] == m[t] {
        assert t in Restrict(m, Chosen(w, m));
        assert Restrict(part, Chosen(w, part))[t] == Restrict(m, Chosen(w, m))[t];
      }
    }
  }

  /** A sync yields the window of local and remote together if and only if no
      tag is passed over and, when nothing is wanted, the store was pruned. */
  lemma SyncMergesExactlyWhen(w: Window, local: map<string, nat>, listing: seq<Entry>, remote: seq<Entry>)
    requires Lists(listing, local) && !w.IsEmpty()
    ensures var merged := RecordAll(local, remote);
            SyncOnce(w, local, listing, remote) == Restrict(merged, Chosen(w, merged))
            <==> NothingPassedOver(w, local, remote)
                 && (SelectWanted(w, local, listing, remote) != [] || WithinWindow(w, local))
  {
    var merged, wanted := RecordAll(local, remote), SelectWanted(w, local, listing, remote);
    FetchedFacts(w, local, listing, remote);
    FetchedHoldsExactlyWhen(w, local, listing, remote);
    WindowTellsHolding(w, RecordAll(local, wanted), merged);
    if wanted == [] && local == Restrict(merged, Chosen(w, merged)) { PruningIdempotent(w, merged); }
    if wanted == [] && local == Restrict(merged, Chosen(w, merged)) {
      forall t | t in merged && t in Chosen(w, merged) ensures t in local && local[t] == merged[t] {
        assert t in Restrict(merged, Chosen(w, merged));
      }
    }
  }

  lemma NothingCrowdedOut(w: Window, local: map<string, nat>, listing: seq<Entry>, remote: seq<Entry>)
    requires Lists(listing, local) && OneTimestampPerTag(listing + remote)
    ensures NothingPassedOver(w, local, remote)
  {
    KnownElements(local, listing, remote);
    forall t | t in Top(RecordAll(local, remote), w.last)
      ensures |Crowd(Held(local) + Elements(remote), Entry(t, RecordAll(local, remote)[t]))| < w.last
    {
      CrowdIsAbove(listing + remote, t);
    }
  }

  /** With one timestamp per tag a sync is a merge if and only if something is
      wanted or the store was pruned: a store that a pull left unpruned is left
      as it is by a peer that has nothing new. */
  lemma SyncIsMerge(w: Window, local: map<string, nat>, listing: seq<Entry>, remote: seq<Entry>)
    requires Lists(listing, local) && !w.IsEmpty() && OneTimestampPerTag(listing + remote)
    ensures var merged := RecordAll(local, remote);
            SyncOnce(w, local, listing, remote) == Restrict(merged, Chosen(w, merged))
            <==> SelectWanted(w, local, listing, remote) != [] || WithinWindow(w, local)
  {
    NothingCrowdedOut(w, local, listing, remote);
    SyncMergesExactlyWhen(w, local, listing, remote);
  }

  /** The decision does not depend on the order of the listing. */
  lemma ListingsAgree(w: Window, local: map<string, nat>, listing: seq<Entry>, listing': seq<Entry>,
                      remote: seq<Entry>)
    requires Lists(listing, local) && Lists(listing', local)
    ensures SelectWanted(w, local, listing, remote) == SelectWanted(w, local, listing', remote)
  {
    KnownElements(local, listing, remote);
    KnownElements(local, listing', remote);
    var a, b := Select(w, listing + remote), Select(w, listing' + remote);
    NewestKeys(listing + remote);
    NewestKeys(listing' + remote);
    assert a <= w.tags + Newest(listing + remote).Keys && b <= w.tags + Newest(listing' + remote).Keys by {
      SelectWithinWindow(w, listing + remote);
      SelectWithinWindow(w, listing' + remote);
    }
    forall t | t in Newest(listing + remote) ensures t in a <==> t in b {
      SelectedExactlyWhen(w, listing + remote, t);
      SelectedExactlyWhen(w, listing' + remote, t);
    }
    assert a == b;
  }

  /** With windows of up to two tags nothing is ever crowded out. */
  lemma SmallWindowPassesNothingOver(w: Window, local: map<string, nat>, listing: seq<Entry>, remote: seq<Entry>)
    requires Lists(listing, local) && w.last <= 2
    ensures NothingPassedOver(w, local, remote)
  {
    SmallWindowIsExact(w, listing + remote);
    KnownElements(local, listing, remote);
    forall t | t in RecordAll(local, remote) ensures t !in PassedOver(w, local, remote) {
      PassedOverExactlyWhen(w, local, listing, remote, t);
    }
    assert forall t :: t in PassedOver(w, local, remote) ==> t in RecordAll(local, remote);
  }

  // ----------------------------------------------------------- a second sync

  /** What is wanted and fetched is newest and stays. */
  lemma WantedStays(w: Window, local: map<string, nat>, listing: seq<Entry>, remote: seq<Entry>, e: Entry)
    requires Lists(listing, local) && e in SelectWanted(w, local, listing, remote)
    ensures e.tag in SyncOnce(w, local, listing, remote) && e.tag in RecordAll(local, remote)
    ensures SyncOnce(w, local, listing, remote)[e.tag] == RecordAll(local, remote)[e.tag] >= e.ts
    ensures e.tag in Chosen(w, RecordAll(local, remote))
  {
    RecordAllFacts(local, remote);
    KnownElements(local, listing, remote);
    SelectWithinWindow(w, listing + remote);
    FetchedFacts(w, local, listing, remote);
    ChosenFromLarger(w, RecordAll(local, SelectWanted(w, local, listing, remote)), RecordAll(local, remote), e.tag);
  }

  /** A sync changes the store if and only if it wants something, or prunes. */
  lemma ChangesWhenWanted(w: Window, local: map<string, nat>, listing: seq<Entry>, remote: seq<Entry>)
    requires Lists(listing, local)
    ensures SyncOnce(w, local, listing, remote) == local <==> SelectWanted(w, local, listing, remote) == []
  {
    var wanted := SelectWanted(w, local, listing, remote);
    if wanted != [] {
      assert wanted[0] in wanted;
      WantedStays(w, local, listing, remote, wanted[0]);
    }
  }

  /** After a sync that fetched something the store has no more than before
      together with the inventory. */
  lemma SyncedBelow(w: Window, local: map<string, nat>, listing: seq<Entry>, remote: seq<Entry>)
    requires Lists(listing, local) && !w.IsEmpty()
    ensures Below(RecordAll(SyncOnce(w, local, listing, remote), remote), RecordAll(local, remote))
  {
    FetchedFacts(w, local, listing, remote);
    RecordAllFacts(local, remote);
    RecordAllFacts(SyncOnce(w, local, listing, remote), remote);
  }

  /** Of the merged window it holds what was held or brought to its newest. */
  lemma SyncedHolds(w: Window, local: map<string, nat>, listing: seq<Entry>, remote: seq<Entry>, t: string)
    requires Lists(listing, local) && !w.IsEmpty() && SelectWanted(w, local, listing, remote) != []
    requires t in RecordAll(local, remote) && t in Chosen(w, RecordAll(local, remote))
    ensures t in SyncOnce(w, local, listing, remote)
            && SyncOnce(w, local, listing, remote)[t] == RecordAll(local, remote)[t]
       <==> (t in local && local[t] == RecordAll(local, remote)[t]) || t in Select(w, listing + remote)
  {
    var fetched, merged := RecordAll(local, SelectWanted(w, local, listing, remote)), RecordAll(local, remote);
    FetchedFacts(w, local, listing, remote);
    if t in fetched && fetched[t] == merged[t] { ChosenFromLarger(w, fetched, merged, t); }
  }

  /** With the inventory it has the same window. */
  lemma SyncedView(w: Window, local: map<string, nat>, listing: seq<Entry>, remote: seq<Entry>)
    requires Lists(listing, local) && !w.IsEmpty() && SelectWanted(w, local, listing, remote) != []
    ensures Below(RecordAll(SyncOnce(w, local, listing, remote), remote), RecordAll(local, remote))
    ensures HoldsWindow(w, RecordAll(SyncOnce(w, local, listing, remote), remote), RecordAll(local, remote))
  {
    var synced, merged := SyncOnce(w, local, listing, remote), RecordAll(local, remote);
    SyncedBelow(w, local, listing, remote);
    RecordAllFacts(local, remote);
    RecordAllFacts(synced, remote);
    forall t | t in merged && t in Chosen(w, merged)
      ensures t in RecordAll(synced, remote) && RecordAll(synced, remote)[t] == merged[t]
    {
      SyncedHolds(w, local, listing, remote, t);
      assert Entry(t, merged[t]) in remote || (t in local && local[t] == merged[t]);
    }
  }

  /** A tag passed over the first time and selected the second is wanted. */
  lemma WantedTheSecondTime(w: Window, local: map<string, nat>, listing: seq<Entry>, remote: seq<Entry>,
                            listing': seq<Entry>, t: string)
    requires Lists(listing, local) && !w.IsEmpty() && SelectWanted(w, local, listing, remote) != []
    requires Lists(listing', SyncOnce(w, local, listing, remote)) && t in PassedOver(w, local, remote)
    requires SelectWanted(w, SyncOnce(w, local, listing, remote), listing', remote) == []
    ensures t in PassedOver(w, SyncOnce(w, local, listing, remote), remote)
  {
    var synced, merged := SyncOnce(w, local, listing, remote), RecordAll(local, remote);
    var merged' := RecordAll(synced, remote);
    SyncedView(w, local, listing, remote);
    PassedOverExactlyWhen(w, local, listing, remote, t);
    SyncedHolds(w, local, listing, remote, t);
    ChosenFromLarger(w, merged', merged, t);
    PassedOverExactlyWhen(w, synced, listing', remote, t);
    RecordAllFacts(synced, remote);
    assert Entry(t, merged'[t]) !in SelectWanted(w, synced, listing', remote);
  }

  /** What is wanted the second time was passed over the first, and no longer
      is. */
  lemma WasPassedOver(w: Window, local: map<string, nat>, listing: seq<Entry>, remote: seq<Entry>,
                      listing': seq<Entry>, e: Entry)
    requires Lists(listing, local) && !w.IsEmpty() && SelectWanted(w, local, listing, remote) != []
    requires Lists(listing', SyncOnce(w, local, listing, remote))
    requires e in SelectWanted(w, SyncOnce(w, local, listing, remote), listing', remote)
    ensures e.tag in PassedOver(w, local, remote)
    ensures e.tag !in PassedOver(w, SyncOnce(w, local, listing, remote), remote)
  {
    var synced, merged := SyncOnce(w, local, listing, remote), RecordAll(local, remote);
    var merged' := RecordAll(synced, remote);
    SyncedView(w, local, listing, remote);
    WantedStays(w, synced, listing', remote, e);
    RecordAllFacts(synced, remote);
    WindowIsStable(w, merged', merged, e.tag);
    SyncedHolds(w, local, listing, remote, e.tag);
    PassedOverExactlyWhen(w, synced, listing', remote, e.tag);
    PassedOverExactlyWhen(w, local, listing, remote, e.tag);
  }

  /** A second sync with the same inventory fetches nothing, and changes
      nothing, if and only if the first wanted nothing or every tag the first
      passed over is passed over again. */
  lemma SecondSyncExactlyWhen(w: Window, local: map<string, nat>, listing: seq<Entry>, remote: seq<Entry>,
                              listing': seq<Entry>)
    requires Lists(listing, local) && !w.IsEmpty()
    requires Lists(listing', SyncOnce(w, local, listing, remote))
    ensures var synced := SyncOnce(w, local, listing, remote);
            && (SyncOnce(w, synced, listing', remote) == synced <==> SelectWanted(w, synced, listing', remote) == [])
            && (SelectWanted(w, synced, listing', remote) == []
                <==> SelectWanted(w, local, listing, remote) == []
                     || PassedOver(w, local, remote) <= PassedOver(w, synced, remote))
  {
    var synced := SyncOnce(w, local, listing, remote);
    var wanted := SelectWanted(w, synced, listing', remote);
    ChangesWhenWanted(w, synced, listing', remote);
    if SelectWanted(w, local, listing, remote) == [] {
      ListingsAgree(w, local, listing, listing', remote);
    } else if wanted == [] {
      forall t | t in PassedOver(w, local, remote) ensures t in PassedOver(w, synced, remote) {
        WantedTheSecondTime(w, local, listing, remote, listing', t);
      }
    } else {
      assert wanted[0] in wanted;
      WasPassedOver(w, local, listing, remote, listing', wanted[0]);
    }
  }

  /** So it does nothing when the first wanted nothing or passed nothing over. */
  lemma SecondSyncChangesNothing(w: Window, local: map<string, nat>, listing: seq<Entry>, remote: seq<Entry>,
                                 listing': seq<Entry>)
    requires Lists(listing, local) && !w.IsEmpty()
    requires SelectWanted(w, local, listing, remote) == [] || NothingPassedOver(w, local, remote)
    requires Lists(listing', SyncOnce(w, local, listing, remote))
    ensures SelectWanted(w, SyncOnce(w, local, listing, remote), listing', remote) == []
    ensures SyncOnce(w, SyncOnce(w, local, listing, remote), listing', remote) == SyncOnce(w, local, listing, remote)
  {
    SecondSyncExactlyWhen(w, local, listing, remote, listing');
  }

  /** With one timestamp per tag it does nothing. */
  lemma SecondSyncOfOneTimestamp(w: Window, local: map<string, nat>, listing: seq<Entry>, remote: seq<Entry>,
                                 listing': seq<Entry>)
    requires Lists(listing, local) && !w.IsEmpty() && OneTimestampPerTag(listing + remote)
    requires Lists(listing', SyncOnce(w, local, listing, remote))
    ensures SelectWanted(w, SyncOnce(w, local, listing, remote), listing', remote) == []
    ensures SyncOnce(w, SyncOnce(w, local, listing, remote), listing', remote) == SyncOnce(w, local, listing, remote)
  {
    NothingCrowdedOut(w, local, listing, remote);
    SecondSyncChangesNothing(w, local, listing, remote, listing');
  }

  // -------------------------------------------------- a sync among the steps

  lemma RunsFrom(w: Window, a: Image, ev: Event, rest: seq<Event>, c: Image)
    requires Enabled(a, ev) && Runs(w, Next(w, a, ev), rest, c)
    ensures Runs(w, a, [ev] + rest, c)
  {
    assert ([ev] + rest)[1..] == rest;
  }

  /** The image once the sync has received these, with these still to come. */
  function Received(s: Image, id: nat, got: seq<Entry>, later: multiset<Entry>): Image
  {
    s.(local := RecordAll(s.local, got), syncs := s.syncs[id := later])
  }

  function Receives(id: nat, wanted: seq<Entry>): seq<Event>
  {
    if wanted == [] then [] else [Receive(id, wanted[0], wanted[0])] + Receives(id, wanted[1..])
  }

  lemma OneLess(wanted: seq<Entry>)
    requires wanted != []
    ensures wanted[0] in multiset(wanted) && multiset(wanted) - multiset{wanted[0]} == multiset(wanted[1..])
  {
    assert wanted == [wanted[0]] + wanted[1..];
  }

  lemma ReceiveOne(w: Window, s: Image, id: nat, got: seq<Entry>, e: Entry, now: multiset<Entry>,
                   later: multiset<Entry>)
    requires e in now && now - multiset{e} == later
    ensures Enabled(Received(s, id, got, now), Receive(id, e, e))
    ensures Next(w, Received(s, id, got, now), Receive(id, e, e)) == Received(s, id, got + [e], later)
  {
    assert (got + [e])[..|got|] == got;
    assert s.syncs[id := now][id := later] == s.syncs[id := later];
  }

  lemma ReceiveThen(w: Window, s: Image, id: nat, got: seq<Entry>, wanted: seq<Entry>, tail: seq<Event>, last: Image)
    requires wanted != []
    requires Runs(w, Received(s, id, got + [wanted[0]], multiset(wanted[1..])), tail, last)
    ensures Runs(w, Received(s, id, got, multiset(wanted)), [Receive(id, wanted[0], wanted[0])] + tail, last)
  {
    OneLess(wanted);
    ReceiveOne(w, s, id, got, wanted[0], multiset(wanted), multiset(wanted[1..]));
    RunsFrom(w, Received(s, id, got, multiset(wanted)), Receive(id, wanted[0], wanted[0]), tail, last);
  }

  lemma ReceivesAhead(id: nat, wanted: seq<Entry>, more: seq<Event>)
    requires wanted != []
    ensures Receives(id, wanted) + more == [Receive(id, wanted[0], wanted[0])] + (Receives(id, wanted[1..]) + more)
  {
  }

  /** A sync receives what it decided to fetch, in order, and goes on. */
  lemma {:induction false} ReceiveAll(w: Window, s: Image, id: nat, got: seq<Entry>, wanted: seq<Entry>,
                                      more: seq<Event>, last: Image)
    requires Runs(w, Received(s, id, got + wanted, multiset{}), more, last)
    ensures Runs(w, Received(s, id, got, multiset(wanted)), Receives(id, wanted) + more, last)
    decreases |wanted|
  {
    if wanted == [] {
      assert got + wanted == got;
      assert Receives(id, wanted) + more == more;
    } else {
      assert got + [wanted[0]] + wanted[1..] == got + wanted;
      ReceiveAll(w, s, id, got + [wanted[0]], wanted[1..], more, last);
      ReceiveThen(w, s, id, got, wanted, Receives(id, wanted[1..]) + more, last);
      ReceivesAhead(id, wanted, more);
    }
  }

  /** The image after a sync that wanted something. */
  function Synced(w: Window, s: Image, listing: seq<Entry>, remote: seq<Entry>): Image
  {
    s.(local := SyncOnce(w, s.local, listing, remote), pulled := false)
  }

  lemma FinishEnds(w: Window, s: Image, listing: seq<Entry>, remote: seq<Entry>, listing': seq<Entry>, id: nat)
    requires id !in s.syncs && SelectWanted(w, s.local, listing, remote) != []
    requires Lists(listing', RecordAll(s.local, SelectWanted(w, s.local, listing, remote)))
    ensures Runs(w, Received(s, id, SelectWanted(w, s.local, listing, remote), multiset{}), [Finish(id, listing')],
                 Synced(w, s, listing, remote))
  {
    var s2 := Received(s, id, SelectWanted(w, s.local, listing, remote), multiset{});
    ListingNewest(listing', s2.local);
    SelectIsWindow(w, listing');
    assert s2.syncs - {id} == s.syncs;
    assert Next(w, s2, Finish(id, listing')) == Synced(w, s, listing, remote);
    assert Runs(w, Synced(w, s, listing, remote), [], Synced(w, s, listing, remote));
    RunsFrom(w, s2, Finish(id, listing'), [], Synced(w, s, listing, remote));
    assert [Finish(id, listing')] + [] == [Finish(id, listing')];
  }

  /** An undisturbed sync is a run of the steps: a decision, a delivery for each
      release wanted, one pruning. */
  lemma SyncIsARun(w: Window, s: Image, listing: seq<Entry>, remote: seq<Entry>, listing': seq<Entry>, id: nat)
    requires id !in s.syncs && Lists(listing, s.local) && SelectWanted(w, s.local, listing, remote) != []
    requires Lists(listing', RecordAll(s.local, SelectWanted(w, s.local, listing, remote)))
    ensures var wanted := SelectWanted(w, s.local, listing, remote);
            Runs(w, s, [Inventory(id, listing, remote)] + (Receives(id, wanted) + [Finish(id, listing')]),
                 Synced(w, s, listing, remote))
  {
    var wanted := SelectWanted(w, s.local, listing, remote);
    FinishEnds(w, s, listing, remote, listing', id);
    assert [] + wanted == wanted;
    ReceiveAll(w, s, id, [], wanted, [Finish(id, listing')], Synced(w, s, listing, remote));
    assert RecordAll(s.local, []) == s.local;
    assert Next(w, s, Inventory(id, listing, remote)) == Received(s, id, [], multiset(wanted));
    RunsFrom(w, s, Inventory(id, listing, remote), Receives(id, wanted) + [Finish(id, listing')],
             Synced(w, s, listing, remote));
  }

  // ------------------------------------------------------- failing inputs

  /** A peer that has only what is held changes nothing, pruned or not. */
  lemma OldNewsChangesNothing(w: Window, local: map<string, nat>, listing: seq<Entry>, remote: seq<Entry>)
    requires forall e :: e in remote ==> e in Held(local)
    ensures SyncOnce(w, local, listing, remote) == local && RecordAll(local, remote) == local
  {
    RecordAllFacts(local, remote);
    assert forall e :: e !in SelectWanted(w, local, listing, remote);
  }

  /** A window of one, two releases held (one of them pulled), a peer that has
      only the newer: the older one stays though it is outside the window. */
  lemma UnprunedStays(listing: seq<Entry>)
    requires Lists(listing, map["a" := 1, "b" := 2])
    ensures var w, local, remote := Window(false, 1, {}), map["a" := 1, "b" := 2], [Entry("b", 2)];
            var merged := RecordAll(local, remote);
            OneTimestampPerTag(listing + remote)
            && SyncOnce(w, local, listing, remote) == local != Restrict(merged, Chosen(w, merged))
  {
    var w, local, remote := Window(false, 1, {}), map["a" := 1, "b" := 2], [Entry("b", 2)];
    assert "b" in local;
    OldNewsChangesNothing(w, local, listing, remote);
    assert "b" in Above(local, Entry("a", 1));
    assert "a" in local && "a" !in Top(local, 1);
  }

  const HOLDING := map["a" := 5, "b" := 3]
  const OFFERED := [Entry("a", 1), Entry("c", 0)]

  lemma HeldAndOffered()
    ensures Held(HOLDING) + Elements(OFFERED) == {Entry("a", 5), Entry("b", 3), Entry("a", 1), Entry("c", 0)}
  {
    assert "a" in HOLDING && "b" in HOLDING;
    assert OFFERED[0] in OFFERED && OFFERED[1] in OFFERED;
  }

  lemma OfferedAndHeld()
    ensures RecordAll(HOLDING, OFFERED) == map["a" := 5, "b" := 3, "c" := 0]
    ensures "c" in Top(RecordAll(HOLDING, OFFERED), 3)
    ensures Held(HOLDING) + Elements(OFFERED) == {Entry("a", 5), Entry("b", 3), Entry("a", 1), Entry("c", 0)}
  {
    var merged := RecordAll(HOLDING, OFFERED);
    assert OFFERED[..1] == [Entry("a", 1)] && OFFERED[..1][..0] == [];
    assert RecordAll(HOLDING, OFFERED[..1]) == HOLDING;
    assert merged == map["a" := 5, "b" := 3, "c" := 0];
    assert Above(merged, Entry("c", 0)) <= {"a", "b"};
    SubsetCardinality(Above(merged, Entry("c", 0)), {"a", "b"});
    HeldAndOffered();
  }

  lemma ThreePlaces(es: set<Entry>)
    requires es == {Entry("a", 5), Entry("b", 3), Entry("a", 1), Entry("c", 0)}
    ensures |Crowd(es, Entry("c", 0))| >= 3
  {
    var a5, b3, a1 := Entry("a", 5), Entry("b", 3), Entry("a", 1);
    assert b3.tag != a1.tag && Newer(a5, b3) && Newer(b3, a1);
    assert a5 in Crowd(es, Entry("c", 0)) && b3 in Crowd(es, Entry("c", 0)) && a1 in Crowd(es, Entry("c", 0));
    SubsetCardinality({a5, b3, a1}, Crowd(es, Entry("c", 0)));
  }

  lemma CrowdedOut(listing: seq<Entry>)
    requires Lists(listing, HOLDING)
    ensures "c" !in Select(Window(false, 3, {}), listing + OFFERED)
  {
    OfferedAndHeld();
    ThreePlaces(Held(HOLDING) + Elements(OFFERED));
    KnownElements(HOLDING, listing, OFFERED);
    SelectedExactlyWhen(Window(false, 3, {}), listing + OFFERED, "c");
  }

  /** A window of three, releases a5 and b3 held, a peer with a1 and c0: the
      peer's old copy of a takes c's place, so c is not fetched. */
  lemma TagPassedOver(listing: seq<Entry>)
    requires Lists(listing, HOLDING)
    ensures var w, merged := Window(false, 3, {}), RecordAll(HOLDING, OFFERED);
            "c" in Chosen(w, merged) && "c" !in SyncOnce(w, HOLDING, listing, OFFERED)
  {
    OfferedAndHeld();
    CrowdedOut(listing);
    RecordAllFacts(HOLDING, SelectWanted(Window(false, 3, {}), HOLDING, listing, OFFERED));
  }

  const OLDER := map["a" := 3]
  const RENEWED := [Entry("a", 10), Entry("b", 5), Entry("c", 1)]

  lemma RenewedMerged()
    ensures RecordAll(OLDER, RENEWED) == map["a" := 10, "b" := 5, "c" := 1]
  {
    assert RENEWED[..2][..1] == [Entry("a", 10)] && RENEWED[..2][..1][..0] == [];
    assert RecordAll(OLDER, RENEWED[..2][..1]) == map["a" := 10];
    assert RecordAll(OLDER, RENEWED[..2]) == map["a" := 10, "b" := 5];
  }

  lemma RenewedTop()
    ensures "c" in Top(map["a" := 10, "b" := 5, "c" := 1], 3)
  {
    var merged, c1 := map["a" := 10, "b" := 5, "c" := 1], Entry("c", 1);
    assert Above(merged, c1) <= {"a", "b"};
    SubsetCardinality(Above(merged, c1), {"a", "b"});
  }

  lemma RenewedElements()
    ensures Held(OLDER) + Elements(RENEWED) == {Entry("a", 3), Entry("a", 10), Entry("b", 5), Entry("c", 1)}
  {
    assert "a" in OLDER;
    assert RENEWED[0] in RENEWED && RENEWED[1] in RENEWED && RENEWED[2] in RENEWED;
  }

  lemma RenewedPlaces(es: set<Entry>)
    requires es == {Entry("a", 3), Entry("a", 10), Entry("b", 5), Entry("c", 1)}
    ensures |Crowd(es, Entry("c", 1))| >= 3
  {
    var a10, b5, a3 := Entry("a", 10), Entry("b", 5), Entry("a", 3);
    assert b5.tag != a3.tag && Newer(a10, b5) && Newer(b5, a3);
    assert a10 in Crowd(es, Entry("c", 1)) && b5 in Crowd(es, Entry("c", 1)) && a3 in Crowd(es, Entry("c", 1));
    SubsetCardinality({a10, b5, a3}, Crowd(es, Entry("c", 1)));
  }

  lemma RenewedAndHeld()
    ensures "c" in PassedOver(Window(false, 3, {}), OLDER, RENEWED)
  {
    RenewedMerged();
    RenewedTop();
    RenewedElements();
    RenewedPlaces(Held(OLDER) + Elements(RENEWED));
  }

  lemma RenewedIsWanted(listing: seq<Entry>)
    requires Lists(listing, OLDER)
    ensures Entry("a", 10) in SelectWanted(Window(false, 3, {}), OLDER, listing, RENEWED)
  {
    var w := Window(false, 3, {});
    RenewedMerged();
    KnownElements(OLDER, listing, RENEWED);
    SelectedExactlyWhen(w, listing + RENEWED, "a");
    assert RENEWED[0] in RENEWED;
    assert Crowd(Held(OLDER) + Elements(RENEWED), Entry("a", 10)) == {};
  }

  lemma RenewedOnly(listing: seq<Entry>, t: string)
    requires Lists(listing, OLDER) && t in SyncOnce(Window(false, 3, {}), OLDER, listing, RENEWED)
    ensures Entry(t, SyncOnce(Window(false, 3, {}), OLDER, listing, RENEWED)[t]) in RENEWED
  {
    RenewedIsWanted(listing);
    RecordAllFacts(OLDER, SelectWanted(Window(false, 3, {}), OLDER, listing, RENEWED));
  }

  lemma OneTimestampWithin(known: seq<Entry>)
    requires forall e :: e in known ==> e in RENEWED
    ensures OneTimestampPerTag(known)
  {
    forall e | e in known ensures e == Entry("a", 10) || e == Entry("b", 5) || e == Entry("c", 1) {}
  }

  lemma OneTimestampAfter(listing: seq<Entry>, listing': seq<Entry>)
    requires Lists(listing, OLDER) && Lists(listing', SyncOnce(Window(false, 3, {}), OLDER, listing, RENEWED))
    ensures OneTimestampPerTag(listing' + RENEWED)
  {
    forall e | e in listing' + RENEWED ensures e in RENEWED {
      if e in listing' { RenewedOnly(listing, e.tag); }
    }
    OneTimestampWithin(listing' + RENEWED);
  }

  /** A window of three, release a3 held, a peer with a10, b5 and c1: the held
      copy of a takes c's place, so c is fetched by a second sync only. */
  lemma SecondSyncFetchesMore(listing: seq<Entry>, listing': seq<Entry>)
    requires Lists(listing, OLDER) && Lists(listing', SyncOnce(Window(false, 3, {}), OLDER, listing, RENEWED))
    ensures SelectWanted(Window(false, 3, {}), SyncOnce(Window(false, 3, {}), OLDER, listing, RENEWED),
                         listing', RENEWED) != []
  {
    var w := Window(false, 3, {});
    RenewedAndHeld();
    RenewedIsWanted(listing);
    OneTimestampAfter(listing, listing');
    NothingCrowdedOut(w, SyncOnce(w, OLDER, listing, RENEWED), listing', RENEWED);
    SecondSyncExactlyWhen(w, OLDER, listing, RENEWED, listing');
  }
}
