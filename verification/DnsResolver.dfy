/** Resolution of publisher names: a trust-on-first-use pin store behind a
    short-lived cache (crates/ocid/src/dns_resolver.rs and the pin store and
    `validate_record` of crates/ocid-core/src/dns.rs). */
module DnsResolver {
  import opened Text
  import opened Identity
  import opened DnsRecords

  /** Instants are nanoseconds; record timestamps are whole seconds of the
      same clock. */
  const SECOND: nat := 1_000_000_000
  const POSITIVE_TTL_CAP: nat := 60
  const NEGATIVE_TTL: nat := 30

  /** The configuration and what the libraries decide: URLs and signatures. */
  datatype Rules = Rules(
    urls: Urls,
    verify: (PublisherId, string, Signature) -> bool,
    enabled: bool,
    maxAgeSecs: nat)

  datatype Cached =
    | Positive(publisher: PublisherId, relay: Option<string>, seed: Option<PublisherId>, expires: nat)
    | Negative(expires: nat)

  datatype State = State(pins: map<string, PublisherId>, cache: map<string, Cached>)

  datatype Answer = Answer(
    publisher: PublisherId, newlyPinned: bool, relay: Option<string>, seed: Option<PublisherId>)

  datatype Outcome = Resolved(answer: Answer) | NoRecord | Disabled

  datatype Refusal = InvalidSignature | Stale | PinnedElsewhere

  /** One resource record of a DNS answer. */
  datatype Rr = Txt(ttl: nat, strings: seq<string>) | OtherData(ttl: nat)

  // --------------------------------------------------------- record validation

  predicate VerifySig(rules: Rules, zone: string, r: DnsRecord)
  {
    ValidZone(zone) && rules.verify(r.key, CanonicalPayload(zone, r.key, r.ts, r.relay, r.seed), r.sig)
  }

  function AgeSecs(now: nat, r: DnsRecord): nat
  {
    if now / SECOND >= r.ts then now / SECOND - r.ts else 0
  }

  datatype Validated = Pinned(key: PublisherId) | New(key: PublisherId)

  function ValidateRecord(rules: Rules, zone: string, r: DnsRecord, pins: map<string, PublisherId>, now: nat)
    : Result<Validated, Refusal>
  {
    if !VerifySig(rules, zone, r) then Err(InvalidSignature)
    else if AgeSecs(now, r) > rules.maxAgeSecs then Err(Stale)
    else if zone !in pins then Ok(New(r.key))
    else if pins[zone] != r.key then Err(PinnedElsewhere)
    else Ok(Pinned(r.key))
  }

  /** The first answer that parses as a record, and the smallest ttl read on
      the way to it. */
  function FirstRecord(urls: Urls, answers: seq<Rr>, ttl: nat): (Option<DnsRecord>, nat)
  {
    if answers == [] then (None, ttl)
    else
      var least := if answers[0].ttl < ttl then answers[0].ttl else ttl;
      if answers[0].Txt? && Parse(urls, Flatten(answers[0].strings)).Ok?
      then (Some(Parse(urls, Flatten(answers[0].strings)).value), least)
      else FirstRecord(urls, answers[1..], least)
  }

  const U32_MAX: nat := 0xFFFF_FFFF

  // ----------------------------------------------------------------- resolving

  predicate IsHit(s: State, zone: string, now: nat)
  {
    zone in s.cache && s.cache[zone].expires > now
  }

  /** The part of `resolve_zone` from validation on. */
  function Admit(rules: Rules, s: State, zone: string, r: DnsRecord, ttl: nat, start: nat, later: nat)
    : (State, Result<Outcome, Refusal>)
  {
    match ValidateRecord(rules, zone, r, s.pins, later)
    case Err(e) => (s, Err(e))
    case Ok(v) =>
      var pins := if v.New? then s.pins[zone := v.key] else s.pins;
      var expires := start + (if ttl < POSITIVE_TTL_CAP then ttl else POSITIVE_TTL_CAP) * SECOND;
      (State(pins, s.cache[zone := Positive(v.key, r.relay, r.seed, expires)]),
       Ok(Resolved(Answer(v.key, v.New?, r.relay, r.seed))))
  }

  /** `resolve_zone`, with the lookup's answer given (`None` when the lookup
      fails), `start` when it was called and `later` when the answer was
      validated. */
  function Resolve(rules: Rules, s: State, zone: string, answer: Option<seq<Rr>>, start: nat, later: nat)
    : (State, Result<Outcome, Refusal>)
  {
    if !rules.enabled then (s, Ok(Disabled))
    else if IsHit(s, zone, start) then
      match s.cache[zone]
      case Positive(p, relay, seed, _) => (s, Ok(Resolved(Answer(p, false, relay, seed))))
      case Negative(_) => (s, Ok(NoRecord))
    else
      var miss := s.(cache := s.cache[zone := Negative(start + NEGATIVE_TTL * SECOND)]);
      if answer.None? then (miss, Ok(NoRecord))
      else
        var (found, ttl) := FirstRecord(rules.urls, answer.value, U32_MAX);
        if found.None? then (miss, Ok(NoRecord))
        else Admit(rules, s, zone, found.value, ttl, start, later)
  }

  // ------------------------------------------- resolving, in plain terms

  /** Is this the first answer that parses as a record? */
  predicate FirstAt(urls: Urls, answers: seq<Rr>, i: nat)
  {
    && i < |answers| && answers[i].Txt? && Parse(urls, Flatten(answers[i].strings)).Ok?
    && forall j :: 0 <= j < i ==> !(answers[j].Txt? && Parse(urls, Flatten(answers[j].strings)).Ok?)
  }

  /** The least of the ttls read, no greater than `cap`. */
  predicate IsLeast(answers: seq<Rr>, n: nat, cap: nat, ttl: nat)
    requires n <= |answers|
  {
    && ttl <= cap && (forall j :: 0 <= j < n ==> ttl <= answers[j].ttl)
    && (ttl == cap || exists j :: 0 <= j < n && ttl == answers[j].ttl)
  }

  lemma LeastOfTail(answers: seq<Rr>, n: nat, cap: nat, least: nat, ttl: nat)
    requires 0 < n <= |answers| && least == if answers[0].ttl < cap then answers[0].ttl else cap
    requires IsLeast(answers[1..], n - 1, least, ttl)
    ensures IsLeast(answers, n, cap, ttl)
  {
    forall j | 0 <= j < n ensures ttl <= answers[j].ttl {
      if j > 0 { assert answers[1..][j - 1] == answers[j]; }
    }
    if ttl != least {
      var j :| 0 <= j < n - 1 && ttl == answers[1..][j].ttl;
      assert answers[j + 1].ttl == ttl;
    }
  }

  lemma {:induction false} FirstRecordAt(urls: Urls, answers: seq<Rr>, i: nat, cap: nat)
    requires FirstAt(urls, answers, i)
    ensures FirstRecord(urls, answers, cap).0 == Some(Parse(urls, Flatten(answers[i].strings)).value)
    ensures IsLeast(answers, i + 1, cap, FirstRecord(urls, answers, cap).1)
    decreases |answers|
  {
    var least := if answers[0].ttl < cap then answers[0].ttl else cap;
    if i > 0 {
      assert forall j :: 0 <= j < |answers| - 1 ==> answers[1..][j] == answers[j + 1];
      FirstRecordAt(urls, answers[1..], i - 1, least);
      LeastOfTail(answers, i + 1, cap, least, FirstRecord(urls, answers[1..], least).1);
    }
  }

  lemma {:induction false} NoFirstRecord(urls: Urls, answers: seq<Rr>, cap: nat)
    requires forall i :: 0 <= i < |answers| ==> !(answers[i].Txt? && Parse(urls, Flatten(answers[i].strings)).Ok?)
    ensures FirstRecord(urls, answers, cap).0 == None
    decreases |answers|
  {
    if answers != [] {
      assert forall j :: 0 <= j < |answers| - 1 ==> answers[1..][j] == answers[j + 1];
      NoFirstRecord(urls, answers[1..], if answers[0].ttl < cap then answers[0].ttl else cap);
    }
  }

  /** A query as it comes in, and when its answer is validated. */
  datatype Asked = Asked(zone: string, answer: Option<seq<Rr>>, start: nat, later: nat)

  /** Does the cache have something unexpired to say? */
  predicate Fresh(cache: map<string, Cached>, q: Asked)
  {
    q.zone in cache && cache[q.zone].expires > q.start
  }

  /** Nothing changes and the cached answer is given, never as a new pin. */
  predicate HitIsServed(before: State, q: Asked, after: State, r: Result<Outcome, Refusal>)
    requires q.zone in before.cache
  {
    after == before
    && match before.cache[q.zone]
       case Positive(p, relay, seed, _) => r == Ok(Resolved(Answer(p, false, relay, seed)))
       case Negative(_) => r == Ok(NoRecord)
  }

  /** No pin changes and the miss is remembered for 30 seconds. */
  predicate MissIsRemembered(before: State, q: Asked, after: State, r: Result<Outcome, Refusal>)
  {
    && r == Ok(NoRecord) && after.pins == before.pins
    && after.cache == before.cache[q.zone := Negative(q.start + 30_000_000_000)]
  }

  /** The record verifies for the zone. */
  predicate Verifies(rules: Rules, zone: string, rec: DnsRecord)
  {
    && ValidZone(zone)
    && rules.verify(rec.key, CanonicalPayload(zone, rec.key, rec.ts, rec.relay, rec.seed), rec.sig)
  }

  /** It was signed at most `maxAgeSecs` before it is validated. */
  predicate InTime(rules: Rules, q: Asked, rec: DnsRecord)
  {
    q.later / 1_000_000_000 <= rec.ts + rules.maxAgeSecs
  }

  predicate CachedFor(q: Asked, i: nat, rec: DnsRecord, c: Cached)
    requires q.answer.Some? && i < |q.answer.value|
  {
    c.Positive? && c.publisher == rec.key && c.relay == rec.relay && c.seed == rec.seed && c.expires >= q.start
    && var life := c.expires - q.start;
       && life % 1_000_000_000 == 0 && IsLeast(q.answer.value, i + 1, 60, life / 1_000_000_000)
  }

  /** A bad signature, then a stale record, then another pinned key refuses
      the record, and then nothing changes; otherwise it is resolved, pinned,
      and cached for its ttl or 60 seconds, whichever ends first. */
  predicate RecordIsJudged(rules: Rules, before: State, q: Asked, i: nat, after: State, r: Result<Outcome, Refusal>)
    requires q.answer.Some? && FirstAt(rules.urls, q.answer.value, i)
  {
    var rec := Parse(rules.urls, Flatten(q.answer.value[i].strings)).value;
    if !Verifies(rules, q.zone, rec) then r == Err(InvalidSignature) && after == before
    else if !InTime(rules, q, rec) then r == Err(Stale) && after == before
    else if q.zone in before.pins && before.pins[q.zone] != rec.key then r == Err(PinnedElsewhere) && after == before
    else
      && r == Ok(Resolved(Answer(rec.key, q.zone !in before.pins, rec.relay, rec.seed)))
      && after.pins == before.pins[q.zone := rec.key]
      && q.zone in after.cache && after.cache - {q.zone} == before.cache - {q.zone}
      && CachedFor(q, i, rec, after.cache[q.zone])
  }

  lemma CapsAgree(answers: seq<Rr>, n: nat, ttl: nat)
    requires n <= |answers| && IsLeast(answers, n, U32_MAX, ttl)
    ensures IsLeast(answers, n, 60, if ttl < 60 then ttl else 60)
  {
  }

  lemma AdmittedIsCached(rules: Rules, s: State, q: Asked, i: nat, rec: DnsRecord, ttl: nat)
    requires q.answer.Some? && i < |q.answer.value| && IsLeast(q.answer.value, i + 1, U32_MAX, ttl)
    ensures var (after, r) := Admit(rules, s, q.zone, rec, ttl, q.start, q.later);
            r.Ok? ==> q.zone in after.cache && CachedFor(q, i, rec, after.cache[q.zone])
                      && after.cache - {q.zone} == s.cache - {q.zone}
  {
    CapsAgree(q.answer.value, i + 1, ttl);
  }

  lemma AdmittedRightly(rules: Rules, s: State, q: Asked, i: nat, ttl: nat)
    requires q.answer.Some? && FirstAt(rules.urls, q.answer.value, i)
    requires IsLeast(q.answer.value, i + 1, U32_MAX, ttl)
    ensures var rec := Parse(rules.urls, Flatten(q.answer.value[i].strings)).value;
            var (after, r) := Admit(rules, s, q.zone, rec, ttl, q.start, q.later);
            RecordIsJudged(rules, s, q, i, after, r)
  {
    AdmittedIsCached(rules, s, q, i, Parse(rules.urls, Flatten(q.answer.value[i].strings)).value, ttl);
  }

  lemma RecordJudged(rules: Rules, s: State, q: Asked, i: nat)
    requires rules.enabled && !Fresh(s.cache, q) && q.answer.Some? && FirstAt(rules.urls, q.answer.value, i)
    ensures var (after, r) := Resolve(rules, s, q.zone, q.answer, q.start, q.later);
            RecordIsJudged(rules, s, q, i, after, r)
  {
    FirstRecordAt(rules.urls, q.answer.value, i, U32_MAX);
    AdmittedRightly(rules, s, q, i, FirstRecord(rules.urls, q.answer.value, U32_MAX).1);
  }

  lemma {:induction false} NoneFirst(urls: Urls, answers: seq<Rr>, n: nat)
    requires n <= |answers| && forall i :: 0 <= i < |answers| ==> !FirstAt(urls, answers, i)
    ensures forall i :: 0 <= i < n ==> !(answers[i].Txt? && Parse(urls, Flatten(answers[i].strings)).Ok?)
  {
    if n > 0 {
      NoneFirst(urls, answers, n - 1);
      assert !FirstAt(urls, answers, n - 1);
    }
  }

  lemma NothingFound(rules: Rules, s: State, q: Asked)
    requires rules.enabled && !Fresh(s.cache, q)
    requires q.answer.Some? ==> forall i :: 0 <= i < |q.answer.value| ==> !FirstAt(rules.urls, q.answer.value, i)
    ensures var (after, r) := Resolve(rules, s, q.zone, q.answer, q.start, q.later); MissIsRemembered(s, q, after, r)
  {
    if q.answer.Some? {
      NoneFirst(rules.urls, q.answer.value, |q.answer.value|);
      NoFirstRecord(rules.urls, q.answer.value, U32_MAX);
    }
  }

  /** What a query must answer, and leave: nothing when disabled, the cached
      answer on a hit, no record when none is found, else what the first record
      found is judged to be. */
  predicate AnsweredRightly(rules: Rules, before: State, q: Asked, after: State, r: Result<Outcome, Refusal>)
  {
    if !rules.enabled then r == Ok(Disabled) && after == before
    else if Fresh(before.cache, q) then HitIsServed(before, q, after, r)
    else
      && (q.answer.None? || (forall i :: 0 <= i < |q.answer.value| ==> !FirstAt(rules.urls, q.answer.value, i)) ==>
            MissIsRemembered(before, q, after, r))
      && (q.answer.Some? ==>
            forall i :: 0 <= i < |q.answer.value| && FirstAt(rules.urls, q.answer.value, i) ==>
              RecordIsJudged(rules, before, q, i, after, r))
  }

  lemma ResolveAnswersRightly(rules: Rules, s: State, q: Asked)
    ensures var (after, r) := Resolve(rules, s, q.zone, q.answer, q.start, q.later);
            AnsweredRightly(rules, s, q, after, r)
  {
    if rules.enabled && !Fresh(s.cache, q) {
      if q.answer.None? || forall i :: 0 <= i < |q.answer.value| ==> !FirstAt(rules.urls, q.answer.value, i) {
        NothingFound(rules, s, q);
      }
      if q.answer.Some? {
        forall i | 0 <= i < |q.answer.value| && FirstAt(rules.urls, q.answer.value, i)
          ensures var (after, r) := Resolve(rules, s, q.zone, q.answer, q.start, q.later);
                  RecordIsJudged(rules, s, q, i, after, r)
        {
          RecordJudged(rules, s, q, i);
        }
      }
    }
  }

  function Unpinned(s: State, zone: string): State
  {
    State(s.pins - {zone}, s.cache - {zone})
  }

  /** The service object: its configuration, cache and pin store. */
  class DnsService {
    const rules: Rules
    var pins: map<string, PublisherId>
    var cache: map<string, Cached>

    function View(): State
      reads this
    {
      State(pins, cache)
    }

    /** Opening the service: pins as saved, nothing cached. */
    constructor (rules: Rules, saved: map<string, PublisherId>)
      ensures this.rules == rules && View() == State(saved, map[])
    {
      this.rules := rules;
      pins, cache := saved, map[];
    }

    method CacheNegative(zone: string, now: nat)
      modifies this`cache
      ensures cache == old(cache)[zone := Negative(now + NEGATIVE_TTL * SECOND)]
    {
      cache := cache[zone := Negative(now + NEGATIVE_TTL * SECOND)];
    }

    /** The loop over the answers of a lookup. */
    method FindRecord(answers: seq<Rr>) returns (record: Option<DnsRecord>, ttl: nat)
      ensures (record, ttl) == FirstRecord(rules.urls, answers, U32_MAX)
    {
      record, ttl := None, U32_MAX;
      var i := 0;
      while i < |answers| && record.None?
        invariant i <= |answers|
        invariant record.None? ==>
          FirstRecord(rules.urls, answers[i..], ttl) == FirstRecord(rules.urls, answers, U32_MAX)
        invariant record.Some? ==> (record, ttl) == FirstRecord(rules.urls, answers, U32_MAX)
      {
        var rr := answers[i];
        assert answers[i..][1..] == answers[i + 1..];
        ttl := if rr.ttl < ttl then rr.ttl else ttl;
        if rr.Txt? {
          var parsed := ParseLoop(rules.urls, Flatten(rr.strings));
          if parsed.Ok? { record := Some(parsed.value); }
        }
        i := i + 1;
      }
    }

    /** What `resolve_zone` does once a record is found. */
    method AdmitRecord(zone: string, record: DnsRecord, ttl: nat, start: nat, later: nat)
      returns (r: Result<Outcome, Refusal>)
      modifies this
      ensures (View(), r) == Admit(rules, old(View()), zone, record, ttl, start, later)
    {
      match ValidateRecord(rules, zone, record, pins, later) {
        case Err(e) => return Err(e);
        case Ok(v) =>
          if v.New? { pins := pins[zone := v.key]; }
          var cap := if ttl < POSITIVE_TTL_CAP then ttl else POSITIVE_TTL_CAP;
          cache := cache[zone := Positive(v.key, record.relay, record.seed, start + cap * SECOND)];
          return Ok(Resolved(Answer(v.key, v.New?, record.relay, record.seed)));
      }
    }

    /** `resolve_zone`. */
    method ResolveZone(zone: string, answer: Option<seq<Rr>>, start: nat, later: nat)
      returns (r: Result<Outcome, Refusal>)
      modifies this
      ensures (View(), r) == Resolve(rules, old(View()), zone, answer, start, later)
      ensures AnsweredRightly(rules, old(View()), Asked(zone, answer, start, later), View(), r)
    {
      ResolveAnswersRightly(rules, View(), Asked(zone, answer, start, later));
      if !rules.enabled { return Ok(Disabled); }
      if zone in cache {
        match cache[zone] {
          case Positive(p, relay, seed, expires) =>
            if expires > start { return Ok(Resolved(Answer(p, false, relay, seed))); }
          case Negative(expires) =>
            if expires > start { return Ok(NoRecord); }
        }
      }
      if answer.None? {
        CacheNegative(zone, start);
        return Ok(NoRecord);
      }
      var record, ttl := FindRecord(answer.value);
      if record.None? {
        CacheNegative(zone, start);
        return Ok(NoRecord);
      }
      r := AdmitRecord(zone, record.value, ttl, start, later);
    }

    method Unpin(zone: string) returns (removed: bool)
      modifies this
      ensures View() == Unpinned(old(View()), zone)
      ensures removed <==> zone in old(pins)
    {
      removed := zone in pins;
      pins := pins - {zone};
      cache := cache - {zone};
    }
  }

  // --------------------------------------------------------------------- runs

  datatype Event =
    | Query(zone: string, answer: Option<seq<Rr>>, start: nat, later: nat)
    | Unpin(zone: string)
    | Restart

  predicate Possible(ev: Event) { ev.Query? ==> ev.start <= ev.later }

  function Next(rules: Rules, s: State, ev: Event): State
  {
    match ev
    case Query(zone, answer, start, later) => Resolve(rules, s, zone, answer, start, later).0
    case Unpin(zone) => Unpinned(s, zone)
    case Restart => s.(cache := map[])
  }

  /** The `Resolved` answer an event gives for `zone`, if it gives one. */
  function AnswerFor(rules: Rules, s: State, ev: Event, zone: string): Option<Answer>
  {
    if ev.Query? && ev.zone == zone then
      var r := Resolve(rules, s, zone, ev.answer, ev.start, ev.later).1;
      if r.Ok? && r.value.Resolved? then Some(r.value.answer) else None
    else None
  }

  function Answers(rules: Rules, s: State, evs: seq<Event>, zone: string): seq<Answer>
    decreases |evs|
  {
    if evs == [] then []
    else
      var rest := Answers(rules, Next(rules, s, evs[0]), evs[1..], zone);
      match AnswerFor(rules, s, evs[0], zone)
      case Some(a) => [a] + rest
      case None => rest
  }

  /** A cached publisher is the pinned one. */
  predicate CacheAgreesWithPins(s: State)
  {
    forall zone :: zone in s.cache && s.cache[zone].Positive? ==>
      zone in s.pins && s.pins[zone] == s.cache[zone].publisher
  }

  lemma StepKeepsAgreement(rules: Rules, s: State, ev: Event)
    requires CacheAgreesWithPins(s)
    ensures CacheAgreesWithPins(Next(rules, s, ev))
  {
  }

  /** Only an unpin changes or removes an existing pin, and only its own. */
  lemma PinsAreKept(rules: Rules, s: State, ev: Event, zone: string)
    requires zone in s.pins && !(ev.Unpin? && ev.zone == zone)
    ensures zone in Next(rules, s, ev).pins && Next(rules, s, ev).pins[zone] == s.pins[zone]
  {
  }

  lemma AnswerIsPinned(rules: Rules, s: State, ev: Event, zone: string)
    requires CacheAgreesWithPins(s) && AnswerFor(rules, s, ev, zone).Some?
    ensures var a := AnswerFor(rules, s, ev, zone).value;
            zone in Next(rules, s, ev).pins && Next(rules, s, ev).pins[zone] == a.publisher
            && (a.newlyPinned <==> zone !in s.pins)
            && (zone in s.pins ==> a.publisher == s.pins[zone])
  {
  }

  /** Once pinned, a zone answers with its pinned publisher and is not newly
      pinned again, until it is unpinned. */
  lemma {:induction false} PinnedForTheRun(rules: Rules, s: State, evs: seq<Event>, zone: string)
    requires CacheAgreesWithPins(s) && zone in s.pins
    requires forall ev :: ev in evs ==> !(ev.Unpin? && ev.zone == zone)
    ensures forall a :: a in Answers(rules, s, evs, zone) ==> a.publisher == s.pins[zone] && !a.newlyPinned
    decreases |evs|
  {
    if evs != [] {
      TailMembers(evs);
      StepKeepsAgreement(rules, s, evs[0]);
      PinsAreKept(rules, s, evs[0], zone);
      PinnedForTheRun(rules, Next(rules, s, evs[0]), evs[1..], zone);
      if AnswerFor(rules, s, evs[0], zone).Some? { AnswerIsPinned(rules, s, evs[0], zone); }
    }
  }

  /** Between two unpins of a zone every answer names one publisher and only
      the first can report a new pin, whatever DNS says and however queries,
      expiries, restarts and events of other zones interleave. */
  lemma {:induction false} OnePublisherBetweenUnpins(rules: Rules, s: State, evs: seq<Event>, zone: string)
    requires CacheAgreesWithPins(s)
    requires forall ev :: ev in evs ==> !(ev.Unpin? && ev.zone == zone)
    ensures var a := Answers(rules, s, evs, zone);
            forall i :: 0 < i < |a| ==> a[i].publisher == a[0].publisher && !a[i].newlyPinned
    decreases |evs|
  {
    if evs != [] {
      TailMembers(evs);
      var next := Next(rules, s, evs[0]);
      StepKeepsAgreement(rules, s, evs[0]);
      if AnswerFor(rules, s, evs[0], zone).Some? {
        AnswerIsPinned(rules, s, evs[0], zone);
        PinnedForTheRun(rules, next, evs[1..], zone);
        var rest := Answers(rules, next, evs[1..], zone);
        var a := Answers(rules, s, evs, zone);
        assert forall i :: 0 < i < |a| ==> a[i] == rest[i - 1] && a[i] in rest;
      } else {
        assert Answers(rules, s, evs, zone) == Answers(rules, next, evs[1..], zone);
        OnePublisherBetweenUnpins(rules, next, evs[1..], zone);
      }
    }
  }

  // ---------------------------------------------------------------- freshness

  /** A record that was admitted, and when it was validated. */
  datatype Evidence = Evidence(zone: string, record: DnsRecord, at: nat)

  predicate Sound(rules: Rules, e: Evidence)
  {
    VerifySig(rules, e.zone, e.record) && AgeSecs(e.at, e.record) <= rules.maxAgeSecs
  }

  /** The evidence an event adds: the record a cache miss admitted. */
  function Gathered(rules: Rules, s: State, ev: Event): seq<Evidence>
  {
    if ev.Query? && rules.enabled && !IsHit(s, ev.zone, ev.start) && ev.answer.Some? then
      match FirstRecord(rules.urls, ev.answer.value, U32_MAX).0
      case Some(r) =>
        if ValidateRecord(rules, ev.zone, r, s.pins, ev.later).Ok? then [Evidence(ev.zone, r, ev.later)] else []
      case None => []
    else []
  }

  predicate Supports(e: Evidence, zone: string, p: PublisherId, relay: Option<string>, seed: Option<PublisherId>)
  {
    e.zone == zone && e.record.key == p && e.record.relay == relay && e.record.seed == seed
  }

  predicate Backs(e: Evidence, zone: string, c: Cached)
    requires c.Positive?
  {
    Supports(e, zone, c.publisher, c.relay, c.seed) && c.expires <= e.at + POSITIVE_TTL_CAP * SECOND
  }

  ghost predicate Backed(log: seq<Evidence>, zone: string, c: Cached)
    requires c.Positive?
  {
    exists e :: e in log && Backs(e, zone, c)
  }

  /** Every cached publisher rests on sound evidence from at most 60 seconds
      before the entry expires. */
  ghost predicate CacheIsBacked(rules: Rules, s: State, log: seq<Evidence>)
  {
    && (forall e :: e in log ==> Sound(rules, e))
    && (forall zone :: zone in s.cache && s.cache[zone].Positive? ==> Backed(log, zone, s.cache[zone]))
  }

  /** When an event's answer is given: at once on a hit, else after validation. */
  function AnswerTime(s: State, ev: Event): nat
    requires ev.Query?
  {
    if IsHit(s, ev.zone, ev.start) then ev.start else ev.later
  }

  ghost predicate FreshAnswer(rules: Rules, log: seq<Evidence>, zone: string, a: Answer, now: nat)
  {
    exists e :: e in log && Sound(rules, e) && Supports(e, zone, a.publisher, a.relay, a.seed)
      && AgeSecs(now, e.record) <= rules.maxAgeSecs + POSITIVE_TTL_CAP
  }

  lemma AgeGrows(at: nat, now: nat, r: DnsRecord)
    requires now <= at + POSITIVE_TTL_CAP * SECOND
    ensures AgeSecs(now, r) <= AgeSecs(at, r) + POSITIVE_TTL_CAP
  {
    assert now / SECOND <= (at + POSITIVE_TTL_CAP * SECOND) / SECOND == at / SECOND + POSITIVE_TTL_CAP;
  }

  lemma StepKeepsBacking(rules: Rules, s: State, ev: Event, log: seq<Evidence>)
    requires CacheIsBacked(rules, s, log) && Possible(ev)
    ensures CacheIsBacked(rules, Next(rules, s, ev), log + Gathered(rules, s, ev))
  {
    var s', log' := Next(rules, s, ev), log + Gathered(rules, s, ev);
    assert forall e :: e in log ==> e in log';
    forall zone | zone in s'.cache && s'.cache[zone].Positive? ensures Backed(log', zone, s'.cache[zone]) {
      if zone in s.cache && s.cache[zone] == s'.cache[zone] {
        var e :| e in log && Backs(e, zone, s.cache[zone]);
        assert e in log';
      } else {
        var e := Evidence(zone, FirstRecord(rules.urls, ev.answer.value, U32_MAX).0.value, ev.later);
        assert Gathered(rules, s, ev) == [e] && e in log';
      }
    }
  }

  lemma AnswerIsFresh(rules: Rules, s: State, ev: Event, zone: string, log: seq<Evidence>)
    requires CacheIsBacked(rules, s, log) && Possible(ev) && AnswerFor(rules, s, ev, zone).Some?
    ensures FreshAnswer(rules, log + Gathered(rules, s, ev), zone, AnswerFor(rules, s, ev, zone).value,
                        AnswerTime(s, ev))
  {
    var log' := log + Gathered(rules, s, ev);
    if IsHit(s, zone, ev.start) {
      var e :| e in log && Backs(e, zone, s.cache[zone]);
      AgeGrows(e.at, ev.start, e.record);
      assert e in log';
    } else {
      var e := Evidence(zone, FirstRecord(rules.urls, ev.answer.value, U32_MAX).0.value, ev.later);
      assert Gathered(rules, s, ev) == [e] && e in log';
    }
  }

  /** Every `Resolved` answer of a run is fresh when it is given. */
  ghost predicate AllFresh(rules: Rules, s: State, evs: seq<Event>, log: seq<Evidence>)
    decreases |evs|
  {
    evs != [] ==>
      && (forall zone :: AnswerFor(rules, s, evs[0], zone).Some? ==>
            FreshAnswer(rules, log + Gathered(rules, s, evs[0]), zone, AnswerFor(rules, s, evs[0], zone).value,
                        AnswerTime(s, evs[0])))
      && AllFresh(rules, Next(rules, s, evs[0]), evs[1..], log + Gathered(rules, s, evs[0]))
  }

  lemma {:induction false} BackedRunsAreFresh(rules: Rules, s: State, evs: seq<Event>, log: seq<Evidence>)
    requires CacheIsBacked(rules, s, log) && forall ev :: ev in evs ==> Possible(ev)
    ensures AllFresh(rules, s, evs, log)
    decreases |evs|
  {
    if evs != [] {
      TailMembers(evs);
      forall zone | AnswerFor(rules, s, evs[0], zone).Some?
        ensures FreshAnswer(rules, log + Gathered(rules, s, evs[0]), zone, AnswerFor(rules, s, evs[0], zone).value,
                            AnswerTime(s, evs[0]))
      {
        AnswerIsFresh(rules, s, evs[0], zone, log);
      }
      StepKeepsBacking(rules, s, evs[0], log);
      BackedRunsAreFresh(rules, Next(rules, s, evs[0]), evs[1..], log + Gathered(rules, s, evs[0]));
    }
  }

  /** From a start with any saved pins, every answer rests on a record that
      verified for the zone in this run and is at most `maxAgeSecs` plus 60
      seconds old when the answer is given, cache hits included. */
  lemma AnswersAreFresh(rules: Rules, saved: map<string, PublisherId>, evs: seq<Event>)
    requires forall ev :: ev in evs ==> Possible(ev)
    ensures AllFresh(rules, State(saved, map[]), evs, [])
  {
    BackedRunsAreFresh(rules, State(saved, map[]), evs, []);
  }
}
