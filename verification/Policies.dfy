/** Policy rules and the retention window they give an image
    (crates/ocid-core/src/config.rs). */
module Policies {
  import opened Text
  import opened Identity
  import opened Names
  import opened Windows
  import DnsRecords

  datatype Mode = Full | Latest | LastN(n: nat)
  {
    /** `Mode::window`: how many releases to keep, `None` for all. */
    function Size(): Option<nat>
    {
      match this
      case Full => None
      case Latest => Some(1)
      case LastN(n) => Some(if n < 1 then 1 else n)
    }
  }

  datatype SeedEntry = SeedEntry(reference: string, mode: Mode)

  datatype FollowEntry = FollowEntry(publisher: string, mode: Mode)

  datatype Policy = Policy(
    seed: seq<SeedEntry>,
    follow: seq<FollowEntry>,
    pin: seq<string>,
    alias: map<string, string>,
    dns: map<string, string>)

  datatype SeedRule = SeedRule(publisher: PublisherId, name: string, tag: Option<string>, mode: Mode)

  // ------------------------------------------------------------------- parsing

  /** `parse_publisher_arg`: a key, or a domain through the recorded mapping. */
  function ParsePublisherArg(forms: KeyForms, p: Policy, s: string): Result<PublisherId, Error>
  {
    match ParsePublisher(forms, s)
    case Some(id) => Ok(id)
    case None =>
      if DnsRecords.ValidZone(s) then
        if s in p.dns then
          match ParsePublisher(forms, p.dns[s]) { case Some(id) => Ok(id) case None => Err(InvalidPublisher) }
        else Err(UnknownDomain)
      else Err(InvalidPublisher)
  }

  /** `parse_seed_rule`. */
  function ParseSeedRule(forms: KeyForms, p: Policy, s: string, mode: Mode): Result<SeedRule, Error>
  {
    match SplitOnce(s, '/')
    case None => Err(NoSlash)
    case Some((pubs, rest)) =>
      match ParsePublisherArg(forms, p, pubs)
      case Err(e) => Err(e)
      case Ok(publisher) =>
        match SplitTag(rest)
        case Err(e) => Err(e)
        case Ok((name, tag)) => Ok(SeedRule(publisher, name, tag, mode))
  }

  predicate ValidRule(r: SeedRule) { ValidName(r.name) && ValidTagOption(r.tag) }

  /** `seed_rule_to_string`. */
  function SeedRuleToString(r: SeedRule): string
  {
    r.publisher + "/" + NameAndTag(r.name, r.tag)
  }

  /** `parse_seed_rule` undoes `seed_rule_to_string` under every policy. */
  lemma ParseUndoesPrint(forms: KeyForms, p: Policy, r: SeedRule)
    requires ValidRule(r)
    ensures ParseSeedRule(forms, p, SeedRuleToString(r), r.mode) == Ok(r)
  {
    HexHasNone(r.publisher);
    SplitOnceAt(r.publisher, '/', NameAndTag(r.name, r.tag));
    ParseHexPublisher(forms, r.publisher);
    NameIsAscii(r.name);
    SplitTagJoined(r.name, r.tag);
  }

  /** Whatever text parses, the rule it gives is valid and prints to text that
      parses to the same rule. */
  lemma ParsedRuleIsValid(forms: KeyForms, p: Policy, s: string, mode: Mode)
    requires ParseSeedRule(forms, p, s, mode).Ok?
    ensures var r := ParseSeedRule(forms, p, s, mode).value;
            ValidRule(r) && ParseSeedRule(forms, p, SeedRuleToString(r), mode) == Ok(r)
  {
    ParseUndoesPrint(forms, p, ParseSeedRule(forms, p, s, mode).value);
  }

  lemma WrittenRuleParses(forms: KeyForms, p: Policy, slot: string, r: SeedRule)
    requires ValidRule(r) && '/' !in slot && ParsePublisherArg(forms, p, slot) == Ok(r.publisher)
    ensures ParseSeedRule(forms, p, slot + "/" + NameAndTag(r.name, r.tag), r.mode) == Ok(r)
  {
    SplitOnceAt(slot, '/', NameAndTag(r.name, r.tag));
    SplitTagExactlyWhen(NameAndTag(r.name, r.tag), r.name, r.tag);
  }

  lemma ParsedRuleIsWritten(forms: KeyForms, p: Policy, s: string, mode: Mode) returns (slot: string)
    requires ParseSeedRule(forms, p, s, mode).Ok?
    ensures var r := ParseSeedRule(forms, p, s, mode).value;
            && r.mode == mode && ValidRule(r)
            && '/' !in slot && ParsePublisherArg(forms, p, slot) == Ok(r.publisher)
            && s == slot + "/" + NameAndTag(r.name, r.tag)
  {
    var r := ParseSeedRule(forms, p, s, mode).value;
    var i := Find(s, '/');
    slot := s[..i];
    SplitTagExactlyWhen(s[i + 1..], r.name, r.tag);
    assert s == slot + "/" + s[i + 1..];
  }

  /** The rules that parse, and to what: a publisher slot up to the first
      slash, then a valid name, or a name, a colon and a tag. */
  lemma RuleParsesExactlyWhen(forms: KeyForms, p: Policy, s: string, mode: Mode, r: SeedRule)
    ensures ParseSeedRule(forms, p, s, mode) == Ok(r) <==>
      && r.mode == mode && ValidName(r.name) && (r.tag.Some? ==> ValidTag(r.tag.value))
      && exists slot :: '/' !in slot && ParsePublisherArg(forms, p, slot) == Ok(r.publisher)
           && s == slot + "/" + (if r.tag.Some? then r.name + ":" + r.tag.value else r.name)
  {
    var text := if r.tag.Some? then r.name + ":" + r.tag.value else r.name;
    assert text == NameAndTag(r.name, r.tag);
    if slot :| '/' !in slot && ParsePublisherArg(forms, p, slot) == Ok(r.publisher) && s == slot + "/" + text {
      if r.mode == mode && ValidRule(r) { WrittenRuleParses(forms, p, slot, r); }
    }
    if ParseSeedRule(forms, p, s, mode) == Ok(r) {
      var slot := ParsedRuleIsWritten(forms, p, s, mode);
    }
  }

  lemma ZoneIsNoKey(forms: KeyForms, zone: string)
    requires DnsRecords.ValidZone(zone)
    ensures Trim(zone) == zone && '/' !in zone && ParsePublisher(forms, zone) == forms.other(zone)
  {
    DnsRecords.ZoneIsToken(zone);
    DnsRecords.ZoneChars(zone);
    TrimIsIdentity(zone);
    PrefixChars(zone, "did:key:");
    assert "did:key:"[3] == ':';
    assert exists i :: 0 <= i < |zone| && zone[i] == '.';
  }

  /** A zone that is no key in some other form means the key recorded for it,
      and nothing while none is. */
  lemma RecordedDomain(forms: KeyForms, p: Policy, zone: string, key: PublisherId)
    requires DnsRecords.ValidZone(zone) && forms.other(zone) == None
    ensures zone in p.dns && p.dns[zone] == key ==> ParsePublisherArg(forms, p, zone) == Ok(key)
    ensures zone !in p.dns ==> ParsePublisherArg(forms, p, zone) == Err(UnknownDomain)
  {
    ZoneIsNoKey(forms, zone);
    ParseHexPublisher(forms, key);
  }

  /** Once its mapping is recorded, a rule with a domain means the key. */
  lemma DomainRuleMeansKey(forms: KeyForms, p: Policy, zone: string, r: SeedRule)
    requires DnsRecords.ValidZone(zone) && forms.other(zone) == None && ValidRule(r)
    requires zone in p.dns && p.dns[zone] == r.publisher
    ensures ParseSeedRule(forms, p, zone + "/" + NameAndTag(r.name, r.tag), r.mode) == Ok(r)
  {
    ZoneIsNoKey(forms, zone);
    RecordedDomain(forms, p, zone, r.publisher);
    WrittenRuleParses(forms, p, zone, r);
  }

  // -------------------------------------------------------------------- window

  /** What one matching rule adds to an image's window. */
  datatype Share = ByMode(mode: Mode) | ByTag(tag: string)

  predicate FollowMatches(forms: KeyForms, p: Policy, publisher: PublisherId, e: FollowEntry)
  {
    ParsePublisherArg(forms, p, e.publisher) == Ok(publisher)
  }

  /** Only the first follow of the publisher counts. */
  function FollowShares(forms: KeyForms, p: Policy, publisher: PublisherId, follow: seq<FollowEntry>): seq<Share>
  {
    if follow == [] then []
    else if FollowMatches(forms, p, publisher, follow[0]) then [ByMode(follow[0].mode)]
    else FollowShares(forms, p, publisher, follow[1..])
  }

  /** A seed rule of the image: its tag, or its mode. */
  function SeedShare(forms: KeyForms, p: Policy, publisher: PublisherId, name: string, e: SeedEntry): seq<Share>
  {
    match ParseSeedRule(forms, p, e.reference, e.mode)
    case Err(_) => []
    case Ok(r) =>
      if r.publisher != publisher || r.name != name then []
      else if r.tag.Some? then [ByTag(r.tag.value)] else [ByMode(r.mode)]
  }

  function SeedShares(forms: KeyForms, p: Policy, publisher: PublisherId, name: string, seed: seq<SeedEntry>)
    : seq<Share>
  {
    FlatMap((e: SeedEntry) => SeedShare(forms, p, publisher, name, e), seed)
  }

  /** A pin of the image; a pin without a tag is ignored. */
  function PinShare(forms: KeyForms, p: Policy, publisher: PublisherId, name: string, pin: string): seq<Share>
  {
    match ParseSeedRule(forms, p, pin, Full)
    case Err(_) => []
    case Ok(r) =>
      if r.publisher == publisher && r.name == name && r.tag.Some? then [ByTag(r.tag.value)] else []
  }

  function PinShares(forms: KeyForms, p: Policy, publisher: PublisherId, name: string, pin: seq<string>): seq<Share>
  {
    FlatMap((s: string) => PinShare(forms, p, publisher, name, s), pin)
  }

  /** All rules of an image. */
  function Shares(forms: KeyForms, p: Policy, publisher: PublisherId, name: string): seq<Share>
  {
    FollowShares(forms, p, publisher, p.follow)
    + SeedShares(forms, p, publisher, name, p.seed)
    + PinShares(forms, p, publisher, name, p.pin)
  }

  /** Some seed rule or pin is for exactly this tag of the image. */
  ghost predicate TagRuled(forms: KeyForms, p: Policy, publisher: PublisherId, name: string, t: string)
  {
    || (exists e :: e in p.seed
         && ParseSeedRule(forms, p, e.reference, e.mode) == Ok(SeedRule(publisher, name, Some(t), e.mode)))
    || (exists s :: s in p.pin
         && ParseSeedRule(forms, p, s, Full) == Ok(SeedRule(publisher, name, Some(t), Full)))
  }

  /** The first follow of the publisher asks for `mode`, or a seed rule for the
      whole of the image does. */
  ghost predicate ModeRuled(forms: KeyForms, p: Policy, publisher: PublisherId, name: string, mode: Mode)
  {
    || (exists i :: 0 <= i < |p.follow| && p.follow[i].mode == mode
         && ParsePublisherArg(forms, p, p.follow[i].publisher) == Ok(publisher)
         && forall j :: 0 <= j < i ==> ParsePublisherArg(forms, p, p.follow[j].publisher) != Ok(publisher))
    || (exists e :: e in p.seed && e.mode == mode
         && ParseSeedRule(forms, p, e.reference, e.mode) == Ok(SeedRule(publisher, name, None, mode)))
  }

  /** `Window::absorb`, and the insertion of a tag. */
  function Absorb(w: Window, share: Share): Window
  {
    match share
    case ByTag(t) => w.(tags := w.tags + {t})
    case ByMode(mode) =>
      match mode.Size()
      case None => w.(full := true)
      case Some(n) => w.(last := if w.last < n then n else w.last)
  }

  function Combine(shares: seq<Share>): Window
  {
    if shares == [] then Window(false, 0, {})
    else Absorb(Combine(shares[..|shares| - 1]), shares[|shares| - 1])
  }

  /** `Policy::window`. */
  function WindowOf(forms: KeyForms, p: Policy, publisher: PublisherId, name: string): Window
  {
    Combine(Shares(forms, p, publisher, name))
  }

  lemma CombineMore(shares: seq<Share>, more: seq<Share>)
    requires |more| <= 1
    ensures Combine(shares + more) == if more == [] then Combine(shares) else Absorb(Combine(shares), more[0])
  {
    if more == [] {
      assert shares + more == shares;
    } else {
      assert (shares + more)[..|shares|] == shares;
    }
  }

  method AbsorbAll(w: Window, more: seq<Share>, ghost shares: seq<Share>) returns (w': Window)
    requires w == Combine(shares) && |more| <= 1
    ensures w' == Combine(shares + more)
  {
    CombineMore(shares, more);
    w' := if more == [] then w else Absorb(w, more[0]);
  }

  lemma SeedSharesNext(forms: KeyForms, p: Policy, publisher: PublisherId, name: string, before: seq<Share>, k: nat)
    requires k < |p.seed|
    ensures before + SeedShares(forms, p, publisher, name, p.seed[..k + 1])
         == before + SeedShares(forms, p, publisher, name, p.seed[..k])
            + SeedShare(forms, p, publisher, name, p.seed[k])
  {
    FlatMapNext((e: SeedEntry) => SeedShare(forms, p, publisher, name, e), p.seed, k);
  }

  method AddSeeds(forms: KeyForms, p: Policy, publisher: PublisherId, name: string, w: Window, ghost before: seq<Share>)
    returns (w': Window)
    requires w == Combine(before)
    ensures w' == Combine(before + SeedShares(forms, p, publisher, name, p.seed))
  {
    w' := w;
    assert before + [] == before;
    for k := 0 to |p.seed|
      invariant w' == Combine(before + SeedShares(forms, p, publisher, name, p.seed[..k]))
    {
      SeedSharesNext(forms, p, publisher, name, before, k);
      w' := AbsorbAll(w', SeedShare(forms, p, publisher, name, p.seed[k]),
                      before + SeedShares(forms, p, publisher, name, p.seed[..k]));
    }
    assert p.seed[..|p.seed|] == p.seed;
  }

  lemma PinSharesNext(forms: KeyForms, p: Policy, publisher: PublisherId, name: string, before: seq<Share>, k: nat)
    requires k < |p.pin|
    ensures before + PinShares(forms, p, publisher, name, p.pin[..k + 1])
         == before + PinShares(forms, p, publisher, name, p.pin[..k]) + PinShare(forms, p, publisher, name, p.pin[k])
  {
    FlatMapNext((s: string) => PinShare(forms, p, publisher, name, s), p.pin, k);
  }

  method AddPins(forms: KeyForms, p: Policy, publisher: PublisherId, name: string, w: Window, ghost before: seq<Share>)
    returns (w': Window)
    requires w == Combine(before)
    ensures w' == Combine(before + PinShares(forms, p, publisher, name, p.pin))
  {
    w' := w;
    assert before + [] == before;
    for k := 0 to |p.pin|
      invariant w' == Combine(before + PinShares(forms, p, publisher, name, p.pin[..k]))
    {
      PinSharesNext(forms, p, publisher, name, before, k);
      w' := AbsorbAll(w', PinShare(forms, p, publisher, name, p.pin[k]),
                      before + PinShares(forms, p, publisher, name, p.pin[..k]));
    }
    assert p.pin[..|p.pin|] == p.pin;
  }

  /** Rules combine to the widest window, whatever their order: everything if
      some rule keeps everything, else the largest count some rule asks for;
      the fixed tags are those the rules name. */
  lemma {:induction false} CombineIsWidest(shares: seq<Share>)
    ensures var w := Combine(shares);
            && (w.full <==> ByMode(Full) in shares)
            && (forall m :: ByMode(m) in shares && m.Size().Some? ==> m.Size().value <= w.last)
            && (w.last > 0 ==> exists m :: ByMode(m) in shares && m.Size() == Some(w.last))
            && (forall t :: t in w.tags <==> ByTag(t) in shares)
  {
    if shares != [] {
      var front, x := shares[..|shares| - 1], shares[|shares| - 1];
      CombineIsWidest(front);
      assert forall y :: y in shares <==> y in front || y == x by { assert shares == front + [x]; }
      var w, w' := Combine(front), Combine(shares);
      if w'.last > 0 {
        if w'.last == w.last {
          var m :| ByMode(m) in front && m.Size() == Some(w.last);
          assert ByMode(m) in shares;
        } else {
          assert ByMode(x.mode) in shares && x.mode.Size() == Some(w'.last);
        }
      }
    }
  }

  /** The first matching follow, and no other, is among the shares. */
  lemma {:induction false} FollowSharesExactly(forms: KeyForms, p: Policy, publisher: PublisherId,
                                               follow: seq<FollowEntry>, x: Share)
    ensures x in FollowShares(forms, p, publisher, follow) <==>
      (exists i :: 0 <= i < |follow| && x == ByMode(follow[i].mode)
        && ParsePublisherArg(forms, p, follow[i].publisher) == Ok(publisher)
        && forall j :: 0 <= j < i ==> ParsePublisherArg(forms, p, follow[j].publisher) != Ok(publisher))
  {
    if follow != [] && !FollowMatches(forms, p, publisher, follow[0]) {
      var rest := follow[1..];
      FollowSharesExactly(forms, p, publisher, rest, x);
      if i :| 0 <= i < |rest| && x == ByMode(rest[i].mode)
              && ParsePublisherArg(forms, p, rest[i].publisher) == Ok(publisher)
              && forall j :: 0 <= j < i ==> ParsePublisherArg(forms, p, rest[j].publisher) != Ok(publisher) {
        assert follow[i + 1] == rest[i];
        assert forall j :: 1 <= j < i + 1 ==> follow[j] == rest[j - 1];
      }
      if i :| 0 <= i < |follow| && x == ByMode(follow[i].mode)
              && ParsePublisherArg(forms, p, follow[i].publisher) == Ok(publisher)
              && forall j :: 0 <= j < i ==> ParsePublisherArg(forms, p, follow[j].publisher) != Ok(publisher) {
        assert rest[i - 1] == follow[i];
        assert forall j :: 0 <= j < i - 1 ==> rest[j] == follow[j + 1];
      }
    }
  }

  lemma SeedShareIs(forms: KeyForms, p: Policy, publisher: PublisherId, name: string, e: SeedEntry, x: Share)
    ensures x in SeedShare(forms, p, publisher, name, e) <==>
      && ParseSeedRule(forms, p, e.reference, e.mode)
         == Ok(SeedRule(publisher, name, if x.ByTag? then Some(x.tag) else None, e.mode))
      && (x.ByMode? ==> x.mode == e.mode)
  {
  }

  lemma SeedSharesExactly(forms: KeyForms, p: Policy, publisher: PublisherId, name: string, seed: seq<SeedEntry>,
                          x: Share)
    ensures x in SeedShares(forms, p, publisher, name, seed) <==>
      exists e :: e in seed && (x.ByMode? ==> x.mode == e.mode)
        && ParseSeedRule(forms, p, e.reference, e.mode)
           == Ok(SeedRule(publisher, name, if x.ByTag? then Some(x.tag) else None, e.mode))
  {
    FlatMapMembers((e: SeedEntry) => SeedShare(forms, p, publisher, name, e), seed, x);
    forall e | e in seed { SeedShareIs(forms, p, publisher, name, e, x); }
  }

  lemma PinShareIs(forms: KeyForms, p: Policy, publisher: PublisherId, name: string, pin: string, x: Share)
    ensures x in PinShare(forms, p, publisher, name, pin) <==>
      x.ByTag? && ParseSeedRule(forms, p, pin, Full) == Ok(SeedRule(publisher, name, Some(x.tag), Full))
  {
  }

  lemma PinSharesExactly(forms: KeyForms, p: Policy, publisher: PublisherId, name: string, pin: seq<string>, x: Share)
    ensures x in PinShares(forms, p, publisher, name, pin) <==>
      exists s :: s in pin
        && x.ByTag? && ParseSeedRule(forms, p, s, Full) == Ok(SeedRule(publisher, name, Some(x.tag), Full))
  {
    FlatMapMembers((s: string) => PinShare(forms, p, publisher, name, s), pin, x);
    forall s | s in pin { PinShareIs(forms, p, publisher, name, s, x); }
  }

  /** A tag is shared when some rule is for it. */
  lemma TagsAreRuled(forms: KeyForms, p: Policy, publisher: PublisherId, name: string, t: string)
    ensures ByTag(t) in Shares(forms, p, publisher, name) <==> TagRuled(forms, p, publisher, name, t)
  {
    FollowSharesExactly(forms, p, publisher, p.follow, ByTag(t));
    SeedSharesExactly(forms, p, publisher, name, p.seed, ByTag(t));
    PinSharesExactly(forms, p, publisher, name, p.pin, ByTag(t));
  }

  /** A mode is shared when some rule asks for it. */
  lemma ModesAreRuled(forms: KeyForms, p: Policy, publisher: PublisherId, name: string, mode: Mode)
    ensures ByMode(mode) in Shares(forms, p, publisher, name) <==> ModeRuled(forms, p, publisher, name, mode)
  {
    FollowSharesExactly(forms, p, publisher, p.follow, ByMode(mode));
    SeedSharesExactly(forms, p, publisher, name, p.seed, ByMode(mode));
    PinSharesExactly(forms, p, publisher, name, p.pin, ByMode(mode));
  }

  /** The window in the terms of the rules themselves. */
  ghost predicate WindowOfRules(forms: KeyForms, p: Policy, publisher: PublisherId, name: string, w: Window)
  {
    && (forall t :: t in w.tags <==> TagRuled(forms, p, publisher, name, t))
    && (w.full <==> ModeRuled(forms, p, publisher, name, Full))
    && (ModeRuled(forms, p, publisher, name, Latest) ==> w.last >= 1)
    && (forall n :: ModeRuled(forms, p, publisher, name, LastN(n)) ==> w.last >= n && w.last >= 1)
    && (w.last == 0
        || (w.last == 1 && ModeRuled(forms, p, publisher, name, Latest))
        || (w.last == 1 && ModeRuled(forms, p, publisher, name, LastN(0)))
        || ModeRuled(forms, p, publisher, name, LastN(w.last)))
  }

  lemma WindowFollowsRules(forms: KeyForms, p: Policy, publisher: PublisherId, name: string)
    ensures WindowOfRules(forms, p, publisher, name, WindowOf(forms, p, publisher, name))
  {
    var shares, w := Shares(forms, p, publisher, name), WindowOf(forms, p, publisher, name);
    CombineIsWidest(shares);
    ModesAreRuled(forms, p, publisher, name, Full);
    ModesAreRuled(forms, p, publisher, name, Latest);
    forall n | ModeRuled(forms, p, publisher, name, LastN(n))
      ensures w.last >= n && w.last >= 1
    {
      ModesAreRuled(forms, p, publisher, name, LastN(n));
    }
    forall t
      ensures t in w.tags <==> TagRuled(forms, p, publisher, name, t)
    {
      TagsAreRuled(forms, p, publisher, name, t);
    }
    if w.last > 0 {
      var m :| ByMode(m) in shares && m.Size() == Some(w.last);
      ModesAreRuled(forms, p, publisher, name, m);
    }
  }

  /** `Policy::window`, rule list after rule list. */
  method ComputeWindow(forms: KeyForms, p: Policy, publisher: PublisherId, name: string) returns (w: Window)
    ensures w == WindowOf(forms, p, publisher, name)
    ensures WindowOfRules(forms, p, publisher, name, w)
  {
    WindowFollowsRules(forms, p, publisher, name);
    var i := 0;
    while i < |p.follow| && !FollowMatches(forms, p, publisher, p.follow[i])
      invariant i <= |p.follow|
      invariant FollowShares(forms, p, publisher, p.follow) == FollowShares(forms, p, publisher, p.follow[i..])
    {
      assert p.follow[i..][1..] == p.follow[i + 1..];
      i := i + 1;
    }
    w := Window(false, 0, {});
    if i < |p.follow| { w := AbsorbAll(w, [ByMode(p.follow[i].mode)], []); }
    ghost var follow := FollowShares(forms, p, publisher, p.follow);
    assert follow == [] + follow;
    w := AddSeeds(forms, p, publisher, name, w, follow);
    w := AddPins(forms, p, publisher, name, w, follow + SeedShares(forms, p, publisher, name, p.seed));
  }

  /** An image is covered if and only if some rule is about it. */
  lemma CoveredWhenSomeRule(forms: KeyForms, p: Policy, publisher: PublisherId, name: string)
    ensures WindowOf(forms, p, publisher, name) != Window(false, 0, {}) <==>
      || (exists t :: TagRuled(forms, p, publisher, name, t))
      || (exists mode :: ModeRuled(forms, p, publisher, name, mode))
  {
    WindowFollowsRules(forms, p, publisher, name);
    var w := WindowOf(forms, p, publisher, name);
    if w.tags != {} {
      var t :| t in w.tags;
      assert TagRuled(forms, p, publisher, name, t);
    }
  }

  // --------------------------------------------------------- changing the rules

  /** Position of the seed entry written exactly like `rule`, or the length. */
  function FindSeed(seed: seq<SeedEntry>, rule: string): (i: nat)
    ensures i <= |seed|
    ensures forall k :: 0 <= k < i ==> seed[k].reference != rule
    ensures i < |seed| ==> seed[i].reference == rule
  {
    if seed == [] || seed[0].reference == rule then 0 else 1 + FindSeed(seed[1..], rule)
  }

  /** `add_seed`: the new policy and whether it changed. */
  function AddSeed(forms: KeyForms, p: Policy, rule: string, mode: Mode): Result<(Policy, bool), Error>
  {
    match ParseSeedRule(forms, p, rule, mode)
    case Err(e) => Err(e)
    case Ok(_) =>
      var i := FindSeed(p.seed, rule);
      if i == |p.seed| then Ok((p.(seed := p.seed + [SeedEntry(rule, mode)]), true))
      else if p.seed[i].mode == mode then Ok((p, false))
      else Ok((p.(seed := p.seed[i := SeedEntry(rule, mode)]), true))
  }

  /** Does a stored entry fall under a rule being removed? */
  predicate Covers(forms: KeyForms, p: Policy, rule: SeedRule, e: SeedEntry)
  {
    match ParseSeedRule(forms, p, e.reference, e.mode)
    case Err(_) => false
    case Ok(r) => r.publisher == rule.publisher && r.name == rule.name && (rule.tag.None? || r.tag == rule.tag)
  }

  function Uncovered(forms: KeyForms, p: Policy, rule: SeedRule, seed: seq<SeedEntry>): seq<SeedEntry>
  {
    Filter((e: SeedEntry) => !Covers(forms, p, rule, e), seed)
  }

  /** `remove_seed`. */
  function RemoveSeed(forms: KeyForms, p: Policy, rule: string): Result<(Policy, bool), Error>
  {
    match ParseSeedRule(forms, p, rule, Full)
    case Err(e) => Err(e)
    case Ok(r) =>
      var seed := Uncovered(forms, p, r, p.seed);
      Ok((p.(seed := seed), |seed| != |p.seed|))
  }

  /** Seeding sets the mode of the first entry written exactly like the rule,
      or appends the rule; nothing else changes. */
  lemma SeedingIsExact(forms: KeyForms, p: Policy, rule: string, mode: Mode)
    ensures AddSeed(forms, p, rule, mode).Ok? <==> ParseSeedRule(forms, p, rule, mode).Ok?
    ensures AddSeed(forms, p, rule, mode).Ok? ==>
      var (p', changed) := AddSeed(forms, p, rule, mode).value;
      && p' == p.(seed := p'.seed) && (changed <==> p' != p)
      && ((p'.seed == p.seed + [SeedEntry(rule, mode)] && forall e :: e in p.seed ==> e.reference != rule)
          || (exists i :: 0 <= i < |p.seed| && p.seed[i].reference == rule
                && (forall j :: 0 <= j < i ==> p.seed[j].reference != rule)
                && p'.seed == p.seed[i := SeedEntry(rule, mode)]))
  {
    var i := FindSeed(p.seed, rule);
    if i < |p.seed| && p.seed[i].mode == mode {
      assert p.seed[i] == SeedEntry(rule, mode) && p.seed == p.seed[i := SeedEntry(rule, mode)];
    } else if i < |p.seed| {
      assert p.seed[i := SeedEntry(rule, mode)][i] != p.seed[i];
    }
  }

  lemma UncoveredFacts(forms: KeyForms, p: Policy, rule: SeedRule, seed: seq<SeedEntry>)
    ensures Uncovered(forms, p, rule, seed) == seed <==> forall e :: e in seed ==> !Covers(forms, p, rule, e)
    ensures |Uncovered(forms, p, rule, seed)| == |seed| <==> Uncovered(forms, p, rule, seed) == seed
    ensures forall e :: multiset(Uncovered(forms, p, rule, seed))[e]
                        == if Covers(forms, p, rule, e) then 0 else multiset(seed)[e]
  {
    FilterFacts((e: SeedEntry) => !Covers(forms, p, rule, e), seed);
  }

  /** Unseeding removes exactly the entries that parse to the rule's publisher
      and name, and to its tag if it has one. */
  lemma UnseedingIsExact(forms: KeyForms, p: Policy, rule: string, e: SeedEntry)
    ensures RemoveSeed(forms, p, rule).Ok? <==> ParseSeedRule(forms, p, rule, Full).Ok?
    ensures RemoveSeed(forms, p, rule).Ok? ==>
      var (p', changed) := RemoveSeed(forms, p, rule).value;
      var r, own := ParseSeedRule(forms, p, rule, Full).value, ParseSeedRule(forms, p, e.reference, e.mode);
      var falls := own.Ok? && own.value.publisher == r.publisher && own.value.name == r.name
                   && (r.tag == None || own.value.tag == r.tag);
      && p' == p.(seed := p'.seed) && (changed <==> p' != p)
      && multiset(p'.seed)[e] == if falls then 0 else multiset(p.seed)[e]
  {
    if RemoveSeed(forms, p, rule).Ok? {
      var r := ParseSeedRule(forms, p, rule, Full).value;
      UncoveredFacts(forms, p, r, p.seed);
    }
  }

  /** `parse_seed_rule` reads neither the rule lists nor, for what it resolves
      to, the mode. */
  lemma ParseIgnoresRules(forms: KeyForms, p: Policy, p': Policy, s: string, mode: Mode, mode': Mode)
    requires p.dns == p'.dns
    ensures ParseSeedRule(forms, p, s, mode).Ok? <==> ParseSeedRule(forms, p', s, mode').Ok?
    ensures ParseSeedRule(forms, p, s, mode).Ok? ==>
      ParseSeedRule(forms, p', s, mode') == Ok(ParseSeedRule(forms, p, s, mode).value.(mode := mode'))
  {
  }

  lemma UncoveredIgnoresRules(forms: KeyForms, p: Policy, p': Policy, rule: SeedRule, seed: seq<SeedEntry>)
    requires p.dns == p'.dns
    ensures Uncovered(forms, p, rule, seed) == Uncovered(forms, p', rule, seed)
  {
    forall e: SeedEntry { ParseIgnoresRules(forms, p, p', e.reference, e.mode, e.mode); }
    FilterAgrees((e: SeedEntry) => !Covers(forms, p, rule, e), (e: SeedEntry) => !Covers(forms, p', rule, e), seed);
  }

  lemma UncoveredModeless(forms: KeyForms, p: Policy, r: SeedRule, r': SeedRule, seed: seq<SeedEntry>)
    requires r' == r.(mode := r'.mode)
    ensures Uncovered(forms, p, r, seed) == Uncovered(forms, p, r', seed)
  {
    FilterAgrees((e: SeedEntry) => !Covers(forms, p, r, e), (e: SeedEntry) => !Covers(forms, p, r', e), seed);
  }

  /** Unseeding undoes seeding if and only if no earlier rule fell under it. */
  lemma UnseedUndoesSeedExactlyWhen(forms: KeyForms, p: Policy, rule: string, mode: Mode)
    requires AddSeed(forms, p, rule, mode).Ok?
    ensures var added := AddSeed(forms, p, rule, mode).value.0;
            RemoveSeed(forms, added, rule).Ok?
            && (RemoveSeed(forms, added, rule).value.0 == p
                <==> forall e :: e in p.seed ==> !Covers(forms, p, ParseSeedRule(forms, p, rule, mode).value, e))
  {
    var r := ParseSeedRule(forms, p, rule, mode).value;
    var added := AddSeed(forms, p, rule, mode).value.0;
    ParseIgnoresRules(forms, p, added, rule, mode, Full);
    var r' := ParseSeedRule(forms, added, rule, Full).value;
    UncoveredModeless(forms, p, r, r', added.seed);
    UncoveredIgnoresRules(forms, p, added, r', added.seed);
    UncoveredFacts(forms, p, r, added.seed);
    UncoveredFacts(forms, p, r, p.seed);
    var i := FindSeed(p.seed, rule);
    if i < |p.seed| {
      ParseIgnoresRules(forms, p, p, rule, mode, p.seed[i].mode);
      assert p.seed[i] in p.seed && Covers(forms, p, r, p.seed[i]);
    } else {
      assert added.seed[..|p.seed|] == p.seed;
      assert Covers(forms, p, r, SeedEntry(rule, mode));
    }
  }
}
