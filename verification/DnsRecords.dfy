/** The `_ocid` TXT record: printing, splitting into DNS strings, parsing and
    the payload its signature covers (crates/ocid-core/src/dns.rs). */
module DnsRecords {
  import opened Text
  import opened Identity

  /** Length limit of one DNS TXT character-string (section 3.3 of RFC 1035). */
  const TXT_STRING_MAX: nat := 255

  type Signature = bs: seq<byte> | |bs| == 64 witness seq(64, _ => 0 as byte)

  datatype DnsRecord = DnsRecord(
    key: PublisherId,
    ts: nat,
    relay: Option<string>,
    seed: Option<PublisherId>,
    sig: Signature)

  datatype Error =
    | NotKeyValue | BadKey | BadTimestamp | BadRelay | BadSeed | BadSignature | UnknownField(field: string)
    | BadVersion | MissingKey | MissingTimestamp | MissingSignature

  // ------------------------------------------------------------- relay, zone

  /** What a URL library decides. It accepts only text with a scheme, so with
      a colon; `scheme` is meant for accepted text. */
  datatype Urls = Urls(accepts: string -> bool, scheme: string -> string)

  predicate SchemeNeedsColon(urls: Urls, s: string)
  {
    urls.accepts(s) ==> ':' in s
  }

  predicate ValidRelay(urls: Urls, relay: string)
  {
    && NoWhitespace(relay)
    && urls.accepts(relay)
    && (urls.scheme(relay) == "http" || urls.scheme(relay) == "https")
    && ByteLen(relay) + |"relay="| <= TXT_STRING_MAX
  }

  predicate LabelChar(c: char) { IsDigit(c) || 'a' <= c <= 'z' || 'A' <= c <= 'Z' || c == '-' }

  predicate ValidLabel(piece: string)
  {
    && piece != [] && |piece| <= 63
    && (forall i :: 0 <= i < |piece| ==> LabelChar(piece[i]))
    && piece[0] != '-' && piece[|piece| - 1] != '-'
    && !AllDigits(piece)
  }

  /** `validate_zone`, and so `is_domain_name`. */
  predicate ValidZone(zone: string)
  {
    && ByteLen(zone) <= 253 && '.' in zone
    && forall piece :: piece in Split(zone, '.') ==> ValidLabel(piece)
  }

  // ---------------------------------------------------------------- printing

  function Field(k: string, v: string): string { k + "=" + v }

  function VersionField(): string { Field("v", "ocid1") }

  function KeyField(r: DnsRecord): string { Field("k", r.key) }

  function TsField(r: DnsRecord): string { Field("ts", Decimal(r.ts)) }

  function RelayField(r: DnsRecord): string requires r.relay.Some? { Field("relay", r.relay.value) }

  function SeedField(r: DnsRecord): string requires r.seed.Some? { Field("seed", r.seed.value) }

  function SigField(r: DnsRecord): string { Field("sig", HexEncode(r.sig)) }

  /** `to_txt`: the core fields, then each hint that is there, then `sig`. */
  function ToTxt(r: DnsRecord): string
  {
    var s := VersionField() + " " + KeyField(r) + " " + TsField(r);
    var s := if r.relay.Some? then s + " " + RelayField(r) else s;
    var s := if r.seed.Some? then s + " " + SeedField(r) else s;
    s + " " + SigField(r)
  }

  /** The record's `key=value` fields in the order they are printed. */
  function Tokens(r: DnsRecord): seq<string>
  {
    var t := [VersionField(), KeyField(r), TsField(r)];
    var t := if r.relay.Some? then t + [RelayField(r)] else t;
    var t := if r.seed.Some? then t + [SeedField(r)] else t;
    t + [SigField(r)]
  }

  /** A record whose fields are what signing and parsing let through. */
  predicate WellFormed(urls: Urls, r: DnsRecord)
  {
    r.ts <= U64_MAX && (r.relay.Some? ==> ValidRelay(urls, r.relay.value))
  }

  lemma JoinSnoc(toks: seq<string>, t: string)
    requires toks != []
    ensures Join(toks + [t], ' ') == Join(toks, ' ') + " " + t
  {
    JoinAppend(toks, [t], ' ');
  }

  /** Printing is joining the fields with single spaces. */
  lemma ToTxtJoinsTokens(r: DnsRecord)
    ensures ToTxt(r) == Join(Tokens(r), ' ')
  {
    var t1 := [VersionField()];
    JoinSnoc(t1, KeyField(r));
    var t2 := t1 + [KeyField(r)];
    JoinSnoc(t2, TsField(r));
    var t3 := t2 + [TsField(r)];
    assert t3 == [VersionField(), KeyField(r), TsField(r)];
    if r.relay.Some? { JoinSnoc(t3, RelayField(r)); }
    var t4 := if r.relay.Some? then t3 + [RelayField(r)] else t3;
    if r.seed.Some? { JoinSnoc(t4, SeedField(r)); }
    var t5 := if r.seed.Some? then t4 + [SeedField(r)] else t4;
    JoinSnoc(t5, SigField(r));
  }

  lemma FieldIsToken(k: string, v: string)
    requires NoWhitespace(k) && NoWhitespace(v)
    ensures IsToken(Field(k, v))
  {
  }

  lemma TokensAreTokens(urls: Urls, r: DnsRecord)
    requires WellFormed(urls, r)
    ensures forall t :: t in Tokens(r) ==> IsToken(t)
  {
    HexHasNone(r.key);
    FieldIsToken("v", "ocid1");
    FieldIsToken("k", r.key);
    FieldIsToken("ts", Decimal(r.ts));
    FieldIsToken("sig", HexEncode(r.sig));
    if r.relay.Some? { FieldIsToken("relay", r.relay.value); }
    if r.seed.Some? {
      HexHasNone(r.seed.value);
      FieldIsToken("seed", r.seed.value);
    }
  }

  // ----------------------------------------------------------------- parsing

  /** The fields collected so far. */
  datatype Fields = Fields(
    version: Option<string>, key: Option<PublisherId>, ts: Option<nat>,
    relay: Option<string>, seed: Option<PublisherId>, sig: Option<Signature>)

  const NO_FIELDS := Fields(None, None, None, None, None, None)

  function DecodeSignature(v: string): Option<Signature>
  {
    match HexDecode(v)
    case Some(bs) => if |bs| == 64 then Some(bs) else None
    case None => None
  }

  /** One turn of the token loop; a repeated field overwrites. */
  function Absorb(urls: Urls, f: Fields, tok: string): Result<Fields, Error>
  {
    match SplitOnce(tok, '=')
    case None => Err(NotKeyValue)
    case Some((k, v)) =>
      if k == "v" then Ok(f.(version := Some(v)))
      else if k == "k" then if IsHexPublisher(v) then Ok(f.(key := Some(v))) else Err(BadKey)
      else if k == "ts" then
        match ParseU64(v) { case Some(n) => Ok(f.(ts := Some(n))) case None => Err(BadTimestamp) }
      else if k == "relay" then if ValidRelay(urls, v) then Ok(f.(relay := Some(v))) else Err(BadRelay)
      else if k == "seed" then if IsHexPublisher(v) then Ok(f.(seed := Some(v))) else Err(BadSeed)
      else if k == "sig" then
        match DecodeSignature(v) { case Some(s) => Ok(f.(sig := Some(s))) case None => Err(BadSignature) }
      else Err(UnknownField(k))
  }

  function AbsorbAll(urls: Urls, toks: seq<string>): Result<Fields, Error>
  {
    if toks == [] then Ok(NO_FIELDS)
    else match AbsorbAll(urls, toks[..|toks| - 1])
      case Err(e) => Err(e)
      case Ok(f) => Absorb(urls, f, toks[|toks| - 1])
  }

  /** The checks after the loop. */
  function Finish(f: Fields): Result<DnsRecord, Error>
  {
    if f.version != Some("ocid1") then Err(BadVersion)
    else if f.key.None? then Err(MissingKey)
    else if f.ts.None? then Err(MissingTimestamp)
    else if f.sig.None? then Err(MissingSignature)
    else Ok(DnsRecord(f.key.value, f.ts.value, f.relay, f.seed, f.sig.value))
  }

  function Parse(urls: Urls, txt: string): Result<DnsRecord, Error>
  {
    match AbsorbAll(urls, SplitWhitespace(txt))
    case Err(e) => Err(e)
    case Ok(f) => Finish(f)
  }

  lemma {:induction false} AbsorbAllStops(urls: Urls, a: seq<string>, b: seq<string>)
    requires AbsorbAll(urls, a).Err?
    ensures AbsorbAll(urls, a + b) == AbsorbAll(urls, a)
  {
    if b == [] {
      assert a + b == a;
    } else {
      assert (a + b)[..|a + b| - 1] == a + b[..|b| - 1];
      AbsorbAllStops(urls, a, b[..|b| - 1]);
    }
  }

  /** `DnsRecord::parse`: the loop over whitespace-separated tokens, leaving at
      the first bad one. */
  method ParseLoop(urls: Urls, txt: string) returns (r: Result<DnsRecord, Error>)
    ensures r == Parse(urls, txt)
  {
    var toks := SplitWhitespace(txt);
    var f := NO_FIELDS;
    for i := 0 to |toks|
      invariant AbsorbAll(urls, toks[..i]) == Ok(f)
    {
      assert toks[..i + 1][..i] == toks[..i];
      match Absorb(urls, f, toks[i]) {
        case Err(e) =>
          AbsorbAllStops(urls, toks[..i + 1], toks[i + 1..]);
          assert toks[..i + 1] + toks[i + 1..] == toks;
          return Err(e);
        case Ok(next) => f := next;
      }
    }
    assert toks[..|toks|] == toks;
    r := Finish(f);
  }

  /** What the fields hold after absorbing some of a record's own tokens: the
      record's value where the token has occurred, nothing elsewhere. */
  function Seen(r: DnsRecord, toks: seq<string>): Fields
  {
    Fields(
      if VersionField() in toks then Some("ocid1") else None,
      if KeyField(r) in toks then Some(r.key) else None,
      if TsField(r) in toks then Some(r.ts) else None,
      if r.relay.Some? && RelayField(r) in toks then r.relay else None,
      if r.seed.Some? && SeedField(r) in toks then r.seed else None,
      if SigField(r) in toks then Some(r.sig) else None)
  }

  lemma FieldSplits(k: string, v: string)
    requires '=' !in k
    ensures SplitOnce(Field(k, v), '=') == Some((k, v))
  {
    SplitOnceAt(k, '=', v);
  }

  /** Each of a record's tokens reads back as the field it prints. */
  lemma OwnFieldsSplit(r: DnsRecord)
    ensures SplitOnce(VersionField(), '=') == Some(("v", "ocid1"))
    ensures SplitOnce(KeyField(r), '=') == Some(("k", r.key))
    ensures SplitOnce(TsField(r), '=') == Some(("ts", Decimal(r.ts)))
    ensures r.relay.Some? ==> SplitOnce(RelayField(r), '=') == Some(("relay", r.relay.value))
    ensures r.seed.Some? ==> SplitOnce(SeedField(r), '=') == Some(("seed", r.seed.value))
    ensures SplitOnce(SigField(r), '=') == Some(("sig", HexEncode(r.sig)))
  {
    FieldSplits("v", "ocid1");
    FieldSplits("k", r.key);
    FieldSplits("ts", Decimal(r.ts));
    FieldSplits("sig", HexEncode(r.sig));
    if r.relay.Some? { FieldSplits("relay", r.relay.value); }
    if r.seed.Some? { FieldSplits("seed", r.seed.value); }
  }

  lemma OwnTokenEffect(urls: Urls, r: DnsRecord, f: Fields)
    requires WellFormed(urls, r)
    ensures Absorb(urls, f, VersionField()) == Ok(f.(version := Some("ocid1")))
    ensures Absorb(urls, f, KeyField(r)) == Ok(f.(key := Some(r.key)))
    ensures Absorb(urls, f, TsField(r)) == Ok(f.(ts := Some(r.ts)))
    ensures r.relay.Some? ==> Absorb(urls, f, RelayField(r)) == Ok(f.(relay := r.relay))
    ensures r.seed.Some? ==> Absorb(urls, f, SeedField(r)) == Ok(f.(seed := r.seed))
    ensures Absorb(urls, f, SigField(r)) == Ok(f.(sig := Some(r.sig)))
  {
    OwnFieldsSplit(r);
    ParseDecimal(r.ts);
    HexRoundTrip(r.sig);
  }

  lemma OwnFieldsDiffer(r: DnsRecord)
    ensures VersionField() != KeyField(r) && KeyField(r) != TsField(r) && TsField(r) != VersionField()
    ensures SigField(r) != VersionField() && SigField(r) != KeyField(r) && SigField(r) != TsField(r)
    ensures r.relay.Some? ==> RelayField(r) != VersionField() && RelayField(r) != KeyField(r)
                              && RelayField(r) != TsField(r) && RelayField(r) != SigField(r)
    ensures r.seed.Some? ==> SeedField(r) != VersionField() && SeedField(r) != KeyField(r)
                             && SeedField(r) != TsField(r) && SeedField(r) != SigField(r)
    ensures r.relay.Some? && r.seed.Some? ==> RelayField(r) != SeedField(r)
  {
    OwnFieldsSplit(r);
  }

  lemma OwnTokenCases(r: DnsRecord, tok: string)
    requires tok in Tokens(r)
    ensures tok == VersionField() || tok == KeyField(r) || tok == TsField(r) || tok == SigField(r)
            || (r.relay.Some? && tok == RelayField(r)) || (r.seed.Some? && tok == SeedField(r))
  {
  }

  lemma AbsorbOwnToken(urls: Urls, r: DnsRecord, toks: seq<string>, tok: string)
    requires WellFormed(urls, r) && tok in Tokens(r)
    ensures Absorb(urls, Seen(r, toks), tok) == Ok(Seen(r, toks + [tok]))
  {
    OwnTokenCases(r, tok);
    OwnTokenEffect(urls, r, Seen(r, toks));
    OwnFieldsDiffer(r);
    assert forall t :: t in toks + [tok] <==> t in toks || t == tok;
  }

  lemma {:induction false} AbsorbOwnTokens(urls: Urls, r: DnsRecord, toks: seq<string>)
    requires WellFormed(urls, r) && forall t :: t in toks ==> t in Tokens(r)
    ensures AbsorbAll(urls, toks) == Ok(Seen(r, toks))
  {
    if toks != [] {
      var front, t := toks[..|toks| - 1], toks[|toks| - 1];
      assert toks == front + [t];
      AbsorbOwnTokens(urls, r, front);
      AbsorbOwnToken(urls, r, front, t);
    }
  }

  function Last(s: seq<string>): string
    requires s != []
  {
    s[|s| - 1]
  }

  lemma OwnTokensOccur(r: DnsRecord)
    ensures VersionField() in Tokens(r) && KeyField(r) in Tokens(r) && TsField(r) in Tokens(r)
    ensures SigField(r) in Tokens(r) && Last(Tokens(r)) == SigField(r)
    ensures r.relay.Some? ==> RelayField(r) in Tokens(r)
    ensures r.seed.Some? ==> SeedField(r) in Tokens(r)
  {
    var all := Tokens(r);
    assert all[0] == VersionField() && all[1] == KeyField(r) && all[2] == TsField(r);
    assert r.relay.Some? ==> all[3] == RelayField(r);
    assert r.seed.Some? ==> all[|all| - 2] == SeedField(r);
  }

  /** Parsing gives the record back from its tokens in any order, repeated or
      not, whatever the values contain (a relay may contain `=`). */
  lemma ParseAnyOrder(urls: Urls, r: DnsRecord, toks: seq<string>)
    requires WellFormed(urls, r)
    requires forall t :: t in toks <==> t in Tokens(r)
    ensures Parse(urls, Join(toks, ' ')) == Ok(r)
  {
    TokensAreTokens(urls, r);
    SplitWhitespaceJoin(toks);
    AbsorbOwnTokens(urls, r, toks);
    OwnTokensOccur(r);
  }

  /** `parse` undoes `to_txt`. */
  lemma ParseUndoesToTxt(urls: Urls, r: DnsRecord)
    requires WellFormed(urls, r)
    ensures Parse(urls, ToTxt(r)) == Ok(r)
  {
    ToTxtJoinsTokens(r);
    ParseAnyOrder(urls, r, Tokens(r));
  }

  /** Whatever parses is well formed, so it can be printed and parsed again. */
  lemma {:induction false} AbsorbAllWellFormed(urls: Urls, toks: seq<string>)
    requires AbsorbAll(urls, toks).Ok?
    ensures var f := AbsorbAll(urls, toks).value;
            (f.ts.Some? ==> f.ts.value <= U64_MAX) && (f.relay.Some? ==> ValidRelay(urls, f.relay.value))
  {
    if toks != [] { AbsorbAllWellFormed(urls, toks[..|toks| - 1]); }
  }

  lemma ParsedIsWellFormed(urls: Urls, txt: string)
    requires Parse(urls, txt).Ok?
    ensures WellFormed(urls, Parse(urls, txt).value)
    ensures Parse(urls, ToTxt(Parse(urls, txt).value)) == Parse(urls, txt)
  {
    AbsorbAllWellFormed(urls, SplitWhitespace(txt));
    ParseUndoesToTxt(urls, Parse(urls, txt).value);
  }

  // ------------------------------------------------------- what is accepted

  /** The value of the last token that begins with `k=`. */
  function LastValue(toks: seq<string>, k: string): Option<string>
  {
    if toks == [] then None
    else match StripPrefix(toks[|toks| - 1], k + "=")
      case Some(v) => Some(v)
      case None => LastValue(toks[..|toks| - 1], k)
  }

  /** The six keys, and what each may be given. */
  predicate GoodValue(urls: Urls, k: string, v: string)
  {
    || k == "v"
    || ((k == "k" || k == "seed") && |v| == 64 && AllLowerHex(v))
    || (k == "ts" && ParseU64(v).Some?)
    || (k == "relay" && ValidRelay(urls, v))
    || (k == "sig" && HexDecode(v).Some? && |HexDecode(v).value| == 64)
  }

  /** A field with one of the six keys and a value it may be given. */
  ghost predicate GoodToken(urls: Urls, tok: string)
  {
    exists k, v :: tok == k + "=" + v && GoodValue(urls, k, v)
  }

  /** A token has the value of its own key and of no other. */
  lemma TokenValue(tok: string, k: string, v: string, k': string)
    requires SplitOnce(tok, '=') == Some((k, v)) && '=' !in k'
    ensures StripPrefix(tok, k' + "=") == if k == k' then Some(v) else None
    ensures tok == k + "=" + v
  {
    var i := Find(tok, '=');
    assert tok == tok[..i] + [tok[i]] + tok[i + 1..];
    var p := k' + "=";
    if StripPrefix(tok, p).Some? {
      assert tok == k' + ['='] + tok[|p|..];
      SplitOnceAt(k', '=', tok[|p|..]);
    }
  }

  lemma LastValueNext(toks: seq<string>, k: string, v: string, k': string)
    requires toks != [] && SplitOnce(toks[|toks| - 1], '=') == Some((k, v)) && '=' !in k'
    ensures LastValue(toks, k') == if k == k' then Some(v) else LastValue(toks[..|toks| - 1], k')
  {
    TokenValue(toks[|toks| - 1], k, v, k');
  }

  lemma GoodTokenAbsorbed(urls: Urls, f: Fields, tok: string)
    ensures Absorb(urls, f, tok).Ok? <==> GoodToken(urls, tok)
  {
    if GoodToken(urls, tok) {
      var k, v :| tok == k + "=" + v && GoodValue(urls, k, v);
      SplitOnceAt(k, '=', v);
    }
    if Absorb(urls, f, tok).Ok? {
      var (k, v) := SplitOnce(tok, '=').value;
      TokenValue(tok, k, v, k);
      assert GoodValue(urls, k, v);
    }
  }

  /** The fields hold the last value given for each key. */
  predicate HoldsLast(f: Fields, toks: seq<string>)
  {
    && f.version == LastValue(toks, "v")
    && f.key == LastValue(toks, "k")
    && f.ts == (match LastValue(toks, "ts") case Some(v) => ParseU64(v) case None => None)
    && f.relay == LastValue(toks, "relay")
    && f.seed == LastValue(toks, "seed")
    && match LastValue(toks, "sig")
       case Some(v) => f.sig.Some? && HexDecode(v) == Some(f.sig.value)
       case None => f.sig.None?
  }

  lemma AbsorbHoldsLast(urls: Urls, f: Fields, toks: seq<string>)
    requires toks != [] && HoldsLast(f, toks[..|toks| - 1]) && Absorb(urls, f, toks[|toks| - 1]).Ok?
    ensures HoldsLast(Absorb(urls, f, toks[|toks| - 1]).value, toks)
  {
    var (k, v) := SplitOnce(toks[|toks| - 1], '=').value;
    LastValueNext(toks, k, v, "v");
    LastValueNext(toks, k, v, "k");
    LastValueNext(toks, k, v, "ts");
    LastValueNext(toks, k, v, "relay");
    LastValueNext(toks, k, v, "seed");
    LastValueNext(toks, k, v, "sig");
  }

  lemma {:induction false} AbsorbAllExactly(urls: Urls, toks: seq<string>)
    ensures AbsorbAll(urls, toks).Ok? <==> forall t :: t in toks ==> GoodToken(urls, t)
    ensures AbsorbAll(urls, toks).Ok? ==> HoldsLast(AbsorbAll(urls, toks).value, toks)
  {
    if toks != [] {
      var front, t := toks[..|toks| - 1], toks[|toks| - 1];
      assert toks == front + [t];
      AbsorbAllExactly(urls, front);
      if AbsorbAll(urls, front).Ok? {
        var f := AbsorbAll(urls, front).value;
        GoodTokenAbsorbed(urls, f, t);
        if GoodToken(urls, t) { AbsorbHoldsLast(urls, f, toks); }
      }
    }
  }

  /** Text parses to a record if and only if every whitespace-separated token
      is a good field, and the last value given for each key is the record's:
      the version `ocid1`, a key, a timestamp and a signature, the hints or
      none. */
  lemma ParsesExactlyWhen(urls: Urls, txt: string, r: DnsRecord)
    ensures Parse(urls, txt) == Ok(r) <==>
      var toks := SplitWhitespace(txt);
      && (forall t :: t in toks ==> GoodToken(urls, t))
      && LastValue(toks, "v") == Some("ocid1")
      && LastValue(toks, "k") == Some(r.key)
      && LastValue(toks, "ts").Some? && ParseU64(LastValue(toks, "ts").value) == Some(r.ts)
      && LastValue(toks, "relay") == r.relay
      && LastValue(toks, "seed") == r.seed
      && LastValue(toks, "sig").Some? && HexDecode(LastValue(toks, "sig").value) == Some(r.sig)
  {
    AbsorbAllExactly(urls, SplitWhitespace(txt));
  }

  lemma FieldAfter(s: string, k: string, v: string, sep: string)
    requires sep == " " + k + "="
    ensures s + " " + Field(k, v) == s + sep + v
  {
  }

  lemma CoreText(r: DnsRecord)
    ensures VersionField() + " " + KeyField(r) + " " + TsField(r) == "v=ocid1 k=" + r.key + " ts=" + Decimal(r.ts)
  {
    FieldAfter("v=ocid1", "k", r.key, " k=");
    FieldAfter("v=ocid1 k=" + r.key, "ts", Decimal(r.ts), " ts=");
  }

  lemma HintsText(r: DnsRecord, core: string)
    ensures (if r.relay.Some? then core + " " + RelayField(r) else core)
         == core + (if r.relay.Some? then " relay=" + r.relay.value else "")
    ensures (if r.seed.Some? then core + " " + SeedField(r) else core)
         == core + (if r.seed.Some? then " seed=" + r.seed.value else "")
  {
    if r.relay.Some? {
      FieldAfter(core, "relay", r.relay.value, " relay=");
      assert core + " relay=" + r.relay.value == core + (" relay=" + r.relay.value);
    }
    if r.seed.Some? {
      FieldAfter(core, "seed", r.seed.value, " seed=");
      assert core + " seed=" + r.seed.value == core + (" seed=" + r.seed.value);
    }
  }

  /** The printed text. */
  lemma PrintedText(r: DnsRecord)
    ensures ToTxt(r) == "v=ocid1 k=" + r.key + " ts=" + Decimal(r.ts)
                     + (if r.relay.Some? then " relay=" + r.relay.value else "")
                     + (if r.seed.Some? then " seed=" + r.seed.value else "")
                     + " sig=" + HexEncode(r.sig)
  {
    var core := "v=ocid1 k=" + r.key + " ts=" + Decimal(r.ts);
    var relay := core + (if r.relay.Some? then " relay=" + r.relay.value else "");
    var seed := relay + (if r.seed.Some? then " seed=" + r.seed.value else "");
    CoreText(r);
    HintsText(r, core);
    HintsText(r, relay);
    FieldAfter(seed, "sig", HexEncode(r.sig), " sig=");
  }

  /** A part of a host name: 1 to 63 letters of either case, digits and inner
      hyphens, not digits alone. */
  ghost predicate HostLabel(piece: string)
  {
    && 1 <= |piece| <= 63 && piece[0] != '-' && piece[|piece| - 1] != '-'
    && (forall c :: c in piece ==> c == '-' || '0' <= c <= '9' || 'a' <= c <= 'z' || 'A' <= c <= 'Z')
    && (exists c :: c in piece && !('0' <= c <= '9'))
  }

  lemma LabelExactly(piece: string)
    ensures ValidLabel(piece) <==> HostLabel(piece)
  {
    if ValidLabel(piece) {
      var i :| 0 <= i < |piece| && !IsDigit(piece[i]);
      assert piece[i] in piece && !('0' <= piece[i] <= '9');
    }
    if HostLabel(piece) {
      var c :| c in piece && !('0' <= c <= '9');
      var i :| 0 <= i < |piece| && piece[i] == c;
      assert !IsDigit(piece[i]);
      forall k | 0 <= k < |piece| ensures LabelChar(piece[k]) { assert piece[k] in piece; }
    }
  }

  /** Zones by their parts: two or more host labels of 253 bytes in all. */
  lemma ZoneOfLabels(labels: seq<string>)
    requires labels != [] && forall piece :: piece in labels ==> '.' !in piece
    ensures ValidZone(Join(labels, '.')) <==>
      |labels| >= 2 && ByteLen(Join(labels, '.')) <= 253 && forall piece :: piece in labels ==> HostLabel(piece)
  {
    SplitJoin(labels, '.');
    forall piece ensures ValidLabel(piece) <==> HostLabel(piece) { LabelExactly(piece); }
    if |labels| == 1 {
      assert Join(labels, '.') == labels[0] && labels[0] in labels;
    } else {
      assert Join(labels, '.')[|labels[0]|] == '.';
    }
  }

  // ------------------------------------------------- splitting into strings

  /** Consecutive groups of tokens, one string a group; every string but the
      last carries the space that follows it. */
  function Chunks(groups: seq<seq<string>>): seq<string>
  {
    if groups == [] then []
    else if |groups| == 1 then [Join(groups[0], ' ')]
    else [Join(groups[0], ' ') + " "] + Chunks(groups[1..])
  }

  predicate NoEmptyGroup(groups: seq<seq<string>>)
  {
    forall g :: g in groups ==> g != []
  }

  lemma {:induction false} FlattenNonEmpty(groups: seq<seq<string>>)
    requires groups != [] && NoEmptyGroup(groups)
    ensures Flatten(groups) != []
  {
    assert groups[0] in groups;
  }

  /** Strings of a record read one after the other are the record. */
  lemma {:induction false} ChunksConcat(groups: seq<seq<string>>)
    requires groups != [] && NoEmptyGroup(groups)
    ensures Flatten(Chunks(groups)) == Join(Flatten(groups), ' ')
  {
    var g, rest := groups[0], groups[1..];
    TailMembers(groups);
    if rest == [] {
      assert Flatten(groups) == g;
    } else {
      ChunksConcat(rest);
      FlattenNonEmpty(rest);
      JoinAppend(g, Flatten(rest), ' ');
      assert Flatten(Chunks(groups)) == Join(g, ' ') + " " + Flatten(Chunks(rest));
    }
  }

  /** Joining with spaces costs one byte a space. */
  lemma JoinSnocLen(toks: seq<string>, t: string)
    requires toks != []
    ensures ByteLen(Join(toks + [t], ' ')) == ByteLen(Join(toks, ' ')) + 1 + ByteLen(t)
  {
    JoinSnoc(toks, t);
    ByteLenConcat(Join(toks, ' ') + " ", t);
    ByteLenConcat(Join(toks, ' '), " ");
  }

  /** A group of several tokens leaves room for the trailing space. */
  predicate Roomy(g: seq<string>)
  {
    |g| >= 2 ==> ByteLen(Join(g, ' ')) < TXT_STRING_MAX
  }

  predicate AllRoomy(groups: seq<seq<string>>)
  {
    forall g :: g in groups ==> Roomy(g)
  }

  /** After `g` the token `t` and a trailing space would not fit. */
  predicate Tight(g: seq<string>, t: string)
  {
    ByteLen(Join(g, ' ')) + 1 + ByteLen(t) + 1 > TXT_STRING_MAX
  }

  predicate TightAt(groups: seq<seq<string>>, k: int)
  {
    0 < k < |groups| ==> groups[k] != [] && Tight(groups[k - 1], groups[k][0])
  }

  /** A group ends only where the next token would not fit. */
  predicate AllTight(groups: seq<seq<string>>)
  {
    forall k :: 0 <= k < |groups| ==> TightAt(groups, k)
  }

  /** One string fits, or every group of several tokens is roomy. */
  predicate Fits(groups: seq<seq<string>>)
  {
    (|groups| == 1 && ByteLen(Join(groups[0], ' ')) <= TXT_STRING_MAX) || AllRoomy(groups)
  }

  lemma SplitToTxt(urls: Urls, r: DnsRecord)
    requires WellFormed(urls, r)
    ensures Split(ToTxt(r), ' ') == Tokens(r)
  {
    ToTxtJoinsTokens(r);
    TokensAreTokens(urls, r);
    forall t | t in Tokens(r) ensures ' ' !in t { assert IsToken(t); }
    SplitJoin(Tokens(r), ' ');
  }

  /** Each string is its group joined. */
  predicate AreJoined(out: seq<string>, groups: seq<seq<string>>)
  {
    |out| == |groups| && forall k :: 0 <= k < |out| ==> out[k] == Join(groups[k], ' ')
  }

  /** Finished groups and the one being filled hold the tokens done. */
  predicate Filling(done: seq<string>, groups: seq<seq<string>>, group: seq<string>)
  {
    && Flatten(groups) + group == done
    && NoEmptyGroup(groups) && AllRoomy(groups) && AllTight(groups) && Roomy(group)
    && (groups != [] ==> group != [] && Tight(groups[|groups| - 1], group[0]))
  }

  lemma CloseGroup(done: seq<string>, groups: seq<seq<string>>, group: seq<string>)
    requires Filling(done, groups, group) && group != []
    ensures var all := groups + [group];
            NoEmptyGroup(all) && AllRoomy(all) && AllTight(all) && Flatten(all) == done
  {
    FlattenSnoc(groups, group);
    var all := groups + [group];
    forall k | 0 <= k < |all| ensures TightAt(all, k) {
      assert k < |groups| ==> TightAt(groups, k);
    }
  }

  /** A new group is begun by a token the last one had no room for. */
  lemma NextGroup(done: seq<string>, groups: seq<seq<string>>, group: seq<string>, tok: string)
    requires Filling(done, groups, group) && group != [] && Tight(group, tok)
    ensures Filling(done + [tok], groups + [group], [tok])
  {
    CloseGroup(done, groups, group);
  }

  lemma FillGroup(done: seq<string>, groups: seq<seq<string>>, group: seq<string>, tok: string)
    requires Filling(done, groups, group) && group != [] && !Tight(group, tok)
    ensures Filling(done + [tok], groups, group + [tok])
    ensures Join(group + [tok], ' ') == Join(group, ' ') + " " + tok
  {
    JoinSnoc(group, tok);
    JoinSnocLen(group, tok);
    assert Flatten(groups) + (group + [tok]) == Flatten(groups) + group + [tok];
  }

  /** The groups after some tokens, the last one not yet closed. */
  function Grouped(toks: seq<string>): (seq<seq<string>>, seq<string>)
  {
    if toks == [] then ([], [])
    else
      var (groups, group) := Grouped(toks[..|toks| - 1]);
      var tok := toks[|toks| - 1];
      if group != [] && Tight(group, tok) then (groups + [group], [tok]) else (groups, group + [tok])
  }

  lemma GroupedStep(front: seq<string>, groups: seq<seq<string>>, group: seq<string>, tok: string)
    requires Filling(front, groups, group) && (group == [] <==> front == []) && (front == [] ==> groups == [])
    ensures if group != [] && Tight(group, tok) then Filling(front + [tok], groups + [group], [tok])
            else Filling(front + [tok], groups, group + [tok])
  {
    if front == [] {
      assert front + [tok] == [tok] && group + [tok] == [tok];
    } else if Tight(group, tok) {
      NextGroup(front, groups, group, tok);
    } else {
      FillGroup(front, groups, group, tok);
    }
  }

  lemma {:induction false} GroupedFills(toks: seq<string>)
    ensures Filling(toks, Grouped(toks).0, Grouped(toks).1)
    ensures (Grouped(toks).1 == [] <==> toks == []) && (toks == [] ==> Grouped(toks).0 == [])
  {
    if toks != [] {
      var front, tok := toks[..|toks| - 1], toks[|toks| - 1];
      GroupedFills(front);
      GroupedStep(front, Grouped(front).0, Grouped(front).1, tok);
      assert toks == front + [tok];
    }
  }

  /** The group and its text, one token further. */
  lemma GroupedNext(toks: seq<string>, k: nat)
    requires k < |toks|
    ensures var (groups, group) := Grouped(toks[..k]);
            var next := if k > 0 && Tight(group, toks[k]) then (groups + [group], [toks[k]])
                        else (groups, group + [toks[k]]);
            && Grouped(toks[..k + 1]) == next
            && Join(next.1, ' ') == (if |next.1| == 1 then toks[k] else Join(group, ' ') + " " + toks[k])
            && (group == [] <==> k == 0)
  {
    assert toks[..k + 1][..k] == toks[..k];
    GroupedFills(toks[..k]);
    if k > 0 { JoinSnoc(Grouped(toks[..k]).1, toks[k]); }
  }

  /** The loop of `txt_strings`: tokens gathered into groups, a new group
      begun when the next token and a trailing space would not fit. */
  method Gather(toks: seq<string>) returns (out: seq<string>, ghost groups: seq<seq<string>>)
    requires toks != [] && forall t :: t in toks ==> t != ""
    ensures groups != [] && NoEmptyGroup(groups) && AllRoomy(groups) && AllTight(groups) && Flatten(groups) == toks
    ensures AreJoined(out, groups)
  {
    out, groups := [], [];
    var cur := "";
    ghost var group: seq<string> := [];
    for i := 0 to |toks|
      invariant groups == Grouped(toks[..i]).0 && group == Grouped(toks[..i]).1
      invariant cur == Join(group, ' ') && (i == 0 <==> cur == "")
      invariant AreJoined(out, groups)
    {
      var tok := toks[i];
      assert tok in toks;
      GroupedNext(toks, i);
      if cur != "" && ByteLen(cur) + 1 + ByteLen(tok) + 1 > TXT_STRING_MAX {
        out, groups := out + [cur], groups + [group];
        cur, group := "", [];
      }
      if cur != "" { cur := cur + " "; }
      cur, group := cur + tok, group + [tok];
    }
    assert toks[..|toks|] == toks;
    GroupedFills(toks);
    CloseGroup(toks, groups, group);
    out, groups := out + [cur], groups + [group];
  }

  /** The trailing spaces of all strings but the last. */
  method AddSpaces(chunks: seq<string>, ghost groups: seq<seq<string>>) returns (out: seq<string>)
    requires chunks != [] && AreJoined(chunks, groups)
    ensures out == Chunks(groups)
  {
    out := chunks[|chunks| - 1..];
    var i := |chunks| - 1;
    assert groups[i..] == [groups[i]];
    while i > 0
      invariant 0 <= i < |chunks|
      invariant out == Chunks(groups[i..])
    {
      i := i - 1;
      assert groups[i..][1..] == groups[i + 1..];
      out := [chunks[i] + " "] + out;
    }
    assert groups[0..] == groups;
  }

  lemma {:induction false} JoinHoldsToken(g: seq<string>, t: string)
    requires t in g && forall x :: x in g ==> x != ""
    ensures ByteLen(Join(g, ' ')) >= ByteLen(t)
    ensures t != g[|g| - 1] ==> ByteLen(Join(g, ' ')) > ByteLen(t)
  {
    if |g| > 1 {
      var rest := Join(g[1..], ' ');
      TailMembers(g);
      ByteLenConcat(g[0] + " ", rest);
      ByteLenConcat(g[0], " ");
      if t in g[1..] { JoinHoldsToken(g[1..], t); }
    }
  }

  lemma FlattenLast(groups: seq<seq<string>>)
    requires groups != [] && NoEmptyGroup(groups)
    ensures Flatten(groups) != []
    ensures |groups| > 1 ==> Flatten(groups[1..]) != [] && Last(Flatten(groups)) == Last(Flatten(groups[1..]))
    ensures |groups| == 1 ==> Flatten(groups) == groups[0]
  {
    FlattenNonEmpty(groups);
    TailMembers(groups);
    if |groups| > 1 { FlattenNonEmpty(groups[1..]); }
  }

  /** A token that fills a string and is not the last one overflows it. */
  lemma {:induction false} LongTokenOverflows(groups: seq<seq<string>>, t: string)
    requires groups != [] && NoEmptyGroup(groups)
    requires t in Flatten(groups) && forall x :: x in Flatten(groups) ==> x != ""
    requires ByteLen(t) >= TXT_STRING_MAX && t != Last(Flatten(groups))
    ensures exists s :: s in Chunks(groups) && ByteLen(s) > TXT_STRING_MAX
  {
    FlattenLast(groups);
    var g, rest := groups[0], groups[1..];
    assert forall x :: x in g || x in Flatten(rest) ==> x in Flatten(groups) by {
      assert Flatten(groups) == g + Flatten(rest);
    }
    TailMembers(groups);
    if t in g {
      JoinHoldsToken(g, t);
      ByteLenConcat(Join(g, ' '), " ");
      assert Chunks(groups)[0] in Chunks(groups);
    } else {
      LongTokenOverflows(rest, t);
    }
  }

  lemma {:induction false} ShortTokensFit(groups: seq<seq<string>>)
    requires NoEmptyGroup(groups) && Fits(groups)
    requires forall x :: x in Flatten(groups) ==> ByteLen(x) < TXT_STRING_MAX
    ensures forall s :: s in Chunks(groups) ==> ByteLen(s) <= TXT_STRING_MAX
  {
    if groups != [] {
      var g, rest := groups[0], groups[1..];
      TailMembers(groups);
      assert Flatten(groups) == g + Flatten(rest);
      assert |g| == 1 ==> g[0] in Flatten(groups);
      ByteLenConcat(Join(g, ' '), " ");
      assert ByteLen(" ") == 1;
      ShortTokensFit(rest);
    }
  }

  lemma TsIsShort(n: nat)
    requires n <= U64_MAX
    ensures ByteLen(Decimal(n)) <= 20
  {
    assert Pow10(5) == 100000;
    assert Pow10(10) == 100000 * 100000 by { assert Pow10(10) == 100000 * Pow10(5); }
    assert Pow10(15) == 100000 * Pow10(10);
    assert Pow10(20) == 100000 * Pow10(15);
    DecimalLength(n, 20);
    forall i | 0 <= i < |Decimal(n)| ensures Decimal(n)[i] as int < 0x80 { assert IsDigit(Decimal(n)[i]); }
    ByteLenAscii(Decimal(n));
  }

  lemma FieldLen(k: string, v: string)
    requires forall i :: 0 <= i < |k| ==> k[i] as int < 0x80
    ensures ByteLen(Field(k, v)) == |k| + 1 + ByteLen(v)
  {
    ByteLenConcat(k + "=", v);
    ByteLenConcat(k, "=");
    ByteLenAscii(k);
  }

  lemma SigIsAscii(sig: Signature)
    ensures ByteLen(HexEncode(sig)) == 128
  {
    var s := HexEncode(sig);
    forall i | 0 <= i < |s| ensures s[i] as int < 0x80 { assert IsLowerHex(s[i]); }
    ByteLenAscii(s);
  }

  lemma FixedTokenLengths(r: DnsRecord)
    requires r.ts <= U64_MAX
    ensures ByteLen(VersionField()) == 7 && ByteLen(KeyField(r)) == 66
    ensures ByteLen(TsField(r)) <= 23 && ByteLen(SigField(r)) == 132
  {
    FieldLen("v", "ocid1");
    ByteLenAscii("ocid1");
    FieldLen("k", r.key);
    HexHasNone(r.key);
    FieldLen("ts", Decimal(r.ts));
    TsIsShort(r.ts);
    FieldLen("sig", HexEncode(r.sig));
    SigIsAscii(r.sig);
  }

  lemma HintTokenLengths(r: DnsRecord)
    ensures r.relay.Some? ==> ByteLen(RelayField(r)) == 6 + ByteLen(r.relay.value)
    ensures r.seed.Some? ==> ByteLen(SeedField(r)) == 69
  {
    if r.seed.Some? {
      FieldLen("seed", r.seed.value);
      HexHasNone(r.seed.value);
    }
    if r.relay.Some? { FieldLen("relay", r.relay.value); }
  }

  /** Of a record's tokens only the relay can be long. */
  lemma TokenLengths(r: DnsRecord, t: string)
    requires r.ts <= U64_MAX && t in Tokens(r)
    ensures if r.relay.Some? && t == RelayField(r) then ByteLen(t) == 6 + ByteLen(r.relay.value)
            else ByteLen(t) < TXT_STRING_MAX
  {
    OwnTokenCases(r, t);
    FixedTokenLengths(r);
    HintTokenLengths(r);
  }

  /** All strings keep to the limit if and only if the relay leaves room for
      its trailing space; the accepted 249-byte relay does not. */
  lemma StringsFitExactlyWhen(urls: Urls, r: DnsRecord, groups: seq<seq<string>>)
    requires WellFormed(urls, r)
    requires groups != [] && NoEmptyGroup(groups) && Flatten(groups) == Tokens(r) && Fits(groups)
    ensures (forall s :: s in Chunks(groups) ==> ByteLen(s) <= TXT_STRING_MAX)
            <==> (r.relay.Some? ==> ByteLen(r.relay.value) <= 248)
  {
    TokensAreTokens(urls, r);
    forall x | x in Flatten(groups) ensures x != "" { assert IsToken(x); }
    if r.relay.Some? && ByteLen(r.relay.value) > 248 {
      OwnTokensOccur(r);
      TokenLengths(r, RelayField(r));
      OwnFieldsDiffer(r);
      LongTokenOverflows(groups, RelayField(r));
    } else {
      forall x | x in Flatten(groups) ensures ByteLen(x) < TXT_STRING_MAX { TokenLengths(r, x); }
      ShortTokensFit(groups);
    }
  }

  /** `txt_strings`. The groups say that no token is cut. */
  method TxtStrings(urls: Urls, r: DnsRecord) returns (out: seq<string>, ghost groups: seq<seq<string>>)
    requires WellFormed(urls, r)
    ensures groups != [] && NoEmptyGroup(groups) && Flatten(groups) == Tokens(r) && Fits(groups)
    ensures AllTight(groups) && (|groups| == 1 <==> ByteLen(ToTxt(r)) <= TXT_STRING_MAX)
    ensures out == Chunks(groups)
    ensures out != [] && Flatten(out) == ToTxt(r)
    ensures (forall s :: s in out ==> ByteLen(s) <= TXT_STRING_MAX)
            <==> (r.relay.Some? ==> ByteLen(r.relay.value) <= 248)
  {
    var txt := ToTxt(r);
    ToTxtJoinsTokens(r);
    if ByteLen(txt) <= TXT_STRING_MAX {
      out, groups := [txt], [Tokens(r)];
      assert groups[1..] == [];
    } else {
      SplitToTxt(urls, r);
      TokensAreTokens(urls, r);
      var toks := Split(txt, ' ');
      forall t | t in toks ensures t != "" { assert IsToken(t); }
      out, groups := Gather(toks);
      if |groups| == 1 { assert Flatten(groups) == groups[0] && Roomy(groups[0]); }
      out := AddSpaces(out, groups);
    }
    ChunksConcat(groups);
    StringsFitExactlyWhen(urls, r, groups);
  }

  // --------------------------------------------------- how long strings get

  /** A relay of 249 bytes. */
  const LONG_RELAY := "https://a/" + seq(239, _ => 'a')

  /** A URL library that takes it makes it a valid relay, and a record with it
      does not fit however its tokens are grouped. */
  lemma LongRelayDoesNotFit(urls: Urls, r: DnsRecord, groups: seq<seq<string>>)
    requires urls.accepts(LONG_RELAY) && urls.scheme(LONG_RELAY) == "https"
    requires r.ts <= U64_MAX && r.relay == Some(LONG_RELAY)
    requires groups != [] && NoEmptyGroup(groups) && Flatten(groups) == Tokens(r) && Fits(groups)
    ensures WellFormed(urls, r)
    ensures exists s :: s in Chunks(groups) && ByteLen(s) > TXT_STRING_MAX
  {
    ByteLenAscii(LONG_RELAY);
    StringsFitExactlyWhen(urls, r, groups);
  }

  // ----------------------------------------------------------- signed bytes

  /** `canonical_payload`: fixed order, hints last. */
  function CanonicalPayload(zone: string, key: PublisherId, ts: nat, relay: Option<string>,
                            seed: Option<PublisherId>): string
  {
    var s := "ocid1" + " " + zone + " " + key + " " + Decimal(ts);
    var s := if relay.Some? then s + " " + relay.value else s;
    if seed.Some? then s + " " + seed.value else s
  }

  /** The signed text. */
  lemma PayloadText(zone: string, key: PublisherId, ts: nat, relay: Option<string>, seed: Option<PublisherId>)
    ensures CanonicalPayload(zone, key, ts, relay, seed)
         == "ocid1 " + zone + " " + key + " " + Decimal(ts)
          + (if relay.Some? then " " + relay.value else "") + (if seed.Some? then " " + seed.value else "")
  {
    assert "ocid1" + " " + zone == "ocid1 " + zone;
    var core := "ocid1 " + zone + " " + key + " " + Decimal(ts);
    var hint := if relay.Some? then " " + relay.value else "";
    if relay.Some? { assert core + " " + relay.value == core + hint; }
    if seed.Some? { assert core + hint + " " + seed.value == core + hint + (" " + seed.value); }
  }

  function PayloadTokens(zone: string, key: PublisherId, ts: nat, relay: Option<string>,
                         seed: Option<PublisherId>): seq<string>
  {
    var t := ["ocid1", zone, key, Decimal(ts)];
    var t := if relay.Some? then t + [relay.value] else t;
    if seed.Some? then t + [seed.value] else t
  }

  lemma PayloadJoinsTokens(zone: string, key: PublisherId, ts: nat, relay: Option<string>, seed: Option<PublisherId>)
    ensures CanonicalPayload(zone, key, ts, relay, seed) == Join(PayloadTokens(zone, key, ts, relay, seed), ' ')
  {
    var t1 := ["ocid1"];
    JoinSnoc(t1, zone);
    var t2 := t1 + [zone];
    JoinSnoc(t2, key);
    var t3 := t2 + [key];
    JoinSnoc(t3, Decimal(ts));
    var t4 := t3 + [Decimal(ts)];
    assert t4 == ["ocid1", zone, key, Decimal(ts)];
    if relay.Some? { JoinSnoc(t4, relay.value); }
    var t5 := if relay.Some? then t4 + [relay.value] else t4;
    if seed.Some? { JoinSnoc(t5, seed.value); }
  }

  lemma ZoneChars(zone: string)
    requires ValidZone(zone)
    ensures forall i :: 0 <= i < |zone| ==> LabelChar(zone[i]) || zone[i] == '.'
  {
    forall i | 0 <= i < |zone| ensures LabelChar(zone[i]) || zone[i] == '.' {
      SplitCovers(zone, '.', i);
      if zone[i] != '.' {
        var piece :| piece in Split(zone, '.') && zone[i] in piece;
        assert ValidLabel(piece);
      }
    }
  }

  lemma ZoneHasLetter(zone: string)
    requires ValidZone(zone)
    ensures exists k :: 0 <= k < |zone| && zone[k] != '.' && !IsDigit(zone[k])
  {
    var i := Find(zone, '.');
    var piece := zone[..i];
    assert piece == Split(zone, '.')[0] && piece in Split(zone, '.');
    assert ValidLabel(piece);
    var k :| 0 <= k < |piece| && !IsDigit(piece[k]);
    assert zone[k] == piece[k];
  }

  lemma ZoneIsToken(zone: string)
    requires ValidZone(zone)
    ensures IsToken(zone)
  {
    ZoneChars(zone);
  }

  lemma PayloadTokensAreTokens(urls: Urls, zone: string, key: PublisherId, ts: nat, relay: Option<string>,
                               seed: Option<PublisherId>)
    requires ValidZone(zone) && (relay.Some? ==> ValidRelay(urls, relay.value) && SchemeNeedsColon(urls, relay.value))
    ensures forall t :: t in PayloadTokens(zone, key, ts, relay, seed) ==> IsToken(t)
  {
    ZoneIsToken(zone);
    HexHasNone(key);
    if seed.Some? { HexHasNone(seed.value); }
    assert IsToken("ocid1");
  }

  /** The signed bytes determine the zone, the key, the timestamp and both
      hints: no hint can be dropped, swapped or moved unnoticed. */
  lemma PayloadInjective(urls: Urls,
      zone: string, key: PublisherId, ts: nat, relay: Option<string>, seed: Option<PublisherId>,
      zone': string, key': PublisherId, ts': nat, relay': Option<string>, seed': Option<PublisherId>)
    requires ValidZone(zone) && ValidZone(zone')
    requires relay.Some? ==> ValidRelay(urls, relay.value) && SchemeNeedsColon(urls, relay.value)
    requires relay'.Some? ==> ValidRelay(urls, relay'.value) && SchemeNeedsColon(urls, relay'.value)
    requires CanonicalPayload(zone, key, ts, relay, seed) == CanonicalPayload(zone', key', ts', relay', seed')
    ensures zone == zone' && key == key' && ts == ts' && relay == relay' && seed == seed'
  {
    var t := PayloadTokens(zone, key, ts, relay, seed);
    var t' := PayloadTokens(zone', key', ts', relay', seed');
    PayloadJoinsTokens(zone, key, ts, relay, seed);
    PayloadJoinsTokens(zone', key', ts', relay', seed');
    PayloadTokensAreTokens(urls, zone, key, ts, relay, seed);
    PayloadTokensAreTokens(urls, zone', key', ts', relay', seed');
    SplitWhitespaceJoin(t);
    SplitWhitespaceJoin(t');
    assert t == t';
    assert t[1] == t'[1] && t[2] == t'[2] && t[3] == t'[3];
    DecimalInjective(ts, ts');
    if seed.Some? { HexHasNone(seed.value); }
    if seed'.Some? { HexHasNone(seed'.value); }
    assert |t| >= 5 ==> t[4] == t'[4];
    assert |t| >= 6 ==> t[5] == t'[5];
  }
}
