/** Image references: printing, and parsing under a policy
    (crates/ocid-core/src/oci.rs, `ImageRef`). */
module ImageRefs {
  import opened Text
  import opened Identity
  import opened Names
  import opened Policies
  import DnsRecords

  datatype ImageRef = ImageRef(publisher: PublisherId, name: string, tag: Option<string>)

  predicate ValidRef(r: ImageRef) { ValidName(r.name) && ValidTagOption(r.tag) }

  /** `Display`. */
  function Display(r: ImageRef): string
  {
    r.publisher + "/" + NameAndTag(r.name, r.tag)
  }

  /** A first segment that is a pasted registry location. */
  predicate IsLocation(first: string)
  {
    || ':' in first
    || first == "localhost"
    || ((forall i :: 0 <= i < |first| ==> IsDigit(first[i]) || first[i] == '.') && '.' in first)
  }

  function StripScheme(s: string): string
  {
    match StripPrefix(s, "https://")
    case Some(rest) => rest
    case None => match StripPrefix(s, "http://") { case Some(rest) => rest case None => s }
  }

  /** `strip_registry_location`. */
  function StripRegistryLocation(s: string): string
  {
    var s := StripScheme(Trim(s));
    match SplitOnce(s, '/')
    case None => s
    case Some((first, rest)) => if rest == "" then s else if IsLocation(first) then rest else s
  }

  datatype AliasTarget = PublisherAlias(publisher: PublisherId) | ImageAlias(publisher: PublisherId, name: string)

  function ParseAliasTarget(forms: KeyForms, target: string): Option<AliasTarget>
  {
    match ParsePublisher(forms, target)
    case Some(p) => Some(PublisherAlias(p))
    case None =>
      match SplitOnce(target, '/')
      case None => None
      case Some((pubs, name)) =>
        match ParsePublisher(forms, pubs)
        case None => None
        case Some(p) => if ValidName(name) then Some(ImageAlias(p, name)) else None
  }

  function ResolveAlias(forms: KeyForms, p: Policy, alias: string): Option<AliasTarget>
  {
    if alias in p.alias then ParseAliasTarget(forms, p.alias[alias]) else None
  }

  /** `resolve_repo`: explicit key, recorded domain, image alias, publisher
      alias, own image, in that order. */
  function ResolveRepo(forms: KeyForms, repo: string, p: Policy, self: PublisherId)
    : Result<(PublisherId, string), Error>
  {
    var repo := TrimEndChar(TrimStartChar(repo, '/'), '/');
    if repo == "" then Err(EmptyRepository)
    else
      var cut := SplitOnce(repo, '/');
      var first := if cut.Some? then cut.value.0 else repo;
      if IsHexPublisher(first) then
        if cut.None? then Err(MissingName)
        else if !ValidName(cut.value.1) then Err(InvalidName)
        else match ParsePublisher(forms, first)
          case Some(id) => Ok((id, cut.value.1))
          case None => Err(InvalidPublisher)
      else if cut.Some? && ParsePublisherArg(forms, p, first).Ok? then
        if ValidName(cut.value.1) then Ok((ParsePublisherArg(forms, p, first).value, cut.value.1))
        else Err(InvalidName)
      else match ResolveAlias(forms, p, repo)
        case Some(ImageAlias(id, name)) => Ok((id, name))
        case _ =>
          match ResolveAlias(forms, p, first)
          case Some(PublisherAlias(id)) =>
            if cut.None? then Err(MissingName)
            else if ValidName(cut.value.1) then Ok((id, cut.value.1)) else Err(InvalidName)
          case _ => if ValidName(repo) then Ok((self, repo)) else Err(InvalidName)
  }

  /** `ImageRef::parse_explicit`. */
  function ParseExplicit(forms: KeyForms, s: string): Result<ImageRef, Error>
  {
    match SplitOnce(TrimEndChar(Trim(s), '/'), '/')
    case None => Err(NoSlash)
    case Some((pubs, rest)) =>
      match ParsePublisher(forms, pubs)
      case None => Err(InvalidPublisher)
      case Some(id) =>
        match SplitTag(rest)
        case Err(e) => Err(e)
        case Ok((name, tag)) => Ok(ImageRef(id, name, tag))
  }

  /** `ImageRef::parse`. */
  function Parse(forms: KeyForms, s: string, p: Policy, self: PublisherId): Result<ImageRef, Error>
  {
    var s := Trim(s);
    if StripPrefix(s, "did:key:").Some? then ParseExplicit(forms, s)
    else
      match SplitTag(StripRegistryLocation(s))
      case Err(e) => Err(e)
      case Ok((repo, tag)) =>
        match ResolveRepo(forms, repo, p, self)
        case Err(e) => Err(e)
        case Ok((id, name)) => Ok(ImageRef(id, name, tag))
  }

  // --------------------------------------------------------------- round trips

  lemma DisplayEnds(r: ImageRef)
    requires ValidRef(r)
    ensures var s := Display(r);
            s != [] && IsLowerHex(s[0]) && !IsWhitespace(s[0]) && !IsWhitespace(s[|s| - 1]) && s[|s| - 1] != '/'
  {
    HexHasNone(r.publisher);
    assert IsLowerHex(r.publisher[0]);
    NameIsAscii(r.name);
    NameChars(r.name);
    if r.tag.Some? { TagHasNone(r.tag.value); }
  }

  /** `parse_explicit` undoes printing, for names of any valid length. */
  lemma ParseExplicitUndoesDisplay(forms: KeyForms, r: ImageRef)
    requires ValidRef(r)
    ensures ParseExplicit(forms, Display(r)) == Ok(r)
  {
    DisplayEnds(r);
    HexHasNone(r.publisher);
    SplitOnceAt(r.publisher, '/', NameAndTag(r.name, r.tag));
    ParseHexPublisher(forms, r.publisher);
    NameIsAscii(r.name);
    SplitTagJoined(r.name, r.tag);
  }

  /** `<hex>/<name>` is itself a valid name exactly up to 190 bytes of name. */
  lemma PrefixedNameValidExactlyWhen(p: PublisherId, name: string)
    requires ValidName(name)
    ensures ValidName(p + "/" + name) <==> |name| <= 190
    ensures ':' !in p + "/" + name
  {
    var full := p + "/" + name;
    HexHasNone(p);
    NameIsAscii(name);
    ByteLenConcat(p + "/", name);
    ByteLenConcat(p, "/");
    SplitOnceAt(p, '/', name);
    assert Find(full, '/') == |p| by { assert full[|p|] == '/' && forall k :: 0 <= k < |p| ==> full[k] == p[k]; }
    assert full[..|p|] == p && full[|p| + 1..] == name;
    assert Split(full, '/') == [p] + Split(name, '/');
    assert ValidComponent(p) by {
      forall i | 0 <= i < |p| ensures NameChar(p[i]) { assert IsLowerHex(p[i]); }
      assert IsLowerHex(p[0]);
    }
  }

  lemma TrimCharsIdentity(s: string, c: char)
    requires s != [] && s[0] != c && s[|s| - 1] != c
    ensures TrimEndChar(TrimStartChar(s, c), c) == s
  {
  }

  lemma ResolveHexRepo(forms: KeyForms, p: Policy, self: PublisherId, id: PublisherId, name: string)
    requires ValidName(name)
    ensures ResolveRepo(forms, id + "/" + name, p, self) == Ok((id, name))
  {
    HexHasNone(id);
    NameChars(name);
    TrimCharsIdentity(id + "/" + name, '/');
    SplitOnceAt(id, '/', name);
    ParseHexPublisher(forms, id);
  }

  /** The part of `parse` after the registry location is gone. */
  lemma ParseStripped(forms: KeyForms, r: ImageRef, p: Policy, self: PublisherId, s: string)
    requires ValidRef(r) && Trim(s) == s && StripPrefix(s, "did:key:").None?
    requires StripRegistryLocation(s) == Display(r)
    ensures Parse(forms, s, p, self) == if |r.name| <= 190 then Ok(r) else Err(InvalidName)
  {
    var full := r.publisher + "/" + r.name;
    PrefixedNameValidExactlyWhen(r.publisher, r.name);
    assert Display(r) == NameAndTag(full, r.tag) by {
      if r.tag.Some? { assert Display(r) == full + ":" + r.tag.value; }
    }
    SplitTagJoined(full, r.tag);
    ResolveHexRepo(forms, p, self, r.publisher, r.name);
  }

  lemma HexIsNoLocation(id: PublisherId)
    ensures !IsLocation(id)
  {
    HexHasNone(id);
    assert |id| == 64;
  }

  lemma DisplayHasNoScheme(r: ImageRef)
    ensures StripScheme(Display(r)) == Display(r)
  {
    var s := Display(r);
    assert s[0] == r.publisher[0] && IsLowerHex(r.publisher[0]);
    PrefixChars(s, "https://");
    PrefixChars(s, "http://");
  }

  /** Printing a valid reference and parsing it gives it back, under every
      policy and own id, if and only if its name has at most 190 bytes; longer
      valid names are refused. */
  lemma ParseUndoesDisplayExactlyWhen(forms: KeyForms, r: ImageRef, p: Policy, self: PublisherId)
    requires ValidRef(r)
    ensures Parse(forms, Display(r), p, self) == Ok(r) <==> |r.name| <= 190
    ensures |r.name| > 190 ==> Parse(forms, Display(r), p, self) == Err(InvalidName)
  {
    var s := Display(r);
    DisplayEnds(r);
    TrimIsIdentity(s);
    HexIsNotDid(r.publisher, "/" + NameAndTag(r.name, r.tag));
    assert s == r.publisher + ("/" + NameAndTag(r.name, r.tag));
    DisplayHasNoScheme(r);
    HexHasNone(r.publisher);
    SplitOnceAt(r.publisher, '/', NameAndTag(r.name, r.tag));
    HexIsNoLocation(r.publisher);
    ParseStripped(forms, r, p, self, s);
  }

  /** A pasted registry location, with or without a scheme. */
  predicate IsPasted(scheme: string, location: string)
  {
    && (scheme == "" || scheme == "https://" || scheme == "http://")
    && IsLocation(location) && '/' !in location && NoWhitespace(location)
    && StripPrefix(location, "did:key:").None?
  }

  lemma SchemeGoes(scheme: string, rest: string)
    requires scheme == "https://" || scheme == "http://"
    ensures StripScheme(scheme + rest) == rest
  {
    var s := scheme + rest;
    if scheme == "https://" {
      assert s[..8] == scheme && s[8..] == rest;
    } else {
      assert s[..7] == scheme && s[7..] == rest;
      assert s[4] == ':';
      PrefixChars(s, "https://");
    }
  }

  /** Text whose first '/' is followed by something else has no scheme. */
  lemma NoScheme(s: string, slash: nat)
    requires slash + 1 < |s| && s[slash] == '/' && s[slash + 1] != '/'
    requires forall k :: 0 <= k < slash ==> s[k] != '/'
    ensures StripScheme(s) == s
  {
    PrefixChars(s, "https://");
    PrefixChars(s, "http://");
    assert "https://"[6] == '/' && "https://"[7] == '/' && forall k :: 0 <= k < 6 ==> "https://"[k] != '/';
    assert "http://"[5] == '/' && "http://"[6] == '/' && forall k :: 0 <= k < 5 ==> "http://"[k] != '/';
  }

  lemma StripPastedScheme(scheme: string, location: string, r: ImageRef)
    requires IsPasted(scheme, location)
    ensures StripScheme(scheme + location + "/" + Display(r)) == location + "/" + Display(r)
  {
    var rest := location + "/" + Display(r);
    assert scheme + location + "/" + Display(r) == scheme + rest;
    if scheme == "" {
      assert IsLowerHex(r.publisher[0]) && rest[|location| + 1] == r.publisher[0] && rest[|location|] == '/';
      assert scheme + rest == rest;
      NoScheme(rest, |location|);
    } else {
      SchemeGoes(scheme, rest);
    }
  }

  lemma PastedIsNotDid(scheme: string, location: string, rest: string)
    requires IsPasted(scheme, location)
    ensures StripPrefix(scheme + location + "/" + rest, "did:key:").None?
  {
    var s := scheme + location + "/" + rest;
    PrefixChars(s, "did:key:");
    assert scheme != "" ==> s[0] == 'h';
    if scheme == "" {
      assert s[|location|] == '/' && forall k :: 0 <= k < 8 ==> "did:key:"[k] != '/';
      if |location| >= 8 { assert s[..8] == location[..8]; }
    }
  }

  /** The same round trip with a registry location pasted in front. */
  lemma ParseUndoesPastedDisplay(forms: KeyForms, r: ImageRef, p: Policy, self: PublisherId,
                                 scheme: string, location: string)
    requires ValidRef(r) && IsPasted(scheme, location)
    ensures Parse(forms, scheme + location + "/" + Display(r), p, self) == Ok(r) <==> |r.name| <= 190
  {
    var s := scheme + location + "/" + Display(r);
    DisplayEnds(r);
    assert location != [];
    assert !IsWhitespace(s[0]) by { if scheme == "" { assert s[0] == location[0]; } }
    assert s[|s| - 1] == Display(r)[|Display(r)| - 1];
    TrimIsIdentity(s);
    StripPastedScheme(scheme, location, r);
    SplitOnceAt(location, '/', Display(r));
    PastedIsNotDid(scheme, location, Display(r));
    ParseStripped(forms, r, p, self, s);
  }

  // ------------------------------------------------------ resolving, in order

  /** A repository path of a first segment and, perhaps, a rest. */
  function Path(first: string, rest: Option<string>): string
  {
    match rest
    case Some(r) => first + "/" + r
    case None => first
  }

  predicate IsPath(first: string, rest: Option<string>)
  {
    && first != "" && '/' !in first
    && (rest.Some? ==> rest.value != "" && rest.value[|rest.value| - 1] != '/')
  }

  /** What follows a publisher must be a name. */
  function OfPublisher(id: PublisherId, rest: Option<string>): Result<(PublisherId, string), Error>
  {
    match rest
    case None => Err(MissingName)
    case Some(name) => if ValidName(name) then Ok((id, name)) else Err(InvalidName)
  }

  lemma PathIsCut(first: string, rest: Option<string>)
    requires IsPath(first, rest)
    ensures var repo := Path(first, rest);
            && repo != "" && repo[0] != '/' && repo[|repo| - 1] != '/'
            && TrimEndChar(TrimStartChar(repo, '/'), '/') == repo
            && SplitOnce(repo, '/') == (if rest.Some? then Some((first, rest.value)) else None)
  {
    if rest.Some? { SplitOnceAt(first, '/', rest.value); }
    TrimCharsIdentity(Path(first, rest), '/');
  }

  /** Slashes around a path make no difference. */
  lemma SlashesAround(forms: KeyForms, p: Policy, self: PublisherId, a: nat, repo: string, b: nat)
    requires repo == "" || (repo[0] != '/' && repo[|repo| - 1] != '/')
    ensures ResolveRepo(forms, seq(a, _ => '/') + repo + seq(b, _ => '/'), p, self) == ResolveRepo(forms, repo, p, self)
  {
    TrimCharsExactly(a, repo, b, '/');
  }

  /** A key, or a domain with a recorded key, names the publisher of the rest. */
  lemma PublisherFirst(forms: KeyForms, p: Policy, self: PublisherId, first: string, rest: string, id: PublisherId)
    requires IsPath(first, Some(rest)) && ParsePublisherArg(forms, p, first) == Ok(id)
    ensures ResolveRepo(forms, first + "/" + rest, p, self)
         == if ValidName(rest) then Ok((id, rest)) else Err(InvalidName)
  {
    PathIsCut(first, Some(rest));
  }

  /** A key alone names no image. */
  lemma KeyAlone(forms: KeyForms, p: Policy, self: PublisherId, id: PublisherId)
    ensures ResolveRepo(forms, id, p, self) == Err(MissingName)
  {
    HexHasNone(id);
    PathIsCut(id, None);
  }

  /** Where no publisher is written, an alias of an image goes before an alias
      of a publisher, and that before our own image of the name. */
  lemma AliasesBeforeOwn(forms: KeyForms, p: Policy, self: PublisherId, first: string, rest: Option<string>)
    requires IsPath(first, rest) && !IsHexPublisher(first)
    requires rest.Some? ==> ParsePublisherArg(forms, p, first).Err?
    ensures var repo := Path(first, rest);
            var whole, head := ResolveAlias(forms, p, repo), ResolveAlias(forms, p, first);
            && (forall id, name :: whole == Some(ImageAlias(id, name)) ==>
                  ResolveRepo(forms, repo, p, self) == Ok((id, name)))
            && (forall id :: (whole == None || whole.value.PublisherAlias?) && head == Some(PublisherAlias(id)) ==>
                  ResolveRepo(forms, repo, p, self) == OfPublisher(id, rest))
            && ((whole == None || whole.value.PublisherAlias?) && (head == None || head.value.ImageAlias?) ==>
                  ResolveRepo(forms, repo, p, self) == if ValidName(repo) then Ok((self, repo)) else Err(InvalidName))
  {
    PathIsCut(first, rest);
  }

  /** What a recorded alias means: a key the publisher, `<key>/<name>` the
      image; other text has no meaning. */
  lemma AliasMeans(forms: KeyForms, p: Policy, alias: string, id: PublisherId, name: string)
    ensures alias !in p.alias ==> ResolveAlias(forms, p, alias) == None
    ensures alias in p.alias && p.alias[alias] == id ==> ResolveAlias(forms, p, alias) == Some(PublisherAlias(id))
    ensures alias in p.alias && p.alias[alias] == id + "/" + name && forms.other(id + "/" + name) == None
              && Trim(id + "/" + name) == id + "/" + name ==>
            ResolveAlias(forms, p, alias) == if ValidName(name) then Some(ImageAlias(id, name)) else None
  {
    ParseHexPublisher(forms, id);
    HexHasNone(id);
    HexIsNotDid(id, "/" + name);
    assert id + "/" + name == id + ("/" + name);
    SplitOnceAt(id, '/', name);
  }

  // ------------------------------------------------------- what stripping hides

  /** A domain is no pasted location. */
  lemma ZoneIsNoLocation(first: string)
    requires DnsRecords.ValidZone(first)
    ensures !IsLocation(first)
  {
    DnsRecords.ZoneChars(first);
    DnsRecords.ZoneHasLetter(first);
  }

  /** Dropping a location makes a meaning disappear if and only if the first
      segment is a key in some form or an alias of a publisher, with a valid
      name behind it, or the whole is an alias of an image or else a valid name
      of our own, as `localhost/app` is. */
  lemma StrippingHidesExactlyWhen(forms: KeyForms, p: Policy, self: PublisherId, first: string, rest: string)
    requires IsPath(first, Some(rest)) && IsLocation(first)
    ensures var repo := first + "/" + rest;
            var whole, head := ResolveAlias(forms, p, repo), ResolveAlias(forms, p, first);
            ResolveRepo(forms, repo, p, self).Ok? <==>
              if ParsePublisher(forms, first).Some? then ValidName(rest)
              else if whole.Some? && whole.value.ImageAlias? then true
              else if head.Some? && head.value.PublisherAlias? then ValidName(rest)
              else ValidName(repo)
  {
    if DnsRecords.ValidZone(first) { ZoneIsNoLocation(first); }
    if ParsePublisher(forms, first).Some? {
      PublisherFirst(forms, p, self, first, rest, ParsePublisher(forms, first).value);
    } else {
      if IsHexPublisher(first) { ParseHexPublisher(forms, first); }
      AliasesBeforeOwn(forms, p, self, first, Some(rest));
    }
  }

  lemma NameIsNoKey(name: string)
    requires ValidName(name)
    ensures Trim(name) == name && StripPrefix(name, "did:key:").None?
  {
    NameChars(name);
    NameIsAscii(name);
    TrimIsIdentity(name);
    PrefixChars(name, "did:key:");
    assert ':' == "did:key:"[3];
  }

  lemma LocationGoes(first: string, rest: string)
    requires IsLocation(first) && ValidName(first + "/" + rest) && '/' !in first
    ensures StripRegistryLocation(first + "/" + rest) == rest && ValidName(rest)
  {
    var s := first + "/" + rest;
    assert s[|first|] == '/' && s[|first| + 1..] == rest;
    ValidNameExactlyWhen(s);
    StaysBelowFrom(s, |first|);
    ValidNameExactlyWhen(rest);
    NameIsNoKey(s);
    assert Begins(s, |first| + 1);
    NoScheme(s, |first|);
    SplitOnceAt(first, '/', rest);
  }

  /** Our own image with such a name cannot be written alone: the text means
      what is left after its first segment. */
  lemma StrippedMeansRest(forms: KeyForms, p: Policy, self: PublisherId, first: string, rest: string)
    requires IsLocation(first) && ValidName(first + "/" + rest) && '/' !in first
    ensures Parse(forms, first + "/" + rest, p, self)
         == match ResolveRepo(forms, rest, p, self)
            case Err(e) => Err(e)
            case Ok((id, name)) => Ok(ImageRef(id, name, None))
  {
    LocationGoes(first, rest);
    NameIsNoKey(first + "/" + rest);
    NameIsAscii(rest);
    SplitTagExactlyWhen(rest, rest, None);
  }

  /** `localhost/app` is such a name. */
  lemma LocalhostIsHidden(first: string, rest: string)
    requires first == "localhost" && rest == "app"
    ensures IsLocation(first) && '/' !in first && ValidName(first + "/" + rest)
  {
    var s := first + "/" + rest;
    forall k | Begins(s, k) ensures LowerOrDigit(s[k]) { assert k == 0 || k == 10; }
    ValidNameExactlyWhen(s);
  }

  // -------------------------------------------------------- a failing input

  /** A name of 200 letters is valid, and its printed reference does not parse
      back. */
  lemma LongNameDoesNotParse(forms: KeyForms, publisher: PublisherId, p: Policy, self: PublisherId)
    ensures var r := ImageRef(publisher, seq(200, _ => 'a'), None);
            ValidRef(r) && Parse(forms, Display(r), p, self) != Ok(r)
  {
    var name := seq(200, _ => 'a');
    ByteLenAscii(name);
    assert Find(name, '/') == |name|;
    assert Split(name, '/') == [name];
    assert ValidComponent(name);
    ParseUndoesDisplayExactlyWhen(forms, ImageRef(publisher, name, None), p, self);
  }
}
