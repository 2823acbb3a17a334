/** Image names and tags (crates/ocid-core/src/oci.rs). */
module Names {
  import opened Text

  datatype Error =
    | InvalidName | InvalidTag | InvalidPublisher | UnknownDomain
    | NoSlash | EmptyRepository | MissingName

  predicate AlphaNumeric(c: char) { IsDigit(c) || 'a' <= c <= 'z' || 'A' <= c <= 'Z' }

  predicate NameChar(c: char) { IsDigit(c) || 'a' <= c <= 'z' || c == '.' || c == '_' || c == '-' }

  predicate TagChar(c: char) { AlphaNumeric(c) || c == '.' || c == '_' || c == '-' }

  predicate ValidComponent(comp: string)
  {
    && comp != []
    && (forall i :: 0 <= i < |comp| ==> NameChar(comp[i]))
    && AlphaNumeric(comp[0])
    && comp != "." && comp != ".."
  }

  /** `validate_name`. */
  predicate ValidName(name: string)
  {
    name != [] && ByteLen(name) <= 255 && forall comp :: comp in Split(name, '/') ==> ValidComponent(comp)
  }

  /** `validate_tag`. */
  predicate ValidTag(tag: string)
  {
    && tag != [] && ByteLen(tag) <= 128
    && (forall i :: 0 <= i < |tag| ==> TagChar(tag[i]))
    && (AlphaNumeric(tag[0]) || tag[0] == '_')
  }

  predicate ValidTagOption(tag: Option<string>) { tag.Some? ==> ValidTag(tag.value) }

  /** `split_tag`: the tag follows the last ':' after the last '/'. */
  function SplitTag(s: string): Result<(string, Option<string>), Error>
  {
    var slash := FindLast(s, '/');
    var colon := FindLast(s[slash..], ':');
    var name := if colon > 0 then s[..slash + colon - 1] else s;
    var tag := if colon > 0 then Some(s[slash + colon..]) else None;
    if !ValidName(name) then Err(InvalidName)
    else if !ValidTagOption(tag) then Err(InvalidTag)
    else Ok((name, tag))
  }

  /** `<name>` or `<name>:<tag>`. */
  function NameAndTag(name: string, tag: Option<string>): string
  {
    match tag
    case Some(t) => name + ":" + t
    case None => name
  }

  // --------------------------------------------------------------- characters

  /** A string cut into non-empty pieces neither begins nor ends with the
      separator. */
  lemma {:induction false} EndsInPiece(s: string, c: char)
    requires forall p :: p in Split(s, c) ==> p != []
    ensures s != [] && s[0] != c && s[|s| - 1] != c
    decreases |s|
  {
    var i := Find(s, c);
    if i < |s| {
      var rest := Split(s[i + 1..], c);
      assert Split(s, c) == [s[..i]] + rest;
      assert s[..i] in Split(s, c);
      assert forall p :: p in rest ==> p in Split(s, c);
      EndsInPiece(s[i + 1..], c);
      assert s[i + 1..][|s| - i - 2] == s[|s| - 1];
    } else {
      assert Split(s, c)[0] == s;
    }
  }

  lemma NameChars(name: string)
    requires ValidName(name)
    ensures forall i :: 0 <= i < |name| ==> NameChar(name[i]) || name[i] == '/'
    ensures name[0] != '/' && name[|name| - 1] != '/'
  {
    forall i | 0 <= i < |name| ensures NameChar(name[i]) || name[i] == '/' {
      SplitCovers(name, '/', i);
      if name[i] != '/' {
        var comp :| comp in Split(name, '/') && name[i] in comp;
        assert ValidComponent(comp);
      }
    }
    EndsInPiece(name, '/');
  }

  lemma PlainChars(s: string)
    requires forall i :: 0 <= i < |s| ==> NameChar(s[i]) || s[i] == '/'
    ensures ByteLen(s) == |s| && ':' !in s && NoWhitespace(s)
  {
    ByteLenAscii(s);
  }

  lemma NameIsAscii(name: string)
    requires ValidName(name)
    ensures ByteLen(name) == |name| <= 255
    ensures ':' !in name && NoWhitespace(name)
  {
    NameChars(name);
    PlainChars(name);
  }

  lemma TagHasNone(tag: string)
    requires ValidTag(tag)
    ensures ':' !in tag && '/' !in tag && NoWhitespace(tag)
  {
  }

  // ---------------------------------------------------------- what is accepted

  predicate LowerOrDigit(c: char) { '0' <= c <= '9' || 'a' <= c <= 'z' }

  /** A component begins at `k`. */
  predicate Begins(s: string, k: int) { 0 <= k < |s| && (k == 0 || s[k - 1] == '/') }

  /** Names as paths below a directory: lower-case letters, digits, `.`, `_`
      and `-`; every component begins with a letter or digit, so none is empty,
      `.` or `..` and the path neither begins nor ends with `/`. */
  ghost predicate StaysBelow(s: string)
  {
    && s != [] && s[|s| - 1] != '/'
    && (forall k :: 0 <= k < |s| ==>
          (LowerOrDigit(s[k]) || s[k] == '.' || s[k] == '_' || s[k] == '-' || s[k] == '/'))
    && (forall k :: Begins(s, k) ==> LowerOrDigit(s[k]))
  }

  lemma OneComponent(s: string)
    requires '/' !in s
    ensures ValidComponent(s) <==> StaysBelow(s)
  {
    if StaysBelow(s) { assert Begins(s, 0); }
    if ValidComponent(s) {
      forall k | Begins(s, k) ensures LowerOrDigit(s[k]) { assert k == 0; }
    }
  }

  lemma StaysBelowFrom(s: string, i: nat)
    requires i < |s| && s[i] == '/' && StaysBelow(s)
    ensures StaysBelow(s[..i]) && StaysBelow(s[i + 1..])
  {
    var t := s[i + 1..];
    assert Begins(s, 0);
    assert t != [] && t[|t| - 1] == s[|s| - 1];
    forall k | Begins(t, k) ensures LowerOrDigit(t[k]) { assert Begins(s, i + 1 + k); }
    forall k | Begins(s[..i], k) ensures LowerOrDigit(s[k]) { assert Begins(s, k); }
    assert !Begins(s, i);
  }

  lemma StaysBelowBoth(s: string, i: nat)
    requires i < |s| && s[i] == '/' && StaysBelow(s[..i]) && StaysBelow(s[i + 1..])
    ensures StaysBelow(s)
  {
    var h, t := s[..i], s[i + 1..];
    assert t[|t| - 1] == s[|s| - 1] && h[i - 1] == s[i - 1] && !Begins(s, i);
    forall k | 0 <= k < |s|
      ensures LowerOrDigit(s[k]) || s[k] == '.' || s[k] == '_' || s[k] == '-' || s[k] == '/'
    {
      if k < i { assert s[k] == h[k]; } else if k > i { assert s[k] == t[k - i - 1]; }
    }
    forall k | Begins(s, k) ensures LowerOrDigit(s[k]) {
      if k < i {
        assert Begins(h, k);
      } else {
        assert Begins(t, k - i - 1);
      }
    }
  }

  lemma {:induction false} ComponentsStayBelow(s: string)
    ensures (forall comp :: comp in Split(s, '/') ==> ValidComponent(comp)) <==> StaysBelow(s)
    decreases |s|
  {
    var i := Find(s, '/');
    if i == |s| {
      assert Split(s, '/') == [s];
      OneComponent(s);
    } else {
      var rest := Split(s[i + 1..], '/');
      assert Split(s, '/') == [s[..i]] + rest;
      assert forall comp :: comp in Split(s, '/') <==> comp == s[..i] || comp in rest;
      OneComponent(s[..i]);
      ComponentsStayBelow(s[i + 1..]);
      if StaysBelow(s) { StaysBelowFrom(s, i); }
      if StaysBelow(s[..i]) && StaysBelow(s[i + 1..]) { StaysBelowBoth(s, i); }
    }
  }

  /** The valid names are exactly the paths of up to 255 characters that stay
      below the directory they are joined to. */
  lemma ValidNameExactlyWhen(name: string)
    ensures ValidName(name) <==> |name| <= 255 && StaysBelow(name)
  {
    ComponentsStayBelow(name);
    if |name| <= 255 && StaysBelow(name) { ByteLenAscii(name); }
  }

  /** The valid tags: 1 to 128 characters, the first a letter, digit or `_`. */
  lemma ValidTagExactlyWhen(tag: string)
    ensures ValidTag(tag) <==>
      && 1 <= |tag| <= 128
      && (forall i :: 0 <= i < |tag| ==>
            (LowerOrDigit(tag[i]) || 'A' <= tag[i] <= 'Z' || tag[i] == '.' || tag[i] == '_' || tag[i] == '-'))
      && (LowerOrDigit(tag[0]) || 'A' <= tag[0] <= 'Z' || tag[0] == '_')
  {
    if forall i :: 0 <= i < |tag| ==>
         (LowerOrDigit(tag[i]) || 'A' <= tag[i] <= 'Z' || tag[i] == '.' || tag[i] == '_' || tag[i] == '-') {
      ByteLenAscii(tag);
    }
  }

  // --------------------------------------------------------------- round trip

  lemma FindLastIs(s: string, c: char, i: nat)
    requires i <= |s| && (i > 0 ==> s[i - 1] == c) && forall k :: i <= k < |s| ==> s[k] != c
    ensures FindLast(s, c) == i
  {
  }

  /** `split_tag` undoes joining a valid name and tag. */
  lemma SplitTagJoined(name: string, tag: Option<string>)
    requires (forall i :: 0 <= i < |name| ==> name[i] != ':') && ValidTagOption(tag)
    ensures SplitTag(NameAndTag(name, tag)) == if ValidName(name) then Ok((name, tag)) else Err(InvalidName)
  {
    var s := NameAndTag(name, tag);
    var slash := FindLast(name, '/');
    match tag {
      case None => FindLastIs(s[slash..], ':', 0);
      case Some(t) =>
        TagHasNone(t);
        FindLastIs(s, '/', slash);
        FindLastIs(s[slash..], ':', |name| - slash + 1);
        assert s[..|name|] == name && s[|name| + 1..] == t;
    }
  }

  /** What is split off joins again. */
  lemma SplitTagJoins(s: string)
    requires SplitTag(s).Ok?
    ensures var (name, tag) := SplitTag(s).value;
            ValidName(name) && ValidTagOption(tag) && s == NameAndTag(name, tag)
  {
    var (name, tag) := SplitTag(s).value;
    if tag.Some? { assert s == s[..|name|] + [s[|name|]] + s[|name| + 1..]; }
  }

  /** What `split_tag` accepts is exactly a valid name, or a valid name, a
      colon and a valid tag. */
  lemma SplitTagExactlyWhen(s: string, name: string, tag: Option<string>)
    ensures SplitTag(s) == Ok((name, tag)) <==>
      && ValidName(name) && (tag.Some? ==> ValidTag(tag.value))
      && s == (if tag.Some? then name + ":" + tag.value else name)
  {
    assert NameAndTag(name, tag) == if tag.Some? then name + ":" + tag.value else name;
    if ValidName(name) && ValidTagOption(tag) && s == NameAndTag(name, tag) {
      NameIsAscii(name);
      SplitTagJoined(name, tag);
    }
    if SplitTag(s).Ok? { SplitTagJoins(s); }
  }

  lemma NameAndTagInjective(name: string, tag: string, name': string, tag': string)
    requires ValidName(name) && ValidTag(tag) && ValidName(name') && ValidTag(tag')
    requires NameAndTag(name, Some(tag)) == NameAndTag(name', Some(tag'))
    ensures name == name' && tag == tag'
  {
    NameIsAscii(name);
    NameIsAscii(name');
    SplitTagJoined(name, Some(tag));
    SplitTagJoined(name', Some(tag'));
  }
}
