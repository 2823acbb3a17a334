/** Publisher ids in text (crates/ocid-core/src/identity.rs). */
module Identity {
  import opened Text

  /** 64 lowercase hex digits, the form used in repository paths. */
  predicate IsHexPublisher(s: string) { |s| == 64 && AllLowerHex(s) }

  /** A public key, named by its hex form: distinct keys print differently. */
  type PublisherId = s: string | IsHexPublisher(s) witness seq(64, _ => '0')

  /** The textual forms other than lowercase hex, left to the libraries that
      decode them: what follows `did:key:`, and base32. */
  datatype KeyForms = KeyForms(did: string -> Option<PublisherId>, other: string -> Option<PublisherId>)

  function ParsePublisher(forms: KeyForms, s: string): Option<PublisherId>
  {
    var t := Trim(s);
    match StripPrefix(t, "did:key:")
    case Some(rest) => forms.did(rest)
    case None => if IsHexPublisher(t) then Some(t) else forms.other(t)
  }

  lemma HexHasNone(p: PublisherId)
    ensures NoWhitespace(p) && '/' !in p && ':' !in p && '.' !in p && '=' !in p
    ensures ByteLen(p) == 64
  {
    forall i | 0 <= i < |p| ensures p[i] as int < 0x80 { assert IsLowerHex(p[i]); }
    ByteLenAscii(p);
  }

  lemma TrimIsIdentity(s: string)
    requires s != [] && !IsWhitespace(s[0]) && !IsWhitespace(s[|s| - 1])
    ensures Trim(s) == s
  {
  }

  /** The second character of a hex key cannot be that of `did:key:`. */
  lemma HexIsNotDid(p: PublisherId, rest: string)
    ensures StripPrefix(p + rest, "did:key:") == None
  {
    assert IsLowerHex(p[1]) && (p + rest)[1] == p[1];
    PrefixChars(p + rest, "did:key:");
  }

  lemma ParseHexPublisher(forms: KeyForms, p: PublisherId)
    ensures ParsePublisher(forms, p) == Some(p)
  {
    HexHasNone(p);
    TrimIsIdentity(p);
    HexIsNotDid(p, []);
    assert p + [] == p;
  }
}
