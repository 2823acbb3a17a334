/** Strings as the standard library of the original treats them: byte lengths,
    lexicographic order, splitting, trimming, decimal numbers and hexadecimal. */
module Text {
  datatype Option<+T> = None | Some(value: T)

  datatype Result<+T, +E> = Ok(value: T) | Err(error: E)

  lemma TailMembers<T>(s: seq<T>)
    requires s != []
    ensures s[0] in s && forall x :: x in s[1..] ==> x in s
  {
  }

  function Flatten<T>(parts: seq<seq<T>>): seq<T>
  {
    if parts == [] then [] else parts[0] + Flatten(parts[1..])
  }

  lemma {:induction false} FlattenSnoc<T>(parts: seq<seq<T>>, p: seq<T>)
    ensures Flatten(parts + [p]) == Flatten(parts) + p
  {
    if parts == [] {
      assert [p][1..] == [] && Flatten([p]) == p + [];
    } else {
      assert (parts + [p])[1..] == parts[1..] + [p];
      FlattenSnoc(parts[1..], p);
    }
  }

  /** What `f` gives for each element, in order. */
  function FlatMap<A, B>(f: A -> seq<B>, s: seq<A>): seq<B>
  {
    if s == [] then [] else FlatMap(f, s[..|s| - 1]) + f(s[|s| - 1])
  }

  lemma FlatMapNext<A, B>(f: A -> seq<B>, s: seq<A>, k: nat)
    requires k < |s|
    ensures FlatMap(f, s[..k + 1]) == FlatMap(f, s[..k]) + f(s[k])
  {
    assert s[..k + 1][..k] == s[..k];
  }

  lemma {:induction false} FlatMapMembers<A, B>(f: A -> seq<B>, s: seq<A>, x: B)
    ensures x in FlatMap(f, s) <==> exists e :: e in s && x in f(e)
  {
    if s != [] {
      FlatMapMembers(f, s[..|s| - 1], x);
      assert s == s[..|s| - 1] + [s[|s| - 1]];
    }
  }

  /** `retain`. */
  function Filter<A>(keep: A -> bool, s: seq<A>): (r: seq<A>)
    ensures |r| <= |s|
  {
    if s == [] then []
    else
      var front := Filter(keep, s[..|s| - 1]);
      if keep(s[|s| - 1]) then front + [s[|s| - 1]] else front
  }

  lemma {:induction false} FilterFacts<A>(keep: A -> bool, s: seq<A>)
    ensures Filter(keep, s) == s <==> forall e :: e in s ==> keep(e)
    ensures |Filter(keep, s)| == |s| <==> Filter(keep, s) == s
    ensures forall e :: multiset(Filter(keep, s))[e] == if keep(e) then multiset(s)[e] else 0
  {
    if s != [] {
      FilterFacts(keep, s[..|s| - 1]);
      assert s == s[..|s| - 1] + [s[|s| - 1]];
    }
  }

  lemma {:induction false} FilterAgrees<A>(keep: A -> bool, keep': A -> bool, s: seq<A>)
    requires forall e :: e in s ==> keep(e) == keep'(e)
    ensures Filter(keep, s) == Filter(keep', s)
  {
    if s != [] { FilterAgrees(keep, keep', s[..|s| - 1]); }
  }

  // ---------------------------------------------------------------- order

  /** The order of `str::cmp`. UTF-8 keeps code point order, so comparing
      characters is comparing bytes. */
  predicate Less(a: string, b: string)
  {
    if b == [] then false
    else if a == [] then true
    else if a[0] != b[0] then a[0] < b[0]
    else Less(a[1..], b[1..])
  }

  lemma {:induction false} LessTotal(a: string, b: string)
    ensures a == b || Less(a, b) || Less(b, a)
    ensures !(Less(a, b) && Less(b, a))
    ensures a == b ==> !Less(a, b)
  {
    if a != [] && b != [] && a[0] == b[0] {
      LessTotal(a[1..], b[1..]);
      assert a == [a[0]] + a[1..] && b == [b[0]] + b[1..];
    }
  }

  lemma {:induction false} LessTransitive(a: string, b: string, c: string)
    requires Less(a, b) && Less(b, c)
    ensures Less(a, c)
  {
    if a != [] && a[0] == b[0] && b[0] == c[0] {
      LessTransitive(a[1..], b[1..], c[1..]);
    }
  }

  // --------------------------------------------------------------- lengths

  /** Bytes a character takes in UTF-8. */
  function Utf8Len(c: char): (n: nat)
    ensures 1 <= n <= 4
  {
    var v := c as int;
    if v < 0x80 then 1 else if v < 0x800 then 2 else if v < 0x10000 then 3 else 4
  }

  /** `str::len`. */
  function ByteLen(s: string): (n: nat)
    ensures |s| <= n
  {
    if s == [] then 0 else Utf8Len(s[0]) + ByteLen(s[1..])
  }

  lemma {:induction false} ByteLenConcat(a: string, b: string)
    ensures ByteLen(a + b) == ByteLen(a) + ByteLen(b)
  {
    if a == [] {
      assert a + b == b;
    } else {
      assert (a + b)[1..] == a[1..] + b;
      ByteLenConcat(a[1..], b);
    }
  }

  lemma {:induction false} ByteLenAscii(s: string)
    requires forall i :: 0 <= i < |s| ==> s[i] as int < 0x80
    ensures ByteLen(s) == |s|
  {
    if s != [] { ByteLenAscii(s[1..]); }
  }

  // ------------------------------------------------------- searching, cutting

  /** Position of the first `c`, or `|s|`. */
  function Find(s: string, c: char): (i: nat)
    ensures i <= |s|
    ensures forall k :: 0 <= k < i ==> s[k] != c
    ensures i < |s| ==> s[i] == c
  {
    if s == [] || s[0] == c then 0 else 1 + Find(s[1..], c)
  }

  /** One more than the position of the last `c`, or 0 (`rfind(c) + 1`). */
  function FindLast(s: string, c: char): (i: nat)
    ensures i <= |s|
    ensures forall k :: i <= k < |s| ==> s[k] != c
    ensures i > 0 ==> s[i - 1] == c
  {
    if s == [] then 0
    else if s[|s| - 1] == c then |s|
    else FindLast(s[..|s| - 1], c)
  }

  /** `str::split_once`. */
  function SplitOnce(s: string, c: char): Option<(string, string)>
  {
    var i := Find(s, c);
    if i < |s| then Some((s[..i], s[i + 1..])) else None
  }

  lemma SplitOnceAt(a: string, c: char, b: string)
    requires c !in a
    ensures SplitOnce(a + [c] + b, c) == Some((a, b))
  {
    var s := a + [c] + b;
    var i := Find(s, c);
    assert s[|a|] == c && forall k :: 0 <= k < |a| ==> s[k] == a[k];
    assert s[..|a|] == a && s[|a| + 1..] == b;
  }

  /** `str::split(c)`: always at least one piece. */
  function Split(s: string, c: char): (parts: seq<string>)
    ensures |parts| >= 1
    decreases |s|
  {
    var i := Find(s, c);
    if i < |s| then [s[..i]] + Split(s[i + 1..], c) else [s]
  }

  lemma {:induction false} SplitCovers(s: string, c: char, i: nat)
    requires i < |s|
    ensures s[i] == c || exists p :: p in Split(s, c) && s[i] in p
    decreases |s|
  {
    var j := Find(s, c);
    if j < |s| {
      var rest := Split(s[j + 1..], c);
      assert Split(s, c) == [s[..j]] + rest;
      if i < j {
        assert s[..j] in Split(s, c) && s[i] in s[..j];
      } else if s[i] != c {
        SplitCovers(s[j + 1..], c, i - j - 1);
        assert s[j + 1..][i - j - 1] == s[i];
        var p :| p in rest && s[i] in p;
        assert p in Split(s, c);
      }
    } else {
      assert Split(s, c)[0] == s && s[i] in s;
    }
  }

  /** Pieces put back together with one `c` between them. */
  function Join(parts: seq<string>, c: char): string
  {
    if parts == [] then "" else if |parts| == 1 then parts[0]
    else parts[0] + [c] + Join(parts[1..], c)
  }

  lemma {:induction false} SplitJoin(parts: seq<string>, c: char)
    requires parts != []
    requires forall p :: p in parts ==> c !in p
    ensures Split(Join(parts, c), c) == parts
  {
    var s := Join(parts, c);
    if |parts| == 1 {
      assert c !in parts[0];
    } else {
      SplitOnceAt(parts[0], c, Join(parts[1..], c));
      SplitJoin(parts[1..], c);
      assert Split(s, c) == [parts[0]] + Split(Join(parts[1..], c), c);
    }
  }

  lemma {:induction false} JoinAppend(a: seq<string>, b: seq<string>, c: char)
    requires a != [] && b != []
    ensures Join(a + b, c) == Join(a, c) + [c] + Join(b, c)
  {
    if |a| == 1 {
      assert (a + b)[1..] == b;
    } else {
      assert (a + b)[1..] == a[1..] + b;
      JoinAppend(a[1..], b, c);
    }
  }

  /** Unicode White_Space, the set of `char::is_whitespace`. */
  predicate IsWhitespace(c: char)
  {
    var v := c as int;
    0x9 <= v <= 0xD || v == 0x20 || v == 0x85 || v == 0xA0 || v == 0x1680 || 0x2000 <= v <= 0x200A
    || v == 0x2028 || v == 0x2029 || v == 0x202F || v == 0x205F || v == 0x3000
  }

  predicate NoWhitespace(s: string)
  {
    forall i :: 0 <= i < |s| ==> !IsWhitespace(s[i])
  }

  function TrimStart(s: string): string
  {
    if s != [] && IsWhitespace(s[0]) then TrimStart(s[1..]) else s
  }

  function TrimEnd(s: string): string
  {
    if s != [] && IsWhitespace(s[|s| - 1]) then TrimEnd(s[..|s| - 1]) else s
  }

  function Trim(s: string): string { TrimEnd(TrimStart(s)) }

  /** `trim_start_matches(c)` and `trim_end_matches(c)`. */
  function TrimStartChar(s: string, c: char): string
  {
    if s != [] && s[0] == c then TrimStartChar(s[1..], c) else s
  }

  function TrimEndChar(s: string, c: char): string
  {
    if s != [] && s[|s| - 1] == c then TrimEndChar(s[..|s| - 1], c) else s
  }

  function StripPrefix(s: string, p: string): Option<string>
  {
    if |p| <= |s| && s[..|p|] == p then Some(s[|p|..]) else None
  }

  lemma PrefixChars(s: string, p: string)
    ensures StripPrefix(s, p).Some? ==> forall k :: 0 <= k < |p| ==> s[k] == p[k]
    ensures StripPrefix(s, p).Some? ==> |s| >= |p|
  {
    if |p| <= |s| { assert forall k :: 0 <= k < |p| ==> s[..|p|][k] == s[k]; }
  }

  // ------------------------------------------------------------ whitespace split

  /** Position of the first whitespace character, or `|s|`. */
  function FindWhitespace(s: string): (i: nat)
    ensures i <= |s|
    ensures forall k :: 0 <= k < i ==> !IsWhitespace(s[k])
    ensures i < |s| ==> IsWhitespace(s[i])
  {
    if s == [] || IsWhitespace(s[0]) then 0 else 1 + FindWhitespace(s[1..])
  }

  /** `str::split_whitespace`: maximal runs of non-whitespace. */
  function SplitWhitespace(s: string): seq<string>
    decreases |s|
  {
    if s == [] then []
    else if IsWhitespace(s[0]) then SplitWhitespace(s[1..])
    else var i := FindWhitespace(s); [s[..i]] + SplitWhitespace(s[i..])
  }

  predicate IsToken(t: string) { t != [] && NoWhitespace(t) }

  lemma SplitWhitespaceStep(t: string, rest: string)
    requires IsToken(t)
    ensures SplitWhitespace(t + " " + rest) == [t] + SplitWhitespace(rest)
  {
    var s := t + " " + rest;
    assert s[|t|] == ' ' && forall k :: 0 <= k < |t| ==> s[k] == t[k];
    var i := FindWhitespace(s);
    assert i == |t| && s[..i] == t;
    assert s[i..] == " " + rest && s[i..][1..] == rest;
  }

  lemma {:induction false} SplitWhitespaceJoin(toks: seq<string>)
    requires forall t :: t in toks ==> IsToken(t)
    ensures SplitWhitespace(Join(toks, ' ')) == toks
  {
    if toks != [] {
      var t := toks[0];
      assert IsToken(t);
      if |toks| == 1 {
        assert FindWhitespace(t) == |t| && t[..|t|] == t;
      } else {
        SplitWhitespaceStep(t, Join(toks[1..], ' '));
        SplitWhitespaceJoin(toks[1..]);
      }
    }
  }

  // -------------------------------------------------------------------- decimal

  predicate IsDigit(c: char) { '0' <= c <= '9' }

  predicate AllDigits(s: string) { forall i :: 0 <= i < |s| ==> IsDigit(s[i]) }

  function DigitChar(d: nat): (c: char)
    requires d < 10
    ensures IsDigit(c) && c as int - '0' as int == d
  {
    (d + '0' as int) as char
  }

  /** Decimal form of a number (`Display` for `u64`). */
  function Decimal(n: nat): (s: string)
    ensures s != [] && AllDigits(s)
  {
    if n < 10 then [DigitChar(n)] else Decimal(n / 10) + [DigitChar(n % 10)]
  }

  function Pow10(k: nat): (p: nat)
    ensures p >= 1
  {
    if k == 0 then 1 else 10 * Pow10(k - 1)
  }

  lemma {:induction false} DecimalLength(n: nat, k: nat)
    requires n < Pow10(k) && k > 0
    ensures |Decimal(n)| <= k
    decreases k
  {
    if n >= 10 { DecimalLength(n / 10, k - 1); }
  }

  function DigitValue(c: char): nat
    requires IsDigit(c)
  {
    c as int - '0' as int
  }

  function DigitsValue(s: string): nat
    requires AllDigits(s)
  {
    if s == [] then 0 else DigitsValue(s[..|s| - 1]) * 10 + DigitValue(s[|s| - 1])
  }

  const U64_MAX: nat := 0xFFFF_FFFF_FFFF_FFFF

  /** `str::parse::<u64>`: an optional `+`, at least one digit, no overflow. */
  function ParseU64(s: string): Option<nat>
  {
    var d := if s != [] && s[0] == '+' then s[1..] else s;
    if d != [] && AllDigits(d) && DigitsValue(d) <= U64_MAX
    then Some(DigitsValue(d)) else None
  }

  lemma {:induction false} DecimalValue(n: nat)
    ensures DigitsValue(Decimal(n)) == n
  {
    if n >= 10 {
      DecimalValue(n / 10);
      var s := Decimal(n);
      assert s[..|s| - 1] == Decimal(n / 10);
    } else {
      assert Decimal(n)[..0] == [];
    }
  }

  lemma ParseDecimal(n: nat)
    requires n <= U64_MAX
    ensures ParseU64(Decimal(n)) == Some(n)
  {
    DecimalValue(n);
    assert IsDigit(Decimal(n)[0]);
  }

  /** `d` is some zeros and the decimal form of `n`. */
  predicate Written(d: string, n: nat)
  {
    var k := |d| - |Decimal(n)|;
    k >= 0 && d[k..] == Decimal(n) && forall i :: 0 <= i < k ==> d[i] == '0'
  }

  lemma {:induction false} DigitsAreWritten(d: string)
    requires d != [] && AllDigits(d)
    ensures Written(d, DigitsValue(d))
    decreases |d|
  {
    var front, c := d[..|d| - 1], d[|d| - 1];
    var n := DigitsValue(d);
    assert [DigitChar(DigitValue(c))] == [c];
    if front == [] {
      assert DigitsValue(front) == 0;
    } else {
      DigitsAreWritten(front);
      var m := DigitsValue(front);
      var j := |front| - |Decimal(m)|;
      assert n == 10 * m + DigitValue(c) && n / 10 == m && n % 10 == DigitValue(c);
      assert d == front + [c];
      if n >= 10 {
        assert d[j..] == front[j..] + [c];
      } else {
        assert front[j..] == ['0'] by { assert Decimal(0) == ['0']; }
        assert front[j] == '0';
      }
    }
  }

  lemma {:induction false} WrittenHasValue(d: string, n: nat)
    requires Written(d, n)
    ensures d != [] && AllDigits(d)
    ensures DigitsValue(d) == n
    decreases |d|
  {
    var k := |d| - |Decimal(n)|;
    var front := d[..|d| - 1];
    assert forall i :: 0 <= i < |d| ==> d[i] == if i < k then '0' else Decimal(n)[i - k];
    if n >= 10 {
      assert front[k..] == Decimal(n / 10);
      WrittenHasValue(front, n / 10);
    } else if k > 0 {
      assert front[k - 1..] == ['0'] && Decimal(0) == ['0'];
      WrittenHasValue(front, 0);
    }
  }

  /** `str::parse::<u64>` reads exactly the decimal forms of the numbers that
      fit, with any leading zeros and at most one `+` in front. */
  lemma ParseU64ExactlyWhen(s: string, n: nat)
    ensures ParseU64(s) == Some(n) <==>
      n <= U64_MAX && (Written(s, n) || (s != [] && s[0] == '+' && Written(s[1..], n)))
  {
    if Written(s, n) { WrittenHasValue(s, n); }
    if s != [] && s[0] == '+' && Written(s[1..], n) { WrittenHasValue(s[1..], n); }
    if ParseU64(s) == Some(n) {
      if s[0] == '+' { DigitsAreWritten(s[1..]); } else { DigitsAreWritten(s); }
    }
  }

  /** Value of a hex digit; `hex::decode` takes both cases. */
  function HexValue(c: char): (v: Option<nat>)
    ensures v.Some? ==> v.value < 16
  {
    if IsDigit(c) then Some(c as int - '0' as int)
    else if 'a' <= c <= 'f' then Some(c as int - 'a' as int + 10)
    else if 'A' <= c <= 'F' then Some(c as int - 'A' as int + 10)
    else None
  }

  /** `hex::decode`: an even number of hex digits. */
  function HexDecode(s: string): Option<seq<byte>>
    decreases |s|
  {
    if s == [] then Some([])
    else if |s| == 1 then None
    else match (HexValue(s[0]), HexValue(s[1]), HexDecode(s[2..]))
      case (Some(h), Some(l), Some(rest)) =>
        Some([(h * 16 + l) as byte] + rest)
      case _ => None
  }

  lemma {:induction false} HexDecodeExactlyWhen(s: string)
    ensures HexDecode(s).Some? <==> |s| % 2 == 0 && forall i :: 0 <= i < |s| ==> HexValue(s[i]).Some?
    ensures HexDecode(s).Some? ==> |HexDecode(s).value| == |s| / 2
    decreases |s|
  {
    if |s| >= 2 {
      HexDecodeExactlyWhen(s[2..]);
      assert forall i :: 0 <= i < |s| - 2 ==> s[i + 2] == s[2..][i];
      if HexDecode(s).Some? {
        forall i | 0 <= i < |s| ensures HexValue(s[i]).Some? {
          if i >= 2 { assert s[i] == s[2..][i - 2]; }
        }
      }
    }
  }

  /** Trimming a character off both ends takes off exactly the runs of it. */
  lemma {:induction false} TrimCharsExactly(a: nat, s: string, b: nat, c: char)
    requires s == "" || (s[0] != c && s[|s| - 1] != c)
    ensures TrimEndChar(TrimStartChar(seq(a, _ => c) + s + seq(b, _ => c), c), c) == s
    decreases a + b
  {
    var left, right := seq(a, _ => c), seq(b, _ => c);
    var t := left + s + right;
    if a > 0 {
      assert t[1..] == seq(a - 1, _ => c) + s + right;
      TrimCharsExactly(a - 1, s, b, c);
    } else if b > 0 {
      TrimCharsExactly(0, s, b - 1, c);
      var t' := seq(0, _ => c) + s + seq(b - 1, _ => c);
      if s == "" {
        assert t[1..] == t';
      } else {
        assert t[..|t| - 1] == t' && t[0] == s[0] && t'[0] == s[0];
      }
    } else {
      assert t == s;
    }
  }

  lemma DecimalInjective(a: nat, b: nat)
    requires Decimal(a) == Decimal(b)
    ensures a == b
  {
    DecimalValue(a);
    DecimalValue(b);
  }

  // ---------------------------------------------------------------- hexadecimal

  newtype byte = b: int | 0 <= b < 256

  predicate IsLowerHex(c: char) { IsDigit(c) || 'a' <= c <= 'f' }

  predicate AllLowerHex(s: string) { forall i :: 0 <= i < |s| ==> IsLowerHex(s[i]) }

  function HexChar(d: nat): (c: char)
    requires d < 16
    ensures IsLowerHex(c)
  {
    if d < 10 then (d + '0' as int) as char else (d - 10 + 'a' as int) as char
  }

  /** `hex::encode`. */
  function HexEncode(bs: seq<byte>): (s: string)
    ensures |s| == 2 * |bs| && AllLowerHex(s)
  {
    if bs == [] then ""
    else [HexChar(bs[0] as int / 16), HexChar(bs[0] as int % 16)] + HexEncode(bs[1..])
  }

  lemma {:induction false} HexRoundTrip(bs: seq<byte>)
    ensures HexDecode(HexEncode(bs)) == Some(bs)
  {
    if bs != [] {
      var s := HexEncode(bs);
      assert s[2..] == HexEncode(bs[1..]);
      HexRoundTrip(bs[1..]);
      assert bs == [bs[0]] + bs[1..];
    }
  }
}
