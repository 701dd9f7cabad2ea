/**
  The request target `handleVerifyEmail` in src/App.jsx builds for the
  recipient lookup, `/accounts/resolve/${recipientEmail.trim()}`, and what the
  server's `/accounts/resolve/:email` route can read back out of it.

  The email goes into the target without encoding. Section 3.3 of RFC 3986
  ends the path at the first `?` (section 3.4, the query) or `#` (section 3.5,
  the fragment, which is never sent); the WHATWG URL Standard reads `\` as `/`
  in an `https` URL; a last segment `.` or `..` is removed (section 5.2.4 of
  RFC 3986, and the WHATWG URL Standard reads `%2e` as a dot); and the route's
  parameter is one non-empty percent-decoded segment (section 2.1 of RFC 3986).
  An address the client accepts as valid can hold `?`, `#`, `/`, `\` or `%`,
  so the lookup can ask about a different address.
  `ResolveTargetAsWritten` is the target as the source builds it;
  `ResolveTarget` escapes the delimiters, as the lookup evidently intends.
*/
module RecipientPath {
  import opened Wrappers
  import opened Strings
  import Validation

  const ResolvePrefix: string := "/accounts/resolve/"

  /** The part of a request target that is sent as the path. */
  function PathPart(target: string): (p: string)
    ensures |p| <= |target| && p == target[..|p|]
    ensures '?' !in p && '#' !in p
    ensures |p| < |target| ==> target[|p|] == '?' || target[|p|] == '#'
  {
    if target == [] || target[0] == '?' || target[0] == '#' then []
    else [target[0]] + PathPart(target[1..])
  }

  predicate IsHexDigit(c: char) {
    '0' <= c <= '9' || 'a' <= c <= 'f' || 'A' <= c <= 'F'
  }

  function HexDigitValue(c: char): nat
    requires IsHexDigit(c)
  {
    if c <= '9' then c as int - '0' as int
    else if c <= 'F' then c as int - 'A' as int + 10
    else c as int - 'a' as int + 10
  }

  /** Percent-decoding of a segment. `None` when a `%` is not followed by two hex digits;
      escapes of bytes above 0x7F (multi-byte UTF-8) are not modelled and also give `None`. */
  function PercentDecode(s: string): Option<string>
    decreases |s|
  {
    if s == [] then Some([])
    else if s[0] == '%' then
      if |s| >= 3 && IsHexDigit(s[1]) && IsHexDigit(s[2]) && HexDigitValue(s[1]) < 8 then
        match PercentDecode(s[3..])
        case Some(rest) => Some([(16 * HexDigitValue(s[1]) + HexDigitValue(s[2])) as char] + rest)
        case None => None
      else None
    else
      match PercentDecode(s[1..])
      case Some(rest) => Some([s[0]] + rest)
      case None => None
  }

  /** A character that ends a path segment in an `https` URL. */
  predicate IsSegmentBreak(c: char) {
    c == '/' || c == '\\'
  }

  /** The segments URL parsing removes as `.` or `..`. */
  const DotSegments: set<string> :=
    {".", "%2e", "%2E", "..", ".%2e", ".%2E", "%2e.", "%2E.", "%2e%2e", "%2e%2E", "%2E%2e", "%2E%2E"}

  /** A last segment that survives URL parsing and that the route's `:email` parameter matches. */
  predicate Routable(seg: string) {
    seg != [] && seg !in DotSegments
  }

  /** A segment holding an `@` (every valid address does) is never removed. */
  lemma AtRoutable(seg: string)
    requires '@' in seg
    ensures Routable(seg)
  {
    forall d | d in DotSegments ensures '@' !in d {
    }
  }

  /** An empty last segment, or one URL parsing removes as `.` or `..`, never reaches the route. */
  lemma DotSegmentsUnrouted(seg: string)
    requires seg == [] || seg in DotSegments
    ensures RouteEmail(ResolvePrefix + seg) == None
  {
    PrefixClean();
    forall d | d in DotSegments ensures '?' !in d && '#' !in d {
    }
    var t := ResolvePrefix + seg;
    assert '?' !in t && '#' !in t by {
      assert forall k :: 0 <= k < |t| ==> t[k] in ResolvePrefix || t[k] in seg;
    }
    PathWithoutDelimiters(t);
    assert t[|ResolvePrefix|..] == seg;
  }

  /** The email the server's route receives for a request target, or `None` when the
      target does not reach the route with a single decodable segment. */
  function RouteEmail(target: string): Option<string> {
    RouteUnder(ResolvePrefix, target)
  }

  /** The single decoded segment a target's path holds after `prefix`, if it has one. */
  function RouteUnder(prefix: string, target: string): Option<string> {
    var path := PathPart(target);
    if && |path| >= |prefix| && path[..|prefix|] == prefix
       && (forall i :: |prefix| <= i < |path| ==> !IsSegmentBreak(path[i]))
       && Routable(path[|prefix|..])
    then PercentDecode(path[|prefix|..])
    else None
  }

  /** A target made of a prefix, a routable segment free of delimiters, and nothing or a query or
      fragment, reaches the route with that segment. */
  lemma RouteUnderSegment(prefix: string, seg: string, rest: string)
    requires '?' !in prefix && '#' !in prefix && '?' !in seg && '#' !in seg && Routable(seg)
    requires forall i :: 0 <= i < |seg| ==> !IsSegmentBreak(seg[i])
    requires rest == [] || rest[0] == '#' || rest[0] == '?'
    ensures RouteUnder(prefix, prefix + seg + rest) == PercentDecode(seg)
  {
    var p := prefix + seg;
    assert '?' !in p && '#' !in p by {
      forall i | 0 <= i < |p| ensures p[i] != '?' && p[i] != '#' {
        if i >= |prefix| {
          assert p[i] == seg[i - |prefix|];
        } else {
          assert p[i] == prefix[i];
        }
      }
    }
    if rest == [] {
      assert p + rest == p;
      PathWithoutDelimiters(p);
    } else {
      PathStopsAtFragment(p, rest);
    }
    assert p[..|prefix|] == prefix;
    assert p[|prefix|..] == seg;
    forall i | |prefix| <= i < |p| ensures !IsSegmentBreak(p[i]) {
      assert p[i] == seg[i - |prefix|];
    }
  }

  /** An address with no character the target reads specially: no `%`, `?`, `#`, `/` or `\`. */
  predicate Plain(s: string) {
    forall i :: 0 <= i < |s| ==> s[i] != '%' && s[i] != '?' && s[i] != '#' && !IsSegmentBreak(s[i])
  }

  /** The target exactly as the source interpolates it. It asks the route about the trimmed
      address only when the address is plain; `AsWrittenLosesFragment` shows one that is not. */
  function ResolveTargetAsWritten(email: string): (target: string)
    ensures Validation.IsValidEmail(Trim(email)) && Plain(Trim(email)) ==> RouteEmail(target) == Some(Trim(email))
  {
    var e := Trim(email);
    if Validation.IsValidEmail(e) && Plain(e) then
      PlainRoutes(e);
      ResolvePrefix + e
    else
      ResolvePrefix + e
  }

  /** A plain segment holding an `@` reaches the route unchanged. */
  lemma PlainRoutes(seg: string)
    requires Plain(seg) && '@' in seg
    ensures RouteEmail(ResolvePrefix + seg) == Some(seg)
  {
    AtRoutable(seg);
    PrefixedRoutes(seg);
    DecodePlain(seg);
  }

  /** Percent-decoding leaves a string without `%` alone. */
  lemma {:induction false} DecodePlain(s: string)
    requires forall i :: 0 <= i < |s| ==> s[i] != '%'
    ensures PercentDecode(s) == Some(s)
  {
    if s != [] {
      DecodePlain(s[1..]);
      assert [s[0]] + s[1..] == s;
    }
  }

  /** A valid address `c#c@c.c` (for any ordinary character `c`, such as `a`) asks
      the server about `c` alone: the rest of the address is taken for a fragment. */
  lemma AsWrittenLosesFragment(c: char)
    requires Validation.PartChar(c) && c != '%' && c != '?' && c != '#' && c != '.' && !IsSegmentBreak(c)
    ensures var e := [c, '#', c, '@', c, '.', c];
            && Validation.IsValidEmail(e)
            && RouteEmail(ResolveTargetAsWritten(e)) == Some([c])
            && Some([c]) != Some(Trim(e))
  {
    var e := [c, '#', c, '@', c, '.', c];
    var fragment := e[1..];
    assert e == [c] + fragment;
    assert ResolvePrefix + e == ResolvePrefix + [c] + fragment;
    assert Routable([c]) by {
      forall d | d in DotSegments ensures [c] != d {
      }
    }
    RouteStopsAtFragment([c], fragment);
    SingleDecodes(c);
    assert RouteEmail(ResolvePrefix + e) == Some([c]);
    WitnessIsValid(c);
  }

  lemma WitnessIsValid(c: char)
    requires Validation.PartChar(c)
    ensures var e := [c, '#', c, '@', c, '.', c];
            Validation.IsValidEmail(e) && Trim(e) == e
  {
    var e := [c, '#', c, '@', c, '.', c];
    assert Validation.SplitsAt(e, 3, 5) by {
      assert e[..3] == [c, '#', c] && e[4..5] == [c] && e[6..] == [c];
    }
    Validation.EmailCharacterisation(e);
    assert [] + e + [] == e;
    TrimUnique([], e, []);
  }

  lemma SingleDecodes(c: char)
    requires c != '%'
    ensures PercentDecode([c]) == Some([c])
  {
    assert [c][1..] == [];
    assert PercentDecode([]) == Some([]);
    assert [c] + [] == [c];
  }

  /** Whatever follows a `#` never reaches the route. */
  lemma RouteStopsAtFragment(seg: string, rest: string)
    requires '?' !in seg && '#' !in seg && rest != [] && rest[0] == '#' && Routable(seg)
    requires forall i :: 0 <= i < |seg| ==> !IsSegmentBreak(seg[i])
    ensures RouteEmail(ResolvePrefix + seg + rest) == PercentDecode(seg)
  {
    PrefixClean();
    RouteUnderSegment(ResolvePrefix, seg, rest);
  }

  /** A target whose first delimiter is at `|p|` sends exactly `p` as its path. */
  lemma {:induction false} PathStopsAtFragment(p: string, rest: string)
    requires '?' !in p && '#' !in p && rest != [] && (rest[0] == '#' || rest[0] == '?')
    ensures PathPart(p + rest) == p
    decreases |p|
  {
    if p == [] {
      assert p + rest == rest;
    } else {
      assert (p + rest)[1..] == p[1..] + rest;
      PathStopsAtFragment(p[1..], rest);
    }
  }

  /** One character of an email as it is written into the path. */
  function Escape(c: char): string {
    if c == '%' then "%25"
    else if c == '/' then "%2F"
    else if c == '?' then "%3F"
    else if c == '#' then "%23"
    else if c == '\\' then "%5C"
    else [c]
  }

  /** The email with every path delimiter and `%` escaped. */
  function EncodeSegment(s: string): string {
    if s == [] then [] else Escape(s[0]) + EncodeSegment(s[1..])
  }

  /** A character that delimits nothing in a path: no segment break, query or fragment. */
  predicate Inert(c: char) {
    !IsSegmentBreak(c) && c != '?' && c != '#'
  }

  lemma EscapeInert(c: char)
    ensures forall i :: 0 <= i < |Escape(c)| ==> Inert(Escape(c)[i])
  {
  }

  /** The escaped email contains no delimiter of the path, the query or the fragment. */
  lemma {:induction false} EncodeInert(s: string)
    ensures forall i :: 0 <= i < |EncodeSegment(s)| ==> Inert(EncodeSegment(s)[i])
  {
    if s != [] {
      EncodeInert(s[1..]);
      EscapeInert(s[0]);
      var head, tail := Escape(s[0]), EncodeSegment(s[1..]);
      assert EncodeSegment(s) == head + tail;
      forall i | 0 <= i < |head + tail| ensures Inert((head + tail)[i]) {
        if i < |head| {
          assert (head + tail)[i] == head[i];
        } else {
          assert (head + tail)[i] == tail[i - |head|];
        }
      }
    }
  }

  /** The lookup target with the email escaped, for an address that passed validation: the route
      receives exactly the trimmed address that was typed. */
  function ResolveTarget(email: string): (target: string)
    requires Validation.IsValidEmail(Trim(email))
    ensures RouteEmail(target) == Some(Trim(email))
  {
    EncodedTargetRoutes(email);
    ResolvePrefix + EncodeSegment(Trim(email))
  }

  /** Escaping keeps every `@`. */
  lemma {:induction false} EncodeKeepsAt(s: string)
    requires '@' in s
    ensures '@' in EncodeSegment(s)
  {
    if s[0] == '@' {
      assert EncodeSegment(s)[0] == '@';
    } else {
      assert '@' in s[1..] by {
        var k :| 0 <= k < |s| && s[k] == '@';
        assert s[1..][k - 1] == '@';
      }
      EncodeKeepsAt(s[1..]);
      var e := EncodeSegment(s[1..]);
      var k :| 0 <= k < |e| && e[k] == '@';
      assert EncodeSegment(s)[|Escape(s[0])| + k] == '@';
    }
  }

  lemma DecodeEscape(c: char, rest: string)
    ensures PercentDecode(Escape(c) + rest) == match PercentDecode(rest)
                                                case Some(r) => Some([c] + r)
                                                case None => None
  {
    var s := Escape(c) + rest;
    if c == '%' || c == '/' || c == '?' || c == '#' || c == '\\' {
      assert s[0] == '%' && s[3..] == rest;
    } else {
      assert s[0] == c && s[1..] == rest;
    }
  }

  /** Decoding undoes the escaping. */
  lemma {:induction false} DecodeEncode(s: string)
    ensures PercentDecode(EncodeSegment(s)) == Some(s)
  {
    if s != [] {
      DecodeEncode(s[1..]);
      DecodeEscape(s[0], EncodeSegment(s[1..]));
      assert [s[0]] + s[1..] == s;
    }
  }

  lemma EncodedTargetRoutes(email: string)
    requires Validation.IsValidEmail(Trim(email))
    ensures RouteEmail(ResolvePrefix + EncodeSegment(Trim(email))) == Some(Trim(email))
  {
    EncodeInert(Trim(email));
    EncodeKeepsAt(Trim(email));
    AtRoutable(EncodeSegment(Trim(email)));
    PrefixedRoutes(EncodeSegment(Trim(email)));
    DecodeEncode(Trim(email));
  }

  /** A routable segment free of delimiters reaches the route whole and is percent-decoded there. */
  lemma PrefixedRoutes(seg: string)
    requires forall i :: 0 <= i < |seg| ==> Inert(seg[i])
    requires Routable(seg)
    ensures RouteEmail(ResolvePrefix + seg) == PercentDecode(seg)
  {
    PrefixClean();
    PrefixedUnder(ResolvePrefix, seg);
  }

  /** The route's prefix holds neither delimiter. */
  lemma PrefixClean()
    ensures '?' !in ResolvePrefix && '#' !in ResolvePrefix
  {
  }

  lemma PrefixedUnder(prefix: string, seg: string)
    requires '?' !in prefix && '#' !in prefix
    requires forall i :: 0 <= i < |seg| ==> Inert(seg[i])
    requires Routable(seg)
    ensures RouteUnder(prefix, prefix + seg) == PercentDecode(seg)
  {
    assert '?' !in seg && '#' !in seg;
    RouteUnderSegment(prefix, seg, []);
    assert prefix + seg + [] == prefix + seg;
  }

  lemma {:induction false} PathWithoutDelimiters(target: string)
    requires '?' !in target && '#' !in target
    ensures PathPart(target) == target
  {
    if target != [] {
      PathWithoutDelimiters(target[1..]);
    }
  }
}
