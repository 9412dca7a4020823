/** Redirect URIs with a per-request host template, after
    `apps/web/src/lib/client-rules.ts`. The URL parser is a parameter. */
module RedirectTemplate {
  import opened Text

  const HOST_TEMPLATE: string := "{host}"
  const TEMPLATE_PLACEHOLDER: string := "host-template.invalid"

  datatype ClientType = Web | Spa | Native
  datatype Problem = Wildcard | NotAbsolute | Fragment | HttpNotLoopback | PrivateScheme | HostTemplate

  datatype Url = Url(protocol: string, host: string, hostname: string, username: string, password: string, hash: string)

  predicate HasHostTemplate(value: string) {
    Contains(value, HOST_TEMPLATE)
  }

  /** `replace` of the first occurrence by a text without `$`. */
  function ReplaceFirst(s: string, pattern: string, replacement: string): string {
    var i := IndexOf(s, pattern);
    if i < 0 then s else s[..i] + replacement + s[i + |pattern|..]
  }

  /** What a replacement text stands for: `$$`, `$&`, `` $` `` and `$'` are patterns of
      their own, even when the text searched for is a plain string. */
  function Substitute(replacement: string, matched: string, before: string, after: string): string
    decreases |replacement|
  {
    if replacement == "" then ""
    else if IsPatternAt(replacement) then
      (match replacement[1]
       case '$' => "$"
       case '&' => matched
       case '`' => before
       case _ => after)
      + Substitute(replacement[2..], matched, before, after)
    else [replacement[0]] + Substitute(replacement[1..], matched, before, after)
  }

  predicate IsPatternAt(s: string) {
    |s| >= 2 && s[0] == '$' && (s[1] == '$' || s[1] == '&' || s[1] == '`' || s[1] == '\'')
  }

  /** `replaceAll` on the rest of a text, the part in front already done. */
  function ReplaceAllAfter(before: string, rest: string, pattern: string, replacement: string): string
    requires pattern != ""
    decreases |rest|
  {
    var i := IndexOf(rest, pattern);
    if i < 0 then rest
    else
      var behind := rest[i + |pattern|..];
      rest[..i] + Substitute(replacement, pattern, before + rest[..i], behind)
      + ReplaceAllAfter(before + rest[..i + |pattern|], behind, pattern, replacement)
  }

  function ExpandHostTemplate(uri: string, host: string): string {
    ReplaceAllAfter("", uri, HOST_TEMPLATE, host)
  }

  function Candidate(value: string): string {
    if HasHostTemplate(value) then ReplaceFirst(value, HOST_TEMPLATE, TEMPLATE_PLACEHOLDER) else value
  }

  /** The first rule a URI breaks, in the order they are looked at. */
  function CheckRedirectUri(value: string, clientType: ClientType, parse: string -> Option<Url>): Option<Problem> {
    var templated := HasHostTemplate(value);
    var candidate := Candidate(value);
    if '*' in candidate then Some(Wildcard)
    else
      var parsed := parse(candidate);
      if parsed.None? then Some(NotAbsolute)
      else
        var url := parsed.value;
        var wholeHost :=
          url.host == TEMPLATE_PLACEHOLDER && url.username == "" && url.password == "" && !HasHostTemplate(candidate);
        if templated && !wholeHost then Some(HostTemplate)
        else if url.hash != "" || '#' in candidate then Some(Fragment)
        else if url.protocol == "https:" then None
        else if url.protocol == "http:" then
          if url.hostname == "127.0.0.1" || url.hostname == "localhost" || url.hostname == "[::1]"
          then None else Some(HttpNotLoopback)
        else if clientType == Native then None else Some(PrivateScheme)
  }

  // ------------------------------------------------------------- exactly once

  predicate OccursAt(s: string, i: nat) {
    i <= |s| && HOST_TEMPLATE <= s[i..]
  }

  /** The template stands at `i` and nowhere else. */
  ghost predicate OnlyAt(s: string, i: nat) {
    OccursAt(s, i) && forall j: nat | OccursAt(s, j) :: j == i
  }

  lemma OccursIs(s: string, i: nat)
    ensures OccursAt(s, i) <==>
              i + 6 <= |s| && s[i] == '{' && s[i + 1] == 'h' && s[i + 2] == 'o' && s[i + 3] == 's'
              && s[i + 4] == 't' && s[i + 5] == '}'
  {
    if i + 6 <= |s| {
      assert s[i..][..6] == [s[i], s[i + 1], s[i + 2], s[i + 3], s[i + 4], s[i + 5]];
    }
  }

  /** An occurrence behind the first does not overlap it. */
  lemma OccurrencesAreApart(s: string, i: nat, j: nat)
    requires OccursAt(s, i) && OccursAt(s, j) && i < j
    ensures i + 6 <= j
  {
    OccursIs(s, i);
    OccursIs(s, j);
  }

  lemma PlaceholderIsPlain()
    ensures |TEMPLATE_PLACEHOLDER| == 21 && '{' !in TEMPLATE_PLACEHOLDER && '}' !in TEMPLATE_PLACEHOLDER
    ensures '*' !in TEMPLATE_PLACEHOLDER && '#' !in TEMPLATE_PLACEHOLDER
  {
  }

  /** The candidate of a templated value, its first occurrence at `i`. */
  function Replaced(s: string, i: nat): string
    requires i + 6 <= |s|
  {
    s[..i] + TEMPLATE_PLACEHOLDER + s[i + 6..]
  }

  lemma CandidateOccurrence(s: string, i: nat, k: nat)
    requires OccursAt(s, i) && i + 6 <= |s| && forall j | 0 <= j < i :: !OccursAt(s, j)
    requires OccursAt(Replaced(s, i), k)
    ensures k >= i + 21 && OccursAt(s, k - 15)
  {
    var c := Replaced(s, i);
    PlaceholderIsPlain();
    assert forall t | i <= t < i + 21 :: c[t] == TEMPLATE_PLACEHOLDER[t - i];
    assert forall t | i <= t < i + 21 :: c[t] != '{' && c[t] != '}';
    OccursIs(c, k);
    if k + 6 <= i {
      OccursIs(s, k);
    } else {
      OccursIs(s, k - 15);
    }
  }

  lemma LaterOccurrenceStays(s: string, i: nat, j: nat)
    requires OccursAt(s, i) && i + 6 <= |s| && OccursAt(s, j) && j > i
    ensures OccursAt(Replaced(s, i), j + 15)
  {
    PlaceholderIsPlain();
    OccurrencesAreApart(s, i, j);
    assert Replaced(s, i)[j + 15..] == s[j..];
  }

  lemma CandidateIs(s: string, i: nat)
    requires IndexOf(s, HOST_TEMPLATE) == i
    ensures Candidate(s) == Replaced(s, i)
  {
    assert |HOST_TEMPLATE| == 6;
  }

  lemma {:induction false} LaterIsFound(s: string, i: nat, j: nat)
    requires IndexOf(s, HOST_TEMPLATE) == i && j > i && OccursAt(s, j)
    ensures HasHostTemplate(Replaced(s, i))
  {
    LaterOccurrenceStays(s, i, j);
    ContainsAt(Replaced(s, i), HOST_TEMPLATE, j + 15);
  }

  lemma {:induction false} FoundIsLater(s: string, i: nat) returns (j: nat)
    requires IndexOf(s, HOST_TEMPLATE) == i && HasHostTemplate(Replaced(s, i))
    ensures j > i && OccursAt(s, j)
  {
    var k := IndexOf(Replaced(s, i), HOST_TEMPLATE);
    CandidateOccurrence(s, i, k);
    j := k - 15;
  }

  /** Replacing the first occurrence neither creates one nor merges two: what is left over
      is found again, and nothing else is. */
  lemma {:induction false} SecondOccurrence(s: string, i: nat)
    requires IndexOf(s, HOST_TEMPLATE) == i
    ensures HasHostTemplate(Candidate(s)) <==> exists j: nat :: j > i && OccursAt(s, j)
  {
    CandidateIs(s, i);
    if exists j: nat :: j > i && OccursAt(s, j) {
      var j: nat :| j > i && OccursAt(s, j);
      LaterIsFound(s, i, j);
    }
    if HasHostTemplate(Candidate(s)) {
      var j := FoundIsLater(s, i);
    }
  }

  /** "Exactly once", enforced without counting. */
  lemma ExactlyOnce(value: string)
    ensures HasHostTemplate(value) && !HasHostTemplate(Candidate(value)) <==> exists i: nat :: OnlyAt(value, i)
  {
    var i := IndexOf(value, HOST_TEMPLATE);
    if HasHostTemplate(value) {
      assert OccursAt(value, i);
      SecondOccurrence(value, i);
      if !HasHostTemplate(Candidate(value)) {
        assert forall j: nat | OccursAt(value, j) :: j >= i;
        assert OnlyAt(value, i);
      }
    }
    if exists i: nat :: OnlyAt(value, i) {
      var k: nat :| OnlyAt(value, k);
      ContainsAt(value, HOST_TEMPLATE, k);
      assert i == k;
    }
  }

  // --------------------------------------------------------------- expansion

  /** A host in which no `$` starts a pattern. */
  predicate IsLiteral(host: string) {
    forall i | 0 <= i < |host| :: !IsPatternAt(host[i..])
  }

  lemma {:induction false} LiteralStandsForItself(host: string, matched: string, before: string, after: string)
    requires IsLiteral(host)
    ensures Substitute(host, matched, before, after) == host
    decreases |host|
  {
    if host != "" {
      assert host[0..] == host;
      forall i | 0 <= i < |host[1..]| ensures !IsPatternAt(host[1..][i..]) {
        assert host[1..][i..] == host[i + 1..];
      }
      LiteralStandsForItself(host[1..], matched, before, after);
    }
  }

  lemma LiteralTail(host: string)
    requires host != "" && !IsPatternAt(host) && !IsLiteral(host)
    ensures !IsLiteral(host[1..])
  {
    var i :| 0 <= i < |host| && IsPatternAt(host[i..]);
    assert host[0..] == host;
    assert host[1..][i - 1..] == host[i..];
  }

  /** A character with which a pattern may come out as itself, late: the `$` of a `$$`, or
      the end of a pattern that stands for nothing. */
  predicate Lags(c: char, before: string, after: string) {
    c == '$' || (c == '\'' && after == "") || (c == '`' && before == "")
  }

  /** Neither side of the template starts like that. No absolute address does: it starts with
      its scheme, and what follows a host is a port, a path, a query or nothing. */
  predicate SidesArePlain(before: string, after: string) {
    (before != "" ==> !Lags(before[0], before, after)) && (after != "" ==> !Lags(after[0], before, after))
  }

  /** What the pattern in front of a host stands for. */
  function Stands(host: string, matched: string, before: string, after: string): string
    requires IsPatternAt(host)
  {
    match host[1]
    case '$' => "$"
    case '&' => matched
    case '`' => before
    case _ => after
  }

  lemma FirstDiffers(a: string, b: string)
    requires a != "" && b != "" && a[0] != b[0]
    ensures a != b
  {
  }

  /** Behind one character taken off both sides. */
  lemma TakeOff(c: char, s: string, q: string, host: string)
    requires q != "" && [c] + s == q + host
    ensures c == q[0] && s == q[1..] + host
  {
    assert ([c] + s)[0] == c && (q + host)[0] == q[0];
    assert ([c] + s)[1..] == s && (q + host)[1..] == q[1..] + host;
  }

  /** Once the result lags behind the host by some of these characters, it never catches up. */
  lemma {:induction false} NeverCatchesUp(host: string, q: string, before: string, after: string)
    requires SidesArePlain(before, after) && q != "" && forall c | c in q :: Lags(c, before, after)
    ensures Substitute(host, HOST_TEMPLATE, before, after) != q + host
    decreases |host|
  {
    var result := Substitute(host, HOST_TEMPLATE, before, after);
    assert q[0] in q;
    if host == "" {
    } else if IsPatternAt(host) {
      PatternLags(host, q, before, after);
    } else if result == q + host {
      var s := Substitute(host[1..], HOST_TEMPLATE, before, after);
      TakeOff(host[0], s, q, host);
      assert q[1..] + host == (q[1..] + [host[0]]) + host[1..];
      NeverCatchesUp(host[1..], q[1..] + [host[0]], before, after);
    }
  }

  lemma {:induction false} PatternLags(host: string, q: string, before: string, after: string)
    requires SidesArePlain(before, after) && q != "" && forall c | c in q :: Lags(c, before, after)
    requires IsPatternAt(host)
    ensures Substitute(host, HOST_TEMPLATE, before, after) != q + host
    decreases |host|, 0
  {
    var result := Substitute(host, HOST_TEMPLATE, before, after);
    var put, s := Stands(host, HOST_TEMPLATE, before, after), Substitute(host[2..], HOST_TEMPLATE, before, after);
    assert result == put + s && q[0] in q && host == host[..2] + host[2..];
    if put == "" {
      assert put + s == s && q + host == (q + host[..2]) + host[2..];
      NeverCatchesUp(host[2..], q + host[..2], before, after);
    } else if host[1] != '$' {
      assert put[0] != q[0];
      FirstDiffers(result, q + host);
    } else if result == q + host {
      TakeOff('$', s, q, host);
      assert q[1..] + host == (q[1..] + host[..2]) + host[2..];
      NeverCatchesUp(host[2..], q[1..] + host[..2], before, after);
    }
  }

  /** A host with a pattern never comes out as itself. */
  lemma {:induction false} PatternsShow(host: string, before: string, after: string)
    requires SidesArePlain(before, after) && !IsLiteral(host)
    ensures Substitute(host, HOST_TEMPLATE, before, after) != host
    decreases |host|
  {
    if IsPatternAt(host) {
      PatternShows(host, before, after);
    } else {
      LiteralTail(host);
      PatternsShow(host[1..], before, after);
      assert host == [host[0]] + host[1..];
      SameBehind(host[0], Substitute(host[1..], HOST_TEMPLATE, before, after), host[1..]);
    }
  }

  lemma SameBehind(c: char, a: string, b: string)
    ensures [c] + a == [c] + b ==> a == b
  {
    assert ([c] + a)[1..] == a && ([c] + b)[1..] == b;
  }

  lemma {:induction false} PatternShows(host: string, before: string, after: string)
    requires SidesArePlain(before, after) && IsPatternAt(host)
    ensures Substitute(host, HOST_TEMPLATE, before, after) != host
  {
    var put, s := Stands(host, HOST_TEMPLATE, before, after), Substitute(host[2..], HOST_TEMPLATE, before, after);
    assert Substitute(host, HOST_TEMPLATE, before, after) == put + s && host == host[..2] + host[2..];
    if put == "" {
      assert put + s == s;
      NeverCatchesUp(host[2..], host[..2], before, after);
    } else if host[1] != '$' {
      FirstDiffers(put + s, host);
    } else {
      assert host == ['$'] + ("$" + host[2..]);
      NeverCatchesUp(host[2..], "$", before, after);
      SameBehind('$', s, "$" + host[2..]);
    }
  }

  lemma {:induction false} ReplaceNext(
      before: string, piece: string, pattern: string, rest: string, replacement: string)
    requires pattern != "" && IndexOf(piece + pattern + rest, pattern) == |piece|
    ensures ReplaceAllAfter(before, piece + pattern + rest, pattern, replacement)
         == piece + Substitute(replacement, pattern, before + piece, rest)
            + ReplaceAllAfter(before + (piece + pattern), rest, pattern, replacement)
  {
    var s := piece + pattern + rest;
    assert s[..|piece|] == piece && s[..|piece| + |pattern|] == piece + pattern;
    assert s[|piece| + |pattern|..] == rest;
  }

  lemma TextAround(value: string, i: nat)
    requires OccursAt(value, i)
    ensures i + 6 <= |value| && value == value[..i] + HOST_TEMPLATE + value[i + 6..]
  {
    OccursIs(value, i);
    assert value[i..i + 6] == value[i..][..6] == HOST_TEMPLATE;
  }

  lemma OnlyIsFirst(value: string, i: nat)
    requires OnlyAt(value, i)
    ensures IndexOf(value, HOST_TEMPLATE) == i
  {
    var k := IndexOf(value, HOST_TEMPLATE);
    ContainsAt(value, HOST_TEMPLATE, i);
    assert OccursAt(value, k);
  }

  lemma NoneBehind(value: string, i: nat)
    requires OnlyAt(value, i) && i + 6 <= |value|
    ensures IndexOf(value[i + 6..], HOST_TEMPLATE) < 0
  {
    var k := IndexOf(value[i + 6..], HOST_TEMPLATE);
    if k >= 0 {
      assert value[i + 6..][k..] == value[i + 6 + k..];
      assert OccursAt(value, i + 6 + k);
    }
  }

  lemma ExpandOnly(value: string, i: nat, host: string)
    requires OnlyAt(value, i)
    ensures ExpandHostTemplate(value, host)
         == value[..i] + Substitute(host, HOST_TEMPLATE, value[..i], value[i + 6..]) + value[i + 6..]
  {
    TextAround(value, i);
    OnlyIsFirst(value, i);
    NoneBehind(value, i);
    ReplaceNext("", value[..i], HOST_TEMPLATE, value[i + 6..], host);
    assert "" + value[..i] == value[..i];
  }

  /** The pieces with the same text between any two. */
  function Filled(pieces: seq<string>, between: string): string
    requires pieces != []
  {
    if |pieces| == 1 then pieces[0] else pieces[0] + between + Filled(pieces[1..], between)
  }

  lemma FirstTemplate(piece: string, rest: string)
    requires !HasHostTemplate(piece)
    ensures IndexOf(piece + HOST_TEMPLATE + rest, HOST_TEMPLATE) == |piece|
  {
    var s := piece + HOST_TEMPLATE + rest;
    assert s[|piece|..] == HOST_TEMPLATE + rest;
    OccursIs(s, |piece|);
    forall j: nat | j < |piece| ensures !OccursAt(s, j) {
      assert !OccursAt(piece, j);
      OccursIs(s, j);
      OccursIs(piece, j);
    }
    assert forall j | 0 <= j < |piece| :: !OccursAt(s, j) ==> !(HOST_TEMPLATE <= s[j..]);
    IndexOfIs(s, HOST_TEMPLATE, |piece|);
  }

  /** In any text every occurrence of the template gives way to a literal host, however many
      there are and whatever stands in front. */
  lemma {:induction false} EveryTemplateIsFilled(before: string, pieces: seq<string>, host: string)
    requires pieces != [] && IsLiteral(host) && forall p | p in pieces :: !HasHostTemplate(p)
    ensures ReplaceAllAfter(before, Filled(pieces, HOST_TEMPLATE), HOST_TEMPLATE, host) == Filled(pieces, host)
    decreases |pieces|
  {
    assert pieces[0] in pieces;
    if |pieces| > 1 {
      var rest := Filled(pieces[1..], HOST_TEMPLATE);
      FirstTemplate(pieces[0], rest);
      ReplaceNext(before, pieces[0], HOST_TEMPLATE, rest, host);
      LiteralStandsForItself(host, HOST_TEMPLATE, before + pieces[0], rest);
      EveryTemplateIsFilled(before + (pieces[0] + HOST_TEMPLATE), pieces[1..], host);
    }
  }

  lemma FilledFront(piece: string, rest: seq<string>, between: string)
    requires rest != []
    ensures Filled([piece] + rest, between) == piece + between + Filled(rest, between)
  {
    assert ([piece] + rest)[1..] == rest;
  }

  lemma {:induction false} TakeApart(text: string) returns (pieces: seq<string>)
    ensures pieces != [] && Filled(pieces, HOST_TEMPLATE) == text
    ensures forall p | p in pieces :: !HasHostTemplate(p)
    decreases |text|
  {
    var i := IndexOf(text, HOST_TEMPLATE);
    if i < 0 {
      pieces := [text];
    } else {
      TextAround(text, i);
      NoneInFront(text, i);
      var rest := TakeApart(text[i + 6..]);
      FilledFront(text[..i], rest, HOST_TEMPLATE);
      pieces := [text[..i]] + rest;
    }
  }

  lemma NoOccurrence(text: string)
    requires forall k: nat :: !OccursAt(text, k)
    ensures !HasHostTemplate(text)
  {
    var k := IndexOf(text, HOST_TEMPLATE);
    assert k < 0 || !OccursAt(text, k);
  }

  lemma NoneInFront(text: string, i: nat)
    requires IndexOf(text, HOST_TEMPLATE) == i
    ensures !HasHostTemplate(text[..i])
  {
    forall k: nat ensures !OccursAt(text[..i], k) {
      if OccursAt(text[..i], k) {
        PrefixKeeps(text, i, k);
      }
    }
    NoOccurrence(text[..i]);
  }

  lemma PrefixKeeps(text: string, i: nat, k: nat)
    requires i <= |text| && OccursAt(text[..i], k)
    ensures k < i && OccursAt(text, k)
  {
    OccursIs(text[..i], k);
    assert text[..i][k..][..6] == text[k..][..6];
  }

  /** Every URI comes apart at its templates, and with a literal host the expansion is the
      same pieces with the host between them. */
  lemma ExpansionFillsEveryTemplate(uri: string, host: string) returns (pieces: seq<string>)
    requires IsLiteral(host)
    ensures pieces != [] && forall p | p in pieces :: !HasHostTemplate(p)
    ensures uri == Filled(pieces, "{host}") && ExpandHostTemplate(uri, host) == Filled(pieces, host)
  {
    pieces := TakeApart(uri);
    EveryTemplateIsFilled("", pieces, host);
  }

  lemma SameBetween(before: string, a: string, b: string, after: string)
    ensures before + a + after == before + b + after <==> a == b
  {
    var n := |before|;
    assert (before + a + after)[n..n + |a|] == a && (before + b + after)[n..n + |b|] == b;
  }

  /** A host is put in as it is exactly when none of its own `$` starts a pattern; the address
      may have a `$` anywhere but in front and right behind the template. */
  lemma ExpansionIsLiteralIff(value: string, i: nat, host: string)
    requires OnlyAt(value, i) && i + 6 <= |value| && SidesArePlain(value[..i], value[i + 6..])
    ensures ExpandHostTemplate(value, host) == value[..i] + host + value[i + 6..] <==> IsLiteral(host)
  {
    ExpandOnly(value, i, host);
    var before, after := value[..i], value[i + 6..];
    SameBetween(before, Substitute(host, HOST_TEMPLATE, before, after), host, after);
    if IsLiteral(host) {
      LiteralStandsForItself(host, HOST_TEMPLATE, before, after);
    } else {
      PatternsShow(host, before, after);
    }
  }

  /** In front, it may not: here a pattern stands for itself. */
  lemma PatternStandsForItself(host: string, after: string)
    requires host == "$`"
    ensures !IsLiteral(host) && Substitute(host, HOST_TEMPLATE, host, after) == host
  {
    assert host[0..] == host && IsPatternAt(host) && host[2..] == "";
    assert host + "" == host;
  }

  /** An accepted templated URI holds the template once and no `*` or `#`; for every host
      that no `$` pattern spoils, expanding it is prefix, host, suffix. */
  lemma AcceptedExpandsInPlace(value: string, clientType: ClientType, parse: string -> Option<Url>, host: string)
      returns (i: nat)
    requires CheckRedirectUri(value, clientType, parse).None? && HasHostTemplate(value)
    ensures OnlyAt(value, i) && i + 6 <= |value| && value == value[..i] + HOST_TEMPLATE + value[i + 6..]
    ensures '*' !in value && '#' !in value
    ensures IsLiteral(host) ==> ExpandHostTemplate(value, host) == value[..i] + host + value[i + 6..]
    ensures SidesArePlain(value[..i], value[i + 6..]) ==>
              (ExpandHostTemplate(value, host) == value[..i] + host + value[i + 6..] <==> IsLiteral(host))
  {
    ExactlyOnce(value);
    i :| OnlyAt(value, i);
    OccursIs(value, i);
    AcceptedHasNoMarks(value, i);
    ExpandOnly(value, i, host);
    if IsLiteral(host) {
      LiteralStandsForItself(host, HOST_TEMPLATE, value[..i], value[i + 6..]);
    } else if SidesArePlain(value[..i], value[i + 6..]) {
      ExpansionIsLiteralIff(value, i, host);
    }
  }

  /** The scheme rules. */
  predicate SchemeAllowed(url: Url, clientType: ClientType) {
    || url.protocol == "https:"
    || (url.protocol == "http:" && url.hostname in ["127.0.0.1", "localhost", "[::1]"])
    || (url.protocol != "http:" && clientType == Native)
  }

  /** The rule, said about the value itself: no wildcard, no fragment, a scheme the client
      may use, and a template, if any, once and for the whole host. */
  ghost predicate Acceptable(value: string, clientType: ClientType, parse: string -> Option<Url>) {
    && '*' !in value && '#' !in value
    && parse(Candidate(value)).Some?
    && var url := parse(Candidate(value)).value;
       && url.hash == "" && SchemeAllowed(url, clientType)
       && (HasHostTemplate(value) ==>
             && (exists i: nat :: OnlyAt(value, i))
             && url.host == TEMPLATE_PLACEHOLDER && url.username == "" && url.password == "")
  }

  lemma {:induction false} MarksOfCandidate(value: string, c: char)
    requires c == '*' || c == '#'
    ensures c in Candidate(value) <==> c in value
  {
    if HasHostTemplate(value) {
      var i := IndexOf(value, HOST_TEMPLATE);
      PlaceholderIsPlain();
      assert c !in HOST_TEMPLATE && c !in TEMPLATE_PLACEHOLDER;
      var before, after := value[..i], value[i + 6..];
      assert OccursAt(value, i);
      OccursIs(value, i);
      assert value == before + HOST_TEMPLATE + after;
      assert Candidate(value) == before + TEMPLATE_PLACEHOLDER + after;
    }
  }

  /** A URI is accepted exactly when it is acceptable. */
  lemma {:induction false} AcceptedIffAcceptable(value: string, clientType: ClientType, parse: string -> Option<Url>)
    ensures CheckRedirectUri(value, clientType, parse).None? <==> Acceptable(value, clientType, parse)
  {
    MarksOfCandidate(value, '*');
    MarksOfCandidate(value, '#');
    TemplateOnce(value);
  }

  lemma TemplateOnce(value: string)
    ensures HasHostTemplate(value) ==> (HasHostTemplate(Candidate(value)) <==> !exists i: nat :: OnlyAt(value, i))
  {
    ExactlyOnce(value);
  }

  /** Which problem is named: the first of these that applies. */
  lemma ProblemIs(value: string, clientType: ClientType, parse: string -> Option<Url>)
    ensures var problem := CheckRedirectUri(value, clientType, parse);
            && (problem == Some(Wildcard) <==> '*' in value)
            && (problem == Some(NotAbsolute) <==> '*' !in value && parse(Candidate(value)).None?)
            && (problem == Some(HostTemplate) ==> HasHostTemplate(value))
            && (problem == Some(HttpNotLoopback) ==> parse(Candidate(value)).value.protocol == "http:")
            && (problem == Some(PrivateScheme) ==> clientType != Native)
            && (problem == Some(Fragment) ==>
                  '#' in value || parse(Candidate(value)).value.hash != "")
  {
    MarksOfCandidate(value, '*');
    MarksOfCandidate(value, '#');
  }

  lemma AcceptedHasNoMarks(value: string, i: nat)
    requires OnlyAt(value, i) && '*' !in Candidate(value) && '#' !in Candidate(value)
    ensures i + 6 <= |value| && value == value[..i] + HOST_TEMPLATE + value[i + 6..]
    ensures '*' !in value && '#' !in value
  {
    OccursIs(value, i);
    ContainsAt(value, HOST_TEMPLATE, i);
    var k := IndexOf(value, HOST_TEMPLATE);
    assert OccursAt(value, k) && k == i;
    assert Candidate(value) == value[..i] + TEMPLATE_PLACEHOLDER + value[i + 6..];
    assert value == value[..i] + HOST_TEMPLATE + value[i + 6..];
    assert '*' !in HOST_TEMPLATE && '#' !in HOST_TEMPLATE;
  }

  /** A host with a doubled `$` is not put in as it is. */
  lemma DoubledDollarIsNotLiteral(value: string, i: nat, host: string)
    requires OnlyAt(value, i) && host == "a$$b"
    ensures ExpandHostTemplate(value, host) == value[..i] + "a$b" + value[i + 6..]
  {
    ExpandOnly(value, i, host);
    var before, after := value[..i], value[i + 6..];
    assert host[1..] == "$$b" && "$$b"[2..] == "b" && "b"[1..] == "";
    assert Substitute("", HOST_TEMPLATE, before, after) == "";
    assert Substitute("b", HOST_TEMPLATE, before, after) == "b";
    assert Substitute("$$b", HOST_TEMPLATE, before, after) == "$" + "b" == "$b";
    assert Substitute(host, HOST_TEMPLATE, before, after) == "a" + "$b" == "a$b";
  }
}
