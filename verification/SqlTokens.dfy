/** A token view of SQL text, and the proof that on tokens which keep to themselves the four
    stripping passes of `SqlNoise` replace exactly the comments, literals and identifiers. */
module SqlTokens {
  import opened Text
  import opened SqlNoise

  datatype Segment =
    | Code(text: string)
    | Str(body: string)
    | Ident(body: string)
    | LineComment(body: string)
    | BlockComment(body: string)

  /** No `x` directly in front of a `y`. */
  predicate NoPair(s: string, x: char, y: char) {
    forall i | 0 <= i < |s| - 1 :: !(s[i] == x && s[i + 1] == y)
  }

  /** No comment mark is formed. */
  predicate NoMarks(s: string) {
    NoPair(s, '-', '-') && NoPair(s, '/', '*')
  }

  /** Ordinary characters and doubled quotes. */
  predicate IsQuotedBody(s: string, quote: char) {
    || s == ""
    || (s[0] != quote && IsQuotedBody(s[1..], quote))
    || (|s| >= 2 && s[0] == quote && s[1] == quote && IsQuotedBody(s[2..], quote))
  }

  /** What the characters of a token may be, by the language's own rules; lines in it end as
      they do for the patterns. */
  predicate SegmentOk(seg: Segment) {
    match seg
    case Code(text) => text != "" && '\'' !in text && '"' !in text && NoMarks(text)
    case Str(body) => IsQuotedBody(body, '\'')
    case Ident(body) => IsQuotedBody(body, '"')
    case LineComment(body) => OneLine(body)
    case BlockComment(body) => NoPair(body, '*', '/')
  }

  predicate OneLine(s: string) {
    forall i | 0 <= i < |s| :: !IsLineEnd(s[i])
  }

  /** Neighbours that keep their boundary in the printed text. */
  predicate NeighboursOk(a: Segment, b: Segment) {
    && (a.LineComment? ==> b.Code? && b.text != "" && (b.text[0] == '\n' || b.text[0] == '\r'))
    && (a.Code? && a.text != "" ==> !b.Code? && (b.LineComment? ==> a.text[|a.text| - 1] != '-'))
    && !(a.Str? && b.Str?)
    && !(a.Ident? && b.Ident?)
  }

  predicate Legal(segs: seq<Segment>) {
    && (forall i | 0 <= i < |segs| :: SegmentOk(segs[i]))
    && (forall i | 0 <= i < |segs| - 1 :: NeighboursOk(segs[i], segs[i + 1]))
  }

  // ---------------------------------------------------- tokens that keep to themselves

  predicate DashesAt(s: string, i: int) {
    0 <= i < |s| - 1 && s[i] == '-' && s[i + 1] == '-' && OneLine(s[i..])
  }

  /** Two dashes with no line end behind them. */
  ghost predicate DashesOnLastLine(s: string) {
    exists i :: DashesAt(s, i)
  }

  /** Every opening mark finds a closing one. */
  predicate BlocksClose(s: string)
    decreases |s|
  {
    if s == "" then true
    else if "/*" <= s then
      var close := IndexOf(s[2..], "*/");
      close >= 0 && BlocksClose(s[2 + close + 2..])
    else BlocksClose(s[1..])
  }

  function Occurrences(s: string, c: char): nat {
    if s == "" then 0 else (if s[0] == c then 1 else 0) + Occurrences(s[1..], c)
  }

  /** What the first passes leave of a quoted body. */
  function Reduced(body: string, pass: nat): string {
    if pass == 0 then body
    else if pass == 1 then StripLineComments(body)
    else if pass == 2 then StripBlockComments(StripLineComments(body))
    else StripQuoted(StripBlockComments(StripLineComments(body)), '\'')
  }

  /** No pass takes a part of this token for the start of something that ends elsewhere. */
  ghost predicate Harmless(seg: Segment) {
    match seg
    case Code(_) => true
    case LineComment(_) => true
    case BlockComment(body) => !DashesOnLastLine(body)
    case Str(body) => !DashesOnLastLine(body) && BlocksClose(Reduced(body, 1))
    case Ident(body) =>
      !DashesOnLastLine(body) && BlocksClose(Reduced(body, 1)) && Occurrences(Reduced(body, 2), '\'') % 2 == 0
  }

  ghost predicate AllHarmless(segs: seq<Segment>) {
    forall i | 0 <= i < |segs| :: Harmless(segs[i])
  }

  /** The text of a segment once the first `pass` passes have run. */
  function Show(seg: Segment, pass: nat): string {
    match seg
    case Code(text) => text
    case LineComment(body) => if pass >= 1 then " " else "--" + body
    case BlockComment(body) => if pass >= 2 then " " else "/*" + Reduced(body, pass) + "*/"
    case Str(body) => if pass >= 3 then "''" else ['\''] + Reduced(body, pass) + ['\'']
    case Ident(body) => if pass >= 4 then "\"\"" else ['"'] + Reduced(body, pass) + ['"']
  }

  function ShowAll(segs: seq<Segment>, pass: nat): string {
    if segs == [] then "" else Show(segs[0], pass) + ShowAll(segs[1..], pass)
  }

  /** The query text the segments make up. */
  function Print(segs: seq<Segment>): string {
    ShowAll(segs, 0)
  }

  lemma TailLegal(segs: seq<Segment>)
    requires Legal(segs) && segs != []
    ensures Legal(segs[1..])
    ensures |segs| > 1 ==> NeighboursOk(segs[0], segs[1])
  {
    forall i | 0 <= i < |segs[1..]| - 1 ensures NeighboursOk(segs[1..][i], segs[1..][i + 1]) {
      assert NeighboursOk(segs[i + 1], segs[i + 2]);
    }
  }

  // ------------------------------------------------------- patterns at a boundary

  /** Every match in `p` is the same whatever follows, and ends in `p`. */
  ghost predicate Contained(m: Pattern, p: string, rest: string)
    decreases |p|
  {
    p == "" ||
    (m(p + rest) == m(p) <= |p| && Contained(m, p[if m(p) == 0 then 1 else m(p)..], rest))
  }

  lemma {:induction false} ReplaceStep(m: Pattern, replacement: string, s: string, n: nat)
    requires s != "" && n == m(s) <= |s|
    ensures ReplaceAll(m, replacement, s)
         == (if n == 0 then [s[0]] else replacement) + ReplaceAll(m, replacement, s[if n == 0 then 1 else n..])
  {
  }

  lemma {:induction false} SplitStep(m: Pattern, replacement: string, p: string, rest: string, cut: nat)
    requires p != "" && m(p + rest) == m(p) <= |p| && cut == if m(p) == 0 then 1 else m(p)
    requires ReplaceAll(m, replacement, p[cut..] + rest)
          == ReplaceAll(m, replacement, p[cut..]) + ReplaceAll(m, replacement, rest)
    ensures ReplaceAll(m, replacement, p + rest) == ReplaceAll(m, replacement, p) + ReplaceAll(m, replacement, rest)
  {
    var put := if m(p) == 0 then [p[0]] else replacement;
    ReplaceStep(m, replacement, p, m(p));
    ReplaceStep(m, replacement, p + rest, m(p));
    assert (p + rest)[cut..] == p[cut..] + rest && (p + rest)[0] == p[0];
    Associate(put, ReplaceAll(m, replacement, p[cut..]), ReplaceAll(m, replacement, rest));
  }

  lemma {:induction false} ContainedSplits(m: Pattern, replacement: string, p: string, rest: string)
    requires Contained(m, p, rest)
    ensures ReplaceAll(m, replacement, p + rest) == ReplaceAll(m, replacement, p) + ReplaceAll(m, replacement, rest)
    decreases |p|
  {
    if p == "" {
      assert p + rest == rest;
    } else {
      var cut := if m(p) == 0 then 1 else m(p);
      ContainedSplits(m, replacement, p[cut..], rest);
      SplitStep(m, replacement, p, rest, cut);
    }
  }

  lemma Associate(a: string, b: string, c: string)
    ensures a + (b + c) == a + b + c
  {
  }

  /** A character at which the pattern does not match is copied. */
  lemma CopyOne(m: Pattern, replacement: string, c: char, rest: string)
    requires m([c] + rest) == 0
    ensures ReplaceAll(m, replacement, [c] + rest) == [c] + ReplaceAll(m, replacement, rest)
  {
    assert ([c] + rest)[1..] == rest;
  }

  /** The pattern never matches where this character stands. */
  ghost predicate Ignores(m: Pattern, c: char) {
    forall t: string | t != "" && t[0] == c :: m(t) == 0
  }

  lemma Regroup(a: string, b: string, c: string, d: string)
    ensures a + b + c + d == a + (b + (c + d))
  {
  }

  /** The pattern passes over a quoted text and leaves the quotes where they are. */
  lemma {:induction false} PassesOver(m: Pattern, replacement: string, quote: char, body: string, rest: string)
    requires Ignores(m, quote) && Contained(m, body, [quote] + rest)
    ensures ReplaceAll(m, replacement, [quote] + body + [quote] + rest)
         == [quote] + ReplaceAll(m, replacement, body) + [quote] + ReplaceAll(m, replacement, rest)
  {
    var q := [quote];
    Regroup(q, body, q, rest);
    CopyOne(m, replacement, quote, body + (q + rest));
    ContainedSplits(m, replacement, body, q + rest);
    CopyOne(m, replacement, quote, rest);
    Regroup(q, ReplaceAll(m, replacement, body), q, ReplaceAll(m, replacement, rest));
  }

  /** Matches neither begin at a quote nor end between two. */
  ghost predicate KeepsQuotes(m: Pattern, quote: char) {
    forall t | 0 < m(t) <= |t| ::
      t[0] != quote && (t[m(t) - 1] != quote || m(t) == |t| || t[m(t)] != quote)
  }

  lemma {:induction false} QuotedSuffix(s: string, quote: char, n: nat)
    requires IsQuotedBody(s, quote) && 0 < n <= |s|
    requires s[n - 1] != quote || n == |s| || s[n] != quote
    ensures IsQuotedBody(s[n..], quote)
    decreases |s|
  {
    if s[0] != quote {
      if n > 1 {
        QuotedSuffix(s[1..], quote, n - 1);
        assert s[1..][n - 1..] == s[n..];
      }
    } else if n > 2 {
      QuotedSuffix(s[2..], quote, n - 2);
      assert s[2..][n - 2..] == s[n..];
    }
  }

  lemma {:induction false} QuotedAppend(a: string, b: string, quote: char)
    requires IsQuotedBody(a, quote) && IsQuotedBody(b, quote)
    ensures IsQuotedBody(a + b, quote)
    decreases |a|
  {
    if a == "" {
      assert a + b == b;
    } else if a[0] != quote {
      QuotedAppend(a[1..], b, quote);
      assert (a + b)[1..] == a[1..] + b;
    } else {
      QuotedAppend(a[2..], b, quote);
      assert (a + b)[2..] == a[2..] + b;
    }
  }

  lemma {:induction false} PlainIsQuoted(s: string, quote: char)
    requires quote !in s
    ensures IsQuotedBody(s, quote)
  {
    if s != "" { PlainIsQuoted(s[1..], quote); }
  }

  /** A quoted body stays one. */
  lemma {:induction false} ReplaceKeepsQuoted(m: Pattern, replacement: string, quote: char, s: string)
    requires KeepsQuotes(m, quote) && quote !in replacement && IsQuotedBody(s, quote)
    ensures IsQuotedBody(ReplaceAll(m, replacement, s), quote)
    decreases |s|
  {
    if s != "" {
      var n := m(s);
      if 0 < n <= |s| {
        QuotedSuffix(s, quote, n);
        ReplaceKeepsQuoted(m, replacement, quote, s[n..]);
        PlainIsQuoted(replacement, quote);
        QuotedAppend(replacement, ReplaceAll(m, replacement, s[n..]), quote);
      } else if s[0] != quote {
        ReplaceKeepsQuoted(m, replacement, quote, s[1..]);
        PlainIsQuoted([s[0]], quote);
        QuotedAppend([s[0]], ReplaceAll(m, replacement, s[1..]), quote);
      } else {
        QuotePairStays(m, replacement, quote, s);
        ReplaceKeepsQuoted(m, replacement, quote, s[2..]);
        QuotedAppend([quote, quote], ReplaceAll(m, replacement, s[2..]), quote);
      }
    }
  }

  lemma {:induction false} QuotePairStays(m: Pattern, replacement: string, quote: char, s: string)
    requires KeepsQuotes(m, quote) && |s| >= 2 && s[0] == quote && s[1] == quote
    ensures ReplaceAll(m, replacement, s) == [quote, quote] + ReplaceAll(m, replacement, s[2..])
  {
    assert s[1..][1..] == s[2..];
    assert s == [quote] + s[1..] && s[1..] == [quote] + s[2..];
    var r := ReplaceAll(m, replacement, s[2..]);
    assert ReplaceAll(m, replacement, s[1..]) == [quote] + r;
    assert [quote] + ([quote] + r) == [quote, quote] + r;
  }

  // ------------------------------------------------------------- line comments

  lemma PairAt(s: string, i: nat, x: char, y: char)
    requires i <= |s|
    ensures [x, y] <= s[i..] <==> i + 1 < |s| && s[i] == x && s[i + 1] == y
  {
    if i + 1 < |s| {
      assert s[i..][0] == s[i] && s[i..][1] == s[i + 1];
      assert s[i..][..2] == [s[i], s[i + 1]];
    }
  }

  /** No pair inside `front` nor across its end. */
  lemma NoPairFront(front: string, rest: string, x: char, y: char)
    requires NoPair(front, x, y)
    requires front != "" && rest != "" ==> front[|front| - 1] != x || rest[0] != y
    ensures forall i | 0 <= i < |front| :: !([x, y] <= (front + rest)[i..])
  {
    forall i | 0 <= i < |front| ensures !([x, y] <= (front + rest)[i..]) {
      PairAt(front + rest, i, x, y);
    }
  }

  lemma {:induction false} LineLengthIs(body: string, rest: string)
    requires forall i | 0 <= i < |body| :: !IsLineEnd(body[i])
    requires rest == "" || IsLineEnd(rest[0])
    ensures LineLength(body + rest) == |body|
  {
    if body == "" {
      assert body + rest == rest;
    } else {
      assert (body + rest)[1..] == body[1..] + rest;
      LineLengthIs(body[1..], rest);
    }
  }

  lemma LineCommentStep(body: string, rest: string)
    requires forall i | 0 <= i < |body| :: !IsLineEnd(body[i])
    requires rest == "" || IsLineEnd(rest[0])
    ensures StripLineComments("--" + body + rest) == " " + StripLineComments(rest)
  {
    var hit := "--" + body;
    LineLengthIs(body, rest);
    assert (hit + rest)[2..] == body + rest && (hit + rest)[..2] == "--";
    ReplaceHit(MatchLineComment, " ", hit, rest);
  }

  lemma LineCommentSkip(text: string, rest: string)
    requires NoPair(text, '-', '-')
    requires text != "" && rest != "" ==> text[|text| - 1] != '-' || rest[0] != '-'
    ensures StripLineComments(text + rest) == text + StripLineComments(rest)
  {
    NoPairFront(text, rest, '-', '-');
    assert ['-', '-'] == "--";
    ReplaceSkip(MatchLineComment, " ", text, rest);
  }

  lemma {:induction false} LineLengthStops(s: string)
    ensures OneLine(s[..LineLength(s)])
    ensures LineLength(s) < |s| ==> IsLineEnd(s[LineLength(s)])
  {
    if s != "" && !IsLineEnd(s[0]) {
      LineLengthStops(s[1..]);
      assert s[..LineLength(s)] == [s[0]] + s[1..][..LineLength(s[1..])];
    }
  }

  /** A line that ends in `s` has the same length whatever follows. */
  lemma {:induction false} LineLengthBefore(s: string, rest: string)
    requires !OneLine(s)
    ensures LineLength(s + rest) == LineLength(s) < |s|
  {
    var n := LineLength(s);
    LineLengthStops(s);
    assert s[..|s|] == s;
    assert s + rest == s[..n] + (s[n..] + rest);
    LineLengthIs(s[..n], s[n..] + rest);
  }

  lemma {:induction false} DashesBehind(s: string, n: nat)
    requires n <= |s| && DashesOnLastLine(s[n..])
    ensures DashesOnLastLine(s)
  {
    var i :| DashesAt(s[n..], i);
    assert s[n..][i..] == s[n + i..];
    assert DashesAt(s, n + i);
  }

  /** Without dashes on its last line, a text keeps its line comments to itself. */
  lemma {:induction false} DashesContained(p: string, rest: string)
    requires !DashesOnLastLine(p)
    requires p != "" && rest != "" ==> p[|p| - 1] != '-' || rest[0] != '-'
    ensures Contained(MatchLineComment, p, rest)
    decreases |p|
  {
    if p != "" {
      var n := MatchLineComment(p);
      DashesMatch(p, rest);
      var cut := if n == 0 then 1 else n;
      if DashesOnLastLine(p[cut..]) { DashesBehind(p, cut); }
      DashesContained(p[cut..], rest);
    }
  }

  lemma {:induction false} DashesMatch(p: string, rest: string)
    requires p != "" && !DashesOnLastLine(p)
    requires rest != "" ==> p[|p| - 1] != '-' || rest[0] != '-'
    ensures MatchLineComment(p + rest) == MatchLineComment(p) <= |p|
  {
    FrontPair(p, rest, '-', '-');
    assert ['-', '-'] == "--";
    if "--" <= p {
      assert !DashesAt(p, 0) && p[0..] == p;
      assert p[0] == '-' && p[1] == '-' && p == ['-', '-'] + p[2..];
      assert !OneLine(p[2..]);
      LineLengthBefore(p[2..], rest);
      assert (p + rest)[2..] == p[2..] + rest;
    }
  }

  /** A pair in front of a text is seen in the text alone, unless it straddles the end. */
  lemma FrontPair(p: string, rest: string, x: char, y: char)
    requires p != "" && (rest != "" ==> p[|p| - 1] != x || rest[0] != y)
    ensures [x, y] <= p + rest <==> [x, y] <= p
  {
    assert p[0..] == p && (p + rest)[0..] == p + rest;
    PairAt(p, 0, x, y);
    PairAt(p + rest, 0, x, y);
  }

  lemma LineKeepsQuotes(quote: char)
    requires quote == '\'' || quote == '"'
    ensures KeepsQuotes(MatchLineComment, quote)
  {
    forall t | 0 < MatchLineComment(t) <= |t|
      ensures var n := MatchLineComment(t); t[0] != quote && (n == |t| || t[n] != quote)
    {
      assert t[0] == '-';
      LineLengthStops(t[2..]);
    }
  }

  lemma {:induction false} StripLinesKeepsNoPair(s: string, x: char, y: char)
    requires NoPair(s, x, y) && x != ' ' && y != ' '
    ensures NoPair(StripLineComments(s), x, y)
    ensures var t := StripLineComments(s); s != "" ==> t != "" && (t[0] == s[0] || t[0] == ' ')
    decreases |s|
  {
    if s != "" {
      var n := MatchLineComment(s);
      StripLinesKeepsNoPair(s[if n == 0 then 1 else n..], x, y);
    }
  }

  // ------------------------------------------------------------ block comments

  lemma BlockEnd(body: string, rest: string)
    requires NoPair(body, '*', '/')
    ensures IndexOf(body + "*/" + rest, "*/") == |body|
  {
    var s := body + "*/" + rest;
    PairAt(s, |body|, '*', '/');
    assert ['*', '/'] == "*/";
    forall j | 0 <= j < |body| ensures !("*/" <= s[j..]) {
      PairAt(s, j, '*', '/');
    }
    IndexOfIs(s, "*/", |body|);
  }

  lemma BlockCommentStep(body: string, rest: string)
    requires NoPair(body, '*', '/')
    ensures StripBlockComments("/*" + body + "*/" + rest) == " " + StripBlockComments(rest)
  {
    var hit := "/*" + body + "*/";
    BlockEnd(body, rest);
    assert (hit + rest)[2..] == body + "*/" + rest && (hit + rest)[..2] == "/*";
    ReplaceHit(MatchBlockComment, " ", hit, rest);
  }

  lemma BlockCommentSkip(text: string, rest: string)
    requires NoPair(text, '/', '*')
    requires text != "" && rest != "" ==> text[|text| - 1] != '/' || rest[0] != '*'
    ensures StripBlockComments(text + rest) == text + StripBlockComments(rest)
  {
    NoPairFront(text, rest, '/', '*');
    assert ['/', '*'] == "/*";
    ReplaceSkip(MatchBlockComment, " ", text, rest);
  }

  /** The first closing mark in a text is the first one whatever follows. */
  lemma CloseBefore(s: string, rest: string)
    requires IndexOf(s, "*/") >= 0
    ensures IndexOf(s + rest, "*/") == IndexOf(s, "*/")
  {
    var i := IndexOf(s, "*/");
    PairAt(s, i, '*', '/');
    PairAt(s + rest, i, '*', '/');
    assert ['*', '/'] == "*/";
    forall j | 0 <= j < i ensures !("*/" <= (s + rest)[j..]) {
      PairAt(s, j, '*', '/');
      PairAt(s + rest, j, '*', '/');
    }
    IndexOfIs(s + rest, "*/", i);
  }

  /** An opening mark in front, if there is one, finds its closing one in `p`. */
  predicate ClosesInFront(p: string) {
    "/*" <= p ==> IndexOf(p[2..], "*/") >= 0
  }

  lemma OpeningMatch(s: string)
    ensures MatchBlockComment("/*" + s) == if IndexOf(s, "*/") < 0 then 0 else IndexOf(s, "*/") + 4
  {
    assert ("/*" + s)[2..] == s && ("/*" + s)[..2] == "/*";
  }

  lemma BlockFront(s: string)
    ensures "/*" <= s <==> |s| >= 2 && s[0] == '/' && s[1] == '*'
  {
  }

  lemma {:induction false} ClosedMatch(s: string, rest: string)
    requires IndexOf(s, "*/") >= 0
    ensures MatchBlockComment("/*" + s + rest) == MatchBlockComment("/*" + s) <= |s| + 2
  {
    CloseBefore(s, rest);
    OpeningMatch(s);
    OpeningMatch(s + rest);
    Associate("/*", s, rest);
  }

  lemma {:induction false} BlockMatch(p: string, rest: string)
    requires p != "" && ClosesInFront(p)
    requires rest != "" ==> p[|p| - 1] != '/' || rest[0] != '*'
    ensures MatchBlockComment(p + rest) == MatchBlockComment(p) <= |p|
  {
    BlockFront(p);
    if "/*" <= p {
      assert p == "/*" + p[2..];
      ClosedMatch(p[2..], rest);
    } else {
      BlockFront(p + rest);
    }
  }

  lemma {:induction false} BlocksCloseBehind(p: string)
    requires p != "" && BlocksClose(p)
    ensures ClosesInFront(p)
    ensures var n := MatchBlockComment(p); n <= |p| && BlocksClose(p[if n == 0 then 1 else n..])
  {
  }

  lemma {:induction false} BlocksContained(p: string, rest: string)
    requires BlocksClose(p)
    requires p != "" && rest != "" ==> p[|p| - 1] != '/' || rest[0] != '*'
    ensures Contained(MatchBlockComment, p, rest)
    decreases |p|
  {
    if p != "" {
      BlocksCloseBehind(p);
      BlockMatch(p, rest);
      var behind := p[if MatchBlockComment(p) == 0 then 1 else MatchBlockComment(p)..];
      assert behind != "" ==> behind[|behind| - 1] == p[|p| - 1];
      BlocksContained(behind, rest);
      ContainedOn(MatchBlockComment, p, rest);
    }
  }

  lemma ContainedOn(m: Pattern, p: string, rest: string)
    requires p != "" && m(p + rest) == m(p) <= |p| && Contained(m, p[if m(p) == 0 then 1 else m(p)..], rest)
    ensures Contained(m, p, rest)
  {
  }

  lemma BlockKeepsQuotes(quote: char)
    requires quote == '\'' || quote == '"'
    ensures KeepsQuotes(MatchBlockComment, quote)
  {
    forall t | 0 < MatchBlockComment(t) <= |t|
      ensures t[0] != quote && t[MatchBlockComment(t) - 1] != quote
    {
      var close := IndexOf(t[2..], "*/");
      PairAt(t[2..], close, '*', '/');
      assert ['*', '/'] == "*/";
      assert t[0] == '/' && t[2..][close + 1] == '/';
    }
  }

  // ------------------------------------------------------------------- quotes

  lemma {:induction false} QuotedEnd(body: string, quote: char, rest: string)
    requires IsQuotedBody(body, quote) && (rest != "" ==> rest[0] != quote)
    ensures MatchQuotedRest(body + [quote] + rest, quote) == |body| + 1
    decreases |body|
  {
    var s := body + [quote] + rest;
    if body == "" {
      assert s == [quote] + rest;
    } else if body[0] != quote {
      assert s[1..] == body[1..] + [quote] + rest;
      QuotedEnd(body[1..], quote, rest);
    } else {
      assert s[2..] == body[2..] + [quote] + rest;
      QuotedEnd(body[2..], quote, rest);
    }
  }

  /** A literal in front is matched whole. */
  lemma {:induction false} QuotedMatch(body: string, quote: char, rest: string)
    requires IsQuotedBody(body, quote) && (rest != "" ==> rest[0] != quote)
    ensures MatchQuoted([quote] + body + [quote] + rest, quote) == |body| + 2
  {
    QuotedEnd(body, quote, rest);
    assert ([quote] + body + [quote] + rest)[1..] == body + [quote] + rest;
  }

  lemma {:induction false} QuotedHit(body: string, quote: char, rest: string)
    requires IsQuotedBody(body, quote) && (rest != "" ==> rest[0] != quote)
    ensures StripQuoted([quote] + body + [quote] + rest, quote) == [quote, quote] + StripQuoted(rest, quote)
  {
    var hit := [quote] + body + [quote];
    QuotedMatch(body, quote, rest);
    ReplaceHit(QuotedPattern(quote), [quote, quote], hit, rest);
  }

  lemma QuotedSkip(text: string, quote: char, rest: string)
    requires quote !in text
    ensures StripQuoted(text + rest, quote) == text + StripQuoted(rest, quote)
  {
    forall i | 0 <= i < |text| ensures QuotedPattern(quote)((text + rest)[i..]) == 0 {
      assert (text + rest)[i..][0] == text[i];
    }
    ReplaceSkip(QuotedPattern(quote), [quote, quote], text, rest);
  }

  /** Where the literal that is open in front of `s` ends, or -1 if it does not. */
  function CloseAt(s: string, quote: char): (k: int)
    ensures -1 <= k < |s|
    decreases |s|
  {
    if s == "" then -1
    else if s[0] != quote then
      var k := CloseAt(s[1..], quote);
      if k < 0 then -1 else k + 1
    else if |s| >= 2 && s[1] == quote then
      var k := CloseAt(s[2..], quote);
      if k < 0 then -1 else k + 2
    else 0
  }

  /** Up to where it ends is a body; if it does not end, all of it is. */
  lemma {:induction false} CloseAtIs(s: string, quote: char)
    ensures CloseAt(s, quote) < 0 ==> IsQuotedBody(s, quote)
    ensures var k := CloseAt(s, quote);
            k >= 0 ==> IsQuotedBody(s[..k], quote) && s[k] == quote && (k + 1 < |s| ==> s[k + 1] != quote)
    decreases |s|
  {
    if s == "" {
    } else if s[0] != quote {
      CloseAtIs(s[1..], quote);
      var k := CloseAt(s[1..], quote);
      if k >= 0 { assert s[..k + 1][1..] == s[1..][..k]; }
    } else if |s| >= 2 && s[1] == quote {
      CloseAtIs(s[2..], quote);
      var k := CloseAt(s[2..], quote);
      if k >= 0 { assert s[..k + 2][2..] == s[2..][..k]; }
    }
  }

  lemma {:induction false} OccurrencesAppend(a: string, b: string, c: char)
    ensures Occurrences(a + b, c) == Occurrences(a, c) + Occurrences(b, c)
  {
    if a == "" {
      assert a + b == b;
    } else {
      assert (a + b)[1..] == a[1..] + b;
      OccurrencesAppend(a[1..], b, c);
    }
  }

  lemma {:induction false} BodiesAreEven(s: string, quote: char)
    requires IsQuotedBody(s, quote)
    ensures Occurrences(s, quote) % 2 == 0
    decreases |s|
  {
    if s == "" {
    } else if s[0] != quote {
      BodiesAreEven(s[1..], quote);
    } else {
      BodiesAreEven(s[2..], quote);
      assert s[1..][1..] == s[2..];
    }
  }

  /** Without an end the quotes are even in number; with one, those behind it have the
      other parity. */
  lemma {:induction false} CloseParity(s: string, quote: char)
    ensures var k := CloseAt(s, quote);
            if k < 0 then Occurrences(s, quote) % 2 == 0
            else Occurrences(s[k + 1..], quote) % 2 != Occurrences(s, quote) % 2
  {
    var k := CloseAt(s, quote);
    CloseAtIs(s, quote);
    if k < 0 {
      BodiesAreEven(s, quote);
    } else {
      BodiesAreEven(s[..k], quote);
      assert s == s[..k] + ([quote] + s[k + 1..]);
      OccurrencesAppend(s[..k], [quote] + s[k + 1..], quote);
      assert ([quote] + s[k + 1..])[1..] == s[k + 1..];
    }
  }

  /** Where the open literal ends in `s`, the pattern's match ends too. */
  lemma {:induction false} MatchIsClose(s: string, quote: char, rest: string)
    requires CloseAt(s, quote) >= 0 && (rest != "" ==> rest[0] != quote)
    ensures MatchQuoted([quote] + s + rest, quote) == CloseAt(s, quote) + 2
  {
    var k := CloseAt(s, quote);
    CloseAtIs(s, quote);
    var behind := s[k + 1..] + rest;
    assert [quote] + s + rest == [quote] + s[..k] + [quote] + behind;
    QuotedMatch(s[..k], quote, behind);
  }

  lemma {:induction false} QuoteContained(p: string, quote: char, rest: string)
    requires p != "" && p[0] == quote && CloseAt(p[1..], quote) >= 0 && (rest != "" ==> rest[0] != quote)
    ensures MatchQuoted(p + rest, quote) == MatchQuoted(p, quote) == CloseAt(p[1..], quote) + 2
  {
    var s := p[1..];
    MatchIsClose(s, quote, rest);
    MatchIsClose(s, quote, "");
    assert p + rest == [quote] + s + rest && p == [quote] + s + "";
  }

  /** An even number of quotes pair off among themselves. */
  lemma {:induction false} QuotesContained(p: string, quote: char, rest: string)
    requires Occurrences(p, quote) % 2 == 0 && (rest != "" ==> rest[0] != quote)
    ensures Contained(QuotedPattern(quote), p, rest)
    decreases |p|
  {
    if p == "" {
    } else if p[0] != quote {
      QuotesContained(p[1..], quote, rest);
    } else {
      CloseParity(p[1..], quote);
      var k := CloseAt(p[1..], quote);
      QuoteContained(p, quote, rest);
      assert p[k + 2..] == p[1..][k + 1..];
      QuotesContained(p[k + 2..], quote, rest);
    }
  }

  lemma {:induction false} MatchEndsInQuote(s: string, quote: char)
    ensures MatchQuotedRest(s, quote) > 0 ==> s[MatchQuotedRest(s, quote) - 1] == quote
    decreases |s|
  {
    if s == "" {
    } else if s[0] != quote {
      MatchEndsInQuote(s[1..], quote);
    } else if |s| >= 2 && s[1] == quote {
      MatchEndsInQuote(s[2..], quote);
    }
  }

  lemma QuotesKeepQuotes(quote: char, other: char)
    requires quote != other
    ensures KeepsQuotes(QuotedPattern(quote), other)
  {
    forall t | 0 < MatchQuoted(t, quote) <= |t|
      ensures t[0] != other && t[MatchQuoted(t, quote) - 1] != other
    {
      MatchEndsInQuote(t[1..], quote);
    }
  }

  lemma {:induction false} ReducedIsQuoted(body: string, quote: char)
    requires (quote == '\'' || quote == '"') && IsQuotedBody(body, quote)
    ensures IsQuotedBody(Reduced(body, 2), quote)
  {
    LineKeepsQuotes(quote);
    BlockKeepsQuotes(quote);
    assert quote !in " ";
    ReplaceKeepsQuoted(MatchLineComment, " ", quote, body);
    ReplaceKeepsQuoted(MatchBlockComment, " ", quote, StripLineComments(body));
  }

  lemma {:induction false} ReducedIdentIsQuoted(body: string)
    requires IsQuotedBody(body, '"')
    ensures IsQuotedBody(Reduced(body, 3), '"')
  {
    ReducedIsQuoted(body, '"');
    QuotesKeepQuotes('\'', '"');
    ReplaceKeepsQuoted(QuotedPattern('\''), ['\'', '\''], '"', Reduced(body, 2));
  }

  // ------------------------------------------------------------- pass by pass

  lemma {:induction false} DashesPassBlock(body: string, rest: string)
    requires !DashesOnLastLine(body)
    ensures StripLineComments("/*" + body + "*/" + rest)
         == "/*" + StripLineComments(body) + "*/" + StripLineComments(rest)
  {
    var start, end := "/*", "*/";
    Regroup(start, body, end, rest);
    LineCommentSkip(start, body + (end + rest));
    DashesContained(body, end + rest);
    ContainedSplits(MatchLineComment, " ", body, end + rest);
    LineCommentSkip(end, rest);
    Regroup(start, StripLineComments(body), end, StripLineComments(rest));
  }

  lemma {:induction false} DashesPassQuoted(quote: char, body: string, rest: string)
    requires !DashesOnLastLine(body) && quote != '-'
    ensures StripLineComments([quote] + body + [quote] + rest)
         == [quote] + StripLineComments(body) + [quote] + StripLineComments(rest)
  {
    DashesContained(body, [quote] + rest);
    assert Ignores(MatchLineComment, quote);
    PassesOver(MatchLineComment, " ", quote, body, rest);
  }

  lemma {:induction false} FirstPass(segs: seq<Segment>)
    requires Legal(segs) && AllHarmless(segs)
    ensures StripLineComments(ShowAll(segs, 0)) == ShowAll(segs, 1)
  {
    if segs != [] {
      var rest := ShowAll(segs[1..], 0);
      TailLegal(segs);
      FirstPass(segs[1..]);
      match segs[0]
      case LineComment(body) => LineCommentStep(body, rest);
      case Code(text) => LineCommentSkip(text, rest);
      case BlockComment(body) => DashesPassBlock(body, rest);
      case Str(body) => DashesPassQuoted('\'', body, rest);
      case Ident(body) => DashesPassQuoted('"', body, rest);
    }
  }

  lemma {:induction false} BlocksPassQuoted(quote: char, body: string, rest: string)
    requires BlocksClose(body) && quote != '/' && quote != '*'
    ensures StripBlockComments([quote] + body + [quote] + rest)
         == [quote] + StripBlockComments(body) + [quote] + StripBlockComments(rest)
  {
    BlocksContained(body, [quote] + rest);
    assert Ignores(MatchBlockComment, quote);
    PassesOver(MatchBlockComment, " ", quote, body, rest);
  }

  lemma {:induction false} SecondPass(segs: seq<Segment>)
    requires Legal(segs) && AllHarmless(segs)
    ensures StripBlockComments(ShowAll(segs, 1)) == ShowAll(segs, 2)
  {
    if segs != [] {
      var rest := ShowAll(segs[1..], 1);
      TailLegal(segs);
      SecondPass(segs[1..]);
      match segs[0]
      case LineComment(_) => BlockCommentSkip(" ", rest);
      case Code(text) => BlockCommentSkip(text, rest);
      case BlockComment(body) =>
        StripLinesKeepsNoPair(body, '*', '/');
        BlockCommentStep(Reduced(body, 1), rest);
      case Str(body) => BlocksPassQuoted('\'', Reduced(body, 1), rest);
      case Ident(body) => BlocksPassQuoted('"', Reduced(body, 1), rest);
    }
  }

  lemma {:induction false} QuotesPassIdent(body: string, rest: string)
    requires Occurrences(body, '\'') % 2 == 0
    ensures StripQuoted(['"'] + body + ['"'] + rest, '\'')
         == ['"'] + StripQuoted(body, '\'') + ['"'] + StripQuoted(rest, '\'')
  {
    QuotesContained(body, '\'', ['"'] + rest);
    assert Ignores(QuotedPattern('\''), '"');
    PassesOver(QuotedPattern('\''), ['\'', '\''], '"', body, rest);
  }

  lemma {:induction false} ThirdPass(segs: seq<Segment>)
    requires Legal(segs) && AllHarmless(segs)
    ensures StripQuoted(ShowAll(segs, 2), '\'') == ShowAll(segs, 3)
  {
    if segs != [] {
      var rest := ShowAll(segs[1..], 2);
      TailLegal(segs);
      ThirdPass(segs[1..]);
      match segs[0]
      case Str(body) =>
        ReducedIsQuoted(body, '\'');
        QuotedHit(Reduced(body, 2), '\'', rest);
      case Ident(body) => QuotesPassIdent(Reduced(body, 2), rest);
      case _ => QuotedSkip(Show(segs[0], 2), '\'', rest);
    }
  }

  lemma {:induction false} FourthPass(segs: seq<Segment>)
    requires Legal(segs) && AllHarmless(segs)
    ensures StripQuoted(ShowAll(segs, 3), '"') == ShowAll(segs, 4)
  {
    if segs != [] {
      var rest := ShowAll(segs[1..], 3);
      TailLegal(segs);
      FourthPass(segs[1..]);
      match segs[0]
      case Ident(body) =>
        ReducedIdentIsQuoted(body);
        QuotedHit(Reduced(body, 3), '"', rest);
      case _ => QuotedSkip(Show(segs[0], 3), '"', rest);
    }
  }

  /** Each pass replaces exactly the segments it is meant for. */
  lemma StrippedText(segs: seq<Segment>)
    requires Legal(segs) && AllHarmless(segs)
    ensures StripSQLNoise(Print(segs)) == ShowAll(segs, 4)
  {
    FirstPass(segs);
    SecondPass(segs);
    ThirdPass(segs);
    FourthPass(segs);
  }
}
