/** The client-side write guard of the SQL runner: four stripping passes followed by a
    search for write keywords, after `packages/ui/src/components/sql-runner.tsx`. */
module SqlNoise {
  import opened Text

  const WRITE_KEYWORDS: set<string> := {
    "ALTER", "CALL", "CLUSTER", "COMMENT", "COPY", "CREATE", "DELETE", "DO", "DROP", "GRANT",
    "INSERT", "LOCK", "MERGE", "REFRESH", "REINDEX", "REVOKE", "SET", "TRUNCATE", "UPDATE", "VACUUM"
  }

  /** What `.` does not match and where `$` does, in multiline mode. */
  predicate IsLineEnd(c: char) {
    c == '\n' || c == '\r' || c == '\U{2028}' || c == '\U{2029}'
  }

  /** The line terminators of ECMA-262, section 12.3. */
  lemma LineEndsAre(c: char)
    ensures IsLineEnd(c) <==> c in "\n\r\U{2028}\U{2029}"
  {
  }

  /** A pattern: the length of its match at the front of a text, or 0. */
  type Pattern = string -> nat

  /** `replaceAll` with a pattern that never matches the empty text. */
  function ReplaceAll(m: Pattern, replacement: string, s: string): string
    decreases |s|
  {
    if s == "" then ""
    else
      var n := m(s);
      if 0 < n <= |s| then replacement + ReplaceAll(m, replacement, s[n..])
      else [s[0]] + ReplaceAll(m, replacement, s[1..])
  }

  /** Everything up to the end of the line. */
  function LineLength(s: string): (n: nat)
    ensures n <= |s|
  {
    if s == "" || IsLineEnd(s[0]) then 0 else 1 + LineLength(s[1..])
  }

  function MatchLineComment(s: string): nat {
    if "--" <= s then 2 + LineLength(s[2..]) else 0
  }

  /** The shortest match: up to the first closing mark. */
  function MatchBlockComment(s: string): nat {
    if "/*" <= s then
      var close := IndexOf(s[2..], "*/");
      if close < 0 then 0 else 2 + close + 2
    else 0
  }

  /** The greedy loop over doubled quotes and other characters, with its backtracking:
      the length up to and including the closing quote, or 0. */
  function MatchQuotedRest(s: string, quote: char): (n: nat)
    ensures n <= |s|
    decreases |s|
  {
    if s == "" then 0
    else if s[0] != quote then
      var n := MatchQuotedRest(s[1..], quote);
      if n > 0 then 1 + n else 0
    else if |s| >= 2 && s[1] == quote then
      var n := MatchQuotedRest(s[2..], quote);
      if n > 0 then 2 + n else 1
    else 1
  }

  function MatchQuoted(s: string, quote: char): nat {
    if s != "" && s[0] == quote then
      var n := MatchQuotedRest(s[1..], quote);
      if n > 0 then 1 + n else 0
    else 0
  }

  /** Every quote in the text is one of two in a row. */
  predicate IsPaired(text: string, quote: char) {
    if text == "" then true
    else if text[0] != quote then IsPaired(text[1..], quote)
    else |text| >= 2 && text[1] == quote && IsPaired(text[2..], quote)
  }

  /** A quote, text in which every quote is doubled, and a quote. */
  predicate IsQuoted(text: string, quote: char) {
    |text| >= 2 && text[0] == quote && text[|text| - 1] == quote && IsPaired(text[1..|text| - 1], quote)
  }

  /** The rest of a quoted text, from behind the opening quote. */
  predicate EndsQuoted(text: string, quote: char) {
    text != "" && text[|text| - 1] == quote && IsPaired(text[..|text| - 1], quote)
  }

  /** How a text ends is how it ends behind its first character, or its first pair. */
  lemma EndsQuotedStep(s: string, quote: char, n: nat)
    requires 0 < n <= |s|
    ensures s[0] != quote ==> (EndsQuoted(s[..n], quote) <==> n >= 2 && EndsQuoted(s[1..][..n - 1], quote))
    ensures s[0] == quote && n >= 2 && s[1] == quote ==>
              (EndsQuoted(s[..n], quote) <==> n >= 3 && EndsQuoted(s[2..][..n - 2], quote))
    ensures s[0] == quote && n >= 2 && s[1] != quote ==> !EndsQuoted(s[..n], quote)
    ensures s[0] == quote && n == 1 ==> EndsQuoted(s[..n], quote)
  {
    var t := s[..n - 1];
    assert s[..n][..n - 1] == t;
    if n >= 2 {
      assert s[1..][..n - 1][..n - 2] == s[1..n - 1] == t[1..];
    }
    if n >= 3 {
      assert s[2..][..n - 2][..n - 3] == s[2..n - 1] == t[2..];
    }
  }

  lemma {:induction false} RestIsLongest(s: string, quote: char)
    ensures var n := MatchQuotedRest(s, quote);
            && (n > 0 ==> EndsQuoted(s[..n], quote))
            && forall m | n < m <= |s| :: !EndsQuoted(s[..m], quote)
    decreases |s|
  {
    var n := MatchQuotedRest(s, quote);
    if s != "" {
      var k := if s[0] == quote && |s| >= 2 && s[1] == quote then 2 else 1;
      RestIsLongest(s[k..], quote);
      if n > 0 { EndsQuotedStep(s, quote, n); }
      forall m | n < m <= |s| ensures !EndsQuoted(s[..m], quote) { EndsQuotedStep(s, quote, m); }
    }
  }

  /** The pattern for a quoted text takes the longest one that begins here, which need not end
      at the first quote, nor at the last. */
  lemma MatchIsLongestQuoted(s: string, quote: char)
    ensures var n := MatchQuoted(s, quote);
            && n <= |s| && (n > 0 ==> IsQuoted(s[..n], quote))
            && forall m | n < m <= |s| :: !IsQuoted(s[..m], quote)
  {
    if s != "" && s[0] == quote {
      RestIsLongest(s[1..], quote);
      forall m | 2 <= m <= |s| ensures IsQuoted(s[..m], quote) <==> EndsQuoted(s[1..][..m - 1], quote) {
        assert s[..m][1..m - 1] == s[1..][..m - 1][..m - 2];
      }
    }
  }

  function StripLineComments(s: string): string {
    ReplaceAll(MatchLineComment, " ", s)
  }

  function StripBlockComments(s: string): string {
    ReplaceAll(MatchBlockComment, " ", s)
  }

  function QuotedPattern(quote: char): Pattern {
    s => MatchQuoted(s, quote)
  }

  function StripQuoted(s: string, quote: char): string {
    ReplaceAll(QuotedPattern(quote), [quote, quote], s)
  }

  function StripSQLNoise(query: string): string {
    StripQuoted(StripQuoted(StripBlockComments(StripLineComments(query)), '\''), '"')
  }

  predicate IsWordChar(c: char) {
    'A' <= c <= 'Z' || c == '_'
  }

  function WordLength(s: string): (n: nat)
    ensures n <= |s|
    ensures forall i | 0 <= i < n :: IsWordChar(s[i])
    ensures n < |s| ==> !IsWordChar(s[n])
  {
    if s == "" || !IsWordChar(s[0]) then 0 else 1 + WordLength(s[1..])
  }

  /** `match(/[A-Z_]+/g)`. */
  function Words(s: string): seq<string>
    decreases |s|
  {
    if s == "" then []
    else
      var n := WordLength(s);
      if n > 0 then [s[..n]] + Words(s[n..]) else Words(s[1..])
  }

  predicate IsWriteQuery(query: string) {
    exists token | token in Words(Upper(StripSQLNoise(query))) :: token in WRITE_KEYWORDS
  }

  // ------------------------------------------------------------ scanning laws

  /** Text at which the pattern matches nowhere is copied. */
  lemma {:induction false} ReplaceSkip(m: Pattern, replacement: string, plain: string, rest: string)
    requires forall i | 0 <= i < |plain| :: m((plain + rest)[i..]) == 0
    ensures ReplaceAll(m, replacement, plain + rest) == plain + ReplaceAll(m, replacement, rest)
  {
    if plain == "" {
      assert plain + rest == rest;
    } else {
      var s := plain + rest;
      assert s[0..] == s && s[1..] == plain[1..] + rest;
      assert m(s) == 0;
      forall i | 0 <= i < |plain[1..]| ensures m((plain[1..] + rest)[i..]) == 0 {
        assert (plain[1..] + rest)[i..] == s[i + 1..];
      }
      ReplaceSkip(m, replacement, plain[1..], rest);
    }
  }

  /** A match at the front is replaced. */
  lemma ReplaceHit(m: Pattern, replacement: string, hit: string, rest: string)
    requires hit != "" && m(hit + rest) == |hit|
    ensures ReplaceAll(m, replacement, hit + rest) == replacement + ReplaceAll(m, replacement, rest)
  {
    assert (hit + rest)[|hit|..] == rest;
  }

  /** A maximal run of word characters. */
  ghost predicate IsMaximalRun(s: string, i: int, j: int) {
    && 0 <= i < j <= |s|
    && (forall k | i <= k < j :: IsWordChar(s[k]))
    && (i > 0 ==> !IsWordChar(s[i - 1]))
    && (j < |s| ==> !IsWordChar(s[j]))
  }

  ghost predicate HasRun(s: string, w: string) {
    exists i, j :: IsMaximalRun(s, i, j) && s[i..j] == w
  }

  /** A run of what lies behind a cut is a run of the whole, where no run crosses the cut. */
  lemma RunShift(s: string, cut: nat, i: int, j: int)
    requires 0 < cut <= |s| && 0 <= i < j <= |s| - cut
    requires !IsWordChar(s[cut - 1]) || cut == |s| || !IsWordChar(s[cut])
    ensures IsMaximalRun(s[cut..], i, j) <==> IsMaximalRun(s, i + cut, j + cut)
    ensures s[cut..][i..j] == s[i + cut..j + cut]
  {
    var rest := s[cut..];
    assert forall k | 0 <= k < |rest| :: rest[k] == s[k + cut];
    assert forall k | cut <= k < |s| :: s[k] == rest[k - cut];
    assert s[i + cut] == rest[i];
  }

  /** Moving runs across a front part that ends where a run ends. */
  lemma RunsBehind(s: string, cut: nat, w: string)
    requires 0 < cut <= |s|
    requires !IsWordChar(s[cut - 1]) || cut == |s| || !IsWordChar(s[cut])
    ensures HasRun(s[cut..], w) ==> HasRun(s, w)
    ensures HasRun(s, w) ==> HasRun(s[cut..], w) || exists i, j :: IsMaximalRun(s, i, j) && i < cut && s[i..j] == w
  {
    var rest := s[cut..];
    if HasRun(rest, w) {
      var i, j :| IsMaximalRun(rest, i, j) && rest[i..j] == w;
      RunShift(s, cut, i, j);
    }
    if HasRun(s, w) {
      var i, j :| IsMaximalRun(s, i, j) && s[i..j] == w;
      if i >= cut {
        RunShift(s, cut, i - cut, j - cut);
      }
    }
  }

  /** The tokens are exactly the maximal runs. */
  lemma {:induction false} WordsAreMaximalRuns(s: string, w: string)
    ensures w in Words(s) <==> HasRun(s, w)
    decreases |s|
  {
    if s != "" {
      var n := WordLength(s);
      var cut := if n > 0 then n else 1;
      WordsAreMaximalRuns(s[cut..], w);
      RunsBehind(s, cut, w);
      if n > 0 {
        assert IsMaximalRun(s, 0, n) && s[0..n] == s[..n];
        assert forall i, j | IsMaximalRun(s, i, j) && i < cut :: i == 0 && j == n;
      }
    }
  }

  lemma WordLengthApart(a: string, c: char, b: string)
    requires !IsWordChar(c)
    ensures WordLength(a + [c] + b) == WordLength(a)
  {
    var s, n := a + [c] + b, WordLength(a);
    assert forall k | 0 <= k < |a| :: s[k] == a[k];
    assert s[|a|] == c;
    WordLengthIs(s, n);
  }

  lemma DropFront(a: string, c: char, b: string, k: nat)
    requires k <= |a|
    ensures (a + [c] + b)[k..] == a[k..] + [c] + b && (a + [c] + b)[..k] == a[..k]
  {
  }

  /** A separator that is no word character cuts the tokens in two. */
  lemma {:induction false} WordsApart(a: string, c: char, b: string)
    requires !IsWordChar(c)
    ensures Words(a + [c] + b) == Words(a) + Words(b)
    decreases |a|
  {
    var n := WordLength(a);
    var cut := if n > 0 then n else 1;
    WordLengthApart(a, c, b);
    WordsStep(a + [c] + b, n);
    if a == "" {
      assert ("" + [c] + b)[1..] == b;
      assert Words(a) + Words(b) == Words(b);
    } else {
      WordsStep(a, n);
      DropFront(a, c, b, cut);
      WordsApart(a[cut..], c, b);
      if n > 0 { Regroup([a[..n]], Words(a[n..]), Words(b)); }
    }
  }

  lemma Regroup<T>(x: seq<T>, y: seq<T>, z: seq<T>)
    ensures x + (y + z) == x + y + z
  {
  }

  /** One step of the tokenizer. */
  lemma {:induction false} WordsStep(s: string, n: nat)
    requires s != "" && n == WordLength(s)
    ensures Words(s) == if n > 0 then [s[..n]] + Words(s[n..]) else Words(s[1..])
  {
  }

  lemma WordLengthIs(s: string, n: nat)
    requires n <= |s| && (forall i | 0 <= i < n :: IsWordChar(s[i])) && (n < |s| ==> !IsWordChar(s[n]))
    ensures WordLength(s) == n
  {
  }
}
