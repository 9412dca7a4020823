/** What the write guard sees: exactly the code on tokens that keep to themselves, and on no
    other kind of token whatever stands around it. */
module SqlGuard {
  import opened Text
  import opened SqlNoise
  import opened SqlTokens

  /** A letter of either alphabet, or an underscore. */
  predicate IsCodeChar(c: char) {
    c in SMALL_LETTERS || c in CAPITAL_LETTERS || c == '_'
  }

  /** A maximal run of them. */
  ghost predicate IsCodeWord(s: string, a: int, b: int) {
    && 0 <= a < b <= |s|
    && (forall k | a <= k < b :: IsCodeChar(s[k]))
    && (a > 0 ==> !IsCodeChar(s[a - 1]))
    && (b < |s| ==> !IsCodeChar(s[b]))
  }

  ghost predicate HasCodeWord(s: string, w: string) {
    exists a, b :: IsCodeWord(s, a, b) && SameText(s[a..b], w)
  }

  /** Some word in a code segment is a write keyword, in letters of either case. */
  ghost predicate WritesInCode(segs: seq<Segment>) {
    exists i, w :: 0 <= i < |segs| && segs[i].Code? && w in WRITE_KEYWORDS && HasCodeWord(segs[i].text, w)
  }

  // ------------------------------------------------------------------ either case

  lemma CodeChar(c: char)
    ensures IsCodeChar(c) <==> IsWordChar(UpperChar(c))
  {
    LetterPlace(c);
  }

  lemma CodeWordIsRun(s: string, a: int, b: int)
    ensures IsCodeWord(s, a, b) <==> IsMaximalRun(Upper(s), a, b)
  {
    forall k | 0 <= k < |s| ensures IsCodeChar(s[k]) <==> IsWordChar(Upper(s)[k]) { CodeChar(s[k]); }
  }

  lemma UpperSlice(s: string, a: int, b: int)
    requires 0 <= a <= b <= |s|
    ensures Upper(s[a..b]) == Upper(s)[a..b]
  {
  }

  lemma HasCodeWordIs(s: string, w: string)
    requires Upper(w) == w
    ensures HasCodeWord(s, w) <==> HasRun(Upper(s), w)
  {
    if HasCodeWord(s, w) {
      var a, b :| IsCodeWord(s, a, b) && SameText(s[a..b], w);
      CodeWordIsRun(s, a, b);
      UpperSlice(s, a, b);
      SameTextIs(s[a..b], w);
    }
    if HasRun(Upper(s), w) {
      var a, b :| IsMaximalRun(Upper(s), a, b) && Upper(s)[a..b] == w;
      CodeWordIsRun(s, a, b);
      UpperSlice(s, a, b);
      SameTextIs(s[a..b], w);
    }
  }

  lemma KeywordsAreCapital(w: string)
    requires w in WRITE_KEYWORDS
    ensures Upper(w) == w
  {
    assert forall i | 0 <= i < |w| :: 'A' <= w[i] <= 'Z';
  }

  /** The keyword test after mapping to capitals. */
  ghost predicate WritesInCapitals(segs: seq<Segment>) {
    exists i, w :: 0 <= i < |segs| && segs[i].Code? && w in WRITE_KEYWORDS && HasRun(Upper(segs[i].text), w)
  }

  lemma WritesEitherWay(segs: seq<Segment>)
    ensures WritesInCode(segs) <==> WritesInCapitals(segs)
  {
    forall i, w | 0 <= i < |segs| && segs[i].Code? && w in WRITE_KEYWORDS
      ensures HasCodeWord(segs[i].text, w) <==> HasRun(Upper(segs[i].text), w)
    {
      KeywordsAreCapital(w);
      HasCodeWordIs(segs[i].text, w);
    }
  }

  // -------------------------------------------------------------------- words

  lemma UpperAppend(a: string, b: string)
    ensures Upper(a + b) == Upper(a) + Upper(b)
  {
  }

  /** What is left of a segment that is not code holds no word. */
  lemma NoiseHasNoWords(noise: string, rest: string)
    requires noise == " " || noise == "''" || noise == "\"\""
    ensures Words(Upper(noise + rest)) == Words(Upper(rest))
  {
    UpperAppend(noise, rest);
    var u := Upper(rest);
    if noise == " " {
      assert Upper(noise) + u == "" + [' '] + u;
      WordsApart("", ' ', u);
    } else {
      var c := noise[0];
      assert Upper(noise) + u == "" + [c] + ("" + [c] + u);
      WordsApart("", c, u);
      WordsApart("", c, "" + [c] + u);
    }
  }

  lemma CodeThenNoise(code: string, noise: string, rest: string)
    requires noise == " " || noise == "''" || noise == "\"\""
    ensures Words(Upper(code + (noise + rest))) == Words(Upper(code)) + Words(Upper(noise + rest))
  {
    UpperAppend(code, noise + rest);
    UpperAppend(noise, rest);
    var c, u := noise[0], Upper(noise + rest);
    assert u[0] == c;
    assert u == "" + [c] + u[1..];
    assert Upper(code) + u == Upper(code) + [c] + u[1..];
    WordsApart(Upper(code), c, u[1..]);
    WordsApart("", c, u[1..]);
  }

  lemma {:induction false} WordsOfCode(segs: seq<Segment>, w: string)
    requires Legal(segs)
    ensures w in Words(Upper(ShowAll(segs, 4)))
       <==> exists i :: 0 <= i < |segs| && segs[i].Code? && w in Words(Upper(segs[i].text))
  {
    if segs != [] {
      var seg, rest := segs[0], ShowAll(segs[1..], 4);
      TailLegal(segs);
      WordsOfCode(segs[1..], w);
      assert forall i | 1 <= i < |segs| :: segs[i] == segs[1..][i - 1];
      if !seg.Code? {
        NoiseHasNoWords(Show(seg, 4), rest);
      } else if |segs| == 1 {
        assert ShowAll(segs, 4) == seg.text;
      } else {
        CodeThenNoise(seg.text, Show(segs[1], 4), ShowAll(segs[1..][1..], 4));
      }
    }
  }

  /** The guard flags a query exactly when its code holds a write keyword. */
  lemma GuardSeesExactlyCode(segs: seq<Segment>)
    requires Legal(segs) && AllHarmless(segs)
    ensures IsWriteQuery(Print(segs)) <==> WritesInCode(segs)
  {
    StrippedText(segs);
    WritesEitherWay(segs);
    forall w ensures w in Words(Upper(ShowAll(segs, 4)))
                <==> exists i :: 0 <= i < |segs| && segs[i].Code? && w in Words(Upper(segs[i].text)) {
      WordsOfCode(segs, w);
    }
    forall s, w ensures w in Words(s) <==> HasRun(s, w) { WordsAreMaximalRuns(s, w); }
  }

  // ------------------------------------------------------- queries in either case

  /** The pattern sees no difference between the cases. */
  ghost predicate IgnoresCase(m: Pattern) {
    forall t :: m(Upper(t)) == m(t)
  }

  lemma {:induction false} ReplaceUpper(m: Pattern, replacement: string, s: string)
    requires IgnoresCase(m) && Upper(replacement) == replacement
    ensures ReplaceAll(m, replacement, Upper(s)) == Upper(ReplaceAll(m, replacement, s))
    decreases |s|
  {
    if s != "" {
      var n := m(s);
      var cut := if 0 < n <= |s| then n else 1;
      assert m(Upper(s)) == n && Upper(s)[cut..] == Upper(s[cut..]);
      ReplaceUpper(m, replacement, s[cut..]);
      if 0 < n <= |s| {
        UpperAppend(replacement, ReplaceAll(m, replacement, s[cut..]));
      } else {
        UpperAppend([s[0]], ReplaceAll(m, replacement, s[cut..]));
        assert Upper([s[0]]) == [Upper(s)[0]];
      }
    }
  }

  lemma NoCaseInMarks(c: char)
    requires c == '-' || c == '/' || c == '*' || c == '\'' || c == '"' || IsLineEnd(c)
    ensures forall d | UpperChar(d) == c :: d == c
    ensures UpperChar(c) == c
  {
  }

  lemma {:induction false} LineUpper(s: string)
    ensures LineLength(Upper(s)) == LineLength(s)
  {
    if s != "" {
      LineEndUpper(s[0]);
      LineUpper(s[1..]);
      assert Upper(s)[1..] == Upper(s[1..]);
    }
  }

  lemma LineEndUpper(c: char)
    ensures IsLineEnd(UpperChar(c)) == IsLineEnd(c)
  {
  }

  lemma PairUpper(s: string, i: nat, x: char, y: char)
    requires i <= |s| && UpperChar(x) == x && UpperChar(y) == y
    requires forall d | UpperChar(d) == x :: d == x
    requires forall d | UpperChar(d) == y :: d == y
    ensures [x, y] <= Upper(s)[i..] <==> [x, y] <= s[i..]
  {
    PairAt(s, i, x, y);
    PairAt(Upper(s), i, x, y);
  }

  lemma LineCommentsIgnoreCase()
    ensures IgnoresCase(MatchLineComment)
  {
    forall t ensures MatchLineComment(Upper(t)) == MatchLineComment(t) {
      NoCaseInMarks('-');
      PairUpper(t, 0, '-', '-');
      assert t[0..] == t && Upper(t)[0..] == Upper(t) && ['-', '-'] == "--";
      if "--" <= t {
        LineUpper(t[2..]);
        assert Upper(t)[2..] == Upper(t[2..]);
      }
    }
  }

  lemma CloseUpper(s: string)
    ensures IndexOf(Upper(s), "*/") == IndexOf(s, "*/")
  {
    var i := IndexOf(s, "*/");
    NoCaseInMarks('*');
    NoCaseInMarks('/');
    assert ['*', '/'] == "*/";
    forall j: nat | j <= |s| ensures "*/" <= Upper(s)[j..] <==> "*/" <= s[j..] { PairUpper(s, j, '*', '/'); }
    if i >= 0 { IndexOfIs(Upper(s), "*/", i); }
  }

  lemma BlockCommentsIgnoreCase()
    ensures IgnoresCase(MatchBlockComment)
  {
    forall t ensures MatchBlockComment(Upper(t)) == MatchBlockComment(t) {
      NoCaseInMarks('*');
      NoCaseInMarks('/');
      PairUpper(t, 0, '/', '*');
      assert t[0..] == t && Upper(t)[0..] == Upper(t) && ['/', '*'] == "/*";
      if "/*" <= t {
        CloseUpper(t[2..]);
        assert Upper(t)[2..] == Upper(t[2..]);
      }
    }
  }

  lemma {:induction false} QuotedRestUpper(s: string, quote: char)
    requires quote == '\'' || quote == '"'
    ensures MatchQuotedRest(Upper(s), quote) == MatchQuotedRest(s, quote)
    decreases |s|
  {
    NoCaseInMarks(quote);
    if s == "" {
    } else if s[0] != quote {
      assert Upper(s)[0] != quote && Upper(s)[1..] == Upper(s[1..]);
      QuotedRestUpper(s[1..], quote);
    } else if |s| >= 2 && s[1] == quote {
      assert Upper(s)[0] == Upper(s)[1] == quote && Upper(s)[2..] == Upper(s[2..]);
      QuotedRestUpper(s[2..], quote);
    } else {
      assert Upper(s)[0] == quote && (|s| >= 2 ==> Upper(s)[1] != quote);
    }
  }

  lemma QuotesIgnoreCase(quote: char)
    requires quote == '\'' || quote == '"'
    ensures IgnoresCase(QuotedPattern(quote))
  {
    forall t ensures MatchQuoted(Upper(t), quote) == MatchQuoted(t, quote) {
      NoCaseInMarks(quote);
      if t != "" && t[0] == quote {
        QuotedRestUpper(t[1..], quote);
        assert Upper(t)[0] == quote && Upper(t)[1..] == Upper(t[1..]);
      } else if t != "" {
        assert Upper(t)[0] != quote;
      }
    }
  }

  lemma NoiseIsCapital()
    ensures Upper(" ") == " " && Upper(['\'', '\'']) == ['\'', '\''] && Upper(['"', '"']) == ['"', '"']
  {
  }

  lemma FirstPassesUpper(s: string)
    ensures Reduced(Upper(s), 2) == Upper(Reduced(s, 2))
  {
    NoiseIsCapital();
    LineCommentsIgnoreCase();
    BlockCommentsIgnoreCase();
    ReplaceUpper(MatchLineComment, " ", s);
    ReplaceUpper(MatchBlockComment, " ", StripLineComments(s));
  }

  lemma QuotesUpper(s: string, quote: char)
    requires quote == '\'' || quote == '"'
    ensures StripQuoted(Upper(s), quote) == Upper(StripQuoted(s, quote))
  {
    NoiseIsCapital();
    QuotesIgnoreCase(quote);
    ReplaceUpper(QuotedPattern(quote), [quote, quote], s);
  }

  lemma StrippedUpper(s: string)
    ensures StripSQLNoise(Upper(s)) == Upper(StripSQLNoise(s))
  {
    FirstPassesUpper(s);
    QuotesUpper(Reduced(s, 2), '\'');
    QuotesUpper(StripQuoted(Reduced(s, 2), '\''), '"');
  }

  /** Queries that differ only in the case of letters, anywhere in them, get one answer. */
  lemma CaseMakesNoDifference(a: string, b: string)
    requires SameText(a, b)
    ensures IsWriteQuery(a) == IsWriteQuery(b)
  {
    SameTextIs(a, b);
    StrippedUpper(a);
    StrippedUpper(b);
    assert Upper(StripSQLNoise(a)) == Upper(StripSQLNoise(b));
  }

  lemma {:induction false} OneCode(text: string)
    requires SegmentOk(Code(text))
    ensures Print([Code(text)]) == text && Legal([Code(text)]) && AllHarmless([Code(text)])
  {
    var segs := [Code(text)];
    assert segs[1..] == [] && ShowAll(segs[1..], 0) == "";
    assert Print(segs) == text + "";
    assert segs[0] == Code(text) && Harmless(segs[0]);
  }

  lemma OneCodeIsSeen(text: string)
    requires SegmentOk(Code(text))
    ensures IsWriteQuery(text) <==> exists w :: w in WRITE_KEYWORDS && HasCodeWord(text, w)
  {
    var segs := [Code(text)];
    OneCode(text);
    GuardSeesExactlyCode(segs);
    assert segs[0].text == text;
  }

  lemma WordInside(before: string, word: string, after: string)
    requires word != "" && forall i | 0 <= i < |word| :: IsCodeChar(word[i])
    requires before != "" ==> !IsCodeChar(before[|before| - 1])
    requires after != "" ==> !IsCodeChar(after[0])
    ensures var text := before + word + after;
            IsCodeWord(text, |before|, |before| + |word|) && text[|before|..|before| + |word|] == word
  {
    var text := before + word + after;
    assert forall k | |before| <= k < |before| + |word| :: text[k] == word[k - |before|];
  }

  /** A write keyword in letters of either case is flagged, whatever code stands around it. */
  lemma KeywordIsFlagged(before: string, word: string, after: string, w: string)
    requires w in WRITE_KEYWORDS && SameText(word, w)
    requires SegmentOk(Code(before + word + after))
    requires before != "" ==> !IsCodeChar(before[|before| - 1])
    requires after != "" ==> !IsCodeChar(after[0])
    ensures IsWriteQuery(before + word + after)
  {
    KeywordChars(word, w);
    WordInside(before, word, after);
    assert HasCodeWord(before + word + after, w);
    OneCodeIsSeen(before + word + after);
  }

  lemma KeywordChars(word: string, w: string)
    requires w in WRITE_KEYWORDS && SameText(word, w)
    ensures word != "" && forall i | 0 <= i < |word| :: IsCodeChar(word[i])
  {
    assert w != "" && forall i | 0 <= i < |w| :: 'A' <= w[i] <= 'Z';
    forall i | 0 <= i < |word| ensures IsCodeChar(word[i]) {
      CaseForgets(word[i], w[i]);
      LetterPlace(word[i]);
      LetterPlace(w[i]);
    }
  }

  lemma PlainCode(text: string)
    requires text != "" && forall i | 0 <= i < |text| :: IsCodeChar(text[i]) || text[i] == ' ' || text[i] == '1'
    ensures SegmentOk(Code(text))
  {
    LetterPlace('-');
    LetterPlace('/');
    LetterPlace('\'');
    LetterPlace('"');
  }

  lemma DeletesArePlain()
    ensures SegmentOk(Code("delete from t")) && SegmentOk(Code("DELETE FROM t"))
  {
    PlainCode("delete from t");
    PlainCode("DELETE FROM t");
  }

  lemma DeleteTexts()
    ensures "" + "delete" + " from t" == "delete from t" && "" + "DELETE" + " FROM t" == "DELETE FROM t"
    ensures SameText("delete", "DELETE") && SameText("DELETE", "DELETE") && "DELETE" in WRITE_KEYWORDS
  {
    assert Upper("delete") == "DELETE";
    SameTextIs("delete", "DELETE");
  }

  /** In particular as it is mostly typed. */
  lemma SmallDelete()
    ensures IsWriteQuery("delete from t") && IsWriteQuery("DELETE FROM t") && !IsWriteQuery("select 1")
  {
    DeletesArePlain();
    DeleteTexts();
    LetterPlace(' ');
    KeywordIsFlagged("", "delete", " from t", "DELETE");
    KeywordIsFlagged("", "DELETE", " FROM t", "DELETE");
    SelectIsNoWrite();
  }

  lemma SelectIsNoKeyword()
    ensures "SELECT" !in WRITE_KEYWORDS
  {
    assert forall k | k in WRITE_KEYWORDS && |k| == 6 :: k[0] != 'S';
    assert "SELECT"[0] == 'S';
  }

  lemma NotSelect(w: string)
    requires w in WRITE_KEYWORDS
    ensures !SameText("select", w)
  {
    SelectIsNoKeyword();
    KeywordsAreCapital(w);
    SameTextIs("select", w);
    assert Upper("select") == "SELECT";
  }

  lemma SelectIsNoWrite()
    ensures !IsWriteQuery("select 1")
  {
    PlainCode("select 1");
    OneCodeIsSeen("select 1");
    forall w | w in WRITE_KEYWORDS ensures !HasCodeWord("select 1", w) {
      NotSelect(w);
      forall a, b | IsCodeWord("select 1", a, b) ensures "select 1"[a..b] == "select" {
        CodeWordOfSelect("select 1", a, b);
      }
    }
  }

  lemma CodeWordOfSelect(text: string, a: int, b: int)
    requires text == "select 1" && IsCodeWord(text, a, b)
    ensures text[a..b] == "select"
  {
    LetterPlace(' ');
    LetterPlace('1');
    assert !IsCodeChar(text[6]) && !IsCodeChar(text[7]);
    assert forall k | 0 <= k < 6 :: IsCodeChar(text[k]);
    assert a == 0 && b == 6;
  }

  /** The keyword a statement starts with, in small letters. */
  predicate IsCaught(word: string) {
    Upper(word) in WRITE_KEYWORDS && forall i | 0 <= i < |word| :: IsCodeChar(word[i])
  }

  lemma Caught1()
    ensures IsCaught("alter") && IsCaught("call") && IsCaught("cluster") && IsCaught("comment")
  {
    assert Upper("alter") == "ALTER"
      && Upper("call") == "CALL"
      && Upper("cluster") == "CLUSTER"
      && Upper("comment") == "COMMENT";
  }

  lemma Caught2()
    ensures IsCaught("copy") && IsCaught("create") && IsCaught("delete") && IsCaught("do")
  {
    assert Upper("copy") == "COPY"
      && Upper("create") == "CREATE"
      && Upper("delete") == "DELETE"
      && Upper("do") == "DO";
  }

  lemma Caught3()
    ensures IsCaught("drop") && IsCaught("grant") && IsCaught("insert") && IsCaught("lock")
  {
    assert Upper("drop") == "DROP"
      && Upper("grant") == "GRANT"
      && Upper("insert") == "INSERT"
      && Upper("lock") == "LOCK";
  }

  lemma Caught4()
    ensures IsCaught("merge") && IsCaught("refresh") && IsCaught("reindex") && IsCaught("revoke")
  {
    assert Upper("merge") == "MERGE"
      && Upper("refresh") == "REFRESH"
      && Upper("reindex") == "REINDEX"
      && Upper("revoke") == "REVOKE";
  }

  lemma Caught5()
    ensures IsCaught("set") && IsCaught("truncate") && IsCaught("update") && IsCaught("vacuum")
  {
    assert Upper("set") == "SET"
      && Upper("truncate") == "TRUNCATE"
      && Upper("update") == "UPDATE"
      && Upper("vacuum") == "VACUUM";
  }

  const STATEMENTS: set<string> := {
    "alter", "call", "cluster", "comment", "copy", "create", "delete", "do", "drop", "grant",
    "insert", "lock", "merge", "refresh", "reindex", "revoke", "set", "truncate", "update", "vacuum"
  }

  /** Each of the statements that write is flagged, with nothing else in the query. */
  lemma StatementsAreFlagged(word: string)
    requires word in STATEMENTS
    ensures IsWriteQuery(word)
  {
    Caught1();
    Caught2();
    Caught3();
    Caught4();
    Caught5();
    CaughtIsFlagged(word);
  }

  lemma CaughtIsFlagged(word: string)
    requires word != "" && IsCaught(word)
    ensures IsWriteQuery(word)
  {
    var w := Upper(word);
    KeywordsAreCapital(w);
    SameTextIs(word, w);
    PlainCode(word);
    assert "" + word + "" == word;
    KeywordIsFlagged("", word, "", w);
  }

  // ------------------------------------------------ what else a pass takes along

  /** A match begun in `p` swallows where `u` and `v` differ. */
  ghost predicate Swallows(m: Pattern, p: string, u: string, v: string)
    decreases |p|
  {
    p != "" &&
    var n, k := m(p + u), m(p + v);
    || (0 < n <= |p + u| && 0 < k <= |p + v| && (p + u)[n..] == (p + v)[k..])
    || (n == k <= |p| && Swallows(m, p[if n == 0 then 1 else n..], u, v))
  }

  lemma {:induction false} SwallowedAlike(m: Pattern, replacement: string, p: string, u: string, v: string)
    requires Swallows(m, p, u, v)
    ensures ReplaceAll(m, replacement, p + u) == ReplaceAll(m, replacement, p + v)
    decreases |p|
  {
    var n, k := m(p + u), m(p + v);
    if !(0 < n <= |p + u| && 0 < k <= |p + v| && (p + u)[n..] == (p + v)[k..]) {
      var cut := if n == 0 then 1 else n;
      assert (p + u)[cut..] == p[cut..] + u && (p + v)[cut..] == p[cut..] + v;
      SwallowedAlike(m, replacement, p[cut..], u, v);
    }
  }

  lemma {:induction false} SwallowedBehind(m: Pattern, replacement: string, c: char, p: string, u: string, v: string)
    requires Ignores(m, c) && Swallows(m, p, u, v)
    ensures ReplaceAll(m, replacement, [c] + (p + u)) == ReplaceAll(m, replacement, [c] + (p + v))
  {
    SwallowedAlike(m, replacement, p, u, v);
    CopyOne(m, replacement, c, p + u);
    CopyOne(m, replacement, c, p + v);
  }

  lemma {:induction false} DashesLength(p: string, c: string, rest: string)
    requires DashesAt(p, 0) && OneLine(c) && (rest == "" || IsLineEnd(rest[0]))
    ensures MatchLineComment(p + c + rest) == |p + c| && (p + c + rest)[|p + c|..] == rest
  {
    assert p[0..] == p;
    var body := p[2..] + c;
    LineLengthIs(body, rest);
    assert (p + c + rest)[2..] == body + rest;
    assert (p + c + rest)[..2] == "--";
  }

  /** Behind dashes, the rest of the line makes no difference. */
  lemma {:induction false} DashesSwallow(p: string, i: int, c: string, d: string, rest: string)
    requires DashesAt(p, i) && OneLine(c) && OneLine(d) && (rest == "" || IsLineEnd(rest[0]))
    ensures Swallows(MatchLineComment, p, c + rest, d + rest)
    decreases |p|
  {
    assert p + (c + rest) == p + c + rest && p + (d + rest) == p + d + rest;
    if DashesAt(p, 0) {
      DashesLength(p, c, rest);
      DashesLength(p, d, rest);
    } else {
      var n := MatchLineComment(p);
      var cut := if n == 0 then 1 else n;
      DashesBefore(p, i, c + rest);
      DashesBefore(p, i, d + rest);
      assert p[cut..][i - cut..] == p[i..];
      DashesSwallow(p[cut..], i - cut, c, d, rest);
    }
  }

  lemma {:induction false} DashesBefore(p: string, i: int, rest: string)
    requires DashesAt(p, i) && !DashesAt(p, 0)
    ensures MatchLineComment(p + rest) == MatchLineComment(p) <= |p|
    ensures (if MatchLineComment(p) == 0 then 1 else MatchLineComment(p)) <= i
  {
    assert p[0] == (p + rest)[0] && p[1] == (p + rest)[1];
    PairAt(p, 0, '-', '-');
    PairAt(p + rest, 0, '-', '-');
    assert p[0..] == p && (p + rest)[0..] == p + rest && ['-', '-'] == "--";
    if "--" <= p {
      LineEndBefore(p, i);
      LineLengthBefore(p[2..], rest);
      assert (p + rest)[2..] == p[2..] + rest;
    }
  }

  lemma {:induction false} LineEndBefore(p: string, i: int)
    requires DashesAt(p, i) && !DashesAt(p, 0) && "--" <= p
    ensures !OneLine(p[2..]) && LineLength(p[2..]) + 2 <= i
  {
    assert p[0] == '-' && p[1] == '-' && p[0..] == p;
    var k :| 0 <= k < |p| && IsLineEnd(p[k]);
    assert p[2..][k - 2] == p[k];
    var e := LineLength(p[2..]) + 2;
    LineLengthStops(p[2..]);
    assert p[2..][..|p| - 2] == p[2..];
    assert IsLineEnd(p[e]);
    assert forall j | i <= j < |p| :: !IsLineEnd(p[j]) by {
      assert forall j | i <= j < |p| :: p[i..][j - i] == p[j];
    }
  }

  lemma SameAfterFirst(a: string, b: string)
    requires StripLineComments(a) == StripLineComments(b)
    ensures IsWriteQuery(a) == IsWriteQuery(b)
  {
  }

  lemma SameAfterSecond(a: string, b: string)
    requires Reduced(a, 2) == Reduced(b, 2)
    ensures IsWriteQuery(a) == IsWriteQuery(b)
  {
  }

  lemma SameAfterThird(a: string, b: string)
    requires Reduced(a, 3) == Reduced(b, 3)
    ensures IsWriteQuery(a) == IsWriteQuery(b)
  {
  }

  lemma {:induction false} LineIsHidden(p: string, i: int, hidden: string, rest: string)
    requires DashesAt(p, i) && OneLine(hidden) && (rest == "" || IsLineEnd(rest[0]))
    ensures StripLineComments(p + hidden + rest) == StripLineComments(p + rest)
  {
    DashesSwallow(p, i, hidden, "", rest);
    SwallowedAlike(MatchLineComment, " ", p, hidden + rest, "" + rest);
    Associate(p, hidden, rest);
    assert "" + rest == rest;
  }

  lemma DashesAtEnd(before: string)
    ensures DashesAt(before + "--", |before|)
  {
    assert (before + "--")[|before|..] == "--";
  }

  /** Dashes hide the rest of their line, whatever stands before them and behind. */
  lemma {:induction false} DashesHideTheLine(before: string, hidden: string, rest: string)
    requires OneLine(hidden) && (rest == "" || IsLineEnd(rest[0]))
    ensures IsWriteQuery(before + "--" + hidden + rest) == IsWriteQuery(before + "--" + rest)
  {
    DashesAtEnd(before);
    LineIsHidden(before + "--", |before|, hidden, rest);
    SameAfterFirst(before + "--" + hidden + rest, before + "--" + rest);
  }

  lemma NoPairJoin(a: string, b: string, x: char, y: char)
    requires NoPair(a, x, y) && NoPair(b, x, y) && (a != "" && b != "" ==> a[|a| - 1] != x || b[0] != y)
    ensures NoPair(a + b, x, y)
  {
  }

  lemma NoClose(s: string)
    requires IndexOf(s, "*/") < 0
    ensures NoPair(s, '*', '/')
  {
    assert ['*', '/'] == "*/";
    forall i | 0 <= i < |s| - 1 ensures !(s[i] == '*' && s[i + 1] == '/') {
      PairAt(s, i, '*', '/');
    }
  }

  lemma DropAll(a: string, b: string)
    ensures (a + b)[|a|..] == b
  {
  }

  lemma OpeningJoin(a: string, b: string, c: string, d: string)
    ensures a + b + c + d == a + (b + c + d)
  {
  }

  lemma BlockMatchIs(body: string, rest: string)
    requires NoPair(body, '*', '/')
    ensures MatchBlockComment("/*" + body + "*/" + rest) == |body| + 4
  {
    BlockEnd(body, rest);
    OpeningMatch(body + "*/" + rest);
    OpeningJoin("/*", body, "*/", rest);
  }

  lemma {:induction false} OpenBlockLength(s: string, c: string, rest: string)
    requires NoPair(s, '*', '/') && NoPair(c, '*', '/') && c != "" && c[0] != '/'
    ensures MatchBlockComment("/*" + s + (c + "*/" + rest)) == |s + c| + 4 <= |"/*" + s + (c + "*/" + rest)|
    ensures ("/*" + s + (c + "*/" + rest))[|s + c| + 4..] == rest
  {
    NoPairJoin(s, c, '*', '/');
    BlockMatchIs(s + c, rest);
    assert "/*" + s + (c + "*/" + rest) == "/*" + (s + c) + "*/" + rest;
    DropAll("/*" + (s + c) + "*/", rest);
  }

  lemma {:induction false} OpenBlockSwallows(p: string, c: string, d: string, rest: string)
    requires "/*" <= p && IndexOf(p[2..], "*/") < 0 && NoPair(c, '*', '/') && NoPair(d, '*', '/')
    requires c != "" && d != "" && c[0] != '/' && d[0] != '/'
    ensures Swallows(MatchBlockComment, p, c + "*/" + rest, d + "*/" + rest)
  {
    var s := p[2..];
    assert p == "/*" + s;
    NoClose(s);
    OpenBlockLength(s, c, rest);
    OpenBlockLength(s, d, rest);
  }

  lemma {:induction false} ClosedBlockGoesOn(p: string, u: string, v: string)
    requires p != "" && ClosesInFront(p)
    requires u != "" && v != "" && u[0] != '*' && v[0] != '*'
    requires MatchBlockComment(p) <= |p|
    requires Swallows(MatchBlockComment, p[if MatchBlockComment(p) == 0 then 1 else MatchBlockComment(p)..], u, v)
    ensures Swallows(MatchBlockComment, p, u, v)
  {
    BlockMatch(p, u);
    BlockMatch(p, v);
  }

  /** An open block comment makes what stands up to its end indifferent. */
  lemma {:induction false} BlocksSwallow(p: string, c: string, d: string, rest: string)
    requires !BlocksClose(p) && NoPair(c, '*', '/') && NoPair(d, '*', '/')
    requires c != "" && d != "" && c[0] == d[0] && c[0] != '/' && c[0] != '*'
    ensures Swallows(MatchBlockComment, p, c + "*/" + rest, d + "*/" + rest)
    decreases |p|
  {
    if !ClosesInFront(p) {
      OpenBlockSwallows(p, c, d, rest);
    } else {
      var u, v := c + "*/" + rest, d + "*/" + rest;
      assert u[0] == c[0] && v[0] == d[0];
      OpenBehind(p);
      BlocksSwallow(p[if MatchBlockComment(p) == 0 then 1 else MatchBlockComment(p)..], c, d, rest);
      ClosedBlockGoesOn(p, u, v);
    }
  }

  lemma {:induction false} OpenBehind(p: string)
    requires !BlocksClose(p) && ClosesInFront(p)
    ensures var n := MatchBlockComment(p); n <= |p| && !BlocksClose(p[if n == 0 then 1 else n..])
  {
  }

  lemma {:induction false} OpenQuoteLength(s: string, quote: char, c: string, rest: string)
    requires CloseAt(s, quote) < 0 && quote !in c && (rest != "" ==> rest[0] != quote)
    ensures MatchQuoted([quote] + s + (c + [quote] + rest), quote) == |s + c| + 2
    ensures |[quote] + s + (c + [quote] + rest)| >= |s + c| + 2
    ensures ([quote] + s + (c + [quote] + rest))[|s + c| + 2..] == rest
  {
    CloseAtIs(s, quote);
    PlainIsQuoted(c, quote);
    QuotedAppend(s, c, quote);
    QuotedMatch(s + c, quote, rest);
    assert [quote] + s + (c + [quote] + rest) == [quote] + (s + c) + [quote] + rest;
  }

  lemma {:induction false} OpenQuoteSwallows(p: string, quote: char, c: string, d: string, rest: string)
    requires p != "" && p[0] == quote && CloseAt(p[1..], quote) < 0
    requires quote !in c && quote !in d && (rest != "" ==> rest[0] != quote)
    ensures Swallows(QuotedPattern(quote), p, c + [quote] + rest, d + [quote] + rest)
  {
    var s := p[1..];
    OpenQuoteLength(s, quote, c, rest);
    OpenQuoteLength(s, quote, d, rest);
    assert p == [quote] + s;
  }

  lemma {:induction false} ClosedQuoteGoesOn(p: string, quote: char, u: string, v: string)
    requires p != "" && p[0] == quote && CloseAt(p[1..], quote) >= 0
    requires u != "" && v != "" && u[0] != quote && v[0] != quote
    requires Swallows(QuotedPattern(quote), p[1..][CloseAt(p[1..], quote) + 1..], u, v)
    ensures Swallows(QuotedPattern(quote), p, u, v)
  {
    var s := p[1..];
    var k := CloseAt(s, quote);
    MatchIsClose(s, quote, u);
    MatchIsClose(s, quote, v);
    assert p == [quote] + s && p[k + 2..] == s[k + 1..];
  }

  /** A quote left over makes what stands up to the next one indifferent. */
  lemma {:induction false} QuotesSwallow(p: string, quote: char, c: string, d: string, rest: string)
    requires Occurrences(p, quote) % 2 == 1 && quote !in c && quote !in d && c != "" && d != ""
    requires rest != "" ==> rest[0] != quote
    ensures Swallows(QuotedPattern(quote), p, c + [quote] + rest, d + [quote] + rest)
    decreases |p|
  {
    var u, v := c + [quote] + rest, d + [quote] + rest;
    FirstIsNot(c, quote, rest);
    FirstIsNot(d, quote, rest);
    if p[0] != quote {
      QuotesSwallow(p[1..], quote, c, d, rest);
      PlainGoesOn(p, quote, u, v);
    } else {
      CloseParity(p[1..], quote);
      if CloseAt(p[1..], quote) >= 0 {
        QuotesSwallow(p[1..][CloseAt(p[1..], quote) + 1..], quote, c, d, rest);
        ClosedQuoteGoesOn(p, quote, u, v);
      } else {
        OpenQuoteSwallows(p, quote, c, d, rest);
      }
    }
  }

  lemma {:induction false} PlainGoesOn(p: string, quote: char, u: string, v: string)
    requires p != "" && p[0] != quote && Swallows(QuotedPattern(quote), p[1..], u, v)
    ensures Swallows(QuotedPattern(quote), p, u, v)
  {
  }

  lemma FirstIsNot(c: string, quote: char, rest: string)
    requires c != "" && quote !in c
    ensures c + [quote] + rest != "" && (c + [quote] + rest)[0] != quote
  {
    assert (c + [quote] + rest)[0] == c[0];
  }

  // --------------------------------------------------------- the exact condition

  ghost predicate SeesExactlyCode(segs: seq<Segment>) {
    IsWriteQuery(Print(segs)) <==> WritesInCode(segs)
  }

  /** The token, among others that do no harm, makes up a legal query. */
  ghost predicate Fits(before: seq<Segment>, seg: Segment, after: seq<Segment>) {
    Legal(before + [seg] + after) && AllHarmless(before) && AllHarmless(after)
  }

  /** Around this token, wherever it stands, the guard sees exactly the code. */
  ghost predicate SeenThrough(seg: Segment) {
    forall before, after | Fits(before, seg, after) :: SeesExactlyCode(before + [seg] + after)
  }

  /** What brings out the harm in a token, behind the code it hides. */
  function Trap(seg: Segment): seq<Segment> {
    if !(seg.Str? || seg.Ident?) || IsHiding(seg.body) then []
    else if !BlocksClose(Reduced(seg.body, 1)) then [BlockComment("")]
    else [Str("0")]
  }

  /** `DashesOnLastLine`, as a search. */
  predicate IsHiding(s: string) {
    exists i | 0 <= i < |s| :: DashesAt(s, i)
  }

  function Query(seg: Segment, code: string): seq<Segment> {
    [seg, Code(code)] + Trap(seg)
  }

  /** Code of one line without quotes, marks or anything that could end a comment. */
  predicate Tame(code: string) {
    code != "" && forall i | 0 <= i < |code| :: code[i] == ' ' || 'A' <= code[i] <= 'Z'
  }

  function TrapText(seg: Segment): string {
    if Trap(seg) == [] then "" else if Trap(seg) == [Str("0")] then "'0'" else "/**/"
  }

  lemma TrapIsText(seg: Segment)
    ensures ShowAll(Trap(seg), 0) == TrapText(seg)
  {
    var trap := Trap(seg);
    if trap != [] {
      assert trap[1..] == [];
      assert "/*" + "" + "*/" == "/**/";
      assert ['\''] + "0" + ['\''] == "'0'";
    }
  }

  lemma {:induction false} QueryText(seg: Segment, code: string)
    ensures Print(Query(seg, code)) == Show(seg, 0) + (code + TrapText(seg))
  {
    var q, trap := Query(seg, code), Trap(seg);
    TrapIsText(seg);
    assert q[1..] == [Code(code)] + trap && q[1..][1..] == trap;
    assert ShowAll(q[1..], 0) == code + ShowAll(trap, 0);
  }

  // Dashes in front: the line is hidden, code and all.

  lemma {:induction false} DashesBlindText(p: string, c: string, d: string)
    requires DashesOnLastLine(p) && OneLine(c) && OneLine(d)
    ensures StripLineComments(p + c) == StripLineComments(p + d)
  {
    var i :| DashesAt(p, i);
    DashesSwallow(p, i, c, d, "");
    assert c + "" == c && d + "" == d;
    SwallowedAlike(MatchLineComment, " ", p, c, d);
  }

  lemma OneLineAppend(a: string, b: string)
    requires OneLine(a) && OneLine(b)
    ensures OneLine(a + b)
  {
  }

  lemma {:induction false} DashesInside(front: string, body: string)
    requires DashesOnLastLine(body)
    ensures DashesOnLastLine(front + body)
  {
    assert (front + body)[|front|..] == body;
    DashesBehind(front + body, |front|);
  }

  lemma {:induction false} DashesBlind(seg: Segment, front: string, end: string, c: string, d: string)
    requires (seg.Str? || seg.Ident? || seg.BlockComment?) && DashesOnLastLine(seg.body)
    requires Show(seg, 0) == front + seg.body + end && OneLine(end)
    requires Tame(c) && Tame(d)
    ensures IsWriteQuery(Print(Query(seg, c))) == IsWriteQuery(Print(Query(seg, d)))
  {
    BareQueryText(seg, front + seg.body, end, c);
    BareQueryText(seg, front + seg.body, end, d);
    DashesInside(front, seg.body);
    OneLineAppend(end, c);
    OneLineAppend(end, d);
    DashesBlindText(front + seg.body, end + c, end + d);
    SameAfterFirst(Print(Query(seg, c)), Print(Query(seg, d)));
  }

  lemma {:induction false} BareQueryText(seg: Segment, front: string, end: string, code: string)
    requires (seg.Str? || seg.Ident? || seg.BlockComment?) && DashesOnLastLine(seg.body)
    requires Show(seg, 0) == front + end
    ensures Print(Query(seg, code)) == front + (end + code)
  {
    QueryText(seg, code);
    assert IsHiding(seg.body);
    assert TrapText(seg) == "" && code + "" == code;
    Associate(front, end, code);
  }

  // A block comment left open: everything up to the next end is hidden.

  lemma {:induction false} LinesStay(quote: char, body: string, code: string, trap: string)
    requires !DashesOnLastLine(body) && Tame(code) && '-' !in trap
    requires quote == '\'' || quote == '"'
    ensures StripLineComments([quote] + body + [quote] + (code + trap))
         == [quote] + StripLineComments(body) + [quote] + (code + trap)
  {
    var tail := code + trap;
    DashesPassQuoted(quote, body, tail);
    assert '-' !in tail && tail + "" == tail;
    LineCommentSkip(tail, "");
  }

  lemma BlockTail(quote: char, b: string, code: string)
    ensures [quote] + b + [quote] + (code + "/**/") == [quote] + (b + (([quote] + code + "/*") + "*/" + ""))
  {
  }

  lemma TameHasNoClose(quote: char, code: string)
    requires Tame(code) && (quote == '\'' || quote == '"')
    ensures NoPair([quote] + code + "/*", '*', '/')
  {
    var u := [quote] + code + "/*";
    assert forall i | 0 <= i < |u| - 1 :: u[i] != '*' by {
      assert forall i | 1 <= i <= |code| :: u[i] == code[i - 1];
    }
  }

  lemma {:induction false} BlocksBlindText(quote: char, b: string, c: string, d: string)
    requires !BlocksClose(b) && Tame(c) && Tame(d) && (quote == '\'' || quote == '"')
    ensures StripBlockComments([quote] + b + [quote] + (c + "/**/"))
         == StripBlockComments([quote] + b + [quote] + (d + "/**/"))
  {
    var u, v := [quote] + c + "/*", [quote] + d + "/*";
    TameHasNoClose(quote, c);
    TameHasNoClose(quote, d);
    BlocksSwallow(b, u, v, "");
    BlockTail(quote, b, c);
    BlockTail(quote, b, d);
    assert Ignores(MatchBlockComment, quote);
    SwallowedBehind(MatchBlockComment, " ", quote, b, u + "*/" + "", v + "*/" + "");
  }

  lemma {:induction false} BlocksBlind(seg: Segment, quote: char, c: string, d: string)
    requires (seg.Str? && quote == '\'') || (seg.Ident? && quote == '"')
    requires !DashesOnLastLine(seg.body) && !BlocksClose(Reduced(seg.body, 1))
    requires Tame(c) && Tame(d)
    ensures IsWriteQuery(Print(Query(seg, c))) == IsWriteQuery(Print(Query(seg, d)))
  {
    QueryText(seg, c);
    QueryText(seg, d);
    TrapOfBlock(seg);
    LinesStay(quote, seg.body, c, "/**/");
    LinesStay(quote, seg.body, d, "/**/");
    BlocksBlindText(quote, Reduced(seg.body, 1), c, d);
    SameAfterSecond(Print(Query(seg, c)), Print(Query(seg, d)));
  }

  lemma TrapOfBlock(seg: Segment)
    requires (seg.Str? || seg.Ident?) && !DashesOnLastLine(seg.body) && !BlocksClose(Reduced(seg.body, 1))
    ensures TrapText(seg) == "/**/"
  {
  }

  // An apostrophe left over in an identifier pairs with the next literal's.

  lemma {:induction false} BlocksStay(body: string, tail: string)
    requires BlocksClose(body) && '/' !in tail
    ensures StripBlockComments(['"'] + body + ['"'] + tail) == ['"'] + StripBlockComments(body) + ['"'] + tail
  {
    BlocksPassQuoted('"', body, tail);
    assert tail + "" == tail;
    BlockCommentSkip(tail, "");
  }

  lemma QuoteTail(b: string, code: string)
    ensures ['"'] + b + ['"'] + (code + "'0'") == ['"'] + (b + (("\"" + code) + ['\''] + "0'"))
  {
  }

  lemma {:induction false} QuotesBlindText(b: string, c: string, d: string)
    requires Occurrences(b, '\'') % 2 == 1 && Tame(c) && Tame(d)
    ensures StripQuoted(['"'] + b + ['"'] + (c + "'0'"), '\'') == StripQuoted(['"'] + b + ['"'] + (d + "'0'"), '\'')
  {
    var u, v := "\"" + c, "\"" + d;
    var m, r := QuotedPattern('\''), ['\'', '\''];
    QuotesSwallow(b, '\'', u, v, "0'");
    QuoteTail(b, c);
    QuoteTail(b, d);
    assert Ignores(m, '"');
    SwallowedBehind(m, r, '"', b, u + ['\''] + "0'", v + ['\''] + "0'");
  }

  lemma {:induction false} IdentQueryReduced(seg: Segment, code: string)
    requires seg.Ident? && Tame(code) && !DashesOnLastLine(seg.body) && BlocksClose(Reduced(seg.body, 1))
    ensures Reduced(Print(Query(seg, code)), 2) == ['"'] + Reduced(seg.body, 2) + ['"'] + (code + "'0'")
  {
    QueryText(seg, code);
    assert TrapText(seg) == "'0'";
    LinesStay('"', seg.body, code, "'0'");
    BlocksStay(Reduced(seg.body, 1), code + "'0'");
  }

  lemma {:induction false} QuotesBlind(seg: Segment, c: string, d: string)
    requires seg.Ident? && Tame(c) && Tame(d)
    requires !DashesOnLastLine(seg.body) && BlocksClose(Reduced(seg.body, 1))
    requires Occurrences(Reduced(seg.body, 2), '\'') % 2 == 1
    ensures IsWriteQuery(Print(Query(seg, c))) == IsWriteQuery(Print(Query(seg, d)))
  {
    IdentQueryReduced(seg, c);
    IdentQueryReduced(seg, d);
    QuotesBlindText(Reduced(seg.body, 2), c, d);
    SameAfterThird(Print(Query(seg, c)), Print(Query(seg, d)));
  }

  lemma {:induction false} Blind(seg: Segment, c: string, d: string)
    requires SegmentOk(seg) && !Harmless(seg) && Tame(c) && Tame(d)
    ensures IsWriteQuery(Print(Query(seg, c))) == IsWriteQuery(Print(Query(seg, d)))
  {
    var quote := if seg.Str? then '\'' else '"';
    if DashesOnLastLine(seg.body) {
      var around := if seg.BlockComment? then ("/*", "*/") else ([quote], [quote]);
      DashesBlind(seg, around.0, around.1, c, d);
    } else if !BlocksClose(Reduced(seg.body, 1)) {
      BlocksBlind(seg, quote, c, d);
    } else {
      QuotesBlind(seg, c, d);
    }
  }

  lemma QueryIsLegal(seg: Segment, code: string)
    requires SegmentOk(seg) && !Harmless(seg) && Tame(code)
    ensures Legal(Query(seg, code)) && AllHarmless([Code(code)] + Trap(seg))
  {
    assert SegmentOk(Code(code));
    assert SegmentOk(BlockComment("")) && SegmentOk(Str("0"));
    TrapIsHarmless();
  }

  lemma TrapIsHarmless()
    ensures Harmless(BlockComment("")) && Harmless(Str("0"))
  {
    assert StripLineComments("0") == "0" by {
      assert "0" + "" == "0";
      LineCommentSkip("0", "");
    }
    assert "0"[1..] == "";
  }

  lemma DeleteIsCode(segs: seq<Segment>, i: nat)
    requires i < |segs| && segs[i] == Code("DELETE")
    ensures WritesInCode(segs)
  {
    var code := Upper(segs[i].text);
    assert code == "DELETE";
    assert IsMaximalRun(code, 0, 6) && code[0..6] == "DELETE";
    assert HasRun(code, "DELETE");
    assert "DELETE" in WRITE_KEYWORDS;
    WritesEitherWay(segs);
  }

  lemma BlankIsNoCode(segs: seq<Segment>)
    requires forall i | 0 <= i < |segs| && segs[i].Code? :: segs[i].text == " "
    ensures !WritesInCode(segs)
  {
    assert Upper(" ") == " ";
    WritesEitherWay(segs);
    forall a, b ensures !IsMaximalRun(" ", a, b) { assert !IsWordChar(" "[0]); }
  }

  lemma SeenInQuery(seg: Segment, code: string)
    requires SegmentOk(seg) && !Harmless(seg) && Tame(code) && SeenThrough(seg)
    ensures SeesExactlyCode(Query(seg, code))
  {
    var after := [Code(code)] + Trap(seg);
    QueryIsLegal(seg, code);
    assert [] + [seg] + after == Query(seg, code);
    assert Fits([], seg, after);
  }

  /** A harmful token is not seen through: the guard gives the same answer whether a
      deletion stands behind it or nothing. */
  lemma {:induction false} HarmfulIsNotSeenThrough(seg: Segment)
    requires SegmentOk(seg) && !Harmless(seg)
    ensures !SeenThrough(seg)
  {
    var blank, delete := " ", "DELETE";
    TameCodes(blank, delete);
    OneAnswerIsWrong(seg);
    if SeenThrough(seg) {
      SeenInQuery(seg, blank);
      SeenInQuery(seg, delete);
    }
  }

  lemma TameCodes(blank: string, delete: string)
    requires blank == " " && delete == "DELETE"
    ensures Tame(blank) && Tame(delete)
  {
  }

  lemma OneAnswerIsWrong(seg: Segment)
    requires SegmentOk(seg) && !Harmless(seg)
    ensures !SeesExactlyCode(Query(seg, " ")) || !SeesExactlyCode(Query(seg, "DELETE"))
  {
    Blind(seg, " ", "DELETE");
    DeleteIsCode(Query(seg, "DELETE"), 1);
    NothingInCode(seg);
  }

  lemma NothingInCode(seg: Segment)
    requires !seg.Code?
    ensures !WritesInCode(Query(seg, " "))
  {
    BlankIsNoCode(Query(seg, " "));
  }

  /** Of the tokens the language allows, the guard sees through exactly the harmless ones. */
  lemma SeenThroughIffHarmless(seg: Segment)
    requires SegmentOk(seg)
    ensures SeenThrough(seg) <==> Harmless(seg)
  {
    if Harmless(seg) {
      forall before, after | Fits(before, seg, after)
        ensures SeesExactlyCode(before + [seg] + after)
      {
        GuardSeesExactlyCode(before + [seg] + after);
      }
    } else {
      HarmfulIsNotSeenThrough(seg);
    }
  }

  // ---------------------------------------------------------- hidden deletions

  lemma {:induction false} NoWordChars(s: string)
    requires forall i | 0 <= i < |s| :: !IsWordChar(s[i])
    ensures Words(s) == []
    decreases |s|
  {
    if s != "" {
      NoWordChars(s[1..]);
    }
  }

  predicate HasNoLetters(s: string) {
    forall i | 0 <= i < |s| :: !IsWordChar(UpperChar(s[i]))
  }

  lemma {:induction false} ReplaceAddsNoLetters(m: Pattern, replacement: string, s: string)
    requires HasNoLetters(s) && HasNoLetters(replacement)
    ensures HasNoLetters(ReplaceAll(m, replacement, s))
    decreases |s|
  {
    if s != "" {
      var n := m(s);
      ReplaceAddsNoLetters(m, replacement, s[if 0 < n <= |s| then n else 1..]);
    }
  }

  lemma NoLettersNoWrite(query: string)
    requires HasNoLetters(query)
    ensures !IsWriteQuery(query)
  {
    ReplaceAddsNoLetters(MatchLineComment, " ", query);
    ReplaceAddsNoLetters(MatchBlockComment, " ", StripLineComments(query));
    var once := StripBlockComments(StripLineComments(query));
    ReplaceAddsNoLetters(QuotedPattern('\''), ['\'', '\''], once);
    ReplaceAddsNoLetters(QuotedPattern('"'), ['"', '"'], StripQuoted(once, '\''));
    NoWordChars(Upper(StripSQLNoise(query)));
  }

  lemma NoLettersAppend(a: string, b: string)
    requires HasNoLetters(a) && HasNoLetters(b)
    ensures HasNoLetters(a + b)
  {
  }

  lemma {:induction false} BlankHasNoLetters(seg: Segment)
    requires seg.Str? || seg.Ident? || seg.BlockComment?
    requires HasNoLetters(seg.body)
    ensures HasNoLetters(Print(Query(seg, " ")))
  {
    var front := if seg.BlockComment? then "/*" else if seg.Str? then "'" else "\"";
    var end := if seg.BlockComment? then "*/" else front;
    QueryText(seg, " ");
    NoLettersAppend(front, seg.body);
    NoLettersAppend(front + seg.body, end);
    assert Show(seg, 0) == front + seg.body + end;
    NoLettersAppend(" ", TrapText(seg));
    NoLettersAppend(Show(seg, 0), " " + TrapText(seg));
  }

  /** Behind every harmful token without letters of its own a deletion goes unflagged. */
  lemma {:induction false} DeletionIsHidden(seg: Segment, text: string)
    requires SegmentOk(seg) && !Harmless(seg) && HasNoLetters(seg.body)
    requires text == Show(seg, 0) + ("DELETE" + TrapText(seg))
    ensures IsHidden(seg, text)
  {
    QueryIsLegal(seg, "DELETE");
    DeleteIsCode(Query(seg, "DELETE"), 1);
    BlankHasNoLetters(seg);
    NoLettersNoWrite(Print(Query(seg, " ")));
    Blind(seg, " ", "DELETE");
    QueryText(seg, "DELETE");
  }

  /** The text is a legal query with a deletion in its code, and is not flagged. */
  ghost predicate IsHidden(seg: Segment, text: string) {
    var q := Query(seg, "DELETE");
    Legal(q) && Print(q) == text && WritesInCode(q) && !IsWriteQuery(text)
  }

  /** Dashes in a literal hide the code behind it. */
  lemma {:induction false} DashesInALiteral(seg: Segment)
    requires seg == Str("--")
    ensures IsHidden(seg, "'--'DELETE")
  {
    TwoDashes();
    LiteralText();
    DeletionIsHidden(seg, "'--'DELETE");
  }

  lemma TwoDashes()
    ensures DashesOnLastLine("--") && IsHiding("--") && IsQuotedBody("--", '\'')
  {
    assert "--"[0..] == "--" && "--"[1..] == "-" && "-"[1..] == "";
    assert DashesAt("--", 0);
  }

  lemma LiteralText()
    ensures ['\''] + "--" + ['\''] + ("DELETE" + "") == "'--'DELETE"
  {
  }

  /** Dashes in a block comment hide the comment's own end, and the code with it. */
  lemma {:induction false} DashesInAComment(seg: Segment)
    requires seg == BlockComment("--")
    ensures IsHidden(seg, "/*--*/DELETE")
  {
    TwoDashes();
    CommentText();
    DeletionIsHidden(seg, "/*--*/DELETE");
  }

  lemma CommentText()
    ensures "/*" + "--" + "*/" + ("DELETE" + "") == "/*--*/DELETE"
  {
  }

  /** A mark in a literal opens a comment that the next comment closes. */
  lemma {:induction false} MarkInALiteral(seg: Segment)
    requires seg == Str("/*")
    ensures IsHidden(seg, "'/*'DELETE/**/")
  {
    OneMark();
    MarkText();
    DeletionIsHidden(seg, "'/*'DELETE/**/");
  }

  lemma {:induction false} OneMark()
    ensures Reduced("/*", 1) == "/*" && !BlocksClose("/*") && !DashesOnLastLine("/*") && IsQuotedBody("/*", '\'')
  {
    assert "/*" + "" == "/*" && "/*"[1..] == "*" && "*"[1..] == "" && "/*"[2..] == "";
    LineCommentSkip("/*", "");
  }

  lemma MarkText()
    ensures ['\''] + "/*" + ['\''] + ("DELETE" + "/**/") == "'/*'DELETE/**/"
  {
  }

  /** An apostrophe in an identifier pairs with the next literal's, across the code. */
  lemma {:induction false} ApostropheInAnIdentifier(seg: Segment)
    requires seg == Ident("'")
    ensures IsHidden(seg, "\"'\"DELETE'0'")
  {
    OneQuote();
    IdentifierText();
    DeletionIsHidden(seg, "\"'\"DELETE'0'");
  }

  lemma {:induction false} OneQuote()
    ensures Reduced("'", 1) == "'" && Reduced("'", 2) == "'" && BlocksClose("'")
    ensures Occurrences("'", '\'') == 1 && !DashesOnLastLine("'") && IsQuotedBody("'", '"')
  {
    assert "'" + "" == "'" && "'"[1..] == "";
    LineCommentSkip("'", "");
    BlockCommentSkip("'", "");
  }

  lemma IdentifierText()
    ensures ['"'] + "'" + ['"'] + ("DELETE" + "'0'") == "\"'\"DELETE'0'"
  {
  }
}
