/** The string operations of the host language that the other modules build on,
    with the laws that relate splitting, joining, trimming and searching. */
module Text {

  datatype Option<+T> = None | Some(value: T)

  /** White space and line terminators, as `String.prototype.trim` knows them. */
  predicate IsSpace(c: char) {
    || '\t' <= c <= '\r' || c == ' ' || c == '\U{00A0}' || c == '\U{1680}'
    || '\U{2000}' <= c <= '\U{200A}' || c == '\U{2028}' || c == '\U{2029}'
    || c == '\U{202F}' || c == '\U{205F}' || c == '\U{3000}' || c == '\U{FEFF}'
  }

  function TrimStart(s: string): string {
    if s == "" then "" else if IsSpace(s[0]) then TrimStart(s[1..]) else s
  }

  function TrimEnd(s: string): string {
    if s == "" then "" else if IsSpace(s[|s| - 1]) then TrimEnd(s[..|s| - 1]) else s
  }

  function Trim(s: string): string {
    TrimEnd(TrimStart(s))
  }

  ghost predicate AllSpace(s: string) {
    forall i | 0 <= i < |s| :: IsSpace(s[i])
  }

  /** Nothing left to trim. */
  ghost predicate IsTrimmed(s: string) {
    s != "" ==> !IsSpace(s[0]) && !IsSpace(s[|s| - 1])
  }

  function LowerChar(c: char): char {
    if 'A' <= c <= 'Z' then c - 'A' + 'a' else c
  }

  function UpperChar(c: char): char {
    if 'a' <= c <= 'z' then c - 'a' + 'A' else c
  }

  function Lower(s: string): (r: string)
    ensures |r| == |s|
  {
    seq(|s|, i requires 0 <= i < |s| => LowerChar(s[i]))
  }

  function Upper(s: string): (r: string)
    ensures |r| == |s|
  {
    seq(|s|, i requires 0 <= i < |s| => UpperChar(s[i]))
  }

  /** The pieces of `s` between occurrences of `c`; always at least one. */
  function Split(s: string, c: char): (pieces: seq<string>)
    ensures |pieces| >= 1
  {
    if s == "" then [""]
    else
      var rest := Split(s[1..], c);
      if s[0] == c then [""] + rest else [[s[0]] + rest[0]] + rest[1..]
  }

  function Join(pieces: seq<string>, c: char): string {
    if |pieces| == 0 then ""
    else if |pieces| == 1 then pieces[0]
    else pieces[0] + [c] + Join(pieces[1..], c)
  }

  /** The first position of `p` in `s`, or -1. */
  function IndexOf(s: string, p: string): (i: int)
    ensures -1 <= i
    ensures i >= 0 ==> i + |p| <= |s| && p <= s[i..]
    ensures forall j | 0 <= j <= |s| && (i < 0 || j < i) :: !(p <= s[j..])
  {
    if p <= s then 0
    else if s == "" then -1
    else
      var i := IndexOf(s[1..], p);
      assert forall j | 1 <= j <= |s| :: s[j..] == s[1..][j - 1..];
      if i < 0 then -1 else i + 1
  }

  /** The last position of `c` in `s`, or -1. */
  function LastIndexOf(s: string, c: char): (i: int)
    ensures -1 <= i < |s|
    ensures i >= 0 ==> s[i] == c
    ensures forall k | i < k < |s| :: s[k] != c
  {
    if s == "" then -1
    else if s[|s| - 1] == c then |s| - 1
    else LastIndexOf(s[..|s| - 1], c)
  }

  predicate Contains(s: string, p: string) {
    IndexOf(s, p) >= 0
  }

  predicate EndsWith(s: string, p: string) {
    |p| <= |s| && s[|s| - |p|..] == p
  }

  // ---------------------------------------------------------------- trimming

  lemma {:induction false} TrimStartShape(s: string) returns (lead: string)
    ensures s == lead + TrimStart(s) && AllSpace(lead)
    ensures TrimStart(s) != "" ==> !IsSpace(TrimStart(s)[0])
  {
    if s == "" || !IsSpace(s[0]) {
      lead := "";
    } else {
      var more := TrimStartShape(s[1..]);
      lead := [s[0]] + more;
    }
  }

  lemma {:induction false} TrimEndShape(s: string) returns (tail: string)
    ensures s == TrimEnd(s) + tail && AllSpace(tail)
    ensures TrimEnd(s) != "" ==> !IsSpace(TrimEnd(s)[|TrimEnd(s)| - 1])
  {
    if s == "" || !IsSpace(s[|s| - 1]) {
      tail := "";
    } else {
      var more := TrimEndShape(s[..|s| - 1]);
      tail := more + [s[|s| - 1]];
    }
  }

  /** Trimming removes white space from both ends and nothing else. */
  lemma TrimShape(s: string) returns (lead: string, tail: string)
    ensures s == lead + Trim(s) + tail && AllSpace(lead) && AllSpace(tail)
    ensures IsTrimmed(Trim(s))
  {
    lead := TrimStartShape(s);
    tail := TrimEndShape(TrimStart(s));
    assert Trim(s) != "" ==> Trim(s)[0] == TrimStart(s)[0];
  }

  lemma {:induction false} TrimStartSpace(lead: string, s: string)
    requires AllSpace(lead)
    ensures TrimStart(lead + s) == TrimStart(s)
  {
    if lead == "" {
      assert lead + s == s;
    } else {
      assert (lead + s)[1..] == lead[1..] + s;
      TrimStartSpace(lead[1..], s);
    }
  }

  lemma {:induction false} TrimEndSpace(s: string, tail: string)
    requires AllSpace(tail)
    ensures TrimEnd(s + tail) == TrimEnd(s)
  {
    if tail == "" {
      assert s + tail == s;
    } else {
      assert (s + tail)[..|s + tail| - 1] == s + tail[..|tail| - 1];
      TrimEndSpace(s, tail[..|tail| - 1]);
    }
  }

  /** What lies between the white space is what trimming returns. */
  lemma TrimBetween(lead: string, core: string, tail: string)
    requires AllSpace(lead) && AllSpace(tail) && IsTrimmed(core)
    ensures Trim(lead + core + tail) == core
  {
    assert lead + core + tail == lead + (core + tail);
    TrimStartSpace(lead, core + tail);
    if core == "" {
      assert core + tail == tail;
      assert tail + "" == tail;
      TrimStartSpace(tail, "");
    } else {
      TrimEndSpace(core, tail);
    }
  }

  lemma TrimIdempotent(s: string)
    ensures Trim(Trim(s)) == Trim(s)
  {
    var _, _ := TrimShape(s);
    assert Trim(s) == "" + Trim(s) + "";
    TrimBetween("", Trim(s), "");
  }

  lemma TrimAllSpace(s: string)
    requires AllSpace(s)
    ensures Trim(s) == ""
  {
    assert s == s + "" + "";
    TrimBetween(s, "", "");
  }

  // ------------------------------------------------------- splitting, joining

  /** Joining the pieces of a split gives the text back. */
  lemma {:induction false} JoinSplit(s: string, c: char)
    ensures Join(Split(s, c), c) == s
  {
    if s != "" {
      var rest := Split(s[1..], c);
      JoinSplit(s[1..], c);
      if s[0] != c {
        assert Split(s, c)[1..] == rest[1..];
      } else {
        assert Split(s, c)[1..] == rest;
      }
    }
  }

  lemma {:induction false} SplitPlain(s: string, c: char)
    requires c !in s
    ensures Split(s, c) == [s]
  {
    if s != "" {
      SplitPlain(s[1..], c);
      assert [s[0]] + s[1..] == s;
    }
  }

  lemma {:induction false} SplitAppend(a: string, c: char, b: string)
    ensures Split(a + [c] + b, c) == Split(a, c) + Split(b, c)
  {
    if a == "" {
      assert a + [c] + b == [c] + b;
      assert ([c] + b)[1..] == b;
    } else {
      assert (a + [c] + b)[1..] == a[1..] + [c] + b;
      SplitAppend(a[1..], c, b);
    }
  }

  lemma {:induction false} SplitPieces(s: string, c: char)
    ensures forall p | p in Split(s, c) :: c !in p
  {
    if s != "" {
      var rest := Split(s[1..], c);
      SplitPieces(s[1..], c);
      assert forall p | p in Split(s, c) :: p in rest || p == "" || p == [s[0]] + rest[0];
      assert rest[0] in rest;
    }
  }

  /** Splitting a join of separator-free pieces gives the pieces back. */
  lemma {:induction false} SplitJoin(pieces: seq<string>, c: char)
    requires |pieces| >= 1 && forall p | p in pieces :: c !in p
    ensures Split(Join(pieces, c), c) == pieces
  {
    SplitPlain(pieces[0], c);
    if |pieces| > 1 {
      SplitAppend(pieces[0], c, Join(pieces[1..], c));
      SplitJoin(pieces[1..], c);
    }
  }

  lemma {:induction false} JoinAppend(a: seq<string>, b: seq<string>, c: char)
    requires |a| >= 1 && |b| >= 1
    ensures Join(a + b, c) == Join(a, c) + [c] + Join(b, c)
  {
    if |a| == 1 {
      assert (a + b)[1..] == b;
    } else {
      assert (a + b)[1..] == a[1..] + b;
      JoinAppend(a[1..], b, c);
    }
  }

  // ------------------------------------------------------------------- search

  /** `i` is the first position of `p` in `s` exactly when it is a match with none before it. */
  lemma IndexOfIs(s: string, p: string, i: nat)
    requires i <= |s| && p <= s[i..]
    requires forall j | 0 <= j < i :: !(p <= s[j..])
    ensures IndexOf(s, p) == i
  {
  }

  lemma ContainsAt(s: string, p: string, i: nat)
    requires i <= |s| && p <= s[i..]
    ensures Contains(s, p)
  {
  }

  lemma LowerAppend(a: string, b: string)
    ensures Lower(a + b) == Lower(a) + Lower(b)
  {
  }

  // -------------------------------------------------------------------- letters

  const SMALL_LETTERS: string := "abcdefghijklmnopqrstuvwxyz"
  const CAPITAL_LETTERS: string := "ABCDEFGHIJKLMNOPQRSTUVWXYZ"

  /** The same character, or the same letter of the two alphabets. */
  ghost predicate SameLetter(a: char, b: char) {
    a == b || (exists k :: IsPair(k, a, b)) || (exists k :: IsPair(k, b, a))
  }

  predicate IsPair(k: int, small: char, capital: char) {
    0 <= k < 26 && |SMALL_LETTERS| == |CAPITAL_LETTERS| == 26
    && small == SMALL_LETTERS[k] && capital == CAPITAL_LETTERS[k]
  }

  /** The same text but for the case of its letters. */
  ghost predicate SameText(a: string, b: string) {
    |a| == |b| && forall i | 0 <= i < |a| :: SameLetter(a[i], b[i])
  }

  lemma LettersInOrder()
    ensures |SMALL_LETTERS| == |CAPITAL_LETTERS| == 26
    ensures forall k | 0 <= k < 26 :: SMALL_LETTERS[k] == 'a' + k as char
    ensures forall k | 0 <= k < 26 :: CAPITAL_LETTERS[k] == 'A' + k as char
  {
  }

  lemma SmallPlace(c: char)
    ensures 'a' <= c <= 'z' ==> IsPair((c - 'a') as int, c, UpperChar(c))
    ensures c in SMALL_LETTERS <==> 'a' <= c <= 'z'
  {
    LettersInOrder();
    if 'a' <= c <= 'z' { assert SMALL_LETTERS[(c - 'a') as int] == c; }
  }

  lemma CapitalPlace(c: char)
    ensures 'A' <= c <= 'Z' ==> IsPair((c - 'A') as int, LowerChar(c), c)
    ensures c in CAPITAL_LETTERS <==> 'A' <= c <= 'Z'
  {
    LettersInOrder();
    if 'A' <= c <= 'Z' { assert CAPITAL_LETTERS[(c - 'A') as int] == c; }
  }

  lemma LetterPlace(c: char)
    ensures 'a' <= c <= 'z' ==> IsPair((c - 'a') as int, c, UpperChar(c))
    ensures 'A' <= c <= 'Z' ==> IsPair((c - 'A') as int, LowerChar(c), c)
    ensures c in SMALL_LETTERS <==> 'a' <= c <= 'z'
    ensures c in CAPITAL_LETTERS <==> 'A' <= c <= 'Z'
  {
    SmallPlace(c);
    CapitalPlace(c);
  }

  lemma PairIs(k: int, small: char, capital: char)
    requires IsPair(k, small, capital)
    ensures 'a' <= small <= 'z' && 'A' <= capital <= 'Z'
    ensures LowerChar(capital) == LowerChar(small) == small && UpperChar(small) == UpperChar(capital) == capital
  {
    LettersInOrder();
  }

  /** Mapping to either case forgets exactly the case. */
  lemma CaseForgets(a: char, b: char)
    ensures SameLetter(a, b) <==> LowerChar(a) == LowerChar(b)
    ensures SameLetter(a, b) <==> UpperChar(a) == UpperChar(b)
  {
    LetterPlace(a);
    LetterPlace(b);
    forall k | IsPair(k, a, b) ensures LowerChar(a) == LowerChar(b) && UpperChar(a) == UpperChar(b) {
      PairIs(k, a, b);
    }
    forall k | IsPair(k, b, a) ensures LowerChar(a) == LowerChar(b) && UpperChar(a) == UpperChar(b) {
      PairIs(k, b, a);
    }
  }

  lemma SameTextIs(a: string, b: string)
    ensures SameText(a, b) <==> Lower(a) == Lower(b)
    ensures SameText(a, b) <==> Upper(a) == Upper(b)
  {
    if |a| == |b| {
      forall i | 0 <= i < |a|
        ensures SameLetter(a[i], b[i]) <==> Lower(a)[i] == Lower(b)[i]
        ensures SameLetter(a[i], b[i]) <==> Upper(a)[i] == Upper(b)[i]
      {
        CaseForgets(a[i], b[i]);
      }
    }
  }

  /** Where each letter goes; everything else stays. */
  lemma CaseMaps(c: char)
    ensures UpperChar(c) !in SMALL_LETTERS && (c !in SMALL_LETTERS ==> UpperChar(c) == c)
    ensures LowerChar(c) !in CAPITAL_LETTERS && (c !in CAPITAL_LETTERS ==> LowerChar(c) == c)
    ensures SameLetter(c, UpperChar(c)) && SameLetter(c, LowerChar(c))
  {
    LetterPlace(c);
    LetterPlace(UpperChar(c));
    LetterPlace(LowerChar(c));
    CaseForgets(c, UpperChar(c));
    CaseForgets(c, LowerChar(c));
  }

  /** The white space and line ends of ECMA-262, sections 12.2 and 12.3, one by one. */
  const SPACES: string :=
    "\t\U{000B}\U{000C} \U{00A0}\U{FEFF}\n\r\U{2028}\U{2029}\U{1680}\U{2000}\U{2001}\U{2002}\U{2003}\U{2004}"
    + "\U{2005}\U{2006}\U{2007}\U{2008}\U{2009}\U{200A}\U{202F}\U{205F}\U{3000}"

  lemma SpacesAre(c: char)
    ensures IsSpace(c) <==> c in SPACES
  {
  }
}
