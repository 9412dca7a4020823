/** The denotation of address text: every legal spelling of an IPv6 address in the sense
    of section 2.2 of RFC 4291, and the proof that the parser of `GatewayRules` accepts
    exactly those spellings and reads each one as the address it denotes. */
module AddressSpelling {
  import opened Text
  import opened GatewayRules
  import opened Digits

  // -------------------------------------------------- legal spellings (spec)

  /** Four decimal octets between dots. */
  datatype Quad = Quad(octets: seq<string>) {
    predicate Legal() {
      |octets| == 4 && forall o | o in octets :: IsDecimal(o) && DecimalWorth(o) <= 255
    }
    function Text(): string {
      Join(octets, '.')
    }
    function Hextets(): seq<nat>
      requires Legal()
    {
      var n := DecimalWorths(octets);
      [n[0] * 256 + n[1], n[2] * 256 + n[3]]
    }
  }

  /** Groups in full, or with one `::` standing for at least one zero group; in either
      case the last 32 bits may be written as a dotted quad. */
  datatype Form = Full(groups: seq<string>) | Compressed(head: seq<string>, rest: seq<string>)

  datatype Spelling = Spelling(form: Form, quad: Option<Quad>) {
    function Tail(): seq<string> {
      if quad.Some? then [quad.value.Text()] else []
    }

    function Text(): string {
      match form
      case Full(groups) => Join(groups + Tail(), ':')
      case Compressed(head, rest) => Join(head, ':') + "::" + Join(rest + Tail(), ':')
    }

    predicate Legal() {
      && (quad.Some? ==> quad.value.Legal())
      && var tailLength := if quad.Some? then 2 else 0;
      match form
      case Full(groups) =>
        LegalGroups(groups) && |groups| + tailLength == 8
      case Compressed(head, rest) =>
        LegalGroups(head) && LegalGroups(rest) && |head| + |rest| + tailLength <= 7
    }

    function Hextets(): seq<nat>
      requires Legal()
    {
      var tail := if quad.Some? then quad.value.Hextets() else [];
      match form
      case Full(groups) => HexWorths(groups) + tail
      case Compressed(head, rest) =>
        HexWorths(head) + Zeros(8 - |head| - |rest| - |tail|) + HexWorths(rest) + tail
    }
  }

  function LowerAll(texts: seq<string>): (r: seq<string>)
    ensures |r| == |texts|
  {
    seq(|texts|, i requires 0 <= i < |texts| => Lower(texts[i]))
  }

  /** One to four hexadecimal digits each, in either case. */
  predicate LegalGroups(groups: seq<string>) {
    forall i | 0 <= i < |groups| :: IsHexGroup(groups[i])
  }

  /** What may surround an address: brackets, and a zone id after `%`. */
  datatype Wrapping = Wrapping(bracketed: bool, zone: Option<string>) {
    function Around(core: string): string {
      var text := core + (if zone.Some? then "%" + zone.value else "");
      if bracketed then "[" + text + "]" else text
    }
  }

  /** `text` spells the address with hextets `h`. */
  ghost predicate Spells(text: string, h: seq<nat>) {
    exists lead, tail, w: Wrapping, s: Spelling ::
      SpellsAs(text, h, lead, tail, w, s)
  }

  ghost predicate SpellsAs(text: string, h: seq<nat>, lead: string, tail: string, w: Wrapping, s: Spelling) {
    && AllSpace(lead) && AllSpace(tail)
    && s.Legal() && s.Hextets() == h
    && text == lead + w.Around(s.Text()) + tail
  }

  ghost predicate SpellsQuad(text: string, octets: seq<nat>) {
    exists q: Quad :: q.Legal() && q.Text() == text && DecimalWorths(q.octets) == octets
  }

  // ------------------------------------------------------------ small facts

  /** A list the parser reads as groups: non-empty pieces without a colon. */
  ghost predicate Pieces(ps: seq<string>) {
    forall p | p in ps :: p != "" && ':' !in p
  }

  predicate DoubleAt(s: string, j: nat) {
    j + 1 < |s| && s[j] == ':' && s[j + 1] == ':'
  }

  lemma DoubleAtIs(s: string, j: nat)
    requires j <= |s|
    ensures "::" <= s[j..] <==> DoubleAt(s, j)
  {
    if DoubleAt(s, j) {
      assert s[j..][..2] == "::";
    }
  }

  lemma {:induction false} NoDoubleIn(ps: seq<string>)
    requires Pieces(ps)
    ensures forall j: nat :: !DoubleAt(Join(ps, ':'), j)
    ensures ps != [] ==> Join(ps, ':') != "" && Join(ps, ':')[0] != ':' && Join(ps, ':')[|Join(ps, ':')| - 1] != ':'
  {
    if |ps| >= 1 {
      assert ps[0] in ps;
      if |ps| >= 2 {
        assert forall p | p in ps[1..] :: p in ps;
        NoDoubleIn(ps[1..]);
        var text, rest := Join(ps, ':'), Join(ps[1..], ':');
        assert forall j | |ps[0]| < j < |text| :: text[j] == rest[j - |ps[0]| - 1];
        forall j: nat ensures !DoubleAt(text, j) {
          assert j > |ps[0]| ==> DoubleAt(text, j) == DoubleAt(rest, j - |ps[0]| - 1);
        }
      }
    }
  }

  lemma SplitDoubleNone(ps: seq<string>)
    requires Pieces(ps)
    ensures SplitDouble(Join(ps, ':')) == [Join(ps, ':')]
  {
    NoDoubleIn(ps);
    var i := IndexOf(Join(ps, ':'), "::");
    if i >= 0 {
      DoubleAtIs(Join(ps, ':'), i);
    }
  }

  lemma SplitDoubleOne(head: seq<string>, rest: seq<string>)
    requires Pieces(head) && Pieces(rest)
    ensures SplitDouble(Join(head, ':') + "::" + Join(rest, ':')) == [Join(head, ':'), Join(rest, ':')]
  {
    var h, r := Join(head, ':'), Join(rest, ':');
    var text := h + "::" + r;
    NoDoubleIn(head);
    forall j | 0 <= j < |h| ensures !("::" <= text[j..]) {
      DoubleAtIs(text, j);
      assert !DoubleAt(h, j);
    }
    DoubleAtIs(text, |h|);
    IndexOfIs(text, "::", |h|);
    assert text[..|h|] == h && text[|h| + 2..] == r;
    SplitDoubleNone(rest);
  }

  lemma GroupsArePieces(groups: seq<string>)
    requires forall g | g in groups :: IsGroupText(g)
    ensures Pieces(groups)
  {
  }

  lemma ToHextetsOfJoin(groups: seq<string>)
    requires forall g | g in groups :: IsGroupText(g)
    ensures ToHextets(Join(groups, ':')) == Some(Numbers(groups, 16))
  {
    GroupsArePieces(groups);
    if groups != [] {
      NoDoubleIn(groups);
      SplitJoin(groups, ':');
    }
  }

  /** Reading back what `ToHextets` accepted. */
  lemma ToHextetsInverse(part: string) returns (groups: seq<string>)
    requires ToHextets(part).Some?
    ensures forall g | g in groups :: IsGroupText(g)
    ensures part == Join(groups, ':') && ToHextets(part).value == Numbers(groups, 16)
    ensures groups == if part == "" then [] else Split(part, ':')
  {
    groups := if part == "" then [] else Split(part, ':');
    JoinSplit(part, ':');
  }

  // ------------------------------------------- lower-case spellings, no quad

  ghost predicate LowerGroups(groups: seq<string>) {
    forall g | g in groups :: IsGroupText(g)
  }

  function FormText(f: Form): string {
    match f
    case Full(groups) => Join(groups, ':')
    case Compressed(head, rest) => Join(head, ':') + "::" + Join(rest, ':')
  }

  ghost predicate LowerForm(f: Form) {
    match f
    case Full(groups) => LowerGroups(groups) && |groups| == 8
    case Compressed(head, rest) => LowerGroups(head) && LowerGroups(rest) && |head| + |rest| <= 7
  }

  function FormHextets(f: Form): seq<nat>
    requires f.Compressed? ==> |f.head| + |f.rest| <= 8
  {
    match f
    case Full(groups) => Numbers(groups, 16)
    case Compressed(head, rest) => Numbers(head, 16) + Zeros(8 - |head| - |rest|) + Numbers(rest, 16)
  }

  lemma ParseGroupsOfForm(f: Form)
    requires LowerForm(f)
    ensures ParseGroups(FormText(f)) == Some(FormHextets(f))
  {
    match f
    case Full(groups) =>
      GroupsArePieces(groups);
      SplitDoubleNone(groups);
      ToHextetsOfJoin(groups);
      assert Numbers(groups, 16) + [] == Numbers(groups, 16);
    case Compressed(head, rest) =>
      ParseGroupsOfCompressed(head, rest);
  }

  lemma ParseGroupsOfCompressed(head: seq<string>, rest: seq<string>)
    requires LowerGroups(head) && LowerGroups(rest) && |head| + |rest| <= 7
    ensures ParseGroups(Join(head, ':') + "::" + Join(rest, ':'))
         == Some(Numbers(head, 16) + Zeros(8 - |head| - |rest|) + Numbers(rest, 16))
  {
    GroupsArePieces(head);
    GroupsArePieces(rest);
    SplitDoubleOne(head, rest);
    HalvesOfCompressed(head, rest);
  }

  lemma HalvesOfCompressed(head: seq<string>, rest: seq<string>)
    requires LowerGroups(head) && LowerGroups(rest) && |head| + |rest| <= 7
    ensures FromHalves([Join(head, ':'), Join(rest, ':')])
         == Some(Numbers(head, 16) + Zeros(8 - |head| - |rest|) + Numbers(rest, 16))
  {
    ToHextetsOfJoin(head);
    ToHextetsOfJoin(rest);
    TwoHalves(Join(head, ':'), Join(rest, ':'), Numbers(head, 16), Numbers(rest, 16));
  }

  lemma TwoHalves(h: string, r: string, a: seq<nat>, b: seq<nat>)
    requires ToHextets(h) == Some(a) && ToHextets(r) == Some(b) && |a| + |b| <= 7
    ensures FromHalves([h, r]) == Some(a + Zeros(8 - |a| - |b|) + b)
  {
  }

  lemma SplitDoubleInverse(text: string)
    ensures |SplitDouble(text)| == 1 ==> SplitDouble(text)[0] == text
    ensures |SplitDouble(text)| == 2 ==> text == SplitDouble(text)[0] + "::" + SplitDouble(text)[1]
  {
    var i := IndexOf(text, "::");
    if i >= 0 {
      assert text[i..][..2] == "::";
      assert text == text[..i] + "::" + text[i + 2..];
    }
  }

  lemma HalvesInverse(halves: seq<string>) returns (f: Form)
    requires |halves| >= 1 && FromHalves(halves).Some?
    ensures LowerForm(f) && FromHalves(halves).value == FormHextets(f)
    ensures |halves| == 1 || |halves| == 2
    ensures |halves| == 1 ==> FormText(f) == halves[0]
    ensures |halves| == 2 ==> FormText(f) == halves[0] + "::" + halves[1]
  {
    var head := ToHextetsInverse(halves[0]);
    if |halves| == 1 {
      f := Full(head);
    } else {
      var rest := ToHextetsInverse(halves[1]);
      f := Compressed(head, rest);
    }
  }

  lemma ParseGroupsInverse(text: string) returns (f: Form)
    requires ParseGroups(text).Some?
    ensures LowerForm(f) && FormText(f) == text && ParseGroups(text).value == FormHextets(f)
  {
    SplitDoubleInverse(text);
    f := HalvesInverse(SplitDouble(text));
  }

  // ------------------------------------------------------- the dotted quad

  lemma QuadRoundTrip(q: Quad)
    requires q.Legal()
    ensures ParseIpv4(q.Text()) == Some(DecimalWorths(q.octets))
  {
    OctetsAreRead(q.octets);
    SplitJoin(q.octets, '.');
    var n := Numbers(q.octets, 10);
    forall o | o in n ensures o <= 255 {
      var i :| 0 <= i < 4 && n[i] == o;
      assert q.octets[i] in q.octets;
    }
  }

  lemma QuadInverse(text: string) returns (q: Quad)
    requires ParseIpv4(text).Some?
    ensures q.Legal() && q.Text() == text && DecimalWorths(q.octets) == ParseIpv4(text).value
  {
    q := Quad(Split(text, '.'));
    JoinSplit(text, '.');
    var n := Numbers(q.octets, 10);
    forall o | o in q.octets ensures IsDecimal(o) && DecimalWorth(o) <= 255 {
      var i :| 0 <= i < |q.octets| && q.octets[i] == o;
      assert n[i] in n;
      OctetIsRead(o);
    }
    OctetsAreRead(q.octets);
  }

  /** The two hexadecimal groups a quad is rewritten to. */
  function QuadGroups(q: Quad): seq<string>
    requires q.Legal()
  {
    [ToHex(q.Hextets()[0]), ToHex(q.Hextets()[1])]
  }

  lemma QuadHextetBounds(q: Quad)
    requires q.Legal()
    ensures q.Hextets()[0] < 0x10000 && q.Hextets()[1] < 0x10000
  {
    assert q.octets[0] in q.octets && q.octets[1] in q.octets && q.octets[2] in q.octets && q.octets[3] in q.octets;
  }

  lemma GroupOfHextet(n: nat)
    requires n < 0x10000
    ensures IsGroupText(ToHex(n)) && NumberOf(ToHex(n), 16) == n && ':' !in ToHex(n) && '.' !in ToHex(n)
  {
    ToHexRoundTrip(n);
  }

  lemma TwoGroups(x: nat, y: nat)
    requires x < 0x10000 && y < 0x10000
    ensures LowerGroups([ToHex(x), ToHex(y)]) && Numbers([ToHex(x), ToHex(y)], 16) == [x, y]
    ensures Pieces([ToHex(x), ToHex(y)]) && forall g | g in [ToHex(x), ToHex(y)] :: '.' !in g
  {
    GroupOfHextet(x);
    GroupOfHextet(y);
  }

  lemma QuadGroupsRead(q: Quad)
    requires q.Legal()
    ensures LowerGroups(QuadGroups(q)) && Numbers(QuadGroups(q), 16) == q.Hextets()
    ensures Pieces(QuadGroups(q))
    ensures forall g | g in QuadGroups(q) :: '.' !in g
  {
    QuadHextetBounds(q);
    var h := q.Hextets();
    TwoGroups(h[0], h[1]);
    assert h == [h[0], h[1]];
  }

  lemma QuadTextShape(q: Quad)
    requires q.Legal()
    ensures ':' !in q.Text() && '.' in q.Text() && q.Text() != ""
  {
    var o := q.octets;
    assert forall k | 0 <= k < 4 :: o[k] in o;
    JoinOfFour(o, '.');
  }

  lemma JoinOfFour(o: seq<string>, c: char)
    requires |o| == 4
    ensures Join(o, c) == o[0] + [c] + (o[1] + [c] + (o[2] + [c] + o[3]))
  {
    assert o[1..][1..][1..] == [o[3]];
    assert Join(o[1..][1..], c) == o[2] + [c] + o[3];
    assert Join(o[1..], c) == o[1] + [c] + Join(o[1..][1..], c);
  }

  // -------------------------------------------------- the text before a tail

  function Extend(f: Form, tail: seq<string>): Form {
    match f
    case Full(groups) => Full(groups + tail)
    case Compressed(head, rest) => Compressed(head, rest + tail)
  }

  /** What precedes the colon in front of the last groups. */
  function Before(f: Form): string {
    match f
    case Full(groups) => Join(groups, ':')
    case Compressed(head, rest) =>
      if rest == [] then Join(head, ':') + ":" else Join(head, ':') + "::" + Join(rest, ':')
  }

  lemma ExtendText(f: Form, tail: seq<string>)
    requires tail != [] && (f.Full? ==> f.groups != [])
    ensures FormText(Extend(f, tail)) == Before(f) + ":" + Join(tail, ':')
  {
    match f
    case Full(groups) =>
      JoinAppend(groups, tail, ':');
    case Compressed(head, rest) =>
      if rest == [] {
        assert rest + tail == tail;
      } else {
        JoinAppend(rest, tail, ':');
      }
  }

  lemma LastIndexIs(text: string, c: char, at: nat)
    requires at < |text| && text[at] == c
    requires forall k | at < k < |text| :: text[k] != c
    ensures LastIndexOf(text, c) == at
  {
  }

  lemma LastColonIs(pre: string, tail: string)
    requires ':' !in tail
    ensures LastIndexOf(pre + ":" + tail, ':') == |pre|
  {
    var text := pre + ":" + tail;
    assert text[|pre|] == ':' && text[|pre| + 1..] == tail;
    assert forall k | |pre| < k < |text| :: text[k] == text[|pre| + 1..][k - |pre| - 1] && text[k] in tail;
    LastIndexIs(text, ':', |pre|);
  }

  lemma ExpandQuadAt(pre: string, q: Quad)
    requires q.Legal()
    ensures ':' in pre + ":" + q.Text()
    ensures ExpandQuad(pre + ":" + q.Text()) == Some(pre + ":" + Join(QuadGroups(q), ':'))
  {
    var text := pre + ":" + q.Text();
    QuadTextShape(q);
    LastColonIs(pre, q.Text());
    assert text[|pre|] == ':';
    assert text[..|pre|] == pre && text[|pre| + 1..] == q.Text();
    QuadRoundTrip(q);
    var n, g := DecimalWorths(q.octets), QuadGroups(q);
    assert g == [ToHex(n[0] * 256 + n[1]), ToHex(n[2] * 256 + n[3])];
    assert ExpandQuad(text) == Some(pre + ":" + g[0] + ":" + g[1]);
    JoinOfTwo(pre, g[0], g[1]);
  }

  lemma JoinOfTwo(pre: string, a: string, b: string)
    ensures pre + ":" + Join([a, b], ':') == pre + ":" + a + ":" + b
  {
    assert [a, b][1..] == [b];
  }

  lemma {:induction false} NoDotInJoin(ps: seq<string>)
    requires forall p | p in ps :: '.' !in p
    ensures '.' !in Join(ps, ':')
  {
    if |ps| > 1 {
      NoDotInJoin(ps[1..]);
    }
  }

  lemma FormTextShape(f: Form)
    requires LowerForm(f)
    ensures ':' in FormText(f) && '.' !in FormText(f)
  {
    match f
    case Full(groups) =>
      NoDotInJoin(groups);
      assert FormText(f)[|groups[0]|] == ':';
    case Compressed(head, rest) =>
      NoDotInJoin(head);
      NoDotInJoin(rest);
      assert FormText(f)[|Join(head, ':')|] == ':';
  }

  // ----------------------------------------------------- lower-case spellings

  ghost predicate LowerSpelling(s: Spelling) {
    && s.Legal()
    && match s.form
       case Full(groups) => LowerGroups(groups)
       case Compressed(head, rest) => LowerGroups(head) && LowerGroups(rest)
  }

  /** The same address with the quad written as two groups. */
  function WithoutQuad(s: Spelling): Form
    requires s.Legal()
  {
    Extend(s.form, TailGroups(s))
  }

  lemma LowerOfGroup(g: string)
    requires IsGroupText(g)
    ensures Lower(g) == g
  {
  }

  lemma LowerGroupsAreLower(groups: seq<string>)
    requires LowerGroups(groups)
    ensures LowerAll(groups) == groups
    ensures LegalGroups(groups) && HexWorths(groups) == Numbers(groups, 16)
  {
    forall i | 0 <= i < |groups|
      ensures Lower(groups[i]) == groups[i] && IsHexGroup(groups[i])
      ensures HexWorth(groups[i]) == NumberOf(groups[i], 16)
    {
      assert groups[i] in groups;
      LowerOfGroup(groups[i]);
      GroupIsRead(groups[i]);
    }
  }

  lemma NumbersAppend(a: seq<string>, b: seq<string>, base: nat)
    ensures Numbers(a + b, base) == Numbers(a, base) + Numbers(b, base)
  {
  }

  /** The groups a quad is rewritten to, or none. */
  function TailGroups(s: Spelling): seq<string>
    requires s.Legal()
  {
    if s.quad.Some? then QuadGroups(s.quad.value) else []
  }

  function TailHextets(s: Spelling): seq<nat>
    requires s.Legal()
  {
    if s.quad.Some? then s.quad.value.Hextets() else []
  }

  lemma TailIsRead(s: Spelling)
    requires s.Legal()
    ensures LowerGroups(TailGroups(s)) && Numbers(TailGroups(s), 16) == TailHextets(s)
  {
    if s.quad.Some? { QuadGroupsRead(s.quad.value); }
  }

  lemma GroupsWithTail(groups: seq<string>, s: Spelling)
    requires s.Legal() && LowerGroups(groups)
    ensures LowerGroups(groups + TailGroups(s))
    ensures Numbers(groups + TailGroups(s), 16) == HexWorths(groups) + TailHextets(s)
  {
    TailIsRead(s);
    LowerGroupsAreLower(groups);
    NumbersAppend(groups, TailGroups(s), 16);
  }

  lemma FourParts(a: seq<nat>, b: seq<nat>, c: seq<nat>, d: seq<nat>)
    ensures a + b + (c + d) == a + b + c + d
  {
  }

  lemma WithoutQuadSame(s: Spelling)
    requires LowerSpelling(s)
    ensures LowerForm(WithoutQuad(s)) && FormHextets(WithoutQuad(s)) == s.Hextets()
  {
    match s.form
    case Full(groups) =>
      GroupsWithTail(groups, s);
    case Compressed(head, rest) =>
      LowerGroupsAreLower(head);
      GroupsWithTail(rest, s);
      FourParts(HexWorths(head), Zeros(8 - |head| - |rest| - |TailHextets(s)|), HexWorths(rest), TailHextets(s));
  }

  lemma CoreOfLower(s: Spelling)
    requires LowerSpelling(s)
    ensures ParseCore(s.Text()) == Some(s.Hextets())
  {
    var f := WithoutQuad(s);
    WithoutQuadSame(s);
    if s.quad.Some? {
      ExtendText(s.form, s.Tail());
      ExtendText(s.form, QuadGroups(s.quad.value));
      ExpandQuadAt(Before(s.form), s.quad.value);
      assert s.Text() == FormText(Extend(s.form, s.Tail()));
    } else {
      FormTextShape(f);
      assert s.Text() == FormText(f);
      var i := LastIndexOf(s.Text(), ':');
      assert '.' !in s.Text()[i + 1..];
    }
    ParseGroupsOfForm(f);
  }

  lemma {:induction false} SplitOfJoinTail(pre: string, groups: seq<string>)
    requires groups != [] && Pieces(groups)
    ensures Split(pre + ":" + Join(groups, ':'), ':') == Split(pre, ':') + groups
  {
    SplitAppend(pre, ':', Join(groups, ':'));
    SplitJoin(groups, ':');
  }

  /** The pieces of a join; an empty list joins to the empty text, which splits to one piece. */
  lemma SplitOfJoin(ps: seq<string>)
    requires Pieces(ps)
    ensures Split(Join(ps, ':'), ':') == if ps == [] then [""] else ps
  {
    if ps != [] { SplitJoin(ps, ':'); }
  }

  lemma SplitDoubleColon(h: string, r: string)
    ensures Split(h + "::" + r, ':') == Split(h, ':') + [""] + Split(r, ':')
  {
    assert h + "::" + r == h + ":" + ("" + ":" + r);
    SplitAppend(h, ':', "" + ":" + r);
    SplitAppend("", ':', r);
  }

  lemma SplitOfCompressed(head: seq<string>, rest: seq<string>)
    requires Pieces(head) && Pieces(rest)
    ensures Split(FormText(Compressed(head, rest)), ':')
         == (if head == [] then [""] else head) + [""] + (if rest == [] then [""] else rest)
  {
    SplitDoubleColon(Join(head, ':'), Join(rest, ':'));
    SplitOfJoin(head);
    SplitOfJoin(rest);
  }

  lemma SnocTwo<T>(a: seq<T>, x: T, y: T, b: seq<T>, c: T, d: seq<T>)
    requires a + [x, y] == b + [c] + d
    requires |d| >= 2
    ensures d == d[..|d| - 2] + [x, y] && a == b + [c] + d[..|d| - 2]
  {
    var whole := a + [x, y];
    var e := d[..|d| - 2];
    assert whole[|whole| - 1] == y && whole[|whole| - 2] == x;
    assert d[|d| - 1] == whole[|whole| - 1] && d[|d| - 2] == whole[|whole| - 2];
    assert a == whole[..|whole| - 2];
    assert (b + [c] + d)[..|whole| - 2] == b + [c] + e;
  }

  /** Groups whose text ends in two given groups can be cut in front of them. */
  lemma CutGroups(groups: seq<string>, pre: string, g: seq<string>) returns (shorter: seq<string>)
    requires Pieces(groups) && groups != [] && |g| == 2 && Pieces(g)
    requires Join(groups, ':') == pre + ":" + Join(g, ':')
    ensures groups == shorter + g && Join(shorter, ':') == pre
  {
    shorter := Split(pre, ':');
    JoinSplit(pre, ':');
    SplitOfJoinTail(pre, g);
    SplitJoin(groups, ':');
  }

  lemma CutCompressed(head: seq<string>, rest: seq<string>, pre: string, g: seq<string>)
      returns (shorter: seq<string>)
    requires Pieces(head) && Pieces(rest) && |g| == 2 && Pieces(g)
    requires Join(head, ':') + "::" + Join(rest, ':') == pre + ":" + Join(g, ':')
    ensures rest == shorter + g
  {
    var text := Join(head, ':') + "::" + Join(rest, ':');
    var h := if head == [] then [""] else head;
    SplitOfCompressed(head, rest);
    var whole := Split(text, ':');
    assert |rest| < 2 ==> whole[|whole| - 1] == "" || whole[|whole| - 2] == "";
    SplitOfJoinTail(pre, g);
    assert g[0] in g && g[1] in g;
    assert whole[|whole| - 1] == g[1] && whole[|whole| - 2] == g[0];
    assert g == [g[0], g[1]];
    SnocTwo(Split(pre, ':'), g[0], g[1], h, "", rest);
    shorter := rest[..|rest| - 2];
  }

  lemma CutTail(f: Form, pre: string, g: seq<string>) returns (shorter: Form)
    requires LowerForm(f) && |g| == 2 && LowerGroups(g)
    requires FormText(f) == pre + ":" + Join(g, ':')
    ensures Extend(shorter, g) == f && Before(shorter) == pre
  {
    GroupsArePieces(g);
    match f
    case Full(groups) =>
      GroupsArePieces(groups);
      var cut := CutGroups(groups, pre, g);
      shorter := Full(cut);
    case Compressed(head, rest) =>
      GroupsArePieces(head);
      GroupsArePieces(rest);
      var cut := CutCompressed(head, rest, pre, g);
      shorter := Compressed(head, cut);
      ExtendText(shorter, g);
      assert Before(shorter) == (pre + ":" + Join(g, ':'))[..|pre|];
  }

  lemma CoreInverseQuad(pre: string, tail: string) returns (s: Spelling)
    requires ':' !in tail && '.' in tail && ParseCore(pre + ":" + tail).Some?
    ensures LowerSpelling(s) && s.Text() == pre + ":" + tail
    ensures s.Hextets() == ParseCore(pre + ":" + tail).value
  {
    var text := pre + ":" + tail;
    LastColonIs(pre, tail);
    assert text[..|pre|] == pre && text[|pre| + 1..] == tail;
    var q := QuadInverse(tail);
    var g := QuadGroups(q);
    ExpandQuadAt(pre, q);
    QuadGroupsRead(q);
    var f := ParseGroupsInverse(pre + ":" + Join(g, ':'));
    var shorter := CutTail(f, pre, g);
    s := Spelling(shorter, Some(q));
    SpellingOfCut(f, shorter, q);
    WithoutQuadSame(s);
    if shorter.Full? { assert shorter.groups + s.Tail() != []; }
    ExtendText(shorter, s.Tail());
  }

  lemma LastColonSplits(text: string)
    requires ':' in text
    ensures var c := LastIndexOf(text, ':');
            c >= 0 && text == text[..c] + ":" + text[c + 1..] && ':' !in text[c + 1..]
  {
    var c := LastIndexOf(text, ':');
    var tail := text[c + 1..];
    assert text[c] == ':';
    forall k | 0 <= k < |tail| ensures tail[k] != ':' {
      assert tail[k] == text[c + 1 + k];
    }
  }

  lemma PlainCore(text: string)
    requires ':' in text && '.' !in text[LastIndexOf(text, ':') + 1..]
    ensures ParseCore(text) == ParseGroups(text)
  {
  }

  /** Whatever the core parser accepts is the text of a legal spelling. */
  lemma {:induction false} CoreInverse(text: string) returns (s: Spelling)
    requires ParseCore(text).Some?
    ensures LowerSpelling(s) && s.Text() == text && s.Hextets() == ParseCore(text).value
  {
    var c := LastIndexOf(text, ':');
    LastColonSplits(text);
    if '.' in text[c + 1..] {
      s := CoreInverseQuad(text[..c], text[c + 1..]);
    } else {
      PlainCore(text);
      s := CoreInversePlain(text);
    }
  }

  lemma CoreInversePlain(text: string) returns (s: Spelling)
    requires ':' in text && '.' !in text[LastIndexOf(text, ':') + 1..]
    requires ParseGroups(text).Some?
    ensures LowerSpelling(s) && s.Text() == text && s.Hextets() == ParseGroups(text).value
  {
    var f := ParseGroupsInverse(text);
    s := Spelling(f, None);
    WithoutQuadIsForm(f);
    WithoutQuadSame(s);
  }

  lemma WithoutQuadIsForm(f: Form)
    requires LowerForm(f)
    ensures LowerSpelling(Spelling(f, None)) && WithoutQuad(Spelling(f, None)) == f
    ensures Spelling(f, None).Text() == FormText(f)
  {
    var s := Spelling(f, None);
    match f
    case Full(groups) =>
      assert groups + s.Tail() == groups;
      LowerGroupsAreLower(groups);
    case Compressed(head, rest) =>
      assert rest + s.Tail() == rest;
      LowerGroupsAreLower(head);
      LowerGroupsAreLower(rest);
  }

  lemma SpellingOfCut(f: Form, shorter: Form, q: Quad)
    requires q.Legal() && LowerForm(f) && Extend(shorter, QuadGroups(q)) == f
    ensures LowerSpelling(Spelling(shorter, Some(q)))
  {
    var s := Spelling(shorter, Some(q));
    match shorter
    case Full(groups) =>
      assert f.groups[..|groups|] == groups;
      LowerGroupsAreLower(groups);
    case Compressed(head, rest) =>
      assert f.rest[..|rest|] == rest;
      LowerGroupsAreLower(head);
      LowerGroupsAreLower(rest);
  }
}
