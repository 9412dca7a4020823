/** From core spellings to whole address texts: letter case, white space, brackets and
    zone ids, and the denotational reading of the link-local test. */
module AddressDenotation {
  import opened Text
  import opened GatewayRules
  import opened AddressSpelling
  import opened Digits

  // -------------------------------------------------------------- letter case

  lemma {:induction false} LowerJoin(ps: seq<string>, c: char)
    requires LowerChar(c) == c
    ensures Lower(Join(ps, c)) == Join(LowerAll(ps), c)
  {
    if |ps| > 1 {
      LowerJoin(ps[1..], c);
      assert LowerAll(ps)[1..] == LowerAll(ps[1..]);
    }
  }

  lemma {:induction false} RecaseJoin(text: string, ps: seq<string>) returns (qs: seq<string>)
    requires Lower(text) == Join(ps, ':')
    ensures Join(qs, ':') == text && LowerAll(qs) == ps
  {
    if |ps| == 0 {
      qs := [];
    } else if |ps| == 1 {
      qs := [text];
    } else {
      var n := |ps[0]|;
      assert Lower(text)[n] == ':' && text[n] == ':';
      assert Lower(text[..n]) == Lower(text)[..n] == ps[0];
      assert Lower(text[n + 1..]) == Lower(text)[n + 1..] == Join(ps[1..], ':');
      var more := RecaseJoin(text[n + 1..], ps[1..]);
      qs := [text[..n]] + more;
      assert qs[1..] == more;
      assert text == text[..n] + ":" + text[n + 1..];
    }
  }

  lemma LowerOfOctets(text: string)
    requires forall i | 0 <= i < |text| :: IsDigit(Lower(text)[i]) || Lower(text)[i] == '.'
    ensures Lower(text) == text
  {
    forall i | 0 <= i < |text| ensures Lower(text)[i] == text[i] {}
  }

  lemma {:induction false} JoinChars(ps: seq<string>, c: char, ok: char -> bool)
    requires ok(c) && forall p, i | p in ps && 0 <= i < |p| :: ok(p[i])
    ensures forall i | 0 <= i < |Join(ps, c)| :: ok(Join(ps, c)[i])
  {
    if |ps| > 1 {
      JoinChars(ps[1..], c, ok);
    } else if |ps| == 1 {
      assert ps[0] in ps;
    }
  }

  lemma QuadTextChars(q: Quad)
    requires q.Legal()
    ensures forall i | 0 <= i < |q.Text()| :: IsDigit(q.Text()[i]) || q.Text()[i] == '.'
  {
    JoinChars(q.octets, '.', c => IsDigit(c) || c == '.');
  }

  /** The same spelling in lower case. */
  function LowerOf(s: Spelling): Spelling {
    match s.form
    case Full(groups) => Spelling(Full(LowerAll(groups)), s.quad)
    case Compressed(head, rest) => Spelling(Compressed(LowerAll(head), LowerAll(rest)), s.quad)
  }

  lemma LowerOfTail(s: Spelling)
    requires s.Legal()
    ensures LowerAll(s.Tail()) == s.Tail()
  {
    if s.quad.Some? {
      QuadTextChars(s.quad.value);
      var t := s.quad.value.Text();
      assert forall i | 0 <= i < |t| :: Lower(t)[i] == t[i];
      assert Lower(t) == t;
    }
  }

  /** Groups in small letters are legal too, and worth the same. */
  lemma LegalGroupsLower(groups: seq<string>)
    requires LegalGroups(groups)
    ensures LowerGroups(LowerAll(groups)) && LegalGroups(LowerAll(groups))
    ensures HexWorths(LowerAll(groups)) == HexWorths(groups)
  {
    forall i | 0 <= i < |groups|
      ensures IsGroupText(LowerAll(groups)[i]) && IsHexGroup(LowerAll(groups)[i])
      ensures HexWorth(LowerAll(groups)[i]) == HexWorth(groups[i])
    {
      LowerGroupIsRead(groups[i]);
    }
  }

  lemma LowerGroupIsRead(g: string)
    requires IsHexGroup(g)
    ensures IsGroupText(Lower(g)) && IsHexGroup(Lower(g)) && HexWorth(Lower(g)) == HexWorth(g)
  {
    assert Lower(Lower(g)) == Lower(g);
    GroupIsRead(g);
    GroupIsRead(Lower(g));
  }

  lemma LowerAllAppend(a: seq<string>, b: seq<string>)
    ensures LowerAll(a + b) == LowerAll(a) + LowerAll(b)
  {
  }

  lemma LowerOfLegal(s: Spelling)
    requires s.Legal()
    ensures LowerSpelling(LowerOf(s)) && LowerOf(s).Hextets() == s.Hextets()
  {
    match s.form
    case Full(groups) =>
      LegalGroupsLower(groups);
    case Compressed(head, rest) =>
      LegalGroupsLower(head);
      LegalGroupsLower(rest);
  }

  lemma LowerJoinTail(groups: seq<string>, s: Spelling)
    requires s.Legal()
    ensures Lower(Join(groups + s.Tail(), ':')) == Join(LowerAll(groups) + s.Tail(), ':')
  {
    LowerJoin(groups + s.Tail(), ':');
    LowerAllAppend(groups, s.Tail());
    LowerOfTail(s);
  }

  lemma LowerOfText(s: Spelling)
    requires s.Legal()
    ensures LowerOf(s).Text() == Lower(s.Text())
  {
    match s.form
    case Full(groups) =>
      LowerJoinTail(groups, s);
      assert LowerOf(s).Text() == Join(LowerAll(groups) + s.Tail(), ':');
    case Compressed(head, rest) =>
      LowerJoin(head, ':');
      LowerJoinTail(rest, s);
      LowerAppend(Join(head, ':') + "::", Join(rest + s.Tail(), ':'));
      LowerAppend(Join(head, ':'), "::");
      assert Lower("::") == "::";
      assert LowerOf(s).Text() == Join(LowerAll(head), ':') + "::" + Join(LowerAll(rest) + s.Tail(), ':');
  }

  /** Undo `LowerAll` on a list that ends in a spelling's tail. */
  lemma RecaseWithTail(text: string, groups: seq<string>, s: Spelling) returns (recased: seq<string>)
    requires s.Legal() && Lower(text) == Join(groups + s.Tail(), ':')
    ensures Join(recased + s.Tail(), ':') == text && LowerAll(recased) == groups
  {
    var qs := RecaseJoin(text, groups + s.Tail());
    recased := qs[..|groups|];
    assert LowerAll(qs)[..|groups|] == LowerAll(recased);
    if s.quad.Some? {
      var last := qs[|groups|];
      assert LowerAll(qs)[|groups|] == Lower(last) == s.Tail()[0];
      QuadTextChars(s.quad.value);
      LowerOfOctets(last);
      assert qs == recased + [last];
    } else {
      assert qs == recased + [];
    }
  }

  lemma Recase(text: string, s: Spelling) returns (r: Spelling)
    requires LowerSpelling(s) && Lower(text) == s.Text()
    ensures r.Legal() && r.Text() == text && r.Hextets() == s.Hextets()
  {
    match s.form
    case Full(groups) =>
      var g := RecaseWithTail(text, groups, s);
      RecasedLegal(g, groups);
      r := Spelling(Full(g), s.quad);
    case Compressed(head, rest) =>
      var h, t := RecaseHalves(text, head, rest, s);
      RecasedLegal(h, head);
      RecasedLegal(t, rest);
      r := Spelling(Compressed(h, t), s.quad);
  }

  lemma RecaseHalves(text: string, head: seq<string>, rest: seq<string>, s: Spelling)
      returns (h: seq<string>, t: seq<string>)
    requires s.Legal() && Lower(text) == Join(head, ':') + "::" + Join(rest + s.Tail(), ':')
    ensures text == Join(h, ':') + "::" + Join(t + s.Tail(), ':')
    ensures LowerAll(h) == head && LowerAll(t) == rest
  {
    var n := |Join(head, ':')|;
    assert Lower(text)[n] == ':' && Lower(text)[n + 1] == ':';
    assert text[n] == ':' && text[n + 1] == ':';
    assert text == text[..n] + "::" + text[n + 2..];
    assert Lower(text[..n]) == Lower(text)[..n] == Join(head, ':');
    assert Lower(text[n + 2..]) == Lower(text)[n + 2..] == Join(rest + s.Tail(), ':');
    h := RecaseJoin(text[..n], head);
    t := RecaseWithTail(text[n + 2..], rest, s);
  }

  lemma RecasedLegal(g: seq<string>, groups: seq<string>)
    requires LowerGroups(groups) && LowerAll(g) == groups
    ensures LegalGroups(g) && HexWorths(g) == HexWorths(groups)
  {
    forall i | 0 <= i < |g| ensures IsHexGroup(g[i]) {
      assert groups[i] in groups && LowerAll(g)[i] == Lower(g[i]);
      GroupIsRead(g[i]);
    }
    LegalGroupsLower(g);
  }

  // ------------------------------------------- white space, brackets and zone

  predicate IsCoreChar(c: char) {
    IsHexDigit(LowerChar(c)) || c == ':' || c == '.'
  }

  lemma LegalGroupChars(groups: seq<string>)
    requires LegalGroups(groups)
    ensures forall p, i | p in groups && 0 <= i < |p| :: IsCoreChar(p[i])
  {
    forall p, i | p in groups && 0 <= i < |p| ensures IsCoreChar(p[i]) {
      var k :| 0 <= k < |groups| && groups[k] == p;
      assert Lower(groups[k])[i] == LowerChar(p[i]);
    }
  }

  lemma TailChars(s: Spelling)
    requires s.Legal()
    ensures forall p, i | p in s.Tail() && 0 <= i < |p| :: IsCoreChar(p[i])
  {
    if s.quad.Some? { QuadTextChars(s.quad.value); }
  }

  lemma CoreChars(s: Spelling)
    requires s.Legal()
    ensures s.Text() != "" && forall i | 0 <= i < |s.Text()| :: IsCoreChar(s.Text()[i])
  {
    TailChars(s);
    match s.form
    case Full(groups) =>
      LegalGroupChars(groups);
      JoinChars(groups + s.Tail(), ':', IsCoreChar);
      assert s.Text() != "" by {
        assert IsGroupText(Lower(groups[0]));
        assert (groups + s.Tail())[0] == groups[0];
      }
    case Compressed(head, rest) =>
      LegalGroupChars(head);
      LegalGroupChars(rest);
      JoinChars(head, ':', IsCoreChar);
      JoinChars(rest + s.Tail(), ':', IsCoreChar);
  }

  function ZoneText(zone: Option<string>): string {
    if zone.Some? then "%" + zone.value else ""
  }

  lemma PercentIndex(core: string, z: string)
    requires '%' !in core && (z != "" ==> z[0] == '%')
    ensures StripZone(core + z) == core
  {
    var text := core + z;
    forall j | 0 <= j < |core| ensures !("%" <= text[j..]) {
      assert text[j..][0] == core[j];
    }
    if z == "" {
      assert text == core;
      assert IndexOf(text, "%") < |core|;
    } else {
      assert text[|core|..] == z && z[..1] == "%";
      IndexOfIs(text, "%", |core|);
      assert text[..|core|] == core;
    }
  }

  /** Trimming a bare address leaves the core and whatever is left of the zone. */
  lemma TrimBare(lead: string, core: string, z: string, tail: string) returns (rest: string)
    requires AllSpace(lead) && AllSpace(tail) && core != "" && IsTrimmed(core)
    requires z != "" ==> z[0] == '%'
    ensures Trim(lead + (core + z) + tail) == core + rest && (rest != "" ==> rest[0] == '%')
  {
    if z == "" {
      rest := "";
      assert core + z == core && core + rest == core;
      TrimBetween(lead, core, tail);
    } else {
      var body := core + z + tail;
      assert lead + (core + z) + tail == lead + body;
      TrimStartSpace(lead, body);
      assert TrimStart(body) == body;
      assert body[|core|] == '%';
      KeepsThePercent(body, |core|);
      rest := TrimEnd(body)[|core|..];
      assert TrimEnd(body)[..|core|] == body[..|core|] == core;
    }
  }

  lemma KeepsThePercent(body: string, at: nat)
    requires at < |body| && body[at] == '%'
    ensures |TrimEnd(body)| > at && TrimEnd(body) <= body
  {
    var cut := TrimEndShape(body);
    var n := |TrimEnd(body)|;
    forall k | n <= k < |body| ensures IsSpace(body[k]) {
      assert body[k] == cut[k - n];
    }
  }

  lemma StripBracketsLower(text: string)
    ensures StripBrackets(Lower(text)) == Lower(StripBrackets(text))
  {
  }

  lemma StripZoneLower(text: string)
    ensures StripZone(Lower(text)) == Lower(StripZone(text))
  {
    var i := IndexOf(text, "%");
    forall j | 0 <= j <= |text| ensures "%" <= Lower(text)[j..] <==> "%" <= text[j..] {
      if j < |text| {
        assert Lower(text)[j..][0] == LowerChar(text[j]) && text[j..][0] == text[j];
        assert text[j] == '%' ==> text[j..][..1] == "%" && Lower(text)[j..][..1] == "%";
      }
    }
    if i >= 0 {
      IndexOfIs(Lower(text), "%", i);
    } else {
      var k := IndexOf(Lower(text), "%");
      assert k < 0;
    }
  }

  lemma UnwrapBracketed(lead: string, core: string, z: string, tail: string)
    requires AllSpace(lead) && AllSpace(tail) && '%' !in core
    requires z != "" ==> z[0] == '%'
    ensures StripZone(StripBrackets(Lower(Trim(lead + ("[" + (core + z) + "]") + tail)))) == Lower(core)
  {
    var x := "[" + (core + z) + "]";
    TrimBetween(lead, x, tail);
    assert StripBrackets(x) == core + z;
    StripBracketsLower(x);
    StripZoneLower(core + z);
    PercentIndex(core, z);
  }

  lemma UnwrapBare(lead: string, core: string, z: string, tail: string)
    requires AllSpace(lead) && AllSpace(tail) && core != "" && IsTrimmed(core) && '%' !in core
    requires core[0] != '[' && (z != "" ==> z[0] == '%')
    ensures StripZone(StripBrackets(Lower(Trim(lead + (core + z) + tail)))) == Lower(core)
  {
    var rest := TrimBare(lead, core, z, tail);
    var x := core + rest;
    assert x[0] == core[0];
    assert StripBrackets(x) == x;
    StripBracketsLower(x);
    StripZoneLower(x);
    PercentIndex(core, rest);
  }

  lemma CoreIsPlain(core: string)
    requires core != "" && forall i | 0 <= i < |core| :: IsCoreChar(core[i])
    ensures IsTrimmed(core) && '%' !in core && core[0] != '['
  {
    assert !IsCoreChar('%');
    assert IsCoreChar(core[0]) && IsCoreChar(core[|core| - 1]);
  }

  lemma UnwrapForward(lead: string, tail: string, w: Wrapping, core: string)
    requires AllSpace(lead) && AllSpace(tail)
    requires core != "" && forall i | 0 <= i < |core| :: IsCoreChar(core[i])
    ensures StripZone(StripBrackets(Lower(Trim(lead + w.Around(core) + tail)))) == Lower(core)
  {
    CoreIsPlain(core);
    var z := ZoneText(w.zone);
    if w.bracketed {
      assert w.Around(core) == "[" + (core + z) + "]";
      UnwrapBracketed(lead, core, z, tail);
    } else {
      assert w.Around(core) == core + z;
      UnwrapBare(lead, core, z, tail);
    }
  }

  /** Every legal spelling is read as the address it denotes. */
  lemma RoundTrip(text: string, h: seq<nat>)
    requires Spells(text, h)
    ensures Ipv6Value(text) == Some(h)
  {
    var lead, tail, w: Wrapping, s: Spelling :| SpellsAs(text, h, lead, tail, w, s);
    CoreChars(s);
    UnwrapForward(lead, tail, w, s.Text());
    LowerOfLegal(s);
    LowerOfText(s);
    CoreOfLower(LowerOf(s));
  }

  lemma ZoneSplit(u: string) returns (zone: Option<string>)
    ensures u == StripZone(u) + ZoneText(zone)
  {
    var i := IndexOf(u, "%");
    if i >= 0 {
      zone := Some(u[i + 1..]);
      assert u[i] == u[i..][0] == '%';
      assert u == u[..i] + ("%" + u[i + 1..]);
    } else {
      zone := None;
      assert u + "" == u;
    }
  }

  lemma BracketSplit(t: string)
    ensures StripBrackets(t) != t ==> t == "[" + StripBrackets(t) + "]"
  {
    if StripBrackets(t) != t {
      assert t == [t[0]] + t[1..|t| - 1] + [t[|t| - 1]];
    }
  }

  /** What the parser strips off can be put back. */
  lemma Rewrap(t: string) returns (w: Wrapping, core: string)
    ensures w.Around(core) == t
    ensures StripZone(StripBrackets(Lower(t))) == Lower(core)
  {
    var u := StripBrackets(t);
    core := StripZone(u);
    StripBracketsLower(t);
    StripZoneLower(u);
    var zone := ZoneSplit(u);
    BracketSplit(t);
    w := Wrapping(u != t, zone);
    assert w.Around(core) == if u != t then "[" + (core + ZoneText(zone)) + "]" else core + ZoneText(zone);
  }

  /** Nothing but a legal spelling is accepted. */
  lemma OnlySpellings(text: string)
    requires Ipv6Value(text).Some?
    ensures Spells(text, Ipv6Value(text).value)
  {
    var lead, tail := TrimShape(text);
    var w, core := Rewrap(Trim(text));
    var lower := CoreInverse(Lower(core));
    var s := Recase(core, lower);
    assert SpellsAs(text, Ipv6Value(text).value, lead, tail, w, s);
  }

  /** The parser accepts exactly the legal spellings, each with its own meaning. */
  lemma ParserIsExact(text: string, h: seq<nat>)
    ensures Ipv6Value(text) == Some(h) <==> Spells(text, h)
  {
    if Spells(text, h) {
      RoundTrip(text, h);
    }
    if Ipv6Value(text) == Some(h) {
      OnlySpellings(text);
    }
  }

  lemma ParserIsExactForAll(text: string)
    ensures forall h :: Ipv6Value(text) == Some(h) <==> Spells(text, h)
  {
    forall h ensures Ipv6Value(text) == Some(h) <==> Spells(text, h) {
      ParserIsExact(text, h);
    }
  }

  /** The rest of the parser, once white space, case, brackets and zone are gone. */
  method ParseStripped(stripped: string) returns (hextets: Option<seq<nat>>)
    ensures hextets == ParseCore(stripped)
  {
    var text := stripped;
    if ':' !in text {
      return None;
    }
    var lastColon := LastIndexOf(text, ':');
    var tail := text[lastColon + 1..];
    if '.' in tail {
      var quad := ParseIpv4(tail);
      if quad.None? {
        return None;
      }
      var high := ToHex(quad.value[0] * 256 + quad.value[1]);
      var low := ToHex(quad.value[2] * 256 + quad.value[3]);
      text := text[..lastColon] + ":" + high + ":" + low;
    }
    hextets := ParseGroups(text);
  }

  /** Case, white space, brackets and zone, taken off one after the other. */
  method Unwrap(value: string) returns (text: string)
    ensures text == StripZone(StripBrackets(Lower(Trim(value))))
  {
    text := Lower(Trim(value));
    if |text| >= 2 && text[0] == '[' && text[|text| - 1] == ']' {
      text := text[1..|text| - 1];
    }
    var zone := IndexOf(text, "%");
    if zone != -1 {
      text := text[..zone];
    }
  }

  /** The parser as the source writes it: one text, rewritten step by step. */
  method ParseIpv6(value: string) returns (hextets: Option<seq<nat>>)
    ensures hextets == Ipv6Value(value)
    ensures forall h :: hextets == Some(h) <==> Spells(value, h)
  {
    var text := Unwrap(value);
    hextets := ParseStripped(text);
    ParserIsExactForAll(value);
  }

  // --------------------------------------------------------- link-local range

  /** The 128-bit number of an address. */
  function Value128(h: seq<nat>): nat
    requires |h| == 8
  {
    ((((((h[0] * 0x10000 + h[1]) * 0x10000 + h[2]) * 0x10000 + h[3]) * 0x10000
      + h[4]) * 0x10000 + h[5]) * 0x10000 + h[6]) * 0x10000 + h[7]
  }

  const TWO_TO_16: nat := 0x10000
  const TWO_TO_32: nat := 0x1_0000_0000
  const TWO_TO_118: nat := 0x40_0000_0000_0000_0000_0000_0000_0000

  /** `fe80::/10`, or `169.254.0.0/16` embedded in the mapped or compatible form. */
  predicate InLinkLocalRange(v: nat) {
    || v / TWO_TO_118 == 0x3fa
    || ((v / TWO_TO_32 == 0 || v / TWO_TO_32 == 0xffff) && v / TWO_TO_16 % TWO_TO_16 == 0xa9fe)
  }

  function Pow2(k: nat): nat {
    if k == 0 then 1 else 2 * Pow2(k - 1)
  }

  lemma {:induction false} LowBits(k: nat, t: nat, u: nat)
    requires u < Pow2(k)
    ensures Pow2(k) * t + u >= 0
    ensures BitAnd(Pow2(k) * t + u, Pow2(k) - 1) == u
  {
    if k > 0 {
      var q := Pow2(k - 1);
      DoubleTimes(q, t);
      LowBits(k - 1, t, u / 2);
      LowBitsStep(q * t, q, u);
    }
  }

  lemma {:induction false} LowBitsStep(p: nat, q: nat, u: nat)
    requires q >= 1 && u < 2 * q && BitAnd(p + u / 2, q - 1) == u / 2
    ensures BitAnd(2 * p + u, 2 * q - 1) == u
  {
    BitAndStep(2 * p + u, 2 * q - 1);
    assert (2 * p + u) / 2 == p + u / 2 && (2 * p + u) % 2 == u % 2;
    assert (2 * q - 1) / 2 == q - 1 && (2 * q - 1) % 2 == 1;
  }

  lemma DoubleTimes(q: nat, t: nat)
    ensures 2 * q * t == 2 * (q * t)
  {
  }

  lemma {:induction false} BitAndStep(a: nat, b: nat)
    ensures BitAnd(a, b) == (if a % 2 == 1 && b % 2 == 1 then 1 else 0) + 2 * BitAnd(a / 2, b / 2)
  {
  }

  lemma BitAndEven(a: nat, m: nat)
    ensures BitAnd(a, 2 * m) == 2 * BitAnd(a / 2, m)
  {
  }

  /** The prefix mask keeps the top ten bits. */
  lemma PrefixMask(n: nat)
    requires n < 0x10000
    ensures BitAnd(n, 0xffc0) == 0xfe80 <==> n / 64 == 0x3fa
  {
    var n1, n2, n3, n4, n5 := n / 2, n / 2 / 2, n / 2 / 2 / 2, n / 2 / 2 / 2 / 2, n / 2 / 2 / 2 / 2 / 2;
    BitAndEven(n, 0x7fe0);
    BitAndEven(n1, 0x3ff0);
    BitAndEven(n2, 0x1ff8);
    BitAndEven(n3, 0xffc);
    BitAndEven(n4, 0x7fe);
    BitAndEven(n5, 0x3ff);
    assert n5 / 2 == n / 64 < 0x400;
    PowTen();
    LowBits(10, 0, n / 64);
  }

  lemma PowTen()
    ensures Pow2(8) == 0x100 && Pow2(10) == 0x400
  {
    assert Pow2(4) == 16;
  }

  lemma LowByte(n: nat)
    ensures BitAnd(n, 0xff) == n % 256
  {
    PowTen();
    LowBits(8, n / 256, n % 256);
  }

  lemma PrefixOfValue(h: seq<nat>)
    requires |h| == 8 && forall i | 0 <= i < 8 :: h[i] < 0x10000
    ensures Value128(h) / TWO_TO_118 == h[0] / 64
  {
    var r := (((((h[1] * 0x10000 + h[2]) * 0x10000 + h[3]) * 0x10000
             + h[4]) * 0x10000 + h[5]) * 0x10000 + h[6]) * 0x10000 + h[7];
    assert Value128(h) == h[0] * 0x10000_0000_0000_0000_0000_0000_0000 + r;
    assert r < 0x10000_0000_0000_0000_0000_0000_0000;
  }

  lemma EmbeddedOfValue(h: seq<nat>)
    requires |h| == 8 && forall i | 0 <= i < 8 :: h[i] < 0x10000
    ensures Value128(h) / TWO_TO_32 == 0 <==> forall i | 0 <= i < 6 :: h[i] == 0
    ensures Value128(h) / TWO_TO_32 == 0xffff <==> (forall i | 0 <= i < 5 :: h[i] == 0) && h[5] == 0xffff
    ensures Value128(h) / TWO_TO_16 % TWO_TO_16 == h[6]
  {
    var top := ((((h[0] * 0x10000 + h[1]) * 0x10000 + h[2]) * 0x10000 + h[3]) * 0x10000 + h[4]);
    assert Value128(h) == (top * 0x10000 + h[5]) * TWO_TO_32 + (h[6] * 0x10000 + h[7]);
    assert Value128(h) / TWO_TO_32 == top * 0x10000 + h[5];
    assert Value128(h) / TWO_TO_16 == (top * 0x10000 + h[5]) * 0x10000 + h[6];
    assert top == 0 <==> forall i | 0 <= i < 5 :: h[i] == 0;
  }

  /** The test on hextets is a range test on the 128-bit value. */
  lemma HextetsInRange(h: seq<nat>)
    requires |h| == 8 && forall i | 0 <= i < 8 :: h[i] < 0x10000
    ensures IsLinkLocalHextets(h) <==> InLinkLocalRange(Value128(h))
  {
    PrefixMask(h[0]);
    PrefixOfValue(h);
    EmbeddedInRange(h);
  }

  lemma EmbeddedInRange(h: seq<nat>)
    requires |h| == 8 && forall i | 0 <= i < 8 :: h[i] < 0x10000
    ensures (forall i | 0 <= i < 5 :: h[i] == 0) && (h[5] == 0xffff || h[5] == 0)
            && h[6] / 256 == 169 && BitAnd(h[6], 0xff) == 254
       <==> (Value128(h) / TWO_TO_32 == 0 || Value128(h) / TWO_TO_32 == 0xffff)
            && Value128(h) / TWO_TO_16 % TWO_TO_16 == 0xa9fe
  {
    LinkLocalHextet(h[6]);
    EmbeddedOfValue(h);
  }

  lemma LinkLocalHextet(n: nat)
    ensures n / 256 == 169 && BitAnd(n, 0xff) == 254 <==> n == 0xa9fe
  {
    LowByte(n);
    assert n == n / 256 * 256 + n % 256;
  }

  lemma QuadTextIsNotIpv6(text: string)
    requires ':' !in text
    ensures Ipv6Value(text).None?
  {
    var lead, tail := TrimShape(text);
    var w, core := Rewrap(Trim(text));
    NoColonAround(w, core);
    assert ':' !in Trim(text);
    NoColonLower(core);
  }

  lemma NoColonAround(w: Wrapping, core: string)
    ensures ':' in core ==> ':' in w.Around(core)
  {
  }

  lemma NoColonLower(core: string)
    ensures ':' in Lower(core) ==> ':' in core
  {
    if ':' in Lower(core) {
      var i :| 0 <= i < |core| && Lower(core)[i] == ':';
      assert core[i] == ':';
    }
  }

  lemma QuadSpelling(text: string, o: seq<nat>)
    ensures ParseIpv4(text) == Some(o) <==> SpellsQuad(text, o)
    ensures SpellsQuad(text, o) ==> ':' !in text && |o| == 4
  {
    if ParseIpv4(text) == Some(o) {
      var q := QuadInverse(text);
    }
    if SpellsQuad(text, o) {
      var q: Quad :| q.Legal() && q.Text() == text && DecimalWorths(q.octets) == o;
      QuadRoundTrip(q);
      QuadTextShape(q);
    }
  }

  /** `text` denotes a link-local IPv4 address. */
  ghost predicate LinkLocalQuad(text: string) {
    exists o :: SpellsQuad(text, o) && |o| == 4 && o[0] == 169 && o[1] == 254
  }

  /** `text` denotes an IPv6 address in the link-local range. */
  ghost predicate LinkLocalValue(text: string) {
    exists h :: Spells(text, h) && |h| == 8 && InLinkLocalRange(Value128(h))
  }

  /** Link-local is a property of the address a text denotes, whatever the spelling. */
  lemma LinkLocalIsExact(text: string)
    ensures IsLinkLocalAddress(text) <==> LinkLocalQuad(text) || LinkLocalValue(text)
  {
    Ipv6ValueShape(text);
    forall o ensures ParseIpv4(text) == Some(o) <==> SpellsQuad(text, o) { QuadSpelling(text, o); }
    ParserIsExactForAll(text);
    if ParseIpv4(text).Some? {
      QuadSpelling(text, ParseIpv4(text).value);
      QuadTextIsNotIpv6(text);
    } else if Ipv6Value(text).Some? {
      HextetsInRange(Ipv6Value(text).value);
    }
  }

  /** Two spellings of one address always get the same answer. */
  lemma SameAddressSameAnswer(a: string, b: string, h: seq<nat>)
    requires Spells(a, h) && Spells(b, h)
    ensures IsLinkLocalAddress(a) == IsLinkLocalAddress(b)
  {
    RoundTrip(a, h);
    RoundTrip(b, h);
    if ParseIpv4(a).Some? {
      QuadSpelling(a, ParseIpv4(a).value);
      QuadTextIsNotIpv6(a);
    }
    if ParseIpv4(b).Some? {
      QuadSpelling(b, ParseIpv4(b).value);
      QuadTextIsNotIpv6(b);
    }
  }

  lemma Ffff()
    ensures HexWorths(["ffff"]) == [0xffff] && LegalGroups(["ffff"])
  {
    assert Lower("ffff") == "ffff";
    assert "ffff"[..3] == "fff" && "fff"[..2] == "ff" && "ff"[..1] == "f" && "f"[..0] == "";
    assert NumberOf("f", 16) == 15 && NumberOf("ff", 16) == 0xff && NumberOf("fff", 16) == 0xfff;
    GroupIsRead("ffff");
  }

  /** The IPv4-mapped form, or else the IPv4-compatible one. */
  function EmbeddedForm(q: Quad, mapped: bool): Spelling {
    Spelling(Compressed([], if mapped then ["ffff"] else []), Some(q))
  }

  lemma EmbeddedText(q: Quad, mapped: bool)
    ensures EmbeddedForm(q, mapped).Text() == (if mapped then "::ffff:" else "::") + q.Text()
  {
    var t := q.Text();
    if mapped {
      assert ["ffff"] + [t] == ["ffff", t];
      JoinOfTwo("", "ffff", t);
    } else {
      assert [] + [t] == [t];
    }
  }

  lemma EmbeddedHextets(q: Quad, mapped: bool)
    requires q.Legal()
    ensures EmbeddedForm(q, mapped).Legal()
    ensures EmbeddedForm(q, mapped).Hextets() == [0, 0, 0, 0, 0, if mapped then 0xffff else 0] + q.Hextets()
  {
    Ffff();
    assert HexWorths([]) == [];
    assert Zeros(5) == [0, 0, 0, 0, 0] && Zeros(6) == [0, 0, 0, 0, 0, 0];
  }

  lemma EmbeddedSpelling(q: Quad, mapped: bool)
    requires q.Legal()
    ensures Spells((if mapped then "::ffff:" else "::") + q.Text(),
                   [0, 0, 0, 0, 0, if mapped then 0xffff else 0] + q.Hextets())
  {
    var s, w := EmbeddedForm(q, mapped), Wrapping(false, None);
    EmbeddedText(q, mapped);
    EmbeddedHextets(q, mapped);
    assert w.Around(s.Text()) == s.Text();
    assert s.Text() == "" + s.Text() + "";
    assert SpellsAs(s.Text(), s.Hextets(), "", "", w, s);
  }

  lemma EmbeddedHextetsAnswer(q: Quad, h: seq<nat>)
    requires q.Legal() && (h == [0, 0, 0, 0, 0, 0] + q.Hextets() || h == [0, 0, 0, 0, 0, 0xffff] + q.Hextets())
    ensures IsLinkLocalHextets(h) <==> DecimalWorth(q.octets[0]) == 169 && DecimalWorth(q.octets[1]) == 254
  {
    var a, b := DecimalWorth(q.octets[0]), DecimalWorth(q.octets[1]);
    assert q.octets[0] in q.octets && q.octets[1] in q.octets;
    assert h[6] == a * 256 + b && a <= 255 && b <= 255;
    LowByte(h[6]);
    assert BitAnd(0, 0xffc0) == 0;
  }

  /** A quad, its mapped form and its compatible form always get the same answer. */
  lemma EmbeddedFormsAgree(q: Quad)
    requires q.Legal()
    ensures IsLinkLocalAddress("::ffff:" + q.Text()) == IsLinkLocalAddress(q.Text())
    ensures IsLinkLocalAddress("::" + q.Text()) == IsLinkLocalAddress(q.Text())
  {
    QuadRoundTrip(q);
    EmbeddedAnswer(q, true);
    EmbeddedAnswer(q, false);
  }

  lemma EmbeddedAnswer(q: Quad, mapped: bool)
    requires q.Legal()
    ensures IsLinkLocalAddress((if mapped then "::ffff:" else "::") + q.Text())
        <==> DecimalWorth(q.octets[0]) == 169 && DecimalWorth(q.octets[1]) == 254
  {
    var text := (if mapped then "::ffff:" else "::") + q.Text();
    var h := [0, 0, 0, 0, 0, if mapped then 0xffff else 0] + q.Hextets();
    EmbeddedSpelling(q, mapped);
    RoundTrip(text, h);
    assert text[0] == ':';
    if ParseIpv4(text).Some? {
      QuadSpelling(text, ParseIpv4(text).value);
    }
    EmbeddedHextetsAnswer(q, h);
  }

  // ------------------------------------------------------- addresses as printed

  /** The octets in decimals, between dots. */
  function PrintedQuad(a: nat, b: nat, c: nat, d: nat): string {
    ToDecimal(a) + "." + ToDecimal(b) + "." + ToDecimal(c) + "." + ToDecimal(d)
  }

  lemma PrintedOctet(n: nat)
    requires n <= 255
    ensures IsDecimal(ToDecimal(n)) && DecimalWorth(ToDecimal(n)) == n
  {
    ToDecimalRoundTrip(n);
    OctetIsRead(ToDecimal(n));
  }

  lemma DotsRegroup(o: seq<string>)
    requires |o| == 4
    ensures o[0] + "." + o[1] + "." + o[2] + "." + o[3] == o[0] + ['.'] + (o[1] + ['.'] + (o[2] + ['.'] + o[3]))
  {
  }

  lemma PrintedIsSpelled(a: nat, b: nat, c: nat, d: nat) returns (q: Quad)
    requires a <= 255 && b <= 255 && c <= 255 && d <= 255
    ensures q.Legal() && q.Text() == PrintedQuad(a, b, c, d) && DecimalWorths(q.octets) == [a, b, c, d]
  {
    var n := [a, b, c, d];
    var o := seq(4, i requires 0 <= i < 4 => ToDecimal(n[i]));
    q := Quad(o);
    forall i | 0 <= i < 4 ensures IsDecimal(o[i]) && DecimalWorth(o[i]) == n[i] { PrintedOctet(n[i]); }
    JoinOfFour(o, '.');
    DotsRegroup(o);
    assert DecimalWorths(q.octets) == n;
  }

  /** A printed address is read as its four octets, and is link-local exactly in 169.254/16;
      so is each of its embedded forms. */
  lemma PrintedQuadIsRead(a: nat, b: nat, c: nat, d: nat)
    requires a <= 255 && b <= 255 && c <= 255 && d <= 255
    ensures ParseIpv4(PrintedQuad(a, b, c, d)) == Some([a, b, c, d])
    ensures IsLinkLocalAddress(PrintedQuad(a, b, c, d)) <==> a == 169 && b == 254
    ensures IsLinkLocalAddress("::ffff:" + PrintedQuad(a, b, c, d)) <==> a == 169 && b == 254
    ensures IsLinkLocalAddress("::" + PrintedQuad(a, b, c, d)) <==> a == 169 && b == 254
  {
    var q := PrintedIsSpelled(a, b, c, d);
    QuadRoundTrip(q);
    EmbeddedFormsAgree(q);
  }

  /** The metadata address itself. */
  lemma MetadataAddress()
    ensures ParseIpv4("169.254.169.254") == Some([169, 254, 169, 254])
    ensures IsLinkLocalAddress("169.254.169.254")
  {
    PrintedQuadIsRead(169, 254, 169, 254);
    PrintedMetadata();
  }

  lemma PrintedMetadata()
    ensures PrintedQuad(169, 254, 169, 254) == "169.254.169.254"
  {
    ThreeDigits(169, "169");
    ThreeDigits(254, "254");
    assert "169" + "." + "254" + "." + "169" + "." + "254" == "169.254.169.254";
  }

  lemma ThreeDigits(n: nat, text: string)
    requires 100 <= n < 1000
    requires text == [DECIMALS[n / 100], DECIMALS[n / 10 % 10], DECIMALS[n % 10]]
    ensures ToDecimal(n) == text
  {
    assert ToDecimal(n / 100) == [DECIMALS[n / 100]];
    assert ToDecimal(n / 10) == [DECIMALS[n / 100]] + [DECIMALS[n / 10 % 10]];
  }

  /** A link-local IPv6 address in capitals, with its zone. */
  lemma LinkLocalInCapitals()
    ensures Ipv6Value("FE80::1%en0") == Some([0xfe80, 0, 0, 0, 0, 0, 0, 1])
    ensures IsLinkLocalAddress("FE80::1%en0")
  {
    var s := Spelling(Compressed(["FE80"], ["1"]), None);
    var h := [0xfe80, 0, 0, 0, 0, 0, 0, 1];
    CapitalSpelling(s, h);
    CapitalText();
    assert SpellsAs("FE80::1%en0", h, "", "", Wrapping(false, Some("en0")), s);
    RoundTrip("FE80::1%en0", h);
    CapitalIsNoQuad();
    PrefixMask(0xfe80);
  }

  lemma CapitalSpelling(s: Spelling, h: seq<nat>)
    requires s == Spelling(Compressed(["FE80"], ["1"]), None) && h == [0xfe80, 0, 0, 0, 0, 0, 0, 1]
    ensures s.Legal() && s.Hextets() == h
  {
    CapitalGroups();
    assert Zeros(6) == [0, 0, 0, 0, 0, 0];
  }

  lemma CapitalIsNoQuad()
    ensures ParseIpv4("FE80::1%en0").None?
  {
    assert "FE80::1%en0"[4] == ':';
    if ParseIpv4("FE80::1%en0").Some? {
      QuadSpelling("FE80::1%en0", ParseIpv4("FE80::1%en0").value);
    }
  }

  lemma CapitalText()
    ensures var s := Spelling(Compressed(["FE80"], ["1"]), None);
            "FE80::1%en0" == "" + Wrapping(false, Some("en0")).Around(s.Text()) + ""
  {
    assert ["1"] + [] == ["1"];
    assert "FE80" + "::" + "1" == "FE80::1";
    assert "FE80::1" + ("%" + "en0") == "FE80::1%en0";
  }

  lemma CapitalGroups()
    ensures LegalGroups(["FE80"]) && HexWorths(["FE80"]) == [0xfe80]
    ensures LegalGroups(["1"]) && HexWorths(["1"]) == [1]
  {
    assert Lower("FE80") == "fe80" && Lower("1") == "1";
    assert "fe80"[..3] == "fe8" && "fe8"[..2] == "fe" && "fe"[..1] == "f" && "f"[..0] == "" && "1"[..0] == "";
    assert NumberOf("f", 16) == 15 && NumberOf("fe", 16) == 0xfe && NumberOf("fe8", 16) == 0xfe8;
    assert NumberOf("fe80", 16) == 0xfe80 && NumberOf("1", 16) == 1;
    GroupIsRead("FE80");
    GroupIsRead("1");
  }
}
