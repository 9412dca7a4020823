/** What digits are worth, by their place in the alphabet and in the text, and the proof that
    the parsers of `GatewayRules` read them so. */
module Digits {
  import opened Text
  import opened GatewayRules

  const DECIMALS: string := "0123456789"
  const HEX_SMALL: string := "0123456789abcdef"
  const HEX_CAPITAL: string := "0123456789ABCDEF"

  /** The first place of `c`, or the length. */
  function Position(c: char, alphabet: string): nat {
    if alphabet == "" || alphabet[0] == c then 0 else 1 + Position(c, alphabet[1..])
  }

  function Power(base: nat, k: nat): nat {
    if k == 0 then 1 else base * Power(base, k - 1)
  }

  /** What a digit contributes with `k` digits behind it. */
  function Weighed(worth: nat, base: nat, k: nat): nat {
    worth * Power(base, k)
  }

  /** One to three decimal digits. */
  predicate IsDecimal(s: string) {
    1 <= |s| <= 3 && forall i | 0 <= i < |s| :: s[i] in DECIMALS
  }

  function DecimalWorth(s: string): nat {
    if s == "" then 0 else Weighed(Position(s[0], DECIMALS), 10, |s| - 1) + DecimalWorth(s[1..])
  }

  /** One to four hexadecimal digits, of either case. */
  predicate IsHexGroup(s: string) {
    1 <= |s| <= 4 && forall i | 0 <= i < |s| :: IsHexChar(s[i])
  }

  predicate IsHexChar(c: char) {
    c in HEX_SMALL || c in HEX_CAPITAL
  }

  function HexCharWorth(c: char): nat {
    if c in HEX_SMALL then Position(c, HEX_SMALL) else Position(c, HEX_CAPITAL)
  }

  function HexWorth(s: string): nat {
    if s == "" then 0 else Weighed(HexCharWorth(s[0]), 16, |s| - 1) + HexWorth(s[1..])
  }

  function DecimalWorths(texts: seq<string>): (r: seq<nat>)
    ensures |r| == |texts|
  {
    seq(|texts|, i requires 0 <= i < |texts| => DecimalWorth(texts[i]))
  }

  function HexWorths(texts: seq<string>): (r: seq<nat>)
    ensures |r| == |texts|
  {
    seq(|texts|, i requires 0 <= i < |texts| => HexWorth(texts[i]))
  }

  // --------------------------------------------------------------- one digit

  lemma {:induction false} PositionIs(c: char, alphabet: string, k: nat)
    requires k < |alphabet| && alphabet[k] == c && forall j | 0 <= j < k :: alphabet[j] != c
    ensures Position(c, alphabet) == k
  {
    if k > 0 { PositionIs(c, alphabet[1..], k - 1); }
  }

  lemma DecimalsInOrder()
    ensures |DECIMALS| == 10 && forall k | 0 <= k < 10 :: DECIMALS[k] == '0' + k as char
  {
  }

  lemma HexInOrder()
    ensures |HEX_SMALL| == |HEX_CAPITAL| == 16
    ensures forall k | 0 <= k < 10 :: HEX_SMALL[k] == HEX_CAPITAL[k] == '0' + k as char
    ensures forall k | 10 <= k < 16 :: HEX_SMALL[k] == 'a' + (k - 10) as char
    ensures forall k | 10 <= k < 16 :: HEX_CAPITAL[k] == 'A' + (k - 10) as char
  {
  }

  lemma DecimalDigit(c: char)
    ensures c in DECIMALS <==> IsDigit(c)
    ensures IsDigit(c) ==> DigitValue(c) == Position(c, DECIMALS) < 10
  {
    DecimalsInOrder();
    if IsDigit(c) {
      var k := (c - '0') as nat;
      assert DECIMALS[k] == c;
      PositionIs(c, DECIMALS, k);
    }
  }

  lemma SmallDigit(c: char)
    ensures c in HEX_SMALL <==> IsHexDigit(c)
    ensures IsHexDigit(c) ==> DigitValue(c) == Position(c, HEX_SMALL)
  {
    HexInOrder();
    if IsHexDigit(c) {
      var k := DigitValue(c);
      assert HEX_SMALL[k] == c;
      PositionIs(c, HEX_SMALL, k);
    }
  }

  lemma CapitalLetter(c: char)
    requires 'A' <= c <= 'F'
    ensures c in HEX_CAPITAL && c !in HEX_SMALL
    ensures DigitValue(LowerChar(c)) == Position(c, HEX_CAPITAL)
  {
    SmallDigit(c);
    var k := (c - 'A') as nat + 10;
    CapitalPlace(c, k);
    PositionIs(c, HEX_CAPITAL, k);
  }

  lemma CapitalPlace(c: char, k: nat)
    requires 'A' <= c <= 'F' && k == (c - 'A') as nat + 10
    ensures k < |HEX_CAPITAL| && HEX_CAPITAL[k] == c
    ensures forall j | 0 <= j < k :: HEX_CAPITAL[j] != c
  {
    HexInOrder();
    forall j | 0 <= j < k ensures HEX_CAPITAL[j] != c {
      if j < 10 {
        assert HEX_CAPITAL[j] == '0' + j as char;
      } else {
        assert HEX_CAPITAL[j] == 'A' + (j - 10) as char;
      }
    }
  }

  lemma NoCapital(c: char)
    requires c in HEX_CAPITAL
    ensures IsDigit(c) || 'A' <= c <= 'F'
  {
    HexInOrder();
    var k :| 0 <= k < 16 && HEX_CAPITAL[k] == c;
  }

  lemma HexCharAgrees(c: char)
    ensures IsHexChar(c) <==> IsHexDigit(LowerChar(c))
    ensures IsHexChar(c) ==> HexCharWorth(c) == DigitValue(LowerChar(c))
  {
    SmallDigit(c);
    if c in HEX_CAPITAL { NoCapital(c); }
    if 'A' <= c <= 'F' { CapitalLetter(c); }
  }

  // ------------------------------------------------------------------ a text

  lemma Distribute(base: nat, d: nat, p: nat, n: nat)
    ensures base * (d * p + n) == d * (base * p) + base * n
  {
  }

  /** The first digit weighs as much as there are digits behind it. */
  lemma {:induction false} NumberOfFront(c: char, t: string, base: nat)
    ensures NumberOf([c] + t, base) == DigitValue(c) * Power(base, |t|) + NumberOf(t, base)
  {
    var s := [c] + t;
    if t == "" {
      assert s[..0] == "" && s[0] == c;
    } else {
      var front := t[..|t| - 1];
      assert s[..|s| - 1] == [c] + front;
      NumberOfFront(c, front, base);
      Distribute(base, DigitValue(c), Power(base, |front|), NumberOf(front, base));
    }
  }

  lemma DecimalStep(s: string)
    requires s != "" && s[0] in DECIMALS && NumberOf(s[1..], 10) == DecimalWorth(s[1..])
    ensures NumberOf(s, 10) == DecimalWorth(s)
  {
    assert s == [s[0]] + s[1..];
    NumberOfFront(s[0], s[1..], 10);
    DecimalDigit(s[0]);
  }

  lemma {:induction false} DecimalAgrees(s: string)
    requires forall i | 0 <= i < |s| :: s[i] in DECIMALS
    ensures NumberOf(s, 10) == DecimalWorth(s)
  {
    if s != "" {
      DecimalAgrees(s[1..]);
      DecimalStep(s);
    }
  }

  lemma {:induction false} HexAgrees(s: string)
    requires forall i | 0 <= i < |s| :: IsHexChar(s[i])
    ensures NumberOf(Lower(s), 16) == HexWorth(s)
  {
    if s != "" {
      assert Lower(s) == [LowerChar(s[0])] + Lower(s[1..]);
      NumberOfFront(LowerChar(s[0]), Lower(s[1..]), 16);
      HexCharAgrees(s[0]);
      HexAgrees(s[1..]);
    }
  }

  /** What the octet pattern accepts, and what it is taken for. */
  lemma OctetIsRead(s: string)
    ensures IsOctetText(s) <==> IsDecimal(s)
    ensures IsDecimal(s) ==> NumberOf(s, 10) == DecimalWorth(s)
  {
    forall i | 0 <= i < |s| ensures IsDigit(s[i]) <==> s[i] in DECIMALS { DecimalDigit(s[i]); }
    if IsDecimal(s) { DecimalAgrees(s); }
  }

  /** What the group pattern accepts once in small letters, and what it is taken for. */
  lemma GroupIsRead(s: string)
    ensures IsGroupText(Lower(s)) <==> IsHexGroup(s)
    ensures IsHexGroup(s) ==> NumberOf(Lower(s), 16) == HexWorth(s)
  {
    forall i | 0 <= i < |s| ensures IsHexDigit(Lower(s)[i]) <==> IsHexChar(s[i]) { HexCharAgrees(s[i]); }
    if IsHexGroup(s) { HexAgrees(s); }
  }

  lemma OctetsAreRead(texts: seq<string>)
    requires forall t | t in texts :: IsDecimal(t)
    ensures Numbers(texts, 10) == DecimalWorths(texts) && forall t | t in texts :: IsOctetText(t)
  {
    forall t | t in texts ensures IsOctetText(t) { OctetIsRead(t); }
    forall i | 0 <= i < |texts| ensures NumberOf(texts[i], 10) == DecimalWorth(texts[i]) {
      assert texts[i] in texts;
      OctetIsRead(texts[i]);
    }
  }

  // ------------------------------------------------------------------ printing

  /** A number in decimals, without leading zeros. */
  function ToDecimal(n: nat): string {
    if n < 10 then [DECIMALS[n]] else ToDecimal(n / 10) + [DECIMALS[n % 10]]
  }

  lemma {:induction false} ToDecimalRoundTrip(n: nat)
    ensures NumberOf(ToDecimal(n), 10) == n && |ToDecimal(n)| >= 1
    ensures forall i | 0 <= i < |ToDecimal(n)| :: ToDecimal(n)[i] in DECIMALS
    ensures n < 10 ==> |ToDecimal(n)| == 1
    ensures n < 100 ==> |ToDecimal(n)| <= 2
    ensures n < 1000 ==> |ToDecimal(n)| <= 3
  {
    var s, last := ToDecimal(n), DECIMALS[n % 10];
    PlaceOfDecimal(n % 10);
    if n < 10 {
      assert s[..0] == "" && s[0] == last;
    } else {
      ToDecimalRoundTrip(n / 10);
      assert s[..|s| - 1] == ToDecimal(n / 10) && s[|s| - 1] == last;
    }
  }

  lemma PlaceOfDecimal(k: nat)
    requires k < 10
    ensures DECIMALS[k] in DECIMALS && DigitValue(DECIMALS[k]) == k
  {
    DecimalsInOrder();
  }
}
