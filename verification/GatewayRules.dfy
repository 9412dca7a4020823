/** The link-local rule of the API gateways: the IPv4 and IPv6 text parsers and the
    range test, after `apps/web/src/lib/gateway-rules.ts`. The text forms are those of
    section 2.2 of RFC 4291; embedded IPv4 addresses are in 2.5.5.1 and 2.5.5.2, the
    link-local prefix in 2.5.6. */
module GatewayRules {
  import opened Text

  // ------------------------------------------------------------ the parsers

  predicate IsDigit(c: char) {
    '0' <= c <= '9'
  }

  predicate IsHexDigit(c: char) {
    IsDigit(c) || 'a' <= c <= 'f'
  }

  function DigitValue(c: char): nat {
    if IsDigit(c) then (c - '0') as nat
    else if 'a' <= c <= 'f' then (c - 'a') as nat + 10
    else 0
  }

  function HexDigit(n: nat): char
    requires n < 16
  {
    if n < 10 then '0' + n as char else 'a' + (n - 10) as char
  }

  /** The number a digit string stands for. */
  function NumberOf(digits: string, base: nat): nat {
    if digits == "" then 0
    else base * NumberOf(digits[..|digits| - 1], base) + DigitValue(digits[|digits| - 1])
  }

  /** `toString(16)`. */
  function ToHex(n: nat): string {
    if n < 16 then [HexDigit(n)] else ToHex(n / 16) + [HexDigit(n % 16)]
  }

  predicate IsOctetText(s: string) {
    1 <= |s| <= 3 && forall i | 0 <= i < |s| :: IsDigit(s[i])
  }

  predicate IsGroupText(s: string) {
    1 <= |s| <= 4 && forall i | 0 <= i < |s| :: IsHexDigit(s[i])
  }

  function Numbers(texts: seq<string>, base: nat): (r: seq<nat>)
    ensures |r| == |texts|
  {
    seq(|texts|, i requires 0 <= i < |texts| => NumberOf(texts[i], base))
  }

  function ParseIpv4(value: string): Option<seq<nat>> {
    var parts := Split(value, '.');
    if |parts| != 4 || exists p | p in parts :: !IsOctetText(p) then None
    else
      var octets := Numbers(parts, 10);
      if forall o | o in octets :: o <= 255 then Some(octets) else None
  }

  function SplitDouble(s: string): (halves: seq<string>)
    ensures |halves| >= 1
    decreases |s|
  {
    var i := IndexOf(s, "::");
    if i < 0 then [s] else [s[..i]] + SplitDouble(s[i + 2..])
  }

  function StripBrackets(text: string): string {
    if |text| >= 2 && text[0] == '[' && text[|text| - 1] == ']' then text[1..|text| - 1] else text
  }

  function StripZone(text: string): string {
    var zone := IndexOf(text, "%");
    if zone >= 0 then text[..zone] else text
  }

  /** Rewrites the decimal form of the last 32 bits, if there is one, in hexadecimal groups. */
  function ExpandQuad(text: string): Option<string>
    requires ':' in text
  {
    var lastColon := LastIndexOf(text, ':');
    var tail := text[lastColon + 1..];
    if '.' !in tail then Some(text)
    else
      var quad := ParseIpv4(tail);
      if quad.None? then None
      else
        var high := ToHex(quad.value[0] * 256 + quad.value[1]);
        var low := ToHex(quad.value[2] * 256 + quad.value[3]);
        Some(text[..lastColon] + ":" + high + ":" + low)
  }

  function ToHextets(part: string): Option<seq<nat>> {
    if part == "" then Some([])
    else
      var groups := Split(part, ':');
      if forall g | g in groups :: IsGroupText(g) then Some(Numbers(groups, 16)) else None
  }

  function Zeros(n: nat): seq<nat> {
    seq(n, _ => 0)
  }

  /** The groups on either side of the `::`, or all eight without one. */
  function FromHalves(halves: seq<string>): Option<seq<nat>>
    requires |halves| >= 1
  {
    if |halves| > 2 then None
    else
      var head := ToHextets(halves[0]);
      var rest := if |halves| == 2 then ToHextets(halves[1]) else Some([]);
      if head.None? || rest.None? then None
      else if |halves| == 1 then
        if |head.value| == 8 then head else None
      else
        var missing := 8 - |head.value| - |rest.value|;
        if missing < 1 then None else Some(head.value + Zeros(missing) + rest.value)
  }

  /** The part of the parser that reads hexadecimal groups and at most one `::`. */
  function ParseGroups(text: string): Option<seq<nat>> {
    FromHalves(SplitDouble(text))
  }

  function ParseCore(text: string): Option<seq<nat>> {
    if ':' !in text then None
    else
      var expanded := ExpandQuad(text);
      if expanded.None? then None else ParseGroups(expanded.value)
  }

  function Ipv6Value(value: string): Option<seq<nat>> {
    ParseCore(StripZone(StripBrackets(Lower(Trim(value)))))
  }

  /** The bitwise `&` of two non-negative numbers. */
  function BitAnd(a: nat, b: nat): nat {
    if a == 0 || b == 0 then 0
    else (if a % 2 == 1 && b % 2 == 1 then 1 else 0) + 2 * BitAnd(a / 2, b / 2)
  }

  predicate IsLinkLocalHextets(h: seq<nat>)
    requires |h| == 8
  {
    || BitAnd(h[0], 0xffc0) == 0xfe80
    || ((forall i | 0 <= i < 5 :: h[i] == 0)
        && (h[5] == 0xffff || h[5] == 0)
        && h[6] / 256 == 169 && BitAnd(h[6], 0xff) == 254)
  }

  predicate IsLinkLocalAddress(address: string) {
    var ipv4 := ParseIpv4(address);
    if ipv4.Some? then ipv4.value[0] == 169 && ipv4.value[1] == 254
    else
      var hextets := Ipv6Value(address);
      Ipv6ValueShape(address);
      hextets.Some? && IsLinkLocalHextets(hextets.value)
  }

  // ------------------------------------------------------- digits and groups

  lemma {:induction false} ToHexRoundTrip(n: nat)
    ensures NumberOf(ToHex(n), 16) == n
    ensures |ToHex(n)| >= 1 && forall i | 0 <= i < |ToHex(n)| :: IsHexDigit(ToHex(n)[i])
    ensures n < 0x10 ==> |ToHex(n)| == 1
    ensures n < 0x100 ==> |ToHex(n)| <= 2
    ensures n < 0x1000 ==> |ToHex(n)| <= 3
    ensures n < 0x10000 ==> |ToHex(n)| <= 4
  {
    if n < 16 {
      assert ToHex(n)[..0] == "";
    } else {
      ToHexRoundTrip(n / 16);
      assert ToHex(n)[..|ToHex(n)| - 1] == ToHex(n / 16);
    }
  }

  lemma {:induction false} NumberOfBound(s: string)
    requires forall i | 0 <= i < |s| :: IsHexDigit(s[i])
    ensures |s| <= 1 ==> NumberOf(s, 16) < 0x10
    ensures |s| <= 2 ==> NumberOf(s, 16) < 0x100
    ensures |s| <= 3 ==> NumberOf(s, 16) < 0x1000
    ensures |s| <= 4 ==> NumberOf(s, 16) < 0x10000
  {
    if s != "" {
      NumberOfBound(s[..|s| - 1]);
    }
  }

  lemma GroupBounds(groups: seq<string>)
    requires forall g | g in groups :: IsGroupText(g)
    ensures forall i | 0 <= i < |groups| :: Numbers(groups, 16)[i] < 0x10000
  {
    forall i | 0 <= i < |groups| ensures Numbers(groups, 16)[i] < 0x10000 {
      assert groups[i] in groups;
      NumberOfBound(groups[i]);
    }
  }

  lemma ParseGroupsShape(text: string)
    ensures ParseGroups(text).Some? ==> |ParseGroups(text).value| == 8
    ensures ParseGroups(text).Some? ==> forall i | 0 <= i < 8 :: ParseGroups(text).value[i] < 0x10000
  {
    var halves := SplitDouble(text);
    if ParseGroups(text).Some? {
      if halves[0] != "" { GroupBounds(Split(halves[0], ':')); }
      if |halves| == 2 && halves[1] != "" { GroupBounds(Split(halves[1], ':')); }
    }
  }

  /** Whatever the parser accepts is eight hextets. */
  lemma Ipv6ValueShape(value: string)
    ensures Ipv6Value(value).Some? ==>
              && |Ipv6Value(value).value| == 8
              && forall i | 0 <= i < 8 :: Ipv6Value(value).value[i] < 0x10000
  {
    var text := StripZone(StripBrackets(Lower(Trim(value))));
    if ParseCore(text).Some? {
      ParseGroupsShape(ExpandQuad(text).value);
    }
  }
}
