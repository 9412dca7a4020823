/** Rebuilding an authorization request from parsed search parameters, after
    `apps/web/src/lib/oauth-query.ts`. */
module OauthQuery {
  import opened Text

  /** What the router makes of one search parameter; `text` is what `String()` gives. */
  datatype Parsed =
    | Undefined
    | Str(s: string)
    | Scalar(text: string) // a number or a boolean
    | Odd(text: string)    // null or an object
    | List(items: seq<Parsed>, text: string)

  datatype Entry = Entry(key: string, value: Parsed)
  datatype Pair = Pair(key: string, value: string)

  function ToText(p: Parsed): string {
    match p
    case Undefined => "undefined"
    case Str(s) => s
    case Scalar(text) => text
    case Odd(text) => text
    case List(_, text) => text
  }

  /** The values a search parameter stands for. */
  function Values(p: Parsed): seq<string> {
    match p
    case Undefined => []
    case List(items, _) => seq(|items|, i requires 0 <= i < |items| => ToText(items[i]))
    case _ => [ToText(p)]
  }

  function PairsOf(key: string, values: seq<string>): seq<Pair> {
    seq(|values|, i requires 0 <= i < |values| => Pair(key, values[i]))
  }

  function RawPairs(search: seq<Entry>): seq<Pair> {
    if search == [] then []
    else RawPairs(search[..|search| - 1]) + PairsOf(search[|search| - 1].key, Values(search[|search| - 1].value))
  }

  /** The parameters appended one by one, in the source's nested loops. */
  method RawSearch(search: seq<Entry>) returns (params: seq<Pair>)
    ensures params == RawPairs(search)
  {
    params := [];
    for n := 0 to |search|
      invariant params == RawPairs(search[..n])
    {
      assert search[..n + 1][..n] == search[..n];
      var key, value := search[n].key, search[n].value;
      if value.List? {
        ghost var before := params;
        for i := 0 to |value.items|
          invariant params == before + PairsOf(key, Values(value)[..i])
        {
          params := params + [Pair(key, ToText(value.items[i]))];
          assert PairsOf(key, Values(value)[..i + 1])
              == PairsOf(key, Values(value)[..i]) + [Pair(key, ToText(value.items[i]))];
        }
        assert Values(value)[..|value.items|] == Values(value);
      } else if value != Undefined {
        params := params + [Pair(key, ToText(value))];
        assert PairsOf(key, Values(value)) == [Pair(key, ToText(value))];
      }
    }
    assert search[..|search|] == search;
  }

  /** What `getAll(key)` reads back. */
  function ValuesOf(pairs: seq<Pair>, key: string): seq<string> {
    if pairs == [] then []
    else
      var front, last := pairs[..|pairs| - 1], pairs[|pairs| - 1];
      ValuesOf(front, key) + (if last.key == key then [last.value] else [])
  }

  /** The value a search holds for a key; each key occurs once. */
  function Lookup(search: seq<Entry>, key: string): Parsed {
    if search == [] then Undefined
    else if search[|search| - 1].key == key then search[|search| - 1].value
    else Lookup(search[..|search| - 1], key)
  }

  predicate KeysAreDistinct(search: seq<Entry>) {
    forall i, j | 0 <= i < j < |search| :: search[i].key != search[j].key
  }

  lemma {:induction false} ValuesOfAppend(a: seq<Pair>, b: seq<Pair>, key: string)
    ensures ValuesOf(a + b, key) == ValuesOf(a, key) + ValuesOf(b, key)
  {
    if b == [] {
      assert a + b == a;
    } else {
      assert (a + b)[..|a + b| - 1] == a + b[..|b| - 1];
      ValuesOfAppend(a, b[..|b| - 1], key);
    }
  }

  lemma {:induction false} ValuesOfPairs(k: string, values: seq<string>, key: string)
    ensures ValuesOf(PairsOf(k, values), key) == if k == key then values else []
  {
    if values != [] {
      var front := values[..|values| - 1];
      assert PairsOf(k, values)[..|values| - 1] == PairsOf(k, front);
      ValuesOfPairs(k, front, key);
    }
  }

  lemma {:induction false} NoEntryNoValues(search: seq<Entry>, key: string)
    requires forall i | 0 <= i < |search| :: search[i].key != key
    ensures ValuesOf(RawPairs(search), key) == []
  {
    if search != [] {
      var front, last := search[..|search| - 1], search[|search| - 1];
      NoEntryNoValues(front, key);
      ValuesOfLast(search, key);
    }
  }

  lemma ValuesOfLast(search: seq<Entry>, key: string)
    requires search != []
    ensures var front, last := search[..|search| - 1], search[|search| - 1];
            ValuesOf(RawPairs(search), key)
            == ValuesOf(RawPairs(front), key) + (if last.key == key then Values(last.value) else [])
  {
    var front, last := search[..|search| - 1], search[|search| - 1];
    ValuesOfAppend(RawPairs(front), PairsOf(last.key, Values(last.value)), key);
    ValuesOfPairs(last.key, Values(last.value), key);
  }

  /** Every key reads back as the values its parameter stands for, in order. */
  lemma {:induction false} RebuiltValues(search: seq<Entry>, key: string)
    requires KeysAreDistinct(search)
    ensures ValuesOf(RawPairs(search), key) == Values(Lookup(search, key))
  {
    if search != [] {
      var front, last := search[..|search| - 1], search[|search| - 1];
      ValuesOfLast(search, key);
      if last.key == key {
        NoEntryNoValues(front, key);
        assert [] + Values(last.value) == Values(last.value);
      } else {
        RebuiltValues(front, key);
        assert ValuesOf(RawPairs(front), key) + [] == ValuesOf(RawPairs(front), key);
      }
    }
  }

  // --------------------------------------------------- the router and back again

  /** A router that groups repeated keys: a single value is parsed by itself, several become
      a list of parsed values. */
  function Grouped(values: seq<string>, parse: string -> Parsed, listText: seq<string> -> string): Parsed {
    if |values| == 0 then Undefined
    else if |values| == 1 then parse(values[0])
    else List(seq(|values|, i requires 0 <= i < |values| => parse(values[i])), listText(values))
  }

  /** `search` is what such a router hands over for the request `pairs`. */
  ghost predicate IsGrouping(
      search: seq<Entry>, pairs: seq<Pair>, parse: string -> Parsed, listText: seq<string> -> string) {
    && KeysAreDistinct(search)
    && forall key :: Lookup(search, key) == Grouped(ValuesOf(pairs, key), parse, listText)
  }

  /** The value comes through parsing and `String()` unchanged. */
  predicate Survives(values: seq<string>, parse: string -> Parsed) {
    if |values| == 1 then Values(parse(values[0])) == values
    else forall i | 0 <= i < |values| :: ToText(parse(values[i])) == values[i]
  }

  /** The rebuilt request carries the values of the original, key by key, exactly when each
      of them survives being parsed and stringified. */
  lemma RebuiltIffSurviving(
      search: seq<Entry>, pairs: seq<Pair>, parse: string -> Parsed, listText: seq<string> -> string, key: string)
    requires IsGrouping(search, pairs, parse, listText)
    ensures ValuesOf(RawPairs(search), key) == ValuesOf(pairs, key) <==> Survives(ValuesOf(pairs, key), parse)
  {
    var values := ValuesOf(pairs, key);
    RebuiltValues(search, key);
    assert Lookup(search, key) == Grouped(values, parse, listText);
    if |values| > 1 {
      var back := Values(Grouped(values, parse, listText));
      assert |back| == |values| && forall i | 0 <= i < |values| :: back[i] == ToText(parse(values[i]));
      if back == values {
        forall i | 0 <= i < |values| ensures ToText(parse(values[i])) == values[i] {
          assert back[i] == values[i];
        }
      }
    }
  }

  /** One value in, two out: `[1,2]`, which the router takes for a list. */
  lemma JsonArrayIsLost(
      search: seq<Entry>, pairs: seq<Pair>, parse: string -> Parsed, listText: seq<string> -> string, key: string)
    requires IsGrouping(search, pairs, parse, listText)
    requires ValuesOf(pairs, key) == ["[1,2]"]
    requires parse("[1,2]") == List([Scalar("1"), Scalar("2")], "1,2")
    ensures ValuesOf(RawPairs(search), key) == ["1", "2"] != ValuesOf(pairs, key)
    ensures !Survives(ValuesOf(pairs, key), parse)
  {
    RebuiltValues(search, key);
    assert Lookup(search, key) == Grouped(["[1,2]"], parse, listText) == parse("[1,2]");
    assert Values(parse("[1,2]")) == ["1", "2"];
  }

  const OAUTH_QUERY_PARAM := "oauth_query"

  /** The signed request a page was reached with: carried in one parameter by this app's own
      pages, or else recognised by its signature and client. */
  function ReadOauthQuery(search: seq<Entry>, serialize: seq<Pair> -> string): Option<string> {
    var carried := Lookup(search, OAUTH_QUERY_PARAM);
    if carried.Str? && carried.s != "" then Some(carried.s)
    else if !Lookup(search, "sig").Str? || !Lookup(search, "client_id").Str? then None
    else
      var raw := serialize(RawPairs(search));
      if raw == "" then None else Some(raw)
  }

  /** A parameter as a string, whatever the parser turned it into. */
  function SearchString(p: Parsed): Option<string> {
    match p
    case Str(s) => Some(s)
    case Scalar(text) => Some(text)
    case _ => None
  }

  lemma LookupsAreRead(search: seq<Entry>, serialize: seq<Pair> -> string)
    ensures var carried := Lookup(search, "oauth_query");
            && (carried.Str? && carried.s != "" ==> ReadOauthQuery(search, serialize) == Some(carried.s))
            && (!(carried.Str? && carried.s != "")
                && !(Lookup(search, "sig").Str? && Lookup(search, "client_id").Str?) ==>
                  ReadOauthQuery(search, serialize) == None)
  {
  }

  /** A page reached straight from the provider, its address signed and with a client: what is
      read is a request that gives every parameter the values it came with. */
  lemma SignedRequestIsReadBack(
      search: seq<Entry>, pairs: seq<Pair>, parse: string -> Parsed, listText: seq<string> -> string,
      serialize: seq<Pair> -> string) returns (request: seq<Pair>)
    requires IsGrouping(search, pairs, parse, listText)
    requires forall key :: Survives(ValuesOf(pairs, key), parse)
    requires ValuesOf(pairs, "oauth_query") == []
    requires Lookup(search, "sig").Str? && Lookup(search, "client_id").Str?
    ensures ReadOauthQuery(search, serialize) == if serialize(request) == "" then None else Some(serialize(request))
    ensures forall key :: ValuesOf(request, key) == ValuesOf(pairs, key)
  {
    request := RawPairs(search);
    assert Lookup(search, "oauth_query") == Grouped(ValuesOf(pairs, "oauth_query"), parse, listText) == Undefined;
    forall key ensures ValuesOf(request, key) == ValuesOf(pairs, key) {
      RebuiltIffSurviving(search, pairs, parse, listText, key);
    }
  }

  /** What the request says for a key: one value for each item of a list, none for what is not
      there, and otherwise one, the text of the value. */
  lemma ParametersAreWritten(search: seq<Entry>, key: string)
    requires KeysAreDistinct(search)
    ensures var p, values := Lookup(search, key), ValuesOf(RawPairs(search), key);
            match p
            case Undefined => values == []
            case Str(s) => values == [s]
            case Scalar(text) => values == [text]
            case Odd(text) => values == [text]
            case List(items, _) =>
              |values| == |items| && forall i | 0 <= i < |items| ::
                values[i] == if items[i].Undefined? then "undefined"
                             else if items[i].Str? then items[i].s else items[i].text
  {
    RebuiltValues(search, key);
  }

  /** A number or a boolean reads as its text; a list or an object as nothing. */
  lemma SearchStringIs(p: Parsed)
    ensures SearchString(p) == if p.Str? || p.Scalar? then Some(ToText(p)) else None
  {
  }
}
