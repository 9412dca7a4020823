/** Log redaction and the loggers around it, after `apps/web/src/server/logger.ts`. */
module Redaction {
  import opened Text

  /** What a log call may be handed. An object's fields are in insertion order. */
  datatype Value =
    | Null | Undefined
    | Bool(b: bool)
    | Num(n: int)
    | Str(s: string)
    | Date(iso: string)
    | Err(name: string, message: string, stack: Option<string>)
    | Arr(items: seq<Value>)
    | Obj(fields: seq<Field>)

  datatype Field = Field(key: string, value: Value)

  /** The redacted names with `-` and `_` taken out; every one is in lower case. */
  const REDACTED_KEYS: set<string> := {
    "password", "newpassword", "currentpassword", "secret", "clientsecret", "apikey", "token", "accesstoken",
    "refreshtoken", "idtoken", "code", "codeverifier", "authorization", "cookie", "setcookie",
    "sessiontoken", "privatekey", "backupcodes", "totp", "url", "link"
  }

  const REDACTION: Value := Str("[redacted]")
  const DEEP: Value := Str("[deep]")
  const MAX_DEPTH: nat := 6

  function WithoutSeparators(s: string): string {
    if s == "" then ""
    else (if s[0] == '-' || s[0] == '_' then "" else [s[0]]) + WithoutSeparators(s[1..])
  }

  predicate IsRedactedKey(key: string) {
    WithoutSeparators(Lower(key)) in REDACTED_KEYS
  }

  /** The plain object an error is logged as. */
  function ErrorFields(name: string, message: string, stack: Option<string>): seq<Field> {
    [Field("name", Str(name)), Field("message", Str(message)),
     Field("stack", if stack.Some? then Str(stack.value) else Undefined)]
  }

  function Redact(value: Value, depth: nat): Value
    decreases MAX_DEPTH + 1 - depth
  {
    if depth > MAX_DEPTH then DEEP
    else match value
      case Arr(items) => Arr(seq(|items|, i requires 0 <= i < |items| => Redact(items[i], depth + 1)))
      case Err(name, message, stack) => Obj(ErrorFields(name, message, stack))
      case Date(iso) => Str(iso)
      case Obj(fields) => Obj(seq(|fields|, i requires 0 <= i < |fields| => RedactField(fields[i], depth)))
      case _ => value
  }

  function RedactField(field: Field, depth: nat): Field
    requires depth <= MAX_DEPTH
    decreases MAX_DEPTH + 1 - depth, 0
  {
    Field(field.key, if IsRedactedKey(field.key) then REDACTION else Redact(field.value, depth + 1))
  }

  function RedactFields(fields: seq<Field>): (r: seq<Field>)
    ensures |r| == |fields|
  {
    seq(|fields|, i requires 0 <= i < |fields| => RedactField(fields[i], 0))
  }

  // ------------------------------------------------------------ non-interference

  /** The two trees differ at most under redacted keys and below the last depth. */
  ghost predicate Alike(a: Value, b: Value, depth: nat)
    decreases MAX_DEPTH + 1 - depth
  {
    depth > MAX_DEPTH ||
    match (a, b)
    case (Arr(xs), Arr(ys)) => |xs| == |ys| && forall i | 0 <= i < |xs| :: Alike(xs[i], ys[i], depth + 1)
    case (Obj(fs), Obj(gs)) => |fs| == |gs| && forall i | 0 <= i < |fs| :: AlikeField(fs[i], gs[i], depth)
    case _ => a == b
  }

  ghost predicate AlikeField(f: Field, g: Field, depth: nat)
    requires depth <= MAX_DEPTH
    decreases MAX_DEPTH + 1 - depth, 0
  {
    f.key == g.key && (IsRedactedKey(f.key) || Alike(f.value, g.value, depth + 1))
  }

  /** No error and no date that the redaction would still look at. */
  ghost predicate Plain(v: Value, depth: nat)
    decreases MAX_DEPTH + 1 - depth
  {
    depth > MAX_DEPTH ||
    match v
    case Arr(xs) => forall i | 0 <= i < |xs| :: Plain(xs[i], depth + 1)
    case Obj(fs) => forall i | 0 <= i < |fs| :: IsRedactedKey(fs[i].key) || Plain(fs[i].value, depth + 1)
    case Err(_, _, _) => false
    case Date(_) => false
    case _ => true
  }

  /** What lies under a redacted key, or too deep, has no influence on the result. */
  lemma {:induction false} RedactionIsNonInterfering(a: Value, b: Value, depth: nat)
    requires Alike(a, b, depth)
    ensures Redact(a, depth) == Redact(b, depth)
    decreases MAX_DEPTH + 1 - depth
  {
    if depth <= MAX_DEPTH {
      match (a, b)
      case (Arr(xs), Arr(ys)) =>
        forall i | 0 <= i < |xs| ensures Redact(xs[i], depth + 1) == Redact(ys[i], depth + 1) {
          RedactionIsNonInterfering(xs[i], ys[i], depth + 1);
        }
      case (Obj(fs), Obj(gs)) =>
        forall i | 0 <= i < |fs| ensures RedactField(fs[i], depth) == RedactField(gs[i], depth) {
          if !IsRedactedKey(fs[i].key) {
            RedactionIsNonInterfering(fs[i].value, gs[i].value, depth + 1);
          }
        }
      case _ =>
    }
  }

  /** Everything else survives: plain trees that redact alike are alike. */
  lemma {:induction false} RedactionLosesNothingElse(a: Value, b: Value, depth: nat)
    requires Plain(a, depth) && Plain(b, depth)
    requires Redact(a, depth) == Redact(b, depth)
    ensures Alike(a, b, depth)
    decreases MAX_DEPTH + 1 - depth
  {
    if depth <= MAX_DEPTH {
      var ra, rb := Redact(a, depth), Redact(b, depth);
      match (a, b)
      case (Arr(xs), Arr(ys)) =>
        forall i | 0 <= i < |xs| ensures Alike(xs[i], ys[i], depth + 1) {
          assert ra.items[i] == rb.items[i];
          RedactionLosesNothingElse(xs[i], ys[i], depth + 1);
        }
      case (Obj(fs), Obj(gs)) =>
        forall i | 0 <= i < |fs| ensures AlikeField(fs[i], gs[i], depth) {
          assert ra.fields[i] == rb.fields[i];
          assert RedactField(fs[i], depth) == RedactField(gs[i], depth);
          if !IsRedactedKey(fs[i].key) {
            RedactionLosesNothingElse(fs[i].value, gs[i].value, depth + 1);
          }
        }
      case _ =>
    }
  }

  // --------------------------------------------------------------- the key rule

  lemma {:induction false} SeparatorIsIgnored(a: string, sep: char, b: string)
    requires sep == '-' || sep == '_'
    ensures WithoutSeparators(a + [sep] + b) == WithoutSeparators(a + b)
  {
    if a == "" {
      assert a + [sep] + b == [sep] + b && a + b == b;
      assert ([sep] + b)[1..] == b;
    } else {
      assert (a + [sep] + b)[1..] == a[1..] + [sep] + b && (a + b)[1..] == a[1..] + b;
      SeparatorIsIgnored(a[1..], sep, b);
    }
  }

  /** Neither letter case nor a separator, wherever it is put, changes the answer. */
  lemma KeyRuleIgnoresSpelling(a: string, sep: char, b: string, other: string)
    requires sep == '-' || sep == '_'
    requires Lower(other) == Lower(a + b)
    ensures IsRedactedKey(a + [sep] + b) == IsRedactedKey(other)
  {
    assert Lower(a + [sep] + b) == Lower(a) + [sep] + Lower(b);
    assert Lower(a + b) == Lower(a) + Lower(b);
    SeparatorIsIgnored(Lower(a), sep, Lower(b));
  }

  lemma {:induction false} NoSeparators(s: string)
    requires forall i | 0 <= i < |s| :: s[i] != '-' && s[i] != '_'
    ensures WithoutSeparators(s) == s
  {
    if s != "" {
      NoSeparators(s[1..]);
    }
  }

  lemma LowerKeyIsLogged(key: string)
    requires Lower(key) == key && key !in REDACTED_KEYS
    requires forall i | 0 <= i < |key| :: key[i] != '-' && key[i] != '_'
    ensures !IsRedactedKey(key)
  {
    NoSeparators(key);
  }

  lemma NameIsLogged()
    ensures !IsRedactedKey("name")
  {
    assert "name" !in REDACTED_KEYS by {
      assert forall k | k in REDACTED_KEYS && |k| == 4 :: k[0] != 'n';
      assert "name"[0] == 'n';
    }
    LowerKeyIsLogged("name");
  }

  lemma MessageIsLogged()
    ensures !IsRedactedKey("message")
  {
    assert "message" !in REDACTED_KEYS by {
      assert forall k | k in REDACTED_KEYS :: |k| != 7 || k[0] != 'm';
      assert "message"[0] == 'm';
    }
    LowerKeyIsLogged("message");
  }

  lemma StackIsLogged()
    ensures !IsRedactedKey("stack")
  {
    assert "stack" !in REDACTED_KEYS by {
      assert forall k | k in REDACTED_KEYS && |k| == 5 :: k[0] != 's';
      assert "stack"[0] == 's';
    }
    LowerKeyIsLogged("stack");
  }

  // --------------------------------------------------------------- what may show

  /** At no depth does a redacted key show anything but the mark. */
  ghost predicate Masked(v: Value) {
    match v
    case Arr(items) => forall i | 0 <= i < |items| :: Masked(items[i])
    case Obj(fields) => forall i | 0 <= i < |fields| :: MaskedField(fields[i])
    case _ => true
  }

  ghost predicate MaskedField(f: Field) {
    if IsRedactedKey(f.key) then f.value == REDACTION else Masked(f.value)
  }

  /** Whatever is logged, and however deep, comes out masked. */
  lemma {:induction false} RedactionMasks(v: Value, depth: nat)
    ensures Masked(Redact(v, depth))
    decreases MAX_DEPTH + 1 - depth, 0
  {
    if depth <= MAX_DEPTH {
      var once := Redact(v, depth);
      match v
      case Arr(items) =>
        forall i | 0 <= i < |items| ensures Masked(once.items[i]) {
          RedactionMasks(items[i], depth + 1);
        }
      case Obj(fields) =>
        forall i | 0 <= i < |fields| ensures MaskedField(once.fields[i]) {
          FieldMasks(fields[i], depth);
          assert once.fields[i] == RedactField(fields[i], depth);
        }
      case Err(name, message, stack) => ErrorMasks(name, message, stack);
      case _ =>
    }
  }

  lemma {:induction false} FieldMasks(f: Field, depth: nat)
    requires depth <= MAX_DEPTH
    ensures MaskedField(RedactField(f, depth))
    decreases MAX_DEPTH + 1 - depth - 1, 1
  {
    if !IsRedactedKey(f.key) { RedactionMasks(f.value, depth + 1); }
  }

  lemma {:induction false} ErrorMasks(name: string, message: string, stack: Option<string>)
    ensures Masked(Obj(ErrorFields(name, message, stack)))
  {
    NameIsLogged();
    MessageIsLogged();
    StackIsLogged();
  }

  // ----------------------------------------------------------------- idempotence

  /** No error sits at the very last depth, where its own fields are one too deep --
      unless they already read as cut off. */
  ghost predicate Settled(v: Value, depth: nat)
    decreases MAX_DEPTH + 1 - depth
  {
    depth > MAX_DEPTH ||
    match v
    case Arr(xs) => forall i | 0 <= i < |xs| :: Settled(xs[i], depth + 1)
    case Obj(fs) => forall i | 0 <= i < |fs| :: IsRedactedKey(fs[i].key) || Settled(fs[i].value, depth + 1)
    case Err(name, message, stack) =>
      depth < MAX_DEPTH || (Str(name) == DEEP && Str(message) == DEEP && stack == Some("[deep]"))
    case _ => true
  }

  lemma ErrorTwice(name: string, message: string, stack: Option<string>, depth: nat)
    requires depth <= MAX_DEPTH
    ensures var once := Obj(ErrorFields(name, message, stack));
            Redact(once, depth) == once <==> Settled(Err(name, message, stack), depth)
  {
    NameIsLogged();
    MessageIsLogged();
    StackIsLogged();
    ErrorFieldsTwice(name, message, stack, depth);
  }

  /** One text field of an error, redacted where it stands. */
  lemma ErrorFieldTwice(key: string, text: string, depth: nat)
    requires depth <= MAX_DEPTH && !IsRedactedKey(key)
    ensures RedactField(Field(key, Str(text)), depth) == Field(key, Str(text))
        <==> depth < MAX_DEPTH || Str(text) == DEEP
  {
  }

  lemma ErrorFieldsTwice(name: string, message: string, stack: Option<string>, depth: nat)
    requires depth <= MAX_DEPTH
    requires !IsRedactedKey("name") && !IsRedactedKey("message") && !IsRedactedKey("stack")
    ensures var once := Obj(ErrorFields(name, message, stack));
            Redact(once, depth) == once <==> Settled(Err(name, message, stack), depth)
  {
    var fs := ErrorFields(name, message, stack);
    ErrorFieldTwice("name", name, depth);
    ErrorFieldTwice("message", message, depth);
    StackFieldTwice(stack, depth);
    ThreeFields(fs[0], fs[1], fs[2], depth);
  }

  lemma StackFieldTwice(stack: Option<string>, depth: nat)
    requires depth <= MAX_DEPTH && !IsRedactedKey("stack")
    ensures var f := Field("stack", if stack.Some? then Str(stack.value) else Undefined);
            RedactField(f, depth) == f <==> depth < MAX_DEPTH || stack == Some("[deep]")
  {
  }

  lemma ThreeFields(f: Field, g: Field, h: Field, depth: nat)
    requires depth <= MAX_DEPTH
    ensures Redact(Obj([f, g, h]), depth) == Obj([f, g, h])
        <==> RedactField(f, depth) == f && RedactField(g, depth) == g && RedactField(h, depth) == h
  {
    var twice := Redact(Obj([f, g, h]), depth);
    assert twice.fields == [RedactField(f, depth), RedactField(g, depth), RedactField(h, depth)];
  }

  /** Two applications to an array, item by item. */
  lemma ArrTwice(xs: seq<Value>, depth: nat)
    requires depth <= MAX_DEPTH
    ensures Redact(Redact(Arr(xs), depth), depth) == Redact(Arr(xs), depth)
        <==> forall i | 0 <= i < |xs| :: Redact(Redact(xs[i], depth + 1), depth + 1) == Redact(xs[i], depth + 1)
  {
    var once := Redact(Arr(xs), depth);
    var twice := Redact(once, depth);
    forall i | 0 <= i < |xs|
      ensures twice.items[i] == once.items[i]
          <==> Redact(Redact(xs[i], depth + 1), depth + 1) == Redact(xs[i], depth + 1)
    {
      assert once.items[i] == Redact(xs[i], depth + 1);
    }
    assert twice == once <==> forall i | 0 <= i < |xs| :: twice.items[i] == once.items[i];
  }

  /** Two applications to an object, field by field. */
  lemma ObjTwice(fs: seq<Field>, depth: nat)
    requires depth <= MAX_DEPTH
    ensures Redact(Redact(Obj(fs), depth), depth) == Redact(Obj(fs), depth)
        <==> forall i | 0 <= i < |fs| :: RedactField(RedactField(fs[i], depth), depth) == RedactField(fs[i], depth)
  {
    var once := Redact(Obj(fs), depth);
    var twice := Redact(once, depth);
    forall i | 0 <= i < |fs|
      ensures twice.fields[i] == once.fields[i]
          <==> RedactField(RedactField(fs[i], depth), depth) == RedactField(fs[i], depth)
    {
      assert once.fields[i] == RedactField(fs[i], depth);
    }
    assert twice == once <==> forall i | 0 <= i < |fs| :: twice.fields[i] == once.fields[i];
  }

  /** Redacting twice is redacting once, exactly on the settled trees. */
  lemma {:induction false} IdempotentIffSettled(v: Value, depth: nat)
    ensures Redact(Redact(v, depth), depth) == Redact(v, depth) <==> Settled(v, depth)
    decreases MAX_DEPTH + 1 - depth
  {
    if depth <= MAX_DEPTH {
      match v
      case Arr(xs) =>
        ArrTwice(xs, depth);
        forall i | 0 <= i < |xs| { IdempotentIffSettled(xs[i], depth + 1); }
      case Obj(fs) =>
        ObjTwice(fs, depth);
        forall i | 0 <= i < |fs| { IdempotentIffSettled(fs[i].value, depth + 1); }
      case Err(name, message, stack) => ErrorTwice(name, message, stack, depth);
      case _ =>
    }
  }

  // -------------------------------------------------------------- what is shown

  /** Nothing in the tree is redacted, rewritten or too deep. */
  predicate IsOpen(v: Value, depth: nat)
    decreases MAX_DEPTH + 1 - depth
  {
    depth <= MAX_DEPTH &&
    match v
    case Arr(items) => forall i | 0 <= i < |items| :: IsOpen(items[i], depth + 1)
    case Obj(fields) =>
      forall i | 0 <= i < |fields| :: !IsRedactedKey(fields[i].key) && IsOpen(fields[i].value, depth + 1)
    case Err(_, _, _) => false
    case Date(_) => false
    case _ => true
  }

  /** Such a tree comes out as it is. */
  lemma {:induction false} OpenTreesStay(v: Value, depth: nat)
    requires IsOpen(v, depth)
    ensures Redact(v, depth) == v
    decreases MAX_DEPTH + 1 - depth
  {
    match v
    case Arr(items) =>
      forall i | 0 <= i < |items| { OpenTreesStay(items[i], depth + 1); }
      assert Redact(v, depth).items == items;
    case Obj(fields) =>
      forall i | 0 <= i < |fields| ensures RedactField(fields[i], depth) == fields[i] {
        OpenTreesStay(fields[i].value, depth + 1);
      }
      assert Redact(v, depth).fields == fields;
    case _ =>
  }

  /** One level of nesting, in a list or under a key. */
  datatype Level = InList | Under(key: string)

  function Nested(v: Value, levels: seq<Level>): Value {
    if levels == [] then v else AtLevel(Nested(v, levels[1..]), levels[0])
  }

  /** Six levels below the top a value is still looked at; at the seventh it is cut off. */
  lemma {:induction false} SixLevels(v: Value, levels: seq<Level>, depth: nat)
    requires depth <= 7
    requires forall l | l in levels :: l.Under? ==> !IsRedactedKey(l.key)
    ensures depth + |levels| <= 6 ==>
              Redact(Nested(v, levels), depth) == Nested(Redact(v, depth + |levels|), levels)
    ensures depth + |levels| > 6 ==>
              Redact(Nested(v, levels), depth) == Nested(Str("[deep]"), levels[..7 - depth])
    decreases |levels|
  {
    if levels != [] && depth <= 6 {
      var rest := levels[1..];
      assert levels[0] in levels;
      SixLevels(v, rest, depth + 1);
      OneLevel(levels[0], Nested(v, rest), depth);
      if depth + |levels| > 6 {
        assert levels[..7 - depth][1..] == rest[..6 - depth];
      }
    }
  }

  function AtLevel(v: Value, l: Level): Value {
    match l
    case InList => Arr([v])
    case Under(key) => Obj([Field(key, v)])
  }

  lemma OneLevel(l: Level, v: Value, depth: nat)
    requires depth <= MAX_DEPTH && (l.Under? ==> !IsRedactedKey(l.key))
    ensures Redact(AtLevel(v, l), depth) == AtLevel(Redact(v, depth + 1), l)
  {
    match l
    case InList => assert Redact(AtLevel(v, l), depth).items == [Redact(v, depth + 1)];
    case Under(key) => assert Redact(AtLevel(v, l), depth).fields == [RedactField(Field(key, v), depth)];
  }

  /** An error shows its three texts, a date its ISO form, wherever they are looked at. */
  lemma ErrorsAndDatesAreShown(name: string, message: string, stack: string, iso: string, depth: nat)
    requires depth <= 6
    ensures Redact(Err(name, message, Some(stack)), depth)
         == Obj([Field("name", Str(name)), Field("message", Str(message)), Field("stack", Str(stack))])
    ensures Redact(Err(name, message, None), depth)
         == Obj([Field("name", Str(name)), Field("message", Str(message)), Field("stack", Undefined)])
    ensures Redact(Date(iso), depth) == Str(iso)
  {
  }

  // ------------------------------------------------------------------- the names

  /** The names as they are listed, in whatever spelling. */
  const LISTED: set<string> := {
    "password", "newpassword", "currentpassword", "secret", "clientsecret", "apikey", "api_key", "token",
    "accesstoken", "access_token", "refreshtoken", "refresh_token", "idtoken", "id_token", "code", "codeverifier",
    "code_verifier", "authorization", "cookie", "setcookie", "set-cookie", "sessiontoken", "session_token",
    "privatekey", "backupcodes", "totp", "url", "link"
  }

  /** The comparison as it is made, candidate by candidate. */
  ghost predicate MatchesListed(key: string) {
    exists c :: c in LISTED && WithoutSeparators(c) == WithoutSeparators(Lower(key))
  }

  lemma NamesAreListed()
    ensures REDACTED_KEYS <= LISTED
  {
  }

  lemma NamesAreSmall(name: string)
    requires name in REDACTED_KEYS
    ensures forall i | 0 <= i < |name| :: 'a' <= name[i] <= 'z'
  {
  }

  lemma PlainName(name: string)
    requires name in REDACTED_KEYS
    ensures WithoutSeparators(name) == name && name in LISTED
  {
    NamesAreListed();
    NamesAreSmall(name);
    NoSeparators(name);
  }

  lemma JoinedName(a: string, sep: char, b: string, name: string)
    requires (sep == '-' || sep == '_') && a + b == name && name in REDACTED_KEYS
    ensures WithoutSeparators(a + [sep] + b) in REDACTED_KEYS
  {
    PlainName(name);
    SeparatorIsIgnored(a, sep, b);
  }

  const JOINED: set<string> := {
    "api_key", "access_token", "refresh_token", "id_token", "code_verifier", "set-cookie", "session_token"
  }

  lemma ListedIsPlainOrJoined(c: string)
    requires c in LISTED
    ensures c in REDACTED_KEYS || c in JOINED
  {
  }

  lemma ListedName(c: string)
    requires c in LISTED
    ensures WithoutSeparators(c) in REDACTED_KEYS
  {
    if c in REDACTED_KEYS {
      PlainName(c);
    } else {
      ListedIsPlainOrJoined(c);
      JoinedIsListed(c);
    }
  }

  lemma JoinedIsListed(c: string)
    requires c in JOINED
    ensures WithoutSeparators(c) in REDACTED_KEYS
  {
    var a, sep, b := JoinedParts(c);
    JoinedName(a, sep, b, a + b);
  }

  lemma JoinedParts(c: string) returns (a: string, sep: char, b: string)
    requires c in JOINED
    ensures (sep == '-' || sep == '_') && c == a + [sep] + b && a + b in REDACTED_KEYS
  {
    if c == "api_key" {
      a, sep, b := "api", '_', "key";
      IsJoined(c, a, sep, b, "apikey");
    } else if c == "code_verifier" {
      a, sep, b := "code", '_', "verifier";
      IsJoined(c, a, sep, b, "codeverifier");
    } else if c == "set-cookie" {
      a, sep, b := "set", '-', "cookie";
      IsJoined(c, a, sep, b, "setcookie");
    } else {
      a, sep, b := TokenParts(c);
    }
  }

  lemma TokenParts(c: string) returns (a: string, sep: char, b: string)
    requires c in {"access_token", "refresh_token", "id_token", "session_token"}
    ensures (sep == '-' || sep == '_') && c == a + [sep] + b && a + b in REDACTED_KEYS
  {
    sep, b := '_', "token";
    if c == "access_token" {
      a := "access";
      IsJoined(c, a, sep, b, "accesstoken");
    } else if c == "refresh_token" {
      a := "refresh";
      IsJoined(c, a, sep, b, "refreshtoken");
    } else if c == "id_token" {
      a := "id";
      IsJoined(c, a, sep, b, "idtoken");
    } else {
      a := "session";
      IsJoined(c, a, sep, b, "sessiontoken");
    }
  }

  lemma IsJoined(c: string, a: string, sep: char, b: string, name: string)
    requires c in JOINED && name in REDACTED_KEYS && name == a + b
    requires |c| == |a| + 1 + |b| && a <= c && c[|a|] == sep && b == c[|a| + 1..]
    ensures c == a + [sep] + b && a + b in REDACTED_KEYS
  {
  }

  /** Looking the bare name up is comparing it with every name on the list. */
  lemma KeyRuleIsTheList(key: string)
    ensures IsRedactedKey(key) <==> MatchesListed(key)
  {
    var name := WithoutSeparators(Lower(key));
    if IsRedactedKey(key) {
      PlainName(name);
    }
    if MatchesListed(key) {
      var c :| c in LISTED && WithoutSeparators(c) == name;
      ListedName(c);
    }
  }

  /** A key in other case is the same key, letter by letter. */
  lemma KeyRuleIgnoresCase(key: string, other: string)
    requires SameText(key, other)
    ensures IsRedactedKey(key) == IsRedactedKey(other)
  {
    SameTextIs(key, other);
  }
}
