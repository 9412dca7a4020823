/** Loggers, their children and the records they write, after
    `apps/web/src/server/logger.ts`. */
module Logging {
  import opened Text
  import opened Redaction

  datatype Level = Trace | Debug | Info | Warn | Error

  function Order(level: Level): nat {
    match level
    case Trace => 10
    case Debug => 20
    case Info => 30
    case Warn => 40
    case Error => 50
  }

  function LevelName(level: Level): string {
    match level
    case Trace => "trace"
    case Debug => "debug"
    case Info => "info"
    case Warn => "warn"
    case Error => "error"
  }

  // -------------------------------------------------------- objects as records

  /** Assignment to a property: in place if the key is there, else at the end. */
  function Put(fields: seq<Field>, key: string, value: Value): seq<Field> {
    if fields == [] then [Field(key, value)]
    else if fields[0].key == key then [Field(key, value)] + fields[1..]
    else [fields[0]] + Put(fields[1..], key, value)
  }

  /** The spread `{ ...a, ...b }`. */
  function Merge(a: seq<Field>, b: seq<Field>): seq<Field>
    decreases |b|
  {
    if b == [] then a else Merge(Put(a, b[0].key, b[0].value), b[1..])
  }

  predicate HasKey(fields: seq<Field>, key: string) {
    fields != [] && (fields[0].key == key || HasKey(fields[1..], key))
  }

  /** An object has each key once. */
  predicate Distinct(fields: seq<Field>) {
    fields == [] || (!HasKey(fields[1..], fields[0].key) && Distinct(fields[1..]))
  }

  lemma {:induction false} HasKeyIs(fields: seq<Field>, key: string)
    ensures HasKey(fields, key) <==> exists i :: 0 <= i < |fields| && fields[i].key == key
  {
    if fields != [] {
      HasKeyIs(fields[1..], key);
      assert forall i | 0 <= i < |fields| - 1 :: fields[1..][i] == fields[i + 1];
      if HasKey(fields[1..], key) {
        var i :| 0 <= i < |fields[1..]| && fields[1..][i].key == key;
        assert fields[i + 1].key == key;
      }
      if exists i :: 0 <= i < |fields| && fields[i].key == key {
        var i :| 0 <= i < |fields| && fields[i].key == key;
        if i > 0 { assert fields[1..][i - 1].key == key; }
      }
    }
  }

  lemma {:induction false} PutKeys(fields: seq<Field>, key: string, value: Value, other: string)
    ensures HasKey(Put(fields, key, value), other) <==> other == key || HasKey(fields, other)
  {
    var p := Put(fields, key, value);
    if fields == [] {
      assert p[1..] == [];
    } else if fields[0].key == key {
      assert p[1..] == fields[1..];
    } else {
      PutKeys(fields[1..], key, value, other);
      assert p[1..] == Put(fields[1..], key, value);
    }
  }

  /** Setting a key that is there commutes with setting another. */
  lemma {:induction false} PutCommutes(fields: seq<Field>, k: string, v: Value, j: string, w: Value)
    requires k != j && HasKey(fields, k)
    ensures Put(Put(fields, k, v), j, w) == Put(Put(fields, j, w), k, v)
  {
    if fields[0].key != k && fields[0].key != j {
      PutCommutes(fields[1..], k, v, j, w);
    }
  }

  lemma {:induction false} PutTwice(fields: seq<Field>, k: string, v: Value, w: Value)
    ensures Put(Put(fields, k, v), k, w) == Put(fields, k, w)
  {
    if fields != [] && fields[0].key != k {
      PutTwice(fields[1..], k, v, w);
    }
  }

  /** A key already there, and not written again, may be set before the merge or after. */
  lemma {:induction false} PutThroughMerge(a: seq<Field>, b: seq<Field>, k: string, v: Value)
    requires HasKey(a, k) && !HasKey(b, k)
    ensures Merge(Put(a, k, v), b) == Put(Merge(a, b), k, v)
    decreases |b|
  {
    if b != [] {
      var j, w := b[0].key, b[0].value;
      PutCommutes(a, k, v, j, w);
      PutKeys(a, j, w, k);
      PutThroughMerge(Put(a, j, w), b[1..], k, v);
    }
  }

  /** Merging an updated record is updating the merged one. */
  lemma {:induction false} MergePut(a: seq<Field>, b: seq<Field>, k: string, v: Value)
    requires Distinct(b)
    ensures Merge(a, Put(b, k, v)) == Put(Merge(a, b), k, v)
    decreases |b|
  {
    if b == [] {
      assert Put(b, k, v)[1..] == [];
    } else {
      var j, w := b[0].key, b[0].value;
      if j == k {
        assert Put(b, k, v)[1..] == b[1..];
        PutKeys(a, k, w, k);
        PutTwice(a, k, w, v);
        PutThroughMerge(Put(a, k, w), b[1..], k, v);
      } else {
        assert Put(b, k, v)[1..] == Put(b[1..], k, v);
        MergePut(Put(a, j, w), b[1..], k, v);
      }
    }
  }

  lemma {:induction false} PutDistinct(fields: seq<Field>, k: string, v: Value)
    requires Distinct(fields)
    ensures Distinct(Put(fields, k, v))
  {
    var p := Put(fields, k, v);
    if fields == [] {
      assert p[1..] == [];
    } else if fields[0].key == k {
      assert p[1..] == fields[1..];
    } else {
      PutDistinct(fields[1..], k, v);
      PutKeys(fields[1..], k, v, fields[0].key);
      assert p[1..] == Put(fields[1..], k, v);
    }
  }

  lemma {:induction false} MergeDistinct(a: seq<Field>, b: seq<Field>)
    requires Distinct(a)
    ensures Distinct(Merge(a, b))
    decreases |b|
  {
    if b != [] {
      PutDistinct(a, b[0].key, b[0].value);
      MergeDistinct(Put(a, b[0].key, b[0].value), b[1..]);
    }
  }

  /** Spreading is associative. */
  lemma {:induction false} MergeAssociates(a: seq<Field>, b: seq<Field>, c: seq<Field>)
    requires Distinct(b)
    ensures Merge(Merge(a, b), c) == Merge(a, Merge(b, c))
    decreases |c|
  {
    if c != [] {
      var k, v := c[0].key, c[0].value;
      MergePut(a, b, k, v);
      PutDistinct(b, k, v);
      MergeAssociates(a, Put(b, k, v), c[1..]);
    }
  }

  // ------------------------------------------------------- redaction and merge

  lemma {:induction false} RedactPut(fields: seq<Field>, k: string, v: Value)
    ensures RedactFields(Put(fields, k, v))
         == Put(RedactFields(fields), k, RedactField(Field(k, v), 0).value)
  {
    if fields == [] {
      assert RedactFields(Put(fields, k, v)) == [RedactField(Field(k, v), 0)];
    } else if fields[0].key != k {
      RedactPut(fields[1..], k, v);
      RedactFieldsCons(fields[0], fields[1..]);
      RedactFieldsCons(fields[0], Put(fields[1..], k, v));
      assert [fields[0]] + fields[1..] == fields;
    } else {
      RedactFieldsCons(fields[0], fields[1..]);
      RedactFieldsCons(Field(k, v), fields[1..]);
      assert [fields[0]] + fields[1..] == fields;
    }
  }

  lemma RedactFieldsCons(f: Field, rest: seq<Field>)
    ensures RedactFields([f] + rest) == [RedactField(f, 0)] + RedactFields(rest)
    ensures RedactField(f, 0).key == f.key
  {
  }

  /** Redaction distributes over the spread. */
  lemma {:induction false} RedactMerge(a: seq<Field>, b: seq<Field>)
    ensures RedactFields(Merge(a, b)) == Merge(RedactFields(a), RedactFields(b))
    decreases |b|
  {
    if b != [] {
      RedactPut(a, b[0].key, b[0].value);
      RedactMerge(Put(a, b[0].key, b[0].value), b[1..]);
      assert RedactFields(b)[1..] == RedactFields(b[1..]);
    }
  }

  lemma {:induction false} RedactKeys(fields: seq<Field>, key: string)
    ensures HasKey(RedactFields(fields), key) == HasKey(fields, key)
  {
    if fields != [] {
      assert RedactFields(fields)[1..] == RedactFields(fields[1..]);
      RedactKeys(fields[1..], key);
    }
  }

  lemma {:induction false} RedactDistinct(fields: seq<Field>)
    requires Distinct(fields)
    ensures Distinct(RedactFields(fields))
  {
    if fields != [] {
      assert RedactFields(fields)[1..] == RedactFields(fields[1..]);
      RedactKeys(fields[1..], fields[0].key);
      RedactDistinct(fields[1..]);
    }
  }

  // ------------------------------------------------------------------- loggers

  function Header(time: string, level: Level, message: string): seq<Field> {
    [Field("time", Str(time)), Field("level", Str(LevelName(level))), Field("msg", Str(message))]
  }

  /** The record `emit` builds: header first, then the base, then the call's own fields. */
  function Record(time: string, level: Level, message: string, base: seq<Field>, fields: seq<Field>): seq<Field> {
    Merge(Merge(Header(time, level, message), RedactFields(base)), RedactFields(fields))
  }

  ghost predicate AllMasked(fields: seq<Field>) {
    forall i | 0 <= i < |fields| :: MaskedField(fields[i])
  }

  lemma TimeIsLogged()
    ensures !IsRedactedKey("time")
  {
    assert "time" !in REDACTED_KEYS by {
      assert forall k | k in REDACTED_KEYS && |k| == 4 :: k[0] == 't' ==> k[1] == 'o';
      assert "time"[0] == 't' && "time"[1] == 'i';
    }
    LowerKeyIsLogged("time");
  }

  lemma LevelIsLogged()
    ensures !IsRedactedKey("level")
  {
    assert "level" !in REDACTED_KEYS by {
      assert forall k | k in REDACTED_KEYS && |k| == 5 :: k[0] != 'l';
      assert "level"[0] == 'l';
    }
    LowerKeyIsLogged("level");
  }

  lemma MsgIsLogged()
    ensures !IsRedactedKey("msg")
  {
    assert "msg" !in REDACTED_KEYS by {
      assert forall k | k in REDACTED_KEYS && |k| == 3 :: k[0] != 'm';
      assert "msg"[0] == 'm';
    }
    LowerKeyIsLogged("msg");
  }

  lemma HeaderIsMasked(time: string, level: Level, message: string)
    ensures AllMasked(Header(time, level, message))
  {
    TimeIsLogged();
    LevelIsLogged();
    MsgIsLogged();
  }

  lemma {:induction false} PutMasked(fields: seq<Field>, key: string, value: Value)
    requires AllMasked(fields) && MaskedField(Field(key, value))
    ensures AllMasked(Put(fields, key, value))
  {
    if fields != [] && fields[0].key != key {
      PutMasked(fields[1..], key, value);
    }
  }

  lemma {:induction false} MergeMasked(a: seq<Field>, b: seq<Field>)
    requires AllMasked(a) && AllMasked(b)
    ensures AllMasked(Merge(a, b))
    decreases |b|
  {
    if b != [] {
      assert b[0] == Field(b[0].key, b[0].value);
      PutMasked(a, b[0].key, b[0].value);
      MergeMasked(Put(a, b[0].key, b[0].value), b[1..]);
    }
  }

  lemma RedactedAreMasked(fields: seq<Field>)
    ensures AllMasked(RedactFields(fields))
  {
    forall i | 0 <= i < |fields| ensures MaskedField(RedactFields(fields)[i]) {
      FieldMasks(fields[i], 0);
    }
  }

  /** No record shows a value under a redacted key, at any depth. */
  lemma RecordIsMasked(time: string, level: Level, message: string, base: seq<Field>, fields: seq<Field>)
    ensures AllMasked(Record(time, level, message, base, fields))
  {
    HeaderIsMasked(time, level, message);
    RedactedAreMasked(base);
    RedactedAreMasked(fields);
    MergeMasked(Header(time, level, message), RedactFields(base));
    MergeMasked(Merge(Header(time, level, message), RedactFields(base)), RedactFields(fields));
  }

  /** What went to the output stream, one record a line. */
  class Output {
    var lines: seq<seq<Field>>

    constructor ()
      ensures lines == []
    {
      lines := [];
    }
  }

  datatype Logger = Logger(threshold: Level, base: seq<Field>) {
    function Child(fields: seq<Field>): Logger {
      this.(base := Merge(base, fields))
    }

    /** One record more, if the level is reached: the header, then the logger's and the
        call's fields as one object, redacted once; nothing in it shows what it should not. */
    method Emit(out: Output, time: string, level: Level, message: string, fields: seq<Field>)
      requires Distinct(base)
      modifies out
      ensures Order(level) < Order(threshold) ==> out.lines == old(out.lines)
      ensures Order(level) >= Order(threshold) ==>
                && |out.lines| == |old(out.lines)| + 1 && old(out.lines) <= out.lines
                && out.lines[|old(out.lines)|] ==
                     Merge(Header(time, level, message), RedactFields(Merge(base, fields)))
                && AllMasked(out.lines[|old(out.lines)|])
    {
      if Order(level) < Order(threshold) {
        return;
      }
      var record := Record(time, level, message, base, fields);
      RecordOnce(time, level, message, base, fields);
      RecordIsMasked(time, level, message, base, fields);
      out.lines := out.lines + [record];
    }
  }

  /** The logger at the end of a chain of `child` calls. */
  function Descendant(root: Logger, chain: seq<seq<Field>>): Logger
    decreases |chain|
  {
    if chain == [] then root else Descendant(root.Child(chain[0]), chain[1..])
  }

  /** All the fields of a chain and of a call, spread into one. */
  function Gathered(chain: seq<seq<Field>>, fields: seq<Field>): seq<Field>
    decreases |chain|
  {
    if chain == [] then fields else Merge(chain[0], Gathered(chain[1..], fields))
  }

  /** Base and call fields are redacted as if they had been one object. */
  lemma RecordOnce(time: string, level: Level, message: string, base: seq<Field>, fields: seq<Field>)
    requires Distinct(base)
    ensures Record(time, level, message, base, fields)
         == Merge(Header(time, level, message), RedactFields(Merge(base, fields)))
  {
    RedactDistinct(base);
    MergeAssociates(Header(time, level, message), RedactFields(base), RedactFields(fields));
    RedactMerge(base, fields);
  }

  lemma RecordOfMerged(
      time: string, level: Level, message: string, base: seq<Field>, own: seq<Field>, fields: seq<Field>)
    requires Distinct(base) && Distinct(own)
    ensures Record(time, level, message, Merge(base, own), fields)
         == Record(time, level, message, base, Merge(own, fields))
  {
    var header := Header(time, level, message);
    RedactMerge(base, own);
    RedactMerge(own, fields);
    RedactDistinct(base);
    RedactDistinct(own);
    MergeAssociates(header, RedactFields(base), RedactFields(own));
    MergeAssociates(Merge(header, RedactFields(base)), RedactFields(own), RedactFields(fields));
  }

  /** However long the chain of children, the record is the one the root logger would write
      if it were handed all their fields at once. */
  lemma {:induction false} ChildrenWriteTheSameRecord(
      root: Logger, chain: seq<seq<Field>>, time: string, level: Level, message: string, fields: seq<Field>)
    requires Distinct(root.base) && forall own | own in chain :: Distinct(own)
    ensures Record(time, level, message, Descendant(root, chain).base, fields)
         == Record(time, level, message, root.base, Gathered(chain, fields))
    ensures Descendant(root, chain).threshold == root.threshold
    decreases |chain|
  {
    if chain != [] {
      assert chain[0] in chain;
      MergeDistinct(root.base, chain[0]);
      ChildrenWriteTheSameRecord(root.Child(chain[0]), chain[1..], time, level, message, fields);
      RecordOfMerged(time, level, message, root.base, chain[0], Gathered(chain[1..], fields));
    }
  }

  /** Fields that differ only in what is redacted, or too deep, leave the same record. */
  lemma RecordIsNonInterfering(
      time: string, level: Level, message: string,
      base: seq<Field>, otherBase: seq<Field>, fields: seq<Field>, otherFields: seq<Field>)
    requires Alike(Obj(base), Obj(otherBase), 0) && Alike(Obj(fields), Obj(otherFields), 0)
    ensures Record(time, level, message, base, fields) == Record(time, level, message, otherBase, otherFields)
  {
    RedactionIsNonInterfering(Obj(base), Obj(otherBase), 0);
    RedactionIsNonInterfering(Obj(fields), Obj(otherFields), 0);
    assert Redact(Obj(base), 0) == Obj(RedactFields(base));
    assert Redact(Obj(otherBase), 0) == Obj(RedactFields(otherBase));
    assert Redact(Obj(fields), 0) == Obj(RedactFields(fields));
    assert Redact(Obj(otherFields), 0) == Obj(RedactFields(otherFields));
  }

  // ------------------------------------------------- redaction as the source runs it

  /** Every object down to the last depth has each key once. */
  ghost predicate Proper(v: Value, depth: nat)
    decreases MAX_DEPTH + 1 - depth
  {
    depth > MAX_DEPTH ||
    match v
    case Arr(xs) => forall i | 0 <= i < |xs| :: Proper(xs[i], depth + 1)
    case Obj(fs) => Distinct(fs) && forall i | 0 <= i < |fs| :: Proper(fs[i].value, depth + 1)
    case _ => true
  }

  lemma {:induction false} PutFresh(fields: seq<Field>, k: string, v: Value)
    requires !HasKey(fields, k)
    ensures Put(fields, k, v) == fields + [Field(k, v)]
  {
    if fields != [] {
      PutFresh(fields[1..], k, v);
      assert fields + [Field(k, v)] == [fields[0]] + (fields[1..] + [Field(k, v)]);
    }
  }

  lemma {:induction false} DistinctKeys(fields: seq<Field>, i: nat, j: nat)
    requires Distinct(fields) && i < j < |fields|
    ensures fields[i].key != fields[j].key
  {
    if i == 0 {
      HasKeyIs(fields[1..], fields[0].key);
      assert fields[1..][j - 1] == fields[j];
    } else {
      DistinctKeys(fields[1..], i - 1, j - 1);
    }
  }

  /** The first `i` entries are done. */
  ghost predicate Done(fields: seq<Field>, result: seq<Field>, i: nat, depth: nat)
    requires depth <= MAX_DEPTH
  {
    |result| == i <= |fields| && forall k | 0 <= k < i :: result[k] == RedactField(fields[k], depth)
  }

  /** An entry whose key is new goes to the end of the result. */
  lemma PutNext(fields: seq<Field>, result: seq<Field>, i: nat, depth: nat, item: Value)
    requires depth <= MAX_DEPTH && Distinct(fields) && i < |fields| && Done(fields, result, i, depth)
    ensures Put(result, fields[i].key, item) == result + [Field(fields[i].key, item)]
  {
    HasKeyIs(result, fields[i].key);
    forall k | 0 <= k < i ensures result[k].key != fields[i].key { DistinctKeys(fields, k, i); }
    PutFresh(result, fields[i].key, item);
  }

  lemma DoneAppend(fields: seq<Field>, result: seq<Field>, i: nat, depth: nat, next: Field)
    requires depth <= MAX_DEPTH && i < |fields| && Done(fields, result, i, depth)
    requires next == RedactField(fields[i], depth)
    ensures Done(fields, result + [next], i + 1, depth)
  {
  }

  lemma DoneNext(fields: seq<Field>, result: seq<Field>, i: nat, depth: nat, item: Value)
    requires depth <= MAX_DEPTH && Distinct(fields) && i < |fields| && Done(fields, result, i, depth)
    requires Field(fields[i].key, item) == RedactField(fields[i], depth)
    ensures Done(fields, Put(result, fields[i].key, item), i + 1, depth)
  {
    PutNext(fields, result, i, depth, item);
    DoneAppend(fields, result, i, depth, Field(fields[i].key, item));
  }

  lemma DoneAll(fields: seq<Field>, result: seq<Field>, depth: nat)
    requires depth <= MAX_DEPTH && Done(fields, result, |fields|, depth)
    ensures Obj(result) == Redact(Obj(fields), depth)
  {
    assert result == Redact(Obj(fields), depth).fields;
  }

  /** The array case: every item in turn. */
  method RedactItems(items: seq<Value>, depth: nat) returns (result: seq<Value>)
    requires depth <= MAX_DEPTH && Proper(Arr(items), depth)
    ensures Arr(result) == Redact(Arr(items), depth)
    decreases MAX_DEPTH + 1 - depth, 0
  {
    result := [];
    for i := 0 to |items|
      invariant |result| == i && forall k | 0 <= k < i :: result[k] == Redact(items[k], depth + 1)
    {
      var item := RedactValue(items[i], depth + 1);
      result := result + [item];
    }
  }

  /** The object case: a result object filled entry by entry. */
  method RedactEntries(fields: seq<Field>, depth: nat) returns (result: seq<Field>)
    requires depth <= MAX_DEPTH && Proper(Obj(fields), depth)
    ensures Obj(result) == Redact(Obj(fields), depth)
    decreases MAX_DEPTH + 1 - depth, 0
  {
    result := [];
    for i := 0 to |fields|
      invariant Done(fields, result, i, depth)
    {
      var item := REDACTION;
      if !IsRedactedKey(fields[i].key) {
        item := RedactValue(fields[i].value, depth + 1);
      }
      DoneNext(fields, result, i, depth, item);
      result := Put(result, fields[i].key, item);
    }
    DoneAll(fields, result, depth);
  }

  /** The recursion as the source runs it. */
  method RedactValue(value: Value, depth: nat) returns (r: Value)
    requires Proper(value, depth)
    ensures r == Redact(value, depth)
    decreases MAX_DEPTH + 1 - depth, 1
  {
    if depth > MAX_DEPTH {
      return DEEP;
    }
    match value {
      case Arr(items) =>
        var result := RedactItems(items, depth);
        r := Arr(result);
      case Err(name, message, stack) =>
        r := Obj(ErrorFields(name, message, stack));
      case Date(iso) =>
        r := Str(iso);
      case Obj(fields) =>
        var result := RedactEntries(fields, depth);
        r := Obj(result);
      case _ =>
        r := value;
    }
  }

  // --------------------------------------------------------------- reading back

  /** What a record holds under a key. */
  function Get(fields: seq<Field>, key: string): Option<Value> {
    if fields == [] then None else if fields[0].key == key then Some(fields[0].value) else Get(fields[1..], key)
  }

  lemma {:induction false} GetPut(fields: seq<Field>, key: string, value: Value, other: string)
    ensures Get(Put(fields, key, value), other) == if other == key then Some(value) else Get(fields, other)
  {
    var p := Put(fields, key, value);
    if fields == [] {
      assert p[1..] == [];
    } else if fields[0].key == key {
      assert p[1..] == fields[1..];
    } else {
      GetPut(fields[1..], key, value, other);
      assert p[1..] == Put(fields[1..], key, value);
    }
  }

  lemma {:induction false} HasKeyGet(fields: seq<Field>, key: string)
    ensures HasKey(fields, key) <==> Get(fields, key).Some?
  {
    if fields != [] { HasKeyGet(fields[1..], key); }
  }

  /** The spread keeps what only one side has, and lets the later side win. */
  lemma {:induction false} GetMerge(a: seq<Field>, b: seq<Field>, key: string)
    requires Distinct(b)
    ensures Get(Merge(a, b), key) == if HasKey(b, key) then Get(b, key) else Get(a, key)
    decreases |b|
  {
    if b != [] {
      GetPut(a, b[0].key, b[0].value, key);
      GetMerge(Put(a, b[0].key, b[0].value), b[1..], key);
    }
  }

  lemma {:induction false} GetRedacted(fields: seq<Field>, key: string)
    ensures Get(RedactFields(fields), key) ==
      match Get(fields, key)
      case None => None
      case Some(v) => Some(if IsRedactedKey(key) then Str("[redacted]") else Redact(v, 1))
  {
    if fields != [] {
      assert RedactFields(fields)[1..] == RedactFields(fields[1..]);
      GetRedacted(fields[1..], key);
    }
  }

  /** Every key of a record: the call's field, or else the logger's, or else the header's. */
  lemma RecordHolds(time: string, level: Level, message: string, base: seq<Field>, fields: seq<Field>, key: string)
    requires Distinct(base) && Distinct(fields)
    ensures Get(Record(time, level, message, base, fields), key) ==
      if HasKey(fields, key) then Get(RedactFields(fields), key)
      else if HasKey(base, key) then Get(RedactFields(base), key)
      else if key == "time" then Some(Str(time))
      else if key == "level" then Some(Str(LevelName(level)))
      else if key == "msg" then Some(Str(message))
      else None
  {
    RedactDistinct(base);
    RedactDistinct(fields);
    RedactKeys(base, key);
    RedactKeys(fields, key);
    GetMerge(Header(time, level, message), RedactFields(base), key);
    GetMerge(Merge(Header(time, level, message), RedactFields(base)), RedactFields(fields), key);
    HeaderHolds(time, level, message, key);
  }

  lemma HeaderHolds(time: string, level: Level, message: string, key: string)
    ensures Get(Header(time, level, message), key) ==
      if key == "time" then Some(Str(time))
      else if key == "level" then Some(Str(LevelName(level)))
      else if key == "msg" then Some(Str(message))
      else None
  {
    var h := Header(time, level, message);
    assert h[1..][1..] == [h[2]] && h[1..][1..][1..] == [];
    assert Get(h[1..][1..][1..], key) == None;
    assert Get(h[1..][1..], key) == if key == "msg" then Some(Str(message)) else None;
    assert Get(h[1..], key) == if key == "level" then Some(Str(LevelName(level))) else Get(h[1..][1..], key);
  }

  /** The levels, lowest first, and what they are called. */
  const LEVELS: seq<Level> := [Trace, Debug, Info, Warn, Error]
  const NAMES: seq<string> := ["trace", "debug", "info", "warn", "error"]

  lemma LevelsInOrder(i: nat, j: nat)
    requires i < 5 && j < 5
    ensures Order(LEVELS[i]) < Order(LEVELS[j]) <==> i < j
    ensures LevelName(LEVELS[i]) == NAMES[i]
  {
  }
}
