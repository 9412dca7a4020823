/** Stored role lists and the start-up census of unknown ones, after
    `apps/web/src/server/role-utils.ts` and `apps/web/src/server/startup.ts`. */
module Roles {
  import opened Text

  /** Trimmed, blanks dropped. */
  function Clean(names: seq<string>): seq<string> {
    if names == [] then []
    else (if Trim(names[0]) == "" then [] else [Trim(names[0])]) + Clean(names[1..])
  }

  /** The role names in the stored column; a null column reads as the empty string. */
  function SplitRoles(value: string): seq<string> {
    if value == "" then [] else Clean(Split(value, ','))
  }

  function JoinRoles(roles: seq<string>): string {
    Join(Clean(roles), ',')
  }

  /** The held roles that are still defined, in catalog order. */
  function EffectiveRoles(stored: string, catalog: seq<string>): seq<string> {
    Keep(catalog, set r | r in SplitRoles(stored))
  }

  function Keep(names: seq<string>, held: set<string>): seq<string> {
    if names == [] then []
    else (if names[0] in held then [names[0]] else []) + Keep(names[1..], held)
  }

  // ------------------------------------------------------------- split and join

  /** All the roles in a list of stored values. */
  function SplitAll(values: seq<string>): seq<string> {
    if values == [] then [] else SplitRoles(values[0]) + SplitAll(values[1..])
  }

  lemma {:induction false} CleanAppend(a: seq<string>, b: seq<string>)
    ensures Clean(a + b) == Clean(a) + Clean(b)
  {
    if a == [] {
      assert a + b == b;
    } else {
      assert (a + b)[1..] == a[1..] + b;
      CleanAppend(a[1..], b);
    }
  }

  lemma SplitRolesIsClean(value: string)
    ensures SplitRoles(value) == Clean(Split(value, ','))
  {
    if value == "" {
      TrimAllSpace("");
      assert Clean([""]) == [] + Clean([""][1..]);
    }
  }

  lemma TrimAround(lead: string, x: string, tail: string)
    requires AllSpace(lead) && AllSpace(tail)
    ensures Trim(lead + x + tail) == Trim(x)
  {
    var l, r := TrimShape(x);
    assert lead + x + tail == (lead + l) + Trim(x) + (r + tail);
    TrimBetween(lead + l, Trim(x), r + tail);
  }

  lemma {:induction false} SplitLead(lead: string, s: string)
    requires ',' !in lead
    ensures Split(lead + s, ',') == [lead + Split(s, ',')[0]] + Split(s, ',')[1..]
  {
    var p := Split(s, ',');
    if lead == "" {
      assert lead + s == s && lead + p[0] == p[0];
    } else {
      assert (lead + s)[1..] == lead[1..] + s;
      SplitLead(lead[1..], s);
      var rest := Split(lead[1..] + s, ',');
      assert rest[0] == lead[1..] + p[0] && rest[1..] == p[1..];
      assert [lead[0]] + (lead[1..] + p[0]) == lead + p[0];
    }
  }

  /** A list with its last element replaced. */
  function WithLast(p: seq<string>, x: string): seq<string>
    requires p != []
  {
    p[..|p| - 1] + [x]
  }

  /** Putting a character in front of the first piece leaves the last piece's end alone. */
  lemma GrowFirst(q: seq<string>, c: char, tail: string)
    requires q != []
    ensures var r := WithLast(q, q[|q| - 1] + tail);
            var p := [[c] + q[0]] + q[1..];
            [[c] + r[0]] + r[1..] == WithLast(p, p[|p| - 1] + tail)
  {
    if |q| == 1 {
      assert [c] + (q[0] + tail) == [c] + q[0] + tail;
    }
  }

  lemma {:induction false} SplitTail(s: string, tail: string)
    requires ',' !in tail
    ensures var p := Split(s, ',');
            Split(s + tail, ',') == WithLast(p, p[|p| - 1] + tail)
  {
    if s == "" {
      assert s + tail == tail;
      SplitPlain(tail, ',');
    } else {
      assert (s + tail)[1..] == s[1..] + tail;
      SplitTail(s[1..], tail);
      var q := Split(s[1..], ',');
      var r := WithLast(q, q[|q| - 1] + tail);
      if s[0] == ',' {
        assert Split(s, ',') == [""] + q && Split(s + tail, ',') == [""] + r;
        assert [""] + r == WithLast([""] + q, ([""] + q)[|q|] + tail);
      } else {
        GrowFirst(q, s[0], tail);
      }
    }
  }

  lemma CleanLead(p: seq<string>, lead: string)
    requires p != [] && AllSpace(lead)
    ensures Clean([lead + p[0]] + p[1..]) == Clean(p)
  {
    assert lead + p[0] + "" == lead + p[0];
    TrimAround(lead, p[0], "");
    assert ([lead + p[0]] + p[1..])[1..] == p[1..];
  }

  lemma CleanTail(p: seq<string>, tail: string)
    requires p != [] && AllSpace(tail)
    ensures Clean(WithLast(p, p[|p| - 1] + tail)) == Clean(p)
  {
    var front, last := p[..|p| - 1], p[|p| - 1];
    assert "" + last + tail == last + tail;
    TrimAround("", last, tail);
    CleanAppend(front, [last + tail]);
    CleanAppend(front, [last]);
    assert p == front + [last];
    CleanOne(last);
    CleanOne(last + tail);
  }

  lemma CleanOne(x: string)
    ensures Clean([x]) == if Trim(x) == "" then [] else [Trim(x)]
  {
    assert [x][1..] == [];
  }

  lemma SplitRolesLead(lead: string, s: string)
    requires AllSpace(lead)
    ensures SplitRoles(lead + s) == SplitRoles(s)
  {
    SplitRolesIsClean(lead + s);
    SplitRolesIsClean(s);
    SplitLead(lead, s);
    CleanLead(Split(s, ','), lead);
  }

  lemma SplitRolesTail(s: string, tail: string)
    requires AllSpace(tail)
    ensures SplitRoles(s + tail) == SplitRoles(s)
  {
    SplitRolesIsClean(s + tail);
    SplitRolesIsClean(s);
    SplitTail(s, tail);
    CleanTail(Split(s, ','), tail);
  }

  /** White space around a stored value does not matter. */
  lemma SplitRolesOfTrimmed(value: string)
    ensures SplitRoles(Trim(value)) == SplitRoles(value)
  {
    var lead, tail := TrimShape(value);
    assert value == lead + (Trim(value) + tail);
    SplitRolesLead(lead, Trim(value) + tail);
    SplitRolesTail(Trim(value), tail);
  }

  lemma {:induction false} SplitOfJoined(names: seq<string>)
    ensures SplitRoles(Join(names, ',')) == SplitAll(names)
  {
    SplitRolesIsClean(Join(names, ','));
    if names == [] {
    } else if |names| == 1 {
      assert names[1..] == [];
    } else {
      SplitOfJoined(names[1..]);
      SplitAppend(names[0], ',', Join(names[1..], ','));
      CleanAppend(Split(names[0], ','), Split(Join(names[1..], ','), ','));
      SplitRolesIsClean(names[0]);
      SplitRolesIsClean(Join(names[1..], ','));
    }
  }

  lemma {:induction false} SplitAllOfClean(roles: seq<string>)
    ensures SplitAll(Clean(roles)) == SplitAll(roles)
  {
    if roles != [] {
      SplitAllOfClean(roles[1..]);
      SplitRolesOfTrimmed(roles[0]);
      if Trim(roles[0]) != "" {
        assert Clean(roles)[1..] == Clean(roles[1..]);
      } else {
        assert Clean(roles) == Clean(roles[1..]);
      }
    }
  }

  /** Splitting what was joined gives all the roles of the list, for every list -- names
      with commas, blanks and white space included. */
  lemma SplitJoinRoles(roles: seq<string>)
    ensures SplitRoles(JoinRoles(roles)) == SplitAll(roles)
  {
    SplitOfJoined(Clean(roles));
    SplitAllOfClean(roles);
  }

  // ------------------------------------------------------------ effective roles

  /** A name as splitting produces it. */
  predicate IsRoleName(name: string) {
    name != "" && Trim(name) == name && ',' !in name
  }

  lemma {:induction false} TrimKeepsOut(s: string, c: char)
    requires c !in s
    ensures c !in Trim(s)
  {
    var lead, tail := TrimShape(s);
    assert forall i | 0 <= i < |Trim(s)| :: Trim(s)[i] == s[|lead| + i];
  }

  lemma {:induction false} CleanNames(pieces: seq<string>)
    requires forall p | p in pieces :: ',' !in p
    ensures forall n | n in Clean(pieces) :: IsRoleName(n)
  {
    if pieces != [] {
      CleanNames(pieces[1..]);
      TrimIdempotent(pieces[0]);
      TrimKeepsOut(pieces[0], ',');
    }
  }

  lemma SplitRolesAreNames(value: string)
    ensures forall n | n in SplitRoles(value) :: IsRoleName(n)
  {
    SplitPieces(value, ',');
    CleanNames(Split(value, ','));
  }

  lemma SplitOneName(name: string)
    requires IsRoleName(name)
    ensures SplitRoles(name) == [name]
  {
    SplitPlain(name, ',');
    CleanOne(name);
  }

  lemma {:induction false} SplitAllOfNames(names: seq<string>)
    requires forall n | n in names :: IsRoleName(n)
    ensures SplitAll(names) == names
  {
    if names != [] {
      assert names[0] in names;
      SplitOneName(names[0]);
      SplitAllOfNames(names[1..]);
      assert [names[0]] + names[1..] == names;
    }
  }

  lemma {:induction false} KeepIs(names: seq<string>, held: set<string>, n: string)
    ensures n in Keep(names, held) <==> n in names && n in held
  {
    if names != [] {
      KeepIs(names[1..], held, n);
    }
  }

  lemma {:induction false} KeepSame(names: seq<string>, held: set<string>, other: set<string>)
    requires forall n | n in names :: n in held <==> n in other
    ensures Keep(names, held) == Keep(names, other)
  {
    if names != [] {
      assert names[0] in names;
      KeepSame(names[1..], held, other);
    }
  }

  /** Storing the effective roles and reading them back changes nothing, whatever the
      catalog holds: only names that splitting can produce are ever effective. */
  lemma EffectiveRolesAreStable(stored: string, catalog: seq<string>)
    ensures EffectiveRoles(JoinRoles(EffectiveRoles(stored, catalog)), catalog) == EffectiveRoles(stored, catalog)
  {
    var held := set r | r in SplitRoles(stored);
    var effective := EffectiveRoles(stored, catalog);
    SplitRolesAreNames(stored);
    forall n ensures n in effective <==> n in catalog && n in held { KeepIs(catalog, held, n); }
    SplitJoinRoles(effective);
    SplitAllOfNames(effective);
    KeepSame(catalog, held, (set r | r in effective));
  }

  // --------------------------------------------------------- the start-up census

  function CountIn(names: seq<string>, name: string): nat {
    if names == [] then 0
    else CountIn(names[..|names| - 1], name) + (if names[|names| - 1] == name then 1 else 0)
  }

  /** The role lists of all users. */
  function Held(rows: seq<string>): (lists: seq<seq<string>>)
    ensures |lists| == |rows|
  {
    seq(|rows|, i requires 0 <= i < |rows| => SplitRoles(rows[i]))
  }

  /** How often a role is held, over all users. */
  function TotalIn(lists: seq<seq<string>>, name: string): nat {
    if lists == [] then 0
    else TotalIn(lists[..|lists| - 1], name) + CountIn(lists[|lists| - 1], name)
  }

  /** The occurrences met after the users in `lists` and, of one more, the roles in `names`. */
  function Met(lists: seq<seq<string>>, names: seq<string>, name: string): nat {
    TotalIn(lists, name) + CountIn(names, name)
  }

  /** The census holds every unknown name met so far, with its number of occurrences. */
  ghost predicate IsCensus(
      unknown: map<string, nat>, catalog: set<string>, lists: seq<seq<string>>, names: seq<string>) {
    && (forall name :: name in unknown <==> name !in catalog && Met(lists, names, name) > 0)
    && (forall name | name in unknown :: unknown[name] == Met(lists, names, name))
  }

  lemma NextName(lists: seq<seq<string>>, names: seq<string>, next: string, name: string)
    ensures Met(lists, names + [next], name) == Met(lists, names, name) + (if next == name then 1 else 0)
  {
    assert (names + [next])[..|names|] == names;
  }

  lemma NextList(lists: seq<seq<string>>, names: seq<string>, name: string)
    ensures Met(lists + [names], [], name) == Met(lists, names, name)
  {
    assert (lists + [names])[..|lists|] == lists;
  }

  /** The inner loop: one user's roles. */
  method CountRoles(catalog: set<string>, ghost lists: seq<seq<string>>, names: seq<string>, before: map<string, nat>)
      returns (unknown: map<string, nat>)
    requires IsCensus(before, catalog, lists, [])
    ensures IsCensus(unknown, catalog, lists + [names], [])
  {
    unknown := before;
    for k := 0 to |names|
      invariant IsCensus(unknown, catalog, lists, names[..k])
    {
      var name := names[k];
      assert names[..k + 1] == names[..k] + [name];
      forall other { NextName(lists, names[..k], name, other); }
      if name !in catalog {
        unknown := unknown[name := (if name in unknown then unknown[name] else 0) + 1];
      }
    }
    assert names[..|names|] == names;
    forall name { NextList(lists, names, name); }
  }

  /** The counting loop over all users. */
  method WarnAboutUnknownRoles(roles: seq<string>, rows: seq<string>) returns (unknown: map<string, nat>)
    ensures forall name :: name in unknown <==> name !in roles && TotalIn(Held(rows), name) > 0
    ensures forall name | name in unknown :: unknown[name] == TotalIn(Held(rows), name)
  {
    var catalog := set r | r in roles;
    ghost var lists := Held(rows);
    unknown := map[];
    for i := 0 to |rows|
      invariant IsCensus(unknown, catalog, lists[..i], [])
    {
      var names := SplitRoles(rows[i]);
      unknown := CountRoles(catalog, lists[..i], names, unknown);
      assert lists[..i + 1] == lists[..i] + [names];
    }
    assert lists[..|rows|] == lists;
    assert forall name :: Met(lists, [], name) == TotalIn(lists, name);
  }

  lemma {:induction false} CountIsPresence(names: seq<string>, name: string)
    ensures CountIn(names, name) > 0 <==> name in names
  {
    if names != [] {
      CountIsPresence(names[..|names| - 1], name);
      assert names == names[..|names| - 1] + [names[|names| - 1]];
    }
  }

  lemma {:induction false} TotalIsPresence(lists: seq<seq<string>>, name: string)
    ensures TotalIn(lists, name) > 0 <==> exists list | list in lists :: name in list
  {
    if lists != [] {
      var front, last := lists[..|lists| - 1], lists[|lists| - 1];
      TotalIsPresence(front, name);
      CountIsPresence(last, name);
      assert lists == front + [last];
    }
  }

  lemma HeldHas(rows: seq<string>, name: string)
    ensures (exists list | list in Held(rows) :: name in list) <==> exists row | row in rows :: name in SplitRoles(row)
  {
    forall row | row in rows ensures SplitRoles(row) in Held(rows) {
      var i :| 0 <= i < |rows| && rows[i] == row;
      assert Held(rows)[i] == SplitRoles(row);
    }
  }

  /** A role is counted exactly when some user holds it and it is dropped from that user's
      effective roles. */
  lemma CountedIffDropped(roles: seq<string>, rows: seq<string>, name: string)
    ensures name !in roles && TotalIn(Held(rows), name) > 0
       <==> exists row | row in rows :: name in SplitRoles(row) && name !in EffectiveRoles(row, roles)
  {
    TotalIsPresence(Held(rows), name);
    HeldHas(rows, name);
    forall row | row in rows ensures name in EffectiveRoles(row, roles) <==> name in roles && name in SplitRoles(row) {
      KeepIs(roles, (set r | r in SplitRoles(row)), name);
    }
  }

  /** The number of users who hold a role. */
  function Holders(lists: seq<seq<string>>, name: string): nat {
    if lists == [] then 0
    else Holders(lists[..|lists| - 1], name) + (if name in lists[|lists| - 1] then 1 else 0)
  }

  /** The count the warning reports as users is the number of users exactly when nobody has
      the role stored twice. */
  lemma {:induction false} CountIsUsersIffNoRepeats(lists: seq<seq<string>>, name: string)
    ensures Holders(lists, name) <= TotalIn(lists, name)
    ensures Holders(lists, name) == TotalIn(lists, name) <==> forall list | list in lists :: CountIn(list, name) <= 1
  {
    if lists != [] {
      var front, last := lists[..|lists| - 1], lists[|lists| - 1];
      CountIsUsersIffNoRepeats(front, name);
      CountIsPresence(last, name);
      assert lists == front + [last];
    }
  }

  // --------------------------------------------------------------- catalog order

  lemma {:induction false} KeepAppend(a: seq<string>, b: seq<string>, held: set<string>)
    ensures Keep(a + b, held) == Keep(a, held) + Keep(b, held)
  {
    if a == [] {
      assert a + b == b;
    } else {
      assert (a + b)[1..] == a[1..] + b;
      KeepAppend(a[1..], b, held);
    }
  }

  /** The effective roles stand in the order of the catalog: what comes earlier there comes
      earlier here, and each is there if and only if it is held. */
  lemma EffectiveRolesInCatalogOrder(stored: string, before: seq<string>, name: string, after: seq<string>)
    ensures EffectiveRoles(stored, before + [name] + after)
         == EffectiveRoles(stored, before)
            + (if name in SplitRoles(stored) then [name] else []) + EffectiveRoles(stored, after)
  {
    var held := set r | r in SplitRoles(stored);
    KeepAppend(before + [name], after, held);
    KeepAppend(before, [name], held);
    KeepOne(name, held);
  }

  lemma KeepOne(name: string, held: set<string>)
    ensures Keep([name], held) == if name in held then [name] else []
  {
    assert [name][1..] == [];
  }
}
