/** The rows of the schema explorer's tree and the keys that move between them, after
    `packages/ui/src/components/schema-explorer.tsx`. */
module SchemaTree {
  import opened Text

  datatype Column = Column(name: string, typ: string, references: bool)
  datatype Index = Index(name: string, columns: seq<string>)
  datatype Table = Table(name: string, columns: seq<Column>, indexes: seq<Index>)

  datatype Kind = TableKind | ColumnKind | IndexKind | RelationKind
  datatype TreeRow = TreeRow(id: string, kind: Kind, table: Table, column: Option<Column>, index: Option<Index>)

  predicate IncludesQuery(value: string, query: string) {
    Contains(Lower(value), query)
  }

  predicate ColumnMatches(column: Column, query: string) {
    IncludesQuery(column.name, query) || IncludesQuery(column.typ, query)
  }

  predicate IndexMatches(index: Index, query: string) {
    IncludesQuery(index.name, query) || exists c | c in index.columns :: IncludesQuery(c, query)
  }

  function ColumnFilter(query: string): Column -> bool {
    column => ColumnMatches(column, query)
  }

  function IndexFilter(query: string): Index -> bool {
    index => IndexMatches(index, query)
  }

  function Filter<T>(xs: seq<T>, keep: T -> bool): seq<T> {
    if xs == [] then []
    else (if keep(xs[0]) then [xs[0]] else []) + Filter(xs[1..], keep)
  }

  predicate IsReference(column: Column) {
    column.references
  }

  function Relations(columns: seq<Column>): seq<Column> {
    Filter(columns, IsReference)
  }

  datatype Matches = Matches(columns: seq<Column>, indexes: seq<Index>, tableMatches: bool)

  function GetTableMatches(table: Table, query: string): Matches {
    if query == "" || IncludesQuery(table.name, query) then Matches(table.columns, table.indexes, true)
    else Matches(Filter(table.columns, ColumnFilter(query)), Filter(table.indexes, IndexFilter(query)), false)
  }

  predicate IsVisible(m: Matches) {
    m.tableMatches || m.columns != [] || m.indexes != []
  }

  function TableRow(table: Table): TreeRow {
    TreeRow("table:" + table.name, TableKind, table, None, None)
  }

  function ColumnRow(table: Table, column: Column): TreeRow {
    TreeRow("column:" + table.name + ":" + column.name, ColumnKind, table, Some(column), None)
  }

  function IndexRow(table: Table, index: Index): TreeRow {
    TreeRow("index:" + table.name + ":" + index.name, IndexKind, table, None, Some(index))
  }

  function RelationRow(table: Table, column: Column): TreeRow {
    TreeRow("relation:" + table.name + ":" + column.name, RelationKind, table, Some(column), None)
  }

  function ColumnRows(table: Table, columns: seq<Column>): (rows: seq<TreeRow>)
    ensures |rows| == |columns|
  {
    seq(|columns|, i requires 0 <= i < |columns| => ColumnRow(table, columns[i]))
  }

  function IndexRows(table: Table, indexes: seq<Index>): (rows: seq<TreeRow>)
    ensures |rows| == |indexes|
  {
    seq(|indexes|, i requires 0 <= i < |indexes| => IndexRow(table, indexes[i]))
  }

  function RelationRows(table: Table, columns: seq<Column>): (rows: seq<TreeRow>)
    ensures |rows| == |columns|
  {
    seq(|columns|, i requires 0 <= i < |columns| => RelationRow(table, columns[i]))
  }

  function ChildRows(table: Table, m: Matches): seq<TreeRow> {
    ColumnRows(table, m.columns) + IndexRows(table, m.indexes) + RelationRows(table, Relations(m.columns))
  }

  /** The rows one table contributes. */
  function Block(table: Table, open: set<string>, query: string): seq<TreeRow> {
    var m := GetTableMatches(table, query);
    if !IsVisible(m) then []
    else [TableRow(table)] + (if table.name in open || query != "" then ChildRows(table, m) else [])
  }

  function VisibleRows(tables: seq<Table>, open: set<string>, query: string): seq<TreeRow> {
    if tables == [] then []
    else VisibleRows(tables[..|tables| - 1], open, query) + Block(tables[|tables| - 1], open, query)
  }

  /** The rows pushed one by one, in the source's nested loops. */
  method GetVisibleRows(tables: seq<Table>, open: set<string>, query: string) returns (rows: seq<TreeRow>)
    ensures rows == VisibleRows(tables, open, query)
  {
    rows := [];
    for n := 0 to |tables|
      invariant rows == VisibleRows(tables[..n], open, query)
    {
      assert tables[..n + 1][..n] == tables[..n];
      rows := PushBlock(tables[n], open, query, rows);
    }
    assert tables[..|tables|] == tables;
  }

  /** One round of the outer loop. */
  method PushBlock(table: Table, open: set<string>, query: string, start: seq<TreeRow>) returns (rows: seq<TreeRow>)
    ensures rows == start + Block(table, open, query)
  {
    rows := start;
    var m := GetTableMatches(table, query);
    var relations := Relations(m.columns);
    if !IsVisible(m) {
      return;
    }
    rows := rows + [TableRow(table)];
    if !(table.name in open || query != "") {
      return;
    }
    rows := PushColumns(table, m.columns, rows);
    rows := PushIndexes(table, m.indexes, rows);
    rows := PushRelations(table, relations, rows);
    Regroup(start, [TableRow(table)], ColumnRows(table, m.columns), IndexRows(table, m.indexes),
            RelationRows(table, relations));
  }

  lemma Regroup<T>(s: seq<T>, h: seq<T>, a: seq<T>, b: seq<T>, c: seq<T>)
    ensures s + h + a + b + c == s + (h + (a + b + c))
  {
  }

  method PushColumns(table: Table, columns: seq<Column>, start: seq<TreeRow>) returns (rows: seq<TreeRow>)
    ensures rows == start + ColumnRows(table, columns)
  {
    rows := start;
    for i := 0 to |columns|
      invariant rows == start + ColumnRows(table, columns)[..i]
    {
      rows := rows + [ColumnRow(table, columns[i])];
    }
  }

  method PushIndexes(table: Table, indexes: seq<Index>, start: seq<TreeRow>) returns (rows: seq<TreeRow>)
    ensures rows == start + IndexRows(table, indexes)
  {
    rows := start;
    for i := 0 to |indexes|
      invariant rows == start + IndexRows(table, indexes)[..i]
    {
      rows := rows + [IndexRow(table, indexes[i])];
    }
  }

  method PushRelations(table: Table, relations: seq<Column>, start: seq<TreeRow>) returns (rows: seq<TreeRow>)
    ensures rows == start + RelationRows(table, relations)
  {
    rows := start;
    for i := 0 to |relations|
      invariant rows == start + RelationRows(table, relations)[..i]
    {
      rows := rows + [RelationRow(table, relations[i])];
    }
  }

  // ------------------------------------------------------------- subsequences

  /** `a` is `b` with some elements left out. */
  ghost predicate IsSubsequence<T>(a: seq<T>, b: seq<T>) {
    a == [] || (b != [] && ((a[0] == b[0] && IsSubsequence(a[1..], b[1..])) || IsSubsequence(a, b[1..])))
  }

  lemma {:induction false} SubsequenceOfItself<T>(a: seq<T>)
    ensures IsSubsequence(a, a)
  {
    if a != [] {
      SubsequenceOfItself(a[1..]);
    }
  }

  lemma {:induction false} SubsequenceAppend<T>(a: seq<T>, b: seq<T>, c: seq<T>, d: seq<T>)
    requires IsSubsequence(a, b) && IsSubsequence(c, d)
    ensures IsSubsequence(a + c, b + d)
    decreases |b|
  {
    if b == [] {
      assert a + c == c && b + d == d;
    } else {
      assert (b + d)[1..] == b[1..] + d;
      if a == [] {
        SubsequenceAppend(a, b[1..], c, d);
      } else if a[0] == b[0] && IsSubsequence(a[1..], b[1..]) {
        assert (a + c)[1..] == a[1..] + c;
        SubsequenceAppend(a[1..], b[1..], c, d);
      } else {
        SubsequenceAppend(a, b[1..], c, d);
      }
    }
  }

  lemma {:induction false} FilterIsSubsequence<T>(xs: seq<T>, keep: T -> bool)
    ensures IsSubsequence(Filter(xs, keep), xs)
  {
    if xs != [] {
      FilterIsSubsequence(xs[1..], keep);
      if keep(xs[0]) {
        assert Filter(xs, keep)[1..] == Filter(xs[1..], keep);
      } else {
        assert Filter(xs, keep) == Filter(xs[1..], keep);
      }
    }
  }

  /** Filtering keeps the order of subsequences. */
  lemma {:induction false} FilterKeepsSubsequence<T>(xs: seq<T>, ys: seq<T>, keep: T -> bool)
    requires IsSubsequence(xs, ys)
    ensures IsSubsequence(Filter(xs, keep), Filter(ys, keep))
    decreases |ys|
  {
    if xs != [] {
      var more := if keep(ys[0]) then [ys[0]] else [];
      if xs[0] == ys[0] && IsSubsequence(xs[1..], ys[1..]) {
        FilterKeepsSubsequence(xs[1..], ys[1..], keep);
        SubsequenceOfItself(more);
        SubsequenceAppend(more, more, Filter(xs[1..], keep), Filter(ys[1..], keep));
      } else {
        FilterKeepsSubsequence(xs, ys[1..], keep);
        SubsequenceAppend([], more, Filter(xs, keep), Filter(ys[1..], keep));
        assert [] + Filter(xs, keep) == Filter(xs, keep);
      }
    }
  }

  lemma {:induction false} ColumnRowsKeep(table: Table, xs: seq<Column>, ys: seq<Column>)
    requires IsSubsequence(xs, ys)
    ensures IsSubsequence(ColumnRows(table, xs), ColumnRows(table, ys))
    decreases |ys|
  {
    if xs != [] {
      assert ColumnRows(table, ys)[1..] == ColumnRows(table, ys[1..]);
      assert ColumnRows(table, xs)[1..] == ColumnRows(table, xs[1..]);
      if xs[0] == ys[0] && IsSubsequence(xs[1..], ys[1..]) {
        ColumnRowsKeep(table, xs[1..], ys[1..]);
      } else {
        ColumnRowsKeep(table, xs, ys[1..]);
      }
    }
  }

  lemma {:induction false} IndexRowsKeep(table: Table, xs: seq<Index>, ys: seq<Index>)
    requires IsSubsequence(xs, ys)
    ensures IsSubsequence(IndexRows(table, xs), IndexRows(table, ys))
    decreases |ys|
  {
    if xs != [] {
      assert IndexRows(table, ys)[1..] == IndexRows(table, ys[1..]);
      assert IndexRows(table, xs)[1..] == IndexRows(table, xs[1..]);
      if xs[0] == ys[0] && IsSubsequence(xs[1..], ys[1..]) {
        IndexRowsKeep(table, xs[1..], ys[1..]);
      } else {
        IndexRowsKeep(table, xs, ys[1..]);
      }
    }
  }

  lemma {:induction false} RelationRowsKeep(table: Table, xs: seq<Column>, ys: seq<Column>)
    requires IsSubsequence(xs, ys)
    ensures IsSubsequence(RelationRows(table, xs), RelationRows(table, ys))
    decreases |ys|
  {
    if xs != [] {
      assert RelationRows(table, ys)[1..] == RelationRows(table, ys[1..]);
      assert RelationRows(table, xs)[1..] == RelationRows(table, xs[1..]);
      if xs[0] == ys[0] && IsSubsequence(xs[1..], ys[1..]) {
        RelationRowsKeep(table, xs[1..], ys[1..]);
      } else {
        RelationRowsKeep(table, xs, ys[1..]);
      }
    }
  }

  /** Fewer columns and indexes, fewer rows. */
  lemma ChildRowsKeep(table: Table, m: Matches, all: Matches)
    requires IsSubsequence(m.columns, all.columns) && IsSubsequence(m.indexes, all.indexes)
    ensures IsSubsequence(ChildRows(table, m), ChildRows(table, all))
  {
    ColumnRowsKeep(table, m.columns, all.columns);
    IndexRowsKeep(table, m.indexes, all.indexes);
    RelationsKeep(m.columns, all.columns);
    RelationRowsKeep(table, Relations(m.columns), Relations(all.columns));
    SubsequenceAppend(ColumnRows(table, m.columns), ColumnRows(table, all.columns),
                      IndexRows(table, m.indexes), IndexRows(table, all.indexes));
    SubsequenceAppend(ColumnRows(table, m.columns) + IndexRows(table, m.indexes),
                      ColumnRows(table, all.columns) + IndexRows(table, all.indexes),
                      RelationRows(table, Relations(m.columns)), RelationRows(table, Relations(all.columns)));
  }

  lemma {:induction false} RelationsKeep(xs: seq<Column>, ys: seq<Column>)
    requires IsSubsequence(xs, ys)
    ensures IsSubsequence(Relations(xs), Relations(ys))
  {
    FilterKeepsSubsequence(xs, ys, IsReference);
  }

  lemma ChildRowsShrink(table: Table, query: string)
    ensures IsSubsequence(ChildRows(table, GetTableMatches(table, query)), ChildRows(table, GetTableMatches(table, "")))
  {
    var m := GetTableMatches(table, query);
    if m.tableMatches {
      SubsequenceOfItself(table.columns);
      SubsequenceOfItself(table.indexes);
    } else {
      FilterIsSubsequence(table.columns, ColumnFilter(query));
      FilterIsSubsequence(table.indexes, IndexFilter(query));
    }
    ChildRowsKeep(table, m, GetTableMatches(table, ""));
  }

  lemma BlockShrinks(table: Table, open: set<string>, query: string, wider: set<string>)
    requires table.name in wider
    ensures IsSubsequence(Block(table, open, query), Block(table, wider, ""))
  {
    var m, all := GetTableMatches(table, query), GetTableMatches(table, "");
    if IsVisible(m) {
      ChildRowsShrink(table, query);
      var children := if table.name in open || query != "" then ChildRows(table, m) else [];
      SubsequenceOfItself([TableRow(table)]);
      SubsequenceAppend([TableRow(table)], [TableRow(table)], children, ChildRows(table, all));
    }
  }

  function NamesOf(tables: seq<Table>): set<string> {
    set t | t in tables :: t.name
  }

  /** The rows under any search are rows of the fully expanded tree, in its order. */
  lemma {:induction false} SearchShowsASubsequence(
      tables: seq<Table>, open: set<string>, query: string, wider: set<string>)
    requires NamesOf(tables) <= wider
    ensures IsSubsequence(VisibleRows(tables, open, query), VisibleRows(tables, wider, ""))
  {
    if tables != [] {
      var front, last := tables[..|tables| - 1], tables[|tables| - 1];
      assert NamesOf(front) <= NamesOf(tables) && last.name in NamesOf(tables);
      SearchShowsASubsequence(front, open, query, wider);
      BlockShrinks(last, open, query, wider);
      SubsequenceAppend(VisibleRows(front, open, query), VisibleRows(front, wider, ""),
                        Block(last, open, query), Block(last, wider, ""));
    }
  }

  /** Without a search, opening more tables only adds rows. */
  lemma {:induction false} OpeningAddsRows(tables: seq<Table>, open: set<string>, wider: set<string>)
    requires open <= wider
    ensures IsSubsequence(VisibleRows(tables, open, ""), VisibleRows(tables, wider, ""))
  {
    if tables != [] {
      var front, last := tables[..|tables| - 1], tables[|tables| - 1];
      OpeningAddsRows(front, open, wider);
      if last.name in wider {
        BlockShrinks(last, open, "", wider);
      } else {
        SubsequenceOfItself(Block(last, open, ""));
      }
      SubsequenceAppend(VisibleRows(front, open, ""), VisibleRows(front, wider, ""),
                        Block(last, open, ""), Block(last, wider, ""));
    }
  }

  // ------------------------------------------------------- what a search shows

  lemma {:induction false} FilterIs<T>(xs: seq<T>, keep: T -> bool, x: T)
    ensures x in Filter(xs, keep) <==> x in xs && keep(x)
  {
    if xs != [] {
      FilterIs(xs[1..], keep, x);
    }
  }

  /** The column counts under this search: so does all of a table found by its name. */
  predicate ColumnFound(table: Table, column: Column, query: string) {
    column in table.columns && (query == "" || IncludesQuery(table.name, query) || ColumnMatches(column, query))
  }

  predicate IndexFound(table: Table, index: Index, query: string) {
    index in table.indexes && (query == "" || IncludesQuery(table.name, query) || IndexMatches(index, query))
  }

  /** Something about the table is found. */
  ghost predicate TableFound(table: Table, query: string) {
    || query == "" || IncludesQuery(table.name, query)
    || (exists c :: ColumnFound(table, c, query)) || (exists x :: IndexFound(table, x, query))
  }

  predicate Expanded(table: Table, open: set<string>, query: string) {
    table.name in open || query != ""
  }

  /** The row is to be shown for this table. */
  ghost predicate Shown(row: TreeRow, table: Table, open: set<string>, query: string) {
    || (row == TableRow(table) && TableFound(table, query))
    || (Expanded(table, open, query) && exists c :: ColumnFound(table, c, query) && row == ColumnRow(table, c))
    || (Expanded(table, open, query) && exists x :: IndexFound(table, x, query) && row == IndexRow(table, x))
    || (Expanded(table, open, query)
        && exists c :: ColumnFound(table, c, query) && c.references && row == RelationRow(table, c))
  }

  lemma MatchesAreFound(table: Table, query: string)
    ensures forall c :: c in GetTableMatches(table, query).columns <==> ColumnFound(table, c, query)
    ensures forall x :: x in GetTableMatches(table, query).indexes <==> IndexFound(table, x, query)
  {
    forall c { FilterIs(table.columns, ColumnFilter(query), c); }
    forall x { FilterIs(table.indexes, IndexFilter(query), x); }
  }

  lemma VisibleIffFound(table: Table, query: string)
    ensures IsVisible(GetTableMatches(table, query)) <==> TableFound(table, query)
  {
    var m := GetTableMatches(table, query);
    MatchesAreFound(table, query);
    if m.columns != [] { assert m.columns[0] in m.columns; }
    if m.indexes != [] { assert m.indexes[0] in m.indexes; }
  }

  lemma ColumnRowsHave(table: Table, columns: seq<Column>, row: TreeRow)
    ensures row in ColumnRows(table, columns) <==> exists c :: c in columns && row == ColumnRow(table, c)
    ensures row in RelationRows(table, columns) <==> exists c :: c in columns && row == RelationRow(table, c)
  {
    forall c | c in columns
      ensures ColumnRow(table, c) in ColumnRows(table, columns) && RelationRow(table, c) in RelationRows(table, columns)
    {
      var i :| 0 <= i < |columns| && columns[i] == c;
      assert ColumnRows(table, columns)[i] == ColumnRow(table, c);
      assert RelationRows(table, columns)[i] == RelationRow(table, c);
    }
  }

  lemma IndexRowsHave(table: Table, indexes: seq<Index>, row: TreeRow)
    ensures row in IndexRows(table, indexes) <==> exists x :: x in indexes && row == IndexRow(table, x)
  {
    forall x | x in indexes ensures IndexRow(table, x) in IndexRows(table, indexes) {
      var i :| 0 <= i < |indexes| && indexes[i] == x;
      assert IndexRows(table, indexes)[i] == IndexRow(table, x);
    }
  }

  lemma {:induction false} BlockShows(table: Table, open: set<string>, query: string, row: TreeRow)
    ensures row in Block(table, open, query) <==> Shown(row, table, open, query)
  {
    var m := GetTableMatches(table, query);
    MatchesAreFound(table, query);
    VisibleIffFound(table, query);
    ColumnRowsHave(table, m.columns, row);
    ColumnRowsHave(table, Relations(m.columns), row);
    IndexRowsHave(table, m.indexes, row);
    forall c { FilterIs(m.columns, IsReference, c); }
    assert forall c :: c in Relations(m.columns) <==> ColumnFound(table, c, query) && c.references;
  }

  ghost predicate InSomeBlock(tables: seq<Table>, open: set<string>, query: string, row: TreeRow) {
    exists t | t in tables :: row in Block(t, open, query)
  }

  lemma SomeBlockOfLast(front: seq<Table>, last: Table, open: set<string>, query: string, row: TreeRow)
    ensures InSomeBlock(front + [last], open, query, row)
       <==> InSomeBlock(front, open, query, row) || row in Block(last, open, query)
  {
    var tables := front + [last];
    if InSomeBlock(front, open, query, row) {
      var t :| t in front && row in Block(t, open, query);
      assert t in tables;
    }
    assert last in tables;
  }

  lemma VisibleRowsNext(front: seq<Table>, last: Table, open: set<string>, query: string)
    ensures VisibleRows(front + [last], open, query) == VisibleRows(front, open, query) + Block(last, open, query)
  {
    assert (front + [last])[..|front|] == front;
  }

  lemma InConcat<T>(a: seq<T>, b: seq<T>, x: T)
    ensures x in a + b <==> x in a || x in b
  {
  }

  lemma {:induction false} RowsOfBlocks(tables: seq<Table>, open: set<string>, query: string, row: TreeRow)
    ensures row in VisibleRows(tables, open, query) <==> InSomeBlock(tables, open, query, row)
  {
    if tables != [] {
      var front, last := tables[..|tables| - 1], tables[|tables| - 1];
      assert tables == front + [last];
      RowsOfBlocks(front, open, query, row);
      SomeBlockOfLast(front, last, open, query, row);
      VisibleRowsNext(front, last, open, query);
      InConcat(VisibleRows(front, open, query), Block(last, open, query), row);
    }
  }

  /** A row is there exactly when its table is listed and the search finds it. */
  lemma {:induction false} SearchIsExact(tables: seq<Table>, open: set<string>, query: string, row: TreeRow)
    ensures row in VisibleRows(tables, open, query) <==> exists t | t in tables :: Shown(row, t, open, query)
  {
    RowsOfBlocks(tables, open, query, row);
    if row in VisibleRows(tables, open, query) {
      var t :| t in tables && row in Block(t, open, query);
      BlockShows(t, open, query, row);
    }
    if exists t | t in tables :: Shown(row, t, open, query) {
      var t :| t in tables && Shown(row, t, open, query);
      BlockShows(t, open, query, row);
    }
  }

  // ------------------------------------------------------- blocks and navigation

  /** The nearest table row at or above a row. */
  function HeadOf(rows: seq<TreeRow>, i: nat): (h: nat)
    requires i < |rows|
    ensures h <= i
  {
    if i == 0 || rows[i].kind == TableKind then i else HeadOf(rows, i - 1)
  }

  /** The row at `i` stands in one contiguous block with, on top, the row of its own table. */
  ghost predicate InBlock(rows: seq<TreeRow>, i: nat)
    requires i < |rows|
  {
    var h := HeadOf(rows, i);
    && rows[h] == TableRow(rows[i].table)
    && forall k | h < k <= i :: rows[k].kind != TableKind && rows[k].table == rows[i].table
  }

  ghost predicate InBlocks(rows: seq<TreeRow>) {
    forall i | 0 <= i < |rows| :: InBlock(rows, i)
  }

  /** A row below its table's own row; its id is no table id. */
  predicate IsChildOf(row: TreeRow, table: Table) {
    row.kind != TableKind && row.table == table && row.id != "" && row.id[0] != 't'
  }

  /** What a table's own rows look like. */
  predicate IsBlockOf(block: seq<TreeRow>, table: Table) {
    && (block != [] ==> block[0] == TableRow(table))
    && forall k | 0 < k < |block| :: IsChildOf(block[k], table)
  }

  lemma ColumnRowsAreChildren(table: Table, columns: seq<Column>)
    ensures forall row | row in ColumnRows(table, columns) :: IsChildOf(row, table)
    ensures forall row | row in RelationRows(table, columns) :: IsChildOf(row, table)
  {
  }

  lemma IndexRowsAreChildren(table: Table, indexes: seq<Index>)
    ensures forall row | row in IndexRows(table, indexes) :: IsChildOf(row, table)
  {
  }

  lemma BlockShape(table: Table, open: set<string>, query: string)
    ensures IsBlockOf(Block(table, open, query), table)
  {
    var m := GetTableMatches(table, query);
    ColumnRowsAreChildren(table, m.columns);
    ColumnRowsAreChildren(table, Relations(m.columns));
    IndexRowsAreChildren(table, m.indexes);
    var block := Block(table, open, query);
    var children := ChildRows(table, m);
    assert forall row | row in children :: IsChildOf(row, table);
    forall k | 0 < k < |block| ensures IsChildOf(block[k], table) {
      assert block[k] == children[k - 1];
    }
  }

  lemma {:induction false} HeadInFront(rows: seq<TreeRow>, more: seq<TreeRow>, i: nat)
    requires i < |rows|
    ensures HeadOf(rows + more, i) == HeadOf(rows, i)
  {
    if i > 0 && rows[i].kind != TableKind {
      HeadInFront(rows, more, i - 1);
    }
  }

  lemma {:induction false} HeadInBlock(rows: seq<TreeRow>, block: seq<TreeRow>, k: nat)
    requires k < |block| && block[0].kind == TableKind
    requires forall j | 0 < j < |block| :: block[j].kind != TableKind
    ensures HeadOf(rows + block, |rows| + k) == |rows|
  {
    if k > 0 {
      HeadInBlock(rows, block, k - 1);
    }
  }

  lemma FrontStaysInBlock(rows: seq<TreeRow>, more: seq<TreeRow>, i: nat)
    requires i < |rows| && InBlock(rows, i)
    ensures InBlock(rows + more, i)
  {
    HeadInFront(rows, more, i);
  }

  lemma BlockIsInBlock(rows: seq<TreeRow>, block: seq<TreeRow>, table: Table, k: nat)
    requires IsBlockOf(block, table) && k < |block|
    ensures InBlock(rows + block, |rows| + k)
  {
    HeadInBlock(rows, block, k);
    assert forall j | |rows| < j <= |rows| + k :: (rows + block)[j] == block[j - |rows|];
  }

  lemma AppendBlock(rows: seq<TreeRow>, block: seq<TreeRow>, table: Table)
    requires InBlocks(rows) && IsBlockOf(block, table)
    ensures InBlocks(rows + block)
  {
    forall i | 0 <= i < |rows + block| ensures InBlock(rows + block, i) {
      if i < |rows| {
        FrontStaysInBlock(rows, block, i);
      } else {
        BlockIsInBlock(rows, block, table, i - |rows|);
      }
    }
  }

  lemma {:induction false} RowsAreInBlocks(tables: seq<Table>, open: set<string>, query: string)
    ensures InBlocks(VisibleRows(tables, open, query))
  {
    if tables != [] {
      var front, last := tables[..|tables| - 1], tables[|tables| - 1];
      RowsAreInBlocks(front, open, query);
      BlockShape(last, open, query);
      AppendBlock(VisibleRows(front, open, query), Block(last, open, query), last);
    }
  }

  predicate DistinctNames(tables: seq<Table>) {
    forall i, j | 0 <= i < j < |tables| :: tables[i].name != tables[j].name
  }

  /** `findIndex` by id, or the number of rows. */
  function FindIndex(rows: seq<TreeRow>, id: string): (i: nat)
    ensures i <= |rows|
    ensures i < |rows| ==> rows[i].id == id
    ensures forall k | 0 <= k < i :: rows[k].id != id
  {
    if rows == [] || rows[0].id == id then 0 else 1 + FindIndex(rows[1..], id)
  }

  /** Only table rows carry table ids. */
  predicate HasRowId(row: TreeRow) {
    if row.kind == TableKind then row == TableRow(row.table) else row.id != "" && row.id[0] != 't'
  }

  ghost predicate TableRowsDiffer(rows: seq<TreeRow>) {
    forall i, j | 0 <= i < j < |rows| && rows[i].kind == TableKind && rows[j].kind == TableKind ::
      rows[i].table.name != rows[j].table.name
  }

  lemma {:induction false} RowIds(tables: seq<Table>, open: set<string>, query: string)
    ensures forall row | row in VisibleRows(tables, open, query) :: HasRowId(row) && row.table in tables
  {
    if tables != [] {
      var front, last := tables[..|tables| - 1], tables[|tables| - 1];
      RowIds(front, open, query);
      BlockShape(last, open, query);
      var block := Block(last, open, query);
      forall row | row in block ensures HasRowId(row) && row.table in tables {
        var k :| 0 <= k < |block| && block[k] == row;
        assert row.table == last;
      }
    }
  }

  lemma {:induction false} TableIds(tables: seq<Table>, open: set<string>, query: string)
    requires DistinctNames(tables)
    ensures TableRowsDiffer(VisibleRows(tables, open, query))
  {
    if tables != [] {
      var front, last := tables[..|tables| - 1], tables[|tables| - 1];
      TableIds(front, open, query);
      RowIds(front, open, query);
      BlockShape(last, open, query);
      var rows, block := VisibleRows(front, open, query), Block(last, open, query);
      assert forall t | t in front :: t.name != last.name;
      var all: seq<TreeRow> := rows + block;
      forall i, j | 0 <= i < j < |all| && all[i].kind == TableKind && all[j].kind == TableKind
        ensures all[i].table.name != all[j].table.name
      {
        if j >= |rows| {
          assert all[j] == block[j - |rows|] && i < |rows|;
          assert rows[i] in rows;
        }
      }
    }
  }

  datatype Key = ArrowLeft | ArrowRight
  datatype Action = Focus(id: string) | Toggle(name: string, open: bool) | Stay

  /** The horizontal keys on the row at `index`. */
  function HorizontalKey(key: Key, rows: seq<TreeRow>, open: set<string>, query: string, index: nat): Action
    requires index < |rows|
  {
    var active := rows[index];
    match key
    case ArrowRight =>
      if active.kind != TableKind then Stay
      else if active.table.name in open || query != "" then
        if index + 1 < |rows| && rows[index + 1].table.name == active.table.name
        then Focus(rows[index + 1].id) else Stay
      else Toggle(active.table.name, true)
    case ArrowLeft =>
      if active.kind == TableKind then
        if active.table.name in open then Toggle(active.table.name, false) else Stay
      else Focus("table:" + active.table.name)
  }

  /** From any child row, ArrowLeft moves to a visible row: the head of its own block. */
  lemma ArrowLeftFindsTheHead(tables: seq<Table>, open: set<string>, query: string, index: nat)
    requires DistinctNames(tables)
    requires index < |VisibleRows(tables, open, query)| && VisibleRows(tables, open, query)[index].kind != TableKind
    ensures var rows := VisibleRows(tables, open, query);
            var action := HorizontalKey(ArrowLeft, rows, open, query, index);
            && action.Focus? && FindIndex(rows, action.id) == HeadOf(rows, index) < index
            && rows[HeadOf(rows, index)] == TableRow(rows[index].table)
  {
    var rows := VisibleRows(tables, open, query);
    RowsAreInBlocks(tables, open, query);
    RowIds(tables, open, query);
    TableIds(tables, open, query);
    assert InBlock(rows, index);
    var h := HeadOf(rows, index);
    var id := "table:" + rows[index].table.name;
    assert rows[h] == TableRow(rows[index].table);
    var f := FindIndex(rows, id);
    assert f <= h;
    if f < h {
      assert rows[f] in rows && rows[f].id[0] == 't';
      SamePrefix("table:", rows[f].table.name, rows[h].table.name);
    }
  }

  lemma SamePrefix(prefix: string, a: string, b: string)
    requires prefix + a == prefix + b
    ensures a == b
  {
    assert (prefix + a)[|prefix|..] == a && (prefix + b)[|prefix|..] == b;
  }

  /** ArrowRight on an open table goes to its first child, which is in its block. */
  lemma ArrowRightEntersTheBlock(tables: seq<Table>, open: set<string>, query: string, index: nat)
    requires DistinctNames(tables)
    requires index < |VisibleRows(tables, open, query)|
    requires HorizontalKey(ArrowRight, VisibleRows(tables, open, query), open, query, index).Focus?
    ensures var rows := VisibleRows(tables, open, query);
            && index + 1 < |rows| && rows[index + 1].kind != TableKind
            && HeadOf(rows, index + 1) == index
            && HorizontalKey(ArrowLeft, rows, open, query, index + 1) == Focus(rows[index].id)
  {
    var rows := VisibleRows(tables, open, query);
    TableIds(tables, open, query);
    RowIds(tables, open, query);
    assert rows[index] in rows && rows[index + 1] in rows;
  }

  // --------------------------------------------------------------- the order of rows

  /** An open table without a search: its row, its columns, its indexes, then the columns that
      refer to others, each in the order of the schema. */
  lemma OpenBlock(table: Table, open: set<string>)
    requires table.name in open
    ensures var block, refs := Block(table, open, ""), Relations(table.columns);
            && |block| == 1 + |table.columns| + |table.indexes| + |refs|
            && block[0] == TableRow(table)
            && (forall i | 0 <= i < |table.columns| :: block[1 + i] == ColumnRow(table, table.columns[i]))
            && (forall i | 0 <= i < |table.indexes| ::
                  block[1 + |table.columns| + i] == IndexRow(table, table.indexes[i]))
            && (forall i | 0 <= i < |refs| ::
                  block[1 + |table.columns| + |table.indexes| + i] == RelationRow(table, refs[i]))
  {
  }

  function Rank(kind: Kind): nat {
    match kind
    case TableKind => 0
    case ColumnKind => 1
    case IndexKind => 2
    case RelationKind => 3
  }

  /** In every block, under any search, the kinds of rows keep their order. */
  lemma BlocksAreRanked(table: Table, open: set<string>, query: string, i: nat, j: nat)
    requires i < j < |Block(table, open, query)|
    ensures Rank(Block(table, open, query)[i].kind) <= Rank(Block(table, open, query)[j].kind)
  {
  }

  // ------------------------------------------------------------ opening and closing

  /** The open tables after an action. */
  function OpenAfter(open: set<string>, action: Action): set<string> {
    match action
    case Toggle(name, true) => open + {name}
    case Toggle(name, false) => open - {name}
    case _ => open
  }

  /** The horizontal keys on a table's own row: right opens a closed table and left closes it
      again; left on a closed one, and right on an open one without children, do nothing. */
  lemma KeysOpenAndClose(rows: seq<TreeRow>, open: set<string>, index: nat)
    requires index < |rows| && rows[index].kind == TableKind
    ensures var name := rows[index].table.name;
            var right := HorizontalKey(ArrowRight, rows, open, "", index);
            var left := HorizontalKey(ArrowLeft, rows, open, "", index);
            && (name !in open ==> right == Toggle(name, true) && left == Stay)
            && (name in open ==> left == Toggle(name, false) && !right.Toggle?)
            && name in OpenAfter(open, right) && name !in OpenAfter(open, left)
            && (name !in open ==> OpenAfter(OpenAfter(open, right), Toggle(name, false)) == open)
  {
  }

  /** Right moves to the first child, if the table has one, and stays otherwise; on a row below
      it does nothing. */
  lemma ArrowRightIs(rows: seq<TreeRow>, open: set<string>, query: string, index: nat)
    requires index < |rows|
    ensures var action := HorizontalKey(ArrowRight, rows, open, query, index);
            var expanded := rows[index].kind == TableKind && (rows[index].table.name in open || query != "");
            var child := index + 1 < |rows| && rows[index + 1].table.name == rows[index].table.name;
            && (expanded && child ==> action == Focus(rows[index + 1].id))
            && (expanded && !child ==> action == Stay)
            && (rows[index].kind != TableKind ==> action == Stay)
  {
  }

  // ------------------------------------------------------------------- search and case

  ghost predicate StandsAt(words: string, text: string, i: int) {
    0 <= i <= |text| - |words| && SameText(text[i..i + |words|], words)
  }

  /** The words stand in the text, in whatever case. */
  ghost predicate StandsIn(words: string, text: string) {
    exists i :: StandsAt(words, text, i)
  }

  lemma IncludesIsStanding(value: string, words: string)
    ensures IncludesQuery(value, Lower(words)) <==> StandsIn(words, value)
  {
    var low, query := Lower(value), Lower(words);
    forall i | 0 <= i <= |value| - |words|
      ensures query <= low[i..] <==> StandsAt(words, value, i)
    {
      assert low[i..][..|words|] == Lower(value[i..i + |words|]);
      assert query <= low[i..] <==> low[i..][..|words|] == query;
      SameTextIs(value[i..i + |words|], words);
    }
    var k := IndexOf(low, query);
    if k >= 0 { assert StandsAt(words, value, k); }
  }

  /** What is typed, trimmed, is looked for in the names of the tables, the names and types of
      the columns, and the names and columns of the indexes, and case never matters. */
  lemma SearchLooksEverywhere(table: Table, column: Column, index: Index, typed: string)
    ensures ColumnFound(table, column, Lower(Trim(typed))) <==>
              column in table.columns && (Trim(typed) == "" || StandsIn(Trim(typed), table.name)
                || StandsIn(Trim(typed), column.name) || StandsIn(Trim(typed), column.typ))
    ensures IndexFound(table, index, Lower(Trim(typed))) <==>
              index in table.indexes && (Trim(typed) == "" || StandsIn(Trim(typed), table.name)
                || StandsIn(Trim(typed), index.name) || exists c | c in index.columns :: StandsIn(Trim(typed), c))
  {
    IncludesIsStanding(table.name, Trim(typed));
    IncludesIsStanding(column.name, Trim(typed));
    IncludesIsStanding(column.typ, Trim(typed));
    IncludesIsStanding(index.name, Trim(typed));
    forall c | c in index.columns { IncludesIsStanding(c, Trim(typed)); }
  }

  // ------------------------------------------------------------------------- row ids

  /** What the id of a row is put together from. */
  function PartsOf(row: TreeRow): seq<string>
    requires row.column.Some? || row.index.Some? || row.kind == TableKind
  {
    match row.kind
    case TableKind => ["table", row.table.name]
    case ColumnKind => ["column", row.table.name, NameOf(row)]
    case IndexKind => ["index", row.table.name, NameOf(row)]
    case RelationKind => ["relation", row.table.name, NameOf(row)]
  }

  function NameOf(row: TreeRow): string {
    if row.index.Some? then row.index.value.name else if row.column.Some? then row.column.value.name else ""
  }

  /** A row as the tree makes them. */
  ghost predicate IsMade(row: TreeRow) {
    || row == TableRow(row.table)
    || (row.column.Some? && row == ColumnRow(row.table, row.column.value))
    || (row.index.Some? && row == IndexRow(row.table, row.index.value))
    || (row.column.Some? && row == RelationRow(row.table, row.column.value))
  }

  lemma RowsAreMade(tables: seq<Table>, open: set<string>, query: string, row: TreeRow)
    requires row in VisibleRows(tables, open, query)
    ensures IsMade(row)
  {
    SearchIsExact(tables, open, query, row);
  }

  lemma JoinOfThree(a: string, b: string, c: string)
    ensures Join([a, b, c], ':') == a + ":" + (b + ":" + c)
  {
    assert [a, b, c][1..] == [b, c] && [b, c][1..] == [c];
    assert Join([b, c], ':') == b + ":" + c;
  }

  lemma IdIsJoined(row: TreeRow)
    requires IsMade(row)
    ensures row.id == Join(PartsOf(row), ':')
  {
    var t, n := row.table.name, NameOf(row);
    match row.kind
    case TableKind =>
      assert ["table", t][1..] == [t] && "table" + ":" + t == "table:" + t;
    case ColumnKind =>
      JoinOfThree("column", t, n);
      assert "column" + ":" + (t + ":" + n) == "column:" + t + ":" + n;
    case IndexKind =>
      JoinOfThree("index", t, n);
      assert "index" + ":" + (t + ":" + n) == "index:" + t + ":" + n;
    case RelationKind =>
      JoinOfThree("relation", t, n);
      assert "relation" + ":" + (t + ":" + n) == "relation:" + t + ":" + n;
  }

  /** Where names have no colon, an id tells the kind, the table and the name of its row. */
  lemma IdsTellRowsApart(a: TreeRow, b: TreeRow)
    requires IsMade(a) && IsMade(b) && a.id == b.id
    requires ':' !in a.table.name && ':' !in NameOf(a) && ':' !in b.table.name && ':' !in NameOf(b)
    ensures PartsOf(a) == PartsOf(b) && a.kind == b.kind && a.table.name == b.table.name && NameOf(a) == NameOf(b)
  {
    IdIsJoined(a);
    IdIsJoined(b);
    PartsHaveNoColon(a);
    PartsHaveNoColon(b);
    SplitJoin(PartsOf(a), ':');
    SplitJoin(PartsOf(b), ':');
    KindsDiffer(a, b);
  }

  lemma PartsHaveNoColon(row: TreeRow)
    requires IsMade(row) && ':' !in row.table.name && ':' !in NameOf(row)
    ensures forall p | p in PartsOf(row) :: ':' !in p
  {
  }

  lemma KindsDiffer(a: TreeRow, b: TreeRow)
    requires IsMade(a) && IsMade(b) && PartsOf(a) == PartsOf(b)
    ensures a.kind == b.kind && a.table.name == b.table.name && NameOf(a) == NameOf(b)
  {
    assert PartsOf(a)[0] == PartsOf(b)[0] && PartsOf(a)[1] == PartsOf(b)[1];
    assert "table"[0] == 't' && "column"[0] == 'c' && "index"[0] == 'i' && "relation"[0] == 'r';
    if a.kind != TableKind { assert PartsOf(a)[2] == PartsOf(b)[2]; }
  }

  /** With colons it may not: these are two rows of two tables. */
  lemma ColonsConfuse(typ: string)
    ensures var a, b := Table("a", [], []), Table("a:b", [], []);
            ColumnRow(a, Column("b:c", typ, false)).id == ColumnRow(b, Column("c", typ, false)).id
  {
    assert "column:" + "a" + ":" + "b:c" == "column:" + "a:b" + ":" + "c";
  }
}
