/** The parts of the main window with logic of their own: the SQL filter
    the search box builds, the multi-row deletion (which removes rows from
    the bottom up and keeps an undo entry only for small selections), the
    undo rule of multi-row duplication, and the gate in front of the
    update check. Views, dialogs and the record model are reduced to the
    values these parts read and write. */
module MainWindow {
  import opened Common
  import opened QtString
  import opened LocalStore
  import opened UpdateManager
  import Definitions

  // ---------------------------------------------------------------------------
  // Search
  // ---------------------------------------------------------------------------

  /** The type of a collection field. The eight named types are the ones the
      search leaves out; every other type of the metadata engine (not part
      of this model) is an `OtherType`. */
  datatype FieldType =
    | CheckboxType | ComboboxType | ProgressType | ImageType | FilesType
    | DateType | CreationDateType | ModDateType
    | OtherType(name: string)

  /** Fields of these types are never searched. */
  predicate Excluded(t: FieldType) {
    !t.OtherType?
  }

  /** The search key: with a locale whose decimal point is ',' every ','
      becomes '.', and every "'" is removed. */
  function SearchKey(s: string, commaDecimalPoint: bool): (key: string)
    ensures '\'' !in key
    ensures commaDecimalPoint ==> ',' !in key
    ensures !commaDecimalPoint ==> key == RemoveChar(s, '\'')
    ensures |key| == |s| - multiset(s)['\'']
  {
    var replaced := if commaDecimalPoint then ReplaceChar(s, ',', '.') else s;
    assert multiset(replaced)['\''] == multiset(s)['\''] by {
      if commaDecimalPoint {
        QuoteCountKept(s);
      }
    }
    RemoveChar(replaced, '\'')
  }

  /** Replacing ',' by '.' keeps the number of quotes. */
  lemma {:induction false} QuoteCountKept(s: string)
    ensures multiset(ReplaceChar(s, ',', '.'))['\''] == multiset(s)['\'']
    decreases |s|
  {
    if s != [] {
      var r := ReplaceChar(s, ',', '.');
      assert s == [s[0]] + s[1..];
      assert r == [r[0]] + r[1..];
      assert r[1..] == ReplaceChar(s[1..], ',', '.');
      QuoteCountKept(s[1..]);
    }
  }

  /** The condition for one column: `"<column>" LIKE '%<key>%'`. */
  function Clause(column: nat, key: string): string {
    "\"" + Decimal(column) + "\" LIKE '%" + key + "%'"
  }

  /** What the filter loop appends for each later column: the clause,
      preceded by " OR ". */
  function OrClause(column: nat, key: string): string {
    " OR " + Clause(column, key)
  }

  /** The searchable columns in [2, n), in increasing order. */
  function SearchableBelow(n: nat, types: seq<FieldType>): seq<nat>
    requires n <= 2 || n <= |types|
    decreases n
  {
    if n <= 2 then []
    else
      var init := SearchableBelow(n - 1, types);
      init + (if Excluded(types[n - 1]) then [] else [n - 1])
  }

  /** The searchable columns below `n` are exactly the columns in [2, n)
      whose type is not excluded, each once, in increasing order. */
  lemma SearchableBelowColumns(n: nat, types: seq<FieldType>)
    requires n <= 2 || n <= |types|
    ensures var cols := SearchableBelow(n, types);
      && (forall c :: c in cols <==> 2 <= c < n && !Excluded(types[c]))
      && (forall i :: 0 <= i < |cols| ==> 2 <= cols[i] < n)
      && (forall i, j :: 0 <= i < j < |cols| ==> cols[i] < cols[j])
  {
    SearchableBelowMembers(n, types);
    SearchableBelowOrdered(n, types);
  }

  /** A column is searchable below `n` exactly when it lies in [2, n) and
      its type is not excluded. */
  lemma {:induction false} SearchableBelowMembers(n: nat, types: seq<FieldType>)
    requires n <= 2 || n <= |types|
    ensures forall c :: c in SearchableBelow(n, types) <==> 2 <= c < n && !Excluded(types[c])
    decreases n
  {
    if n > 2 {
      SearchableBelowMembers(n - 1, types);
      var init := SearchableBelow(n - 1, types);
      if Excluded(types[n - 1]) {
        assert SearchableBelow(n, types) == init;
      } else {
        assert SearchableBelow(n, types) == init + [n - 1];
        assert forall c :: c in init + [n - 1] <==> c in init || c == n - 1;
      }
    }
  }

  /** The searchable columns below `n` lie in [2, n), in increasing order. */
  lemma {:induction false} SearchableBelowOrdered(n: nat, types: seq<FieldType>)
    requires n <= 2 || n <= |types|
    ensures forall i :: 0 <= i < |SearchableBelow(n, types)| ==> 2 <= SearchableBelow(n, types)[i] < n
    ensures forall i, j :: 0 <= i < j < |SearchableBelow(n, types)| ==>
              SearchableBelow(n, types)[i] < SearchableBelow(n, types)[j]
    decreases n
  {
    if n > 2 {
      SearchableBelowOrdered(n - 1, types);
      var init := SearchableBelow(n - 1, types);
      var cols := SearchableBelow(n, types);
      if Excluded(types[n - 1]) {
        assert cols == init;
      } else {
        assert cols == init + [n - 1];
        assert forall i :: 0 <= i < |init| ==> cols[i] == init[i];
        assert cols[|init|] == n - 1;
        forall i, j | 0 <= i < j < |cols| ensures cols[i] < cols[j] {
          if j < |init| {
            assert init[i] < init[j];
          } else {
            assert init[i] < n - 1;
          }
        }
      }
    }
  }

  /** The columns the filter searches, for a collection whose fields have
      the types `types` (column 0, the record id, among them): column 1
      whenever there is a field, then every column from 2 on whose type is
      not excluded. */
  function SearchedColumns(types: seq<FieldType>): (cols: seq<nat>)
    ensures forall c :: c in cols <==> (c == 1 && |types| > 0) || (2 <= c < |types| && !Excluded(types[c]))
    ensures cols != [] <==> |types| > 0
    ensures cols != [] ==> cols[0] == 1
    ensures forall i, j :: 0 <= i < j < |cols| ==> cols[i] < cols[j]
  {
    var rest := SearchableBelow(|types|, types);
    SearchableBelowColumns(|types|, types);
    if |types| > 0 then [1] + rest
    else
      assert rest == [];
      rest
  }

  /** The clauses of `columns` joined by " OR ". */
  function Render(columns: seq<nat>, key: string): string
    decreases |columns|
  {
    if columns == [] then ""
    else if |columns| == 1 then Clause(columns[0], key)
    else Render(columns[..|columns| - 1], key) + OrClause(columns[|columns| - 1], key)
  }

  /** The filter `searchSlot` builds for a key. */
  function FilterText(key: string, types: seq<FieldType>): string {
    Render(SearchedColumns(types), key)
  }

  /** One more column: the searchable columns below `n + 1` are those below
      `n`, then `n` itself unless its type is excluded. */
  lemma SearchableStep(n: nat, types: seq<FieldType>)
    requires 2 <= n < |types|
    ensures Excluded(types[n]) ==> SearchableBelow(n + 1, types) == SearchableBelow(n, types)
    ensures !Excluded(types[n]) ==> SearchableBelow(n + 1, types) == SearchableBelow(n, types) + [n]
  {
    if Excluded(types[n]) {
      assert SearchableBelow(n, types) + [] == SearchableBelow(n, types);
    }
  }

  /** The same step with the first column in front. */
  lemma ColumnsStep(first: seq<nat>, cols: seq<nat>, n: nat, types: seq<FieldType>)
    requires 2 <= n < |types|
    requires cols == first + SearchableBelow(n, types)
    ensures first + SearchableBelow(n + 1, types) == if Excluded(types[n]) then cols else cols + [n]
  {
    SearchableStep(n, types);
    if !Excluded(types[n]) {
      assert first + (SearchableBelow(n, types) + [n]) == cols + [n];
    }
  }

  /** Rendering one more column adds " OR " and its clause. */
  lemma RenderSnoc(columns: seq<nat>, c: nat, key: string)
    requires columns != []
    ensures Render(columns + [c], key) == Render(columns, key) + OrClause(c, key)
  {
    assert (columns + [c])[..|columns|] == columns;
  }

  /** The filter loop as written: column 1 if there is any field, then one
      " OR " clause per searchable column from 2 up to the field count. */
  method BuildFilter(key: string, types: seq<FieldType>) returns (filter: string)
    ensures filter == FilterText(key, types)
  {
    var count := |types|;
    ghost var first: seq<nat> := if count > 0 then [1] else [];
    filter := "";
    if count > 0 {
      filter := filter + Clause(1, key);
    }
    assert first + [] == first;
    ghost var cols := first;
    var i := 2;
    while i < count
      invariant 2 <= i <= (if count < 2 then 2 else count)
      invariant cols == first + SearchableBelow(i, types)
      invariant filter == Render(cols, key)
    {
      ColumnsStep(first, cols, i, types);
      if !Excluded(types[i]) {
        RenderSnoc(cols, i, key);
        filter := filter + OrClause(i, key);
        cols := cols + [i];
      }
      i := i + 1;
    }
    LoopColumns(types, first, i, cols, filter, key);
  }

  /** When the filter loop ends, it has visited every column: the columns
      rendered are the searched ones, so the text built is the filter. */
  lemma LoopColumns(types: seq<FieldType>, first: seq<nat>, i: nat, cols: seq<nat>, filter: string, key: string)
    requires first == if |types| > 0 then [1] else []
    requires i == if |types| < 2 then 2 else |types|
    requires cols == first + SearchableBelow(i, types)
    requires filter == Render(cols, key)
    ensures filter == FilterText(key, types)
  {
    if |types| < 2 {
      assert SearchableBelow(i, types) == [];
      assert cols == first;
    }
    assert cols == SearchedColumns(types);
  }

  /** The filter opens with `"1" LIKE '%<key>%'` exactly when the
      collection has a field, and is empty otherwise. */
  lemma FilterOpensWithFirstColumn(key: string, types: seq<FieldType>)
    ensures |types| > 0 ==> |FilterText(key, types)| >= |Clause(1, key)|
                            && FilterText(key, types)[..|Clause(1, key)|] == Clause(1, key)
    ensures |types| == 0 ==> FilterText(key, types) == ""
  {
    if |types| > 0 {
      RenderStartsWithFirst(SearchedColumns(types), key);
    }
  }

  /** A rendered list of columns starts with the clause of its first. */
  lemma {:induction false} RenderStartsWithFirst(columns: seq<nat>, key: string)
    requires columns != []
    ensures |Render(columns, key)| >= |Clause(columns[0], key)|
    ensures Render(columns, key)[..|Clause(columns[0], key)|] == Clause(columns[0], key)
    decreases |columns|
  {
    if |columns| > 1 {
      var init := columns[..|columns| - 1];
      assert init[0] == columns[0];
      RenderStartsWithFirst(init, key);
      var a := Render(init, key);
      var c := Clause(columns[0], key);
      var last := OrClause(columns[|columns| - 1], key);
      assert Render(columns, key) == a + last;
      assert (a + last)[..|c|] == a[..|c|];
    }
  }

  /** The number of "'" in a text. */
  function Quotes(s: string): nat {
    multiset(s)['\'']
  }

  /** A clause holds exactly the two quotes around its pattern when the
      key has none. */
  lemma ClauseQuotes(column: nat, key: string)
    requires '\'' !in key
    ensures Quotes(Clause(column, key)) == 2
  {
    var d := Decimal(column);
    assert '\'' !in d;
    ClauseLiteralQuotes();
    QuotesOfParts("\"", d, "\" LIKE '%", key, "%'");
  }

  /** The fixed parts of a clause: no quote in " OR " or before the column
      number, one opening the pattern and one closing it. */
  lemma ClauseLiteralQuotes()
    ensures Quotes(" OR ") == 0 && Quotes("\"") == 0 && Quotes("\" LIKE '%") == 1 && Quotes("%'") == 1
  {
    NoQuotes(" OR ");
    NoQuotes("\"");
    PatternOpenQuotes();
    PatternCloseQuotes();
  }

  /** The text opening the pattern holds one quote. */
  lemma PatternOpenQuotes()
    ensures Quotes("\" LIKE '%") == 1
  {
    NoQuotes("\" LIKE ");
    NoQuotes("%");
    OneQuote();
    assert "\" LIKE '%" == "\" LIKE " + "'" + "%";
    QuotesAppend("\" LIKE ", "'");
    QuotesAppend("\" LIKE " + "'", "%");
  }

  /** The text closing the pattern holds one quote. */
  lemma PatternCloseQuotes()
    ensures Quotes("%'") == 1
  {
    NoQuotes("%");
    OneQuote();
    assert "%'" == "%" + "'";
    QuotesAppend("%", "'");
  }

  /** A text without "'" counts none. */
  lemma NoQuotes(s: string)
    requires '\'' !in s
    ensures Quotes(s) == 0
  {
    assert '\'' !in multiset(s);
  }

  /** The quote itself counts one. */
  lemma OneQuote()
    ensures Quotes("'") == 1
  {
    assert multiset("'") == multiset{'\''};
  }

  /** Quotes add up over the five parts of a clause. */
  lemma QuotesOfParts(a: string, d: string, b: string, k: string, c: string)
    ensures Quotes(a + d + b + k + c) == Quotes(a) + Quotes(d) + Quotes(b) + Quotes(k) + Quotes(c)
  {
    QuotesAppend(a, d);
    QuotesAppend(a + d, b);
    QuotesAppend(a + d + b, k);
    QuotesAppend(a + d + b + k, c);
  }

  /** Quotes add up over a concatenation. */
  lemma QuotesAppend(x: string, y: string)
    ensures Quotes(x + y) == Quotes(x) + Quotes(y)
  {
    assert multiset(x + y) == multiset(x) + multiset(y);
  }

  /** With a key free of "'", the filter holds two quotes per clause: the
      key cannot end the SQL string literal it is placed in. */
  lemma {:induction false} FilterQuotes(columns: seq<nat>, key: string)
    requires '\'' !in key
    ensures Quotes(Render(columns, key)) == 2 * |columns|
    decreases |columns|
  {
    if columns != [] {
      ClauseQuotes(columns[|columns| - 1], key);
      if |columns| > 1 {
        var init := columns[..|columns| - 1];
        FilterQuotes(init, key);
        var last := columns[|columns| - 1];
        QuotesAppend(Render(init, key), OrClause(last, key));
        QuotesAppend(" OR ", Clause(last, key));
        ClauseLiteralQuotes();
      }
    }
  }

  /** What a search does: whether the window switched to the table view,
      the filter given to the record model, if any, and whether the undo
      stack was cleared. */
  datatype SearchOutcome = SearchOutcome(tableView: bool, filter: Option<string>, undoCleared: bool)

  /** `searchSlot(s)`: nothing without a current collection. Otherwise the
      window switches to the table view and, for a standard model, sets
      the filter of the cleaned key, or clears it when `s` itself is
      empty; in either case the undo stack is cleared, since the row ids
      it refers to are no longer valid. */
  function SearchSlot(s: string, collectionId: int, standardModel: bool, commaDecimalPoint: bool,
                      types: seq<FieldType>): (r: SearchOutcome)
    ensures r.tableView <==> collectionId != 0
    ensures r.undoCleared <==> collectionId != 0
    ensures r.filter.Some? <==> collectionId != 0 && standardModel
    ensures r.filter.Some? && s == [] ==> r.filter.value == ""
    ensures r.filter.Some? && s != [] ==>
              r.filter.value == FilterText(SearchKey(s, commaDecimalPoint), types)
              && Quotes(r.filter.value) == 2 * |SearchedColumns(types)|
  {
    if collectionId == 0 then SearchOutcome(false, None, false)
    else if !standardModel then SearchOutcome(true, None, true)
    else
      var key := SearchKey(s, commaDecimalPoint);
      var filter := FilterText(key, types);
      FilterQuotes(SearchedColumns(types), key);
      if s != [] then SearchOutcome(true, Some(filter), true) else SearchOutcome(true, Some(""), true)
  }

  /** The filter is cleared by an empty search text, not by an empty key: a
      search for a lone "'" has an empty key, and its filter, which is not
      empty, matches every record whose first field is set. */
  lemma LoneQuoteSearchesEverything(commaDecimalPoint: bool, types: seq<FieldType>)
    requires |types| > 0
    ensures var r := SearchSlot("'", 1, true, commaDecimalPoint, types);
      && r.filter.Some? && r.filter.value != ""
      && r.filter.value[..|Clause(1, "")|] == "\"1\" LIKE '%%'"
  {
    LoneQuoteKey(commaDecimalPoint);
    FilterOpensWithFirstColumn("", types);
    FirstClauseOfEmptyKey();
  }

  /** The clause of column 1 for an empty key. */
  lemma FirstClauseOfEmptyKey()
    ensures Clause(1, "") == "\"1\" LIKE '%%'"
  {
    assert DigitChar(1) == '1';
    assert Decimal(1) == "1";
  }

  /** Cleaning a lone "'" leaves nothing. */
  lemma LoneQuoteKey(commaDecimalPoint: bool)
    ensures SearchKey("'", commaDecimalPoint) == ""
  {
    assert multiset("'")['\''] == 1;
  }

  // ---------------------------------------------------------------------------
  // Deleting and duplicating records
  // ---------------------------------------------------------------------------

  /** An entry of the undo stack. */
  datatype UndoEntry =
    | RecordDeletion(rows: seq<int>)
    | RecordDuplication(rows: seq<int>)
    | OtherEdit

  /** Undo entries are kept only for selections of at most this many
      distinct rows. */
  const UNDO_LIMIT: nat := 100

  /** `removeRow(r)`: rows outside the table are not removed. */
  function RemoveRow<T>(t: seq<T>, r: int): (u: seq<T>)
    ensures 0 <= r < |t| ==> u == t[..r] + t[r + 1..] && |u| == |t| - 1
    ensures !(0 <= r < |t|) ==> u == t
  {
    if 0 <= r < |t| then t[..r] + t[r + 1..] else t
  }

  /** The rows of `t` from `lo` on whose index is not in `rows`, in order. */
  function KeepFrom<T>(t: seq<T>, rows: set<int>, lo: nat): seq<T>
    decreases |t| - lo
  {
    if lo >= |t| then []
    else (if lo in rows then [] else [t[lo]]) + KeepFrom(t, rows, lo + 1)
  }

  /** The table without the rows at the given indices, the others in
      their order. */
  function Without<T>(t: seq<T>, rows: set<int>): seq<T> {
    KeepFrom(t, rows, 0)
  }

  /** `KeepFrom` only looks at the indices from `lo` on. */
  lemma {:induction false} KeepFromAgree<T>(t: seq<T>, a: set<int>, b: set<int>, lo: nat)
    requires forall x :: lo <= x < |t| ==> (x in a <==> x in b)
    ensures KeepFrom(t, a, lo) == KeepFrom(t, b, lo)
    decreases |t| - lo
  {
    if lo < |t| {
      KeepFromAgree(t, a, b, lo + 1);
    }
  }

  /** Below the lowest index removed, rows are kept as they are. */
  lemma {:induction false} KeepPrefix<T>(t: seq<T>, rows: set<int>, lo: nat, j: nat)
    requires lo <= j <= |t|
    requires forall x :: x in rows ==> x >= j
    ensures KeepFrom(t, rows, lo) == t[lo..j] + KeepFrom(t, rows, j)
    decreases j - lo
  {
    if lo < j {
      KeepPrefix(t, rows, lo + 1, j);
      assert lo !in rows;
      calc {
        KeepFrom(t, rows, lo);
        [t[lo]] + KeepFrom(t, rows, lo + 1);
        [t[lo]] + (t[lo + 1..j] + KeepFrom(t, rows, j));
        ([t[lo]] + t[lo + 1..j]) + KeepFrom(t, rows, j);
        { assert [t[lo]] + t[lo + 1..j] == t[lo..j]; }
        t[lo..j] + KeepFrom(t, rows, j);
      }
    }
  }

  /** Removing nothing leaves the table as it is. */
  lemma WithoutNothing<T>(t: seq<T>)
    ensures Without(t, {}) == t
  {
    KeepPrefix(t, {}, 0, |t|);
  }

  /** The table without `removed`, all of whose rows lie above `r`, is the
      table up to `r`, then row `r`, then the kept rows above it. */
  lemma SplitKept<T>(t: seq<T>, removed: set<int>, r: nat)
    requires r < |t|
    requires forall x :: x in removed ==> x > r
    ensures Without(t, removed) == t[..r] + ([t[r]] + KeepFrom(t, removed, r + 1))
  {
    KeepPrefix(t, removed, 0, r);
    assert r !in removed;
    assert KeepFrom(t, removed, r) == [t[r]] + KeepFrom(t, removed, r + 1);
    assert t[0..r] == t[..r];
  }

  /** Removing `r` as well leaves out row `r` and nothing else. */
  lemma SplitRemoved<T>(t: seq<T>, removed: set<int>, r: nat)
    requires r < |t|
    requires forall x :: x in removed ==> x > r
    ensures Without(t, removed + {r}) == t[..r] + KeepFrom(t, removed, r + 1)
  {
    var more := removed + {r};
    KeepPrefix(t, more, 0, r);
    assert KeepFrom(t, more, r) == KeepFrom(t, more, r + 1);
    KeepFromAgree(t, more, removed, r + 1);
    assert t[0..r] == t[..r];
  }

  /** Removing a row below every row already removed deletes exactly that
      row of the original table: earlier removals, all further down, have
      not shifted it. */
  lemma RemoveBelowRemoved<T>(t: seq<T>, removed: set<int>, r: int)
    requires 0 <= r < |t|
    requires forall x :: x in removed ==> x > r
    ensures RemoveRow(Without(t, removed), r) == Without(t, removed + {r})
  {
    SplitKept(t, removed, r);
    SplitRemoved(t, removed, r);
    var head := t[..r];
    var rest := KeepFrom(t, removed, r + 1);
    var w := head + ([t[r]] + rest);
    assert |head| == r;
    assert w[..r] == head;
    assert w[r + 1..] == rest;
  }

  /** The rows a list mentions. */
  function Elements(rows: seq<int>): (e: set<int>)
    ensures forall x :: x in e <==> x in rows
  {
    set x | x in rows
  }

  /** `x` put into its place in the increasing list `l`, unless it is
      already there. */
  function Insert(l: seq<int>, x: int): (r: seq<int>)
    requires forall i, j :: 0 <= i < j < |l| ==> l[i] < l[j]
    ensures forall i, j :: 0 <= i < j < |r| ==> r[i] < r[j]
    ensures forall y :: y in r <==> y in l || y == x
    decreases |l|
  {
    if l == [] then [x]
    else if x < l[0] then [x] + l
    else if x == l[0] then l
    else
      var rest := Insert(l[1..], x);
      assert forall y :: y in l <==> y == l[0] || y in l[1..];
      forall k | 0 <= k < |rest|
        ensures rest[k] > l[0]
      {
        assert rest[k] in rest;
        if rest[k] != x {
          var m :| 0 <= m < |l[1..]| && l[1..][m] == rest[k];
          assert l[m + 1] == rest[k];
        }
      }
      [l[0]] + rest
  }

  /** The distinct rows of a selection in increasing order, as `QSet`
      collects them and `QSet::toList` followed by `qSort` lists them. */
  function SortedRows(selected: seq<int>): (r: seq<int>)
    ensures forall x :: x in r <==> x in selected
    ensures forall i, j :: 0 <= i < j < |r| ==> r[i] < r[j]
    decreases |selected|
  {
    if selected == [] then []
    else
      var init := selected[..|selected| - 1];
      assert forall y :: y in selected <==> y in init || y == selected[|selected| - 1];
      Insert(SortedRows(init), selected[|selected| - 1])
  }

  /** Each entry of the list is a different row. */
  predicate Distinct(rows: seq<int>) {
    forall i, j :: 0 <= i < j < |rows| ==> rows[i] != rows[j]
  }

  /** A list of distinct rows has as many rows as entries. */
  lemma {:induction false} DistinctCardinality(rows: seq<int>)
    requires Distinct(rows)
    ensures |Elements(rows)| == |rows|
    decreases |rows|
  {
    if rows != [] {
      var tail := rows[1..];
      DistinctCardinality(tail);
      assert Elements(rows) == {rows[0]} + Elements(tail);
      assert rows[0] !in Elements(tail);
    }
  }

  /** The table view branch of `deleteRecordActionTriggered`, for the rows
      of the selected cells (one entry per cell, so a row may repeat). An
      empty table is refused;
      the user may decline; otherwise the rows are removed from the highest
      down, until the progress dialog is cancelled after `cancelAfter`
      removals. Up to `UNDO_LIMIT` rows, one undo entry records the removed
      rows in removal order; above it, every removal clears the undo stack,
      so that a deletion cancelled before its first row keeps the history. */
  method DeleteSelectedRecords<T>(table: seq<T>, selected: seq<int>, confirmed: bool, cancelAfter: nat,
                                  undo: seq<UndoEntry>)
    returns (t: seq<T>, u: seq<UndoEntry>, deleted: seq<int>)
    requires forall x :: x in selected ==> 0 <= x < |table|
    ensures table == [] || !confirmed ==> t == table && u == undo && deleted == []
    ensures table != [] && confirmed ==>
              var rows := Elements(selected);
              && |deleted| == (if cancelAfter < |rows| then cancelAfter else |rows|)
              && (forall i, j :: 0 <= i < j < |deleted| ==> deleted[i] > deleted[j])
              && (forall x :: x in deleted ==> x in rows)
              && (forall x, y :: x in rows && y in deleted && x > y ==> x in deleted)
              && t == Without(table, Elements(deleted))
              && (cancelAfter >= |rows| ==> t == Without(table, rows))
              && (|rows| <= UNDO_LIMIT ==> u == undo + [RecordDeletion(deleted)])
              && (|rows| > UNDO_LIMIT ==> u == (if deleted == [] then undo else []))
  {
    if table == [] || !confirmed {
      return table, undo, [];
    }
    var rows := Elements(selected);
    var rowList := SortedRows(selected);
    assert Elements(rowList) == rows;
    DistinctCardinality(rowList);
    assert forall k :: 0 <= k < |rowList| ==> rowList[k] in selected;
    var canUndo := |rowList| <= UNDO_LIMIT;
    t, u, deleted := RemoveFromTop(table, rowList, cancelAfter, canUndo, undo);
    if canUndo {
      u := u + [RecordDeletion(deleted)];
    }
    TopRows(rowList, deleted);
  }

  /** The removal loop of `deleteRecordActionTriggered`: the rows of the
      increasing `rowList` from the highest down, one per turn, until the
      list is exhausted or `cancelAfter` rows are gone. Each removal deletes
      the row of the original table it names, since every row removed
      before it lies further down. Above the undo limit each turn clears
      the undo stack. */
  method RemoveFromTop<T>(table: seq<T>, rowList: seq<int>, cancelAfter: nat, canUndo: bool,
                          undo: seq<UndoEntry>)
    returns (t: seq<T>, u: seq<UndoEntry>, deleted: seq<int>)
    requires forall i, j :: 0 <= i < j < |rowList| ==> rowList[i] < rowList[j]
    requires forall k :: 0 <= k < |rowList| ==> 0 <= rowList[k] < |table|
    ensures |deleted| == if cancelAfter < |rowList| then cancelAfter else |rowList|
    ensures TakenFromTop(rowList, deleted)
    ensures t == Without(table, Elements(deleted))
    ensures canUndo ==> u == undo
    ensures !canUndo ==> u == (if deleted == [] then undo else [])
  {
    t, u, deleted := table, undo, [];
    WithoutNothing(table);
    assert Elements(deleted) == {};
    var i := |rowList| - 1;
    while i >= 0 && |deleted| < cancelAfter
      invariant -1 <= i < |rowList|
      invariant |deleted| == |rowList| - 1 - i <= cancelAfter
      invariant TakenFromTop(rowList, deleted)
      invariant t == Without(table, Elements(deleted))
      invariant canUndo ==> u == undo
      invariant !canUndo ==> u == (if deleted == [] then undo else [])
      decreases i
    {
      var r := rowList[i];
      if !canUndo {
        u := [];
      }
      TopRows(rowList, deleted);
      RemoveBelowRemoved(table, Elements(deleted), r);
      t := RemoveRow(t, r);
      assert Elements(deleted + [r]) == Elements(deleted) + {r};
      TakeNext(rowList, deleted);
      deleted := deleted + [r];
      i := i - 1;
    }
  }

  /** Taking the next row from the top keeps `deleted` the top of the list. */
  lemma TakeNext(rowList: seq<int>, deleted: seq<int>)
    requires TakenFromTop(rowList, deleted) && |deleted| < |rowList|
    ensures TakenFromTop(rowList, deleted + [rowList[|rowList| - 1 - |deleted|]])
  {
  }

  /** `deleted` are the last entries of `rowList`, highest first. */
  predicate TakenFromTop(rowList: seq<int>, deleted: seq<int>) {
    && |deleted| <= |rowList|
    && forall k :: 0 <= k < |deleted| ==> deleted[k] == rowList[|rowList| - 1 - k]
  }

  /** Rows taken from the top of an increasing list come out decreasing,
      lie above every row still to come, and leave no gap: every row of the
      list above one taken is taken too. */
  lemma TopRows(rowList: seq<int>, deleted: seq<int>)
    requires forall i, j :: 0 <= i < j < |rowList| ==> rowList[i] < rowList[j]
    requires TakenFromTop(rowList, deleted)
    ensures forall a, b :: 0 <= a < b < |deleted| ==> deleted[a] > deleted[b]
    ensures forall x :: x in deleted ==> x in rowList
    ensures forall x, y :: x in rowList && y in deleted && x > y ==> x in deleted
    ensures |deleted| < |rowList| ==> forall x :: x in deleted ==> x > rowList[|rowList| - 1 - |deleted|]
    ensures |deleted| == |rowList| ==> Elements(deleted) == Elements(rowList)
  {
    var n := |rowList|;
    forall x, y | x in rowList && y in deleted && x > y ensures x in deleted {
      var k :| 0 <= k < |deleted| && deleted[k] == y;
      var p :| 0 <= p < n && rowList[p] == x;
      assert p > n - 1 - k;
      assert deleted[n - 1 - p] == x;
    }
    if |deleted| == n {
      forall x | x in rowList ensures x in deleted {
        var p :| 0 <= p < n && rowList[p] == x;
        assert deleted[n - 1 - p] == x;
      }
    }
  }

  /** The form view branch of `deleteRecordActionTriggered`: after
      confirmation, the current record, if it is a row of the table, is
      removed, with an undo entry of its own. */
  function DeleteCurrentRecord<T>(table: seq<T>, confirmed: bool, currentRow: int, undo: seq<UndoEntry>)
    : (r: (seq<T>, seq<UndoEntry>))
    ensures table == [] || !confirmed || !(0 <= currentRow < |table|) ==> r == (table, undo)
    ensures table != [] && confirmed && 0 <= currentRow < |table| ==>
              r == (Without(table, {currentRow}), undo + [RecordDeletion([currentRow])])
  {
    if table == [] || !confirmed || !(0 <= currentRow < |table|) then (table, undo)
    else
      RemoveBelowRemoved(table, {}, currentRow);
      WithoutNothing(table);
      assert {} + {currentRow} == {currentRow};
      (RemoveRow(table, currentRow), undo + [RecordDeletion([currentRow])])
  }

  /** The copies of the given rows, in that order. */
  function Copies<T>(table: seq<T>, rows: seq<int>): (c: seq<T>)
    requires forall i :: 0 <= i < |rows| ==> 0 <= rows[i] < |table|
    ensures |c| == |rows|
    ensures forall k :: 0 <= k < |rows| ==> c[k] == table[rows[k]]
    decreases |rows|
  {
    if rows == [] then []
    else Copies(table, rows[..|rows| - 1]) + [table[rows[|rows| - 1]]]
  }

  /** The table view branch of `duplicateRecordActionTriggered`, for the
      selected rows in the order the set hands them out. Nothing happens
      without a standard model or with an empty table; more than
      `UNDO_LIMIT` rows need the user's confirmation. Each duplicated row
      is copied to the end of the table (the record model's
      `duplicateRecord`), until the progress dialog is cancelled after
      `cancelAfter` copies. Up to the limit one undo entry records the
      duplicated rows; above it the undo stack is cleared once at the end,
      even when nothing was duplicated. */
  method DuplicateSelectedRecords<T>(table: seq<T>, standardModel: bool, order: seq<int>, confirmed: bool,
                                     cancelAfter: nat, undo: seq<UndoEntry>)
    returns (t: seq<T>, u: seq<UndoEntry>, duplicated: seq<int>)
    requires Distinct(order)
    requires forall i :: 0 <= i < |order| ==> 0 <= order[i] < |table|
    ensures table == [] || !standardModel || (|order| > UNDO_LIMIT && !confirmed) ==>
              t == table && u == undo && duplicated == []
    ensures table != [] && standardModel && (|order| <= UNDO_LIMIT || confirmed) ==>
              && duplicated == order[..if cancelAfter < |order| then cancelAfter else |order|]
              && t == table + Copies(table, duplicated)
              && (|order| <= UNDO_LIMIT ==> u == undo + [RecordDuplication(duplicated)])
              && (|order| > UNDO_LIMIT ==> u == [])
  {
    if table == [] || !standardModel {
      return table, undo, [];
    }
    DistinctCardinality(order);
    var canUndo := |Elements(order)| <= UNDO_LIMIT;
    if !canUndo && !confirmed {
      return table, undo, [];
    }
    t, duplicated := table, [];
    var i := 0;
    while i < |order| && i < cancelAfter
      invariant 0 <= i <= |order| && i <= cancelAfter
      invariant duplicated == order[..i]
      invariant t == table + Copies(table, duplicated)
    {
      assert order[..i + 1][..i] == order[..i];
      t := t + [t[order[i]]];
      duplicated := order[..i + 1];
      i := i + 1;
    }
    u := if canUndo then undo + [RecordDuplication(duplicated)] else [];
  }

  /** The form view branch of `duplicateRecordActionTriggered`: with a
      standard model and a current record inside the table, the record is
      copied to the end, with an undo entry of its own. */
  function DuplicateCurrentRecord<T>(table: seq<T>, standardModel: bool, currentRow: int,
                                     undo: seq<UndoEntry>)
    : (r: (seq<T>, seq<UndoEntry>))
    ensures table == [] || !standardModel || !(0 <= currentRow < |table|) ==> r == (table, undo)
    ensures table != [] && standardModel && 0 <= currentRow < |table| ==>
              && |r.0| == |table| + 1 && r.0[..|table|] == table && r.0[|table|] == table[currentRow]
              && r.1 == undo + [RecordDuplication([currentRow])]
  {
    if table == [] || !standardModel || !(0 <= currentRow < |table|) then (table, undo)
    else (table + [table[currentRow]], undo + [RecordDuplication([currentRow])])
  }

  // ---------------------------------------------------------------------------
  // The update check gate
  // ---------------------------------------------------------------------------

  /** The window as the update check sees it: the status bar message,
      whether the window is still open, and its own update manager, which
      does not exist until the first check. */
  datatype Window = Window(status: string, open: bool, manager: Option<Manager>)

  const CHECKING_MESSAGE: string := "Checking for updates..."
  const UP_TO_DATE_MESSAGE: string := "Your software version is up to date"
  const CHECK_ERROR_MESSAGE: string := "Error while checking for software updates"

  /** `checkForUpdatesSlot`: nothing for an app-store build or when update
      checks are turned off in the settings; otherwise the window's update
      manager is created if it does not exist yet, the status bar says that
      a check is running, and the manager is asked to check. */
  function CheckForUpdatesSlot(w: Window, checkUpdates: bool, env: Env): (r: (Window, seq<Effect>))
    ensures Definitions.APP_STORE || !checkUpdates ==> r == (w, [])
    ensures !Definitions.APP_STORE && checkUpdates ==>
              && r.1 == [Get(Definitions.UPDATE_URL, CheckUpdatesOp)]
              && r.0.status == CHECKING_MESSAGE && r.0.open == w.open
              && r.0.manager.Some? && r.0.manager.value.currentOp == CheckUpdatesOp
              && (w.manager.Some? ==> r.0.manager.value.metadata == w.manager.value.metadata
                                      && r.0.manager.value.toDownload == w.manager.value.toDownload)
              && (w.manager.None? ==> r.0.manager.value == NewManager().(currentOp := CheckUpdatesOp))
  {
    if Definitions.APP_STORE || !checkUpdates then (w, [])
    else
      var m := if w.manager.None? then NewManager() else w.manager.value;
      var o := CheckForUpdates(m, env);
      (w.(status := CHECKING_MESSAGE, manager := Some(o.manager)), o.effects)
  }

  /** The manager is created once: checking again reuses it, and a second
      check right after the first leaves the window exactly as the first
      did. */
  lemma ManagerCreatedOnce(w: Window, checkUpdates: bool, env: Env)
    requires checkUpdates && w.manager.None?
    ensures var first := CheckForUpdatesSlot(w, checkUpdates, env);
      var second := CheckForUpdatesSlot(first.0, checkUpdates, env);
      second == first
  {
  }

  /** The window's slots for its manager's signals: `noUpdateFoundSlot`,
      `updateErrorSlot`, and `close` on acceptance of a software update.
      Every other signal of the manager is left unconnected. */
  function WindowOnSignal(w: Window, s: Signal): (r: Window)
    ensures r.manager == w.manager
    ensures r.open <==> w.open && s != UpdatesAccepted
    ensures r.status != w.status ==> s == NoUpdateSignal || s == UpdateErrorSignal
  {
    match s
    case NoUpdateSignal => w.(status := UP_TO_DATE_MESSAGE)
    case UpdateErrorSignal => w.(status := CHECK_ERROR_MESSAGE)
    case UpdatesAccepted => w.(open := false)
    case _ => w
  }

  /** The window after the signals among `effects`, in order; the other
      effects do not reach it. */
  function WindowAfter(w: Window, effects: seq<Effect>): (r: Window)
    ensures r.manager == w.manager
    decreases |effects|
  {
    if effects == [] then w
    else
      var w1 := if effects[0].Emit? then WindowOnSignal(w, effects[0].signal) else w;
      WindowAfter(w1, effects[1..])
  }

  /** What the window shows for each outcome of a check. */
  lemma WindowAfterDecision(w: Window, d: CheckDecision, accept: bool)
    ensures var r := WindowAfter(w, DecisionEffects(d, accept));
      && r.status == (if d == UpToDate then UP_TO_DATE_MESSAGE else w.status)
      && r.open == (w.open && !(d == SoftwareUpdate && accept))
  {
    var e := DecisionEffects(d, accept);
    match d
    case SoftwareUpdate =>
      if accept {
        assert e[1..] == [Emit(UpdatesAccepted)] && e[1..][1..] == [];
        assert WindowAfter(w, e) == WindowAfter(w, e[1..]);
        assert WindowAfter(w, e[1..]) == WindowAfter(w.(open := false), []);
      }
    case PlantDbUpdate =>
      assert e[1..] == [];
    case PlantDbUpdateWithheld =>
    case UpToDate =>
      assert e[1..] == [];
  }

  /** How a check started from the window ends there. A reply the manager
      cannot read puts the error message in the status bar. Otherwise the
      status bar says the software is up to date exactly when neither a new
      build nor a new plant database is offered (a database update found
      by this check goes unannounced by the window), and the window closes
      exactly when the user accepts a new build. */
  lemma WindowReportsCheck(w: Window, env: Env, reply: Reply, accept: bool)
    requires w.manager.Some? && w.manager.value.currentOp == CheckUpdatesOp
    ensures var m := w.manager.value;
      var text := FromByteArray(reply.body);
      var p := ParseUpdateMetadata(text, m.metadata);
      var r := WindowAfter(w, OnReply(m, env, reply, accept).effects);
      && (text == [] || !p.ok ==> r == w.(status := CHECK_ERROR_MESSAGE))
      && (text != [] && p.ok ==>
            var software := p.metadata.softwareBuild > Definitions.SOFTWARE_BUILD;
            var database := p.metadata.plantDbRevision > env.plantDbRevision || env.syncAborted;
            && r.status == (if !software && !database then UP_TO_DATE_MESSAGE else w.status)
            && (r.open <==> w.open && !(software && accept)))
  {
    var m := w.manager.value;
    var text := FromByteArray(reply.body);
    var o := OnReply(m, env, reply, accept);
    assert o == HandleCheck(m.(currentOp := NoOp), env, text, accept);
    if text != [] {
      var p := ParseUpdateMetadata(text, m.metadata);
      if p.ok {
        var d := Decide(p.metadata, env.plantDbRevision, env.syncAborted);
        assert o.effects == DecisionEffects(d, accept);
        WindowAfterDecision(w, d, accept);
      }
    }
  }
}
