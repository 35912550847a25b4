/** `merge_datasets_task`: every prepared table is registered in DuckDB as a view
    that selects the seven canonical columns in order (a `NULL` column standing in
    for each one the table lacks); the views are combined with `UNION ALL`, the
    names normalised, exact duplicate rows removed and the rows sorted by name. */
module Merge {
  import opened Cells
  import opened Text
  import opened Seqs
  import opened Frame
  import opened Unique

  /** A prepared CSV file: the stem of its file name and its contents as read. */
  datatype File = File(stem: string, table: Table)

  /** One entry of `select_cols`: a column taken from the table, or `NULL as c`. */
  datatype Sel = Keep(col: string) | NullAs(col: string)

  /** `column_order`, the same seven names in the same order as the canonical schema. */
  const ColumnOrder: seq<string> := CanonicalColumns

  /** The place of `name` in `column_order`, the sort key of the merged table. */
  const NameColumn: nat := 0

  /** The entry of the select list for column `c`. */
  function Choose(c: string, available: seq<string>): Sel {
    if c in available then Keep(c) else NullAs(c)
  }

  /** The select list for a table with columns `available`, entry by entry. */
  function SelectList(order: seq<string>, available: seq<string>): (sel: seq<Sel>)
    ensures |sel| == |order|
  {
    seq(|order|, k requires 0 <= k < |order| => Choose(order[k], available))
  }

  /** The `select_cols` loop over `order` (the caller passes `column_order`): for each
      name, the column itself when the table has it and `NULL as` that name otherwise. */
  method BuildSelectList(order: seq<string>, available: seq<string>) returns (sel: seq<Sel>)
    ensures |sel| == |order|
    ensures forall k :: 0 <= k < |sel| ==>
      sel[k].col == order[k] && (sel[k].Keep? <==> order[k] in available)
    ensures sel == SelectList(order, available)
  {
    sel := [];
    var k := 0;
    while k < |order|
      invariant 0 <= k <= |order| && |sel| == k
      invariant forall j :: 0 <= j < k ==> sel[j] == Choose(order[j], available)
    {
      var col := order[k];
      if col in available {
        sel := sel + [Keep(col)];
      } else {
        sel := sel + [NullAs(col)];
      }
      k := k + 1;
    }
  }

  /** One row of the view `SELECT <sel> FROM temp_t`. */
  function ViewRow(sel: seq<Sel>, cols: seq<string>, row: seq<Value>): (r: seq<Value>)
    ensures |r| == |sel|
  {
    if sel == [] then []
    else
      var j := Find(cols, sel[0].col);
      [if sel[0].Keep? && j < |cols| && j < |row| then row[j] else Null] + ViewRow(sel[1..], cols, row)
  }

  /** A view cell is the table's cell of that column, or a null for a `NULL as` entry. */
  lemma {:induction false} ViewRowAt(sel: seq<Sel>, cols: seq<string>, row: seq<Value>, k: nat)
    requires |row| == |cols| && k < |sel|
    requires sel[k].Keep? ==> sel[k].col in cols
    ensures ViewRow(sel, cols, row)[k] ==
      if sel[k].Keep? then row[Find(cols, sel[k].col)] else Null
    decreases k
  {
    FindPresent(cols, sel[k].col);
    if k > 0 {
      ViewRowAt(sel[1..], cols, row, k - 1);
    }
  }

  /** The rows of the view registered for table `t`. */
  function ViewRows(t: Table): (rs: seq<seq<Value>>)
    ensures |rs| == |t.rows|
  {
    ViewRowsOf(SelectList(ColumnOrder, t.columns), t.columns, t.rows)
  }

  function ViewRowsOf(sel: seq<Sel>, cols: seq<string>, rows: seq<seq<Value>>): (rs: seq<seq<Value>>)
    ensures |rs| == |rows|
  {
    if rows == [] then [] else [ViewRow(sel, cols, rows[0])] + ViewRowsOf(sel, cols, rows[1..])
  }

  lemma {:induction false} ViewRowsOfAt(sel: seq<Sel>, cols: seq<string>, rows: seq<seq<Value>>, i: nat)
    requires i < |rows|
    ensures ViewRowsOf(sel, cols, rows)[i] == ViewRow(sel, cols, rows[i])
    decreases i
  {
    if i > 0 {
      ViewRowsOfAt(sel, cols, rows[1..], i - 1);
    }
  }

  /** Each view row has the seven columns of `column_order`; a column the source has
      carries that row's cell, a column it lacks carries a null. */
  lemma ViewAligned(t: Table, i: nat, k: nat)
    requires WellFormed(t) && i < |t.rows| && k < |ColumnOrder|
    ensures |ViewRows(t)[i]| == |ColumnOrder|
    ensures ViewRows(t)[i][k] ==
      if ColumnOrder[k] in t.columns then t.rows[i][Find(t.columns, ColumnOrder[k])] else Null
  {
    var sel := SelectList(ColumnOrder, t.columns);
    ViewRowsOfAt(sel, t.columns, t.rows, i);
    ViewRowAt(sel, t.columns, t.rows[i], k);
  }

  // ----- registering the views ---------------------------------------------

  /** `file.stem.lower().replace('-', '_')`: the view name of a file. */
  function TableName(stem: string): string {
    ReplaceChar(Lower(stem), '-', "_")
  }

  function TableNames(files: seq<File>): (ns: seq<string>)
    ensures |ns| == |files|
  {
    if files == [] then [] else [TableName(files[0].stem)] + TableNames(files[1..])
  }

  lemma {:induction false} TableNamesAt(files: seq<File>, i: nat)
    requires i < |files|
    ensures TableNames(files)[i] == TableName(files[i].stem)
    decreases i
  {
    if i > 0 {
      TableNamesAt(files[1..], i - 1);
    }
  }

  function AllViews(files: seq<File>): (vs: seq<seq<seq<Value>>>)
    ensures |vs| == |files|
  {
    if files == [] then [] else [ViewRows(files[0].table)] + AllViews(files[1..])
  }

  lemma {:induction false} AllViewsAt(files: seq<File>, i: nat)
    requires i < |files|
    ensures AllViews(files)[i] == ViewRows(files[i].table)
    decreases i
  {
    if i > 0 {
      AllViewsAt(files[1..], i - 1);
    }
  }

  /** The position of the last element of `s[..n]` equal to `s[i]`: the file whose
      view survives under that name, since `CREATE OR REPLACE VIEW` replaces it. */
  function LastOf<T(==)>(s: seq<T>, n: nat, i: nat): (j: nat)
    requires i < n <= |s|
    ensures i <= j < n && s[j] == s[i]
    ensures forall k :: j < k < n ==> s[k] != s[i]
    decreases n
  {
    if s[n - 1] == s[i] then n - 1 else LastOf(s, n - 1, i)
  }

  /** The body of the file loop: the file's table name and the rows of the view
      `CREATE OR REPLACE VIEW` registers under it. */
  method ViewOf(file: File) returns (name: string, view: seq<seq<Value>>)
    ensures name == TableName(file.stem) && view == ViewRows(file.table)
  {
    name := TableName(file.stem);
    var sel := BuildSelectList(ColumnOrder, file.table.columns);
    view := ViewRowsOf(sel, file.table.columns, file.table.rows);
  }

  /** The file loop: each file's view is registered under its table name, and the
      name is appended to `table_names`, even when it is already there. */
  method RegisterViews(files: seq<File>) returns (names: seq<string>, views: map<string, seq<seq<Value>>>)
    ensures names == TableNames(files)
    ensures forall x :: x in views <==> x in names
    ensures forall j :: 0 <= j < |files| && LastWithKey(names, |files|, j) ==>
              names[j] in views && views[names[j]] == ViewRows(files[j].table)
  {
    names := [];
    views := map[];
    ghost var vs: seq<seq<seq<Value>>> := [];
    var n := 0;
    while n < |files|
      invariant 0 <= n <= |files| && |names| == |vs| == n
      invariant MapsTo(files, names, StemName, n)
      invariant MapsTo(files, vs, FileView, n)
      invariant Built(names, vs, n, views)
    {
      var name, view := ViewOf(files[n]);
      BuiltSnoc(names, vs, views, name, view);
      MapsToSnoc(files, vs, FileView, view);
      MapsToSnoc(files, names, StemName, name);
      views := views[name := view];
      names := names + [name];
      vs := vs + [view];
      n := n + 1;
    }
    TableNamesOf(files, names);
    Registered(files, names, vs, views);
  }

  /** What the finished loop leaves under each name: the view of the last file
      with that name. */
  lemma Registered(files: seq<File>, names: seq<string>, vs: seq<seq<seq<Value>>>,
                   views: map<string, seq<seq<Value>>>)
    requires |names| == |vs| == |files|
    requires MapsTo(files, vs, FileView, |files|)
    requires Built(names, vs, |files|, views)
    ensures forall x :: x in views <==> x in names
    ensures forall j :: 0 <= j < |files| && LastWithKey(names, |files|, j) ==>
              names[j] in views && views[names[j]] == ViewRows(files[j].table)
  {
    BuiltAll(names, vs, views);
    forall j | 0 <= j < |files| && LastWithKey(names, |files|, j)
      ensures names[j] in views && views[names[j]] == ViewRows(files[j].table)
    {
      assert views[names[j]] == vs[j] == FileView(files[j]);
    }
  }

  /** The table name of a file. */
  function StemName(f: File): string {
    TableName(f.stem)
  }

  /** The view registered for a file. */
  function FileView(f: File): seq<seq<Value>> {
    ViewRows(f.table)
  }

  /** The names the loop collected are `TableNames(files)`. */
  lemma TableNamesOf(files: seq<File>, names: seq<string>)
    requires |names| == |files| && MapsTo(files, names, StemName, |files|)
    ensures names == TableNames(files)
  {
    forall i | 0 <= i < |files| ensures names[i] == TableNames(files)[i] {
      assert names[i] == StemName(files[i]);
      TableNamesAt(files, i);
    }
  }


  /** Under a name several files share, the view of the last of them survives. */
  lemma SurvivingView(files: seq<File>, names: seq<string>, views: map<string, seq<seq<Value>>>, i: nat)
    requires |names| == |files| && i < |files|
    requires forall j :: 0 <= j < |files| && LastWithKey(names, |files|, j) ==>
               names[j] in views && views[names[j]] == ViewRows(files[j].table)
    ensures names[i] in views && views[names[i]] == ViewRows(files[LastOf(names, |names|, i)].table)
  {
    var j := LastOf(names, |names|, i);
    assert names[j] == names[i];
    assert LastWithKey(names, |names|, j);
  }

  // ----- UNION ALL, normalise, unique, sort ----------------------------------

  /** `SELECT * FROM t1 UNION ALL SELECT * FROM t2 ...` over `table_names`. */
  function UnionAll(names: seq<string>, views: map<string, seq<seq<Value>>>): seq<seq<Value>>
    requires forall i :: 0 <= i < |names| ==> names[i] in views
  {
    if names == [] then [] else views[names[0]] + UnionAll(names[1..], views)
  }

  /** For each listed name, in order, the rows of the view registered under it last. */
  function Surviving(files: seq<File>): (parts: seq<seq<seq<Value>>>)
    ensures |parts| == |files|
  {
    var names := TableNames(files);
    seq(|files|, i requires 0 <= i < |files| => ViewRows(files[LastOf(names, |names|, i)].table))
  }

  /** The rows entering the merge: what `UNION ALL` over `table_names` returns. */
  function MergeInput(files: seq<File>): seq<seq<Value>> {
    Flatten(Surviving(files))
  }

  function Flatten(parts: seq<seq<seq<Value>>>): seq<seq<Value>> {
    if parts == [] then [] else parts[0] + Flatten(parts[1..])
  }

  lemma {:induction false} UnionAllFlatten(names: seq<string>, views: map<string, seq<seq<Value>>>,
                                            parts: seq<seq<seq<Value>>>)
    requires forall i :: 0 <= i < |names| ==> names[i] in views
    requires |parts| == |names| && forall i :: 0 <= i < |names| ==> parts[i] == views[names[i]]
    ensures UnionAll(names, views) == Flatten(parts)
    decreases |names|
  {
    if names != [] {
      UnionAllFlatten(names[1..], views, parts[1..]);
    }
  }

  lemma {:induction false} ViewRowsOfWidth(sel: seq<Sel>, cols: seq<string>, rows: seq<seq<Value>>)
    ensures Width(ViewRowsOf(sel, cols, rows), |sel|)
    decreases |rows|
  {
    if rows != [] {
      ViewRowsOfWidth(sel, cols, rows[1..]);
    }
  }

  lemma {:induction false} FlattenWidth(parts: seq<seq<seq<Value>>>, w: nat)
    requires forall i :: 0 <= i < |parts| ==> Width(parts[i], w)
    ensures Width(Flatten(parts), w)
    decreases |parts|
  {
    if parts != [] {
      FlattenWidth(parts[1..], w);
    }
  }

  /** Every row entering the merge has the seven columns of `column_order`. */
  lemma MergeInputWidth(files: seq<File>)
    ensures Width(MergeInput(files), |ColumnOrder|)
  {
    var parts := Surviving(files);
    forall i | 0 <= i < |parts| ensures Width(parts[i], |ColumnOrder|) {
      var t := files[LastOf(TableNames(files), |files|, i)].table;
      ViewRowsOfWidth(SelectList(ColumnOrder, t.columns), t.columns, t.rows);
    }
    FlattenWidth(parts, |ColumnOrder|);
  }

  /** The union the loop registers is the merge input: a name listed twice
      contributes the view of the last file with that name, twice. */
  lemma UnionIsMergeInput(files: seq<File>, names: seq<string>, views: map<string, seq<seq<Value>>>)
    requires names == TableNames(files)
    requires forall x :: x in views <==> x in names
    requires forall j :: 0 <= j < |files| && LastWithKey(names, |files|, j) ==>
               names[j] in views && views[names[j]] == ViewRows(files[j].table)
    ensures forall i :: 0 <= i < |names| ==> names[i] in views
    ensures UnionAll(names, views) == MergeInput(files)
  {
    var parts := Surviving(files);
    forall i | 0 <= i < |names| ensures names[i] in views && parts[i] == views[names[i]] {
      SurvivingView(files, names, views, i);
    }
    UnionAllFlatten(names, views, parts);
  }

  /** With no two files sharing a table name, the union is every file's view in
      order. */
  lemma DistinctNamesMergeInput(files: seq<File>)
    requires NoDups(TableNames(files))
    ensures MergeInput(files) == Flatten(AllViews(files))
  {
    var names := TableNames(files);
    var parts := Surviving(files);
    forall i | 0 <= i < |files| ensures parts[i] == AllViews(files)[i] {
      var j := LastOf(names, |names|, i);
      assert j == i;
      AllViewsAt(files, i);
    }
    assert parts == AllViews(files);
  }

  /** Two files whose stems differ only in case or in `-` against `_` share a
      table name: the second file's rows enter the union twice and the first
      file's rows not at all. */
  lemma CollidingStems(f: File, g: File)
    requires TableName(f.stem) == TableName(g.stem)
    ensures MergeInput([f, g]) == ViewRows(g.table) + ViewRows(g.table)
  {
    var files := [f, g];
    var names := TableNames(files);
    TableNamesAt(files, 0);
    TableNamesAt(files, 1);
    assert LastOf(names, 2, 0) == 1;
    assert LastOf(names, 2, 1) == 1;
    var parts := Surviving(files);
    assert parts[0] == parts[1] == ViewRows(g.table);
    assert parts[1..][1..] == [];
    assert Flatten(parts[1..]) == parts[1] + Flatten(parts[1..][1..]);
  }

  // ----- the task ------------------------------------------------------------

  /** `merge_datasets_task` on the prepared files in the order `glob` lists them:
      no file at all leaves an empty `UNION ALL` query, which DuckDB rejects;
      otherwise the merged table has the seven columns of `column_order` and one
      of the row lists `unique()` and `sort('name')` may produce. */
  method MergeDatasets(files: seq<File>) returns (r: Result<Table>)
    ensures r.Err? <==> files == []
    ensures r.Ok? ==> r.value.columns == ColumnOrder && WellFormed(r.value)
    ensures r.Ok? ==> IsUniqueSortedOf(MergeInput(files), r.value.rows, NameColumn)
  {
    if files == [] {
      return Err("empty union query");
    }
    var names, views := RegisterViews(files);
    UnionIsMergeInput(files, names, views);
    var u := UnionAll(names, views);
    var rows := Finish(u, NameColumn);
    FinishIsUniqueSorted(u, NameColumn);
    MergeInputWidth(files);
    UniqueSortedWidth(u, rows, NameColumn, |ColumnOrder|);
    CanonicalNoDups();
    r := Ok(Table(ColumnOrder, rows));
  }
}
