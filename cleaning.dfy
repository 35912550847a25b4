/** The cleaning step of the pipeline (`clean_datasets_task`): columns that hold
    nothing but nulls are dropped, then every row with a null, then duplicate rows;
    finally the column names are normalised the Python way. */
module Cleaning {
  import opened Cells
  import opened Text
  import opened Seqs
  import opened Frame

  /** polars `df[c].null_count()` for the column at position `j`. */
  function NullCount(rows: seq<seq<Value>>, j: nat): (n: nat)
    requires forall i :: 0 <= i < |rows| ==> j < |rows[i]|
    ensures n <= |rows|
  {
    if rows == [] then 0 else (if rows[0][j] == Null then 1 else 0) + NullCount(rows[1..], j)
  }

  /** Fewer nulls than rows exactly when some cell of the column is not null. */
  lemma {:induction false} NullCountBelowHeight(rows: seq<seq<Value>>, j: nat)
    requires forall i :: 0 <= i < |rows| ==> j < |rows[i]|
    ensures NullCount(rows, j) < |rows| <==> exists i :: 0 <= i < |rows| && rows[i][j] != Null
    decreases |rows|
  {
    if rows != [] {
      NullCountBelowHeight(rows[1..], j);
      if exists i :: 0 <= i < |rows[1..]| && rows[1..][i][j] != Null {
        var i :| 0 <= i < |rows[1..]| && rows[1..][i][j] != Null;
        assert rows[i + 1][j] != Null;
      }
      if exists i :: 0 <= i < |rows| && rows[i][j] != Null {
        var i :| 0 <= i < |rows| && rows[i][j] != Null;
        if i > 0 {
          assert rows[1..][i - 1][j] != Null;
        }
      }
    }
  }

  /** Positions `j..` of the columns that `null_count() < height` keeps, in order. */
  function KeptFrom(t: Table, j: nat): (idx: seq<nat>)
    requires WellFormed(t) && j <= |t.columns|
    ensures forall k :: 0 <= k < |idx| ==> j <= idx[k] < |t.columns|
    ensures forall k, l :: 0 <= k < l < |idx| ==> idx[k] < idx[l]
    ensures forall c :: j <= c < |t.columns| ==> (c in idx <==> NullCount(t.rows, c) < |t.rows|)
    decreases |t.columns| - j
  {
    if j == |t.columns| then []
    else (if NullCount(t.rows, j) < |t.rows| then [j] else []) + KeptFrom(t, j + 1)
  }

  lemma {:induction false} KeptFromNoRows(t: Table, j: nat)
    requires WellFormed(t) && j <= |t.columns| && |t.rows| == 0
    ensures KeptFrom(t, j) == []
    decreases |t.columns| - j
  {
    if j < |t.columns| {
      KeptFromNoRows(t, j + 1);
    }
  }

  function KeptColumns(t: Table): seq<nat>
    requires WellFormed(t)
  {
    KeptFrom(t, 0)
  }

  /** The cells of `row` at the positions `idx`, in that order. */
  function Project(row: seq<Value>, idx: seq<nat>): (r: seq<Value>)
    requires forall k :: 0 <= k < |idx| ==> idx[k] < |row|
    ensures |r| == |idx| && forall k :: 0 <= k < |idx| ==> r[k] == row[idx[k]]
  {
    seq(|idx|, k requires 0 <= k < |idx| => row[idx[k]])
  }

  /** `df.select(...)` of the columns at positions `idx`. */
  function SelectAt(t: Table, idx: seq<nat>): (r: Table)
    requires WellFormed(t)
    requires forall k :: 0 <= k < |idx| ==> idx[k] < |t.columns|
    ensures |r.columns| == |idx| && forall k :: 0 <= k < |idx| ==> r.columns[k] == t.columns[idx[k]]
    ensures |r.rows| == |t.rows| && forall i :: 0 <= i < |t.rows| ==> r.rows[i] == Project(t.rows[i], idx)
  {
    Table(seq(|idx|, k requires 0 <= k < |idx| => t.columns[idx[k]]),
          seq(|t.rows|, i requires 0 <= i < |t.rows| => Project(t.rows[i], idx)))
  }

  /** `df.drop_nulls()` on the rows: those without a null cell, in order. */
  function DropNulls(rows: seq<seq<Value>>): (r: seq<seq<Value>>)
    ensures forall x :: x in r <==> x in rows && Null !in x
    ensures |r| <= |rows|
  {
    if rows == [] then []
    else (if Null in rows[0] then [] else [rows[0]]) + DropNulls(rows[1..])
  }

  /** The Python renaming `col.strip().lower().replace(' ', '_')` of every column;
      polars refuses a renaming that makes two columns share a name. */
  function RenameColumns(t: Table): (r: Result<Table>)
    ensures r.Ok? <==> NoDups(seq(|t.columns|, k requires 0 <= k < |t.columns| => PyNormalizeName(t.columns[k])))
    ensures r.Ok? ==> r.value.rows == t.rows && |r.value.columns| == |t.columns|
    ensures r.Ok? ==> forall k :: 0 <= k < |t.columns| ==> r.value.columns[k] == PyNormalizeName(t.columns[k])
  {
    var names := seq(|t.columns|, k requires 0 <= k < |t.columns| => PyNormalizeName(t.columns[k]));
    if NoDups(names) then Ok(Table(names, t.rows)) else Err("duplicate column name after renaming")
  }

  /** One cleaned table for `t`. polars' `unique()` fixes no row order; this keeps
      first occurrences, and every property stated below is independent of the order. */
  function Clean(t: Table): Result<Table>
    requires WellFormed(t)
  {
    var s := SelectAt(t, KeptColumns(t));
    RenameColumns(Table(s.columns, Distinct(DropNulls(s.rows))))
  }

  /** An input row restricted to the kept columns. */
  predicate FromInput(t: Table, x: seq<Value>)
    requires WellFormed(t)
  {
    exists i :: 0 <= i < |t.rows| && x == Project(t.rows[i], KeptColumns(t))
  }

  /** What cleaning guarantees: a well-formed table of the renamed kept columns,
      without null cells or duplicate rows, whose rows are exactly the null-free
      restrictions of the input rows. */
  lemma CleanSpec(t: Table)
    requires WellFormed(t) && Clean(t).Ok?
    ensures var r := Clean(t).value;
      && WellFormed(r)
      && |r.columns| == |KeptColumns(t)|
      && (forall k :: 0 <= k < |r.columns| ==> r.columns[k] == PyNormalizeName(t.columns[KeptColumns(t)[k]]))
      && (forall i :: 0 <= i < |r.rows| ==> Null !in r.rows[i])
      && NoDups(r.rows)
      && (forall x :: x in r.rows <==> FromInput(t, x) && Null !in x)
  {
    var idx := KeptColumns(t);
    var s := SelectAt(t, idx);
    var d := DropNulls(s.rows);
    var r := Clean(t).value;
    assert r.rows == Distinct(d);
    DistinctMembers(d);
    SelectedRows(t);
    SelectedColumnsNoDups(t);
    forall i | 0 <= i < |r.rows| ensures |r.rows[i]| == |r.columns| && Null !in r.rows[i] {
      assert r.rows[i] in d;
    }
  }

  lemma SelectedRows(t: Table)
    requires WellFormed(t)
    ensures forall x :: x in SelectAt(t, KeptColumns(t)).rows <==> FromInput(t, x)
  {
    var idx := KeptColumns(t);
    var s := SelectAt(t, idx);
    forall x ensures x in s.rows <==> FromInput(t, x) {
      if x in s.rows {
        var i :| 0 <= i < |s.rows| && s.rows[i] == x;
        assert x == Project(t.rows[i], idx);
      }
      if FromInput(t, x) {
        var i :| 0 <= i < |t.rows| && x == Project(t.rows[i], idx);
        assert s.rows[i] == x;
      }
    }
  }

  lemma SelectedColumnsNoDups(t: Table)
    requires WellFormed(t)
    ensures NoDups(SelectAt(t, KeptColumns(t)).columns)
  {
    SelectAtWellFormed(t, KeptColumns(t));
  }

  /** A column survives exactly when at least one of its cells is not null;
      a table without rows therefore loses every column. */
  lemma KeptColumnsSpec(t: Table)
    requires WellFormed(t)
    ensures forall j :: 0 <= j < |t.columns| ==>
      (j in KeptColumns(t) <==> exists i :: 0 <= i < |t.rows| && t.rows[i][j] != Null)
    ensures |t.rows| == 0 ==> KeptColumns(t) == []
  {
    forall j | 0 <= j < |t.columns| {
      NullCountBelowHeight(t.rows, j);
    }
    if |t.rows| == 0 {
      KeptFromNoRows(t, 0);
    }
  }

  /** Cleaned column names have no space, no upper-case ASCII letter and no
      surrounding whitespace. */
  lemma CleanColumnNames(t: Table)
    requires WellFormed(t) && Clean(t).Ok?
    ensures forall k :: 0 <= k < |Clean(t).value.columns| ==>
      var c := Clean(t).value.columns[k]; ' ' !in c && IsLower(c) && Trimmed(c, IsPySpace)
  {
    CleanSpec(t);
    forall k | 0 <= k < |Clean(t).value.columns|
      ensures var c := Clean(t).value.columns[k]; ' ' !in c && IsLower(c) && Trimmed(c, IsPySpace)
    {
      NormalizeShape(t.columns[KeptColumns(t)[k]], IsPySpace);
    }
  }

  /** Two distinct kept columns whose names normalise alike make polars raise. */
  lemma CleanRejectsCollision(t: Table)
    requires WellFormed(t)
    requires exists a, b :: (0 <= a < b < |KeptColumns(t)| &&
      PyNormalizeName(t.columns[KeptColumns(t)[a]]) == PyNormalizeName(t.columns[KeptColumns(t)[b]]))
    ensures Clean(t).Err?
  {
    var a, b :| 0 <= a < b < |KeptColumns(t)| &&
      PyNormalizeName(t.columns[KeptColumns(t)[a]]) == PyNormalizeName(t.columns[KeptColumns(t)[b]]);
    var s := SelectAt(t, KeptColumns(t));
    var names := seq(|s.columns|, k requires 0 <= k < |s.columns| => PyNormalizeName(s.columns[k]));
    assert names[a] == names[b];
  }

  /** Positions listed in increasing order. */
  predicate Increasing(idx: seq<nat>) {
    forall a, b :: 0 <= a < b < |idx| ==> idx[a] < idx[b]
  }

  /** Selecting columns in their order keeps the table well formed. */
  lemma SelectAtWellFormed(t: Table, idx: seq<nat>)
    requires WellFormed(t)
    requires forall k :: 0 <= k < |idx| ==> idx[k] < |t.columns|
    requires Increasing(idx)
    ensures WellFormed(SelectAt(t, idx))
  {
    var s := SelectAt(t, idx);
    forall a, b | 0 <= a < b < |idx| ensures s.columns[a] != s.columns[b] {
      assert idx[a] < idx[b];
    }
  }

  /** After a successful rename every old column is found under its new name at its
      old position, so its cells are where they were; the table stays well formed. */
  lemma RenameFind(t: Table)
    requires WellFormed(t) && RenameColumns(t).Ok?
    ensures WellFormed(RenameColumns(t).value)
    ensures forall c :: c in t.columns ==>
      Find(RenameColumns(t).value.columns, PyNormalizeName(c)) == Find(t.columns, c)
  {
    var names := RenameColumns(t).value.columns;
    forall c | c in t.columns ensures Find(names, PyNormalizeName(c)) == Find(t.columns, c) {
      FindPresent(t.columns, c);
      var k := Find(t.columns, c);
      assert names[k] == PyNormalizeName(c);
      var f := Find(names, PyNormalizeName(c));
      assert f <= k;
      assert names[f] == names[k];
    }
  }
}
