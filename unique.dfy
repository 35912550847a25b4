/** The tail shared by the patient-report preparation and the merge: the name
    column is normalised with polars' `strip_chars().to_lowercase().replace_all(' ', '_')`,
    exact duplicate rows are dropped with `unique()` and the rows are sorted with
    `sort('name')`. polars fixes neither the order `unique()` leaves nor the order
    among rows with equal names, so the result is specified by `IsUniqueSortedOf`
    and `Finish` is one admissible result. Rows are positional; `j` is the place
    of the name column. */
module Unique {
  import opened Cells
  import opened Text
  import opened Seqs
  import opened Frame

  /** The sort key: the cell of column `j` (a null for a row too short to have one). */
  function Key(j: nat): seq<Value> -> Value {
    row => if j < |row| then row[j] else Null
  }

  /** One row with its name cell normalised; the other cells untouched. */
  function NormalizeRowAt(row: seq<Value>, j: nat): (r: seq<Value>)
    ensures |r| == |row|
    ensures forall k :: 0 <= k < |row| && k != j ==> r[k] == row[k]
    ensures j < |row| ==> r[j] == NormalizeCell(row[j])
  {
    if j < |row| then row[j := NormalizeCell(row[j])] else row
  }

  function NormalizeRows(rows: seq<seq<Value>>, j: nat): (rs: seq<seq<Value>>)
    ensures |rs| == |rows|
    ensures forall i :: 0 <= i < |rows| ==> rs[i] == NormalizeRowAt(rows[i], j)
  {
    if rows == [] then [] else [NormalizeRowAt(rows[0], j)] + NormalizeRows(rows[1..], j)
  }

  /** What normalising `u`, then `unique()`, then `sort('name')` may return: each
      normalised row exactly once, ordered by name; among equal names any order. */
  ghost predicate IsUniqueSortedOf(u: seq<seq<Value>>, out: seq<seq<Value>>, j: nat) {
    && NoDups(out)
    && SortedBy(out, Key(j))
    && (forall x :: x in out <==> x in NormalizeRows(u, j))
  }

  /** One admissible result: first occurrences kept, then an insertion sort by name. */
  function Finish(u: seq<seq<Value>>, j: nat): seq<seq<Value>> {
    Sort(Distinct(NormalizeRows(u, j)), Key(j))
  }

  lemma FinishIsUniqueSorted(u: seq<seq<Value>>, j: nat)
    ensures IsUniqueSortedOf(u, Finish(u, j), j)
  {
    var n := NormalizeRows(u, j);
    var d := Distinct(n);
    DistinctMembers(n);
    SortNoDups(d, Key(j));
    var s := Sort(d, Key(j));
    forall x ensures x in s <==> x in n {
      assert x in s <==> x in multiset(s);
      assert x in d <==> x in multiset(d);
    }
  }

  /** Two admissible results hold the same rows, and list the same names in the
      same order: only rows with equal names may come in either order. */
  lemma UniqueSortedDetermined(u: seq<seq<Value>>, a: seq<seq<Value>>, b: seq<seq<Value>>, j: nat)
    requires IsUniqueSortedOf(u, a, j) && IsUniqueSortedOf(u, b, j)
    ensures multiset(a) == multiset(b)
    ensures |a| == |b|
    ensures Keys(a, Key(j)) == Keys(b, Key(j))
  {
    SortedDistinctDetermined(a, b, Key(j));
    assert |a| == |multiset(a)| == |multiset(b)| == |b|;
  }

  /** A result row is an input row with its name normalised, and every input row
      appears so; a resulting name is in normal form: no space, no upper-case ASCII
      letter, no surrounding whitespace, and a second normalisation changes nothing. */
  lemma UniqueSortedRows(u: seq<seq<Value>>, out: seq<seq<Value>>, j: nat)
    requires IsUniqueSortedOf(u, out, j)
    ensures forall x :: x in out <==> exists i :: 0 <= i < |u| && x == NormalizeRowAt(u[i], j)
    ensures forall x :: x in out && j < |x| ==> NormalizeCell(x[j]) == x[j]
    ensures forall x: seq<Value> :: x in out && j < |x| && x[j].Str? ==>
              ' ' !in x[j].s && IsLower(x[j].s) && Trimmed(x[j].s, IsRustSpace)
  {
    forall x: seq<Value> | x in out && j < |x| ensures NormalizeCell(x[j]) == x[j] &&
      (x[j].Str? ==> ' ' !in x[j].s && IsLower(x[j].s) && Trimmed(x[j].s, IsRustSpace))
    {
      var i :| 0 <= i < |u| && x == NormalizeRows(u, j)[i];
      var y := u[i];
      NormalizeCellIdempotent(y[j]);
      if y[j].Str? {
        NormalizeShape(y[j].s, IsRustSpace);
      }
    }
  }

  /** Normalising the names of a result a second time gives the result back. */
  lemma RenormalizeUnchanged(u: seq<seq<Value>>, out: seq<seq<Value>>, j: nat)
    requires IsUniqueSortedOf(u, out, j)
    ensures NormalizeRows(out, j) == out
  {
    UniqueSortedRows(u, out, j);
    forall i | 0 <= i < |out| ensures NormalizeRows(out, j)[i] == out[i] {
      assert out[i] in out;
      if j < |out[i]| {
        assert out[i][j := NormalizeCell(out[i][j])] == out[i];
      }
    }
  }

  /** The rows of a list of rows all have `w` cells. */
  ghost predicate Width(rows: seq<seq<Value>>, w: nat) {
    forall x :: x in rows ==> |x| == w
  }

  /** Normalising, deduplicating and sorting keep the width of the rows. */
  lemma UniqueSortedWidth(u: seq<seq<Value>>, out: seq<seq<Value>>, j: nat, w: nat)
    requires IsUniqueSortedOf(u, out, j) && Width(u, w)
    ensures forall i :: 0 <= i < |out| ==> |out[i]| == w
  {
    forall i | 0 <= i < |out| ensures |out[i]| == w {
      assert out[i] in NormalizeRows(u, j);
      var k :| 0 <= k < |u| && out[i] == NormalizeRows(u, j)[k];
      assert u[k] in u;
    }
  }

  /** polars' `with_columns` on the name column is the row-wise normalisation of the
      name cell that the merge and report tasks are specified with. */
  lemma MapNameIsNormalizeRows(t: Table)
    requires WellFormed(t)
    ensures MapColumn(t, "name", NormalizeCell).rows == NormalizeRows(t.rows, Find(t.columns, "name"))
  {
    var j := Find(t.columns, "name");
    var r := MapColumn(t, "name", NormalizeCell);
    var n := NormalizeRows(t.rows, j);
    forall i | 0 <= i < |t.rows| ensures r.rows[i] == n[i] {
      forall k | 0 <= k < |t.columns| ensures r.rows[i][k] == n[i][k] {
        if t.columns[k] == "name" {
          assert j <= k;
        }
      }
    }
  }
}
