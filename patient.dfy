/** `prepare_patient_reports_task` from the point where the report table has the
    seven canonical columns (after the renames and `add_col_to_df`): every row gets
    a `symptoms` cell extracted from its `description`, then the names are
    normalised, exact duplicates dropped, the rows sorted by name and the names
    normalised once more. The symptom extractor (a token-classification model) is
    a parameter. */
module Patient {
  import opened Cells
  import opened Text
  import opened Seqs
  import opened Frame
  import opened Unique

  /** The `symptoms` cell written for a report with description `desc`: the
      extracted symptoms joined by ", " when the description is a string that is
      not blank once stripped, and "" otherwise (a null included). */
  function SymptomsFor(desc: Value, extract: string -> seq<string>): string {
    if desc.Str? && PyStrip(desc.s) != "" then Join(extract(desc.s), ", ") else ""
  }

  /** `{**row, 'symptoms': symptoms_str}` on a positional row whose `symptoms` cell
      is at `si` and whose `description` cell is at `di`. */
  function FilledRow(row: seq<Value>, si: nat, di: nat, extract: string -> seq<string>): (r: seq<Value>)
    ensures |r| == |row|
  {
    if si < |row| && di < |row| then row[si := Str(SymptomsFor(row[di], extract))] else row
  }

  function FilledRows(rows: seq<seq<Value>>, si: nat, di: nat, extract: string -> seq<string>): (rs: seq<seq<Value>>)
    ensures |rs| == |rows|
  {
    if rows == [] then [] else [FilledRow(rows[0], si, di, extract)] + FilledRows(rows[1..], si, di, extract)
  }

  lemma {:induction false} FilledRowsAt(rows: seq<seq<Value>>, si: nat, di: nat, extract: string -> seq<string>, i: nat)
    requires i < |rows|
    ensures FilledRows(rows, si, di, extract)[i] == FilledRow(rows[i], si, di, extract)
    decreases i
  {
    if i > 0 {
      FilledRowsAt(rows[1..], si, di, extract, i - 1);
    }
  }

  /** The rows of `updated_rows` for table `t`. */
  function Filled(t: Table, extract: string -> seq<string>): seq<seq<Value>> {
    FilledRows(t.rows, Find(t.columns, "symptoms"), Find(t.columns, "description"), extract)
  }

  /** Every cell of a filled row is the input's, except `symptoms`, which holds
      what the extractor found in that row's own description. */
  lemma FilledSpec(t: Table, extract: string -> seq<string>, i: nat, k: nat)
    requires WellFormed(t) && "symptoms" in t.columns && "description" in t.columns
    requires i < |t.rows| && k < |t.columns|
    ensures |Filled(t, extract)[i]| == |t.columns|
    ensures Filled(t, extract)[i][k] ==
      if t.columns[k] == "symptoms" then Str(SymptomsFor(t.rows[i][Find(t.columns, "description")], extract))
      else t.rows[i][k]
  {
    var si := Find(t.columns, "symptoms");
    var di := Find(t.columns, "description");
    FindPresent(t.columns, "symptoms");
    FindPresent(t.columns, "description");
    FilledRowsAt(t.rows, si, di, extract, i);
    assert t.columns[si] == "symptoms";
    assert t.columns[k] == "symptoms" ==> k == si;
  }

  lemma FilledWidth(t: Table, extract: string -> seq<string>)
    requires WellFormed(t) && "symptoms" in t.columns && "description" in t.columns
    ensures Width(Filled(t, extract), |t.columns|)
  {
    forall x | x in Filled(t, extract) ensures |x| == |t.columns| {
      var i :| 0 <= i < |t.rows| && Filled(t, extract)[i] == x;
      FilledSpec(t, extract, i, 0);
    }
  }

  /** The report loop: one updated row per input row, in order. */
  method FillSymptoms(t: Table, extract: string -> seq<string>) returns (rows: seq<seq<Value>>)
    requires WellFormed(t) && "symptoms" in t.columns && "description" in t.columns
    ensures rows == Filled(t, extract)
  {
    var si := Find(t.columns, "symptoms");
    var di := Find(t.columns, "description");
    rows := [];
    var n := 0;
    while n < |t.rows|
      invariant 0 <= n <= |t.rows| && |rows| == n
      invariant forall i :: 0 <= i < n ==> rows[i] == FilledRow(t.rows[i], si, di, extract)
    {
      var row := t.rows[n];
      var description := row[di];
      var symptoms: string;
      if description.Str? && PyStrip(description.s) != "" {
        symptoms := Join(extract(description.s), ", ");
      } else {
        symptoms := "";
      }
      rows := rows + [row[si := Str(symptoms)]];
      n := n + 1;
    }
    forall i | 0 <= i < |t.rows| ensures rows[i] == Filled(t, extract)[i] {
      FilledRowsAt(t.rows, si, di, extract, i);
    }
  }

  /** Splitting a filled `symptoms` cell on ", " gives back what the extractor
      returned, provided it returned at least one symptom and none holds ", ". */
  lemma SymptomsRoundTrip(desc: Value, extract: string -> seq<string>)
    requires desc.Str? && PyStrip(desc.s) != ""
    requires |extract(desc.s)| >= 1
    requires forall k :: 0 <= k < |extract(desc.s)| ==> !HasCommaSpace(extract(desc.s)[k])
    ensures SplitCommaSpace(SymptomsFor(desc, extract)) == extract(desc.s)
  {
    SplitJoinCommaSpace(extract(desc.s));
  }

  /** A blank or missing description leaves the cell empty whatever the extractor
      would say, and so does a description the extractor finds nothing in. */
  lemma SymptomsEmpty(desc: Value, extract: string -> seq<string>)
    ensures (desc.Null? || PyStrip(desc.s) == "") ==> SymptomsFor(desc, extract) == ""
    ensures desc.Str? && extract(desc.s) == [] ==> SymptomsFor(desc, extract) == ""
  {
  }

  /** The task from the canonical-column table on: the rows are one of the results
      polars may give for normalising, deduplicating and sorting the filled rows by
      name, and every row has all the columns; the second normalisation changes
      nothing. The columns are kept when there is a row; `pl.DataFrame([])` built
      from no rows has no columns at all. */
  method PreparePatientReports(t: Table, extract: string -> seq<string>) returns (r: Table)
    requires WellFormed(t) && "symptoms" in t.columns && "description" in t.columns
    ensures |t.rows| == 0 ==> r.columns == [] && r.rows == []
    ensures |t.rows| > 0 ==> r.columns == t.columns
    ensures WellFormed(r)
    ensures IsUniqueSortedOf(Filled(t, extract), r.rows, Find(t.columns, "name"))
  {
    var rows := FillSymptoms(t, extract);
    var ni := Find(t.columns, "name");
    var sorted := Finish(rows, ni);
    FinishIsUniqueSorted(rows, ni);
    RenormalizeUnchanged(rows, sorted, ni);
    FilledWidth(t, extract);
    UniqueSortedWidth(rows, sorted, ni, |t.columns|);
    if |rows| == 0 {
      r := Table([], NormalizeRows(sorted, ni));
    } else {
      r := Table(t.columns, NormalizeRows(sorted, ni));
    }
  }
}
