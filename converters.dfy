/** The two converters from the binary symptom matrix to one row per disease
    record, and the token count of the converter's summary. */
module Converters {
  import opened Text
  import opened Fields
  import opened Frame
  import opened Binary

  /** The header the simple converter always writes first. */
  const OutputHeader: seq<string> := ["disease", "symptoms", "symptom_count"]

  // ----- simple_binary_converter.py ----------------------------------------------

  /** What one input row contributes to the output file: nothing when its field count
      differs from the header's or when no symptom is active, else the disease,
      the active names joined by ", " and their number as `csv.writer` writes it. */
  function RowOutput(header: seq<string>, row: seq<string>): Option<seq<string>>
    requires |header| >= 1
  {
    if |row| != |header| then None
    else
      var active := ActiveNames(header[1..], row[1..], IsOneText);
      if active == [] then None else Some([row[0], Join(active, ", "), DecString(|active|)])
  }

  /** The data rows written for `rows`, in input order. */
  function Written(header: seq<string>, rows: seq<seq<string>>): (w: seq<seq<string>>)
    requires |header| >= 1
    decreases |rows|
  {
    if rows == [] then [] else
    var o := RowOutput(header, rows[|rows| - 1]);
    Written(header, rows[..|rows| - 1]) + (if o.Some? then [o.value] else [])
  }

  /** The number of rows whose field count is the header's. */
  function WellFormed(header: seq<string>, rows: seq<seq<string>>): nat
    decreases |rows|
  {
    if rows == [] then 0 else
    WellFormed(header, rows[..|rows| - 1]) + (if |rows[|rows| - 1]| == |header| then 1 else 0)
  }

  datatype Converted = Converted(written: seq<seq<string>>, rowCount: nat)

  /** `convert_binary_to_symptoms_simple` on the lines `csv.reader` yields: the first
      line is the header; no line at all stops `next(reader)`, and an empty header
      fails at `header[0]`. */
  method ConvertSimple(lines: seq<seq<string>>) returns (result: Result<Converted>)
    ensures lines == [] ==> result == Err("StopIteration")
    ensures lines != [] && lines[0] == [] ==> result == Err("IndexError")
    ensures lines != [] && lines[0] != [] ==>
      result == Ok(Converted([OutputHeader] + Written(lines[0], lines[1..]),
                             WellFormed(lines[0], lines[1..])))
  {
    if lines == [] {
      return Err("StopIteration");
    }
    var header := lines[0];
    if header == [] {
      return Err("IndexError");
    }
    var rows := lines[1..];
    var written := [OutputHeader];
    var rowCount := 0;
    var j := 0;
    while j < |rows|
      invariant 0 <= j <= |rows|
      invariant written == [OutputHeader] + Written(header, rows[..j])
      invariant rowCount == WellFormed(header, rows[..j])
    {
      var row := rows[j];
      WrittenSnoc(header, rows, j);
      if |row| == |header| {
        var out := ConvertRow(header, row);
        if out.Some? {
          written := written + [out.value];
        }
        rowCount := rowCount + 1;
      }
      j := j + 1;
    }
    assert rows[..j] == rows;
    return Ok(Converted(written, rowCount));
  }

  /** The body of the row loop for a row with as many fields as the header: the
      active names collected, and a line written when there is one. */
  method ConvertRow(header: seq<string>, row: seq<string>) returns (out: Option<seq<string>>)
    requires |header| >= 1 && |row| == |header|
    ensures out == RowOutput(header, row)
  {
    var activeSymptoms := ActiveSymptomsText(header[1..], row[1..]);
    if activeSymptoms != [] {
      var symptomsStr := Join(activeSymptoms, ", ");
      out := Some([row[0], symptomsStr, DecString(|activeSymptoms|)]);
    } else {
      out := None;
    }
  }

  /** One more row extends the output and the count by what that row contributes. */
  lemma WrittenSnoc(header: seq<string>, rows: seq<seq<string>>, j: nat)
    requires |header| >= 1 && j < |rows|
    ensures var o := RowOutput(header, rows[j]);
      Written(header, rows[..j + 1]) == Written(header, rows[..j]) + (if o.Some? then [o.value] else [])
    ensures WellFormed(header, rows[..j + 1]) ==
      WellFormed(header, rows[..j]) + (if |rows[j]| == |header| then 1 else 0)
  {
    assert rows[..j + 1][..j] == rows[..j];
  }

  /** Every written row stands for a different well-formed row, and no row counts
      beyond the input. */
  lemma {:induction false} WrittenBounds(header: seq<string>, rows: seq<seq<string>>)
    requires |header| >= 1
    ensures |Written(header, rows)| <= WellFormed(header, rows) <= |rows|
    decreases |rows|
  {
    if rows != [] {
      WrittenBounds(header, rows[..|rows| - 1]);
    }
  }

  /** Reading a file in two parts gives the two parts' rows one after the other. */
  lemma {:induction false} WrittenAppend(header: seq<string>, a: seq<seq<string>>, b: seq<seq<string>>)
    requires |header| >= 1
    ensures Written(header, a + b) == Written(header, a) + Written(header, b)
    ensures WellFormed(header, a + b) == WellFormed(header, a) + WellFormed(header, b)
    decreases |b|
  {
    if b == [] {
      assert a + b == a;
    } else {
      var b' := b[..|b| - 1];
      var last := b[|b| - 1];
      assert (a + b)[..|a + b| - 1] == a + b';
      assert (a + b)[|a + b| - 1] == last;
      WrittenAppend(header, a, b');
      var o := RowOutput(header, last);
      var extra := if o.Some? then [o.value] else [];
      assert Written(header, a + b) == Written(header, a + b') + extra;
      assert Written(header, b) == Written(header, b') + extra;
    }
  }

  /** Some value of the row, paired with a name, makes `on` true. */
  ghost predicate AnyActive<T>(names: seq<string>, values: seq<T>, on: T -> bool) {
    exists i :: 0 <= i < |names| && 0 <= i < |values| && on(values[i])
  }

  /** The active list is empty exactly when no paired value is on. */
  lemma ActiveNamesEmpty<T>(names: seq<string>, values: seq<T>, on: T -> bool)
    ensures ActiveNames(names, values, on) == [] <==> !AnyActive(names, values, on)
  {
    ActiveNamesSpec(names, values, on);
    var ps := ActivePositions(names, values, on);
    if |ps| > 0 {
      assert ps[0] < |names| && ps[0] < |values| && on(values[ps[0]]);
    }
    if AnyActive(names, values, on) {
      var i :| 0 <= i < |names| && 0 <= i < |values| && on(values[i]);
      assert i in ps;
    }
  }

  /** A row is written exactly when it is well formed and one of its values reads
      as 1; what is written is its disease, a symptom string that splits on ", "
      back into the active names when no name holds ", ", and a count that reads
      back as the number of active names, at least one. */
  lemma RowOutputSpec(header: seq<string>, row: seq<string>)
    requires |header| >= 1
    ensures RowOutput(header, row).Some? <==>
      |row| == |header| && AnyActive(header[1..], row[1..], IsOneText)
    ensures RowOutput(header, row).Some? ==>
      var o := RowOutput(header, row).value;
      var active := ActiveNames(header[1..], row[1..], IsOneText);
      && |o| == 3 && o[0] == row[0] && |active| >= 1
      && ParsePyInt(o[2]) == Some(|active|)
      && ((forall k :: 1 <= k < |header| ==> !HasCommaSpace(header[k])) ==>
            SplitCommaSpace(o[1]) == active)
  {
    if |row| == |header| {
      var names := header[1..];
      var active := ActiveNames(names, row[1..], IsOneText);
      ActiveNamesEmpty(names, row[1..], IsOneText);
      ParseDecString(|active|);
      if active != [] {
        assert RowOutput(header, row) == Some([row[0], Join(active, ", "), DecString(|active|)]);
        if forall k :: 1 <= k < |header| ==> !HasCommaSpace(header[k]) {
          ActiveCommaFree(header, row);
          SplitJoinCommaSpace(active);
        }
      }
    }
  }

  /** The active names are some of the header's names, so none holds ", " when none
      of those does. */
  lemma ActiveCommaFree(header: seq<string>, row: seq<string>)
    requires |header| >= 1 && |row| == |header|
    requires forall k :: 1 <= k < |header| ==> !HasCommaSpace(header[k])
    ensures var active := ActiveNames(header[1..], row[1..], IsOneText);
      forall k :: 0 <= k < |active| ==> !HasCommaSpace(active[k])
  {
    var names := header[1..];
    var active := ActiveNames(names, row[1..], IsOneText);
    ActiveNamesSpec(names, row[1..], IsOneText);
    var ps := ActivePositions(names, row[1..], IsOneText);
    forall k | 0 <= k < |active| ensures !HasCommaSpace(active[k]) {
      assert active[k] == header[ps[k] + 1];
    }
  }

  /** `line` is what some row of `rows` writes. */
  ghost predicate WrittenBy(header: seq<string>, rows: seq<seq<string>>, line: seq<string>)
    requires |header| >= 1
  {
    exists j :: 0 <= j < |rows| && RowOutput(header, rows[j]) == Some(line)
  }

  /** Every line after the fixed header is the output of some input row. */
  lemma {:induction false} WrittenFrom(header: seq<string>, rows: seq<seq<string>>)
    requires |header| >= 1
    ensures forall k :: 0 <= k < |Written(header, rows)| ==> WrittenBy(header, rows, Written(header, rows)[k])
    decreases |rows|
  {
    if rows != [] {
      var n := |rows| - 1;
      var rs := rows[..n];
      WrittenFrom(header, rs);
      var w := Written(header, rows);
      var o := RowOutput(header, rows[n]);
      var ws := Written(header, rs);
      assert w == ws + (if o.Some? then [o.value] else []);
      forall k | 0 <= k < |w| ensures WrittenBy(header, rows, w[k]) {
        if k < |ws| {
          assert WrittenBy(header, rs, ws[k]);
          var j :| 0 <= j < |rs| && RowOutput(header, rs[j]) == Some(ws[k]);
          assert rows[j] == rs[j] && w[k] == ws[k];
        } else {
          assert w[k] == o.value && RowOutput(header, rows[n]) == Some(w[k]);
        }
      }
    }
  }

  /** Conversely, every input row with an output has it written. */
  lemma {:induction false} WrittenAll(header: seq<string>, rows: seq<seq<string>>, j: nat)
    requires |header| >= 1 && j < |rows| && RowOutput(header, rows[j]).Some?
    ensures RowOutput(header, rows[j]).value in Written(header, rows)
    decreases |rows|
  {
    if j < |rows| - 1 {
      var rs := rows[..|rows| - 1];
      assert rs[j] == rows[j];
      WrittenAll(header, rs, j);
    }
  }

  // ----- convert_binary_symptoms.py -----------------------------------------------

  /** One entry of `output_data`. */
  datatype Record = Record(disease: Cell, symptoms: string, symptomCount: nat)

  /** What one frame row contributes: its first cell, and the active names joined by
      ", " with their number, when some symptom is active. */
  function RecordOf(symptomColumns: seq<string>, row: seq<Cell>): Option<Record>
    requires |row| >= 1
  {
    var active := ActiveNames(symptomColumns, row[1..], EqualsOne);
    if active == [] then None else Some(Record(row[0], Join(active, ", "), |active|))
  }

  /** A frame: every row holds one cell per column. */
  predicate Rectangular(columns: seq<string>, rows: seq<seq<Cell>>) {
    forall j :: 0 <= j < |rows| ==> |rows[j]| == |columns|
  }

  /** The records for `rows`, in row order. */
  function Records(columns: seq<string>, rows: seq<seq<Cell>>): seq<Record>
    requires |columns| >= 1 && Rectangular(columns, rows)
    decreases |rows|
  {
    if rows == [] then [] else
    var o := RecordOf(columns[1..], rows[|rows| - 1]);
    Records(columns, rows[..|rows| - 1]) + (if o.Some? then [o.value] else [])
  }

  /** The chunks `read_csv(chunksize=...)` yields, one after the other. */
  function Flatten(chunks: seq<seq<seq<Cell>>>): seq<seq<Cell>>
    decreases |chunks|
  {
    if chunks == [] then [] else Flatten(chunks[..|chunks| - 1]) + chunks[|chunks| - 1]
  }

  predicate ChunksRectangular(columns: seq<string>, chunks: seq<seq<seq<Cell>>>) {
    forall c :: 0 <= c < |chunks| ==> Rectangular(columns, chunks[c])
  }

  lemma {:induction false} FlattenRectangular(columns: seq<string>, chunks: seq<seq<seq<Cell>>>)
    requires ChunksRectangular(columns, chunks)
    ensures Rectangular(columns, Flatten(chunks))
    decreases |chunks|
  {
    if chunks != [] {
      var cs := chunks[..|chunks| - 1];
      assert ChunksRectangular(columns, cs) by {
        forall c | 0 <= c < |cs| ensures Rectangular(columns, cs[c]) {
          assert cs[c] == chunks[c];
        }
      }
      FlattenRectangular(columns, cs);
      assert Rectangular(columns, chunks[|chunks| - 1]);
    }
  }

  /** Records of rows read in two parts are the two parts' records in turn. */
  lemma {:induction false} RecordsAppend(columns: seq<string>, a: seq<seq<Cell>>, b: seq<seq<Cell>>)
    requires |columns| >= 1 && Rectangular(columns, a) && Rectangular(columns, b)
    ensures Rectangular(columns, a + b)
    ensures Records(columns, a + b) == Records(columns, a) + Records(columns, b)
    decreases |b|
  {
    if b == [] {
      assert a + b == a;
    } else {
      var b' := b[..|b| - 1];
      assert (a + b)[..|a + b| - 1] == a + b';
      assert (a + b)[|a + b| - 1] == b[|b| - 1];
      RecordsAppend(columns, a, b');
    }
  }

  /** The loop over `chunk.iterrows()`: each row's record, if any, appended to
      `output_data`, and each row counted. */
  method ProcessChunk(columns: seq<string>, chunk: seq<seq<Cell>>, outputData: seq<Record>,
                      totalRowsProcessed: nat)
    returns (outputData': seq<Record>, totalRowsProcessed': nat)
    requires |columns| >= 1 && Rectangular(columns, chunk)
    ensures outputData' == outputData + Records(columns, chunk)
    ensures totalRowsProcessed' == totalRowsProcessed + |chunk|
  {
    var symptomColumns := columns[1..];
    outputData', totalRowsProcessed' := outputData, totalRowsProcessed;
    var j := 0;
    while j < |chunk|
      invariant 0 <= j <= |chunk|
      invariant Rectangular(columns, chunk[..j])
      invariant outputData' == outputData + Records(columns, chunk[..j])
      invariant totalRowsProcessed' == totalRowsProcessed + j
    {
      var row := chunk[j];
      assert chunk[..j + 1][..j] == chunk[..j];
      var activeSymptoms := ActiveSymptomsFrame(symptomColumns, row[1..]);
      if activeSymptoms != [] {
        outputData' := outputData' + [Record(row[0], Join(activeSymptoms, ", "), |activeSymptoms|)];
      }
      totalRowsProcessed' := totalRowsProcessed' + 1;
      j := j + 1;
    }
    assert chunk[..j] == chunk;
  }

  /** `convert_binary_to_symptom_names` on the header's columns and the chunks of
      rows: an empty header is pandas' `EmptyDataError`; otherwise the records of
      all rows, in order, and `total_rows_processed`, the number of rows. */
  method ConvertFrame(columns: seq<string>, chunks: seq<seq<seq<Cell>>>)
    returns (result: Result<(seq<Record>, nat)>)
    requires ChunksRectangular(columns, chunks)
    ensures columns == [] ==> result == Err("EmptyDataError")
    ensures columns != [] ==>
      Rectangular(columns, Flatten(chunks)) &&
      result == Ok((Records(columns, Flatten(chunks)), |Flatten(chunks)|))
  {
    if columns == [] {
      return Err("EmptyDataError");
    }
    FlattenRectangular(columns, chunks);
    var outputData := [];
    var totalRowsProcessed := 0;
    var c := 0;
    while c < |chunks|
      invariant 0 <= c <= |chunks|
      invariant ChunksRectangular(columns, chunks[..c])
      invariant Rectangular(columns, Flatten(chunks[..c]))
      invariant outputData == Records(columns, Flatten(chunks[..c]))
      invariant totalRowsProcessed == |Flatten(chunks[..c])|
    {
      var chunk := chunks[c];
      ghost var before := Flatten(chunks[..c]);
      assert Rectangular(columns, chunk);
      outputData, totalRowsProcessed := ProcessChunk(columns, chunk, outputData, totalRowsProcessed);
      assert chunks[..c + 1][..c] == chunks[..c];
      RecordsAppend(columns, before, chunk);
      c := c + 1;
    }
    assert chunks[..c] == chunks;
    return Ok((outputData, totalRowsProcessed));
  }

  /** A record exists exactly for the rows with an active symptom; it holds the
      row's disease, the ", " join of the active names and their number, at least
      one, and the joined string splits back into the names when no column name
      holds ", ". */
  lemma RecordOfSpec(symptomColumns: seq<string>, row: seq<Cell>)
    requires |row| >= 1
    ensures RecordOf(symptomColumns, row).Some? <==> AnyActive(symptomColumns, row[1..], EqualsOne)
    ensures RecordOf(symptomColumns, row).Some? ==>
      var r := RecordOf(symptomColumns, row).value;
      var active := ActiveNames(symptomColumns, row[1..], EqualsOne);
      && r.disease == row[0] && r.symptomCount == |active| >= 1
      && ((forall k :: 0 <= k < |symptomColumns| ==> !HasCommaSpace(symptomColumns[k])) ==>
            SplitCommaSpace(r.symptoms) == active)
  {
    var active := ActiveNames(symptomColumns, row[1..], EqualsOne);
    ActiveNamesEmpty(symptomColumns, row[1..], EqualsOne);
    if active != [] && forall k :: 0 <= k < |symptomColumns| ==> !HasCommaSpace(symptomColumns[k]) {
      ActiveNamesSpec(symptomColumns, row[1..], EqualsOne);
      var ps := ActivePositions(symptomColumns, row[1..], EqualsOne);
      forall k | 0 <= k < |active| ensures !HasCommaSpace(active[k]) {
        assert active[k] == symptomColumns[ps[k]];
      }
      SplitJoinCommaSpace(active);
    }
  }

  /** No more records than rows. */
  lemma {:induction false} RecordsBound(columns: seq<string>, rows: seq<seq<Cell>>)
    requires |columns| >= 1 && Rectangular(columns, rows)
    ensures |Records(columns, rows)| <= |rows|
    decreases |rows|
  {
    if rows != [] {
      RecordsBound(columns, rows[..|rows| - 1]);
    }
  }

  /** The text converter and the frame converter agree on a row whose every value
      is either the text "1" or a text `int` reads as anything else, once each text
      "1" is the integer 1: both keep exactly the names paired with a 1. */
  lemma ConvertersAgree(names: seq<string>, texts: seq<string>, cells: seq<Cell>)
    requires |texts| == |cells|
    requires forall i :: 0 <= i < |texts| ==> (IsOneText(texts[i]) <==> cells[i] == Num(1))
    ensures ActiveNames(names, texts, IsOneText) == ActiveNames(names, cells, EqualsOne)
  {
    ActiveNamesSame(names, texts, cells);
  }

  lemma {:induction false} ActiveNamesSame(names: seq<string>, texts: seq<string>, cells: seq<Cell>)
    requires |texts| == |cells|
    requires forall i :: 0 <= i < |texts| ==> (IsOneText(texts[i]) <==> cells[i] == Num(1))
    ensures ActiveNames(names, texts, IsOneText) == ActiveNames(names, cells, EqualsOne)
    decreases |texts|
  {
    if texts != [] {
      var n := |texts| - 1;
      ActiveNamesSame(names, texts[..n], cells[..n]);
    }
  }

  // ----- create_summary_analysis token count --------------------------------------

  /** `[s.strip() for s in parts]`. */
  function StripAll(parts: seq<string>): (r: seq<string>)
    ensures |r| == |parts| && forall i :: 0 <= i < |parts| ==> r[i] == PyStrip(parts[i])
    decreases |parts|
  {
    if parts == [] then [] else StripAll(parts[..|parts| - 1]) + [PyStrip(parts[|parts| - 1])]
  }

  /** The tokens of one symptoms string: split on ",", each piece stripped, empty
      pieces kept. */
  function PieceTokens(s: string): seq<string> {
    StripAll(Split(s, ','))
  }

  /** `all_symptoms` after the loop over `strs`. */
  function AllTokens(strs: seq<string>): seq<string>
    decreases |strs|
  {
    if strs == [] then [] else AllTokens(strs[..|strs| - 1]) + PieceTokens(strs[|strs| - 1])
  }

  /** What each string contributes: one more token than it has commas. */
  function Contributions(strs: seq<string>): nat
    decreases |strs|
  {
    if strs == [] then 0 else Contributions(strs[..|strs| - 1]) + CountChar(strs[|strs| - 1], ',') + 1
  }

  /** The loop of `create_summary_analysis` that gathers `all_symptoms`. */
  method SummaryTokens(strs: seq<string>) returns (allSymptoms: seq<string>)
    ensures allSymptoms == AllTokens(strs)
  {
    allSymptoms := [];
    var i := 0;
    while i < |strs|
      invariant 0 <= i <= |strs|
      invariant allSymptoms == AllTokens(strs[..i])
    {
      var symptomsList := StripAll(Split(strs[i], ','));
      allSymptoms := allSymptoms + symptomsList;
      assert strs[..i + 1][..i] == strs[..i];
      i := i + 1;
    }
    assert strs[..i] == strs;
  }

  /** The `symptoms` column of the frame built from the records, in order. */
  function SymptomsColumn(records: seq<Record>): seq<string> {
    seq(|records|, i requires 0 <= i < |records| => records[i].symptoms)
  }

  /** `create_summary_analysis` on the frame the converter returns, as far as the
      symptom tokens. With no record, `pd.DataFrame([])` has no columns, so
      `df['disease']` raises KeyError before the loop, `main` reports the error
      and no summary is written. Otherwise the tokens of every record's symptoms,
      in order, at least one per record. */
  method CreateSummaryAnalysis(records: seq<Record>) returns (result: Result<seq<string>>)
    ensures result.Err? <==> records == []
    ensures result.Err? ==> result.error == "KeyError"
    ensures result.Ok? ==> result.value == AllTokens(SymptomsColumn(records))
    ensures result.Ok? ==> |result.value| >= |records|
  {
    if records == [] {
      return Err("KeyError");
    }
    var allSymptoms := SummaryTokens(SymptomsColumn(records));
    TokenTotal(SymptomsColumn(records));
    ContributionsAtLeast(SymptomsColumn(records));
    return Ok(allSymptoms);
  }

  /** Every string contributes at least one token. */
  lemma {:induction false} ContributionsAtLeast(strs: seq<string>)
    ensures Contributions(strs) >= |strs|
    decreases |strs|
  {
    if strs != [] {
      ContributionsAtLeast(strs[..|strs| - 1]);
    }
  }

  /** The counts of `value_counts` add up to the number of tokens, which is the sum of
      the per-row contributions; there are never more distinct symptoms than tokens. */
  lemma {:induction false} TokenTotal(strs: seq<string>)
    ensures |multiset(AllTokens(strs))| == |AllTokens(strs)| == Contributions(strs)
    ensures |set x | x in AllTokens(strs)| <= Contributions(strs)
    decreases |strs|
  {
    if strs != [] {
      var s := strs[|strs| - 1];
      TokenTotal(strs[..|strs| - 1]);
      SplitLength(s, ',');
    }
    DistinctAtMost(AllTokens(strs));
  }

  lemma {:induction false} DistinctAtMost(xs: seq<string>)
    ensures |set x | x in xs| <= |xs|
    decreases |xs|
  {
    if xs != [] {
      var ys := xs[..|xs| - 1];
      DistinctAtMost(ys);
      assert (set x | x in xs) == (set x | x in ys) + {xs[|xs| - 1]};
    }
  }

  /** The pieces of `Join(names, ", ")` split on ",": the first name, then each
      other name after its blank. */
  function Spaced(names: seq<string>): seq<string>
    requires |names| >= 1
  {
    [names[0]] + seq(|names| - 1, i requires 0 <= i < |names| - 1 => " " + names[i + 1])
  }

  lemma {:induction false} SplitJoinSpaced(names: seq<string>)
    requires |names| >= 1
    requires forall i :: 0 <= i < |names| ==> ',' !in names[i]
    ensures Split(Join(names, ", "), ',') == Spaced(names)
    decreases |names|
  {
    if |names| == 1 {
      SplitFree(names[0], ',');
    } else {
      var rest := names[1..];
      SplitJoinHead(names);
      SplitJoinSpaced(rest);
      SplitBlank(Join(rest, ", "));
      SpacedCons(names);
    }
  }

  /** The first name is cut off at the "," after it. */
  lemma SplitJoinHead(names: seq<string>)
    requires |names| >= 2 && ',' !in names[0]
    ensures Split(Join(names, ", "), ',') == [names[0]] + Split(" " + Join(names[1..], ", "), ',')
  {
    var t := Join(names[1..], ", ");
    JoinCommaSpace(names);
    SplitCons(names[0], ',', " " + t);
  }

  lemma JoinCommaSpace(names: seq<string>)
    requires |names| >= 2
    ensures Join(names, ", ") == names[0] + [','] + (" " + Join(names[1..], ", "))
  {
    var t := Join(names[1..], ", ");
    assert Join(names, ", ") == names[0] + ", " + t;
    CommaSpace(names[0], t);
  }

  lemma CommaSpace(a: string, t: string)
    ensures a + ", " + t == a + [','] + (" " + t)
  {
    var u := " " + t;
    assert |a + ", " + t| == |a| + 1 + |u|;
    forall i | 0 <= i < |a| + 1 + |u| ensures (a + ", " + t)[i] == (a + [','] + u)[i] {
      if i > |a| {
        assert (a + ", " + t)[i] == u[i - |a| - 1];
      }
    }
  }

  /** A leading blank stays with the first piece. */
  lemma SplitBlank(t: string)
    ensures Split(" " + t, ',') == [" " + Split(t, ',')[0]] + Split(t, ',')[1..]
  {
    assert (" " + t)[0] == ' ' && (" " + t)[1..] == t;
  }

  lemma SpacedCons(names: seq<string>)
    requires |names| >= 2
    ensures Spaced(names) == [names[0]] + ([" " + Spaced(names[1..])[0]] + Spaced(names[1..])[1..])
  {
    var sp := Spaced(names[1..]);
    var lhs := Spaced(names);
    var rhs := [names[0]] + ([" " + sp[0]] + sp[1..]);
    assert |lhs| == |rhs|;
    forall i | 0 <= i < |lhs| ensures lhs[i] == rhs[i] {
      if i >= 2 {
        assert rhs[i] == sp[i - 1];
      }
    }
  }

  lemma PyStripBlank(x: string)
    ensures PyStrip(" " + x) == PyStrip(x)
  {
    assert (" " + x)[1..] == x;
  }

  lemma SpacedAt(names: seq<string>, i: nat)
    requires 0 < i < |names|
    ensures PyStrip(Spaced(names)[i]) == PyStrip(names[i])
  {
    assert Spaced(names)[i] == " " + names[i];
    PyStripBlank(names[i]);
  }

  /** The space after each ", " is stripped away again. */
  lemma StripSpaced(names: seq<string>)
    requires |names| >= 1
    ensures StripAll(Spaced(names)) == StripAll(names)
  {
    var sp := Spaced(names);
    forall i | 0 < i < |names| ensures PyStrip(sp[i]) == PyStrip(names[i]) {
      SpacedAt(names, i);
    }
    assert sp[0] == names[0];
    StripAllSame(sp, names);
  }

  lemma StripAllSame(xs: seq<string>, ys: seq<string>)
    requires |xs| == |ys| && forall i :: 0 <= i < |xs| ==> PyStrip(xs[i]) == PyStrip(ys[i])
    ensures StripAll(xs) == StripAll(ys)
  {
  }

  /** The summary reads the names of a converter record back, stripped: the tokens of
      `", ".join(names)` are the stripped names when no name holds ",". */
  lemma RecordTokens(names: seq<string>)
    requires |names| >= 1
    requires forall i :: 0 <= i < |names| ==> ',' !in names[i]
    ensures PieceTokens(Join(names, ", ")) == StripAll(names)
  {
    SplitJoinSpaced(names);
    StripSpaced(names);
  }
}
