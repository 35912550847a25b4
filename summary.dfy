/** The symptom counting of `summary_analysis.py`: `parse_symptoms` on one cell, the
    global token list, and, per disease, the set of distinct symptoms and the
    number of mentions. */
module Summary {
  import opened Cells
  import opened Text
  import opened Fields

  /** `[p.strip().lower() for p in parts]`, the empty results dropped. */
  function LowerStrippedNonEmpty(parts: seq<string>): (r: seq<string>)
    ensures |r| <= |parts|
  {
    if parts == [] then []
    else (if Lower(PyStrip(parts[0])) != "" then [Lower(PyStrip(parts[0]))] else [])
         + LowerStrippedNonEmpty(parts[1..])
  }

  /** `parse_symptoms`: nothing for a missing or blank cell; otherwise the stripped
      cell split on ",", each piece stripped and lower-cased, the empty ones
      dropped. */
  function ParseSymptoms(cell: Value): seq<string> {
    match cell
    case Null => []
    case Str(s) =>
      var t := PyStrip(s);
      if t == "" then [] else LowerStrippedNonEmpty(Split(t, ','))
  }

  // ----- parse_symptoms ----------------------------------------------------------

  lemma {:induction false} LowerStrippedNonEmptySpec(parts: seq<string>)
    ensures forall i :: 0 <= i < |LowerStrippedNonEmpty(parts)| ==>
      LowerStrippedNonEmpty(parts)[i] != "" && Trimmed(LowerStrippedNonEmpty(parts)[i], IsPySpace) &&
      IsLower(LowerStrippedNonEmpty(parts)[i])
    decreases |parts|
  {
    if parts != [] {
      LowerStrippedNonEmptySpec(parts[1..]);
      TrimSpec(parts[0], IsPySpace);
      LowerKeepsTrimmed(PyStrip(parts[0]), IsPySpace);
      LowerIsLower(PyStrip(parts[0]));
    }
  }

  /** A missing or blank cell has no symptoms; every symptom returned is non-empty,
      stripped and lower case. */
  lemma ParseSymptomsSpec(cell: Value)
    ensures cell == Null ==> ParseSymptoms(cell) == []
    ensures cell.Str? && PyStrip(cell.s) == "" ==> ParseSymptoms(cell) == []
    ensures forall i :: 0 <= i < |ParseSymptoms(cell)| ==>
      ParseSymptoms(cell)[i] != "" && Trimmed(ParseSymptoms(cell)[i], IsPySpace) &&
      IsLower(ParseSymptoms(cell)[i])
  {
    if cell.Str? && PyStrip(cell.s) != "" {
      LowerStrippedNonEmptySpec(Split(PyStrip(cell.s), ','));
    }
  }

  /** Every piece lower-cased. */
  function LowerAll(parts: seq<string>): (r: seq<string>)
    ensures |r| == |parts| && forall i :: 0 <= i < |parts| ==> r[i] == Lower(parts[i])
  {
    if parts == [] then [] else [Lower(parts[0])] + LowerAll(parts[1..])
  }

  /** Lower-casing does not move a comma, so it can be done before or after the
      split. */
  lemma {:induction false} SplitLower(s: string)
    ensures Split(Lower(s), ',') == LowerAll(Split(s, ','))
    decreases |s|
  {
    if s != [] {
      SplitLower(s[1..]);
      var l := Lower(s);
      assert l[0] == LowerChar(s[0]) && l[1..] == Lower(s[1..]);
      var r := Split(s[1..], ',');
      if s[0] != ',' {
        var x := [s[0]] + r[0];
        assert x[0] == s[0] && x[1..] == r[0];
        assert Lower(x) == [LowerChar(s[0])] + Lower(r[0]);
        assert LowerAll(r)[1..] == LowerAll(r[1..]);
        assert LowerAll([x] + r[1..]) == [Lower(x)] + LowerAll(r[1..]);
      } else {
        assert LowerAll([""] + r) == [Lower("")] + LowerAll(r);
      }
    }
  }

  lemma {:induction false} TrimLeftLower(s: string)
    ensures TrimLeft(Lower(s), IsPySpace) == Lower(TrimLeft(s, IsPySpace))
    decreases |s|
  {
    if s != [] {
      var l := Lower(s);
      assert l[0] == LowerChar(s[0]) && l[1..] == Lower(s[1..]);
      LowerKeepsSpace(s, IsPySpace);
      TrimLeftLower(s[1..]);
    }
  }

  lemma LowerPrefix(s: string, n: nat)
    requires n <= |s|
    ensures Lower(s)[..n] == Lower(s[..n])
  {
    LowerAt(s);
    LowerAt(s[..n]);
  }

  lemma {:induction false} TrimRightLower(s: string)
    ensures TrimRight(Lower(s), IsPySpace) == Lower(TrimRight(s, IsPySpace))
    decreases |s|
  {
    if s != [] {
      LowerKeepsSpace(s, IsPySpace);
      LowerPrefix(s, |s| - 1);
      TrimRightLower(s[..|s| - 1]);
    }
  }

  /** Lower-casing does not move whitespace, so it can be done before or after the
      strip. */
  lemma PyStripLower(s: string)
    ensures PyStrip(Lower(s)) == Lower(PyStrip(s))
  {
    TrimLeftLower(s);
    TrimRightLower(TrimLeft(s, IsPySpace));
  }

  lemma {:induction false} LowerStrippedIsStripped(parts: seq<string>)
    ensures LowerStrippedNonEmpty(parts) == StrippedNonEmpty(LowerAll(parts))
    decreases |parts|
  {
    if parts != [] {
      LowerStrippedIsStripped(parts[1..]);
      PyStripLower(parts[0]);
      assert LowerAll(parts)[1..] == LowerAll(parts[1..]);
    }
  }

  /** `parse_symptoms` finds in a cell the same symptoms `generate_jsons` reads from
      a field of the same text, when the stripped text is not wrapped in double
      quotes. */
  lemma ParseIsTokens(s: string)
    ensures ParseSymptoms(Str(s)) == Tokens(Lower(PyStrip(s)))
    ensures StripQuotes(PyStrip(s)) == PyStrip(s) ==>
      ParseSymptoms(Str(s)) == Tokens(Lower(CleanAndStrip(s)))
  {
    var t := PyStrip(s);
    SplitLower(t);
    LowerStrippedIsStripped(Split(t, ','));
    if t == "" {
      assert Lower(t) == "";
      assert Split("", ',') == [""];
      assert PyStrip("") == "";
    }
  }

  // ----- the global token list and the per-disease counts ----------------------

  /** `parse_symptoms` of every cell, concatenated in order. */
  function ParseAll(cells: seq<Value>): seq<string>
    decreases |cells|
  {
    if cells == [] then [] else ParseAll(cells[..|cells| - 1]) + ParseSymptoms(cells[|cells| - 1])
  }

  /** The number of symptoms `parse_symptoms` finds in all the cells together. */
  function Total(cells: seq<Value>): nat
    decreases |cells|
  {
    if cells == [] then 0 else Total(cells[..|cells| - 1]) + |ParseSymptoms(cells[|cells| - 1])|
  }

  function Members(s: seq<string>): set<string> {
    set x | x in s
  }

  /** The distinct symptoms of all the cells. */
  function UnionOf(cells: seq<Value>): set<string>
    decreases |cells|
  {
    if cells == [] then {}
    else UnionOf(cells[..|cells| - 1]) + Members(ParseSymptoms(cells[|cells| - 1]))
  }

  /** `all_symptoms.extend(parse_symptoms(s))` for every cell of the column. */
  method AllSymptoms(cells: seq<Value>) returns (all: seq<string>)
    ensures all == ParseAll(cells)
  {
    all := [];
    var i := 0;
    while i < |cells|
      invariant 0 <= i <= |cells|
      invariant all == ParseAll(cells[..i])
    {
      all := all + ParseSymptoms(cells[i]);
      assert cells[..i + 1][..i] == cells[..i];
      i := i + 1;
    }
    assert cells[..i] == cells;
  }

  /** `unique_symptoms_for_series`. */
  method UniqueSymptoms(series: seq<Value>) returns (unionSet: set<string>)
    ensures unionSet == UnionOf(series)
  {
    unionSet := {};
    var i := 0;
    while i < |series|
      invariant 0 <= i <= |series|
      invariant unionSet == UnionOf(series[..i])
    {
      var parsed := ParseSymptoms(series[i]);
      unionSet := unionSet + Members(parsed);
      assert series[..i + 1][..i] == series[..i];
      i := i + 1;
    }
    assert series[..i] == series;
  }

  /** `total_mentions_for_series`. */
  method TotalMentions(series: seq<Value>) returns (total: nat)
    ensures total == Total(series)
  {
    total := 0;
    var i := 0;
    while i < |series|
      invariant 0 <= i <= |series|
      invariant total == Total(series[..i])
    {
      total := total + |ParseSymptoms(series[i])|;
      assert series[..i + 1][..i] == series[..i];
      i := i + 1;
    }
    assert series[..i] == series;
  }

  /** The global token list holds as many tokens as the cells' parses together. */
  lemma {:induction false} ParseAllLength(cells: seq<Value>)
    ensures |ParseAll(cells)| == Total(cells)
    decreases |cells|
  {
    if cells != [] {
      ParseAllLength(cells[..|cells| - 1]);
    }
  }

  /** Some cell has symptom `x`. */
  ghost predicate Mentioned(cells: seq<Value>, x: string) {
    exists i :: 0 <= i < |cells| && x in ParseSymptoms(cells[i])
  }

  /** The union of `f` over the cells, for any parse `f`. */
  function UnionBy(cells: seq<Value>, f: Value -> seq<string>): set<string>
    decreases |cells|
  {
    if cells == [] then {} else UnionBy(cells[..|cells| - 1], f) + Members(f(cells[|cells| - 1]))
  }

  lemma {:induction false} UnionByAt(cells: seq<Value>, f: Value -> seq<string>, x: string)
    ensures x in UnionBy(cells, f) <==> exists i :: 0 <= i < |cells| && x in f(cells[i])
    decreases |cells|
  {
    if cells != [] {
      var n := |cells| - 1;
      var cs := cells[..n];
      UnionByAt(cs, f, x);
      if exists i :: 0 <= i < |cells| && x in f(cells[i]) {
        var i :| 0 <= i < |cells| && x in f(cells[i]);
        if i < n {
          assert cs[i] == cells[i];
        }
      }
      if exists i :: 0 <= i < |cs| && x in f(cs[i]) {
        var i :| 0 <= i < |cs| && x in f(cs[i]);
        assert cells[i] == cs[i];
      }
    }
  }

  lemma {:induction false} UnionOfBy(cells: seq<Value>)
    ensures UnionOf(cells) == UnionBy(cells, ParseSymptoms)
    decreases |cells|
  {
    if cells != [] {
      UnionOfBy(cells[..|cells| - 1]);
    }
  }

  /** The distinct symptoms are those some cell mentions, which are the members of
      the global token list. */
  lemma UnionOfSpec(cells: seq<Value>)
    ensures forall x :: x in UnionOf(cells) <==> Mentioned(cells, x)
  {
    UnionOfBy(cells);
    forall x ensures x in UnionOf(cells) <==> Mentioned(cells, x) {
      UnionByAt(cells, ParseSymptoms, x);
    }
  }

  /** The distinct symptoms are the members of the global token list. */
  lemma {:induction false} UnionOfAll(cells: seq<Value>)
    ensures forall x :: x in UnionOf(cells) <==> x in ParseAll(cells)
    decreases |cells|
  {
    if cells != [] {
      UnionOfAll(cells[..|cells| - 1]);
    }
  }

  lemma {:induction false} MembersCard(s: seq<string>)
    ensures |Members(s)| <= |s|
    decreases |s|
  {
    if s != [] {
      var s' := s[..|s| - 1];
      MembersCard(s');
      assert Members(s) == Members(s') + {s[|s| - 1]};
    }
  }

  /** A disease never has more distinct symptoms than mentions. */
  lemma {:induction false} UniqueAtMostTotal(cells: seq<Value>)
    ensures |UnionOf(cells)| <= Total(cells)
    decreases |cells|
  {
    if cells != [] {
      var cs := cells[..|cells| - 1];
      UniqueAtMostTotal(cs);
      MembersCard(ParseSymptoms(cells[|cells| - 1]));
    }
  }

  /** A row of the summarised table: the disease name and the symptoms cell. */
  datatype SummaryRow = SummaryRow(name: Value, symptoms: Value)

  /** `df.groupby('name')['symptoms']` for disease `d`: the symptoms cells of the
      rows named `d`, in row order. */
  function CellsOf(rows: seq<SummaryRow>, d: string): (cells: seq<Value>)
    ensures |cells| <= |rows|
    decreases |rows|
  {
    if rows == [] then []
    else if rows[|rows| - 1].name == Str(d) then CellsOf(rows[..|rows| - 1], d) + [rows[|rows| - 1].symptoms]
    else CellsOf(rows[..|rows| - 1], d)
  }

  /** The unique count of a disease is at most its total mentions, and both are
      bounded by the global token list. */
  lemma DiseaseCounts(rows: seq<SummaryRow>, d: string)
    ensures |UnionOf(CellsOf(rows, d))| <= Total(CellsOf(rows, d))
    ensures Total(CellsOf(rows, d)) <= Total(SymptomCells(rows))
  {
    UniqueAtMostTotal(CellsOf(rows, d));
    CellsOfTotal(rows, d);
  }

  /** The `symptoms` column. */
  function SymptomCells(rows: seq<SummaryRow>): (cells: seq<Value>)
    ensures |cells| == |rows| && forall i :: 0 <= i < |rows| ==> cells[i] == rows[i].symptoms
    decreases |rows|
  {
    if rows == [] then [] else SymptomCells(rows[..|rows| - 1]) + [rows[|rows| - 1].symptoms]
  }

  lemma TotalSnoc(cells: seq<Value>, c: Value)
    ensures Total(cells + [c]) == Total(cells) + |ParseSymptoms(c)|
  {
    assert (cells + [c])[..|cells|] == cells;
  }

  lemma {:induction false} CellsOfTotal(rows: seq<SummaryRow>, d: string)
    ensures Total(CellsOf(rows, d)) <= Total(SymptomCells(rows))
    decreases |rows|
  {
    if rows != [] {
      var rs := rows[..|rows| - 1];
      var r := rows[|rows| - 1];
      CellsOfTotal(rs, d);
      TotalSnoc(SymptomCells(rs), r.symptoms);
      if r.name == Str(d) {
        TotalSnoc(CellsOf(rs, d), r.symptoms);
      }
    }
  }
}
