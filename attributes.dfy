/** `create_disease_contagious_chronic_map`: one pass over the rows of the cleaned
    Diseases_Symptoms table building a dictionary from normalised disease name to
    the row's contagious, chronic and treatments cells. A later row with the same
    normalised name replaces the entry of an earlier one. */
module Attributes {
  import opened Cells
  import opened Text
  import opened Seqs
  import opened Frame

  /** A row as polars' `iter_rows(named=True)` hands it out: column name to cell. */
  type NamedRow = map<string, Value>

  /** `df.iter_rows(named=True)`: each row as a dictionary over the frame's columns. */
  function NamedRows(t: Table): (rs: seq<NamedRow>)
    requires WellFormed(t)
    ensures |rs| == |t.rows|
    ensures forall i :: 0 <= i < |t.rows| ==> rs[i].Keys == set c | c in t.columns
    ensures forall i, j :: 0 <= i < |t.rows| && 0 <= j < |t.columns| ==> rs[i][t.columns[j]] == t.rows[i][j]
  {
    seq(|t.rows|, i requires 0 <= i < |t.rows| => RowMap(t.columns, t.rows[i]))
  }

  function RowMap(cols: seq<string>, row: seq<Value>): (m: NamedRow)
    requires NoDups(cols) && |row| == |cols|
    ensures m.Keys == set c | c in cols
    ensures forall j :: 0 <= j < |cols| ==> m[cols[j]] == row[j]
  {
    map j | 0 <= j < |cols| :: cols[j] := row[j]
  }

  datatype Attrs = Attrs(contagious: Value, chronic: Value, treatments: Value)

  /** `row.get(c, None)`. */
  function Get(row: NamedRow, c: string): Value {
    if c in row then row[c] else Null
  }

  /** `row['name']` as a string Python can `strip()`: a `KeyError` when the row has
      no such key, an `AttributeError` when the cell is null. */
  function NameOf(row: NamedRow): Result<string> {
    if "name" !in row then Err("KeyError: 'name'")
    else match row["name"]
      case Null => Err("AttributeError: 'NoneType' object has no attribute 'strip'")
      case Str(s) => Ok(s)
  }

  predicate HasName(row: NamedRow) {
    NameOf(row).Ok?
  }

  /** The dictionary key of a row. */
  function KeyOf(row: NamedRow): string
    requires HasName(row)
  {
    PyNormalizeName(NameOf(row).value)
  }

  /** A dictionary key is already in normal form: no space, no upper-case ASCII
      letter, no surrounding whitespace, and normalising it again changes nothing. */
  lemma KeyOfShape(row: NamedRow)
    requires HasName(row)
    ensures ' ' !in KeyOf(row) && IsLower(KeyOf(row)) && Trimmed(KeyOf(row), IsPySpace)
    ensures PyNormalizeName(KeyOf(row)) == KeyOf(row)
  {
    NormalizeShape(NameOf(row).value, IsPySpace);
    NormalizeIdempotent(NameOf(row).value, IsPySpace);
  }

  function AttrsOf(row: NamedRow): Attrs {
    Attrs(Get(row, "contagious"), Get(row, "chronic"), Get(row, "treatments"))
  }

  /** The key of every row, with "" standing in for rows that have none. */
  function RowKeys(rows: seq<NamedRow>): (ks: seq<string>)
    ensures |ks| == |rows|
  {
    if rows == [] then []
    else [if HasName(rows[0]) then KeyOf(rows[0]) else ""] + RowKeys(rows[1..])
  }

  lemma {:induction false} RowKeysAt(rows: seq<NamedRow>, i: nat)
    requires i < |rows| && HasName(rows[i])
    ensures RowKeys(rows)[i] == KeyOf(rows[i])
    decreases i
  {
    if i > 0 {
      RowKeysAt(rows[1..], i - 1);
    }
  }

  function AttrsSeq(rows: seq<NamedRow>): (vs: seq<Attrs>)
    ensures |vs| == |rows|
  {
    if rows == [] then [] else [AttrsOf(rows[0])] + AttrsSeq(rows[1..])
  }

  lemma {:induction false} AttrsSeqAt(rows: seq<NamedRow>, i: nat)
    requires i < |rows|
    ensures AttrsSeq(rows)[i] == AttrsOf(rows[i])
    decreases i
  {
    if i > 0 {
      AttrsSeqAt(rows[1..], i - 1);
    }
  }

  /** The loop invariant: the first `n` rows have names and `m` is built from them. */
  ghost predicate Scanned(rows: seq<NamedRow>, n: nat, m: map<string, Attrs>)
    requires n <= |rows|
  {
    (forall i :: 0 <= i < n ==> HasName(rows[i])) && Built(RowKeys(rows), AttrsSeq(rows), n, m)
  }

  lemma ScannedStep(rows: seq<NamedRow>, n: nat, m: map<string, Attrs>)
    requires n < |rows| && Scanned(rows, n, m) && HasName(rows[n])
    ensures Scanned(rows, n + 1, m[KeyOf(rows[n]) := AttrsOf(rows[n])])
  {
    RowKeysAt(rows, n);
    AttrsSeqAt(rows, n);
    BuiltStep(RowKeys(rows), AttrsSeq(rows), n, m);
  }

  /** No later row has the same key as row `i`. */
  predicate LastOfKey(rows: seq<NamedRow>, i: nat)
    requires i < |rows| && forall j :: 0 <= j < |rows| ==> HasName(rows[j])
  {
    forall j :: i < j < |rows| ==> KeyOf(rows[j]) != KeyOf(rows[i])
  }

  lemma ScannedAll(rows: seq<NamedRow>, m: map<string, Attrs>)
    requires Scanned(rows, |rows|, m)
    ensures forall i :: 0 <= i < |rows| ==> HasName(rows[i])
    ensures forall k :: k in m <==> exists i :: 0 <= i < |rows| && KeyOf(rows[i]) == k
    ensures forall i :: 0 <= i < |rows| && LastOfKey(rows, i) ==>
              KeyOf(rows[i]) in m && m[KeyOf(rows[i])] == AttrsOf(rows[i])
  {
    var ks := RowKeys(rows);
    forall i | 0 <= i < |rows| ensures ks[i] == KeyOf(rows[i]) && AttrsSeq(rows)[i] == AttrsOf(rows[i]) {
      RowKeysAt(rows, i);
      AttrsSeqAt(rows, i);
    }
    forall i | 0 <= i < |rows| && LastOfKey(rows, i) ensures LastWithKey(ks, |rows|, i) {
    }
  }

  /** The loop of `create_disease_contagious_chronic_map`. It fails, as Python
      raises, at the first row without a name string (a `KeyError` when the frame has
      no `name` column, an `AttributeError` on a null). Otherwise the keys are
      exactly the rows' normalised names, and each key holds the attributes of the
      last row with that key. */
  method BuildAttributeMap(rows: seq<NamedRow>) returns (r: Result<map<string, Attrs>>)
    ensures r.Ok? <==> forall i :: 0 <= i < |rows| ==> HasName(rows[i])
    ensures r.Ok? ==> forall k :: k in r.value <==> exists i :: 0 <= i < |rows| && KeyOf(rows[i]) == k
    ensures r.Ok? ==> forall i :: 0 <= i < |rows| && LastOfKey(rows, i) ==>
              KeyOf(rows[i]) in r.value && r.value[KeyOf(rows[i])] == AttrsOf(rows[i])
  {
    var m: map<string, Attrs> := map[];
    var n := 0;
    while n < |rows|
      invariant 0 <= n <= |rows|
      invariant Scanned(rows, n, m)
    {
      var row := rows[n];
      var name := NameOf(row);
      if name.Err? {
        assert !HasName(rows[n]);
        return Err(name.error);
      }
      var key := PyNormalizeName(name.value);
      ScannedStep(rows, n, m);
      m := m[key := AttrsOf(row)];
      n := n + 1;
    }
    ScannedAll(rows, m);
    return Ok(m);
  }

  /** `row.get(c, None)` on a row of `iter_rows(named=True)`: the row's cell in
      column `c`, or None when the frame has no such column. */
  lemma NamedRowGet(t: Table, i: nat, c: string)
    requires WellFormed(t) && i < |t.rows|
    ensures Get(NamedRows(t)[i], c) == if c in t.columns then t.rows[i][Find(t.columns, c)] else Null
  {
    FindPresent(t.columns, c);
  }
}
