/** In-memory tables (a polars DataFrame or a DuckDB relation) and the per-source
    adapter steps of the preparation tasks: filling the seven canonical columns,
    normalising disease names and rewriting `|` separators. */
module Frame {
  import opened Cells
  import opened Text
  import opened Seqs

  /** The outcome of a step that polars or Python may reject with an exception. */
  datatype Result<T> = Ok(value: T) | Err(error: string)

  /** Column names, and rows listing one cell per column in column order. */
  datatype Table = Table(columns: seq<string>, rows: seq<seq<Value>>)

  /** What polars guarantees of every frame: distinct column names, full rows. */
  predicate WellFormed(t: Table) {
    NoDups(t.columns) && forall i :: 0 <= i < |t.rows| ==> |t.rows[i]| == |t.columns|
  }

  /** Position of the first column named `c`, or `|cols|` when there is none. */
  function Find(cols: seq<string>, c: string): (k: nat)
    ensures k <= |cols|
    ensures k < |cols| ==> cols[k] == c
    ensures forall j :: 0 <= j < k ==> cols[j] != c
  {
    if cols == [] then 0
    else if cols[0] == c then 0
    else 1 + Find(cols[1..], c)
  }

  lemma FindPresent(cols: seq<string>, c: string)
    ensures Find(cols, c) < |cols| <==> c in cols
  {
    if c in cols {
      var j :| 0 <= j < |cols| && cols[j] == c;
      assert Find(cols, c) <= j;
    }
  }

  // ----- the canonical schema (add_col_to_df) --------------------------------

  /** The seven canonical columns, in the order `add_col_to_df` visits them. */
  const CanonicalColumns: seq<string> :=
    ["name", "symptoms", "description", "treatments", "contagious", "chronic", "url"]

  lemma CanonicalNoDups()
    ensures NoDups(CanonicalColumns)
  {
  }

  lemma NoDupsPrefixExcludes<T>(s: seq<T>, k: nat)
    requires NoDups(s) && k < |s|
    ensures s[k] !in s[..k]
  {
  }

  /** The literal `add_col_to_df` fills a missing canonical column with:
      the empty string for text columns, a null for the two flags. */
  function DefaultOf(c: string): Value {
    if c == "contagious" || c == "chronic" then Null else Str("")
  }

  /** The canonical columns absent from `cols`, in canonical order. */
  function MissingFrom(canon: seq<string>, cols: seq<string>): (m: seq<string>)
    ensures forall c :: c in m <==> c in canon && c !in cols
  {
    if canon == [] then []
    else (if canon[0] in cols then [] else [canon[0]]) + MissingFrom(canon[1..], cols)
  }

  /** polars `df.with_columns(pl.lit(v).alias(c))` for a new column `c`: appended at
      the right, holding `v` in every row. */
  function WithColumn(t: Table, c: string, v: Value): (r: Table)
    ensures r.columns == t.columns + [c]
    ensures |r.rows| == |t.rows|
    ensures forall i :: 0 <= i < |t.rows| ==> r.rows[i] == t.rows[i] + [v]
  {
    Table(t.columns + [c], seq(|t.rows|, i requires 0 <= i < |t.rows| => t.rows[i] + [v]))
  }

  /** Where a name is found once a column is appended. */
  lemma {:induction false} FindAppend(cols: seq<string>, x: string, d: string)
    ensures Find(cols + [x], d) == if d in cols then Find(cols, d) else if d == x then |cols| else |cols| + 1
    decreases |cols|
  {
    if cols != [] {
      assert (cols + [x])[1..] == cols[1..] + [x];
      assert d in cols <==> d == cols[0] || d in cols[1..];
      FindAppend(cols[1..], x, d);
    }
  }

  /** A new column lands after the old ones: it is found at the old width and holds
      `v` in every row, every old column is found where it was with its cells
      unchanged, and the table stays well formed. */
  lemma WithColumnSpec(t: Table, c: string, v: Value)
    requires WellFormed(t) && c !in t.columns
    ensures var r := WithColumn(t, c, v);
      && WellFormed(r)
      && Find(r.columns, c) == |t.columns|
      && (forall i :: 0 <= i < |r.rows| ==> r.rows[i][Find(r.columns, c)] == v)
      && (forall d :: d in t.columns ==> Find(r.columns, d) == Find(t.columns, d))
      && (forall d, i :: d in t.columns && 0 <= i < |t.rows| ==>
            r.rows[i][Find(r.columns, d)] == t.rows[i][Find(t.columns, d)])
  {
    var r := WithColumn(t, c, v);
    FindAppend(t.columns, c, c);
    forall d | d in t.columns ensures Find(r.columns, d) == Find(t.columns, d) < |t.columns| {
      FindAppend(t.columns, c, d);
      FindPresent(t.columns, d);
    }
    forall a, b | 0 <= a < b < |r.columns| ensures r.columns[a] != r.columns[b] {
      if b == |t.columns| {
        assert r.columns[a] == t.columns[a];
      }
    }
  }

  lemma {:induction false} MissingNoDups(canon: seq<string>, cols: seq<string>)
    requires NoDups(canon)
    ensures NoDups(MissingFrom(canon, cols))
    decreases |canon|
  {
    if canon != [] {
      assert NoDups(canon[1..]);
      MissingNoDups(canon[1..], cols);
      assert canon[0] !in canon[1..];
    }
  }

  lemma {:induction false} MissingFromAppend(canon: seq<string>, c: string, cols: seq<string>)
    ensures MissingFrom(canon + [c], cols) == MissingFrom(canon, cols) + (if c in cols then [] else [c])
    decreases |canon|
  {
    if canon == [] {
      assert canon + [c] == [c];
    } else {
      var h, rest := canon[0], canon[1..];
      var hs := if h in cols then [] else [h];
      assert (canon + [c])[0] == h && (canon + [c])[1..] == rest + [c];
      assert MissingFrom(canon + [c], cols) == hs + MissingFrom(rest + [c], cols);
      MissingFromAppend(rest, c, cols);
      assert MissingFrom(canon, cols) == hs + MissingFrom(rest, cols);
      var tail := if c in cols then [] else [c];
      AppendAssoc(hs, MissingFrom(rest, cols), tail);
    }
  }

  /** Appending the missing names to a duplicate-free list keeps it duplicate-free. */
  lemma AppendMissingNoDups(canon: seq<string>, cols: seq<string>)
    requires NoDups(canon) && NoDups(cols)
    ensures NoDups(cols + MissingFrom(canon, cols))
  {
    var m := MissingFrom(canon, cols);
    MissingNoDups(canon, cols);
    forall i, j | 0 <= i < j < |cols + m| ensures (cols + m)[i] != (cols + m)[j] {
      if j >= |cols| && i < |cols| {
        assert (cols + m)[j] == m[j - |cols|];
        assert m[j - |cols|] in m;
        assert (cols + m)[i] == cols[i];
      } else if i >= |cols| {
        assert (cols + m)[i] == m[i - |cols|] && (cols + m)[j] == m[j - |cols|];
      }
    }
  }

  /** `r` keeps every column and cell of `df` and fills each column it adds with
      that column's default. */
  predicate Extends(df: Table, r: Table) {
    && WellFormed(df)
    && |r.rows| == |df.rows|
    && |df.columns| <= |r.columns|
    && (forall i :: 0 <= i < |r.rows| ==> |r.rows[i]| == |r.columns|)
    && (forall i, j :: 0 <= i < |df.rows| && 0 <= j < |df.columns| ==> r.rows[i][j] == df.rows[i][j])
    && (forall i, j :: 0 <= i < |df.rows| && |df.columns| <= j < |r.columns| ==>
          r.rows[i][j] == DefaultOf(r.columns[j]))
  }

  lemma CanonicalCovered(cols: seq<string>)
    ensures forall c :: c in CanonicalColumns ==> c in cols + MissingFrom(CanonicalColumns, cols)
  {
  }

  lemma ExtendsWithColumn(df: Table, r: Table, c: string)
    requires WellFormed(df) && Extends(df, r)
    ensures Extends(df, WithColumn(r, c, DefaultOf(c)))
  {
    var r' := WithColumn(r, c, DefaultOf(c));
    forall i, j | 0 <= i < |df.rows| && 0 <= j < |r'.columns| ensures
      j < |df.columns| ==> r'.rows[i][j] == df.rows[i][j]
    {
      assert r'.rows[i] == r.rows[i] + [DefaultOf(c)];
    }
    forall i, j | 0 <= i < |df.rows| && |df.columns| <= j < |r'.columns| ensures
      r'.rows[i][j] == DefaultOf(r'.columns[j])
    {
      assert r'.rows[i] == r.rows[i] + [DefaultOf(c)];
      assert r'.columns == r.columns + [c];
    }
  }

  /** One iteration of `add_col_to_df`'s loop keeps the loop invariant. */
  lemma AddColumnStep(df: Table, r: Table, done: seq<string>, c: string)
    requires WellFormed(df) && Extends(df, r) && c !in done
    requires r.columns == df.columns + MissingFrom(done, df.columns)
    ensures var r' := if c !in r.columns then WithColumn(r, c, DefaultOf(c)) else r;
      Extends(df, r') && r'.columns == df.columns + MissingFrom(done + [c], df.columns)
  {
    if c !in r.columns {
      ExtendsWithColumn(df, r, c);
      AddNewColumn(df.columns, done, c, r.columns);
    } else {
      AddPresentColumn(df, r, done, c);
    }
  }

  lemma AddNewColumn(cols: seq<string>, done: seq<string>, c: string, have: seq<string>)
    requires c !in done && c !in have
    requires have == cols + MissingFrom(done, cols)
    ensures have + [c] == cols + MissingFrom(done + [c], cols)
  {
    MissingFromAppend(done, c, cols);
    var m := MissingFrom(done, cols);
    assert c !in cols;
    assert MissingFrom(done + [c], cols) == m + [c];
    AppendAssoc(cols, m, [c]);
  }

  lemma AddPresentColumn(df: Table, r: Table, done: seq<string>, c: string)
    requires c !in done && c in r.columns
    requires r.columns == df.columns + MissingFrom(done, df.columns)
    ensures MissingFrom(done + [c], df.columns) == MissingFrom(done, df.columns)
  {
    MissingFromAppend(done, c, df.columns);
    var m := MissingFrom(done, df.columns);
    assert c !in m;
    assert c in df.columns;
  }

  /** `add_col_to_df`: every canonical column that the frame lacks is appended, in
      canonical order, filled with its default; existing columns and their cells
      are left exactly as they were. */
  method AddCanonicalColumns(df: Table) returns (r: Table)
    requires WellFormed(df)
    ensures WellFormed(r)
    ensures r.columns == df.columns + MissingFrom(CanonicalColumns, df.columns)
    ensures forall c :: c in CanonicalColumns ==> c in r.columns
    ensures |r.rows| == |df.rows|
    ensures forall i, j :: 0 <= i < |df.rows| && 0 <= j < |df.columns| ==> r.rows[i][j] == df.rows[i][j]
    ensures forall i, j :: 0 <= i < |df.rows| && |df.columns| <= j < |r.columns| ==>
              r.rows[i][j] == DefaultOf(r.columns[j])
  {
    CanonicalNoDups();
    r := df;
    var k := 0;
    while k < |CanonicalColumns|
      invariant 0 <= k <= |CanonicalColumns|
      invariant r.columns == df.columns + MissingFrom(CanonicalColumns[..k], df.columns)
      invariant Extends(df, r)
    {
      var c := CanonicalColumns[k];
      assert CanonicalColumns[..k + 1] == CanonicalColumns[..k] + [c];
      NoDupsPrefixExcludes(CanonicalColumns, k);
      AddColumnStep(df, r, CanonicalColumns[..k], c);
      if c !in r.columns {
        r := WithColumn(r, c, DefaultOf(c));
      }
      k := k + 1;
    }
    assert CanonicalColumns[..k] == CanonicalColumns;
    AppendMissingNoDups(CanonicalColumns, df.columns);
    CanonicalCovered(df.columns);
  }

  // ----- disease-name normalisation -----------------------------------------

  /** `strip`, lower-case, then every space replaced by `_`,
      for the whitespace set `p` of the library doing the stripping. */
  function NormalizeWith(s: string, p: char -> bool): string {
    ReplaceChar(Lower(Trim(s, p)), ' ', "_")
  }

  /** polars `str.strip_chars().str.to_lowercase().str.replace_all(' ', '_')`. */
  function NormalizeName(s: string): string { NormalizeWith(s, IsRustSpace) }

  /** Python `s.strip().lower().replace(' ', '_')`. */
  function PyNormalizeName(s: string): string { NormalizeWith(s, IsPySpace) }

  /** The name cell of a frame after the polars normalisation; nulls stay null. */
  function NormalizeCell(v: Value): Value {
    match v
    case Null => Null
    case Str(s) => Str(NormalizeName(s))
  }

  lemma SpacesToUnderscores(l: string, p: char -> bool)
    requires Trimmed(l, p) && IsLower(l) && p(' ') && !p('_')
    ensures ' ' !in ReplaceChar(l, ' ', "_")
    ensures IsLower(ReplaceChar(l, ' ', "_"))
    ensures Trimmed(ReplaceChar(l, ' ', "_"), p)
    ensures |ReplaceChar(l, ' ', "_")| == |l|
  {
    ReplaceCharAt(l, ' ', "_");
    ReplaceCharRemoves(l, ' ', "_");
    var n := ReplaceChar(l, ' ', "_");
    assert IsLower(n) by {
      forall i | 0 <= i < |n| ensures !('A' <= n[i] <= 'Z') {
        assert n[i] == if l[i] == ' ' then '_' else l[i];
      }
    }
    if n != [] {
      assert l[0] != ' ' && l[|l| - 1] != ' ';
      assert n[0] == l[0] && n[|n| - 1] == l[|l| - 1];
    }
  }

  /** A normalised name has no space, no upper-case letter, and nothing to strip. */
  lemma NormalizeShape(s: string, p: char -> bool)
    requires p == IsPySpace || p == IsRustSpace
    ensures ' ' !in NormalizeWith(s, p)
    ensures IsLower(NormalizeWith(s, p))
    ensures Trimmed(NormalizeWith(s, p), p)
    ensures |NormalizeWith(s, p)| == |Trim(s, p)|
  {
    var t := Trim(s, p);
    TrimSpec(s, p);
    LowerKeepsTrimmed(t, p);
    LowerIsLower(t);
    assert p(' ') && !p('_');
    SpacesToUnderscores(Lower(t), p);
  }

  /** Normalising twice is normalising once, for both libraries' whitespace sets. */
  lemma NormalizeIdempotent(s: string, p: char -> bool)
    requires p == IsPySpace || p == IsRustSpace
    ensures NormalizeWith(NormalizeWith(s, p), p) == NormalizeWith(s, p)
  {
    var n := NormalizeWith(s, p);
    NormalizeShape(s, p);
    TrimOfTrimmed(n, p);
    LowerOfLower(n);
    ReplaceCharAbsent(n, ' ', "_");
  }

  lemma NormalizeCellIdempotent(v: Value)
    ensures NormalizeCell(NormalizeCell(v)) == NormalizeCell(v)
  {
    if v.Str? {
      NormalizeIdempotent(v.s, IsRustSpace);
    }
  }

  /** The two normalisations agree unless the name starts or ends with one of the
      separators 0x1C to 0x1F, which only Python strips. */
  lemma NormalizeNamesAgree(s: string)
    requires forall i :: 0 <= i < |s| ==> !(28 <= s[i] as int <= 31)
    ensures PyNormalizeName(s) == NormalizeName(s)
  {
    PyStripIsPolarsStrip(s);
  }

  lemma NormalizeNamesDiffer()
    ensures PyNormalizeName("\U{1C}") == "" && NormalizeName("\U{1C}") == "\U{1C}"
  {
    StripsDifferOnSeparators();
    var x := "\U{1C}";
    assert PyNormalizeName(x) == ReplaceChar(Lower(PyStrip(x)), ' ', "_");
    assert NormalizeName(x) == ReplaceChar(Lower(PolarsStrip(x)), ' ', "_");
    assert Lower("") == "";
    assert IsLower(x);
    LowerOfLower(x);
    assert ReplaceChar(x, ' ', "_") == "\U{1C}" + ReplaceChar("", ' ', "_");
  }

  // ----- the `|` separator of the train source ------------------------------

  /** polars `str.replace_all(r'\|', ', ')` on the symptoms cell; nulls stay null. */
  function PipesToCommas(v: Value): Value {
    match v
    case Null => Null
    case Str(s) => Str(ReplaceChar(s, '|', ", "))
  }

  /** After the rewrite no `|` is left, and each `|` lengthened the text by one. */
  lemma PipesToCommasShape(s: string)
    ensures '|' !in ReplaceChar(s, '|', ", ")
    ensures |ReplaceChar(s, '|', ", ")| == |s| + CountChar(s, '|')
  {
    ReplaceCharRemoves(s, '|', ", ");
    ReplaceCharLength(s, '|', ", ");
  }

  /** When no symptom holds a comma, splitting the rewritten text on ", " gives
      back exactly the `|`-separated symptoms, in order. */
  lemma PipesToCommasRoundTrip(s: string)
    requires ',' !in s
    ensures SplitCommaSpace(ReplaceChar(s, '|', ", ")) == Split(s, '|')
  {
    var parts := Split(s, '|');
    ReplaceIsJoinSplit(s, '|', ", ");
    SplitPiecesFrom(s, '|');
    forall k | 0 <= k < |parts| ensures !HasCommaSpace(parts[k]) {
      forall i | 0 <= i < |parts[k]| ensures parts[k][i] != ',' {
        assert parts[k][i] in s;
      }
    }
    SplitJoinCommaSpace(parts);
  }

  /** Applying `f` to the cells of column `c`, when the frame has one; polars'
      `with_columns(expr.alias(c))` on an existing column. */
  function MapColumn(t: Table, c: string, f: Value -> Value): (r: Table)
    requires WellFormed(t)
    ensures WellFormed(r) && r.columns == t.columns && |r.rows| == |t.rows|
    ensures forall i, j :: 0 <= i < |t.rows| && 0 <= j < |t.columns| ==>
              r.rows[i][j] == if t.columns[j] == c then f(t.rows[i][j]) else t.rows[i][j]
  {
    Table(t.columns, seq(|t.rows|, i requires 0 <= i < |t.rows| =>
      seq(|t.columns|, j requires 0 <= j < |t.columns| =>
        if t.columns[j] == c then f(t.rows[i][j]) else t.rows[i][j])))
  }

  /** Normalising the name column a second time changes nothing. */
  lemma MapNameIdempotent(t: Table)
    requires WellFormed(t)
    ensures var once := MapColumn(t, "name", NormalizeCell);
      MapColumn(once, "name", NormalizeCell) == once
  {
    var once := MapColumn(t, "name", NormalizeCell);
    var twice := MapColumn(once, "name", NormalizeCell);
    forall i | 0 <= i < |t.rows| ensures twice.rows[i] == once.rows[i] {
      forall j | 0 <= j < |t.columns| ensures twice.rows[i][j] == once.rows[i][j] {
        NormalizeCellIdempotent(t.rows[i][j]);
      }
    }
  }
}
