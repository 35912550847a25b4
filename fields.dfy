/** The field readers of `convert_to_json.py`: `convert_to_bool`, `clean_and_strip`,
    the symptom list of a row, and the whole row as `generate_jsons` reads it from
    `csv.DictReader`. */
module Fields {
  import opened Text

  /** A row of `csv.DictReader`: header name to field text. */
  type CsvRow = map<string, string>

  /** `row.get(k, d)`. */
  function GetOr(row: CsvRow, k: string, d: string): string {
    if k in row then row[k] else d
  }

  /** `convert_to_bool`: the stripped, lower-cased text is one of four spellings. */
  function ToBool(s: string): bool {
    Lower(PyStrip(s)) in ["1", "1.0", "true", "yes"]
  }

  /** `convert_to_bool` without lower-casing: the stripped text spells one of the
      four words in any mix of cases; nothing else, the empty text included, is true. */
  lemma ToBoolSpec(s: string)
    ensures ToBool(s) <==>
      EqualIgnoringCase(PyStrip(s), "1") || EqualIgnoringCase(PyStrip(s), "1.0") ||
      EqualIgnoringCase(PyStrip(s), "true") || EqualIgnoringCase(PyStrip(s), "yes")
    ensures PyStrip(s) == "" ==> !ToBool(s)
  {
    var t := PyStrip(s);
    EqualIgnoringCaseIsLowerEqual(t, "1");
    EqualIgnoringCaseIsLowerEqual(t, "1.0");
    EqualIgnoringCaseIsLowerEqual(t, "true");
    EqualIgnoringCaseIsLowerEqual(t, "yes");
    LowerOfLower("1");
    LowerOfLower("1.0");
    LowerOfLower("true");
    LowerOfLower("yes");
  }

  /** `clean_and_strip`: whitespace stripped first, then double quotes. */
  function CleanAndStrip(s: string): string {
    StripQuotes(PyStrip(s))
  }

  /** The result neither starts nor ends with a double quote. */
  lemma CleanAndStripSpec(s: string)
    ensures Trimmed(CleanAndStrip(s), IsQuote)
  {
    TrimSpec(PyStrip(s), IsQuote);
  }

  /** `clean_and_strip` is not idempotent: whitespace inside the quotes survives
      the first call and is stripped by the second. */
  lemma CleanAndStripNotIdempotent()
    ensures CleanAndStrip("\" a\"") == " a"
    ensures CleanAndStrip(CleanAndStrip("\" a\"")) == "a"
  {
    var s := "\" a\"";
    assert !IsPySpace(s[0]) && !IsPySpace(s[|s| - 1]);
    TrimOfTrimmed(s, IsPySpace);
    var u := " a";
    assert TrimLeft(s, IsQuote) == TrimLeft(s[1..], IsQuote) && s[1..] == " a\"";
    assert TrimLeft(s[1..], IsQuote) == " a\"";
    assert TrimRight(" a\"", IsQuote) == TrimRight(" a\""[..2], IsQuote) && " a\""[..2] == u;
    assert TrimRight(u, IsQuote) == u;
    assert TrimLeft(u, IsPySpace) == TrimLeft(u[1..], IsPySpace) && u[1..] == "a";
    assert TrimLeft("a", IsPySpace) == "a" && TrimRight("a", IsPySpace) == "a";
    assert TrimLeft("a", IsQuote) == "a" && TrimRight("a", IsQuote) == "a";
  }

  /** `[s.strip() for s in pieces if s.strip()]`. */
  function StrippedNonEmpty(pieces: seq<string>): (r: seq<string>)
    ensures |r| <= |pieces|
  {
    if pieces == [] then []
    else (if PyStrip(pieces[0]) != "" then [PyStrip(pieces[0])] else []) + StrippedNonEmpty(pieces[1..])
  }

  /** The symptom list of a row: the symptoms field split on ",", each piece stripped,
      the empty ones dropped. */
  function Tokens(s: string): seq<string> {
    StrippedNonEmpty(Split(s, ','))
  }

  /** Every piece kept is non-empty and stripped. */
  lemma {:induction false} StrippedNonEmptySpec(pieces: seq<string>)
    ensures forall i :: 0 <= i < |StrippedNonEmpty(pieces)| ==>
      StrippedNonEmpty(pieces)[i] != "" && Trimmed(StrippedNonEmpty(pieces)[i], IsPySpace)
    decreases |pieces|
  {
    if pieces != [] {
      StrippedNonEmptySpec(pieces[1..]);
      TrimSpec(pieces[0], IsPySpace);
    }
  }

  /** A character property every piece has, every kept piece has. */
  lemma {:induction false} StrippedNonEmptyAllOf(pieces: seq<string>, q: char -> bool)
    requires forall k :: 0 <= k < |pieces| ==> AllOf(pieces[k], q)
    ensures forall i :: 0 <= i < |StrippedNonEmpty(pieces)| ==> AllOf(StrippedNonEmpty(pieces)[i], q)
    decreases |pieces|
  {
    if pieces != [] {
      StrippedNonEmptyAllOf(pieces[1..], q);
      TrimAllOf(pieces[0], IsPySpace, q);
    }
  }

  lemma TrimAllOf(s: string, p: char -> bool, q: char -> bool)
    requires AllOf(s, q)
    ensures AllOf(Trim(s, p), q)
  {
    var l := TrimLeft(s, p);
    TrimLeftSpec(s, p);
    TrimRightSpec(l, p);
    assert forall i :: 0 <= i < |l| ==> l[i] == s[|s| - |l| + i];
  }

  /** A character property of the whole string holds of every piece of a split. */
  lemma {:induction false} SplitAllOf(s: string, c: char, q: char -> bool)
    requires AllOf(s, q)
    ensures forall k :: 0 <= k < |Split(s, c)| ==> AllOf(Split(s, c)[k], q)
    decreases |s|
  {
    if s != [] {
      SplitAllOf(s[1..], c, q);
    }
  }

  predicate NotUpper(c: char) {
    !('A' <= c <= 'Z')
  }

  /** The characters a symptom token may be made of once the field is lower-cased. */
  predicate TokenChar(c: char) {
    c != ',' && NotUpper(c)
  }

  /** Every symptom token is non-empty and stripped, contains no comma, and is lower
      case when the field was; so `symptom.strip().lower()` gives the token back. */
  lemma TokensSpec(s: string)
    requires IsLower(s)
    ensures forall i :: 0 <= i < |Tokens(s)| ==>
      Tokens(s)[i] != "" && Trimmed(Tokens(s)[i], IsPySpace) && ',' !in Tokens(s)[i] &&
      IsLower(Tokens(s)[i]) && Lower(PyStrip(Tokens(s)[i])) == Tokens(s)[i]
  {
    var pieces := Split(s, ',');
    StrippedNonEmptySpec(pieces);
    SplitPiecesFree(s, ',');
    forall k | 0 <= k < |pieces| ensures AllOf(pieces[k], TokenChar) {
      SplitAllOf(s, ',', NotUpper);
    }
    StrippedNonEmptyAllOf(pieces, TokenChar);
    forall i | 0 <= i < |Tokens(s)|
      ensures ',' !in Tokens(s)[i] && IsLower(Tokens(s)[i]) && Lower(PyStrip(Tokens(s)[i])) == Tokens(s)[i]
    {
      var t := Tokens(s)[i];
      assert AllOf(t, TokenChar);
      TrimOfTrimmed(t, IsPySpace);
      LowerOfLower(t);
    }
  }

  /** Joining comma-free, stripped, non-empty names with "," and reading the symptom
      list back gives the names. */
  lemma {:induction false} TokensOfJoin(names: seq<string>)
    requires |names| >= 1
    requires forall i :: 0 <= i < |names| ==>
      names[i] != "" && Trimmed(names[i], IsPySpace) && ',' !in names[i]
    ensures Tokens(Join(names, ",")) == names
    decreases |names|
  {
    SplitJoin(names, ',');
    assert forall i :: 0 <= i < |names| ==> PyStrip(names[i]) == names[i] by {
      forall i | 0 <= i < |names| ensures PyStrip(names[i]) == names[i] {
        TrimOfTrimmed(names[i], IsPySpace);
      }
    }
    StrippedNonEmptyKeeps(names);
  }

  lemma {:induction false} StrippedNonEmptyKeeps(names: seq<string>)
    requires forall i :: 0 <= i < |names| ==> names[i] != "" && PyStrip(names[i]) == names[i]
    ensures StrippedNonEmpty(names) == names
    decreases |names|
  {
    if names != [] {
      StrippedNonEmptyKeeps(names[1..]);
      assert names == [names[0]] + names[1..];
    }
  }

  /** Splitting `Join(names, [c])` on `c` gives the names back when none holds `c`. */
  lemma {:induction false} SplitJoin(names: seq<string>, c: char)
    requires |names| >= 1
    requires forall i :: 0 <= i < |names| ==> c !in names[i]
    ensures Split(Join(names, [c]), c) == names
    decreases |names|
  {
    if |names| == 1 {
      SplitFree(names[0], c);
    } else {
      SplitJoin(names[1..], c);
      SplitCons(names[0], c, Join(names[1..], [c]));
      assert names == [names[0]] + names[1..];
    }
  }

  lemma {:induction false} SplitFree(n: string, c: char)
    requires c !in n
    ensures Split(n, c) == [n]
    decreases |n|
  {
    if n != [] {
      assert n[1..] == n[1..] && forall x :: x in n[1..] ==> x in n;
      SplitFree(n[1..], c);
      assert [n[0]] + n[1..] == n;
    }
  }

  lemma {:induction false} SplitCons(n: string, c: char, t: string)
    requires c !in n
    ensures Split(n + [c] + t, c) == [n] + Split(t, c)
    decreases |n|
  {
    var s := n + [c] + t;
    if n == [] {
      assert s == [c] + t && s[1..] == t;
    } else {
      assert s[0] == n[0] && s[1..] == n[1..] + [c] + t;
      assert forall x :: x in n[1..] ==> x in n;
      SplitCons(n[1..], c, t);
      assert [n[0]] + n[1..] == n;
    }
  }

  /** A row as `generate_jsons` reads it: name and symptoms cleaned and lower-cased,
      description, treatments and url cleaned, the two flags through
      `convert_to_bool`, and the symptom list. */
  datatype RowVals = RowVals(disease: string, description: string, treatments: string,
                             sourceUrl: string, contagious: bool, chronic: bool,
                             symptoms: seq<string>)

  function RowOf(row: CsvRow): RowVals {
    RowVals(
      Lower(CleanAndStrip(GetOr(row, "name", ""))),
      CleanAndStrip(GetOr(row, "description", "")),
      CleanAndStrip(GetOr(row, "treatments", "")),
      CleanAndStrip(GetOr(row, "url", "")),
      ToBool(GetOr(row, "contagious", "0")),
      ToBool(GetOr(row, "chronic", "0")),
      Tokens(Lower(CleanAndStrip(GetOr(row, "symptoms", "")))))
  }

  /** The symptom tokens of a row are non-empty, stripped, lower case and comma
      free, and each is its own dictionary key. */
  lemma RowTokens(row: CsvRow)
    ensures forall i :: 0 <= i < |RowOf(row).symptoms| ==>
      RowOf(row).symptoms[i] != "" && Trimmed(RowOf(row).symptoms[i], IsPySpace) &&
      ',' !in RowOf(row).symptoms[i] && IsLower(RowOf(row).symptoms[i]) &&
      Lower(PyStrip(RowOf(row).symptoms[i])) == RowOf(row).symptoms[i]
  {
    var s := Lower(CleanAndStrip(GetOr(row, "symptoms", "")));
    LowerIsLower(CleanAndStrip(GetOr(row, "symptoms", "")));
    TokensSpec(s);
  }
}
