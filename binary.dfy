/** The binary symptom-matrix converters: a header of symptom names and, per row, a
    disease followed by one 0/1 value per symptom, turned into the list of active
    symptom names. `simple_binary_converter.py` (two identical copies) reads the
    values as text and tests `int(value) == 1`; `convert_binary_symptoms.py` (two
    copies) reads them through pandas and tests `value == 1`. */
module Binary {
  import opened Text
  import opened Fields

  datatype Option<T> = None | Some(value: T)

  // ----- Python's int() on text ------------------------------------------------

  predicate IsDigit(c: char) { '0' <= c <= '9' }

  function DigitVal(c: char): nat {
    if IsDigit(c) then c as int - '0' as int else 0
  }

  /** Decimal digits, with single underscores allowed between two digits. */
  predicate DigitGroups(t: string) {
    && |t| >= 1 && IsDigit(t[0]) && IsDigit(t[|t| - 1])
    && (forall i :: 0 <= i < |t| ==> IsDigit(t[i]) || t[i] == '_')
    && (forall i :: 0 <= i < |t| - 1 ==> !(t[i] == '_' && t[i + 1] == '_'))
  }

  function DropUnderscores(t: string): (r: string)
    ensures |r| <= |t|
  {
    if t == [] then [] else (if t[0] == '_' then [] else [t[0]]) + DropUnderscores(t[1..])
  }

  /** The value of a string of decimal digits. */
  function DecValue(ds: string): nat
    decreases |ds|
  {
    if ds == [] then 0 else 10 * DecValue(ds[..|ds| - 1]) + DigitVal(ds[|ds| - 1])
  }

  /** `int(s)` for a string: surrounding whitespace ignored, an optional sign, then
      decimal digits in underscore-separated groups; anything else is a
      `ValueError`, here `None`. */
  function ParsePyInt(s: string): Option<int> {
    var t := PyStrip(s);
    var signed := t != [] && (t[0] == '+' || t[0] == '-');
    var body := if signed then t[1..] else t;
    if !DigitGroups(body) then None
    else
      var v: int := DecValue(DropUnderscores(body));
      if signed && t[0] == '-' then Some(-v) else Some(v)
  }

  /** The test of the simple converter: `int(value) == 1`, a value `int` rejects
      counting as inactive. */
  predicate IsOneText(v: string) {
    ParsePyInt(v) == Some(1)
  }

  /** Zeros, then one `1`. */
  predicate OneDigits(ds: string) {
    |ds| >= 1 && ds[|ds| - 1] == '1' && forall i :: 0 <= i < |ds| - 1 ==> ds[i] == '0'
  }

  lemma {:induction false} DecValueZero(ds: string)
    requires forall i :: 0 <= i < |ds| ==> IsDigit(ds[i])
    ensures DecValue(ds) == 0 <==> forall i :: 0 <= i < |ds| ==> ds[i] == '0'
    decreases |ds|
  {
    if ds != [] {
      var p := ds[..|ds| - 1];
      DecValueZero(p);
      assert forall i :: 0 <= i < |p| ==> p[i] == ds[i];
    }
  }

  lemma DecValueOne(ds: string)
    requires forall i :: 0 <= i < |ds| ==> IsDigit(ds[i])
    ensures DecValue(ds) == 1 <==> OneDigits(ds)
  {
    if ds != [] {
      var p := ds[..|ds| - 1];
      DecValueZero(p);
      assert forall i :: 0 <= i < |p| ==> p[i] == ds[i];
    }
  }

  lemma {:induction false} DropUnderscoresDigits(t: string)
    requires forall i :: 0 <= i < |t| ==> IsDigit(t[i]) || t[i] == '_'
    ensures forall i :: 0 <= i < |DropUnderscores(t)| ==> IsDigit(DropUnderscores(t)[i])
    decreases |t|
  {
    if t != [] {
      DropUnderscoresDigits(t[1..]);
    }
  }

  /** A value is active exactly when, once stripped, it is an optional `+` and digit
      groups whose digits are zeros followed by a single `1`: "1", " 01", "+0_1" are
      active; "1.0", "-1", "" and "one" are not. */
  lemma IsOneTextSpec(v: string)
    ensures IsOneText(v) <==>
      var t := PyStrip(v);
      var body := if t != [] && t[0] == '+' then t[1..] else t;
      DigitGroups(body) && OneDigits(DropUnderscores(body))
  {
    var t := PyStrip(v);
    var signed := t != [] && (t[0] == '+' || t[0] == '-');
    var body := if signed then t[1..] else t;
    if DigitGroups(body) {
      DropUnderscoresDigits(body);
      DecValueOne(DropUnderscores(body));
    }
    if t != [] && t[0] == '-' {
      assert !DigitGroups(t) by { assert !IsDigit(t[0]); }
    }
  }

  lemma NotOneExamples()
    ensures !IsOneText("1.0") && !IsOneText("") && !IsOneText("-1")
  {
    assert PyStrip("") == "";
    IsOneTextSpec("1.0");
    assert "1.0"[0] == '1' && "1.0"[1] == '.';
    assert PyStrip("1.0") == "1.0" by {
      assert !IsPySpace("1.0"[0]) && !IsPySpace("1.0"[2]);
      TrimOfTrimmed("1.0", IsPySpace);
    }
    assert !DigitGroups("1.0") by { assert !IsDigit("1.0"[1]); }
    IsOneTextSpec("-1");
    assert PyStrip("-1") == "-1" by {
      assert !IsPySpace("-1"[0]) && !IsPySpace("-1"[1]);
      TrimOfTrimmed("-1", IsPySpace);
    }
    assert !DigitGroups("-1") by { assert !IsDigit("-1"[0]); }
  }

  /** `str(n)`. */
  function DecString(n: nat): (s: string)
    ensures |s| >= 1 && forall i :: 0 <= i < |s| ==> IsDigit(s[i])
  {
    if n < 10 then [('0' as int + n) as char] else DecString(n / 10) + [('0' as int + n % 10) as char]
  }

  lemma {:induction false} DecStringValue(n: nat)
    ensures DecValue(DecString(n)) == n
    decreases n
  {
    if n >= 10 {
      DecStringValue(n / 10);
      var s := DecString(n);
      assert s[..|s| - 1] == DecString(n / 10);
    }
  }

  lemma {:induction false} DropUnderscoresNone(t: string)
    requires forall i :: 0 <= i < |t| ==> IsDigit(t[i])
    ensures DropUnderscores(t) == t
    decreases |t|
  {
    if t != [] {
      DropUnderscoresNone(t[1..]);
      assert [t[0]] + t[1..] == t;
    }
  }

  /** Digits alone are stripped already and form one digit group. */
  lemma DigitsAlone(s: string)
    requires |s| >= 1 && forall i :: 0 <= i < |s| ==> IsDigit(s[i])
    ensures PyStrip(s) == s && DigitGroups(s)
  {
    assert IsDigit(s[0]) && IsDigit(s[|s| - 1]);
    TrimOfTrimmed(s, IsPySpace);
  }

  /** A count written with `str` is read back by `int`. */
  lemma ParseDecString(n: nat)
    ensures ParsePyInt(DecString(n)) == Some(n)
  {
    var s := DecString(n);
    DigitsAlone(s);
    assert s[0] != '+' && s[0] != '-' by { assert IsDigit(s[0]); }
    DropUnderscoresNone(s);
    DecStringValue(n);
  }

  // ----- the active symptoms of one row ------------------------------------------

  /** The names whose paired value is on, in header order. A value is paired with
      the name at the same position; values beyond the names are passed over, as
      `zip` and the `IndexError` handler both do. */
  function ActiveNames<T>(names: seq<string>, values: seq<T>, on: T -> bool): (a: seq<string>)
    ensures |a| <= |values|
    decreases |values|
  {
    if values == [] then [] else
    var i := |values| - 1;
    var keep := if i < |names| && on(values[i]) then [names[i]] else [];
    ActiveNames(names, values[..i], on) + keep
  }

  /** The positions of the active names. */
  function ActivePositions<T>(names: seq<string>, values: seq<T>, on: T -> bool): (ps: seq<nat>)
    ensures |ps| <= |values|
    decreases |values|
  {
    if values == [] then [] else
    var i := |values| - 1;
    var keep := if i < |names| && on(values[i]) then [i] else [];
    ActivePositions(names, values[..i], on) + keep
  }

  /** The active names are the names at exactly those positions, below both
      lengths, whose value is on, each once and in increasing position. */
  lemma {:induction false} ActiveNamesSpec<T>(names: seq<string>, values: seq<T>, on: T -> bool)
    ensures |ActiveNames(names, values, on)| == |ActivePositions(names, values, on)|
    ensures forall k :: 0 <= k < |ActivePositions(names, values, on)| ==>
      ActivePositions(names, values, on)[k] < |names| && ActivePositions(names, values, on)[k] < |values| &&
      on(values[ActivePositions(names, values, on)[k]]) &&
      ActiveNames(names, values, on)[k] == names[ActivePositions(names, values, on)[k]]
    ensures forall k, l :: 0 <= k < l < |ActivePositions(names, values, on)| ==>
      ActivePositions(names, values, on)[k] < ActivePositions(names, values, on)[l]
    ensures forall i :: 0 <= i < |names| && 0 <= i < |values| && on(values[i]) ==>
      i in ActivePositions(names, values, on)
    decreases |values|
  {
    if values != [] {
      var vs := values[..|values| - 1];
      ActiveNamesSpec(names, vs, on);
      assert forall i :: 0 <= i < |vs| ==> vs[i] == values[i];
    }
  }

  /** Values beyond the names change nothing. */
  lemma {:induction false} ActiveNamesBeyond<T>(names: seq<string>, values: seq<T>, on: T -> bool, n: nat)
    requires |names| <= n <= |values|
    ensures ActiveNames(names, values[..n], on) == ActiveNames(names, values, on)
    decreases |values| - n
  {
    if n < |values| {
      ActiveNamesBeyond(names, values, on, n + 1);
      assert values[..n + 1][..n] == values[..n];
    } else {
      assert values[..n] == values;
    }
  }

  /** One more value: its name is kept when it is on and has a name. */
  lemma ActiveNamesSnoc<T>(names: seq<string>, values: seq<T>, on: T -> bool, i: nat)
    requires i < |values|
    ensures ActiveNames(names, values[..i + 1], on) ==
      ActiveNames(names, values[..i], on) + (if i < |names| && on(values[i]) then [names[i]] else [])
  {
    assert values[..i + 1][..i] == values[..i];
  }

  /** The inner loop of the simple converter: `enumerate(symptom_values)`,
      `int(value) == 1` tested under `try`. */
  method ActiveSymptomsText(symptomNames: seq<string>, symptomValues: seq<string>)
    returns (activeSymptoms: seq<string>)
    ensures activeSymptoms == ActiveNames(symptomNames, symptomValues, IsOneText)
  {
    activeSymptoms := [];
    var i := 0;
    while i < |symptomValues|
      invariant 0 <= i <= |symptomValues|
      invariant activeSymptoms == ActiveNames(symptomNames, symptomValues[..i], IsOneText)
    {
      var value := symptomValues[i];
      ActiveNamesSnoc(symptomNames, symptomValues, IsOneText, i);
      if IsOneText(value) && i < |symptomNames| {
        activeSymptoms := activeSymptoms + [symptomNames[i]];
      }
      i := i + 1;
    }
    assert symptomValues[..i] == symptomValues;
  }

  /** A pandas cell as `read_csv` types it: an integer, a string, or missing. */
  datatype Cell = Num(n: int) | Text(s: string) | Missing

  /** The test of the pandas converter: `value == 1`. */
  predicate EqualsOne(c: Cell) {
    c == Num(1)
  }

  /** The inner loop of the pandas converter: `zip(symptom_columns, symptom_values)`,
      `value == 1`. */
  method ActiveSymptomsFrame(symptomColumns: seq<string>, symptomValues: seq<Cell>)
    returns (activeSymptoms: seq<string>)
    ensures activeSymptoms == ActiveNames(symptomColumns, symptomValues, EqualsOne)
  {
    var n := if |symptomColumns| < |symptomValues| then |symptomColumns| else |symptomValues|;
    activeSymptoms := [];
    var i := 0;
    while i < n
      invariant 0 <= i <= n
      invariant activeSymptoms == ActiveNames(symptomColumns, symptomValues[..i], EqualsOne)
    {
      ActiveNamesSnoc(symptomColumns, symptomValues, EqualsOne, i);
      if symptomValues[i] == Num(1) {
        activeSymptoms := activeSymptoms + [symptomColumns[i]];
      }
      i := i + 1;
    }
    if n == |symptomValues| {
      assert symptomValues[..n] == symptomValues;
    } else {
      ActiveNamesBeyond(symptomColumns, symptomValues, EqualsOne, n);
    }
  }
}
