/** Table cells as polars and DuckDB hold them once type inference is set aside:
    a missing value or a string. Strings compare by code point, as Python and
    polars compare them (polars compares UTF-8 bytes, which orders the same way);
    polars' `sort` puts nulls first. */
module Cells {

  datatype Value = Null | Str(s: string)

  /** Lexicographic order on strings by code point; a proper prefix comes first. */
  predicate StrLe(a: string, b: string)
    decreases |a|
  {
    if a == [] then true
    else if b == [] then false
    else if a[0] < b[0] then true
    else if a[0] > b[0] then false
    else StrLe(a[1..], b[1..])
  }

  /** The order used by `sort('name')`: nulls first, then strings by `StrLe`. */
  predicate ValueLe(x: Value, y: Value) {
    match (x, y)
    case (Null, _) => true
    case (Str(_), Null) => false
    case (Str(a), Str(b)) => StrLe(a, b)
  }

  lemma {:induction false} StrLeReflexive(a: string)
    ensures StrLe(a, a)
    decreases |a|
  {
    if a != [] {
      StrLeReflexive(a[1..]);
    }
  }

  lemma {:induction false} StrLeTotal(a: string, b: string)
    ensures StrLe(a, b) || StrLe(b, a)
    decreases |a|
  {
    if a != [] && b != [] && a[0] == b[0] {
      StrLeTotal(a[1..], b[1..]);
    }
  }

  lemma {:induction false} StrLeAntisymmetric(a: string, b: string)
    requires StrLe(a, b) && StrLe(b, a)
    ensures a == b
    decreases |a|
  {
    if a != [] {
      StrLeAntisymmetric(a[1..], b[1..]);
      assert a == [a[0]] + a[1..] && b == [b[0]] + b[1..];
    }
  }

  lemma {:induction false} StrLeTransitive(a: string, b: string, c: string)
    requires StrLe(a, b) && StrLe(b, c)
    ensures StrLe(a, c)
    decreases |a|
  {
    if a != [] && b != [] && c != [] && a[0] == b[0] && b[0] == c[0] {
      StrLeTransitive(a[1..], b[1..], c[1..]);
    }
  }

  lemma ValueLeReflexive(x: Value)
    ensures ValueLe(x, x)
  {
    if x.Str? {
      StrLeReflexive(x.s);
    }
  }

  lemma ValueLeTotal(x: Value, y: Value)
    ensures ValueLe(x, y) || ValueLe(y, x)
  {
    if x.Str? && y.Str? {
      StrLeTotal(x.s, y.s);
    }
  }

  lemma ValueLeAntisymmetric(x: Value, y: Value)
    requires ValueLe(x, y) && ValueLe(y, x)
    ensures x == y
  {
    if x.Str? && y.Str? {
      StrLeAntisymmetric(x.s, y.s);
    }
  }

  lemma ValueLeTransitive(x: Value, y: Value, z: Value)
    requires ValueLe(x, y) && ValueLe(y, z)
    ensures ValueLe(x, z)
  {
    if x.Str? && y.Str? && z.Str? {
      StrLeTransitive(x.s, y.s, z.s);
    }
  }
}
