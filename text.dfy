/** Character and string operations that the pipeline borrows from Python's
    `str` and from polars' string namespace, written out over `seq<char>`. */
module Text {

  /** Python's `str.isspace()`: the characters `str.strip()` removes. */
  predicate IsPySpace(c: char) {
    var n := c as int;
    (9 <= n <= 13) || (28 <= n <= 32) || n == 0x85 || n == 0xA0 || n == 0x1680
    || (0x2000 <= n <= 0x200A) || n == 0x2028 || n == 0x2029 || n == 0x202F
    || n == 0x205F || n == 0x3000
  }

  /** Rust's `char::is_whitespace`: the characters polars' `str.strip_chars()` removes.
      It differs from Python's set only in leaving the separators 0x1C to 0x1F alone. */
  predicate IsRustSpace(c: char) {
    var n := c as int;
    (9 <= n <= 13) || n == 32 || n == 0x85 || n == 0xA0 || n == 0x1680
    || (0x2000 <= n <= 0x200A) || n == 0x2028 || n == 0x2029 || n == 0x202F
    || n == 0x205F || n == 0x3000
  }

  predicate IsQuote(c: char) { c == '"' }

  predicate AllOf(s: string, p: char -> bool) {
    forall i :: 0 <= i < |s| ==> p(s[i])
  }

  /** Neither end of `s` is a character in `p`. */
  predicate Trimmed(s: string, p: char -> bool) {
    s == [] || (!p(s[0]) && !p(s[|s| - 1]))
  }

  function TrimLeft(s: string, p: char -> bool): (r: string)
    ensures |r| <= |s|
  {
    if s != [] && p(s[0]) then TrimLeft(s[1..], p) else s
  }

  function TrimRight(s: string, p: char -> bool): (r: string)
    ensures |r| <= |s|
  {
    if s != [] && p(s[|s| - 1]) then TrimRight(s[..|s| - 1], p) else s
  }

  /** A text is all `p` exactly when both of its parts are. */
  lemma AllOfAppend(x: string, y: string, p: char -> bool)
    ensures AllOf(x + y, p) <==> AllOf(x, p) && AllOf(y, p)
  {
    if AllOf(x + y, p) {
      forall i | 0 <= i < |x| ensures p(x[i]) {
        assert (x + y)[i] == x[i];
      }
      forall i | 0 <= i < |y| ensures p(y[i]) {
        assert (x + y)[|x| + i] == y[i];
      }
    }
  }

  /** `TrimLeft` drops a prefix of characters in `p` and stops at one outside `p`. */
  lemma {:induction false} TrimLeftSpec(s: string, p: char -> bool)
    ensures TrimLeft(s, p) == s[|s| - |TrimLeft(s, p)|..]
    ensures TrimLeft(s, p) == [] || !p(TrimLeft(s, p)[0])
    ensures AllOf(s[..|s| - |TrimLeft(s, p)|], p)
    decreases |s|
  {
    if s != [] && p(s[0]) {
      var t := s[1..];
      TrimLeftSpec(t, p);
      var r := TrimLeft(t, p);
      var k := |s| - |r|;
      assert t[k - 1..] == s[k..];
      assert s[..k] == [s[0]] + t[..k - 1];
      AllOfAppend([s[0]], t[..k - 1], p);
    }
  }

  /** `TrimRight` drops a suffix of characters in `p` and stops at one outside `p`. */
  lemma {:induction false} TrimRightSpec(s: string, p: char -> bool)
    ensures TrimRight(s, p) == s[..|TrimRight(s, p)|]
    ensures TrimRight(s, p) == [] || !p(TrimRight(s, p)[|TrimRight(s, p)| - 1])
    ensures AllOf(s[|TrimRight(s, p)|..], p)
    decreases |s|
  {
    if s != [] && p(s[|s| - 1]) {
      var u := s[..|s| - 1];
      TrimRightSpec(u, p);
      var r := TrimRight(u, p);
      assert u[..|r|] == s[..|r|];
      assert s[|r|..] == u[|r|..] + [s[|s| - 1]];
      AllOfAppend(u[|r|..], [s[|s| - 1]], p);
    }
  }

  /** `strip`: drop the longest prefix and suffix made of characters in `p`. */
  function Trim(s: string, p: char -> bool): string {
    TrimRight(TrimLeft(s, p), p)
  }

  /** Python `s.strip()`. */
  function PyStrip(s: string): string { Trim(s, IsPySpace) }

  /** polars `str.strip_chars()` with no argument. */
  function PolarsStrip(s: string): string { Trim(s, IsRustSpace) }

  /** Python `s.strip('"')`. */
  function StripQuotes(s: string): string { Trim(s, IsQuote) }

  lemma Glue(s: string, a: string, l: string, r: string, b: string)
    requires s == a + l && l == r + b
    ensures s == a + r + b
  {
  }

  /** `Trim` cuts `s` into a prefix in `p`, the result, and a suffix in `p`. */
  lemma TrimSplit(s: string, p: char -> bool)
    ensures var l := TrimLeft(s, p); var r := TrimRight(l, p);
      s == s[..|s| - |l|] + r + l[|r|..] && AllOf(s[..|s| - |l|], p) && AllOf(l[|r|..], p)
  {
    var l := TrimLeft(s, p);
    var r := TrimRight(l, p);
    TrimLeftSpec(s, p);
    TrimRightSpec(l, p);
    var k := |s| - |l|;
    assert s == s[..k] + s[k..];
    assert l == l[..|r|] + l[|r|..];
    Glue(s, s[..k], l, r, l[|r|..]);
  }

  /** Neither end of `Trim`'s result is in `p`. */
  lemma TrimEnds(s: string, p: char -> bool)
    ensures Trimmed(Trim(s, p), p)
  {
    var l := TrimLeft(s, p);
    var r := TrimRight(l, p);
    TrimLeftSpec(s, p);
    TrimRightSpec(l, p);
    if r != [] {
      assert r[0] == l[0];
    }
  }

  /** What `Trim` does, stated without its recursion: the result is the middle of `s`,
      everything cut off is in `p`, and the result starts and ends outside `p`. */
  lemma TrimSpec(s: string, p: char -> bool)
    ensures exists a, b :: s == a + Trim(s, p) + b && AllOf(a, p) && AllOf(b, p)
    ensures Trimmed(Trim(s, p), p)
  {
    TrimSplit(s, p);
    TrimEnds(s, p);
    var l := TrimLeft(s, p);
    var r := TrimRight(l, p);
    assert r == Trim(s, p);
    var a, b := s[..|s| - |l|], l[|r|..];
    assert s == a + Trim(s, p) + b && AllOf(a, p) && AllOf(b, p);
  }


  lemma {:induction false} TrimLeftOfTrimmed(s: string, p: char -> bool)
    requires s == [] || !p(s[0])
    ensures TrimLeft(s, p) == s
  {
  }

  lemma {:induction false} TrimRightOfTrimmed(s: string, p: char -> bool)
    requires s == [] || !p(s[|s| - 1])
    ensures TrimRight(s, p) == s
  {
  }

  /** Stripping a string that is already stripped changes nothing. */
  lemma TrimOfTrimmed(s: string, p: char -> bool)
    requires Trimmed(s, p)
    ensures Trim(s, p) == s
  {
    TrimLeftOfTrimmed(s, p);
    TrimRightOfTrimmed(s, p);
  }

  /** `strip` is idempotent. */
  lemma TrimIdempotent(s: string, p: char -> bool)
    ensures Trim(Trim(s, p), p) == Trim(s, p)
  {
    TrimSpec(s, p);
    TrimOfTrimmed(Trim(s, p), p);
  }

  /** Trimming with two predicates that agree on every character of `s` gives the same result. */
  lemma {:induction false} TrimLeftAgree(s: string, p: char -> bool, q: char -> bool)
    requires forall i :: 0 <= i < |s| ==> p(s[i]) == q(s[i])
    ensures TrimLeft(s, p) == TrimLeft(s, q)
    decreases |s|
  {
    if s != [] && p(s[0]) {
      TrimLeftAgree(s[1..], p, q);
    }
  }

  lemma {:induction false} TrimRightAgree(s: string, p: char -> bool, q: char -> bool)
    requires forall i :: 0 <= i < |s| ==> p(s[i]) == q(s[i])
    ensures TrimRight(s, p) == TrimRight(s, q)
    decreases |s|
  {
    if s != [] && p(s[|s| - 1]) {
      TrimRightAgree(s[..|s| - 1], p, q);
    }
  }

  /** Python's `strip()` and polars' `strip_chars()` agree on every string that holds
      none of the four information separators 0x1C to 0x1F. */
  lemma PyStripIsPolarsStrip(s: string)
    requires forall i :: 0 <= i < |s| ==> !(28 <= s[i] as int <= 31)
    ensures PyStrip(s) == PolarsStrip(s)
  {
    TrimLeftAgree(s, IsPySpace, IsRustSpace);
    var l := TrimLeft(s, IsPySpace);
    TrimLeftSpec(s, IsPySpace);
    assert forall i :: 0 <= i < |l| ==> l[i] == s[|s| - |l| + i];
    TrimRightAgree(l, IsPySpace, IsRustSpace);
  }

  /** ... and they do differ: Python strips a leading 0x1C, polars keeps it. */
  lemma StripsDifferOnSeparators()
    ensures PyStrip("\U{1C}") == "" && PolarsStrip("\U{1C}") == "\U{1C}"
  {
  }

  // ----- ASCII case ----------------------------------------------------------

  function LowerChar(c: char): char {
    if 'A' <= c <= 'Z' then (c as int + 32) as char else c
  }

  /** Python `str.lower()` / polars `str.to_lowercase()`, restricted to ASCII letters. */
  function Lower(s: string): (r: string)
    ensures |r| == |s|
  {
    if s == [] then [] else [LowerChar(s[0])] + Lower(s[1..])
  }

  /** Lower-casing works character by character. */
  lemma {:induction false} LowerAt(s: string)
    ensures forall i :: 0 <= i < |s| ==> Lower(s)[i] == LowerChar(s[i])
    decreases |s|
  {
    if s != [] {
      LowerAt(s[1..]);
    }
  }

  predicate IsLower(s: string) {
    forall i :: 0 <= i < |s| ==> !('A' <= s[i] <= 'Z')
  }

  lemma LowerIsLower(s: string)
    ensures IsLower(Lower(s))
    ensures Lower(Lower(s)) == Lower(s)
  {
    LowerAt(s);
    LowerAt(Lower(s));
  }

  lemma LowerOfLower(s: string)
    requires IsLower(s)
    ensures Lower(s) == s
  {
    LowerAt(s);
  }

  /** Lower-casing leaves every whitespace character where it was and creates none. */
  lemma LowerKeepsSpace(s: string, p: char -> bool)
    requires p == IsPySpace || p == IsRustSpace || p == IsQuote
    ensures forall i :: 0 <= i < |s| ==> p(Lower(s)[i]) == p(s[i])
  {
    LowerAt(s);
  }

  lemma LowerKeepsTrimmed(s: string, p: char -> bool)
    requires p == IsPySpace || p == IsRustSpace || p == IsQuote
    requires Trimmed(s, p)
    ensures Trimmed(Lower(s), p)
  {
    LowerKeepsSpace(s, p);
  }

  /** Upper and lower case of the same letters compare equal. */
  predicate EqualIgnoringCase(a: string, b: string) {
    |a| == |b| && forall i :: 0 <= i < |a| ==> LowerChar(a[i]) == LowerChar(b[i])
  }

  lemma EqualIgnoringCaseIsLowerEqual(a: string, b: string)
    ensures EqualIgnoringCase(a, b) <==> Lower(a) == Lower(b)
  {
    LowerAt(a);
    LowerAt(b);
    if Lower(a) == Lower(b) {
      assert |a| == |b|;
      forall i | 0 <= i < |a| ensures LowerChar(a[i]) == LowerChar(b[i]) {
        assert Lower(a)[i] == Lower(b)[i];
      }
    }
  }

  // ----- replacing characters -----------------------------------------------

  /** Every occurrence of `c` in `s` replaced by `rep`, all other characters kept. */
  function ReplaceChar(s: string, c: char, rep: string): (r: string)
  {
    if s == [] then [] else (if s[0] == c then rep else [s[0]]) + ReplaceChar(s[1..], c, rep)
  }

  function CountChar(s: string, c: char): nat {
    if s == [] then 0 else (if s[0] == c then 1 else 0) + CountChar(s[1..], c)
  }

  lemma {:induction false} ReplaceCharAppend(a: string, b: string, c: char, rep: string)
    ensures ReplaceChar(a + b, c, rep) == ReplaceChar(a, c, rep) + ReplaceChar(b, c, rep)
    decreases |a|
  {
    if a != [] {
      assert (a + b)[0] == a[0] && (a + b)[1..] == a[1..] + b;
      ReplaceCharAppend(a[1..], b, c, rep);
      var h := if a[0] == c then rep else [a[0]];
      calc {
        ReplaceChar(a + b, c, rep);
        h + ReplaceChar(a[1..] + b, c, rep);
        h + (ReplaceChar(a[1..], c, rep) + ReplaceChar(b, c, rep));
        (h + ReplaceChar(a[1..], c, rep)) + ReplaceChar(b, c, rep);
      }
    } else {
      assert a + b == b;
    }
  }

  lemma {:induction false} CountCharAppend(a: string, b: string, c: char)
    ensures CountChar(a + b, c) == CountChar(a, c) + CountChar(b, c)
    decreases |a|
  {
    if a != [] {
      assert (a + b)[0] == a[0] && (a + b)[1..] == a[1..] + b;
      CountCharAppend(a[1..], b, c);
    } else {
      assert a + b == b;
    }
  }

  /** Each replaced character grows the string by `|rep| - 1`. */
  lemma {:induction false} ReplaceCharLength(s: string, c: char, rep: string)
    ensures |ReplaceChar(s, c, rep)| == |s| + CountChar(s, c) * (|rep| - 1)
    decreases |s|
  {
    if s != [] {
      ReplaceCharLength(s[1..], c, rep);
    }
  }

  /** No occurrence of `c` survives unless `rep` reintroduces it. */
  lemma {:induction false} ReplaceCharRemoves(s: string, c: char, rep: string)
    requires c !in rep
    ensures c !in ReplaceChar(s, c, rep)
    decreases |s|
  {
    if s != [] {
      ReplaceCharRemoves(s[1..], c, rep);
    }
  }

  /** A string without `c` is left as it is. */
  lemma {:induction false} ReplaceCharAbsent(s: string, c: char, rep: string)
    requires c !in s
    ensures ReplaceChar(s, c, rep) == s
    decreases |s|
  {
    if s != [] {
      assert s[0] in s;
      assert forall x :: x in s[1..] ==> x in s;
      ReplaceCharAbsent(s[1..], c, rep);
    }
  }

  /** With a one-character replacement the string keeps its length and changes pointwise. */
  lemma {:induction false} ReplaceCharAt(s: string, c: char, rep: string)
    requires |rep| == 1
    ensures |ReplaceChar(s, c, rep)| == |s|
    ensures forall i :: 0 <= i < |s| ==> ReplaceChar(s, c, rep)[i] == if s[i] == c then rep[0] else s[i]
    decreases |s|
  {
    if s != [] {
      ReplaceCharAt(s[1..], c, rep);
    }
  }

  // ----- splitting and joining ----------------------------------------------

  /** Python `s.split(sep)` for a one-character separator: never empty, keeps empty pieces. */
  function Split(s: string, sep: char): (parts: seq<string>)
    ensures |parts| >= 1
  {
    if s == [] then [""]
    else if s[0] == sep then [""] + Split(s[1..], sep)
    else var r := Split(s[1..], sep); [[s[0]] + r[0]] + r[1..]
  }

  /** Python `sep.join(parts)`. */
  function Join(parts: seq<string>, sep: string): (r: string)
  {
    if |parts| == 0 then ""
    else if |parts| == 1 then parts[0]
    else parts[0] + sep + Join(parts[1..], sep)
  }

  /** Splitting on `sep` and joining back with `sep` gives the original string. */
  lemma {:induction false} JoinSplit(s: string, sep: char)
    ensures Join(Split(s, sep), [sep]) == s
    decreases |s|
  {
    if s != [] {
      JoinSplit(s[1..], sep);
      if s[0] != sep {
        var r := Split(s[1..], sep);
        if |r| == 1 {
        } else {
          assert Join(r, [sep]) == r[0] + [sep] + Join(r[1..], [sep]);
          assert ([[s[0]] + r[0]] + r[1..])[1..] == r[1..];
        }
      }
    }
  }

  /** Replacing a character by `rep` is splitting on it and joining with `rep`. */
  lemma {:induction false} ReplaceIsJoinSplit(s: string, sep: char, rep: string)
    ensures ReplaceChar(s, sep, rep) == Join(Split(s, sep), rep)
    decreases |s|
  {
    if s != [] {
      ReplaceIsJoinSplit(s[1..], sep, rep);
      var r := Split(s[1..], sep);
      if s[0] == sep {
        assert Split(s, sep) == [""] + r;
        assert Join([""] + r, rep) == "" + rep + Join(r, rep);
      } else if |r| == 1 {
      } else {
        assert Join(r, rep) == r[0] + rep + Join(r[1..], rep);
        assert ([[s[0]] + r[0]] + r[1..])[1..] == r[1..];
      }
    }
  }

  /** Every character of every piece comes from the split string. */
  lemma {:induction false} SplitPiecesFrom(s: string, sep: char)
    ensures forall k, i :: 0 <= k < |Split(s, sep)| && 0 <= i < |Split(s, sep)[k]| ==> Split(s, sep)[k][i] in s
    decreases |s|
  {
    if s != [] {
      SplitPiecesFrom(s[1..], sep);
      assert forall x :: x in s[1..] ==> x in s;
    }
  }

  /** No piece contains the separator. */
  lemma {:induction false} SplitPiecesFree(s: string, sep: char)
    ensures forall k :: 0 <= k < |Split(s, sep)| ==> sep !in Split(s, sep)[k]
    decreases |s|
  {
    if s != [] {
      SplitPiecesFree(s[1..], sep);
    }
  }

  /** Python's documented count: `len(s.split(c)) == s.count(c) + 1`. */
  lemma {:induction false} SplitLength(s: string, sep: char)
    ensures |Split(s, sep)| == CountChar(s, sep) + 1
    decreases |s|
  {
    if s != [] {
      SplitLength(s[1..], sep);
    }
  }

  /** Python `s.split(", ")`: leftmost, non-overlapping occurrences of the two-character separator. */
  function SplitCommaSpace(s: string): (parts: seq<string>)
    ensures |parts| >= 1
  {
    if |s| >= 2 && s[0] == ',' && s[1] == ' ' then [""] + SplitCommaSpace(s[2..])
    else if s == [] then [""]
    else var r := SplitCommaSpace(s[1..]); [[s[0]] + r[0]] + r[1..]
  }

  predicate HasCommaSpace(s: string) {
    exists i :: 0 <= i < |s| - 1 && s[i] == ',' && s[i + 1] == ' '
  }

  lemma NoCommaSpaceTail(n: string)
    requires n != [] && !HasCommaSpace(n)
    ensures !HasCommaSpace(n[1..])
  {
    forall i | 0 <= i < |n[1..]| - 1 ensures !(n[1..][i] == ',' && n[1..][i + 1] == ' ') {
      assert n[1..][i] == n[i + 1] && n[1..][i + 1] == n[i + 2];
    }
  }

  lemma {:induction false} SplitCommaSpaceCons(n: string, t: string)
    requires !HasCommaSpace(n)
    ensures SplitCommaSpace(n + ", " + t) == [n] + SplitCommaSpace(t)
    decreases |n|
  {
    if n == [] {
      assert n + ", " + t == ", " + t;
      assert (", " + t)[2..] == t;
    } else {
      var s := n + ", " + t;
      assert s[1..] == n[1..] + ", " + t;
      NoCommaSpaceTail(n);
      SplitCommaSpaceCons(n[1..], t);
      assert [n[0]] + n[1..] == n;
      assert s[0] == n[0];
      if |n| == 1 {
        assert s[1] == ',';
      } else {
        assert s[1] == n[1];
        assert !(n[0] == ',' && n[1] == ' ');
      }
    }
  }

  /** Joining with ", " and splitting on ", " gives the names back when no name holds ", ". */
  lemma {:induction false} SplitJoinCommaSpace(names: seq<string>)
    requires |names| >= 1
    requires forall k :: 0 <= k < |names| ==> !HasCommaSpace(names[k])
    ensures SplitCommaSpace(Join(names, ", ")) == names
    decreases |names|
  {
    if |names| == 1 {
      SplitCommaSpaceSingle(names[0]);
    } else {
      SplitJoinCommaSpace(names[1..]);
      SplitCommaSpaceCons(names[0], Join(names[1..], ", "));
    }
  }

  lemma {:induction false} SplitCommaSpaceSingle(n: string)
    requires !HasCommaSpace(n)
    ensures SplitCommaSpace(n) == [n]
    decreases |n|
  {
    if n != [] {
      NoCommaSpaceTail(n);
      SplitCommaSpaceSingle(n[1..]);
      assert [n[0]] + n[1..] == n;
      assert |n| >= 2 ==> !(n[0] == ',' && n[1] == ' ');
    }
  }

  /** Python `s.startswith(p)`. */
  predicate StartsWith(s: string, p: string) {
    |p| <= |s| && s[..|p|] == p
  }

  /** All pieces glued together without separator. */
  function Concat(parts: seq<string>): string {
    if parts == [] then "" else parts[0] + Concat(parts[1..])
  }

  lemma {:induction false} ConcatAppend(a: seq<string>, b: seq<string>)
    ensures Concat(a + b) == Concat(a) + Concat(b)
    decreases |a|
  {
    if a != [] {
      assert (a + b)[0] == a[0] && (a + b)[1..] == a[1..] + b;
      ConcatAppend(a[1..], b);
      calc {
        Concat(a + b);
        a[0] + Concat(a[1..] + b);
        a[0] + (Concat(a[1..]) + Concat(b));
        (a[0] + Concat(a[1..])) + Concat(b);
      }
    } else {
      assert a + b == b;
    }
  }
}
