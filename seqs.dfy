/** Duplicate removal and sorting by a key, the two table operations whose output
    order polars leaves open (`unique()` keeps no order, `sort` is not stable).
    `Distinct` and `Sort` are one admissible choice; what every admissible output
    shares is stated by `NoDups`, `SortedBy` and the lemmas at the end. */
module Seqs {
  import opened Cells

  predicate NoDups<T(==)>(s: seq<T>) {
    forall i, j :: 0 <= i < j < |s| ==> s[i] != s[j]
  }

  /** Keep the first occurrence of every element. */
  function Distinct<T(==)>(s: seq<T>): (r: seq<T>)
    ensures NoDups(r)
    ensures forall i :: 0 <= i < |s| ==> s[i] in r
    ensures forall i :: 0 <= i < |r| ==> r[i] in s
    ensures |r| <= |s|
    decreases |s|
  {
    if s == [] then []
    else
      assert s == s[..|s| - 1] + [s[|s| - 1]];
      var d := Distinct(s[..|s| - 1]);
      if s[|s| - 1] in d then d else d + [s[|s| - 1]]
  }

  /** `Distinct` keeps exactly the elements of its input. */
  lemma DistinctMembers<T>(d: seq<T>)
    ensures forall x :: x in Distinct(d) <==> x in d
  {
    forall x ensures x in Distinct(d) <==> x in d {
      if x in d {
        var i :| 0 <= i < |d| && d[i] == x;
      }
    }
  }

  lemma {:induction false} DistinctOfNoDups<T>(s: seq<T>)
    requires NoDups(s)
    ensures Distinct(s) == s
    decreases |s|
  {
    if s != [] {
      var init := s[..|s| - 1];
      assert NoDups(init);
      DistinctOfNoDups(init);
      assert s[|s| - 1] !in init;
      assert s == init + [s[|s| - 1]];
    }
  }

  predicate SortedBy<T>(s: seq<T>, key: T -> Value) {
    forall i, j :: 0 <= i < j < |s| ==> ValueLe(key(s[i]), key(s[j]))
  }

  function Insert<T>(x: T, s: seq<T>, key: T -> Value): (r: seq<T>)
    ensures multiset(r) == multiset(s) + multiset{x}
    ensures |r| == |s| + 1
    decreases |s|
  {
    if s == [] then [x]
    else if ValueLe(key(x), key(s[0])) then [x] + s
    else
      assert s == [s[0]] + s[1..];
      [s[0]] + Insert(x, s[1..], key)
  }

  lemma {:induction false} InsertSorted<T>(x: T, s: seq<T>, key: T -> Value)
    requires SortedBy(s, key)
    ensures SortedBy(Insert(x, s, key), key)
    decreases |s|
  {
    if s == [] {
    } else if ValueLe(key(x), key(s[0])) {
      forall j | 0 <= j < |s| ensures ValueLe(key(x), key(s[j])) {
        if j > 0 {
          ValueLeTransitive(key(x), key(s[0]), key(s[j]));
        }
      }
    } else {
      ValueLeTotal(key(x), key(s[0]));
      var t := Insert(x, s[1..], key);
      InsertSorted(x, s[1..], key);
      forall j | 0 <= j < |t| ensures ValueLe(key(s[0]), key(t[j])) {
        assert t[j] in multiset(t);
        if t[j] != x {
          assert t[j] in multiset(s[1..]);
          var k :| 0 <= k < |s[1..]| && s[1..][k] == t[j];
          assert s[k + 1] == t[j];
        }
      }
      var r := [s[0]] + t;
      forall i, j | 0 <= i < j < |r| ensures ValueLe(key(r[i]), key(r[j])) {
        if i > 0 {
          assert r[i] == t[i - 1] && r[j] == t[j - 1];
        } else {
          assert r[j] == t[j - 1];
        }
      }
    }
  }

  lemma {:induction false} InsertNoDups<T>(x: T, s: seq<T>, key: T -> Value)
    requires NoDups(s) && x !in s
    ensures NoDups(Insert(x, s, key))
    decreases |s|
  {
    if s != [] && !ValueLe(key(x), key(s[0])) {
      var t := s[1..];
      assert NoDups(t) && x !in t;
      InsertNoDups(x, t, key);
      var it := Insert(x, t, key);
      assert s[0] !in t;
      assert s[0] !in multiset(it) by {
        assert multiset(it) == multiset(t) + multiset{x};
        assert s[0] != x;
        assert s[0] !in multiset(t);
      }
      assert s[0] !in it;
      var r := [s[0]] + it;
      forall i, j | 0 <= i < j < |r| ensures r[i] != r[j] {
        if i > 0 {
          assert r[i] == it[i - 1] && r[j] == it[j - 1];
        } else {
          assert r[j] in it;
        }
      }
    }
  }

  /** `sort` by a key: a sorted permutation of its input. */
  function Sort<T>(s: seq<T>, key: T -> Value): (r: seq<T>)
    ensures multiset(r) == multiset(s)
    ensures SortedBy(r, key)
    ensures |r| == |s|
    decreases |s|
  {
    if s == [] then []
    else
      assert s == [s[0]] + s[1..];
      var t := Sort(s[1..], key);
      InsertSorted(s[0], t, key);
      Insert(s[0], t, key)
  }

  lemma {:induction false} SortNoDups<T>(s: seq<T>, key: T -> Value)
    requires NoDups(s)
    ensures NoDups(Sort(s, key))
    decreases |s|
  {
    if s != [] {
      var t := s[1..];
      assert NoDups(t);
      SortNoDups(t, key);
      assert s[0] !in t;
      assert s[0] !in multiset(Sort(t, key));
      InsertNoDups(s[0], Sort(t, key), key);
    }
  }

  /** The keys of `s`, in order. */
  function Keys<T>(s: seq<T>, key: T -> Value): (r: seq<Value>)
  {
    if s == [] then [] else [key(s[0])] + Keys(s[1..], key)
  }

  lemma {:induction false} KeysAt<T>(s: seq<T>, key: T -> Value)
    ensures |Keys(s, key)| == |s|
    ensures forall i :: 0 <= i < |s| ==> Keys(s, key)[i] == key(s[i])
    decreases |s|
  {
    if s != [] {
      KeysAt(s[1..], key);
    }
  }

  lemma SortedByKeys<T>(s: seq<T>, key: T -> Value)
    requires SortedBy(s, key)
    ensures SortedValues(Keys(s, key))
  {
    KeysAt(s, key);
  }

  lemma {:induction false} KeysAppend<T>(x: seq<T>, y: seq<T>, key: T -> Value)
    ensures Keys(x + y, key) == Keys(x, key) + Keys(y, key)
    decreases |x|
  {
    if x == [] {
      assert x + y == y;
    } else {
      assert (x + y)[0] == x[0] && (x + y)[1..] == x[1..] + y;
      KeysAppend(x[1..], y, key);
    }
  }

  lemma MembersOfMultiset<T>(s: seq<T>)
    ensures forall x :: x in s <==> x in multiset(s)
  {
  }

  lemma RemoveAtMultiset<T>(b: seq<T>, k: nat)
    requires k < |b|
    ensures multiset(b) == multiset(b[..k] + b[k + 1..]) + multiset{b[k]}
  {
    assert b == b[..k] + [b[k]] + b[k + 1..];
    assert multiset(b) == multiset(b[..k]) + multiset{b[k]} + multiset(b[k + 1..]);
  }

  lemma KeysRemoveAt<T>(b: seq<T>, k: nat, key: T -> Value)
    requires k < |b|
    ensures multiset(Keys(b, key)) == multiset(Keys(b[..k] + b[k + 1..], key)) + multiset{key(b[k])}
  {
    var p, q := b[..k], b[k + 1..];
    var c := [b[k]] + q;
    assert b == p + c;
    KeysAppend(p, c, key);
    KeysAppend(p, q, key);
    assert c[0] == b[k] && c[1..] == q;
    assert Keys(c, key) == [key(b[k])] + Keys(q, key);
    assert multiset(Keys(c, key)) == multiset{key(b[k])} + multiset(Keys(q, key));
  }

  lemma PermutationRemove<T>(a: seq<T>, b: seq<T>, k: nat)
    requires multiset(a) == multiset(b) && a != [] && k < |b| && b[k] == a[0]
    ensures multiset(a[1..]) == multiset(b[..k] + b[k + 1..])
  {
    var a', b' := a[1..], b[..k] + b[k + 1..];
    RemoveAtMultiset(b, k);
    RemoveAtMultiset(a, 0);
    assert a[..0] + a[1..] == a';
    assert multiset(a') + multiset{a[0]} == multiset(b') + multiset{a[0]};
    forall x ensures multiset(a')[x] == multiset(b')[x] {
      assert (multiset(a') + multiset{a[0]})[x] == (multiset(b') + multiset{a[0]})[x];
    }
  }


  lemma {:induction false} KeysPermutation<T>(a: seq<T>, b: seq<T>, key: T -> Value)
    requires multiset(a) == multiset(b)
    ensures multiset(Keys(a, key)) == multiset(Keys(b, key))
    decreases |a|
  {
    if a == [] {
      assert |multiset(b)| == 0;
    } else {
      assert a[0] in multiset(b);
      var k :| 0 <= k < |b| && b[k] == a[0];
      PermutationRemove(a, b, k);
      KeysPermutation(a[1..], b[..k] + b[k + 1..], key);
      KeysRemoveAt(a, 0, key);
      assert a[..0] + a[1..] == a[1..];
      KeysRemoveAt(b, k, key);
    }
  }

  predicate SortedValues(s: seq<Value>) {
    forall i, j :: 0 <= i < j < |s| ==> ValueLe(s[i], s[j])
  }

  lemma SortedTail(a: seq<Value>)
    requires SortedValues(a) && a != []
    ensures SortedValues(a[1..])
  {
    forall i, j | 0 <= i < j < |a[1..]| ensures ValueLe(a[1..][i], a[1..][j]) {
      assert a[1..][i] == a[i + 1] && a[1..][j] == a[j + 1];
    }
  }

  /** The head of a sorted sequence is below every element of it. */
  lemma SortedHeadLeast(a: seq<Value>, x: Value)
    requires SortedValues(a) && x in a
    ensures ValueLe(a[0], x)
  {
    var i :| 0 <= i < |a| && a[i] == x;
    if i == 0 { ValueLeReflexive(x); }
  }

  lemma SortedHeadsEqual(a: seq<Value>, b: seq<Value>)
    requires SortedValues(a) && SortedValues(b)
    requires multiset(a) == multiset(b) && a != []
    ensures b != [] && a[0] == b[0]
  {
    assert a[0] in multiset(b);
    assert b[0] in multiset(a);
    SortedHeadLeast(a, b[0]);
    SortedHeadLeast(b, a[0]);
    ValueLeAntisymmetric(a[0], b[0]);
  }

  lemma TailsPermutation<T>(a: seq<T>, b: seq<T>)
    requires multiset(a) == multiset(b) && a != [] && b != [] && a[0] == b[0]
    ensures multiset(a[1..]) == multiset(b[1..])
  {
    PermutationRemove(a, b, 0);
    assert b[..0] + b[1..] == b[1..];
  }

  /** Two sorted sequences of values that are permutations of each other are equal. */
  lemma {:induction false} SortedPermutationEqual(a: seq<Value>, b: seq<Value>)
    requires SortedValues(a) && SortedValues(b)
    requires multiset(a) == multiset(b)
    ensures a == b
    decreases |a|
  {
    if a == [] {
      assert |multiset(b)| == 0;
    } else {
      SortedHeadsEqual(a, b);
      TailsPermutation(a, b);
      SortedTail(a);
      SortedTail(b);
      SortedPermutationEqual(a[1..], b[1..]);
      assert a == [a[0]] + a[1..] && b == [b[0]] + b[1..];
    }
  }

  lemma {:induction false} NoDupsMultiset<T>(s: seq<T>)
    requires NoDups(s)
    ensures multiset(s) == multiset(set x | x in s)
    decreases |s|
  {
    if s != [] {
      var t := s[1..];
      assert NoDups(t);
      NoDupsMultiset(t);
      assert s == [s[0]] + t;
      assert s[0] !in t;
      assert (set x | x in s) == (set x | x in t) + {s[0]};
    }
  }

  /** Any two duplicate-free sequences, sorted by `key`, holding the same elements,
      are permutations of each other and list the same keys in the same order:
      the order polars leaves open is only the order among equal keys. */
  lemma SortedDistinctDetermined<T>(a: seq<T>, b: seq<T>, key: T -> Value)
    requires NoDups(a) && NoDups(b)
    requires SortedBy(a, key) && SortedBy(b, key)
    requires forall x :: x in a <==> x in b
    ensures multiset(a) == multiset(b)
    ensures Keys(a, key) == Keys(b, key)
  {
    NoDupsMultiset(a);
    NoDupsMultiset(b);
    assert (set x | x in a) == (set x | x in b);
    KeysPermutation(a, b, key);
    SortedByKeys(a, key);
    SortedByKeys(b, key);
    SortedPermutationEqual(Keys(a, key), Keys(b, key));
  }

  // ----- dictionaries filled in a loop, later keys replacing earlier ones -----

  /** Position `i` is the last of the first `n` positions holding its key. */
  predicate LastWithKey<K(==)>(ks: seq<K>, n: nat, i: nat)
    requires i < n <= |ks|
  {
    forall j :: i < j < n ==> ks[j] != ks[i]
  }

  /** `m` is what `for i in range(n): m[ks[i]] = vs[i]` leaves in an empty dictionary. */
  ghost predicate Built<K(!new), V>(ks: seq<K>, vs: seq<V>, n: nat, m: map<K, V>)
    requires n <= |ks| == |vs|
  {
    && (forall k :: k in m <==> exists i :: 0 <= i < n && ks[i] == k)
    && (forall i :: 0 <= i < n && LastWithKey(ks, n, i) ==> ks[i] in m && m[ks[i]] == vs[i])
  }

  lemma BuiltStep<K(!new), V>(ks: seq<K>, vs: seq<V>, n: nat, m: map<K, V>)
    requires n < |ks| == |vs| && Built(ks, vs, n, m)
    ensures Built(ks, vs, n + 1, m[ks[n] := vs[n]])
  {
    var m' := m[ks[n] := vs[n]];
    forall k ensures k in m' <==> exists i :: 0 <= i < n + 1 && ks[i] == k {
      if k in m && k != ks[n] {
        var i :| 0 <= i < n && ks[i] == k;
      }
    }
    forall i | 0 <= i < n + 1 && LastWithKey(ks, n + 1, i) ensures ks[i] in m' && m'[ks[i]] == vs[i] {
      if i < n {
        assert LastWithKey(ks, n, i);
        assert ks[n] != ks[i];
      }
    }
  }

  /** The first `n` elements of `ys` are `f` of those of `xs`. */
  ghost predicate MapsTo<A, B>(xs: seq<A>, ys: seq<B>, f: A -> B, n: nat)
    requires n <= |xs| && n <= |ys|
  {
    forall i :: 0 <= i < n ==> ys[i] == f(xs[i])
  }

  lemma MapsToSnoc<A, B>(xs: seq<A>, ys: seq<B>, f: A -> B, y: B)
    requires |ys| < |xs| && MapsTo(xs, ys, f, |ys|) && y == f(xs[|ys|])
    ensures MapsTo(xs, ys + [y], f, |ys| + 1)
  {
  }

  /** Writing one more pair after the whole of `ks` is one more step of the loop. */
  lemma BuiltSnoc<K(!new), V>(ks: seq<K>, vs: seq<V>, m: map<K, V>, k: K, v: V)
    requires |ks| == |vs| && Built(ks, vs, |ks|, m)
    ensures Built(ks + [k], vs + [v], |ks| + 1, m[k := v])
  {
    var ks', vs' := ks + [k], vs + [v];
    var n := |ks|;
    assert forall i :: 0 <= i < n ==> ks'[i] == ks[i] && vs'[i] == vs[i];
    assert forall i :: 0 <= i < n ==> (LastWithKey(ks', n, i) <==> LastWithKey(ks, n, i));
    BuiltStep(ks', vs', n, m);
  }

  /** After the whole loop: the keys are those of `ks`, and each key maps to the
      value stored at its last position. */
  lemma BuiltAll<K(!new), V>(ks: seq<K>, vs: seq<V>, m: map<K, V>)
    requires |ks| == |vs| && Built(ks, vs, |ks|, m)
    ensures forall k :: k in m <==> k in ks
    ensures forall i :: 0 <= i < |ks| && LastWithKey(ks, |ks|, i) ==> ks[i] in m && m[ks[i]] == vs[i]
  {
    forall k | k in ks ensures k in m {
      var i :| 0 <= i < |ks| && ks[i] == k;
    }
  }

  /** The dictionary that `for i in range(len(ks)): d[ks[i]] = vs[i]` leaves, one
      write after another. */
  function Assign<K(!new), V>(ks: seq<K>, vs: seq<V>): map<K, V>
    requires |ks| == |vs|
    decreases |ks|
  {
    if ks == [] then map[] else Assign(ks[..|ks| - 1], vs[..|vs| - 1])[ks[|ks| - 1] := vs[|vs| - 1]]
  }

  lemma {:induction false} AssignBuilt<K(!new), V>(ks: seq<K>, vs: seq<V>)
    requires |ks| == |vs|
    ensures Built(ks, vs, |ks|, Assign(ks, vs))
    decreases |ks|
  {
    if ks != [] {
      var n := |ks| - 1;
      var ks0, vs0 := ks[..n], vs[..n];
      var m0 := Assign(ks0, vs0);
      assert ks0 + [ks[n]] == ks && vs0 + [vs[n]] == vs;
      assert Assign(ks, vs) == m0[ks[n] := vs[n]];
      AssignBuilt(ks0, vs0);
      BuiltSnoc(ks0, vs0, m0, ks[n], vs[n]);
    }
  }

  /** Filling a dictionary in order leaves exactly the keys written, each with the
      value of its last write. */
  lemma AssignSpec<K(!new), V>(ks: seq<K>, vs: seq<V>)
    requires |ks| == |vs|
    ensures forall k :: k in Assign(ks, vs) <==> k in ks
    ensures forall i :: 0 <= i < |ks| && LastWithKey(ks, |ks|, i) ==> Assign(ks, vs)[ks[i]] == vs[i]
  {
    AssignBuilt(ks, vs);
    BuiltAll(ks, vs, Assign(ks, vs));
  }

  lemma AppendAssoc<T>(a: seq<T>, b: seq<T>, c: seq<T>)
    ensures a + (b + c) == (a + b) + c
  {
  }
}
