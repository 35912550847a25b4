/** What the fold of `generate_jsons` guarantees: the symptom index keeps, per
    symptom, one entry per disease, created by the first row that named the
    disease with that symptom and listed in row order; later rows only fill empty
    fields of an entry; the disease index holds every disease with the flags of
    its first row and the union of its rows' symptoms, treatments and urls. */
module IndexFacts {
  import opened Cells
  import opened Text
  import opened Seqs
  import opened Fields
  import opened Index

  /** Some token of `ts` has key `k`. */
  predicate HasKey(ts: seq<string>, k: string) {
    exists i :: 0 <= i < |ts| && KeyOf(ts[i]) == k
  }

  /** None of the objects numbered `ids` is for disease `d`. */
  predicate NoEntry(ids: seq<nat>, objs: seq<InfoVal>, d: string)
    requires forall q :: 0 <= q < |ids| ==> ids[q] < |objs|
  {
    forall q :: 0 <= q < |ids| ==> objs[ids[q]].disease != d
  }

  /** `b` is `a` after backfills from row `r`: the fixed fields are the same, and each
      of the three others is unchanged or was empty and now holds the row's
      non-empty value. */
  predicate FilledFrom(a: InfoVal, b: InfoVal, r: RowVals) {
    && b.disease == a.disease && b.contagious == a.contagious && b.chronic == a.chronic
    && (b.text == a.text || (a.text == "" && r.description != "" && b.text == r.description))
    && (b.sourceUrl == a.sourceUrl || (a.sourceUrl == "" && r.sourceUrl != "" && b.sourceUrl == r.sourceUrl))
    && (b.treatment == a.treatment || (a.treatment == "" && r.treatments != "" && b.treatment == r.treatments))
  }

  ghost predicate AllFilledFrom(a: seq<InfoVal>, b: seq<InfoVal>, r: RowVals)
    requires |a| <= |b|
  {
    forall i :: 0 <= i < |a| ==> FilledFrom(a[i], b[i], r)
  }

  lemma TokenStepFills(s: State, n: nat, r: RowVals, symptom: string)
    requires Good(s) && n < |s.objs|
    ensures AllFilledFrom(s.objs, TokenStep(s, n, r, symptom).objs, r)
  {
  }

  lemma {:induction false} TokensStepFills(s: State, n: nat, r: RowVals, ts: seq<string>)
    requires Good(s) && n < |s.objs|
    ensures AllFilledFrom(s.objs, TokensStep(s, n, r, ts).objs, r)
    decreases |ts|
  {
    if ts != [] {
      var u := TokensStep(s, n, r, ts[..|ts| - 1]);
      TokensStepFills(s, n, r, ts[..|ts| - 1]);
      var t := TokenStep(u, n, r, ts[|ts| - 1]);
      TokenStepFills(u, n, r, ts[|ts| - 1]);
      forall i | 0 <= i < |s.objs| ensures FilledFrom(s.objs[i], t.objs[i], r) {
        assert FilledFrom(s.objs[i], u.objs[i], r);
        assert FilledFrom(u.objs[i], t.objs[i], r);
      }
    }
  }

  lemma HasKeySnoc(ts: seq<string>, k: string)
    requires ts != []
    ensures HasKey(ts, k) <==> HasKey(ts[..|ts| - 1], k) || KeyOf(ts[|ts| - 1]) == k
  {
    var ts' := ts[..|ts| - 1];
    if HasKey(ts, k) {
      var i :| 0 <= i < |ts| && KeyOf(ts[i]) == k;
      if i < |ts| - 1 {
        assert ts'[i] == ts[i];
      }
    }
    if HasKey(ts', k) {
      var i :| 0 <= i < |ts'| && KeyOf(ts'[i]) == k;
      assert ts[i] == ts'[i];
    }
  }

  /** One pass of the symptom loop, seen from key `k`. */
  lemma TokenStepSlots(s: State, n: nat, r: RowVals, symptom: string, k: string)
    requires Good(s) && n < |s.objs|
    ensures Slots(TokenStep(s, n, r, symptom), k) ==
      Slots(s, k) + (if KeyOf(symptom) == k && NoEntry(Slots(s, k), s.objs, r.disease) then [n] else [])
    ensures k in TokenStep(s, n, r, symptom).slots <==> k in s.slots || KeyOf(symptom) == k
  {
    var ids := Slots(s, KeyOf(symptom));
    var p := FindEntry(ids, s.objs, r.disease);
    assert p == |ids| <==> NoEntry(ids, s.objs, r.disease);
  }

  /** When the objects keep their diseases, so does the absence of an entry. */
  lemma NoEntrySame(ids: seq<nat>, a: seq<InfoVal>, b: seq<InfoVal>, d: string)
    requires |a| == |b| && forall i :: 0 <= i < |a| ==> a[i].disease == b[i].disease
    requires forall q :: 0 <= q < |ids| ==> ids[q] < |a|
    ensures NoEntry(ids, a, d) == NoEntry(ids, b, d)
  {
  }

  /** After the symptom loop of a row, the slots of `k` gained the row's object at the
      end exactly when some token has key `k` and no entry for the row's disease
      was there; the key is present when it was or when some token has it. */
  lemma {:induction false} TokensStepSlots(s: State, n: nat, r: RowVals, ts: seq<string>, k: string)
    requires Good(s) && n < |s.objs| && s.objs[n].disease == r.disease
    ensures Slots(TokensStep(s, n, r, ts), k) ==
      Slots(s, k) + (if HasKey(ts, k) && NoEntry(Slots(s, k), s.objs, r.disease) then [n] else [])
    ensures k in TokensStep(s, n, r, ts).slots <==> k in s.slots || HasKey(ts, k)
    decreases |ts|
  {
    if ts != [] {
      var ts' := ts[..|ts| - 1];
      var u := TokensStep(s, n, r, ts');
      TokensStepSlots(s, n, r, ts', k);
      TokensStepFills(s, n, r, ts');
      HasKeySnoc(ts, k);
      TokenStepSlots(u, n, r, ts[|ts| - 1], k);
      var ids := Slots(u, k);
      if HasKey(ts', k) && NoEntry(Slots(s, k), s.objs, r.disease) {
        assert ids[|ids| - 1] == n;
        assert FilledFrom(s.objs[n], u.objs[n], r);
        assert !NoEntry(ids, u.objs, r.disease);
      } else {
        assert ids == Slots(s, k);
        NoEntrySame(ids, s.objs, u.objs, r.disease);
      }
    }
  }

  // ----- the row loop ------------------------------------------------------------

  /** Row `id` is the first row naming its disease together with symptom key `k`. */
  predicate IsFirst(rs: seq<RowVals>, id: nat, k: string)
    requires id < |rs|
  {
    && HasKey(rs[id].symptoms, k)
    && forall j :: 0 <= j < id && rs[j].disease == rs[id].disease ==> !HasKey(rs[j].symptoms, k)
  }

  predicate Increasing(ids: seq<nat>) {
    forall p, q :: 0 <= p < q < |ids| ==> ids[p] < ids[q]
  }

  /** A row naming `d` with key `k` has a first such row at or before it. */
  lemma {:induction false} FirstOccurrence(rs: seq<RowVals>, j: nat, k: string)
    requires j < |rs| && HasKey(rs[j].symptoms, k)
    ensures exists j0 :: 0 <= j0 <= j && rs[j0].disease == rs[j].disease && IsFirst(rs, j0, k)
    decreases j
  {
    if !IsFirst(rs, j, k) {
      var j' :| 0 <= j' < j && rs[j'].disease == rs[j].disease && HasKey(rs[j'].symptoms, k);
      FirstOccurrence(rs, j', k);
    }
  }

  /** Each object keeps the disease and the flags of the row that made it. */
  ghost predicate ObjsOf(rs: seq<RowVals>, s: State)
    requires |s.objs| == |rs|
  {
    forall i :: 0 <= i < |rs| ==>
      s.objs[i].disease == rs[i].disease && s.objs[i].contagious == rs[i].contagious &&
      s.objs[i].chronic == rs[i].chronic
  }

  /** The keys of the symptom index are the keys of the rows' tokens. */
  ghost predicate KeysOf(rs: seq<RowVals>, s: State) {
    forall k :: k in s.slots <==> AnyHasKey(rs, k)
  }

  /** Object `id` is stored under `k` exactly when its row is the first to name its
      disease with symptom `k`. */
  ghost predicate FirstRows(rs: seq<RowVals>, s: State) {
    forall k, id: nat :: id in Slots(s, k) <==> id < |rs| && IsFirst(rs, id, k)
  }

  /** Under each key the objects are in row order. */
  ghost predicate Ordered(s: State) {
    forall k :: k in s.slots ==> Increasing(s.slots[k])
  }

  lemma {:induction false} RunObjs(rs: seq<RowVals>)
    ensures ObjsOf(rs, Run(rs))
    decreases |rs|
  {
    if rs != [] {
      var rs' := rs[..|rs| - 1];
      var r := rs[|rs| - 1];
      var n := |rs'|;
      RunObjs(rs');
      var s := Run(rs');
      var s1 := s.(objs := s.objs + [InfoOf(r)]);
      var t := Run(rs);
      assert t.objs == TokensStep(s1, n, r, r.symptoms).objs;
      TokensStepFills(s1, n, r, r.symptoms);
      forall i | 0 <= i < |rs|
        ensures t.objs[i].disease == rs[i].disease && t.objs[i].contagious == rs[i].contagious &&
                t.objs[i].chronic == rs[i].chronic
      {
        assert FilledFrom(s1.objs[i], t.objs[i], r);
        if i < n {
          assert rs[i] == rs'[i];
        }
      }
    }
  }

  /** Some row has a token with key `k`. */
  ghost predicate AnyHasKey(rs: seq<RowVals>, k: string) {
    exists i :: 0 <= i < |rs| && HasKey(rs[i].symptoms, k)
  }

  lemma AnyHasKeySnoc(rs: seq<RowVals>, k: string)
    requires rs != []
    ensures AnyHasKey(rs, k) <==> AnyHasKey(rs[..|rs| - 1], k) || HasKey(rs[|rs| - 1].symptoms, k)
  {
    var rs' := rs[..|rs| - 1];
    if AnyHasKey(rs, k) {
      var i :| 0 <= i < |rs| && HasKey(rs[i].symptoms, k);
      if i < |rs| - 1 {
        assert rs'[i] == rs[i];
      }
    }
    if AnyHasKey(rs', k) {
      var i :| 0 <= i < |rs'| && HasKey(rs'[i].symptoms, k);
      assert rs[i] == rs'[i];
    }
  }

  lemma {:induction false} RunKeys(rs: seq<RowVals>)
    ensures KeysOf(rs, Run(rs))
    decreases |rs|
  {
    if rs != [] {
      var rs' := rs[..|rs| - 1];
      var r := rs[|rs| - 1];
      var n := |rs'|;
      RunKeys(rs');
      var s := Run(rs');
      var s1 := s.(objs := s.objs + [InfoOf(r)]);
      RunObjs(rs');
      assert s1.objs[n].disease == r.disease;
      forall k ensures k in Run(rs).slots <==> AnyHasKey(rs, k) {
        TokensStepSlots(s1, n, r, r.symptoms, k);
        AnyHasKeySnoc(rs, k);
      }
    }
  }

  /** An earlier row determines whether row `id` is first, and a row is first for `k`
      after `rs'` exactly when it was so within `rs'`. */
  lemma IsFirstPrefix(rs: seq<RowVals>, id: nat, k: string)
    requires id < |rs| - 1
    ensures IsFirst(rs, id, k) == IsFirst(rs[..|rs| - 1], id, k)
  {
    var rs' := rs[..|rs| - 1];
    assert rs[id] == rs'[id];
    assert forall j :: 0 <= j < id ==> rs[j] == rs'[j];
  }

  /** No row names disease `d` together with symptom key `k`. */
  predicate NoRowWith(rs: seq<RowVals>, d: string, k: string) {
    forall j :: 0 <= j < |rs| && rs[j].disease == d ==> !HasKey(rs[j].symptoms, k)
  }

  /** A row naming `d` with key `k` leaves an entry for `d` under `k`. */
  lemma RowLeavesEntry(rs: seq<RowVals>, s: State, j: nat, k: string)
    requires |s.objs| == |rs| && Good(s) && ObjsOf(rs, s) && FirstRows(rs, s)
    requires j < |rs|
    ensures HasKey(rs[j].symptoms, k) ==> !NoEntry(Slots(s, k), s.objs, rs[j].disease)
  {
    if HasKey(rs[j].symptoms, k) {
      FirstOccurrence(rs, j, k);
      var j0 :| 0 <= j0 <= j && rs[j0].disease == rs[j].disease && IsFirst(rs, j0, k);
      assert j0 in Slots(s, k);
      var q :| 0 <= q < |Slots(s, k)| && Slots(s, k)[q] == j0;
      assert s.objs[Slots(s, k)[q]].disease == rs[j].disease;
    }
  }

  /** No entry for disease `d` under `k` means no row named `d` with `k`. */
  lemma NoEntryNoRow(rs: seq<RowVals>, s: State, d: string, k: string)
    requires |s.objs| == |rs| && Good(s) && ObjsOf(rs, s) && FirstRows(rs, s)
    ensures NoEntry(Slots(s, k), s.objs, d) <==> NoRowWith(rs, d, k)
  {
    var ids := Slots(s, k);
    if !NoEntry(ids, s.objs, d) {
      var q :| 0 <= q < |ids| && s.objs[ids[q]].disease == d;
      var id := ids[q];
      assert id in Slots(s, k);
      assert IsFirst(rs, id, k);
    }
    forall j | 0 <= j < |rs| && rs[j].disease == d
      ensures HasKey(rs[j].symptoms, k) ==> !NoEntry(ids, s.objs, d)
    {
      RowLeavesEntry(rs, s, j, k);
    }
  }

  lemma IsFirstLast(rs: seq<RowVals>, k: string)
    requires rs != []
    ensures IsFirst(rs, |rs| - 1, k) <==>
      HasKey(rs[|rs| - 1].symptoms, k) && NoRowWith(rs[..|rs| - 1], rs[|rs| - 1].disease, k)
  {
    assert forall j :: 0 <= j < |rs| - 1 ==> rs[j] == rs[..|rs| - 1][j];
  }

  /** The step of `RunFirst` for one key. */
  lemma RowFirst(rs: seq<RowVals>, k: string)
    requires rs != []
    requires ObjsOf(rs[..|rs| - 1], Run(rs[..|rs| - 1])) && FirstRows(rs[..|rs| - 1], Run(rs[..|rs| - 1]))
    requires Ordered(Run(rs[..|rs| - 1]))
    ensures forall id: nat :: id in Slots(Run(rs), k) <==> id < |rs| && IsFirst(rs, id, k)
    ensures k in Run(rs).slots ==> Increasing(Run(rs).slots[k])
  {
    var rs' := rs[..|rs| - 1];
    var r := rs[|rs| - 1];
    var n := |rs'|;
    var s := Run(rs');
    var s1 := s.(objs := s.objs + [InfoOf(r)]);
    TokensStepSlots(s1, n, r, r.symptoms, k);
    var ids := Slots(s, k);
    assert Slots(s1, k) == ids;
    NoEntrySame(ids, s.objs, s1.objs[..n], r.disease);
    assert NoEntry(ids, s1.objs, r.disease) == NoEntry(ids, s.objs, r.disease);
    NoEntryNoRow(rs', s, r.disease, k);
    IsFirstLast(rs, k);
    forall id: nat ensures id in Slots(Run(rs), k) <==> id < |rs| && IsFirst(rs, id, k) {
      if id < n {
        IsFirstPrefix(rs, id, k);
      }
    }
  }

  lemma {:induction false} RunFirst(rs: seq<RowVals>)
    ensures FirstRows(rs, Run(rs)) && Ordered(Run(rs))
    decreases |rs|
  {
    if rs != [] {
      RunFirst(rs[..|rs| - 1]);
      RunObjs(rs[..|rs| - 1]);
      forall k ensures (forall id: nat :: id in Slots(Run(rs), k) <==> id < |rs| && IsFirst(rs, id, k))
        && (k in Run(rs).slots ==> Increasing(Run(rs).slots[k]))
      {
        RowFirst(rs, k);
      }
    }
  }

  // ----- one entry per disease, and the shared objects ---------------------------

  /** No two of the objects numbered `ids` are for the same disease. */
  predicate OnePerDisease(ids: seq<nat>, objs: seq<InfoVal>)
    requires forall q :: 0 <= q < |ids| ==> ids[q] < |objs|
  {
    forall p, q :: 0 <= p < q < |ids| ==> objs[ids[p]].disease != objs[ids[q]].disease
  }

  ghost predicate AllOnePerDisease(s: State)
    requires Good(s)
  {
    forall k :: OnePerDisease(Slots(s, k), s.objs)
  }

  /** `list(symptom_dict[k].values())` never holds two entries for one disease: the
      dictionary is keyed by disease. */
  lemma RunOnePerDisease(rs: seq<RowVals>)
    ensures AllOnePerDisease(Run(rs))
  {
    var s := Run(rs);
    RunObjs(rs);
    RunFirst(rs);
    forall k, p, q | 0 <= p < q < |Slots(s, k)|
      ensures s.objs[Slots(s, k)[p]].disease != s.objs[Slots(s, k)[q]].disease
    {
      var ids := Slots(s, k);
      assert ids[p] in Slots(s, k) && ids[q] in Slots(s, k);
      assert IsFirst(rs, ids[p], k) && IsFirst(rs, ids[q], k);
      assert ids[p] < ids[q];
    }
  }

  /** One pass of the symptom loop touches object `i` exactly when `i` is the entry
      for the row's disease under the token's key, and then backfills it. */
  lemma TokenStepObj(u: State, n: nat, r: RowVals, t: string, i: nat)
    requires Good(u) && n < |u.objs| && i < |u.objs|
    requires OnePerDisease(Slots(u, KeyOf(t)), u.objs)
    ensures TokenStep(u, n, r, t).objs[i] ==
      if i in Slots(u, KeyOf(t)) && u.objs[i].disease == r.disease then Backfill(u.objs[i], r) else u.objs[i]
  {
    var ids := Slots(u, KeyOf(t));
    var p := FindEntry(ids, u.objs, r.disease);
    if i in ids && u.objs[i].disease == r.disease {
      var q :| 0 <= q < |ids| && ids[q] == i;
      assert p <= q;
      assert p < |ids| && u.objs[ids[p]].disease == u.objs[ids[q]].disease;
      assert p == q;
    }
  }

  /** The row's tokens reach object `i` through a key it is stored under. */
  ghost predicate Hits(s: State, r: RowVals, ts: seq<string>, i: nat)
    requires i < |s.objs|
  {
    s.objs[i].disease == r.disease && exists t :: 0 <= t < |ts| && i in Slots(s, KeyOf(ts[t]))
  }

  lemma HitsSnoc(s: State, r: RowVals, ts: seq<string>, i: nat)
    requires i < |s.objs| && ts != []
    ensures Hits(s, r, ts, i) <==>
      Hits(s, r, ts[..|ts| - 1], i) || (s.objs[i].disease == r.disease && i in Slots(s, KeyOf(ts[|ts| - 1])))
  {
    var ts' := ts[..|ts| - 1];
    if Hits(s, r, ts, i) {
      var t :| 0 <= t < |ts| && i in Slots(s, KeyOf(ts[t]));
      if t < |ts| - 1 {
        assert ts'[t] == ts[t];
      }
    }
    if Hits(s, r, ts', i) {
      var t :| 0 <= t < |ts'| && i in Slots(s, KeyOf(ts'[t]));
      assert ts[t] == ts'[t];
    }
  }

  /** Appending the row's object to the slots of a key keeps one entry per disease
      when no entry for its disease was there. */
  lemma OnePerDiseaseKept(s: State, u: State, n: nat, d: string, k: string, ts: seq<string>)
    requires Good(s) && Good(u) && |u.objs| == |s.objs| && n < |s.objs| && s.objs[n].disease == d
    requires forall i :: 0 <= i < |s.objs| ==> u.objs[i].disease == s.objs[i].disease
    requires OnePerDisease(Slots(s, k), s.objs)
    requires Slots(u, k) == Slots(s, k) + (if HasKey(ts, k) && NoEntry(Slots(s, k), s.objs, d) then [n] else [])
    ensures OnePerDisease(Slots(u, k), u.objs)
  {
  }

  /** The symptom loop of row `n` on an older object `i`: it is backfilled from the row
      when the row names its disease and a symptom it is stored under, and is
      unchanged otherwise. */
  lemma {:induction false} TokensStepObj(s: State, n: nat, r: RowVals, ts: seq<string>, i: nat)
    requires Good(s) && n < |s.objs| && i < n && s.objs[n].disease == r.disease
    requires AllOnePerDisease(s)
    requires forall k, q :: 0 <= q < |Slots(s, k)| ==> Slots(s, k)[q] < n
    ensures TokensStep(s, n, r, ts).objs[i] == if Hits(s, r, ts, i) then Backfill(s.objs[i], r) else s.objs[i]
    decreases |ts|
  {
    if ts != [] {
      var ts' := ts[..|ts| - 1];
      var t := ts[|ts| - 1];
      var k := KeyOf(t);
      TokensStepObj(s, n, r, ts', i);
      var u := TokensStep(s, n, r, ts');
      TokensStepFills(s, n, r, ts');
      TokensStepSlots(s, n, r, ts', k);
      assert forall j :: 0 <= j < |s.objs| ==> u.objs[j].disease == s.objs[j].disease by {
        forall j | 0 <= j < |s.objs| ensures u.objs[j].disease == s.objs[j].disease {
          assert FilledFrom(s.objs[j], u.objs[j], r);
        }
      }
      OnePerDiseaseKept(s, u, n, r.disease, k, ts');
      TokenStepObj(u, n, r, t, i);
      HitsSnoc(s, r, ts, i);
      assert i in Slots(u, k) <==> i in Slots(s, k);
    }
  }

  /** Row `j`, later than row `i`, reaches object `i`: it names the same disease and a
      symptom under which object `i` is stored. */
  ghost predicate Touches(rs: seq<RowVals>, i: nat, j: nat)
    requires i < j < |rs|
  {
    rs[j].disease == rs[i].disease &&
    exists t :: 0 <= t < |rs[j].symptoms| && IsFirst(rs, i, KeyOf(rs[j].symptoms[t]))
  }

  /** Object `i` after the rows before `m`: row `i`'s values, backfilled in row order
      from every later row that reaches it. */
  ghost function Backfilled(rs: seq<RowVals>, i: nat, m: nat): InfoVal
    requires i < m <= |rs|
    decreases m
  {
    if m == i + 1 then InfoOf(rs[i])
    else
      var v := Backfilled(rs, i, m - 1);
      if Touches(rs, i, m - 1) then Backfill(v, rs[m - 1]) else v
  }

  lemma {:induction false} BackfilledPrefix(rs: seq<RowVals>, i: nat, m: nat)
    requires i < m < |rs|
    ensures Backfilled(rs, i, m) == Backfilled(rs[..|rs| - 1], i, m)
    decreases m
  {
    if m > i + 1 {
      BackfilledPrefix(rs, i, m - 1);
      var rs' := rs[..|rs| - 1];
      assert rs[m - 1] == rs'[m - 1] && rs[i] == rs'[i];
      forall k ensures IsFirst(rs, i, k) == IsFirst(rs', i, k) {
        IsFirstPrefix(rs, i, k);
      }
    } else {
      assert rs[i] == rs[..|rs| - 1][i];
    }
  }

  /** Each object of the symptom index ends as its row's values backfilled from the
      later rows that reach it: an update through one key is what every other key
      holding the same object shows. */
  lemma {:induction false} RunBackfilled(rs: seq<RowVals>)
    ensures forall i :: 0 <= i < |rs| ==> Run(rs).objs[i] == Backfilled(rs, i, |rs|)
    decreases |rs|
  {
    if rs != [] {
      var rs' := rs[..|rs| - 1];
      RunBackfilled(rs');
      forall i | 0 <= i < |rs| ensures Run(rs).objs[i] == Backfilled(rs, i, |rs|) {
        if i < |rs'| {
          assert Run(rs').objs[i] == Backfilled(rs', i, |rs'|);
          OldBackfilled(rs, i);
        } else {
          NewUnfilled(rs);
        }
      }
    }
  }

  /** The step of `RunBackfilled` for an object of an earlier row. */
  lemma OldBackfilled(rs: seq<RowVals>, i: nat)
    requires i < |rs| - 1
    requires Run(rs[..|rs| - 1]).objs[i] == Backfilled(rs[..|rs| - 1], i, |rs| - 1)
    ensures Run(rs).objs[i] == Backfilled(rs, i, |rs|)
  {
    var rs' := rs[..|rs| - 1];
    var r := rs[|rs| - 1];
    var n := |rs'|;
    var s := Run(rs');
    var s1 := s.(objs := s.objs + [InfoOf(r)]);
    assert Run(rs).objs == TokensStep(s1, n, r, r.symptoms).objs;
    RunOnePerDisease(rs');
    RunObjs(rs');
    assert forall k :: Slots(s1, k) == Slots(s, k);
    assert AllOnePerDisease(s1) by {
      forall k ensures OnePerDisease(Slots(s1, k), s1.objs) {
        assert OnePerDisease(Slots(s, k), s.objs);
      }
    }
    TokensStepObj(s1, n, r, r.symptoms, i);
    BackfilledPrefix(rs, i, n);
    HitsTouches(rs, i);
  }

  /** The object of the last row holds that row's values: a backfill from its own row
      changes nothing. */
  lemma NewUnfilled(rs: seq<RowVals>)
    requires rs != []
    ensures Run(rs).objs[|rs| - 1] == InfoOf(rs[|rs| - 1])
  {
    var rs' := rs[..|rs| - 1];
    var r := rs[|rs| - 1];
    var n := |rs'|;
    var s := Run(rs');
    var s1 := s.(objs := s.objs + [InfoOf(r)]);
    assert Run(rs).objs == TokensStep(s1, n, r, r.symptoms).objs;
    TokensStepFills(s1, n, r, r.symptoms);
    assert FilledFrom(s1.objs[n], Run(rs).objs[n], r);
  }

  lemma HitsTouches(rs: seq<RowVals>, i: nat)
    requires i < |rs| - 1
    ensures Hits(Run(rs[..|rs| - 1]).(objs := Run(rs[..|rs| - 1]).objs + [InfoOf(rs[|rs| - 1])]),
                 rs[|rs| - 1], rs[|rs| - 1].symptoms, i) == Touches(rs, i, |rs| - 1)
  {
    var rs' := rs[..|rs| - 1];
    var r := rs[|rs| - 1];
    var s := Run(rs');
    var s1 := s.(objs := s.objs + [InfoOf(r)]);
    RunObjs(rs');
    RunFirst(rs');
    assert rs[i] == rs'[i];
    forall t | 0 <= t < |r.symptoms|
      ensures i in Slots(s1, KeyOf(r.symptoms[t])) <==> IsFirst(rs, i, KeyOf(r.symptoms[t]))
    {
      IsFirstPrefix(rs, i, KeyOf(r.symptoms[t]));
    }
  }

  // ----- the symptom index as a whole --------------------------------------------

  /** The rows that are first to name their disease with symptom key `k`, in order. */
  ghost function FirstIds(rs: seq<RowVals>, k: string): seq<nat> {
    if rs == [] then []
    else FirstIds(rs[..|rs| - 1], k) + (if IsFirst(rs, |rs| - 1, k) then [|rs| - 1] else [])
  }

  /** The numbers stored under `k` are the first rows for `k`, in row order. */
  lemma {:induction false} SlotsAreFirstIds(rs: seq<RowVals>, k: string)
    ensures Slots(Run(rs), k) == FirstIds(rs, k)
    decreases |rs|
  {
    if rs != [] {
      var rs' := rs[..|rs| - 1];
      var r := rs[|rs| - 1];
      var n := |rs'|;
      SlotsAreFirstIds(rs', k);
      var s := Run(rs');
      var s1 := s.(objs := s.objs + [InfoOf(r)]);
      RunObjs(rs');
      RunFirst(rs');
      assert Run(rs).slots == TokensStep(s1, n, r, r.symptoms).slots;
      TokensStepSlots(s1, n, r, r.symptoms, k);
      var ids := Slots(s, k);
      assert Slots(s1, k) == ids;
      NoEntrySame(ids, s.objs, s1.objs[..n], r.disease);
      assert NoEntry(ids, s1.objs, r.disease) == NoEntry(ids, s.objs, r.disease);
      NoEntryNoRow(rs', s, r.disease, k);
      IsFirstLast(rs, k);
    }
  }

  /** The entries the symptom index lists under `k`: the objects of the first rows
      for `k`, in row order, each with its backfills. */
  ghost function ExpectedEntries(rs: seq<RowVals>, k: string): seq<InfoVal>
    requires forall q :: 0 <= q < |FirstIds(rs, k)| ==> FirstIds(rs, k)[q] < |rs|
  {
    seq(|FirstIds(rs, k)|, q requires 0 <= q < |FirstIds(rs, k)| => Backfilled(rs, FirstIds(rs, k)[q], |rs|))
  }

  lemma {:induction false} FirstIdsBelow(rs: seq<RowVals>, k: string)
    ensures forall q :: 0 <= q < |FirstIds(rs, k)| ==> FirstIds(rs, k)[q] < |rs|
    decreases |rs|
  {
    if rs != [] {
      FirstIdsBelow(rs[..|rs| - 1], k);
    }
  }

  /** `symptom_search.json`: a key for every symptom of every row, and under it, in
      row order, one entry for each disease that some row names with the symptom,
      holding the first such row's values backfilled by the later rows that reach
      its object. */
  lemma SymptomSearchSpec(rs: seq<RowVals>, k: string)
    ensures k in SymptomSearch(Run(rs)) <==> AnyHasKey(rs, k)
    ensures forall q :: 0 <= q < |FirstIds(rs, k)| ==> FirstIds(rs, k)[q] < |rs|
    ensures k in SymptomSearch(Run(rs)) ==> SymptomSearch(Run(rs))[k] == ExpectedEntries(rs, k)
  {
    RunKeys(rs);
    SlotsAreFirstIds(rs, k);
    FirstIdsBelow(rs, k);
    RunBackfilled(rs);
    if k in SymptomSearch(Run(rs)) {
      EntriesExpected(rs, Run(rs).objs, k);
    }
  }

  lemma EntriesExpected(rs: seq<RowVals>, objs: seq<InfoVal>, k: string)
    requires |objs| == |rs| && forall i :: 0 <= i < |rs| ==> objs[i] == Backfilled(rs, i, |rs|)
    requires forall q :: 0 <= q < |FirstIds(rs, k)| ==> FirstIds(rs, k)[q] < |rs|
    ensures Entries(FirstIds(rs, k), objs) == ExpectedEntries(rs, k)
  {
  }
}
