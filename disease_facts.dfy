/** What the row loop of `generate_jsons` puts in `disease_dict`, and what the
    finalisation makes of it: every disease named by a row, the flags of its first
    row, its rows' symptoms (sorted and without repeats once finalised) and the
    sets of their non-empty treatments and urls. */
module DiseaseFacts {
  import opened Cells
  import opened Seqs
  import opened Fields
  import opened Index

  /** The symptom lists of the rows naming `d`, concatenated in row order. */
  function SymptomsOf(rs: seq<RowVals>, d: string): seq<string> {
    if rs == [] then []
    else SymptomsOf(rs[..|rs| - 1], d) + (if rs[|rs| - 1].disease == d then rs[|rs| - 1].symptoms else [])
  }

  /** Some row naming `d` has symptom `x`. */
  ghost predicate HasSymptom(rs: seq<RowVals>, d: string, x: string) {
    exists i :: 0 <= i < |rs| && rs[i].disease == d && x in rs[i].symptoms
  }

  /** A symptom is listed for `d` exactly when some row naming `d` has it. */
  lemma {:induction false} SymptomsOfSpec(rs: seq<RowVals>, d: string)
    ensures forall x :: x in SymptomsOf(rs, d) <==>
      HasSymptom(rs, d, x)
    decreases |rs|
  {
    if rs != [] {
      var rs' := rs[..|rs| - 1];
      SymptomsOfSpec(rs', d);
      forall x ensures x in SymptomsOf(rs, d) <==>
        HasSymptom(rs, d, x)
      {
        if HasSymptom(rs, d, x) {
          var i :| 0 <= i < |rs| && rs[i].disease == d && x in rs[i].symptoms;
          if i < |rs'| {
            assert rs'[i] == rs[i];
          }
        }
        if x in SymptomsOf(rs', d) {
          assert HasSymptom(rs', d, x);
          var i :| 0 <= i < |rs'| && rs'[i].disease == d && x in rs'[i].symptoms;
          assert rs[i] == rs'[i];
        }
      }
    }
  }

  /** The non-empty treatments of the rows naming `d`. */
  ghost function TreatmentsOf(rs: seq<RowVals>, d: string): set<string> {
    set i | 0 <= i < |rs| && rs[i].disease == d && rs[i].treatments != "" :: rs[i].treatments
  }

  /** The non-empty urls of the rows naming `d`. */
  ghost function SourcesOf(rs: seq<RowVals>, d: string): set<string> {
    set i | 0 <= i < |rs| && rs[i].disease == d && rs[i].sourceUrl != "" :: rs[i].sourceUrl
  }

  /** Some row names `d`. */
  ghost predicate Named(rs: seq<RowVals>, d: string) {
    exists i :: 0 <= i < |rs| && rs[i].disease == d
  }

  lemma NamedSnoc(rs: seq<RowVals>, d: string)
    requires rs != []
    ensures Named(rs, d) <==> Named(rs[..|rs| - 1], d) || rs[|rs| - 1].disease == d
  {
    var rs' := rs[..|rs| - 1];
    if Named(rs', d) {
      var i :| 0 <= i < |rs'| && rs'[i].disease == d;
      assert rs[i] == rs'[i];
    }
    if Named(rs, d) {
      var i :| 0 <= i < |rs| && rs[i].disease == d;
      if i < |rs'| {
        assert rs'[i] == rs[i];
      }
    }
  }

  /** The entries of `disease_dict` are the diseases the rows name. */
  lemma {:induction false} RunDiseaseKeys(rs: seq<RowVals>)
    ensures forall d :: d in Run(rs).diseases <==> Named(rs, d)
    decreases |rs|
  {
    if rs != [] {
      RunDiseaseKeys(rs[..|rs| - 1]);
      assert Run(rs).diseases == AggStep(Run(rs[..|rs| - 1]).diseases, rs[|rs| - 1]);
      forall d ensures d in Run(rs).diseases <==> Named(rs, d) {
        NamedSnoc(rs, d);
      }
    }
  }

  lemma TreatmentsSnoc(rs: seq<RowVals>, d: string)
    requires rs != []
    ensures TreatmentsOf(rs, d) == TreatmentsOf(rs[..|rs| - 1], d) +
      (if rs[|rs| - 1].disease == d && rs[|rs| - 1].treatments != "" then {rs[|rs| - 1].treatments} else {})
    ensures SourcesOf(rs, d) == SourcesOf(rs[..|rs| - 1], d) +
      (if rs[|rs| - 1].disease == d && rs[|rs| - 1].sourceUrl != "" then {rs[|rs| - 1].sourceUrl} else {})
  {
    var rs' := rs[..|rs| - 1];
    assert forall i :: 0 <= i < |rs'| ==> rs'[i] == rs[i];
  }

  /** Nothing is gathered for a disease no row names. */
  lemma {:induction false} UnnamedEmpty(rs: seq<RowVals>, d: string)
    requires !Named(rs, d)
    ensures SymptomsOf(rs, d) == [] && TreatmentsOf(rs, d) == {} && SourcesOf(rs, d) == {}
    decreases |rs|
  {
    if rs != [] {
      NamedSnoc(rs, d);
      UnnamedEmpty(rs[..|rs| - 1], d);
      TreatmentsSnoc(rs, d);
    }
  }

  /** A `disease_dict` entry holds the symptoms of all rows naming the disease, in
      row order, and the sets of their non-empty treatments and urls. */
  lemma {:induction false} RunDiseaseFields(rs: seq<RowVals>, d: string)
    requires d in Run(rs).diseases
    ensures Run(rs).diseases[d].symptoms == SymptomsOf(rs, d)
    ensures Run(rs).diseases[d].treatments == TreatmentsOf(rs, d)
    ensures Run(rs).diseases[d].sources == SourcesOf(rs, d)
    decreases |rs|
  {
    var rs' := rs[..|rs| - 1];
    var r := rs[|rs| - 1];
    var ds := Run(rs').diseases;
    assert Run(rs).diseases == AggStep(ds, r);
    TreatmentsSnoc(rs, d);
    if d in ds {
      RunDiseaseFields(rs', d);
    } else {
      RunDiseaseKeys(rs');
      UnnamedEmpty(rs', d);
    }
  }

  /** Row `i` is the first to name its disease. */
  predicate FirstOfDisease(rs: seq<RowVals>, i: nat)
    requires i < |rs|
  {
    forall j :: 0 <= j < i ==> rs[j].disease != rs[i].disease
  }

  /** A `disease_dict` entry keeps the flags of the first row naming the disease. */
  lemma {:induction false} RunDiseaseFlags(rs: seq<RowVals>, i: nat)
    requires i < |rs| && FirstOfDisease(rs, i)
    ensures rs[i].disease in Run(rs).diseases
    ensures Run(rs).diseases[rs[i].disease].contagious == rs[i].contagious
    ensures Run(rs).diseases[rs[i].disease].chronic == rs[i].chronic
    decreases |rs|
  {
    var rs' := rs[..|rs| - 1];
    var r := rs[|rs| - 1];
    var ds := Run(rs').diseases;
    assert Run(rs).diseases == AggStep(ds, r);
    RunDiseaseKeys(rs');
    if i < |rs'| {
      assert rs'[i] == rs[i];
      assert FirstOfDisease(rs', i);
      RunDiseaseFlags(rs', i);
    } else {
      assert forall j :: 0 <= j < |rs'| ==> rs'[j].disease != r.disease;
      assert !Named(rs', r.disease);
    }
  }

  // ----- finalisation ----------------------------------------------------------

  /** `sorted(list(set(symptoms)))` holds each symptom of the entry once, in
      increasing order, and nothing else; and these three facts fix it. */
  lemma FinalizeSpec(a: Agg)
    ensures NoDups(Finalize(a).symptoms) && SortedBy(Finalize(a).symptoms, StrKey)
    ensures forall x :: x in Finalize(a).symptoms <==> x in a.symptoms
    ensures Finalize(a).treatments == a.treatments && Finalize(a).sources == a.sources
    ensures Finalize(a).contagious == a.contagious && Finalize(a).chronic == a.chronic
  {
    var d := Distinct(a.symptoms);
    DistinctMembers(a.symptoms);
    SortNoDups(d, StrKey);
    var s := Sort(d, StrKey);
    forall x ensures x in s <==> x in d {
      assert x in s <==> x in multiset(s);
      assert x in d <==> x in multiset(d);
    }
  }

  /** Any list of the entry's symptoms each once and in increasing order is the
      finalised one. */
  lemma FinalizeUnique(a: Agg, o: seq<string>)
    requires NoDups(o) && SortedBy(o, StrKey)
    requires forall x :: x in o <==> x in a.symptoms
    ensures o == Finalize(a).symptoms
  {
    var e := Finalize(a).symptoms;
    FinalizeSpec(a);
    SortedDistinctDetermined(o, e, StrKey);
    KeysAt(o, StrKey);
    KeysAt(e, StrKey);
    assert |o| == |multiset(o)| == |multiset(e)| == |e|;
    forall i | 0 <= i < |o| ensures o[i] == e[i] {
      assert StrKey(o[i]) == StrKey(e[i]);
    }
  }

  /** `disease_search.json` has one entry per disease named by a row. */
  lemma DiseaseSearchKeys(rs: seq<RowVals>)
    ensures forall d :: d in DiseaseSearch(Run(rs)) <==> Named(rs, d)
  {
    RunDiseaseKeys(rs);
  }

  /** The symptoms of a `disease_search.json` entry are those of all the rows naming
      the disease, sorted, each once. */
  lemma DiseaseSearchSymptoms(rs: seq<RowVals>, d: string)
    requires d in DiseaseSearch(Run(rs))
    ensures NoDups(DiseaseSearch(Run(rs))[d].symptoms) && SortedBy(DiseaseSearch(Run(rs))[d].symptoms, StrKey)
    ensures forall x :: x in DiseaseSearch(Run(rs))[d].symptoms <==>
      HasSymptom(rs, d, x)
  {
    RunDiseaseFields(rs, d);
    FinalizeOfRows(Run(rs).diseases[d], rs, d);
  }

  lemma FinalizeOfRows(a: Agg, rs: seq<RowVals>, d: string)
    requires a.symptoms == SymptomsOf(rs, d)
    ensures NoDups(Finalize(a).symptoms) && SortedBy(Finalize(a).symptoms, StrKey)
    ensures forall x :: x in Finalize(a).symptoms <==>
      HasSymptom(rs, d, x)
  {
    FinalizeSpec(a);
    SymptomsOfSpec(rs, d);
  }

  /** The treatments and urls of a `disease_search.json` entry are the non-empty ones
      of the rows naming the disease; its flags are those of the first such row. */
  lemma DiseaseSearchRest(rs: seq<RowVals>, i: nat)
    requires i < |rs| && FirstOfDisease(rs, i)
    ensures rs[i].disease in DiseaseSearch(Run(rs))
    ensures DiseaseSearch(Run(rs))[rs[i].disease].treatments == TreatmentsOf(rs, rs[i].disease)
    ensures DiseaseSearch(Run(rs))[rs[i].disease].sources == SourcesOf(rs, rs[i].disease)
    ensures DiseaseSearch(Run(rs))[rs[i].disease].contagious == rs[i].contagious
    ensures DiseaseSearch(Run(rs))[rs[i].disease].chronic == rs[i].chronic
  {
    RunDiseaseFlags(rs, i);
    RunDiseaseFields(rs, rs[i].disease);
  }
}
