/** `generate_jsons` as it runs: one `disease_info` dictionary per row, shared by
    every symptom key that stores it, so a backfill made through one key shows
    under all of them; `disease_dict` updated in place; then the finalisation
    and the two search structures handed to `json.dump`. Each step is proved
    against the fold of module `Index`. */
module Builder {
  import opened Text
  import opened Seqs
  import opened Fields
  import opened Index
  import opened IndexFacts
  import opened DiseaseFacts

  /** A `disease_info` dictionary. The name and the flags are never written again. */
  class Info {
    const disease: string
    var text: string
    var sourceUrl: string
    var treatment: string
    const contagious: bool
    const chronic: bool

    function Val(): InfoVal
      reads this
    {
      InfoVal(disease, text, sourceUrl, treatment, contagious, chronic)
    }

    constructor (r: RowVals)
      ensures Val() == InfoOf(r)
    {
      disease := r.disease;
      text := r.description;
      sourceUrl := r.sourceUrl;
      treatment := r.treatments;
      contagious := r.contagious;
      chronic := r.chronic;
    }

    /** The backfill of an existing entry from a later row. */
    method FillFrom(r: RowVals)
      modifies this
      ensures Val() == Backfill(old(Val()), r)
    {
      if text == "" && r.description != "" {
        text := r.description;
      }
      if sourceUrl == "" && r.sourceUrl != "" {
        sourceUrl := r.sourceUrl;
      }
      if treatment == "" && r.treatments != "" {
        treatment := r.treatments;
      }
    }
  }

  /** `disease in symptom_dict[key]`, as the position of the entry for `d` among the
      entries of one key (the length when there is none). */
  function FindInfo(es: seq<Info>, d: string): (p: nat)
    ensures p <= |es|
    ensures p < |es| ==> es[p].disease == d
    ensures forall q :: 0 <= q < p ==> es[q].disease != d
  {
    if es == [] then 0 else if es[0].disease == d then 0 else 1 + FindInfo(es[1..], d)
  }

  /** The first entry for a disease is the same whichever way it is looked for. */
  lemma FindInfoIsFindEntry(es: seq<Info>, ids: seq<nat>, objs: seq<InfoVal>, d: string)
    requires |es| == |ids| && forall q :: 0 <= q < |ids| ==> ids[q] < |objs|
    requires forall q :: 0 <= q < |ids| ==> es[q].disease == objs[ids[q]].disease
    ensures FindInfo(es, d) == FindEntry(ids, objs, d)
  {
    var p := FindInfo(es, d);
    var p' := FindEntry(ids, objs, d);
    assert p' < |ids| ==> es[p'].disease == d;
    assert p < |ids| ==> objs[ids[p]].disease == d;
  }

  /** `symptomDict` stores, under each key, the objects `slots` numbers. */
  ghost predicate Links(dict: map<string, seq<Info>>, infos: seq<Info>, slots: map<string, seq<nat>>) {
    && (forall k :: k in dict <==> k in slots)
    && (forall k :: k in dict ==> |dict[k]| == |slots[k]|)
    && (forall k, p :: k in dict && 0 <= p < |dict[k]| ==> slots[k][p] < |infos| && dict[k][p] == infos[slots[k][p]])
  }

  /** Storing object `n` at the end of a key's entries. */
  lemma LinksAppend(dict: map<string, seq<Info>>, infos: seq<Info>, slots: map<string, seq<nat>>,
                    key: string, n: nat)
    requires Links(dict, infos, slots) && n < |infos|
    ensures Links(dict[key := (if key in dict then dict[key] else []) + [infos[n]]], infos,
                  slots[key := (if key in slots then slots[key] else []) + [n]])
  {
  }

  ghost function InfoVals(infos: seq<Info>): (vs: seq<InfoVal>)
    reads infos
    ensures |vs| == |infos| && forall i :: 0 <= i < |infos| ==> vs[i] == infos[i].Val()
  {
    seq(|infos|, i requires 0 <= i < |infos| reads infos => infos[i].Val())
  }

  /** The row loop's state: `symptom_dict` (each key's entries in insertion order),
      `disease_dict`, and, as ghost state, the objects made so far and the fold they
      correspond to. */
  class IndexBuilder {
    var symptomDict: map<string, seq<Info>>
    var diseaseDict: map<string, Agg>
    ghost var infos: seq<Info>
    ghost var Repr: set<object>
    ghost var spec: State

    /** The entries of `symptomDict` are the objects `spec.slots` numbers, the
        objects hold `spec.objs`, and `diseaseDict` is `spec.diseases`. */
    ghost predicate Valid()
      reads this, Repr
    {
      && this in Repr && (forall i :: 0 <= i < |infos| ==> infos[i] in Repr)
      && |infos| == |spec.objs| && Good(spec)
      && (forall i, j :: 0 <= i < j < |infos| ==> infos[i] != infos[j])
      && InfoVals(infos) == spec.objs
      && Links(symptomDict, infos, spec.slots)
      && diseaseDict == spec.diseases
    }

    constructor ()
      ensures Valid() && fresh(Repr) && spec == State([], map[], map[]) && infos == []
    {
      Repr := {this};
      symptomDict := map[];
      diseaseDict := map[];
      infos := [];
      spec := State([], map[], map[]);
    }

    /** The entries stored under `key`, as `symptom_dict[key]` creates them. */
    function EntriesOf(key: string): seq<Info>
      reads this
    {
      if key in symptomDict then symptomDict[key] else []
    }

    /** One pass of the symptom loop for the row's object `info`. */
    method AddToken(info: Info, r: RowVals, symptom: string, ghost n: nat)
      requires Valid() && n + 1 == |infos| && info == infos[n]
      modifies Repr
      ensures Valid() && infos == old(infos) && Repr == old(Repr)
      ensures spec == TokenStep(old(spec), n, r, symptom)
      ensures diseaseDict == old(diseaseDict)
    {
      var key := Lower(PyStrip(symptom));
      var entries := EntriesOf(key);
      ghost var ids := Slots(spec, key);
      assert forall q :: 0 <= q < |ids| ==> entries[q].disease == spec.objs[ids[q]].disease;
      FindInfoIsFindEntry(entries, ids, spec.objs, r.disease);
      var p := FindInfo(entries, r.disease);
      if p == |entries| {
        Store(key, info, n);
      } else {
        Fill(entries[p], ids[p], r);
      }
    }

    /** `symptom_dict[key][disease] = disease_info` for object number `n`. */
    method Store(key: string, info: Info, ghost n: nat)
      requires Valid() && n < |infos| && info == infos[n]
      modifies this`symptomDict, this`spec
      ensures Valid()
      ensures spec == old(spec).(slots := old(spec.slots)[key := Slots(old(spec), key) + [n]])
    {
      LinksAppend(symptomDict, infos, spec.slots, key, n);
      symptomDict := symptomDict[key := EntriesOf(key) + [info]];
      spec := spec.(slots := spec.slots[key := Slots(spec, key) + [n]]);
    }

    /** The backfill of object number `j`, seen under every key that stores it. */
    method Fill(e: Info, ghost j: nat, r: RowVals)
      requires Valid() && j < |infos| && e == infos[j]
      modifies e, this`spec
      ensures Valid()
      ensures spec == old(spec).(objs := old(spec.objs)[j := Backfill(old(spec.objs)[j], r)])
    {
      e.FillFrom(r);
      spec := spec.(objs := spec.objs[j := Backfill(spec.objs[j], r)]);
      forall i | 0 <= i < |infos| ensures InfoVals(infos)[i] == spec.objs[i] {
        if i != j {
          assert infos[i] != infos[j];
        }
      }
    }

    /** One iteration of the row loop on the row's values `r` (read by `RowOf`): the
        row's `disease_info`, the symptom loop, and the row's part of `disease_dict`. */
    method AddRow(r: RowVals)
      requires Valid()
      modifies Repr
      ensures Valid() && fresh(Repr - old(Repr)) && spec == RowStep(old(spec), r)
    {
      var info := new Info(r);
      ghost var s0 := spec;
      AddInfo(info, r);
      ghost var s1 := spec;
      AddTokens(info, r, |s0.objs|);
      ghost var s2 := spec;
      AddDisease(r);
      RowStepOf(s0, r, s1, s2, spec);
    }

    /** The row's object joins the objects made so far. */
    method AddInfo(info: Info, r: RowVals)
      requires Valid() && info !in infos && info.Val() == InfoOf(r)
      modifies this`infos, this`spec, this`Repr
      ensures Valid() && infos == old(infos) + [info] && Repr == old(Repr) + {info}
      ensures spec == old(spec).(objs := old(spec.objs) + [InfoOf(r)])
    {
      infos := infos + [info];
      Repr := Repr + {info};
      spec := spec.(objs := spec.objs + [InfoOf(r)]);
      assert InfoVals(infos) == spec.objs;
    }

    /** The symptom loop of a row whose object `info` was made last. */
    method AddTokens(info: Info, r: RowVals, ghost n: nat)
      requires Valid() && n + 1 == |infos| && info == infos[n]
      modifies Repr
      ensures Valid() && infos == old(infos) && Repr == old(Repr) && diseaseDict == old(diseaseDict)
      ensures spec == TokensStep(old(spec), n, r, r.symptoms)
    {
      var symptomList := r.symptoms;
      ghost var s1 := spec;
      var i := 0;
      while i < |symptomList|
        invariant 0 <= i <= |symptomList|
        invariant Valid() && infos == old(infos) && Repr == old(Repr) && diseaseDict == old(diseaseDict)
        invariant spec == TokensStep(s1, n, r, symptomList[..i])
      {
        AddToken(info, r, symptomList[i], n);
        assert symptomList[..i + 1][..i] == symptomList[..i];
        i := i + 1;
      }
      assert symptomList[..i] == symptomList;
    }

    /** `disease_dict` for the row: a first row creates the entry with its flags;
        every row extends the symptoms and adds its non-empty treatment and url. */
    method AddDisease(r: RowVals)
      requires Valid()
      modifies this`diseaseDict, this`spec
      ensures Valid() && spec == old(spec).(diseases := AggStep(old(spec.diseases), r))
    {
      var a: Agg;
      if r.disease !in diseaseDict {
        a := Agg([], {}, {}, r.contagious, r.chronic);
      } else {
        a := diseaseDict[r.disease];
      }
      a := a.(symptoms := a.symptoms + r.symptoms);
      if r.treatments != "" {
        a := a.(treatments := a.treatments + {r.treatments});
      }
      if r.sourceUrl != "" {
        a := a.(sources := a.sources + {r.sourceUrl});
      }
      diseaseDict := diseaseDict[r.disease := a];
      spec := spec.(diseases := AggStep(spec.diseases, r));
    }

    /** The finalisation loop: each entry's symptoms sorted without repeats, its
        sets turned into lists. */
    method FinalizeDiseases() returns (out: map<string, DiseaseEntry>)
      requires Valid()
      ensures out == DiseaseSearch(spec)
    {
      out := FinalizeAll(diseaseDict);
    }

    /** The values of the entries stored under every key, as `json.dump` writes
        `final_symptom_dict`. */
    function Snapshot(): (m: map<string, seq<InfoVal>>)
      requires Valid()
      reads this, Repr
      ensures m == SymptomSearch(spec)
    {
      assert forall k :: k in symptomDict ==> ValsOf(symptomDict[k]) == Entries(spec.slots[k], spec.objs);
      map k | k in symptomDict :: ValsOf(symptomDict[k])
    }
  }

  /** The loop over `disease_dict.items()` that writes each finalised entry into a
      new dictionary. */
  method FinalizeAll(diseaseDict: map<string, Agg>) returns (out: map<string, DiseaseEntry>)
    ensures out == map d | d in diseaseDict :: Finalize(diseaseDict[d])
  {
    out := map[];
    var todo := diseaseDict.Keys;
    while todo != {}
      invariant todo <= diseaseDict.Keys
      invariant out.Keys == diseaseDict.Keys - todo
      invariant forall d :: d in out ==> out[d] == Finalize(diseaseDict[d])
      decreases |todo|
    {
      var d :| d in todo;
      out := out[d := Finalize(diseaseDict[d])];
      todo := todo - {d};
    }
  }

  /** Appending the row's object, running the symptom loop and updating
      `disease_dict`, in this order, is one row step. */
  lemma RowStepOf(s0: State, r: RowVals, s1: State, s2: State, s3: State)
    requires Good(s0) && s1 == s0.(objs := s0.objs + [InfoOf(r)]) && Good(s1)
    requires s2 == TokensStep(s1, |s0.objs|, r, r.symptoms)
    requires s3 == s2.(diseases := AggStep(s2.diseases, r))
    ensures s3 == RowStep(s0, r)
  {
  }

  /** Folding one more row into the fold of a prefix gives the fold of the longer
      prefix. */
  lemma RunSnoc(rs: seq<RowVals>, i: nat, before: State, after: State)
    requires i < |rs| && before == Run(rs[..i]) && after == RowStep(before, rs[i])
    ensures after == Run(rs[..i + 1])
  {
    assert rs[..i + 1][..i] == rs[..i];
  }

  function ValsOf(es: seq<Info>): (vs: seq<InfoVal>)
    reads es
    ensures |vs| == |es| && forall p :: 0 <= p < |es| ==> vs[p] == es[p].Val()
  {
    if es == [] then [] else [es[0].Val()] + ValsOf(es[1..])
  }

  /** The rows as `generate_jsons` reads them. */
  function RowsOf(rows: seq<CsvRow>): seq<RowVals> {
    seq(|rows|, i requires 0 <= i < |rows| => RowOf(rows[i]))
  }

  /** The row loop of `generate_jsons` over the rows as read. */
  method BuildIndex(rs: seq<RowVals>) returns (b: IndexBuilder)
    ensures b.Valid() && fresh(b.Repr) && b.spec == Run(rs)
  {
    b := new IndexBuilder();
    var i := 0;
    while i < |rs|
      invariant 0 <= i <= |rs|
      invariant b.Valid() && fresh(b.Repr) && b.spec == Run(rs[..i])
    {
      ghost var before := b.spec;
      b.AddRow(rs[i]);
      RunSnoc(rs, i, before, b.spec);
      i := i + 1;
    }
    assert rs[..i] == rs;
  }

  /** `generate_jsons` on the rows of the merged table: the two structures written
      to `symptom_search.json` and `disease_search.json` are those of the fold, so
      every property proved of the fold holds of them. */
  method GenerateJsons(rows: seq<CsvRow>)
    returns (symptomSearch: map<string, seq<InfoVal>>, diseaseSearch: map<string, DiseaseEntry>)
    ensures symptomSearch == SymptomSearch(Run(RowsOf(rows)))
    ensures diseaseSearch == DiseaseSearch(Run(RowsOf(rows)))
    ensures forall k :: k in symptomSearch <==> AnyHasKey(RowsOf(rows), k)
    ensures forall d :: d in diseaseSearch <==> Named(RowsOf(rows), d)
  {
    var rs := RowsOf(rows);
    var b := BuildIndex(rs);
    symptomSearch := b.Snapshot();
    diseaseSearch := b.FinalizeDiseases();
    forall k ensures k in symptomSearch <==> AnyHasKey(RowsOf(rows), k) {
      SymptomSearchSpec(RowsOf(rows), k);
    }
    DiseaseSearchKeys(RowsOf(rows));
  }
}
