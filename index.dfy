/** What `generate_jsons` computes, as a fold over the rows it reads. The per-row
    `disease_info` dictionaries are the objects `objs`, numbered by the row that
    created them; the symptom index maps each symptom key to the numbers of the
    objects stored under it, in insertion order, so an object stored under several
    keys is shared, as the dictionaries are in Python. */
module Index {
  import opened Cells
  import opened Text
  import opened Seqs
  import opened Fields

  /** The contents of one `disease_info` dictionary. */
  datatype InfoVal = InfoVal(disease: string, text: string, sourceUrl: string, treatment: string,
                             contagious: bool, chronic: bool)

  /** A `disease_dict` entry while the rows are read. */
  datatype Agg = Agg(symptoms: seq<string>, treatments: set<string>, sources: set<string>,
                     contagious: bool, chronic: bool)

  /** `objs[i]`: the object made for row `i`; `slots[k]`: the objects of `symptom_dict[k]`
      in insertion order; `diseases`: `disease_dict`. */
  datatype State = State(objs: seq<InfoVal>, slots: map<string, seq<nat>>, diseases: map<string, Agg>)

  function InfoOf(r: RowVals): InfoVal {
    InfoVal(r.disease, r.description, r.sourceUrl, r.treatments, r.contagious, r.chronic)
  }

  /** The backfill of an existing entry from a later row: each of `text`,
      `source_url` and `treatment` takes the row's value when it is empty and the
      row's is not. */
  function Backfill(v: InfoVal, r: RowVals): InfoVal {
    v.(text := if v.text == "" && r.description != "" then r.description else v.text,
       sourceUrl := if v.sourceUrl == "" && r.sourceUrl != "" then r.sourceUrl else v.sourceUrl,
       treatment := if v.treatment == "" && r.treatments != "" then r.treatments else v.treatment)
  }

  /** `symptom.strip().lower()`. */
  function KeyOf(symptom: string): string {
    Lower(PyStrip(symptom))
  }

  /** Every stored object number refers to an object. */
  ghost predicate Good(s: State) {
    forall k, p :: k in s.slots && 0 <= p < |s.slots[k]| ==> s.slots[k][p] < |s.objs|
  }

  function Slots(s: State, k: string): seq<nat> {
    if k in s.slots then s.slots[k] else []
  }

  /** `disease in symptom_dict[key]`, as a position: the first entry for `d`, or the
      length of the list when there is none. */
  function FindEntry(ids: seq<nat>, objs: seq<InfoVal>, d: string): (p: nat)
    requires forall q :: 0 <= q < |ids| ==> ids[q] < |objs|
    ensures p <= |ids|
    ensures p < |ids| ==> objs[ids[p]].disease == d
    ensures forall q :: 0 <= q < p ==> objs[ids[q]].disease != d
  {
    if ids == [] then 0
    else if objs[ids[0]].disease == d then 0
    else 1 + FindEntry(ids[1..], objs, d)
  }

  /** One pass of the symptom loop for row number `n`: a new (symptom, disease) pair
      stores the row's object; a known one backfills the object already stored. */
  function TokenStep(s: State, n: nat, r: RowVals, symptom: string): (t: State)
    requires Good(s) && n < |s.objs|
    ensures Good(t) && |t.objs| == |s.objs| && t.diseases == s.diseases
  {
    var key := KeyOf(symptom);
    var ids := Slots(s, key);
    var p := FindEntry(ids, s.objs, r.disease);
    if p == |ids| then s.(slots := s.slots[key := ids + [n]])
    else s.(objs := s.objs[ids[p] := Backfill(s.objs[ids[p]], r)])
  }

  /** The symptom loop over the tokens `ts`, in order. */
  function TokensStep(s: State, n: nat, r: RowVals, ts: seq<string>): (t: State)
    requires Good(s) && n < |s.objs|
    ensures Good(t) && |t.objs| == |s.objs| && t.diseases == s.diseases
    decreases |ts|
  {
    if ts == [] then s else TokenStep(TokensStep(s, n, r, ts[..|ts| - 1]), n, r, ts[|ts| - 1])
  }

  /** The `disease_dict` part of a row: a first row creates the entry with its flags;
      every row extends the symptoms and adds its non-empty treatment and url. */
  function AggStep(ds: map<string, Agg>, r: RowVals): map<string, Agg> {
    var a := if r.disease in ds then ds[r.disease] else Agg([], {}, {}, r.contagious, r.chronic);
    ds[r.disease := a.(symptoms := a.symptoms + r.symptoms,
                       treatments := if r.treatments != "" then a.treatments + {r.treatments} else a.treatments,
                       sources := if r.sourceUrl != "" then a.sources + {r.sourceUrl} else a.sources)]
  }

  /** One iteration of the row loop. */
  function RowStep(s: State, r: RowVals): (t: State)
    requires Good(s)
    ensures Good(t) && |t.objs| == |s.objs| + 1
  {
    var s1 := s.(objs := s.objs + [InfoOf(r)]);
    var s2 := TokensStep(s1, |s.objs|, r, r.symptoms);
    s2.(diseases := AggStep(s.diseases, r))
  }

  /** The row loop over `rs`. */
  function Run(rs: seq<RowVals>): (s: State)
    ensures Good(s) && |s.objs| == |rs|
  {
    if rs == [] then State([], map[], map[]) else RowStep(Run(rs[..|rs| - 1]), rs[|rs| - 1])
  }

  // ----- finalisation ----------------------------------------------------------

  /** A `disease_search.json` entry. `treatments` and `sources` are Python sets
      turned into lists in hash order; only their contents are fixed. */
  datatype DiseaseEntry = DiseaseEntry(symptoms: seq<string>, treatments: set<string>,
                                       sources: set<string>, contagious: bool, chronic: bool)

  function StrKey(s: string): Value { Str(s) }

  /** `sorted(list(set(symptoms)))`. */
  function Finalize(a: Agg): DiseaseEntry {
    DiseaseEntry(Sort(Distinct(a.symptoms), StrKey), a.treatments, a.sources, a.contagious, a.chronic)
  }

  function DiseaseSearch(s: State): map<string, DiseaseEntry> {
    map d | d in s.diseases :: Finalize(s.diseases[d])
  }

  /** The objects numbered `ids`, as `list(v.values())` lists them. */
  function Entries(ids: seq<nat>, objs: seq<InfoVal>): (es: seq<InfoVal>)
    requires forall q :: 0 <= q < |ids| ==> ids[q] < |objs|
    ensures |es| == |ids|
    ensures forall q :: 0 <= q < |ids| ==> es[q] == objs[ids[q]]
  {
    seq(|ids|, q requires 0 <= q < |ids| => objs[ids[q]])
  }

  /** `final_symptom_dict`. */
  function SymptomSearch(s: State): map<string, seq<InfoVal>>
    requires Good(s)
  {
    map k | k in s.slots :: Entries(s.slots[k], s.objs)
  }
}
