/** `merge_subwords` of `nlp_processor.py`: word-piece tokens of the named-entity
    model glued back into words. A token that starts with "##" continues the word
    being built; any other token starts a new one. */
module Subwords {
  import opened Text

  /** The words finished so far and the word being built. */
  datatype Acc = Acc(merged: seq<string>, current: string)

  /** What a token adds to the text: itself, or itself without "##". */
  function Piece(tok: string): string {
    if StartsWith(tok, "##") then tok[2..] else tok
  }

  /** One pass of the loop body. */
  function Step(a: Acc, tok: string): Acc {
    if StartsWith(tok, "##") then a.(current := a.current + tok[2..])
    else Acc(if a.current != "" then a.merged + [a.current] else a.merged, tok)
  }

  /** The loop over `toks`, in order. */
  function Fold(toks: seq<string>): Acc
    decreases |toks|
  {
    if toks == [] then Acc([], "") else Step(Fold(toks[..|toks| - 1]), toks[|toks| - 1])
  }

  /** The word still being built is kept when it is not empty. */
  function Finish(a: Acc): seq<string> {
    if a.current != "" then a.merged + [a.current] else a.merged
  }

  /** `merge_subwords` on the tokens it looks at. */
  function Merged(toks: seq<string>): seq<string> {
    Finish(Fold(toks))
  }

  function Min(a: nat, b: nat): nat { if a < b then a else b }

  /** `merge_subwords(tokens, labels)`: `zip` stops at the shorter list, so only the
      first `min(len(tokens), len(labels))` tokens are looked at, and the labels
      themselves are never read. */
  method MergeSubwords(tokens: seq<string>, labels: seq<string>) returns (merged: seq<string>)
    ensures merged == Merged(tokens[..Min(|tokens|, |labels|)])
  {
    var n := if |tokens| < |labels| then |tokens| else |labels|;
    merged := [];
    var currentWord := "";
    var i := 0;
    while i < n
      invariant 0 <= i <= n
      invariant Acc(merged, currentWord) == Fold(tokens[..i])
    {
      var tok := tokens[i];
      if StartsWith(tok, "##") {
        currentWord := currentWord + tok[2..];
      } else {
        if currentWord != "" {
          merged := merged + [currentWord];
        }
        currentWord := tok;
      }
      assert tokens[..i + 1][..i] == tokens[..i];
      i := i + 1;
    }
    if currentWord != "" {
      merged := merged + [currentWord];
    }
  }

  /** One result of the named-entity pipeline: the entity's text and its group. */
  datatype Entity = Entity(word: string, entityGroup: string)

  const SignSymptom := "Sign_symptom"

  /** The words of the results whose group is `Sign_symptom`, in order. */
  function SymptomWords(results: seq<Entity>): (ws: seq<string>)
    ensures |ws| <= |results|
    decreases |results|
  {
    if results == [] then [] else
    var r := results[|results| - 1];
    SymptomWords(results[..|results| - 1]) + (if r.entityGroup == SignSymptom then [r.word] else [])
  }

  /** `extract_symptoms`, given what the pipeline recognised in the text: the
      symptom words, glued back together with one label per word. */
  method ExtractSymptoms(results: seq<Entity>) returns (mergedSymptoms: seq<string>)
    ensures mergedSymptoms == Merged(SymptomWords(results))
  {
    var symptoms := SymptomWords(results);
    var labels := seq(|symptoms|, _ => SignSymptom);
    mergedSymptoms := MergeSubwords(symptoms, labels);
    assert symptoms[..Min(|symptoms|, |labels|)] == symptoms;
  }

  /** A word is kept exactly when some result of group `Sign_symptom` carries it. */
  lemma {:induction false} SymptomWordsSpec(results: seq<Entity>, w: string)
    ensures w in SymptomWords(results) <==>
      exists k :: 0 <= k < |results| && results[k] == Entity(w, SignSymptom)
    decreases |results|
  {
    if results != [] {
      var rs := results[..|results| - 1];
      SymptomWordsSpec(rs, w);
      if exists k :: 0 <= k < |rs| && rs[k] == Entity(w, SignSymptom) {
        var k :| 0 <= k < |rs| && rs[k] == Entity(w, SignSymptom);
        assert results[k] == rs[k];
      }
      if exists k :: 0 <= k < |results| && results[k] == Entity(w, SignSymptom) {
        var k :| 0 <= k < |results| && results[k] == Entity(w, SignSymptom);
        if k < |rs| {
          assert rs[k] == results[k];
        }
      }
    }
  }

  // ----- properties ------------------------------------------------------------

  /** The pieces of the tokens, "##" removed where there was one. */
  function Pieces(toks: seq<string>): (ps: seq<string>)
    ensures |ps| == |toks| && forall i :: 0 <= i < |toks| ==> ps[i] == Piece(toks[i])
    decreases |toks|
  {
    if toks == [] then [] else Pieces(toks[..|toks| - 1]) + [Piece(toks[|toks| - 1])]
  }

  /** Nothing is lost or added: the words, glued together, are the tokens' pieces
      glued together. */
  lemma {:induction false} FoldConcat(toks: seq<string>)
    ensures Concat(Fold(toks).merged) + Fold(toks).current == Concat(Pieces(toks))
    decreases |toks|
  {
    if toks != [] {
      var ts := toks[..|toks| - 1];
      var tok := toks[|toks| - 1];
      var a := Fold(ts);
      FoldConcat(ts);
      assert Pieces(toks) == Pieces(ts) + [Piece(tok)];
      ConcatAppend(Pieces(ts), [Piece(tok)]);
      assert Concat([Piece(tok)]) == Piece(tok);
      var p := Piece(tok);
      assert Concat(Pieces(toks)) == Concat(a.merged) + a.current + p;
      if StartsWith(tok, "##") {
        assert Fold(toks) == Acc(a.merged, a.current + p);
      } else if a.current != "" {
        assert Fold(toks) == Acc(a.merged + [a.current], p);
        ConcatAppend(a.merged, [a.current]);
        assert Concat([a.current]) == a.current;
      } else {
        assert Fold(toks) == Acc(a.merged, p);
      }
    }
  }

  lemma MergedConcat(toks: seq<string>)
    ensures Concat(Merged(toks)) == Concat(Pieces(toks))
  {
    var a := Fold(toks);
    FoldConcat(toks);
    if a.current != "" {
      ConcatAppend(a.merged, [a.current]);
      assert Concat([a.current]) == a.current;
    }
  }

  /** Words are only ever finished when they are not empty. */
  lemma {:induction false} FoldNonEmpty(toks: seq<string>)
    ensures forall i :: 0 <= i < |Fold(toks).merged| ==> Fold(toks).merged[i] != ""
    decreases |toks|
  {
    if toks != [] {
      FoldNonEmpty(toks[..|toks| - 1]);
    }
  }

  lemma MergedNonEmpty(toks: seq<string>)
    ensures forall i :: 0 <= i < |Merged(toks)| ==> Merged(toks)[i] != ""
  {
    FoldNonEmpty(toks);
  }

  /** Every word, finished or being built, owes its start to a different token. */
  lemma {:induction false} FoldLength(toks: seq<string>)
    ensures |Fold(toks).merged| + (if Fold(toks).current != "" then 1 else 0) <= |toks|
    decreases |toks|
  {
    if toks != [] {
      FoldLength(toks[..|toks| - 1]);
    }
  }

  /** No more words than tokens; no word at all from no tokens. */
  lemma MergedLength(toks: seq<string>)
    ensures |Merged(toks)| <= |toks|
    ensures toks == [] ==> Merged(toks) == []
  {
    FoldLength(toks);
  }

  /** The tokens that are not empty, in order. */
  function NonEmpty(toks: seq<string>): (r: seq<string>)
    ensures |r| <= |toks|
    decreases |toks|
  {
    if toks == [] then []
    else NonEmpty(toks[..|toks| - 1]) + (if toks[|toks| - 1] != "" then [toks[|toks| - 1]] else [])
  }

  predicate NoSubwords(toks: seq<string>) {
    forall i :: 0 <= i < |toks| ==> !StartsWith(toks[i], "##")
  }

  lemma {:induction false} FoldNoSubwords(toks: seq<string>)
    requires NoSubwords(toks)
    ensures Finish(Fold(toks)) == NonEmpty(toks)
    decreases |toks|
  {
    if toks != [] {
      var ts := toks[..|toks| - 1];
      assert NoSubwords(ts) by {
        forall i | 0 <= i < |ts| ensures !StartsWith(ts[i], "##") {
          assert ts[i] == toks[i];
        }
      }
      FoldNoSubwords(ts);
      assert !StartsWith(toks[|toks| - 1], "##");
    }
  }

  /** Without word pieces the tokens come back as they are, the empty ones dropped. */
  lemma MergedNoSubwords(toks: seq<string>)
    requires NoSubwords(toks)
    ensures Merged(toks) == NonEmpty(toks)
  {
    FoldNoSubwords(toks);
  }

  /** A word piece after a word extends it. */
  lemma GluedExample()
    ensures Merged(["head", "##ache"]) == ["headache"]
  {
    var t := ["head", "##ache"];
    assert t[..1] == ["head"] && t[..1][..0] == [];
    assert !StartsWith("head", "##") by { assert "head"[..2][0] == 'h'; }
    assert Fold(t[..1]) == Acc([], "head");
    assert StartsWith("##ache", "##") && "##ache"[2..] == "ache";
    assert Fold(t) == Acc([], "headache");
  }

  /** A whole token after a word ends it. */
  lemma SeparateExample()
    ensures Merged(["head", "ache"]) == ["head", "ache"]
  {
    var t := ["head", "ache"];
    assert t[..1] == ["head"] && t[..1][..0] == [];
    assert !StartsWith("head", "##") by { assert "head"[..2][0] == 'h'; }
    assert !StartsWith("ache", "##") by { assert "ache"[..2][0] == 'a'; }
    assert Fold(t[..1]) == Acc([], "head");
    assert Fold(t) == Acc(["head"], "ache");
  }
}
