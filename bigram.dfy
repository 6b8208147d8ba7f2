/** The bigram builder `make_bigram_lm_fst`: the successor dictionary is
    walked in sorted order, nodes are numbered on first use, and one arc is
    emitted per successor, followed by the final-state line. */
module BigramFst {
  import opened Words
  import opened WordInput
  import opened Successors
  import opened NodeNumbering

  /** The weight of an arc out of a word with N successors: `-log(1/N)`,
      kept as N; or the literal `0` of the empty-successor fallback. */
  datatype Weight = NegLogInverse(successors: nat) | ZeroWeight

  /** One line `from_id to_id to_word to_word weight`. */
  datatype Arc = Arc(src: nat, dst: nat, ilabel: Word, olabel: Word, weight: Weight)

  /** The whole text: the arc lines, then the final-state line
      `len(node_ids) 0`. */
  datatype Fst = Fst(arcs: seq<Arc>, finalState: nat)

  /** Lines 83-86: uniform weight over the successors, 0 when there are none. */
  function SourceWeight(successors: set<Word>): (w: Weight)
    ensures w.NegLogInverse? <==> successors != {}
    ensures w.NegLogInverse? ==> w.successors == |successors| >= 1
  {
    if |successors| > 0 then NegLogInverse(|successors|) else ZeroWeight
  }

  // ---------------------------------------------------------------------
  // The specification of the emission walk.
  // ---------------------------------------------------------------------

  /** The words handed to `get_node_id`, in order, while walking `keys`:
      each key, then its successors in sorted order. */
  ghost function WalkOf(m: Bigrams, keys: seq<Word>): seq<Word>
    requires forall k :: k in keys ==> k in m
  {
    if keys == [] then []
    else
      var a := keys[|keys| - 1];
      WalkOf(m, keys[..|keys| - 1]) + [a] + SortedWords(m[a])
  }

  /** `bs` paired with the source word `a`. */
  function Row(a: Word, bs: seq<Word>): (r: seq<(Word, Word)>)
    ensures |r| == |bs|
    ensures forall i :: 0 <= i < |bs| ==> r[i] == (a, bs[i])
  {
    seq(|bs|, i requires 0 <= i < |bs| => (a, bs[i]))
  }

  /** The (source, target) word pairs of the arcs emitted while walking
      `keys`, in emission order. */
  ghost function PairsOf(m: Bigrams, keys: seq<Word>): seq<(Word, Word)>
    requires forall k :: k in keys ==> k in m
  {
    if keys == [] then []
    else
      var a := keys[|keys| - 1];
      PairsOf(m, keys[..|keys| - 1]) + Row(a, SortedWords(m[a]))
  }

  lemma {:induction false} PairsWithinWalk(m: Bigrams, keys: seq<Word>)
    requires forall k :: k in keys ==> k in m
    ensures forall k :: 0 <= k < |PairsOf(m, keys)| ==>
      var p := PairsOf(m, keys)[k];
      p.0 in keys && p.1 in m[p.0] && p.0 in WalkOf(m, keys) && p.1 in WalkOf(m, keys)
  {
    if keys != [] {
      var init, a := keys[..|keys| - 1], keys[|keys| - 1];
      PairsWithinWalk(m, init);
      var row := Row(a, SortedWords(m[a]));
      var w0 := WalkOf(m, init);
      assert WalkOf(m, keys) == w0 + [a] + SortedWords(m[a]);
      forall k | 0 <= k < |PairsOf(m, keys)|
        ensures var p := PairsOf(m, keys)[k];
          p.0 in keys && p.1 in m[p.0] && p.0 in WalkOf(m, keys) && p.1 in WalkOf(m, keys)
      {
        var p := PairsOf(m, keys)[k];
        if k < |PairsOf(m, init)| {
          assert p == PairsOf(m, init)[k];
          assert p.0 in WalkOf(m, init) && p.1 in WalkOf(m, init);
        } else {
          var t := k - |PairsOf(m, init)|;
          assert p == row[t] == (a, SortedWords(m[a])[t]);
          assert p.1 == (w0 + [a] + SortedWords(m[a]))[|w0| + 1 + t];
        }
      }
    }
  }

  /** The arc emitted for the pair `p` under the numbering `ids`. */
  function ArcOf(m: Bigrams, ids: Ids, p: (Word, Word)): Arc
    requires p.0 in m && p.0 in ids && p.1 in ids
  {
    Arc(ids[p.0], ids[p.1], p.1, p.1, SourceWeight(m[p.0]))
  }

  /** `arc` is the arc for `p` under `ids`. */
  ghost predicate ArcFor(m: Bigrams, ids: Ids, arc: Arc, p: (Word, Word))
  {
    p.0 in m && p.0 in ids && p.1 in ids && arc == ArcOf(m, ids, p)
  }

  /** The arc list and final state `make_bigram_lm_fst` produces from the
      dictionary `m`: pairs in sorted (source, target) order, numbered by
      first use along the walk. */
  ghost function Emission(m: Bigrams): Fst
  {
    var keys := SortedWords(m.Keys);
    var pairs := PairsOf(m, keys);
    var ids := FirstUse(WalkOf(m, keys));
    PairsWithinWalk(m, keys);
    FirstUseSpec(WalkOf(m, keys));
    Fst(seq(|pairs|, k requires 0 <= k < |pairs| => ArcOf(m, ids, pairs[k])), |ids|)
  }

  // ---------------------------------------------------------------------
  // The emission loops.
  // ---------------------------------------------------------------------

  lemma ArcForStable(m: Bigrams, ids: Ids, w: Word, arcs: seq<Arc>, pairs: seq<(Word, Word)>)
    requires |arcs| <= |pairs|
    requires forall k :: 0 <= k < |arcs| ==> ArcFor(m, ids, arcs[k], pairs[k])
    ensures forall k :: 0 <= k < |arcs| ==> ArcFor(m, NextIds(ids, w), arcs[k], pairs[k])
  {
  }

  lemma ArcsExtend(m: Bigrams, ids: Ids, arcs: seq<Arc>, pairs: seq<(Word, Word)>, arc: Arc, p: (Word, Word))
    requires |arcs| == |pairs|
    requires forall k :: 0 <= k < |arcs| ==> ArcFor(m, ids, arcs[k], pairs[k])
    requires ArcFor(m, ids, arc, p)
    ensures forall k :: 0 <= k < |arcs| + 1 ==> ArcFor(m, ids, (arcs + [arc])[k], (pairs + [p])[k])
  {
  }

  lemma RowSnoc(a: Word, bs: seq<Word>, j: nat)
    requires j < |bs|
    ensures Row(a, bs[..j + 1]) == Row(a, bs[..j]) + [(a, bs[j])]
  {
  }

  /** One turn of the inner loop keeps the arcs matched to their pairs. */
  lemma TargetStep(m: Bigrams, fromWord: Word, fromId: nat, weight: Weight, targets: seq<Word>,
                   walk: seq<Word>, pairs: seq<(Word, Word)>, ids: Ids, arcs: seq<Arc>, j: nat)
    requires fromWord in m && weight == SourceWeight(m[fromWord]) && j < |targets|
    requires ids == FirstUse(walk + targets[..j]) && fromWord in ids && fromId == ids[fromWord]
    requires |arcs| == |pairs| + j
    requires forall k :: 0 <= k < |arcs| ==> ArcFor(m, ids, arcs[k], (pairs + Row(fromWord, targets[..j]))[k])
    ensures NextIds(ids, targets[j]) == FirstUse(walk + targets[..j + 1])
    ensures fromWord in NextIds(ids, targets[j]) && NextIds(ids, targets[j])[fromWord] == fromId
    ensures var ids' := NextIds(ids, targets[j]);
      var arc := Arc(fromId, ids'[targets[j]], targets[j], targets[j], weight);
      forall k :: 0 <= k < |arcs| + 1 ==> ArcFor(m, ids', (arcs + [arc])[k], (pairs + Row(fromWord, targets[..j + 1]))[k])
  {
    var toWord := targets[j];
    var cur := walk + targets[..j];
    var done := pairs + Row(fromWord, targets[..j]);
    ArcForStable(m, ids, toWord, arcs, done);
    var ids' := NextIds(ids, toWord);
    assert cur + [toWord] == walk + targets[..j + 1];
    assert (cur + [toWord])[..|cur|] == cur;
    var arc := Arc(fromId, ids'[toWord], toWord, toWord, weight);
    assert ArcFor(m, ids', arc, (fromWord, toWord));
    ArcsExtend(m, ids', arcs, done, arc, (fromWord, toWord));
    RowSnoc(fromWord, targets, j);
    assert pairs + Row(fromWord, targets[..j + 1]) == done + [(fromWord, toWord)];
  }

  /** Lines 88-91: number each successor in sorted order and emit its arc
      with the source's id and weight. */
  method EmitTargets(m: Bigrams, fromWord: Word, fromId: nat, weight: Weight, targets: seq<Word>,
                     ghost walk: seq<Word>, ghost pairs: seq<(Word, Word)>, ids0: Ids, arcs0: seq<Arc>)
    returns (ids: Ids, arcs: seq<Arc>)
    requires fromWord in m && weight == SourceWeight(m[fromWord])
    requires ids0 == FirstUse(walk) && fromWord in ids0 && fromId == ids0[fromWord]
    requires |arcs0| == |pairs|
    requires forall k :: 0 <= k < |arcs0| ==> ArcFor(m, ids0, arcs0[k], pairs[k])
    ensures ids == FirstUse(walk + targets)
    ensures |arcs| == |pairs| + |targets|
    ensures forall k :: 0 <= k < |arcs| ==> ArcFor(m, ids, arcs[k], (pairs + Row(fromWord, targets))[k])
  {
    ids, arcs := ids0, arcs0;
    assert walk + targets[..0] == walk;
    assert pairs + Row(fromWord, targets[..0]) == pairs;
    for j := 0 to |targets|
      invariant ids == FirstUse(walk + targets[..j])
      invariant fromWord in ids && fromId == ids[fromWord]
      invariant |arcs| == |pairs| + j
      invariant forall k :: 0 <= k < |arcs| ==> ArcFor(m, ids, arcs[k], (pairs + Row(fromWord, targets[..j]))[k])
    {
      TargetStep(m, fromWord, fromId, weight, targets, walk, pairs, ids, arcs, j);
      var toWord := targets[j];
      var toId;
      toId, ids := GetNodeId(ids, toWord);
      arcs := arcs + [Arc(fromId, toId, toWord, toWord, weight)];
    }
    assert targets[..|targets|] == targets;
  }

  /** Lines 79-91 for one source word: number it, compute its weight, then
      emit one arc per successor. */
  method EmitRow(m: Bigrams, fromWord: Word, ghost walk: seq<Word>, ghost pairs: seq<(Word, Word)>,
                 ids0: Ids, arcs0: seq<Arc>)
    returns (ids: Ids, arcs: seq<Arc>)
    requires fromWord in m
    requires ids0 == FirstUse(walk)
    requires |arcs0| == |pairs|
    requires forall k :: 0 <= k < |arcs0| ==> ArcFor(m, ids0, arcs0[k], pairs[k])
    ensures ids == FirstUse(walk + [fromWord] + SortedWords(m[fromWord]))
    ensures |arcs| == |pairs + Row(fromWord, SortedWords(m[fromWord]))|
    ensures forall k :: 0 <= k < |arcs| ==>
      ArcFor(m, ids, arcs[k], (pairs + Row(fromWord, SortedWords(m[fromWord])))[k])
  {
    var fromId;
    ArcForStable(m, ids0, fromWord, arcs0, pairs);
    fromId, ids := GetNodeId(ids0, fromWord);
    assert (walk + [fromWord])[..|walk|] == walk;
    var successors := m[fromWord];
    var weight := SourceWeight(successors);
    ids, arcs := EmitTargets(m, fromWord, fromId, weight, SortedWords(successors), walk + [fromWord], pairs, ids, arcs0);
  }

  /** One more key extends the walk by the key and its sorted successors,
      and the pairs by its row. */
  lemma KeyStep(m: Bigrams, keys: seq<Word>, i: nat)
    requires forall k :: k in keys ==> k in m
    requires i < |keys|
    ensures WalkOf(m, keys[..i + 1]) == WalkOf(m, keys[..i]) + [keys[i]] + SortedWords(m[keys[i]])
    ensures PairsOf(m, keys[..i + 1]) == PairsOf(m, keys[..i]) + Row(keys[i], SortedWords(m[keys[i]]))
  {
    var t := keys[..i + 1];
    assert t[..|t| - 1] == keys[..i];
    assert t[|t| - 1] == keys[i];
  }

  /** Arcs matched to all the pairs of the whole walk are the emission. */
  lemma EmissionOfWalk(m: Bigrams, ids: Ids, arcs: seq<Arc>)
    requires var keys := SortedWords(m.Keys); ids == FirstUse(WalkOf(m, keys[..|keys|]))
    requires var keys := SortedWords(m.Keys); |arcs| == |PairsOf(m, keys[..|keys|])|
    requires var keys := SortedWords(m.Keys);
      forall k :: 0 <= k < |arcs| ==> ArcFor(m, ids, arcs[k], PairsOf(m, keys[..|keys|])[k])
    ensures Fst(arcs, |ids|) == Emission(m)
  {
    var keys := SortedWords(m.Keys);
    assert keys[..|keys|] == keys;
  }

  /** Lines 72-93: walk the keys in sorted order and, for each, its
      successors in sorted order, numbering words on first use and emitting
      one arc per successor; the final state is `len(node_ids)`. */
  method EmitArcs(m: Bigrams) returns (fst: Fst)
    ensures fst == Emission(m)
  {
    var ids: Ids := map[];
    var arcs: seq<Arc> := [];
    var keys := SortedWords(m.Keys);
    for i := 0 to |keys|
      invariant ids == FirstUse(WalkOf(m, keys[..i]))
      invariant |arcs| == |PairsOf(m, keys[..i])|
      invariant forall k :: 0 <= k < |arcs| ==> ArcFor(m, ids, arcs[k], PairsOf(m, keys[..i])[k])
    {
      ids, arcs := EmitRow(m, keys[i], WalkOf(m, keys[..i]), PairsOf(m, keys[..i]), ids, arcs);
      KeyStep(m, keys, i);
    }
    EmissionOfWalk(m, ids, arcs);
    fst := Fst(arcs, |ids|);
  }

  /** `make_bigram_lm_fst`: normalise the input, build the successor
      dictionary, emit the arcs. */
  method MakeBigramLmFst(input: WordSequences, o: Options) returns (fst: Fst)
    ensures fst == Emission(SuccessorSpec(Normalize(input), o))
  {
    var seqs := Normalize(input);
    var m := BuildSuccessors(seqs, o);
    fst := EmitArcs(m);
  }
}
