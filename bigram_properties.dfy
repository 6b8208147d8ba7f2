/** What the text written by `make_bigram_lm_fst` means as a graph: one node
    per dictionary word, numbered 1..n, one arc per recorded successor pair,
    weighted uniformly over the source's successors, in sorted order. */
module BigramProperties {
  import opened Words
  import opened WordInput
  import opened Successors
  import opened NodeNumbering
  import opened BigramFst

  /** The order of the emitted pairs: by source word, then by target word. */
  predicate PairLess(p: (Word, Word), q: (Word, Word))
  {
    Less(p.0, q.0) || (p.0 == q.0 && Less(p.1, q.1))
  }

  /** Every recorded successor is itself a key (true of every dictionary
      the builder produces). */
  ghost predicate Closed(m: Bigrams)
  {
    forall a, b :: Has(m, a, b) ==> b in m
  }

  ghost function Walk(m: Bigrams): seq<Word>
  {
    WalkOf(m, SortedWords(m.Keys))
  }

  ghost function Pairs(m: Bigrams): seq<(Word, Word)>
  {
    PairsOf(m, SortedWords(m.Keys))
  }

  /** `node_ids` once the walk is over. */
  ghost function NodeIds(m: Bigrams): Ids
  {
    FirstUse(Walk(m))
  }

  lemma RowMembers(a: Word, bs: seq<Word>)
    ensures forall p :: p in Row(a, bs) <==> p.0 == a && p.1 in bs
  {
    var r := Row(a, bs);
    forall p
      ensures p in r <==> p.0 == a && p.1 in bs
    {
      if p.0 == a && p.1 in bs {
        var i :| 0 <= i < |bs| && bs[i] == p.1;
        assert r[i] == p;
      }
    }
  }

  /** The pairs emitted while walking `keys` are exactly the recorded
      successor pairs whose source is one of `keys`. */
  lemma {:induction false} PairsOfRelation(m: Bigrams, keys: seq<Word>)
    requires forall k :: k in keys ==> k in m
    ensures forall a, b :: (a, b) in PairsOf(m, keys) <==> a in keys && b in m[a]
  {
    if keys != [] {
      var init, last := keys[..|keys| - 1], keys[|keys| - 1];
      assert keys == init + [last];
      PairsOfRelation(m, init);
      RowMembers(last, SortedWords(m[last]));
      assert PairsOf(m, keys) == PairsOf(m, init) + Row(last, SortedWords(m[last]));
    }
  }

  /** Walking strictly sorted keys emits the pairs in strictly increasing
      (source, target) order, so no pair is emitted twice. */
  lemma {:induction false} PairsOfSorted(m: Bigrams, keys: seq<Word>)
    requires forall k :: k in keys ==> k in m
    requires StrictlySorted(keys)
    ensures forall i, j :: 0 <= i < j < |PairsOf(m, keys)| ==> PairLess(PairsOf(m, keys)[i], PairsOf(m, keys)[j])
  {
    if keys != [] {
      var init, last := keys[..|keys| - 1], keys[|keys| - 1];
      assert keys == init + [last];
      PairsOfSorted(m, init);
      PairsOfRelation(m, init);
      var p0 := PairsOf(m, init);
      var row := Row(last, SortedWords(m[last]));
      RowSorted(last, SortedWords(m[last]));
      forall i, j | 0 <= i < |p0| && 0 <= j < |row|
        ensures PairLess(p0[i], row[j])
      {
        assert p0[i] in p0;
        var t :| 0 <= t < |init| && init[t] == p0[i].0;
        assert keys[t] == p0[i].0;
      }
      PairsSortedConcat(p0, row);
    }
  }

  lemma RowSorted(a: Word, bs: seq<Word>)
    requires StrictlySorted(bs)
    ensures forall i, j :: 0 <= i < j < |Row(a, bs)| ==> PairLess(Row(a, bs)[i], Row(a, bs)[j])
  {
  }

  /** Two increasing runs, the first wholly below the second, make one. */
  lemma PairsSortedConcat(x: seq<(Word, Word)>, y: seq<(Word, Word)>)
    requires forall i, j :: 0 <= i < j < |x| ==> PairLess(x[i], x[j])
    requires forall i, j :: 0 <= i < j < |y| ==> PairLess(y[i], y[j])
    requires forall i, j :: 0 <= i < |x| && 0 <= j < |y| ==> PairLess(x[i], y[j])
    ensures forall i, j :: 0 <= i < j < |x + y| ==> PairLess((x + y)[i], (x + y)[j])
  {
  }

  /** The words handed to `get_node_id` are the walked keys and their
      successors. */
  lemma {:induction false} WalkOfMembers(m: Bigrams, keys: seq<Word>)
    requires forall k :: k in keys ==> k in m
    ensures forall w :: w in WalkOf(m, keys) <==> w in keys || exists a :: a in keys && w in m[a]
  {
    if keys != [] {
      var init, last := keys[..|keys| - 1], keys[|keys| - 1];
      assert keys == init + [last];
      WalkOfMembers(m, init);
      assert WalkOf(m, keys) == WalkOf(m, init) + [last] + SortedWords(m[last]);
    }
  }

  /** The emitted arcs, pair by pair. */
  lemma EmissionArcs(m: Bigrams)
    ensures Contiguous(NodeIds(m))
    ensures forall a :: a in m ==> a in NodeIds(m)
    ensures forall a, b :: Has(m, a, b) ==> b in NodeIds(m)
    ensures |Emission(m).arcs| == |Pairs(m)|
    ensures forall k :: 0 <= k < |Pairs(m)| ==>
      Has(m, Pairs(m)[k].0, Pairs(m)[k].1) &&
      Emission(m).arcs[k] == ArcOf(m, NodeIds(m), Pairs(m)[k])
  {
    var keys := SortedWords(m.Keys);
    FirstUseSpec(Walk(m));
    WalkOfMembers(m, keys);
    PairsWithinWalk(m, keys);
    forall a, b | Has(m, a, b)
      ensures b in NodeIds(m)
    {
      assert a in keys;
    }
  }

  /** `arc` is the line `id(a) id(b) b b -log(1/N)` for a recorded pair
      a -> b, N being the number of successors of `a`. */
  ghost predicate IsArcOf(m: Bigrams, arc: Arc, a: Word, b: Word)
  {
    && Has(m, a, b) && a in NodeIds(m) && b in NodeIds(m)
    && arc == Arc(NodeIds(m)[a], NodeIds(m)[b], b, b, NegLogInverse(|m[a]|))
  }

  /** Some emitted arc is the arc for the pair a -> b. */
  ghost predicate Emits(m: Bigrams, a: Word, b: Word)
  {
    exists arc :: arc in Emission(m).arcs && IsArcOf(m, arc, a, b)
  }

  /** An arc is emitted exactly for each recorded successor pair; so every
      arc carries its target word as both labels and the weight `-log(1/N)`
      of its source, and the `weight = 0` fallback never reaches the output. */
  lemma EmissionGraph(m: Bigrams)
    ensures forall arc :: arc in Emission(m).arcs <==> exists a, b :: IsArcOf(m, arc, a, b)
    ensures forall a, b :: Emits(m, a, b) <==> Has(m, a, b)
  {
    EmittedArcsAreArcsOf(m);
    EveryPairEmitted(m);
    forall arc | exists a, b :: IsArcOf(m, arc, a, b)
      ensures arc in Emission(m).arcs
    {
      var a, b :| IsArcOf(m, arc, a, b);
      assert Emits(m, a, b);
      var arc' :| arc' in Emission(m).arcs && IsArcOf(m, arc', a, b);
      assert arc' == arc;
    }
  }

  lemma EmittedArcsAreArcsOf(m: Bigrams)
    ensures forall arc :: arc in Emission(m).arcs ==> exists a, b :: IsArcOf(m, arc, a, b)
  {
    var ids := NodeIds(m);
    var arcs := Emission(m).arcs;
    var pairs := Pairs(m);
    EmissionArcs(m);
    forall arc | arc in arcs
      ensures exists a, b :: IsArcOf(m, arc, a, b)
    {
      var k :| 0 <= k < |arcs| && arcs[k] == arc;
      var a, b := pairs[k].0, pairs[k].1;
      assert Has(m, a, b);
      assert arc == ArcOf(m, ids, (a, b));
      assert IsArcOf(m, arc, a, b);
    }
  }

  lemma EveryPairEmitted(m: Bigrams)
    ensures forall a, b :: Has(m, a, b) ==> Emits(m, a, b)
  {
    var keys := SortedWords(m.Keys);
    var ids := NodeIds(m);
    var arcs := Emission(m).arcs;
    var pairs := Pairs(m);
    EmissionArcs(m);
    PairsOfRelation(m, keys);
    forall a, b | Has(m, a, b)
      ensures Emits(m, a, b)
    {
      assert a in keys;
      assert (a, b) in pairs;
      var k :| 0 <= k < |pairs| && pairs[k] == (a, b);
      assert arcs[k] == ArcOf(m, ids, (a, b));
      assert IsArcOf(m, arcs[k], a, b);
      assert arcs[k] in arcs;
    }
  }

  /** No arc is written twice, and the arcs come in increasing (source
      word, target word) order. */
  lemma EmissionOrdered(m: Bigrams)
    ensures |Emission(m).arcs| == |Pairs(m)|
    ensures forall i, j :: 0 <= i < j < |Pairs(m)| ==> PairLess(Pairs(m)[i], Pairs(m)[j])
    ensures forall i, j :: 0 <= i < j < |Emission(m).arcs| ==> Emission(m).arcs[i] != Emission(m).arcs[j]
  {
    var keys := SortedWords(m.Keys);
    var ids := NodeIds(m);
    var arcs := Emission(m).arcs;
    var pairs := Pairs(m);
    EmissionArcs(m);
    PairsOfSorted(m, keys);
    forall i, j | 0 <= i < j < |arcs|
      ensures arcs[i] != arcs[j]
    {
      var p, q := pairs[i], pairs[j];
      assert PairLess(p, q);
      assert arcs[i] == ArcOf(m, ids, p) && arcs[j] == ArcOf(m, ids, q);
      if p.0 == q.0 {
        LessIrreflexive(p.0);
        LessIrreflexive(p.1);
        assert arcs[i].ilabel != arcs[j].ilabel;
      } else {
        assert ids[p.0] != ids[q.0];
        assert arcs[i].src != arcs[j].src;
      }
    }
  }

  /** For a closed dictionary the nodes are exactly its keys, numbered
      1..n, and the final state `len(node_ids)` is the number of keys. */
  lemma EmissionNodes(m: Bigrams)
    requires Closed(m)
    ensures NodeIds(m).Keys == m.Keys
    ensures Contiguous(NodeIds(m))
    ensures Emission(m).finalState == |m.Keys|
  {
    var keys := SortedWords(m.Keys);
    var ids := NodeIds(m);
    FirstUseSpec(Walk(m));
    WalkOfMembers(m, keys);
    forall w
      ensures w in ids <==> w in m
    {
      if w in ids {
        assert w in Walk(m);
        if w !in keys {
          var a :| a in keys && w in m[a];
          assert Has(m, a, w);
        }
      }
    }
    assert ids.Keys == m.Keys;
    assert |ids| == |ids.Keys|;
    assert Emission(m).finalState == |ids|;
  }

  /** Any dictionary whose keys are the nodes of the candidates and whose
      pairs are their successor relation is closed. */
  lemma RelationClosed(seqs: seq<seq<Word>>, o: Options, m: Bigrams)
    requires forall w :: w in m <==> IsNode(seqs, o, w)
    requires forall a, b :: Has(m, a, b) <==> Follows(seqs, o, a, b)
    ensures Closed(m)
    ensures m.Keys == Vocabulary(seqs, o)
  {
    forall a, b | Has(m, a, b)
      ensures b in m
    {
      FollowsWithinNodes(seqs, o, a, b);
    }
  }

  lemma RelationArcs(seqs: seq<seq<Word>>, o: Options, m: Bigrams)
    requires forall a, b :: Has(m, a, b) <==> Follows(seqs, o, a, b)
    ensures forall a, b :: Emits(m, a, b) <==> Follows(seqs, o, a, b)
  {
    EmissionGraph(m);
  }

  lemma RelationEveryNode(seqs: seq<seq<Word>>, o: Options, m: Bigrams)
    requires forall a, b :: Emits(m, a, b) <==> Follows(seqs, o, a, b)
    ensures forall a :: IsNode(seqs, o, a) ==> exists b :: Emits(m, a, b)
  {
    forall a | IsNode(seqs, o, a)
      ensures exists b :: Emits(m, a, b)
    {
      NodeHasSuccessor(seqs, o, a);
      var b :| Follows(seqs, o, a, b);
      assert Emits(m, a, b);
    }
  }

  /** The nodes of the builder's output are the vocabulary of the
      normalised candidates, numbered 1..n, and the final state is n. */
  lemma BigramLmNodes(input: WordSequences, o: Options)
    ensures NodeIds(SuccessorSpec(Normalize(input), o)).Keys == Vocabulary(Normalize(input), o)
    ensures Contiguous(NodeIds(SuccessorSpec(Normalize(input), o)))
    ensures Emission(SuccessorSpec(Normalize(input), o)).finalState == |Vocabulary(Normalize(input), o)|
  {
    var seqs := Normalize(input);
    SpecCharacterised(seqs, o);
    RelationClosed(seqs, o, SuccessorSpec(seqs, o));
    EmissionNodes(SuccessorSpec(seqs, o));
  }

  /** The builder's output has an arc out of the node of `a` labelled `b`
      exactly when `b` may follow `a` in the candidates. */
  lemma BigramLmArcs(input: WordSequences, o: Options)
    ensures forall a, b :: Emits(SuccessorSpec(Normalize(input), o), a, b) <==> Follows(Normalize(input), o, a, b)
  {
    var seqs := Normalize(input);
    SpecCharacterised(seqs, o);
    RelationArcs(seqs, o, SuccessorSpec(seqs, o));
  }

  /** Every node of the builder's output has an outgoing arc: no word is a
      dead end, since the last word of every sequence is followed by
      `<unk>`, and `<unk>` and every disfluency have successors too. */
  lemma BigramLmNoDeadEnd(input: WordSequences, o: Options)
    ensures forall a :: IsNode(Normalize(input), o, a) ==> exists b :: Emits(SuccessorSpec(Normalize(input), o), a, b)
  {
    BigramLmArcs(input, o);
    RelationEveryNode(Normalize(input), o, SuccessorSpec(Normalize(input), o));
  }

  /** The text depends only on which non-empty sequences are given: the
      candidates' order, repetitions and empty candidates change nothing. */
  lemma BigramLmOrderFree(seqs1: seq<seq<Word>>, seqs2: seq<seq<Word>>, o: Options)
    requires forall s :: (s in seqs1 && |s| > 0) <==> (s in seqs2 && |s| > 0)
    ensures Emission(SuccessorSpec(seqs1, o)) == Emission(SuccessorSpec(seqs2, o))
  {
    SpecDependsOnlyOnNonEmptySequences(seqs1, seqs2, o);
  }
}
