/** The first half of the bigram builder: the dictionary `bigrams` from each
    word to the set of words allowed to follow it, built by walking every
    candidate sequence. */
module Successors {
  import opened Words
  import opened WordInput

  /** The dictionary `bigrams`: word -> set of successor words. */
  type Bigrams = map<Word, set<Word>>

  /** `b` is recorded as a successor of `a`. */
  ghost predicate Has(m: Bigrams, a: Word, b: Word)
  {
    a in m && b in m[a]
  }

  // ---------------------------------------------------------------------
  // The specification: which pairs the finished dictionary must relate.
  // ---------------------------------------------------------------------

  /** Pairs contributed by the start of a sequence whose first word is
      `first`: OOV -> first, and with disfluencies OOV -> d, d -> first and
      d -> OOV for every disfluency d. */
  ghost predicate StartFollows(first: Word, o: Options, a: Word, b: Word)
  {
    || (a == OOV && b == first)
    || (o.disfluency && a == OOV && b in o.disfluencies)
    || (o.disfluency && a in o.disfluencies && (b == first || b == OOV))
  }

  /** Pairs contributed by two adjacent words `prev`, `word`: prev -> word;
      conservatively prev -> OOV; with disfluencies prev -> d and d -> word. */
  ghost predicate StepFollows(prev: Word, word: Word, o: Options, a: Word, b: Word)
  {
    || (a == prev && b == word)
    || (o.conservative && a == prev && b == OOV)
    || (o.disfluency && a == prev && b in o.disfluencies)
    || (o.disfluency && a in o.disfluencies && b == word)
  }

  /** Pairs contributed by the adjacent pairs (s[i-1], s[i]) with 1 <= i < n. */
  ghost predicate InnerFollows(s: seq<Word>, n: nat, o: Options, a: Word, b: Word)
    requires n <= |s|
  {
    exists i :: 1 <= i < n && StepFollows(s[i - 1], s[i], o, a, b)
  }

  /** Everything one non-empty sequence contributes, the last word -> OOV
      included. */
  ghost predicate SeqFollows(s: seq<Word>, o: Options, a: Word, b: Word)
    requires |s| > 0
  {
    || StartFollows(s[0], o, a, b)
    || InnerFollows(s, |s|, o, a, b)
    || (a == s[|s| - 1] && b == OOV)
  }

  /** The successor relation of a list of sequences: OOV -> OOV, and what
      every non-empty sequence contributes. */
  ghost predicate Follows(seqs: seq<seq<Word>>, o: Options, a: Word, b: Word)
  {
    || (a == OOV && b == OOV)
    || exists s :: s in seqs && |s| > 0 && SeqFollows(s, o, a, b)
  }

  /** The words a non-empty sequence makes keys: its own words, and the
      disfluencies when they are switched on. */
  function SeqKeys(s: seq<Word>, o: Options): set<Word>
  {
    Elems(s) + (if o.disfluency then Elems(o.disfluencies) else {})
  }

  /** The keys of the finished dictionary. */
  ghost predicate IsNode(seqs: seq<seq<Word>>, o: Options, w: Word)
  {
    w == OOV || exists s :: s in seqs && |s| > 0 && w in SeqKeys(s, o)
  }

  /** The keys as a finite set. */
  ghost function Vocabulary(seqs: seq<seq<Word>>, o: Options): (v: set<Word>)
    ensures forall w :: w in v <==> IsNode(seqs, o, w)
  {
    {OOV} + (set s, w | s in seqs && |s| > 0 && w in SeqKeys(s, o) :: w)
  }

  /** The dictionary the builder must produce, as a value. */
  ghost function SuccessorSpec(seqs: seq<seq<Word>>, o: Options): Bigrams
  {
    var v := Vocabulary(seqs, o);
    map a | a in v :: set b | b in v && Follows(seqs, o, a, b)
  }

  // ---------------------------------------------------------------------
  // The dictionary operations the source uses.
  // ---------------------------------------------------------------------

  /** `bigrams.setdefault(k, set()).add(v)` */
  function SetDefaultAdd(m: Bigrams, k: Word, v: Word): (r: Bigrams)
    ensures r.Keys == m.Keys + {k}
    ensures forall a, b :: Has(r, a, b) <==> Has(m, a, b) || (a == k && b == v)
  {
    m[k := (if k in m then m[k] else {}) + {v}]
  }

  /** `bigrams[k].add(v)`: the key must already be present. */
  function Add(m: Bigrams, k: Word, v: Word): (r: Bigrams)
    requires k in m
    ensures r.Keys == m.Keys
    ensures forall a, b :: Has(r, a, b) <==> Has(m, a, b) || (a == k && b == v)
  {
    m[k := m[k] + {v}]
  }

  /** `bigrams[k].update(vs)`: the key must already be present. */
  function Update(m: Bigrams, k: Word, vs: seq<Word>): (r: Bigrams)
    requires k in m
    ensures r.Keys == m.Keys
    ensures forall a, b :: Has(r, a, b) <==> Has(m, a, b) || (a == k && b in vs)
  {
    m[k := m[k] + Elems(vs)]
  }

  // ---------------------------------------------------------------------
  // The loops of the builder.
  // ---------------------------------------------------------------------

  /** For every disfluency d: `setdefault(d, set()).add(first)` and
      `bigrams[d].add(OOV)`. */
  method LinkDisfluencies(m0: Bigrams, dis: seq<Word>, first: Word) returns (m: Bigrams)
    ensures m.Keys == m0.Keys + Elems(dis)
    ensures forall a, b :: Has(m, a, b) <==> Has(m0, a, b) || (a in dis && (b == first || b == OOV))
  {
    m := m0;
    for i := 0 to |dis|
      invariant m.Keys == m0.Keys + Elems(dis[..i])
      invariant forall a, b :: Has(m, a, b) <==> Has(m0, a, b) || (a in dis[..i] && (b == first || b == OOV))
    {
      assert dis[..i + 1] == dis[..i] + [dis[i]];
      m := SetDefaultAdd(m, dis[i], first);
      m := Add(m, dis[i], OOV);
    }
    assert dis[..|dis|] == dis;
  }

  /** For every disfluency d: `bigrams[d].add(word)`; every d is already a key. */
  method DisfluenciesPrecede(m0: Bigrams, dis: seq<Word>, word: Word) returns (m: Bigrams)
    requires forall d :: d in dis ==> d in m0
    ensures m.Keys == m0.Keys
    ensures forall a, b :: Has(m, a, b) <==> Has(m0, a, b) || (a in dis && b == word)
  {
    m := m0;
    for i := 0 to |dis|
      invariant m.Keys == m0.Keys
      invariant forall a, b :: Has(m, a, b) <==> Has(m0, a, b) || (a in dis[..i] && b == word)
    {
      assert dis[..i + 1] == dis[..i] + [dis[i]];
      m := Add(m, dis[i], word);
    }
    assert dis[..|dis|] == dis;
  }

  lemma InnerFollowsNext(s: seq<Word>, j: nat, o: Options)
    requires 1 <= j < |s|
    ensures forall a, b :: InnerFollows(s, j + 1, o, a, b) <==>
      InnerFollows(s, j, o, a, b) || StepFollows(s[j - 1], s[j], o, a, b)
  {
    forall a, b
      ensures InnerFollows(s, j + 1, o, a, b) <==>
        InnerFollows(s, j, o, a, b) || StepFollows(s[j - 1], s[j], o, a, b)
    {
      if StepFollows(s[j - 1], s[j], o, a, b) {
        assert 1 <= j < j + 1 && StepFollows(s[j - 1], s[j], o, a, b);
      }
    }
  }

  /** Lines 45-53: the start of a sequence whose first word is `first`. */
  method AddStart(m0: Bigrams, first: Word, o: Options) returns (m: Bigrams)
    requires OOV in m0
    ensures m.Keys == m0.Keys + (if o.disfluency then Elems(o.disfluencies) else {})
    ensures forall a, b :: Has(m, a, b) <==> Has(m0, a, b) || StartFollows(first, o, a, b)
  {
    m := Add(m0, OOV, first);
    if o.disfluency {
      m := Update(m, OOV, o.disfluencies);
      m := LinkDisfluencies(m, o.disfluencies, first);
    }
  }

  /** Lines 56-65: one adjacent pair `prev`, `word`; `prev` becomes a key. */
  method AddStep(m0: Bigrams, prev: Word, word: Word, o: Options) returns (m: Bigrams)
    requires o.disfluency ==> forall d :: d in o.disfluencies ==> d in m0
    ensures m.Keys == m0.Keys + {prev}
    ensures forall a, b :: Has(m, a, b) <==> Has(m0, a, b) || StepFollows(prev, word, o, a, b)
  {
    m := SetDefaultAdd(m0, prev, word);
    if o.conservative {
      m := Add(m, prev, OOV);
    }
    if o.disfluency {
      m := Update(m, prev, o.disfluencies);
      m := DisfluenciesPrecede(m, o.disfluencies, word);
    }
  }

  /** The body of the outer loop for one non-empty sequence (lines 45-70):
      start edges, one step per adjacent pair, and the end edge to OOV. */
  method AddSequence(m0: Bigrams, s: seq<Word>, o: Options) returns (m: Bigrams)
    requires |s| > 0
    requires OOV in m0
    ensures m.Keys == m0.Keys + SeqKeys(s, o)
    ensures forall a, b :: Has(m, a, b) <==> Has(m0, a, b) || SeqFollows(s, o, a, b)
  {
    var disKeys := if o.disfluency then Elems(o.disfluencies) else {};
    var prev := s[0];
    m := AddStart(m0, prev, o);
    var j := 1;
    while j < |s|
      invariant 1 <= j <= |s|
      invariant prev == s[j - 1]
      invariant m.Keys == m0.Keys + disKeys + Elems(s[..j - 1])
      invariant forall a, b :: Has(m, a, b) <==>
        Has(m0, a, b) || StartFollows(s[0], o, a, b) || InnerFollows(s, j, o, a, b)
    {
      var word := s[j];
      m := AddStep(m, prev, word, o);
      InnerFollowsNext(s, j, o);
      assert s[..j] == s[..j - 1] + [s[j - 1]];
      prev := word;
      j := j + 1;
    }
    m := SetDefaultAdd(m, prev, OOV);
    assert s[..j - 1] + [s[j - 1]] == s;
  }

  lemma FollowsNext(seqs: seq<seq<Word>>, k: nat, o: Options)
    requires k < |seqs|
    ensures forall a, b :: Follows(seqs[..k + 1], o, a, b) <==>
      Follows(seqs[..k], o, a, b) || (|seqs[k]| > 0 && SeqFollows(seqs[k], o, a, b))
    ensures forall w :: IsNode(seqs[..k + 1], o, w) <==>
      IsNode(seqs[..k], o, w) || (|seqs[k]| > 0 && w in SeqKeys(seqs[k], o))
  {
    assert seqs[..k + 1] == seqs[..k] + [seqs[k]];
  }

  /** Lines 39-70: the dictionary built from every sequence is exactly the
      successor relation `Follows`, its keys exactly the `IsNode` words. */
  method BuildSuccessors(seqs: seq<seq<Word>>, o: Options) returns (m: Bigrams)
    ensures forall w :: w in m <==> IsNode(seqs, o, w)
    ensures forall a, b :: Has(m, a, b) <==> Follows(seqs, o, a, b)
    ensures m == SuccessorSpec(seqs, o)
  {
    m := map[OOV := {OOV}];
    for k := 0 to |seqs|
      invariant OOV in m
      invariant forall w :: w in m <==> IsNode(seqs[..k], o, w)
      invariant forall a, b :: Has(m, a, b) <==> Follows(seqs[..k], o, a, b)
    {
      FollowsNext(seqs, k, o);
      if |seqs[k]| == 0 {
        continue;
      }
      m := AddSequence(m, seqs[k], o);
    }
    assert seqs[..|seqs|] == seqs;
    SpecCharacterised(seqs, o);
    MapDeterminedByRelation(m, SuccessorSpec(seqs, o));
  }

  // ---------------------------------------------------------------------
  // Properties of the relation.
  // ---------------------------------------------------------------------

  /** Every word on either side of a recorded pair is a key: nothing points
      outside the dictionary. */
  lemma FollowsWithinNodes(seqs: seq<seq<Word>>, o: Options, a: Word, b: Word)
    requires Follows(seqs, o, a, b)
    ensures IsNode(seqs, o, a) && IsNode(seqs, o, b)
  {
    if !(a == OOV && b == OOV) {
      var s :| s in seqs && |s| > 0 && SeqFollows(s, o, a, b);
      assert s[0] in SeqKeys(s, o) && s[|s| - 1] in SeqKeys(s, o);
      if InnerFollows(s, |s|, o, a, b) {
        var i :| 1 <= i < |s| && StepFollows(s[i - 1], s[i], o, a, b);
        assert s[i - 1] in SeqKeys(s, o) && s[i] in SeqKeys(s, o);
      }
    }
  }

  /** Every key has at least one successor. */
  lemma NodeHasSuccessor(seqs: seq<seq<Word>>, o: Options, a: Word)
    requires IsNode(seqs, o, a)
    ensures exists b :: Follows(seqs, o, a, b)
  {
    if a == OOV {
      assert Follows(seqs, o, a, OOV);
    } else {
      var s :| s in seqs && |s| > 0 && a in SeqKeys(s, o);
      if a in s {
        var i :| 0 <= i < |s| && s[i] == a;
        if i == |s| - 1 {
          assert SeqFollows(s, o, a, OOV);
          assert Follows(seqs, o, a, OOV);
        } else {
          assert StepFollows(s[i + 1 - 1], s[i + 1], o, a, s[i + 1]);
          assert SeqFollows(s, o, a, s[i + 1]);
          assert Follows(seqs, o, a, s[i + 1]);
        }
      } else {
        assert StartFollows(s[0], o, a, OOV);
        assert Follows(seqs, o, a, OOV);
      }
    }
  }

  /** The specified dictionary relates exactly the `Follows` pairs and has
      exactly the `IsNode` words as keys. */
  lemma SpecCharacterised(seqs: seq<seq<Word>>, o: Options)
    ensures forall w :: w in SuccessorSpec(seqs, o) <==> IsNode(seqs, o, w)
    ensures forall a, b :: Has(SuccessorSpec(seqs, o), a, b) <==> Follows(seqs, o, a, b)
  {
    forall a, b | Follows(seqs, o, a, b)
      ensures Has(SuccessorSpec(seqs, o), a, b)
    {
      FollowsWithinNodes(seqs, o, a, b);
    }
  }

  /** Two dictionaries with the same keys and the same pairs are equal. */
  lemma MapDeterminedByRelation(m1: Bigrams, m2: Bigrams)
    requires forall w :: w in m1 <==> w in m2
    requires forall a, b :: Has(m1, a, b) <==> Has(m2, a, b)
    ensures m1 == m2
  {
    forall a | a in m1
      ensures m1[a] == m2[a]
    {
      assert forall b :: b in m1[a] <==> Has(m1, a, b);
    }
  }

  /** Closure: every key has a non-empty successor set and every successor
      is a key, so each emitted target has its own outgoing edges and the
      `weight = 0` branch for an empty successor set is never taken. */
  lemma SuccessorsClosed(seqs: seq<seq<Word>>, o: Options)
    ensures forall a :: a in SuccessorSpec(seqs, o) ==>
      SuccessorSpec(seqs, o)[a] != {} && SuccessorSpec(seqs, o)[a] <= SuccessorSpec(seqs, o).Keys
  {
    var m := SuccessorSpec(seqs, o);
    SpecCharacterised(seqs, o);
    forall a | a in m
      ensures m[a] != {} && m[a] <= m.Keys
    {
      NodeHasSuccessor(seqs, o, a);
      var b :| Follows(seqs, o, a, b);
      assert Has(m, a, b);
      forall c | c in m[a]
        ensures c in m
      {
        assert Has(m, a, c);
        FollowsWithinNodes(seqs, o, a, c);
      }
    }
  }

  /** The relation depends only on which non-empty sequences occur: the
      order of the candidates, repetitions and empty candidates do not
      matter. */
  lemma SpecDependsOnlyOnNonEmptySequences(seqs1: seq<seq<Word>>, seqs2: seq<seq<Word>>, o: Options)
    requires forall s :: (s in seqs1 && |s| > 0) <==> (s in seqs2 && |s| > 0)
    ensures SuccessorSpec(seqs1, o) == SuccessorSpec(seqs2, o)
  {
    SpecCharacterised(seqs1, o);
    SpecCharacterised(seqs2, o);
    forall a, b
      ensures Follows(seqs1, o, a, b) <==> Follows(seqs2, o, a, b)
    {
      if Follows(seqs1, o, a, b) && !(a == OOV && b == OOV) {
        var s :| s in seqs1 && |s| > 0 && SeqFollows(s, o, a, b);
        assert s in seqs2;
      }
      if Follows(seqs2, o, a, b) && !(a == OOV && b == OOV) {
        var s :| s in seqs2 && |s| > 0 && SeqFollows(s, o, a, b);
        assert s in seqs1;
      }
    }
    forall w
      ensures IsNode(seqs1, o, w) <==> IsNode(seqs2, o, w)
    {
      if IsNode(seqs1, o, w) && w != OOV {
        var s :| s in seqs1 && |s| > 0 && w in SeqKeys(s, o);
        assert s in seqs2;
      }
      if IsNode(seqs2, o, w) && w != OOV {
        var s :| s in seqs2 && |s| > 0 && w in SeqKeys(s, o);
        assert s in seqs1;
      }
    }
    MapDeterminedByRelation(SuccessorSpec(seqs1, o), SuccessorSpec(seqs2, o));
  }

  /** OOV always keeps itself as a successor, so once some non-empty
      sequence starts with a word other than OOV, OOV has at least two
      successors. */
  lemma OovBranches(seqs: seq<seq<Word>>, o: Options, s: seq<Word>)
    requires s in seqs && |s| > 0 && s[0] != OOV
    ensures OOV in SuccessorSpec(seqs, o)
    ensures {OOV, s[0]} <= SuccessorSpec(seqs, o)[OOV]
    ensures |SuccessorSpec(seqs, o)[OOV]| >= 2
  {
    var m := SuccessorSpec(seqs, o);
    SpecCharacterised(seqs, o);
    assert SeqFollows(s, o, OOV, s[0]);
    assert Has(m, OOV, s[0]) && Has(m, OOV, OOV);
    assert {OOV, s[0]} <= m[OOV];
    assert |{OOV, s[0]}| == 2;
    SubsetCardinality({OOV, s[0]}, m[OOV]);
  }

  lemma SubsetCardinality(a: set<Word>, b: set<Word>)
    requires a <= b
    ensures |a| <= |b|
  {
    assert b == a + (b - a);
  }
}
