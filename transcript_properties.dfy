/** What the transcript builder guarantees: when its final assertion holds,
    what the arcs it writes look like (an acceptor of chains from node 0 to
    the end node, every word arc doubled by an `<unk>` arc, every node
    carrying its self-loops once), and what the text is. */
module TranscriptProperties {
  import opened Words
  import opened WordInput
  import opened TranscriptArcs
  import opened FstText
  import opened TranscriptFst

  // ---------------------------------------------------------------------
  // The end id and the assertion of line 180.
  // ---------------------------------------------------------------------

  /** How many of the first `k` sequences are empty. */
  function EmptyCount(seqs: seq<seq<Word>>, k: nat): nat
    requires k <= |seqs|
  {
    if k == 0 then 0 else EmptyCount(seqs, k - 1) + (if |seqs[k - 1]| == 0 then 1 else 0)
  }

  /** Line 122's sum falls short of the fresh ids by one per empty
      sequence. */
  lemma {:induction false} LengthSumCountsEmpty(seqs: seq<seq<Word>>, k: nat)
    requires k <= |seqs|
    ensures LengthSum(seqs, k) == FreshCount(seqs, k) - EmptyCount(seqs, k)
    ensures EmptyCount(seqs, k) == 0 <==> forall i :: 0 <= i < k ==> |seqs[i]| > 0
  {
    if k > 0 {
      LengthSumCountsEmpty(seqs, k - 1);
    }
  }

  /** The assertion of line 180 compares line 122's end id with the
      counter after the loop; they agree exactly when no sequence is empty,
      and otherwise the end id is the smaller. */
  lemma EndNodeAssertion(seqs: seq<seq<Word>>)
    ensures EndNodeId(seqs) <= 1 + FreshCount(seqs, |seqs|)
    ensures EndNodeId(seqs) == 1 + FreshCount(seqs, |seqs|) <==> forall i :: 0 <= i < |seqs| ==> |seqs[i]| > 0
  {
    LengthSumCountsEmpty(seqs, |seqs|);
  }

  /** The builder as written writes its text exactly when no normalised
      sequence is empty; the empty input `[]` becomes `[[]]` and always
      stops at the assertion with end id 0 against counter 1. */
  lemma TranscriptOutcome(input: WordSequences, o: Options)
    ensures var seqs := Normalize(input);
      OutcomeFor(seqs, o, EndNodeId(seqs)).Written? <==> forall i :: 0 <= i < |seqs| ==> |seqs[i]| > 0
    ensures IsEmptyList(input) ==> OutcomeFor(Normalize(input), o, EndNodeId(Normalize(input))) == AssertionError(0, 1)
  {
    EndNodeAssertion(Normalize(input));
    if IsEmptyList(input) {
      var seqs := Normalize(input);
      assert seqs == [[]];
      assert LengthSum(seqs, 1) == -1;
      assert FreshCount(seqs, 1) == 0;
    }
  }

  /** A concrete input that stops at the assertion: the candidates
      `[["a"], []]`, the second of which the loop skips but line 122
      counts as -1. */
  lemma EmptyCandidateRejected()
    ensures var seqs := Normalize(Nested([["a"], []]));
      OutcomeFor(seqs, Defaults, EndNodeId(seqs)) == AssertionError(0, 1)
  {
    var seqs := Normalize(Nested([["a"], []]));
    assert LengthSum(seqs, 1) == 0;
    assert FreshCount(seqs, 1) == 0;
  }

  /** The corrected end id agrees with line 122 on every input the builder
      as written accepts, and the corrected builder never fails. */
  lemma CorrectedEndNode(input: WordSequences, o: Options)
    ensures var seqs := Normalize(input);
      OutcomeFor(seqs, o, EndNodeId(seqs)).Written? ==> EndNodeIdCorrected(seqs) == EndNodeId(seqs)
    ensures var seqs := Normalize(input);
      OutcomeFor(seqs, o, EndNodeIdCorrected(seqs)).Written?
    ensures var seqs := Normalize(input);
      EndNodeIdCorrected(seqs) == EndNodeId(seqs) + EmptyCount(seqs, |seqs|)
  {
    LengthSumCountsEmpty(Normalize(input), |Normalize(input)|);
  }

  // ---------------------------------------------------------------------
  // The shape of the arcs.
  // ---------------------------------------------------------------------

  /** The words of the first `k` sequences. */
  function AllWords(seqs: seq<seq<Word>>, k: nat): (r: set<Word>)
    requires k <= |seqs|
    ensures forall w :: w in r <==> exists i :: 0 <= i < k && w in seqs[i]
  {
    if k == 0 then {} else AllWords(seqs, k - 1) + Elems(seqs[k - 1])
  }

  /** `v` is the start node, the end node or a fresh id in `[lo, hi)`. */
  predicate NodeIn(v: int, lo: int, hi: int, end: int)
  {
    v == 0 || v == end || lo <= v < hi
  }

  /** `a` is an acceptor arc (input label = output label) labelled `<unk>`,
      a disfluency or one of `words`, a `2.0` arc only when labelled with
      one of `words`, and it joins nodes of `[lo, hi)`, 0 or `end`. */
  predicate Shaped(a: Arc, words: set<Word>, o: Options, lo: int, hi: int, end: int)
  {
    && a.ilabel == a.olabel
    && (a.ilabel == OOV || (o.disfluency && a.ilabel in o.disfluencies) || a.ilabel in words)
    && (a.cost == Penalty ==> a.ilabel in words)
    && NodeIn(a.src, lo, hi, end) && NodeIn(a.dst, lo, hi, end)
  }

  /** The `0.0` `<unk>` arc between the endpoints of `a`. */
  function OovTwin(a: Arc): Arc
  {
    Arc(a.src, a.dst, OOV, OOV, Free)
  }

  /** The chain nodes of a sequence of `n` words: 0, then fresh ids from
      `base` on, then `end`. */
  lemma ChainNodeIn(n: nat, base: int, end: int, i: nat)
    requires i <= n
    ensures NodeIn(ChainNode(n, base, end, i), base, base + n - 1, end)
  {
  }

  lemma WordArcsShaped(s: seq<Word>, base: int, end: int, o: Options, i: nat, a: Arc)
    requires i < |s| && a in WordArcs(s, base, end, o, i)
    ensures Shaped(a, Elems(s), o, base, base + |s| - 1, end)
    ensures a.cost == Penalty ==> OovTwin(a) in WordArcs(s, base, end, o, i)
  {
    var from, to := ChainNode(|s|, base, end, i), ChainNode(|s|, base, end, i + 1);
    ChainNodeIn(|s|, base, end, i);
    ChainNodeIn(|s|, base, end, i + 1);
    var pair := [Arc(from, to, s[i], s[i], Penalty), Arc(from, to, OOV, OOV, Free)];
    assert WordArcs(s, base, end, o, i) == pair + (if i < |s| - 1 then SelfLoops(to, o) else []);
    if a in pair {
      assert s[i] in Elems(s);
    } else {
      SelfLoopShape(to, o, a);
    }
  }

  lemma ChainArcsShaped(s: seq<Word>, base: int, end: int, o: Options, k: nat, a: Arc)
    requires k <= |s| && a in ChainArcs(s, base, end, o, k)
    ensures Shaped(a, Elems(s), o, base, base + |s| - 1, end)
    ensures a.cost == Penalty ==> OovTwin(a) in ChainArcs(s, base, end, o, k)
  {
    ChainArcsWord(s, base, end, o, k, a);
    var i :| 0 <= i < k && a in WordArcs(s, base, end, o, i);
    WordArcsShaped(s, base, end, o, i, a);
    if a.cost == Penalty {
      WordArcsInChain(s, base, end, o, k, i, OovTwin(a));
    }
  }

  /** Every arc of the first `k` words is an arc of one of them. */
  lemma {:induction false} ChainArcsWord(s: seq<Word>, base: int, end: int, o: Options, k: nat, a: Arc)
    requires k <= |s| && a in ChainArcs(s, base, end, o, k)
    ensures exists i :: 0 <= i < k && a in WordArcs(s, base, end, o, i)
  {
    if a in ChainArcs(s, base, end, o, k - 1) {
      ChainArcsWord(s, base, end, o, k - 1, a);
    } else {
      assert a in WordArcs(s, base, end, o, k - 1);
    }
  }

  /** Every arc of word `i` is an arc of the first `k > i` words. */
  lemma {:induction false} WordArcsInChain(s: seq<Word>, base: int, end: int, o: Options, k: nat, i: nat, a: Arc)
    requires i < k <= |s| && a in WordArcs(s, base, end, o, i)
    ensures a in ChainArcs(s, base, end, o, k)
  {
    if i < k - 1 {
      WordArcsInChain(s, base, end, o, k - 1, i, a);
    }
  }

  lemma ChainArcsSplit(s: seq<Word>, base: int, end: int, o: Options, k: nat, x: seq<Arc>, y: seq<Arc>)
    requires 0 < k <= |s|
    requires x == ChainArcs(s, base, end, o, k - 1) && y == WordArcs(s, base, end, o, k - 1)
    ensures ChainArcs(s, base, end, o, k) == x + y
  {
  }

  lemma SeqArcsShaped(s: seq<Word>, base: int, end: int, o: Options, first: bool, a: Arc)
    requires |s| > 0 && a in SeqArcs(s, base, end, o, first)
    ensures Shaped(a, Elems(s), o, base, base + |s| - 1, end)
    ensures a.cost == Penalty ==> OovTwin(a) in SeqArcs(s, base, end, o, first)
  {
    var chain := ChainArcs(s, base, end, o, |s|);
    if a in chain {
      ChainArcsShaped(s, base, end, o, |s|, a);
    } else if first && a in SelfLoops(0, o) {
      SelfLoopShape(0, o, a);
    } else {
      assert first && a in SelfLoops(end, o);
      SelfLoopShape(end, o, a);
    }
  }

  lemma RoundShaped(seqs: seq<seq<Word>>, k: nat, o: Options, end: int, a: Arc)
    requires k < |seqs| && a in Round(seqs, k, o, end)
    ensures Shaped(a, AllWords(seqs, k + 1), o, 1, 1 + FreshCount(seqs, k + 1), end)
    ensures a.cost == Penalty ==> OovTwin(a) in Round(seqs, k, o, end)
  {
    var s := seqs[k];
    var base := 1 + FreshCount(seqs, k);
    assert |s| > 0;
    var first := !HasNonEmpty(seqs, k);
    assert Round(seqs, k, o, end) == SeqArcs(s, base, end, o, first);
    SeqArcsShaped(s, base, end, o, first, a);
  }

  /** Every arc appended by the first `k` rounds of lines 127-178 is an
      acceptor arc over the candidates' words, `<unk>` and the
      disfluencies; a `2.0` arc carries a word and has the `0.0` `<unk>`
      arc between the same nodes beside it; the only nodes are 0, the end
      id and the fresh ids `1 .. next_available_node_id - 1`. */
  lemma {:induction false} EmittedShaped(seqs: seq<seq<Word>>, k: nat, o: Options, end: int, a: Arc)
    requires k <= |seqs| && a in Emitted(seqs, k, o, end)
    ensures Shaped(a, AllWords(seqs, k), o, 1, 1 + FreshCount(seqs, k), end)
    ensures a.cost == Penalty ==> OovTwin(a) in Emitted(seqs, k, o, end)
  {
    assert k > 0;
    assert Emitted(seqs, k, o, end) == Emitted(seqs, k - 1, o, end) + Round(seqs, k - 1, o, end);
    if a in Emitted(seqs, k - 1, o, end) {
      EmittedShaped(seqs, k - 1, o, end, a);
    } else {
      RoundShaped(seqs, k - 1, o, end, a);
    }
  }

  // ---------------------------------------------------------------------
  // The chains.
  // ---------------------------------------------------------------------

  /** The `2.0` arc of word `i` of a chain of fresh ids from `base`. */
  function WordArc(s: seq<Word>, base: int, end: int, i: nat): Arc
    requires i < |s|
  {
    Arc(ChainNode(|s|, base, end, i), ChainNode(|s|, base, end, i + 1), s[i], s[i], Penalty)
  }

  /** The first `k` words of `s` each have their `2.0` arc from the node
      reached after `i` words to the next one. */
  lemma {:induction false} ChainArcsHaveWord(s: seq<Word>, base: int, end: int, o: Options, k: nat, i: nat)
    requires i < k <= |s|
    ensures WordArc(s, base, end, i) in ChainArcs(s, base, end, o, k)
  {
    var x, y := ChainArcs(s, base, end, o, k - 1), WordArcs(s, base, end, o, k - 1);
    ChainArcsSplit(s, base, end, o, k, x, y);
    if i < k - 1 {
      ChainArcsHaveWord(s, base, end, o, k - 1, i);
    } else {
      assert y[0] == WordArc(s, base, end, i);
    }
  }

  /** Every candidate sequence `j` is spelled by a path of `2.0` arcs from
      node 0 to the end node: word `i` goes from the node reached after `i`
      words to the next, through the fresh ids `base, base + 1, ...` that
      the counter hands out to sequence `j`. */
  lemma EmittedHasChain(seqs: seq<seq<Word>>, k: nat, o: Options, end: int, j: nat, i: nat)
    requires j < k <= |seqs| && i < |seqs[j]|
    ensures WordArc(seqs[j], 1 + FreshCount(seqs, j), end, i) in Emitted(seqs, k, o, end)
  {
    var a := WordArc(seqs[j], 1 + FreshCount(seqs, j), end, i);
    RoundHasChain(seqs, j, o, end, i);
    RoundEmitted(seqs, j, o, end, a);
    EmittedMonotone(seqs, j + 1, k, o, end, a);
  }

  /** Rounds only append. */
  lemma {:induction false} EmittedMonotone(seqs: seq<seq<Word>>, k1: nat, k2: nat, o: Options, end: int, a: Arc)
    requires k1 <= k2 <= |seqs| && a in Emitted(seqs, k1, o, end)
    ensures a in Emitted(seqs, k2, o, end)
    decreases k2
  {
    if k1 < k2 {
      EmittedMonotone(seqs, k1, k2 - 1, o, end, a);
      assert Emitted(seqs, k2, o, end) == Emitted(seqs, k2 - 1, o, end) + Round(seqs, k2 - 1, o, end);
    }
  }

  lemma RoundEmitted(seqs: seq<seq<Word>>, k: nat, o: Options, end: int, a: Arc)
    requires k < |seqs| && a in Round(seqs, k, o, end)
    ensures a in Emitted(seqs, k + 1, o, end)
  {
    assert Emitted(seqs, k + 1, o, end) == Emitted(seqs, k, o, end) + Round(seqs, k, o, end);
  }

  lemma RoundHasChain(seqs: seq<seq<Word>>, j: nat, o: Options, end: int, i: nat)
    requires j < |seqs| && i < |seqs[j]|
    ensures WordArc(seqs[j], 1 + FreshCount(seqs, j), end, i) in Round(seqs, j, o, end)
  {
    var s, base := seqs[j], 1 + FreshCount(seqs, j);
    ChainArcsHaveWord(s, base, end, o, |s|, i);
    if HasNonEmpty(seqs, j) {
      SeqArcsHasChain(s, base, end, o, false, i);
    } else {
      SeqArcsHasChain(s, base, end, o, true, i);
    }
  }

  lemma SeqArcsHasChain(s: seq<Word>, base: int, end: int, o: Options, first: bool, i: nat)
    requires i < |s| && WordArc(s, base, end, i) in ChainArcs(s, base, end, o, |s|)
    ensures WordArc(s, base, end, i) in SeqArcs(s, base, end, o, first)
  {
  }

  /** The path starts at node 0 and ends at the end node; a one-word
      sequence is the single arc 0 -> end; in between the nodes are fresh,
      consecutive and increasing. */
  lemma ChainEnds(n: nat, base: int, end: int)
    requires n >= 1
    ensures ChainNode(n, base, end, 0) == 0 && ChainNode(n, base, end, n) == end
    ensures n == 1 ==> ChainNode(n, base, end, 1) == end
    ensures forall i :: 0 < i < n ==> ChainNode(n, base, end, i) == base + i - 1
  {
  }

  lemma {:induction false} FreshCountMonotone(seqs: seq<seq<Word>>, k1: nat, k2: nat)
    requires k1 <= k2 <= |seqs|
    ensures FreshCount(seqs, k1) <= FreshCount(seqs, k2)
    decreases k2
  {
    if k1 < k2 {
      FreshCountMonotone(seqs, k1, k2 - 1);
    }
  }

  /** Different sequences never share an intermediate node: the fresh ids
      of a later sequence all come after those of an earlier one, and all
      come before the counter's final value. */
  lemma InnerNodesDistinct(seqs: seq<seq<Word>>, end: int, j1: nat, i1: nat, j2: nat, i2: nat)
    requires j1 < j2 < |seqs|
    requires 0 < i1 < |seqs[j1]| && 0 < i2 < |seqs[j2]|
    ensures 1 <= ChainNode(|seqs[j1]|, 1 + FreshCount(seqs, j1), end, i1)
      < ChainNode(|seqs[j2]|, 1 + FreshCount(seqs, j2), end, i2)
      < 1 + FreshCount(seqs, |seqs|)
  {
    FreshCountMonotone(seqs, j1 + 1, j2);
    FreshCountMonotone(seqs, j2 + 1, |seqs|);
    assert FreshCount(seqs, j1 + 1) == FreshCount(seqs, j1) + |seqs[j1]| - 1;
    assert FreshCount(seqs, j2 + 1) == FreshCount(seqs, j2) + |seqs[j2]| - 1;
  }

  // ---------------------------------------------------------------------
  // The self-loops.
  // ---------------------------------------------------------------------

  /** The self-loops on `v` in `arcs`, in order. */
  function Loops(arcs: seq<Arc>, v: int): seq<Arc>
  {
    if arcs == [] then []
    else (if arcs[0].src == v && arcs[0].dst == v then [arcs[0]] else []) + Loops(arcs[1..], v)
  }

  lemma {:induction false} LoopsConcat(x: seq<Arc>, y: seq<Arc>, v: int)
    ensures Loops(x + y, v) == Loops(x, v) + Loops(y, v)
  {
    if x != [] {
      assert (x + y)[0] == x[0];
      assert (x + y)[1..] == x[1..] + y;
      LoopsConcat(x[1..], y, v);
    } else {
      assert x + y == y;
    }
  }

  lemma {:induction false} LoopsAll(arcs: seq<Arc>, v: int)
    requires forall k :: 0 <= k < |arcs| ==> arcs[k].src == v && arcs[k].dst == v
    ensures Loops(arcs, v) == arcs
  {
    if arcs != [] {
      LoopsAll(arcs[1..], v);
      assert arcs == [arcs[0]] + arcs[1..];
    }
  }

  lemma {:induction false} LoopsNone(arcs: seq<Arc>, v: int)
    requires forall k :: 0 <= k < |arcs| ==> arcs[k].src != v || arcs[k].dst != v
    ensures Loops(arcs, v) == []
  {
    if arcs != [] {
      LoopsNone(arcs[1..], v);
    }
  }

  /** The self-loops written for node `u` are self-loops on `u` only. */
  lemma LoopsOfSelfLoops(u: int, o: Options, v: int)
    ensures Loops(SelfLoops(u, o), v) == if u == v then SelfLoops(u, o) else []
  {
    var r := SelfLoops(u, o);
    forall k | 0 <= k < |r|
      ensures r[k].src == u && r[k].dst == u
    {
      SelfLoopShape(u, o, r[k]);
    }
    if u == v {
      LoopsAll(r, v);
    } else {
      LoopsNone(r, v);
    }
  }

  /** Of two lists, at most one holds self-loops on `v`. */
  lemma LoopsJoin(x: seq<Arc>, y: seq<Arc>, v: int, l: seq<Arc>)
    requires (Loops(x, v) == [] && Loops(y, v) == l) || (Loops(x, v) == l && Loops(y, v) == [])
    ensures Loops(x + y, v) == l
  {
    LoopsConcat(x, y, v);
    if Loops(x, v) == [] {
      assert [] + l == l;
    } else {
      assert l + [] == l;
    }
  }

  /** Word `i` brings the self-loops of the node it reaches, unless it is
      the last word. */
  lemma LoopsOfWord(s: seq<Word>, base: int, end: int, o: Options, i: nat, v: int)
    requires i < |s| && base >= 1 && end >= base + |s| - 1
    ensures i < |s| - 1 && v == base + i ==> Loops(WordArcs(s, base, end, o, i), v) == SelfLoops(v, o)
    ensures !(i < |s| - 1 && v == base + i) ==> Loops(WordArcs(s, base, end, o, i), v) == []
  {
    var from, to := ChainNode(|s|, base, end, i), ChainNode(|s|, base, end, i + 1);
    assert from < to;
    var pair := [Arc(from, to, s[i], s[i], Penalty), Arc(from, to, OOV, OOV, Free)];
    var rest := if i < |s| - 1 then SelfLoops(to, o) else [];
    assert WordArcs(s, base, end, o, i) == pair + rest;
    LoopsNone(pair, v);
    if i < |s| - 1 {
      LoopsOfSelfLoops(to, o, v);
    }
    if i < |s| - 1 && v == base + i {
      LoopsJoin(pair, rest, v, SelfLoops(v, o));
    } else {
      LoopsJoin(pair, rest, v, []);
    }
  }

  /** The fresh id `v` is reached by one of the first `k` words of a chain
      from `base`, and is not the end. */
  predicate ChainUses(n: nat, base: int, k: nat, v: int)
  {
    base <= v < base + k && v < base + n - 1
  }

  /** The first `k` words bring the self-loops of the fresh ids they
      reach, once each. */
  lemma {:induction false} LoopsOfChain(s: seq<Word>, base: int, end: int, o: Options, k: nat, v: int)
    requires k <= |s| && base >= 1 && end >= base + |s| - 1
    ensures ChainUses(|s|, base, k, v) ==> Loops(ChainArcs(s, base, end, o, k), v) == SelfLoops(v, o)
    ensures !ChainUses(|s|, base, k, v) ==> Loops(ChainArcs(s, base, end, o, k), v) == []
  {
    if k > 0 {
      var x, y := ChainArcs(s, base, end, o, k - 1), WordArcs(s, base, end, o, k - 1);
      ChainArcsSplit(s, base, end, o, k, x, y);
      LoopsConcat(x, y, v);
      LoopsOfChain(s, base, end, o, k - 1, v);
      LoopsOfWord(s, base, end, o, k - 1, v);
      var lx, ly := Loops(x, v), Loops(y, v);
      if lx == [] {
        assert lx + ly == ly;
      } else {
        assert lx + ly == lx;
      }
    }
  }

  /** A non-empty sequence brings the self-loops of its fresh ids, and the
      first one also those of nodes 0 and `end`. */
  lemma LoopsOfSeq(s: seq<Word>, base: int, end: int, o: Options, first: bool, v: int)
    requires |s| >= 1 && base >= 1 && end >= base + |s| - 1
    ensures (first && (v == 0 || v == end)) || ChainUses(|s|, base, |s|, v) ==>
      Loops(SeqArcs(s, base, end, o, first), v) == SelfLoops(v, o)
    ensures !((first && (v == 0 || v == end)) || ChainUses(|s|, base, |s|, v)) ==>
      Loops(SeqArcs(s, base, end, o, first), v) == []
  {
    var head := if first then SelfLoops(0, o) else [];
    var chain := ChainArcs(s, base, end, o, |s|);
    var tail := if first then SelfLoops(end, o) else [];
    LoopsOfChain(s, base, end, o, |s|, v);
    if first {
      LoopsOfSelfLoops(0, o, v);
      LoopsOfSelfLoops(end, o, v);
    }
    var l := SelfLoops(v, o);
    if first && v == 0 {
      LoopsJoin(head, chain, v, l);
      LoopsJoin(head + chain, tail, v, l);
    } else if first && v == end {
      LoopsJoin(head, chain, v, []);
      LoopsJoin(head + chain, tail, v, l);
    } else if ChainUses(|s|, base, |s|, v) {
      LoopsJoin(head, chain, v, l);
      LoopsJoin(head + chain, tail, v, l);
    } else {
      LoopsJoin(head, chain, v, []);
      LoopsJoin(head + chain, tail, v, []);
    }
  }

  lemma {:induction false} NoNonEmptyNoFresh(seqs: seq<seq<Word>>, k: nat)
    requires k <= |seqs| && !HasNonEmpty(seqs, k)
    ensures FreshCount(seqs, k) == 0
  {
    if k > 0 {
      NoNonEmptyNoFresh(seqs, k - 1);
    }
  }

  /** Round `k` uses node `v` for the first time: `v` is one of the fresh
      ids of a non-empty sequence, or node 0 or `end` when that sequence is
      the first non-empty one. */
  predicate RoundUses(seqs: seq<seq<Word>>, k: nat, v: int, end: int)
    requires k < |seqs|
  {
    && |seqs[k]| > 0
    && (|| 1 + FreshCount(seqs, k) <= v < 1 + FreshCount(seqs, k + 1)
        || (!HasNonEmpty(seqs, k) && (v == 0 || v == end)))
  }

  /** The first `k` rounds use node `v`. */
  predicate EmittedUses(seqs: seq<seq<Word>>, k: nat, v: int, end: int)
    requires k <= |seqs|
  {
    HasNonEmpty(seqs, k) && NodeIn(v, 1, 1 + FreshCount(seqs, k), end)
  }

  /** Round `k` brings the self-loops of the nodes it uses first. */
  lemma LoopsOfRound(seqs: seq<seq<Word>>, k: nat, o: Options, end: int, v: int)
    requires k < |seqs| && end >= 1 + FreshCount(seqs, k + 1)
    ensures RoundUses(seqs, k, v, end) ==> Loops(Round(seqs, k, o, end), v) == SelfLoops(v, o)
    ensures !RoundUses(seqs, k, v, end) ==> Loops(Round(seqs, k, o, end), v) == []
  {
    var s, base := seqs[k], 1 + FreshCount(seqs, k);
    if |s| > 0 {
      if HasNonEmpty(seqs, k) {
        LoopsOfSeq(s, base, end, o, false, v);
      } else {
        NoNonEmptyNoFresh(seqs, k);
        LoopsOfSeq(s, base, end, o, true, v);
      }
    }
  }

  /** A node is used by the first `k + 1` rounds when round `k` uses it
      first or an earlier round did, and never both. */
  lemma UsesStep(seqs: seq<seq<Word>>, k: nat, v: int, end: int)
    requires k < |seqs| && end >= 1 + FreshCount(seqs, k + 1)
    ensures EmittedUses(seqs, k + 1, v, end) <==> EmittedUses(seqs, k, v, end) || RoundUses(seqs, k, v, end)
    ensures !(EmittedUses(seqs, k, v, end) && RoundUses(seqs, k, v, end))
  {
    if !HasNonEmpty(seqs, k) {
      NoNonEmptyNoFresh(seqs, k);
    }
  }

  /** Once the end id is past every fresh id, the first `k` rounds give
      each node they use its self-loops exactly once, in the order of the
      options, and no other node any. */
  lemma {:induction false} LoopsOfEmitted(seqs: seq<seq<Word>>, k: nat, o: Options, end: int, v: int)
    requires k <= |seqs| && end >= 1 + FreshCount(seqs, k)
    ensures EmittedUses(seqs, k, v, end) ==> Loops(Emitted(seqs, k, o, end), v) == SelfLoops(v, o)
    ensures !EmittedUses(seqs, k, v, end) ==> Loops(Emitted(seqs, k, o, end), v) == []
  {
    if k > 0 {
      var x, y := Emitted(seqs, k - 1, o, end), Round(seqs, k - 1, o, end);
      assert Emitted(seqs, k, o, end) == x + y;
      LoopsConcat(x, y, v);
      LoopsOfEmitted(seqs, k - 1, o, end, v);
      LoopsOfRound(seqs, k - 1, o, end, v);
      UsesStep(seqs, k - 1, v, end);
      var lx, ly := Loops(x, v), Loops(y, v);
      if lx == [] {
        assert lx + ly == ly;
      } else {
        assert lx + ly == lx;
      }
    }
  }

  // ---------------------------------------------------------------------
  // The text.
  // ---------------------------------------------------------------------

  /** When no word and no disfluency holds a newline, the corrected builder
      writes one line per arc, in tuple order, then the final-state line;
      the lines read back through `split`. */
  lemma WrittenLines(seqs: seq<seq<Word>>, o: Options)
    requires forall j, i :: 0 <= j < |seqs| && 0 <= i < |seqs[j]| ==> '\n' !in seqs[j][i]
    requires forall d :: d in o.disfluencies ==> '\n' !in d
    ensures var end := EndNodeIdCorrected(seqs);
      var arcs := SortArcs(Emitted(seqs, |seqs|, o, end));
      && OutcomeFor(seqs, o, end) == Written(TranscriptText(arcs, end))
      && Split(TranscriptText(arcs, end), '\n') == (if arcs == [] then [""] else ArcLines(arcs)) + [FinalLine(end), ""]
  {
    var end := EndNodeIdCorrected(seqs);
    var arcs := SortArcs(Emitted(seqs, |seqs|, o, end));
    forall k | 0 <= k < |arcs|
      ensures '\n' !in arcs[k].ilabel && '\n' !in arcs[k].olabel
    {
      ArcAvoidsNewline(seqs, o, end, arcs[k]);
    }
    TranscriptTextLines(arcs, end);
  }

  lemma ArcAvoidsNewline(seqs: seq<seq<Word>>, o: Options, end: int, a: Arc)
    requires forall j, i :: 0 <= j < |seqs| && 0 <= i < |seqs[j]| ==> '\n' !in seqs[j][i]
    requires forall d :: d in o.disfluencies ==> '\n' !in d
    requires a in multiset(Emitted(seqs, |seqs|, o, end))
    ensures '\n' !in a.ilabel && '\n' !in a.olabel
  {
    var words := AllWords(seqs, |seqs|);
    assert a in Emitted(seqs, |seqs|, o, end);
    EmittedShaped(seqs, |seqs|, o, end, a);
    assert Shaped(a, words, o, 1, 1 + FreshCount(seqs, |seqs|), end);
    var w := a.ilabel;
    assert w == a.olabel;
    if w in words {
      WordAvoidsNewline(seqs, w);
    } else if w == OOV {
      OovOneLine();
    }
  }

  lemma OovOneLine()
    ensures '\n' !in OOV
  {
    assert forall k :: 0 <= k < |OOV| ==> OOV[k] != '\n';
  }

  lemma WordAvoidsNewline(seqs: seq<seq<Word>>, w: Word)
    requires forall j, i :: 0 <= j < |seqs| && 0 <= i < |seqs[j]| ==> '\n' !in seqs[j][i]
    requires w in AllWords(seqs, |seqs|)
    ensures '\n' !in w
  {
    var j :| 0 <= j < |seqs| && w in seqs[j];
    var i :| 0 <= i < |seqs[j]| && seqs[j][i] == w;
  }
}
