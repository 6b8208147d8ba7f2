/** The converse of the chain lemmas: the transcript builder appends no
    arc that is not part of some candidate's chain or a self-loop. */
module TranscriptChains {
  import opened Words
  import opened WordInput
  import opened TranscriptArcs
  import opened TranscriptFst
  import opened TranscriptProperties

  /** Every arc of word `i` is a `0.0` self-loop, the word's `2.0` arc or
      its `<unk>` twin. */
  lemma WordArcsOnly(s: seq<Word>, base: int, end: int, o: Options, i: nat, a: Arc)
    requires i < |s| && a in WordArcs(s, base, end, o, i)
    ensures (a.src == a.dst && a.cost == Free)
      || a == WordArc(s, base, end, i) || a == OovTwin(WordArc(s, base, end, i))
  {
    var to := ChainNode(|s|, base, end, i + 1);
    var pair := [WordArc(s, base, end, i), OovTwin(WordArc(s, base, end, i))];
    assert WordArcs(s, base, end, o, i) == pair + (if i < |s| - 1 then SelfLoops(to, o) else []);
    if a !in pair {
      SelfLoopShape(to, o, a);
    }
  }

  /** Every arc a non-empty sequence appends is a `0.0` self-loop, or the
      `2.0` arc of one of its words `i`, or that arc's `<unk>` twin. */
  lemma SeqArcsOnly(s: seq<Word>, base: int, end: int, o: Options, first: bool, a: Arc) returns (i: nat)
    requires a in SeqArcs(s, base, end, o, first)
    ensures (a.src == a.dst && a.cost == Free)
      || (i < |s| && (a == WordArc(s, base, end, i) || a == OovTwin(WordArc(s, base, end, i))))
  {
    i := 0;
    if a in ChainArcs(s, base, end, o, |s|) {
      ChainArcsWord(s, base, end, o, |s|, a);
      i :| 0 <= i < |s| && a in WordArcs(s, base, end, o, i);
      WordArcsOnly(s, base, end, o, i, a);
    } else if first && a in SelfLoops(0, o) {
      SelfLoopShape(0, o, a);
    } else {
      assert first && a in SelfLoops(end, o);
      SelfLoopShape(end, o, a);
    }
  }

  /** The `2.0` arc of word `i` of candidate `j`, on the fresh ids the
      counter hands out to that candidate. */
  function CandidateArc(seqs: seq<seq<Word>>, end: int, j: nat, i: nat): Arc
    requires j < |seqs| && i < |seqs[j]|
  {
    WordArc(seqs[j], 1 + FreshCount(seqs, j), end, i)
  }

  /** Every arc the first `k` rounds append is a `0.0` self-loop, or the
      `2.0` arc of word `i` of sequence `j < k`, or that arc's `<unk>`
      twin. */
  lemma {:induction false} EmittedOnly(seqs: seq<seq<Word>>, k: nat, o: Options, end: int, a: Arc)
    returns (j: nat, i: nat)
    requires k <= |seqs| && a in Emitted(seqs, k, o, end)
    ensures (a.src == a.dst && a.cost == Free)
      || (j < k && i < |seqs[j]| && (a == CandidateArc(seqs, end, j, i) || a == OovTwin(CandidateArc(seqs, end, j, i))))
  {
    var inRound := EmittedSplit(seqs, k, o, end, a);
    if !inRound {
      j, i := EmittedOnly(seqs, k - 1, o, end, a);
    } else {
      j := k - 1;
      i := RoundOnly(seqs, j, o, end, a);
    }
  }

  /** An arc of the first `k` rounds comes from the first `k - 1` or, as
      `inRound` says, from round `k - 1`. */
  lemma EmittedSplit(seqs: seq<seq<Word>>, k: nat, o: Options, end: int, a: Arc) returns (inRound: bool)
    requires k <= |seqs| && a in Emitted(seqs, k, o, end)
    ensures k > 0
    ensures inRound ==> a in Round(seqs, k - 1, o, end)
    ensures !inRound ==> a in Emitted(seqs, k - 1, o, end)
  {
    assert k > 0;
    assert Emitted(seqs, k, o, end) == Emitted(seqs, k - 1, o, end) + Round(seqs, k - 1, o, end);
    inRound := a !in Emitted(seqs, k - 1, o, end);
  }

  lemma RoundOnly(seqs: seq<seq<Word>>, j: nat, o: Options, end: int, a: Arc) returns (i: nat)
    requires j < |seqs| && a in Round(seqs, j, o, end)
    ensures (a.src == a.dst && a.cost == Free)
      || (i < |seqs[j]| && (a == CandidateArc(seqs, end, j, i) || a == OovTwin(CandidateArc(seqs, end, j, i))))
  {
    var s, base := seqs[j], 1 + FreshCount(seqs, j);
    assert |s| > 0;
    var first := !HasNonEmpty(seqs, j);
    assert Round(seqs, j, o, end) == SeqArcs(s, base, end, o, first);
    i := SeqArcsOnly(s, base, end, o, first, a);
  }

  /** The converse of `EmittedHasChain`: the `2.0` arcs appended by the
      first `k` rounds are only the word arcs of the candidates' chains,
      and every `0.0` arc between two different nodes is the `<unk>` twin
      of one of them; all remaining arcs are self-loops. */
  lemma EmittedOnlyChains(seqs: seq<seq<Word>>, k: nat, o: Options, end: int, a: Arc)
    requires k <= |seqs| && a in Emitted(seqs, k, o, end)
    ensures a.cost == Penalty ==>
      exists j, i :: 0 <= j < k && 0 <= i < |seqs[j]| && a == CandidateArc(seqs, end, j, i)
    ensures a.cost == Free && a.src != a.dst ==>
      exists j, i :: 0 <= j < k && 0 <= i < |seqs[j]| && a == OovTwin(CandidateArc(seqs, end, j, i))
  {
    var j, i := EmittedOnly(seqs, k, o, end, a);
  }
}
