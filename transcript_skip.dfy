/** Empty candidates: the transcript builder skips them, so with the end id
    counted from the fresh ids, dropping one changes nothing, while the end
    id as written moves by one. */
module TranscriptSkip {
  import opened Words
  import opened WordInput
  import opened TranscriptArcs
  import opened FstText
  import opened TranscriptFst

  /** `y` is `x` with the empty sequence at position `p` taken out. */
  ghost predicate DropsEmpty(x: seq<seq<Word>>, y: seq<seq<Word>>, p: nat)
  {
    && p < |x| && |x| == |y| + 1 && |x[p]| == 0
    && (forall i :: 0 <= i < p ==> x[i] == y[i])
    && (forall i :: p < i < |x| ==> x[i] == y[i - 1])
  }

  /** Two lists that agree on their first `n` sequences agree on the
      counter, the flags and the length sum after `n` rounds. */
  lemma {:induction false} CountAgree(a: seq<seq<Word>>, b: seq<seq<Word>>, n: nat)
    requires n <= |a| && n <= |b|
    requires forall i :: 0 <= i < n ==> a[i] == b[i]
    ensures FreshCount(a, n) == FreshCount(b, n)
    ensures HasNonEmpty(a, n) == HasNonEmpty(b, n)
    ensures LengthSum(a, n) == LengthSum(b, n)
  {
    if n > 0 {
      CountAgree(a, b, n - 1);
    }
  }

  /** A round depends only on its sequence, the counter and the flags. */
  lemma RoundCongruent(a: seq<seq<Word>>, i: nat, b: seq<seq<Word>>, j: nat, o: Options, end: int)
    requires i < |a| && j < |b| && a[i] == b[j]
    requires FreshCount(a, i) == FreshCount(b, j) && HasNonEmpty(a, i) == HasNonEmpty(b, j)
    ensures Round(a, i, o, end) == Round(b, j, o, end)
  {
    var s, base := a[i], 1 + FreshCount(a, i);
    if |s| > 0 {
      if HasNonEmpty(a, i) {
        assert Round(a, i, o, end) == SeqArcs(s, base, end, o, false) == Round(b, j, o, end);
      } else {
        assert Round(a, i, o, end) == SeqArcs(s, base, end, o, true) == Round(b, j, o, end);
      }
    }
  }

  /** Two lists that agree on their first `n` sequences append the same
      arcs in their first `n` rounds. */
  lemma {:induction false} EmittedAgree(a: seq<seq<Word>>, b: seq<seq<Word>>, n: nat, o: Options, end: int)
    requires n <= |a| && n <= |b|
    requires forall i :: 0 <= i < n ==> a[i] == b[i]
    ensures Emitted(a, n, o, end) == Emitted(b, n, o, end)
  {
    if n > 0 {
      EmittedAgree(a, b, n - 1, o, end);
      CountAgree(a, b, n - 1);
      RoundCongruent(a, n - 1, b, n - 1, o, end);
    }
  }

  /** Past the dropped empty sequence, the counter and the flags agree and
      the length sum of `x` is one lower: the empty sequence takes no fresh
      id but counts -1. */
  lemma {:induction false} DropCount(x: seq<seq<Word>>, y: seq<seq<Word>>, p: nat, n: nat)
    requires DropsEmpty(x, y, p) && p < n <= |x|
    ensures FreshCount(x, n) == FreshCount(y, n - 1)
    ensures HasNonEmpty(x, n) == HasNonEmpty(y, n - 1)
    ensures LengthSum(x, n) == LengthSum(y, n - 1) - 1
  {
    if n == p + 1 {
      CountAgree(x, y, p);
    } else {
      DropCount(x, y, p, n - 1);
      assert x[n - 1] == y[n - 2];
    }
  }

  /** Past the dropped empty sequence, both lists have appended the same
      arcs. */
  lemma {:induction false} DropEmitted(x: seq<seq<Word>>, y: seq<seq<Word>>, p: nat, n: nat, o: Options, end: int)
    requires DropsEmpty(x, y, p) && p < n <= |x|
    ensures Emitted(x, n, o, end) == Emitted(y, n - 1, o, end)
  {
    if n == p + 1 {
      EmittedAgree(x, y, p, o, end);
      EmptyRound(x, p, o, end);
    } else {
      DropEmitted(x, y, p, n - 1, o, end);
      DropCount(x, y, p, n - 1);
      SameRound(x, n - 1, y, o, end);
    }
  }

  /** The round of an empty sequence appends nothing. */
  lemma EmptyRound(x: seq<seq<Word>>, p: nat, o: Options, end: int)
    requires p < |x| && |x[p]| == 0
    ensures Emitted(x, p + 1, o, end) == Emitted(x, p, o, end)
  {
    assert Emitted(x, p + 1, o, end) == Emitted(x, p, o, end) + [];
  }

  /** Round `i` of `x` and round `i - 1` of `y` run on the same sequence
      from the same state, so they extend equal lists equally. */
  lemma SameRound(x: seq<seq<Word>>, i: nat, y: seq<seq<Word>>, o: Options, end: int)
    requires 0 < i < |x| && i <= |y| && x[i] == y[i - 1]
    requires FreshCount(x, i) == FreshCount(y, i - 1) && HasNonEmpty(x, i) == HasNonEmpty(y, i - 1)
    requires Emitted(x, i, o, end) == Emitted(y, i - 1, o, end)
    ensures Emitted(x, i + 1, o, end) == Emitted(y, i, o, end)
  {
    RoundCongruent(x, i, y, i - 1, o, end);
    assert Emitted(x, i + 1, o, end) == Emitted(x, i, o, end) + Round(x, i, o, end);
    assert Emitted(y, i, o, end) == Emitted(y, i - 1, o, end) + Round(y, i - 1, o, end);
  }

  /** Dropping an empty candidate leaves the corrected builder's output as
      it is, while the end id as written goes up by one. */
  lemma DropEmptyCandidate(x: seq<seq<Word>>, y: seq<seq<Word>>, p: nat, o: Options)
    requires DropsEmpty(x, y, p)
    ensures OutcomeFor(x, o, EndNodeIdCorrected(x)) == OutcomeFor(y, o, EndNodeIdCorrected(y))
    ensures EndNodeId(y) == EndNodeId(x) + 1
  {
    var end := EndNodeIdCorrected(x);
    DropCount(x, y, p, |x|);
    DropEmitted(x, y, p, |x|, o, end);
    assert EndNodeIdCorrected(y) == end;
    var arcs := Emitted(x, |x|, o, end);
    assert OutcomeFor(x, o, end) == Written(TranscriptText(SortArcs(arcs), end));
    assert OutcomeFor(y, o, end) == Written(TranscriptText(SortArcs(arcs), end));
  }
}
