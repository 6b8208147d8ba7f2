/** The transcript builder `make_transcript_fst`: one linear chain per
    candidate sequence from the shared start node 0 to a shared end node,
    word arcs doubled by `<unk>` arcs, optional self-loops on every node,
    then a consistency assertion, a sort and the text. */
module TranscriptFst {
  import opened Words
  import opened WordInput
  import opened TranscriptArcs
  import opened FstText

  // ---------------------------------------------------------------------
  // The specification of what the loops append.
  // ---------------------------------------------------------------------

  /** The self-loops appended at node `v` (lines 133-138, 163-168,
      171-176): one `0.0` arc per disfluency when `disfluency` is set, then
      one `<unk>` arc when `conservative` is set. */
  function SelfLoops(v: int, o: Options): (r: seq<Arc>)
    ensures |r| == (if o.disfluency then |o.disfluencies| else 0) + (if o.conservative then 1 else 0)
  {
    (if o.disfluency then
       seq(|o.disfluencies|, k requires 0 <= k < |o.disfluencies| =>
         Arc(v, v, o.disfluencies[k], o.disfluencies[k], Free))
     else [])
    + (if o.conservative then [Arc(v, v, OOV, OOV, Free)] else [])
  }

  /** Each self-loop at `v` is a `0.0` acceptor arc from `v` to `v`
      labelled with a disfluency (when `disfluency` is set) or `<unk>` (when
      `conservative` is set). */
  lemma SelfLoopShape(v: int, o: Options, a: Arc)
    requires a in SelfLoops(v, o)
    ensures a.src == v && a.dst == v && a.ilabel == a.olabel && a.cost == Free
    ensures (o.disfluency && a.ilabel in o.disfluencies) || (o.conservative && a.ilabel == OOV)
  {
    var dis := if o.disfluency then
       seq(|o.disfluencies|, k requires 0 <= k < |o.disfluencies| =>
         Arc(v, v, o.disfluencies[k], o.disfluencies[k], Free))
     else [];
    if a in dis {
      var k :| 0 <= k < |dis| && dis[k] == a;
    }
  }

  /** The node a chain of `n` words has reached after `i` words: the start
      node 0, then the fresh ids `base`, `base + 1`, ..., then `end`. */
  function ChainNode(n: nat, base: int, end: int, i: nat): int
    requires i <= n
  {
    if i == 0 then 0 else if i == n then end else base + i - 1
  }

  /** What word `i` of `s` appends: its arc and the parallel `<unk>` arc
      between the same nodes, then, unless it is the last word, the
      self-loops of the node it reaches. */
  function WordArcs(s: seq<Word>, base: int, end: int, o: Options, i: nat): seq<Arc>
    requires i < |s|
  {
    var from, to := ChainNode(|s|, base, end, i), ChainNode(|s|, base, end, i + 1);
    [Arc(from, to, s[i], s[i], Penalty), Arc(from, to, OOV, OOV, Free)]
      + (if i < |s| - 1 then SelfLoops(to, o) else [])
  }

  /** What the first `k` words of `s` append. */
  function ChainArcs(s: seq<Word>, base: int, end: int, o: Options, k: nat): seq<Arc>
    requires k <= |s|
  {
    if k == 0 then [] else ChainArcs(s, base, end, o, k - 1) + WordArcs(s, base, end, o, k - 1)
  }

  /** What one non-empty sequence appends; `first` says whether it is the
      first non-empty one, which also writes the start and end self-loops. */
  function SeqArcs(s: seq<Word>, base: int, end: int, o: Options, first: bool): seq<Arc>
  {
    (if first then SelfLoops(0, o) else [])
    + ChainArcs(s, base, end, o, |s|)
    + (if first then SelfLoops(end, o) else [])
  }

  /** The fresh ids a sequence takes from the counter. */
  function FreshIds(s: seq<Word>): nat
  {
    if |s| == 0 then 0 else |s| - 1
  }

  /** The fresh ids the first `k` sequences of `seqs` take. */
  function FreshCount(seqs: seq<seq<Word>>, k: nat): nat
    requires k <= |seqs|
  {
    if k == 0 then 0 else FreshCount(seqs, k - 1) + FreshIds(seqs[k - 1])
  }

  /** `sum([len(s) - 1 for s in seqs[:k]])`, empty sequences counting -1. */
  function LengthSum(seqs: seq<seq<Word>>, k: nat): int
    requires k <= |seqs|
  {
    if k == 0 then 0 else LengthSum(seqs, k - 1) + (|seqs[k - 1]| - 1)
  }

  /** Line 122: `end_node_id`. */
  function EndNodeId(seqs: seq<seq<Word>>): int
  {
    LengthSum(seqs, |seqs|) + 1
  }

  /** Some one of the first `k` sequences is non-empty: the start and end
      flags are down once the loop has seen one. */
  predicate HasNonEmpty(seqs: seq<seq<Word>>, k: nat)
    requires k <= |seqs|
  {
    k > 0 && (|seqs[k - 1]| > 0 || HasNonEmpty(seqs, k - 1))
  }

  /** What round `k` of the loop of lines 127-178 appends: nothing for an
      empty sequence, otherwise its arcs from the next fresh id on, with the
      start and end self-loops if no earlier sequence was non-empty. */
  function Round(seqs: seq<seq<Word>>, k: nat, o: Options, end: int): seq<Arc>
    requires k < |seqs|
  {
    if |seqs[k]| == 0 then []
    else if HasNonEmpty(seqs, k) then SeqArcs(seqs[k], 1 + FreshCount(seqs, k), end, o, false)
    else SeqArcs(seqs[k], 1 + FreshCount(seqs, k), end, o, true)
  }

  /** The list `output` after the first `k` rounds. */
  function Emitted(seqs: seq<seq<Word>>, k: nat, o: Options, end: int): seq<Arc>
    requires k <= |seqs|
  {
    if k == 0 then [] else Emitted(seqs, k - 1, o, end) + Round(seqs, k - 1, o, end)
  }

  // ---------------------------------------------------------------------
  // The loops.
  // ---------------------------------------------------------------------

  /** One self-loop block: the `for dis in disfluencies` loop and the
      conservative `<unk>` loop at node `v`. */
  method AppendSelfLoops(output0: seq<Arc>, v: int, o: Options) returns (output: seq<Arc>)
    ensures output == output0 + SelfLoops(v, o)
  {
    output := output0;
    if o.disfluency {
      for k := 0 to |o.disfluencies|
        invariant output == output0 + SelfLoops(v, o.(conservative := false))[..k]
      {
        var dis := o.disfluencies[k];
        output := output + [Arc(v, v, dis, dis, Free)];
        assert SelfLoops(v, o.(conservative := false))[..k + 1]
            == SelfLoops(v, o.(conservative := false))[..k] + [Arc(v, v, dis, dis, Free)];
      }
      assert SelfLoops(v, o.(conservative := false))[..|o.disfluencies|] == SelfLoops(v, o.(conservative := false));
    }
    if o.conservative {
      output := output + [Arc(v, v, OOV, OOV, Free)];
    }
  }

  /** Lines 142-168 for one non-empty sequence: pick the first target, then
      walk the words, moving along fresh ids and finally to the end node. */
  method EmitChain(s: seq<Word>, nextAvailable0: int, end: int, o: Options, output0: seq<Arc>)
    returns (output: seq<Arc>, nextAvailable: int)
    requires |s| > 0
    ensures output == output0 + ChainArcs(s, nextAvailable0, end, o, |s|)
    ensures nextAvailable == nextAvailable0 + |s| - 1
  {
    var cur := 0;
    var next;
    nextAvailable := nextAvailable0;
    if |s| == 1 {
      next := end;
    } else {
      next := nextAvailable;
      nextAvailable := nextAvailable + 1;
    }
    output := output0;
    for i := 0 to |s|
      invariant i < |s|
      invariant cur == ChainNode(|s|, nextAvailable0, end, i)
      invariant next == ChainNode(|s|, nextAvailable0, end, i + 1)
      invariant nextAvailable == nextAvailable0 + (if i + 1 < |s| then i + 1 else |s| - 1)
      invariant output == output0 + ChainArcs(s, nextAvailable0, end, o, i)
    {
      var word := s[i];
      output := output + [Arc(cur, next, word, word, Penalty), Arc(cur, next, OOV, OOV, Free)];
      if i == |s| - 1 {
        ChainStep(s, nextAvailable0, end, o, i, output0);
        break;
      }
      cur, next, nextAvailable := Advance(|s|, nextAvailable0, end, i, next, nextAvailable);
      output := AppendSelfLoops(output, cur, o);
      ChainStep(s, nextAvailable0, end, o, i, output0);
    }
  }

  /** Lines 155-161: after a word that is not the last, move on to the
      next node and pick the one after it: the end node after the
      second-to-last word, a fresh id otherwise. */
  method Advance(n: nat, base: int, end: int, i: nat, next: int, nextAvailable: int)
    returns (cur': int, next': int, nextAvailable': int)
    requires i < n - 1
    requires next == ChainNode(n, base, end, i + 1)
    requires nextAvailable == base + i + 1
    ensures cur' == ChainNode(n, base, end, i + 1)
    ensures next' == ChainNode(n, base, end, i + 2)
    ensures nextAvailable' == base + (if i + 2 < n then i + 2 else n - 1)
  {
    if i == n - 2 {
      cur', next', nextAvailable' := next, end, nextAvailable;
    } else {
      cur', next', nextAvailable' := next, nextAvailable, nextAvailable + 1;
    }
  }

  /** Word `i` extends the chain by its word arc, its `<unk>` arc and, before
      the last word, the self-loops of the node reached. */
  lemma ChainStep(s: seq<Word>, base: int, end: int, o: Options, i: nat, prefix: seq<Arc>)
    requires i < |s|
    ensures var from, to := ChainNode(|s|, base, end, i), ChainNode(|s|, base, end, i + 1);
      prefix + ChainArcs(s, base, end, o, i + 1)
        == prefix + ChainArcs(s, base, end, o, i) + [Arc(from, to, s[i], s[i], Penalty), Arc(from, to, OOV, OOV, Free)]
           + (if i < |s| - 1 then SelfLoops(to, o) else [])
  {
  }

  /** Lines 131-178 for one non-empty sequence: the start self-loops if
      the flags are still up, the chain, the end self-loops if the flags
      are still up; the flags come down. */
  method EmitSequence(s: seq<Word>, nextAvailable0: int, end: int, o: Options, output0: seq<Arc>,
                      startFlag0: bool, endFlag0: bool)
    returns (output: seq<Arc>, nextAvailable: int, startFlag: bool, endFlag: bool)
    requires |s| > 0 && startFlag0 == endFlag0
    ensures output == output0 + SeqArcs(s, nextAvailable0, end, o, startFlag0)
    ensures nextAvailable == nextAvailable0 + FreshIds(s)
    ensures !startFlag && !endFlag
  {
    output := output0;
    startFlag, endFlag := startFlag0, endFlag0;
    if startFlag {
      output := AppendSelfLoops(output, 0, o);
      startFlag := false;
    }
    output, nextAvailable := EmitChain(s, nextAvailable0, end, o, output);
    if endFlag {
      output := AppendSelfLoops(output, end, o);
      endFlag := false;
    }
  }

  /** Lines 120-178: the loop over the sequences, skipping empty ones, with
      the start and end self-loops written once. */
  method EmitTranscriptArcs(seqs: seq<seq<Word>>, o: Options, end: int)
    returns (output: seq<Arc>, nextAvailable: int)
    ensures output == Emitted(seqs, |seqs|, o, end)
    ensures nextAvailable == 1 + FreshCount(seqs, |seqs|)
  {
    nextAvailable := 1;
    output := [];
    var startFlag, endFlag := true, true;
    for k := 0 to |seqs|
      invariant output == Emitted(seqs, k, o, end)
      invariant nextAvailable == 1 + FreshCount(seqs, k)
      invariant startFlag == endFlag == !HasNonEmpty(seqs, k)
    {
      EmittedStep(seqs, k, o, end, startFlag);
      var s := seqs[k];
      if |s| == 0 {
        continue;
      }
      output, nextAvailable, startFlag, endFlag :=
        EmitSequence(s, nextAvailable, end, o, output, startFlag, endFlag);
    }
  }

  /** Round `k` appends the arcs of sequence `k` from the next fresh id on,
      with the start and end self-loops while `flag` is up. */
  lemma EmittedStep(seqs: seq<seq<Word>>, k: nat, o: Options, end: int, flag: bool)
    requires k < |seqs| && flag == !HasNonEmpty(seqs, k)
    ensures Emitted(seqs, k + 1, o, end) == Emitted(seqs, k, o, end)
      + (if |seqs[k]| == 0 then [] else SeqArcs(seqs[k], 1 + FreshCount(seqs, k), end, o, flag))
  {
    RoundWithFlag(seqs, k, o, end, flag);
  }

  lemma RoundWithFlag(seqs: seq<seq<Word>>, k: nat, o: Options, end: int, flag: bool)
    requires k < |seqs| && flag == !HasNonEmpty(seqs, k)
    ensures Round(seqs, k, o, end)
      == (if |seqs[k]| == 0 then [] else SeqArcs(seqs[k], 1 + FreshCount(seqs, k), end, o, flag))
  {
    if |seqs[k]| > 0 {
      if flag {
        assert Round(seqs, k, o, end) == SeqArcs(seqs[k], 1 + FreshCount(seqs, k), end, o, true);
      } else {
        assert Round(seqs, k, o, end) == SeqArcs(seqs[k], 1 + FreshCount(seqs, k), end, o, false);
      }
    }
  }

  /** What the builder returns: the text, or the `AssertionError` of line
      180 with the two ids it compares. */
  datatype Outcome = Written(text: string) | AssertionError(endNodeId: int, nextAvailableNodeId: int)

  /** The outcome for candidates `seqs` with the end id computed as `end`. */
  function OutcomeFor(seqs: seq<seq<Word>>, o: Options, end: int): Outcome
  {
    if end == 1 + FreshCount(seqs, |seqs|) then Written(TranscriptText(SortArcs(Emitted(seqs, |seqs|, o, end)), end))
    else AssertionError(end, 1 + FreshCount(seqs, |seqs|))
  }

  /** Lines 120-187 once the end id is fixed: run the loop, check the
      assertion of line 180, sort and write. */
  method WriteTranscript(seqs: seq<seq<Word>>, o: Options, end: int) returns (r: Outcome)
    ensures r == OutcomeFor(seqs, o, end)
  {
    var output, nextAvailable := EmitTranscriptArcs(seqs, o, end);
    if end != nextAvailable {
      return AssertionError(end, nextAvailable);
    }
    output := SortArcs(output);
    r := Written(TranscriptText(output, end));
  }

  /** `make_transcript_fst` as written: normalise, compute the end id by
      line 122, then write. */
  method MakeTranscriptFst(input: WordSequences, o: Options) returns (r: Outcome)
    ensures r == OutcomeFor(Normalize(input), o, EndNodeId(Normalize(input)))
  {
    var seqs := Normalize(input);
    r := WriteTranscript(seqs, o, EndNodeId(seqs));
  }

  /** The end id the loop actually reaches: one past the fresh ids, that is
      line 122's sum taken over the non-empty sequences only. */
  function EndNodeIdCorrected(seqs: seq<seq<Word>>): (end: int)
    ensures end >= 1
  {
    1 + FreshCount(seqs, |seqs|)
  }

  /** `make_transcript_fst` with the end id of line 122 computed over the
      non-empty sequences, the ones the loop of line 127 does not skip. */
  method MakeTranscriptFstCorrected(input: WordSequences, o: Options) returns (r: Outcome)
    ensures r == OutcomeFor(Normalize(input), o, EndNodeIdCorrected(Normalize(input)))
    ensures r.Written?
  {
    var seqs := Normalize(input);
    r := WriteTranscript(seqs, o, EndNodeIdCorrected(seqs));
  }
}
