# Decoding-graph builders of a forced aligner, in Dafny

The aligner decodes audio against a small graph built from the transcript.
The graph is a finite-state acceptor written in OpenFST's plain-text format.
`gentle/language_model.py` has two builders for it:

- `make_bigram_lm_fst` builds a bigram graph with one node per distinct word.
  - It collects each word's successor set from the candidate word sequences.
  - It numbers the words lazily with `get_node_id` while walking the keys in sorted order.
  - It writes one arc per successor pair, weighted uniformly over the source's successors.
  - It ends with the final-state line `len(node_ids) 0`.
- `make_transcript_fst` builds one linear chain per candidate sequence.
  - All chains share start node 0 and one end node, whose id is computed in advance.
  - Each word arc (weight 2.0) has a parallel `<unk>` arc (weight 0.0).
  - Disfluency and `<unk>` self-loops go on the start node, every inner node and the end node.
  - It asserts that the id counter met the precomputed end id, sorts the tuples and joins them into text.

The model is organised as follows:

- `words.dfy` defines words as strings under Python's code-point order, plus `sorted` on a set of words.
- `input.dfy` covers the input normalisation of lines 32-33 and 111-112.
- `successors.dfy` holds the successor dictionary. Its updates are methods on a map value, and `SuccessorSpec` states the relation they build.
- `numbering.dfy` covers `get_node_id` and the ids it hands out.
- `bigram.dfy` covers the emission loop. It is proved equal to `Emission`, a function of the successor dictionary.
- `bigram_properties.dfy` holds what the bigram graph satisfies.
- `transcript_arcs.dfy` defines the arc tuples, Python's tuple order and `list.sort`.
- `fst_text.dfy` covers the text serialisation of lines 184-185.
- `transcript.dfy` holds the transcript builder's loops as methods. `AppendSelfLoops` is proved equal to `SelfLoops`. `EmitChain` is proved equal to `ChainArcs`, and its counter moves by `len - 1`. `EmitSequence` is proved equal to `SeqArcs`. `EmitTranscriptArcs` is proved equal to `Emitted` taken over all rounds, and its counter ends at 1 plus `FreshCount`. Line 122's sum is the function `LengthSum`, and `EndNodeId` adds 1 to it.
- `transcript_properties.dfy` holds the assertion, the chain shape, the self-loops and the text lines.
- `transcript_skip.dfy` covers how empty candidates are handled.
- `transcript_chains.dfy` shows that every emitted arc is a self-loop or belongs to some candidate's chain.

The end id is computed by the code's own formula, and the model keeps it.

- Line 122 sums `len - 1` over every sequence, so an empty sequence counts as -1.
- `TranscriptFst.EndNodeId` is that formula.
- The loop of lines 127-178 skips empty sequences, so the counter reaches 1 plus the sum of `max(len - 1, 0)`.
- `TranscriptFst.EndNodeIdCorrected` is that value. The corrected builder of the finding below uses it.

## Model

| member | source | states |
|---|---|---|
| `Words.SortedWords` | gentle/language_model.py:79 | `sorted` of a set of words is strictly increasing in code-point order and holds exactly the set's elements. |
| `Words.SortedUnique` | gentle/language_model.py:88 | Two strictly sorted lists with the same elements are equal, so any correct sort gives the walk the model uses. |
| `Words.LessTotal` | gentle/language_model.py:79 | Python's string order is total on distinct strings; with `LessTransitive` and `LessIrreflexive` it is a strict total order. |
| `Words.LessTransitive` | gentle/language_model.py:88 | The code-point lexicographic order is transitive. |
| `WordInput.Normalize` | gentle/language_model.py:32-33 | An empty input becomes `[[]]`. A flat word list becomes a one-element list. A non-empty list of lists is kept as it is. The result is never empty. |
| `WordInput.NormalizeIdempotent` | gentle/language_model.py:111-112 | Normalising an already normalised input changes nothing. |
| `Successors.SetDefaultAdd` | gentle/language_model.py:56 | `setdefault(k, set()).add(v)` adds `k` to the keys and exactly the pair `k -> v` to the relation. |
| `Successors.Add` | gentle/language_model.py:46 | `add` on an existing key adds exactly one pair and no key. |
| `Successors.Update` | gentle/language_model.py:49 | `update` on an existing key adds exactly the pairs from that key to each listed word. |
| `Successors.LinkDisfluencies` | gentle/language_model.py:51-53 | Each disfluency becomes a key, followed by the first word and by `<unk>`, and nothing else changes. |
| `Successors.DisfluenciesPrecede` | gentle/language_model.py:64-65 | Each disfluency gains the current word as a successor, and nothing else changes. |
| `Successors.AddStart` | gentle/language_model.py:45-53 | The start of a sequence adds `<unk> -> first` and, with `disfluency`, the disfluency pairs. Keys grow only by the disfluencies. |
| `Successors.AddStep` | gentle/language_model.py:56-65 | One adjacent pair adds `prev -> word` and, as the flags ask, `prev -> <unk>`, `prev -> d` and `d -> word`. Keys grow only by `prev`. |
| `Successors.AddSequence` | gentle/language_model.py:45-70 | One non-empty sequence adds exactly the pairs `SeqFollows` lists, ending with `last -> <unk>`, and exactly the keys `SeqKeys` lists. |
| `Successors.BuildSuccessors` | gentle/language_model.py:39-70 | The finished dictionary has exactly the words of `IsNode` as keys and exactly the pairs of `Follows`. So it equals `SuccessorSpec`, and empty sequences are skipped. |
| `Successors.SpecCharacterised` | gentle/language_model.py:39-43 | `SuccessorSpec` has exactly the keys `IsNode` names and exactly the pairs `Follows` names. |
| `Successors.FollowsWithinNodes` | gentle/language_model.py:39-70 | Both ends of every successor pair are keys of the dictionary. |
| `Successors.NodeHasSuccessor` | gentle/language_model.py:69-70 | Every key has at least one successor: a last word is followed by `<unk>`, and `<unk>` follows itself. |
| `Successors.SuccessorsClosed` | gentle/language_model.py:83-86 | Every key's successor set is non-empty and inside the key set, so the `weight = 0` branch is never taken. |
| `Successors.SpecDependsOnlyOnNonEmptySequences` | gentle/language_model.py:41-43 | Two inputs with the same non-empty sequences, in any order and with any repeats, give the same dictionary. |
| `Successors.OovBranches` | gentle/language_model.py:39-46 | When some sequence starts with a word other than `<unk>`, `<unk>` has at least two successors (itself and that word), so its weight is not 0. |
| `NodeNumbering.GetNodeId` | gentle/language_model.py:73-76 | A known word keeps its id. A new word gets `len(node_ids) + 1` and is recorded. |
| `NodeNumbering.NextIdsContiguous` | gentle/language_model.py:74-75 | When the ids are exactly 1..n, they stay a bijection onto 1..n, or 1..n+1 after a new word, and no earlier id changes. |
| `NodeNumbering.NextIdsIdempotent` | gentle/language_model.py:73-76 | Asking for the same word twice changes nothing the second time. |
| `NodeNumbering.NextIdsInjective` | gentle/language_model.py:73-76 | Two different words never share an id. |
| `NodeNumbering.FirstUseSpec` | gentle/language_model.py:72-89 | Numbering a walk gives every word the count of distinct words before its first use, plus one. The ids are exactly 1..(number of distinct words). |
| `BigramFst.SourceWeight` | gentle/language_model.py:83-86 | The weight is `-log(1/N)` with N the successor count exactly when the set is non-empty, and the 0 fallback otherwise. |
| `BigramFst.EmitTargets` | gentle/language_model.py:88-91 | The inner loop appends one arc per sorted target, numbering targets on first use. Each arc is the arc of its pair under the final ids. |
| `BigramFst.EmitRow` | gentle/language_model.py:79-91 | One source numbers itself, then its targets, and appends exactly its row of arcs. |
| `BigramFst.EmitArcs` | gentle/language_model.py:72-93 | The emission loop returns exactly `Emission(m)`: the arcs of the sorted pair walk and the final state `len(node_ids)`. |
| `BigramFst.MakeBigramLmFst` | gentle/language_model.py:18-95 | The builder returns the emission of the successor dictionary of the normalised input. |
| `BigramProperties.EmissionGraph` | gentle/language_model.py:79-91 | An arc is emitted exactly for each successor pair. It carries the target word as both labels and its source's weight. |
| `BigramProperties.EmissionOrdered` | gentle/language_model.py:79-88 | Arcs come in strictly increasing (source word, target word) order, one per pair, with no duplicates. |
| `BigramProperties.EmissionNodes` | gentle/language_model.py:93 | For a closed dictionary, the ids are a bijection from its keys onto 1..n, and the final-state id is n, the number of keys. |
| `BigramProperties.BigramLmNodes` | gentle/language_model.py:72-93 | The builder's ids are exactly 1..(number of distinct words), and the final state is that number. |
| `BigramProperties.BigramLmArcs` | gentle/language_model.py:18-95 | The builder emits an arc `a -> b` exactly when the successor relation has `a -> b`. |
| `BigramProperties.BigramLmNoDeadEnd` | gentle/language_model.py:69-70 | Every node of the graph has an outgoing arc. |
| `BigramProperties.BigramLmOrderFree` | gentle/language_model.py:41-43 | Reordering or repeating the candidate sequences, or adding empty ones, leaves the output unchanged. |
| `TranscriptArcs.SortArcs` | gentle/language_model.py:182 | `output.sort()` returns a non-decreasing permutation of the tuples in Python's tuple order. |
| `TranscriptArcs.SortedUnique` | gentle/language_model.py:182 | A sorted list is fixed by its multiset, so any correct sort gives the same list. |
| `TranscriptArcs.SortArcsOrderFree` | gentle/language_model.py:182 | Sorting depends only on the multiset of tuples, not on their order. |
| `TranscriptArcs.ArcLessTotal` | gentle/language_model.py:182 | Tuple order is total on distinct tuples; with `ArcLessTransitive` it is a strict total order. |
| `TranscriptArcs.ArcLessTransitive` | gentle/language_model.py:182 | Tuple comparison, field by field from the left, is transitive. |
| `FstText.IntTextRoundTrip` | gentle/language_model.py:184 | `str` of a node id reads back as the same id. |
| `FstText.ArcLineFields` | gentle/language_model.py:184 | An arc line splits at its spaces into the five fields, and the first two read back as the arc's ids. |
| `FstText.TranscriptTextLines` | gentle/language_model.py:184-185 | The text splits at newlines into one line per arc, then `end 0`, then the empty piece after the closing newline. With no arcs it starts with an empty line. |
| `FstText.SplitJoin` | gentle/language_model.py:184 | Joining pieces free of the separator and splitting again gives the pieces back. |
| `TranscriptFst.SelfLoops` | gentle/language_model.py:133-138 | One self-loop per disfluency when `disfluency` is set, plus one `<unk>` loop when `conservative` is set. |
| `TranscriptFst.SelfLoopShape` | gentle/language_model.py:163-168 | Every self-loop at `v` goes from `v` to `v`, has equal labels and weight 0.0, and is labelled with a disfluency or `<unk>`. |
| `TranscriptFst.AppendSelfLoops` | gentle/language_model.py:170-176 | The two self-loop loops append exactly `SelfLoops(v)`. |
| `TranscriptFst.EmitChain` | gentle/language_model.py:142-168 | The word loop appends exactly the chain arcs and takes exactly `len - 1` fresh ids. |
| `TranscriptFst.Advance` | gentle/language_model.py:153-161 | One step moves the current node to chain position i+1 and the next node to position i+2: the end node for the last word, otherwise a fresh id. |
| `TranscriptFst.EmitSequence` | gentle/language_model.py:131-178 | One non-empty sequence appends its chain, plus the start and end self-loops if the flags are still up, and lowers both flags. |
| `TranscriptFst.EmitTranscriptArcs` | gentle/language_model.py:120-178 | The whole loop appends `Emitted(seqs)`, and the counter ends at 1 plus the fresh ids of the non-empty sequences. |
| `TranscriptFst.WriteTranscript` | gentle/language_model.py:180-187 | The builder raises the assertion error with both ids when they differ. Otherwise it writes the sorted tuples as text. |
| `TranscriptFst.MakeTranscriptFst` | gentle/language_model.py:97-187 | The builder as written: the outcome for the normalised input with the end id of line 122. |
| `TranscriptFst.MakeTranscriptFstCorrected` | gentle/language_model.py:97-187 | With the corrected end id the builder always writes its text. |
| `TranscriptProperties.LengthSumCountsEmpty` | gentle/language_model.py:122 | The sum of line 122 equals the fresh ids minus the number of empty sequences. |
| `TranscriptProperties.EndNodeAssertion` | gentle/language_model.py:180 | The end id never exceeds the final counter. They are equal exactly when no sequence is empty. |
| `TranscriptProperties.TranscriptOutcome` | gentle/language_model.py:111-180 | The builder writes text exactly when no normalised sequence is empty. Input `[]` fails with `0 vs 1`. |
| `TranscriptProperties.EmptyCandidateRejected` | gentle/language_model.py:128-129 | `[["a"], []]` is rejected with `0 vs 1`, although the empty candidate is skipped. |
| `TranscriptProperties.CorrectedEndNode` | gentle/language_model.py:122 | The corrected id agrees with line 122 whenever the original succeeds, always passes the assertion, and exceeds line 122's value by the number of empty sequences. |
| `TranscriptProperties.EmittedShaped` | gentle/language_model.py:127-178 | Every emitted arc has equal labels, labelled `<unk>`, a disfluency or a candidate word. Only word-labelled arcs weigh 2.0. Its ends are 0, the end node or a fresh id below the final counter. Every 2.0 arc has a 0.0 `<unk>` twin between the same nodes. |
| `TranscriptProperties.EmittedHasChain` | gentle/language_model.py:148-150 | Every word of every candidate has its arc, from its chain position to the next, among the emitted arcs. |
| `TranscriptChains.EmittedOnly` | gentle/language_model.py:127-178 | Every emitted arc is a 0.0 self-loop, or the 2.0 arc of some word of some candidate, or that arc's `<unk>` twin. |
| `TranscriptChains.EmittedOnlyChains` | gentle/language_model.py:148-150 | The converse of `EmittedHasChain`. Every 2.0 arc is the arc of some word of some candidate, on that candidate's fresh ids. Every 0.0 arc between two different nodes is the `<unk>` twin of such an arc. |
| `TranscriptProperties.ChainEnds` | gentle/language_model.py:142-161 | Each chain starts at node 0 and ends at the end node, so a one-word sequence goes `0 -> end`. Its inner positions are consecutive fresh ids. |
| `TranscriptProperties.InnerNodesDistinct` | gentle/language_model.py:145-161 | Inner nodes of different chains are distinct ids, increasing with the sequence index, between 1 and the final counter. |
| `TranscriptProperties.LoopsOfEmitted` | gentle/language_model.py:132-178 | Once a non-empty sequence exists, nodes 0 and end, and every inner node, carry their self-loops exactly once. Every other node carries none. |
| `TranscriptProperties.WrittenLines` | gentle/language_model.py:182-185 | With newline-free labels, the corrected builder's text reads back as one line per sorted tuple, then `end 0`. |
| `TranscriptSkip.DropCount` | gentle/language_model.py:122 | Dropping an empty candidate leaves the counter and the flags where they were. It raises line 122's sum by one. |
| `TranscriptSkip.DropEmitted` | gentle/language_model.py:127-129 | Dropping an empty candidate leaves the appended tuples unchanged. |
| `TranscriptSkip.DropEmptyCandidate` | gentle/language_model.py:127-180 | Dropping an empty candidate leaves the corrected builder's output unchanged. The end id as written moves by one. |

## Left out

- `make_bigram_language_model` (lines 189-229): it writes temporary files and runs an external graph compiler. The compiler and the file system are not part of this model.
- `MKGRAPH_PATH` and `get_binary` (line 13), and the `__main__` block: they locate or run programs.
- `align_cuts.py` is not part of this model.
- The bigram weight `-math.log(1.0 / len(successors))` is kept as the successor count N, not as a float.
- The `%d    %d    %s    %s    %f` lines of the bigram builder are kept as arc records plus the final state, not as text.
- The transcript weights are the two tags 2.0 and 0.0. They are written as Python's `str` of those floats, `2.0` and `0.0`.
- `.encode()` at lines 95 and 187 is left out: the model returns the string, not UTF-8 bytes.
- The `bigrams` dictionary at line 118 is built and never used, so it is left out.
- `sorted(...)` and `list.sort()` are library calls, not loops of the source. They are modelled as functions, and the uniqueness lemmas show that any correct sort gives the same list.
- The input check `type(word_sequences[0]) != list` is modelled by the two cases flat list and list of lists. A Python list that mixes lists and strings is not representable.
- The failing `assert` at line 180 is modelled as the value `AssertionError(end, next)`, not as an exception.
- `TranscriptProperties.WrittenLines` assumes no label holds a newline. Python would accept such labels, and the text would then not split into one line per arc.

## Findings

| source | as written | input that shows it | evidently intended | confidence | as-written member | corrected member |
|---|---|---|---|---|---|---|
| gentle/language_model.py:122 | `end_node_id` sums `len(seq) - 1` over every sequence, so an empty one counts -1. The loop skips empty sequences (lines 128-129), so the assertion at line 180 fails. | `[["a"], []]` (also `[]`, which becomes `[[]]`): the end id is 0 while the counter ends at 1. | End id = 1 + sum of `max(len - 1, 0)`, i.e. 1 plus the fresh ids. Empty candidates are then skipped, as the bigram builder skips them. | not executed | `TranscriptProperties.EmptyCandidateRejected` | `TranscriptFst.MakeTranscriptFstCorrected` |
