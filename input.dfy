/** What both builders receive: the candidate word sequences and the keyword
    flags, and how the candidate list is normalised first. */
module WordInput {
  import opened Words

  /** The builders accept either a list of word sequences or one flat list of
      words; Python tells them apart by the type of the first element. The
      empty Python list `[]` is either spelling. */
  datatype WordSequences =
    | Flat(words: seq<Word>)
    | Nested(sequences: seq<seq<Word>>)

  /** The keyword arguments `conservative`, `disfluency` and `disfluencies`. */
  datatype Options = Options(conservative: bool, disfluency: bool, disfluencies: seq<Word>)

  /** What the builders use when a keyword argument is absent. */
  const Defaults: Options := Options(false, false, [])

  /** The Python value `[]`, whichever way it is spelled here. */
  predicate IsEmptyList(input: WordSequences)
  {
    input == Flat([]) || input == Nested([])
  }

  /** Wrap the input into a one-element list when it is empty or its first
      element is not a list; otherwise keep the list of lists. */
  function Normalize(input: WordSequences): (r: seq<seq<Word>>)
    ensures |r| >= 1
    ensures IsEmptyList(input) ==> r == [[]]
    ensures input.Flat? ==> r == [input.words]
    ensures input.Nested? && input.sequences != [] ==> r == input.sequences
  {
    match input
    case Flat(ws) => [ws]
    case Nested(ss) => if |ss| == 0 then [[]] else ss
  }

  /** Normalising an already normalised list changes nothing. */
  lemma NormalizeIdempotent(input: WordSequences)
    ensures Normalize(Nested(Normalize(input))) == Normalize(input)
  {
    var r := Normalize(input);
    assert |r| >= 1;
  }
}
