/** The bigram builder's lazy node numbering: the dictionary `node_ids` and
    the closure `get_node_id` that extends it on first use. */
module NodeNumbering {
  import opened Words

  /** The dictionary `node_ids`: word -> node id. */
  type Ids = map<Word, nat>

  /** `node_ids` after `get_node_id(w)`: a known word keeps its id, a new one
      gets `len(node_ids) + 1`. */
  function NextIds(ids: Ids, w: Word): Ids
  {
    if w in ids then ids else ids[w := |ids| + 1]
  }

  /** Some word carries id `n`. */
  ghost predicate HasId(ids: Ids, n: nat)
  {
    exists w :: w in ids && ids[w] == n
  }

  /** The ids are a bijection between the words and 1..len(node_ids). */
  ghost predicate Contiguous(ids: Ids)
  {
    && (forall w :: w in ids ==> 1 <= ids[w] <= |ids|)
    && (forall v, w :: v in ids && w in ids && ids[v] == ids[w] ==> v == w)
    && (forall n :: 1 <= n <= |ids| ==> HasId(ids, n))
  }

  /** `get_node_id`: returns the id of `w`, numbering it first if it is new. */
  method GetNodeId(ids: Ids, w: Word) returns (id: nat, ids': Ids)
    ensures ids' == NextIds(ids, w)
    ensures w in ids' && id == ids'[w]
    ensures w in ids ==> id == ids[w]
    ensures w !in ids ==> id == |ids| + 1
  {
    id := if w in ids then ids[w] else |ids| + 1;
    ids' := ids[w := id];
  }

  /** One call keeps the numbering a bijection onto 1..n, keeps every earlier
      id, and numbers a new word with the next free id. */
  lemma NextIdsContiguous(ids: Ids, w: Word)
    requires Contiguous(ids)
    ensures Contiguous(NextIds(ids, w))
    ensures ids.Keys + {w} == NextIds(ids, w).Keys
    ensures forall v :: v in ids ==> NextIds(ids, w)[v] == ids[v]
    ensures w !in ids ==> NextIds(ids, w)[w] == |ids| + 1 && |NextIds(ids, w)| == |ids| + 1
  {
    if w !in ids {
      NewIdContiguous(ids, w);
    }
  }

  /** Numbering a new word with `len(node_ids) + 1` keeps the bijection. */
  lemma NewIdContiguous(ids: Ids, w: Word)
    requires Contiguous(ids) && w !in ids
    ensures |ids[w := |ids| + 1]| == |ids| + 1
    ensures Contiguous(ids[w := |ids| + 1])
  {
    var r := ids[w := |ids| + 1];
    NewIdSize(ids, w);
    NewIdInjective(ids, w, r);
    NewIdOnto(ids, w, r);
  }

  lemma NewIdSize(ids: Ids, w: Word)
    requires w !in ids
    ensures |ids[w := |ids| + 1]| == |ids| + 1
  {
    assert ids[w := |ids| + 1].Keys == ids.Keys + {w};
  }

  lemma NewIdInjective(ids: Ids, w: Word, r: Ids)
    requires Contiguous(ids) && w !in ids && r == ids[w := |ids| + 1]
    ensures forall u, v :: u in r && v in r && r[u] == r[v] ==> u == v
  {
    forall u, v | u in r && v in r && r[u] == r[v]
      ensures u == v
    {
      if u != w && v != w {
        assert ids[u] == ids[v];
      }
    }
  }

  lemma NewIdOnto(ids: Ids, w: Word, r: Ids)
    requires Contiguous(ids) && w !in ids && r == ids[w := |ids| + 1]
    ensures forall n :: 1 <= n <= |ids| + 1 ==> HasId(r, n)
  {
    forall n | 1 <= n <= |ids| + 1
      ensures HasId(r, n)
    {
      if n == |ids| + 1 {
        assert r[w] == n;
      } else {
        assert HasId(ids, n);
        var v :| v in ids && ids[v] == n;
        assert r[v] == n;
      }
    }
  }

  /** `get_node_id` is idempotent: asking again for the same word changes
      nothing and gives the same id. */
  lemma NextIdsIdempotent(ids: Ids, w: Word)
    ensures NextIds(NextIds(ids, w), w) == NextIds(ids, w)
    ensures NextIds(NextIds(ids, w), w)[w] == NextIds(ids, w)[w]
  {
  }

  /** `get_node_id` is injective: distinct words get distinct ids. */
  lemma NextIdsInjective(ids: Ids, v: Word, w: Word)
    requires Contiguous(ids)
    requires v != w
    ensures NextIds(NextIds(ids, v), w)[v] != NextIds(NextIds(ids, v), w)[w]
  {
    NextIdsContiguous(ids, v);
    NextIdsContiguous(NextIds(ids, v), w);
  }

  /** `node_ids` after calling `get_node_id` on each word of `ws` in turn. */
  function FirstUse(ws: seq<Word>): Ids
  {
    if ws == [] then map[] else NextIds(FirstUse(ws[..|ws| - 1]), ws[|ws| - 1])
  }

  /** Numbering by first use: the ids are exactly the words of `ws`,
      contiguous from 1, and a word first used at position i gets one more
      than the number of distinct words before i. */
  lemma FirstUseSpec(ws: seq<Word>)
    ensures FirstUse(ws).Keys == Elems(ws)
    ensures Contiguous(FirstUse(ws))
    ensures |FirstUse(ws)| == |Elems(ws)|
    ensures forall i :: 0 <= i < |ws| && ws[i] !in ws[..i] ==> FirstUse(ws)[ws[i]] == |Elems(ws[..i])| + 1
  {
    FirstUseBijection(ws);
    forall i | 0 <= i < |ws| && ws[i] !in ws[..i]
      ensures FirstUse(ws)[ws[i]] == |Elems(ws[..i])| + 1
    {
      FirstUseNew(ws, i);
    }
  }

  /** The ids are exactly the words of `ws`, contiguous from 1. */
  lemma {:induction false} FirstUseBijection(ws: seq<Word>)
    ensures FirstUse(ws).Keys == Elems(ws)
    ensures Contiguous(FirstUse(ws))
    ensures |FirstUse(ws)| == |Elems(ws)|
  {
    if ws != [] {
      var init, w := ws[..|ws| - 1], ws[|ws| - 1];
      FirstUseBijection(init);
      NextIdsContiguous(FirstUse(init), w);
      ElemsSnoc(ws);
    }
  }

  lemma ElemsSnoc(ws: seq<Word>)
    requires ws != []
    ensures Elems(ws) == Elems(ws[..|ws| - 1]) + {ws[|ws| - 1]}
  {
    assert ws == ws[..|ws| - 1] + [ws[|ws| - 1]];
  }

  /** A word first used at position i gets one more than the number of
      distinct words before i, and keeps it. */
  lemma {:induction false} FirstUseNew(ws: seq<Word>, i: nat)
    requires i < |ws| && ws[i] !in ws[..i]
    ensures ws[i] in FirstUse(ws) && FirstUse(ws)[ws[i]] == |Elems(ws[..i])| + 1
  {
    var pre := ws[..i + 1];
    assert pre[..i] == ws[..i];
    FirstUseBijection(ws[..i]);
    assert FirstUse(pre) == NextIds(FirstUse(ws[..i]), ws[i]);
    FirstUseExtends(pre, ws[i + 1..]);
    assert pre + ws[i + 1..] == ws;
  }

  /** Numbering more words never changes an id already given. */
  lemma {:induction false} FirstUseExtends(ws: seq<Word>, more: seq<Word>)
    ensures FirstUse(ws).Keys <= FirstUse(ws + more).Keys
    ensures forall w :: w in FirstUse(ws) ==> FirstUse(ws + more)[w] == FirstUse(ws)[w]
    decreases |more|
  {
    if more != [] {
      var init := more[..|more| - 1];
      FirstUseExtends(ws, init);
      assert (ws + more)[..|ws + more| - 1] == ws + init;
    } else {
      assert ws + more == ws;
    }
  }
}
