/** The arcs of the transcript acceptor as the tuples
    `(from, to, ilabel, olabel, weight)` the builder appends, the order in
    which Python compares such tuples, and `list.sort` on them. */
module TranscriptArcs {
  import opened Words

  /** The two weights the transcript builder writes: `0.0` on `<unk>` and
      self-loop arcs, `2.0` on word arcs. */
  datatype Cost = Free | Penalty

  /** One appended tuple. Node ids are Python ints (the end id can be
      zero or negative when the input has empty sequences). */
  datatype Arc = Arc(src: int, dst: int, ilabel: Word, olabel: Word, cost: Cost)

  /** `0.0 < 2.0` */
  predicate CostLess(c: Cost, d: Cost)
  {
    c == Free && d == Penalty
  }

  /** Python's `<` on the tuples: field by field from the left. */
  predicate ArcLess(x: Arc, y: Arc)
  {
    || x.src < y.src
    || (x.src == y.src && x.dst < y.dst)
    || (x.src == y.src && x.dst == y.dst && Less(x.ilabel, y.ilabel))
    || (x.src == y.src && x.dst == y.dst && x.ilabel == y.ilabel && Less(x.olabel, y.olabel))
    || (x.src == y.src && x.dst == y.dst && x.ilabel == y.ilabel && x.olabel == y.olabel && CostLess(x.cost, y.cost))
  }

  predicate ArcLe(x: Arc, y: Arc)
  {
    x == y || ArcLess(x, y)
  }

  lemma ArcLessIrreflexive(x: Arc)
    ensures !ArcLess(x, x)
  {
    LessIrreflexive(x.ilabel);
    LessIrreflexive(x.olabel);
  }

  lemma ArcLessTransitive(x: Arc, y: Arc, z: Arc)
    requires ArcLess(x, y) && ArcLess(y, z)
    ensures ArcLess(x, z)
  {
    if x.src == y.src == z.src && x.dst == y.dst == z.dst {
      if Less(x.ilabel, y.ilabel) && Less(y.ilabel, z.ilabel) {
        LessTransitive(x.ilabel, y.ilabel, z.ilabel);
      }
      if x.ilabel == y.ilabel == z.ilabel && Less(x.olabel, y.olabel) && Less(y.olabel, z.olabel) {
        LessTransitive(x.olabel, y.olabel, z.olabel);
      }
    }
  }

  lemma ArcLessTotal(x: Arc, y: Arc)
    requires x != y
    ensures ArcLess(x, y) || ArcLess(y, x)
  {
    if x.src == y.src && x.dst == y.dst {
      if x.ilabel != y.ilabel {
        LessTotal(x.ilabel, y.ilabel);
      } else if x.olabel != y.olabel {
        LessTotal(x.olabel, y.olabel);
      }
    }
  }

  lemma ArcLeTransitive(x: Arc, y: Arc, z: Arc)
    requires ArcLe(x, y) && ArcLe(y, z)
    ensures ArcLe(x, z)
  {
    if x != y && y != z {
      ArcLessTransitive(x, y, z);
    }
  }

  lemma ArcLeAntisymmetric(x: Arc, y: Arc)
    requires ArcLe(x, y) && ArcLe(y, x)
    ensures x == y
  {
    if x != y {
      ArcLessTransitive(x, y, x);
      ArcLessIrreflexive(x);
    }
  }

  /** Non-decreasing in tuple order. */
  ghost predicate Sorted(s: seq<Arc>)
  {
    forall i, j :: 0 <= i < j < |s| ==> ArcLe(s[i], s[j])
  }

  /** `x` placed into the sorted list `s` before the first larger tuple. */
  function Insert(x: Arc, s: seq<Arc>): (r: seq<Arc>)
    requires Sorted(s)
    ensures Sorted(r)
    ensures multiset(r) == multiset(s) + multiset{x}
    ensures |r| == |s| + 1
  {
    if s == [] then [x]
    else if ArcLe(x, s[0]) then
      assert forall j :: 0 <= j < |s| ==> ArcLe(s[0], s[j]);
      LeBelowSorted(x, s);
      [x] + s
    else
      ArcLessTotal(x, s[0]);
      var rest := Insert(x, s[1..]);
      assert s == [s[0]] + s[1..];
      assert forall y :: y in multiset(rest) ==> y == x || y in multiset(s[1..]);
      HeadBelow(s[0], s[1..], x, rest);
      [s[0]] + rest
  }

  lemma LeBelowSorted(x: Arc, s: seq<Arc>)
    requires Sorted(s) && |s| > 0 && ArcLe(x, s[0])
    ensures Sorted([x] + s)
  {
    var r := [x] + s;
    forall i, j | 0 <= i < j < |r|
      ensures ArcLe(r[i], r[j])
    {
      if i == 0 {
        assert r[j] == s[j - 1];
        ArcLeTransitive(x, s[0], s[j - 1]);
      } else {
        assert r[i] == s[i - 1] && r[j] == s[j - 1];
      }
    }
  }

  lemma HeadBelow(h: Arc, tail: seq<Arc>, x: Arc, rest: seq<Arc>)
    requires Sorted([h] + tail) && ArcLess(h, x) && Sorted(rest)
    requires forall y :: y in multiset(rest) ==> y == x || y in multiset(tail)
    ensures Sorted([h] + rest)
  {
    var r := [h] + rest;
    forall i, j | 0 <= i < j < |r|
      ensures ArcLe(r[i], r[j])
    {
      if i == 0 {
        var y := rest[j - 1];
        assert r[j] == y && y in multiset(rest);
        if y != x {
          assert y in tail;
          var k :| 0 <= k < |tail| && tail[k] == y;
          assert ([h] + tail)[k + 1] == y;
          assert ArcLe(([h] + tail)[0], ([h] + tail)[k + 1]);
        }
      } else {
        assert r[i] == rest[i - 1] && r[j] == rest[j - 1];
      }
    }
  }

  /** `output.sort()`: the tuples in non-decreasing order, none added or
      lost. */
  function SortArcs(s: seq<Arc>): (r: seq<Arc>)
    ensures Sorted(r)
    ensures multiset(r) == multiset(s)
    ensures |r| == |s|
  {
    if s == [] then []
    else
      assert s == s[..|s| - 1] + [s[|s| - 1]];
      Insert(s[|s| - 1], SortArcs(s[..|s| - 1]))
  }

  /** A sorted list is fixed by its multiset: every correct sort, Python's
      included, gives the same list. */
  lemma {:induction false} SortedUnique(r1: seq<Arc>, r2: seq<Arc>)
    requires Sorted(r1) && Sorted(r2)
    requires multiset(r1) == multiset(r2)
    ensures r1 == r2
  {
    if r1 != [] {
      SortedHeads(r1, r2);
      SortedTail(r1);
      SortedTail(r2);
      SortedUnique(r1[1..], r2[1..]);
      SameHeadAndTail(r1, r2);
    } else {
      assert |multiset(r2)| == 0;
    }
  }

  /** Dropping the head keeps a list sorted and takes one copy of the head
      out of its multiset. */
  lemma SortedTail(r: seq<Arc>)
    requires Sorted(r) && r != []
    ensures Sorted(r[1..])
    ensures multiset(r[1..]) == multiset(r) - multiset{r[0]}
  {
    assert r == [r[0]] + r[1..];
  }

  lemma SameHeadAndTail(r1: seq<Arc>, r2: seq<Arc>)
    requires r1 != [] && r2 != [] && r1[0] == r2[0] && r1[1..] == r2[1..]
    ensures r1 == r2
  {
    assert r1 == [r1[0]] + r1[1..] && r2 == [r2[0]] + r2[1..];
  }

  /** Two sorted lists with the same elements start with the same one. */
  lemma SortedHeads(r1: seq<Arc>, r2: seq<Arc>)
    requires Sorted(r1) && Sorted(r2) && r1 != []
    requires multiset(r1) == multiset(r2)
    ensures r2 != [] && r1[0] == r2[0]
  {
    assert r1[0] in multiset(r1);
    assert r2 != [];
    assert r2[0] in multiset(r2);
    var k1 :| 0 <= k1 < |r1| && r1[k1] == r2[0];
    var k2 :| 0 <= k2 < |r2| && r2[k2] == r1[0];
    assert ArcLe(r1[0], r1[k1]) && ArcLe(r2[0], r2[k2]);
    ArcLeAntisymmetric(r1[0], r2[0]);
  }

  /** Sorting is idempotent and forgets the order it was given. */
  lemma SortArcsOrderFree(s1: seq<Arc>, s2: seq<Arc>)
    requires multiset(s1) == multiset(s2)
    ensures SortArcs(s1) == SortArcs(s2)
  {
    SortedUnique(SortArcs(s1), SortArcs(s2));
  }
}
