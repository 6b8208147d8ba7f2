/** Words of a transcript, the out-of-vocabulary sentinel, and the order in
    which Python's `sorted` visits strings (code point by code point). */
module Words {

  type Word = string

  /** The out-of-vocabulary token `<unk>`. */
  const OOV: Word := "<unk>"

  /** The set of elements of a list of words. */
  function Elems(s: seq<Word>): set<Word>
  {
    set w | w in s
  }

  /** Python's `a < b` on `str`: lexicographic by code point, a proper
      prefix being smaller. */
  predicate Less(a: Word, b: Word)
  {
    |b| > 0 && (|a| == 0 || a[0] < b[0] || (a[0] == b[0] && Less(a[1..], b[1..])))
  }

  lemma {:induction false} LessIrreflexive(a: Word)
    ensures !Less(a, a)
  {
    if |a| > 0 {
      LessIrreflexive(a[1..]);
    }
  }

  lemma {:induction false} LessTransitive(a: Word, b: Word, c: Word)
    requires Less(a, b) && Less(b, c)
    ensures Less(a, c)
  {
    if |a| > 0 && a[0] == b[0] && b[0] == c[0] {
      LessTransitive(a[1..], b[1..], c[1..]);
    }
  }

  lemma {:induction false} LessTotal(a: Word, b: Word)
    requires a != b
    ensures Less(a, b) || Less(b, a)
  {
    if |a| > 0 && |b| > 0 && a[0] == b[0] {
      assert a == [a[0]] + a[1..] && b == [b[0]] + b[1..];
      LessTotal(a[1..], b[1..]);
    }
  }

  lemma LessAsymmetric(a: Word, b: Word)
    requires Less(a, b)
    ensures !Less(b, a)
  {
    if Less(b, a) {
      LessTransitive(a, b, a);
      LessIrreflexive(a);
    }
  }

  /** `m` is the smallest word of `s`. */
  predicate IsLeast(m: Word, s: set<Word>)
  {
    m in s && forall x :: x in s ==> x == m || Less(m, x)
  }

  lemma {:induction false} LeastExists(s: set<Word>)
    requires s != {}
    ensures exists m :: IsLeast(m, s)
    decreases |s|
  {
    var x :| x in s;
    if s == {x} {
      assert IsLeast(x, s);
    } else {
      LeastExists(s - {x});
      var m :| IsLeast(m, s - {x});
      if Less(x, m) {
        forall y | y in s
          ensures y == x || Less(x, y)
        {
          if y != x && y != m {
            LessTransitive(x, m, y);
          }
        }
        assert IsLeast(x, s);
      } else {
        LessTotal(x, m);
        assert IsLeast(m, s);
      }
    }
  }

  lemma LeastUnique(s: set<Word>)
    ensures forall m1, m2 :: IsLeast(m1, s) && IsLeast(m2, s) ==> m1 == m2
  {
    forall m1, m2 | IsLeast(m1, s) && IsLeast(m2, s)
      ensures m1 == m2
    {
      if m1 != m2 {
        LessAsymmetric(m1, m2);
      }
    }
  }

  /** The smallest word of a non-empty set. */
  function Smallest(s: set<Word>): (m: Word)
    requires s != {}
    ensures IsLeast(m, s)
  {
    LeastExists(s);
    LeastUnique(s);
    var m :| m in s && IsLeast(m, s);
    m
  }

  /** Strictly increasing in Python's string order (so also duplicate-free). */
  ghost predicate StrictlySorted(s: seq<Word>)
  {
    forall i, j :: 0 <= i < j < |s| ==> Less(s[i], s[j])
  }

  /** Python's `sorted(s)` for a set of strings. */
  function SortedWords(s: set<Word>): (r: seq<Word>)
    ensures StrictlySorted(r)
    ensures forall w :: w in r <==> w in s
    ensures |r| == |s|
    decreases |s|
  {
    if s == {} then []
    else
      var m := Smallest(s);
      var rest := SortedWords(s - {m});
      SmallestFirst(m, s, rest);
      [m] + rest
  }

  /** The smallest word followed by the sorted rest is sorted. */
  lemma SmallestFirst(m: Word, s: set<Word>, rest: seq<Word>)
    requires IsLeast(m, s)
    requires StrictlySorted(rest)
    requires forall w :: w in rest <==> w in s - {m}
    requires |rest| == |s - {m}|
    ensures StrictlySorted([m] + rest)
    ensures forall w :: w in [m] + rest <==> w in s
    ensures |[m] + rest| == |s|
  {
    var r := [m] + rest;
    forall i, j | 0 <= i < j < |r|
      ensures Less(r[i], r[j])
    {
      if i == 0 {
        assert r[j] == rest[j - 1] && rest[j - 1] in rest;
      } else {
        assert r[i] == rest[i - 1] && r[j] == rest[j - 1];
      }
    }
  }

  /** A strictly sorted list is determined by its elements: `sorted` has one
      possible answer. */
  lemma {:induction false} SortedUnique(r1: seq<Word>, r2: seq<Word>)
    requires StrictlySorted(r1) && StrictlySorted(r2)
    requires forall w :: w in r1 <==> w in r2
    ensures r1 == r2
  {
    if r1 != [] {
      assert r1[0] in r1;
    }
    if r2 != [] {
      assert r2[0] in r2;
    }
    if r1 != [] && r2 != [] {
      assert r1[0] in r2 && r2[0] in r1;
      if r1[0] != r2[0] {
        var j1 :| 0 <= j1 < |r1| && r1[j1] == r2[0];
        var j2 :| 0 <= j2 < |r2| && r2[j2] == r1[0];
        assert j1 > 0 && j2 > 0;
        LessAsymmetric(r1[0], r2[0]);
      }
      forall w
        ensures w in r1[1..] <==> w in r2[1..]
      {
        if w in r1[1..] {
          var j :| 1 <= j < |r1| && r1[j] == w;
          LessIrreflexive(r1[0]);
          assert w in r2;
          var k :| 0 <= k < |r2| && r2[k] == w;
          assert k != 0;
          assert r2[1..][k - 1] == w;
        }
        if w in r2[1..] {
          var j :| 1 <= j < |r2| && r2[j] == w;
          LessIrreflexive(r2[0]);
          assert w in r1;
          var k :| 0 <= k < |r1| && r1[k] == w;
          assert k != 0;
          assert r1[1..][k - 1] == w;
        }
      }
      SortedUnique(r1[1..], r2[1..]);
      assert r1 == [r1[0]] + r1[1..] && r2 == [r2[0]] + r2[1..];
    }
  }
}
