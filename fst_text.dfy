/** The OpenFST plain-text form the transcript builder writes: one line
    `from to ilabel olabel weight` per arc, fields separated by one space,
    lines joined with newlines, then the final-state line `end 0`. */
module FstText {
  import opened Words
  import opened TranscriptArcs

  predicate IsDigit(c: char)
  {
    '0' <= c <= '9'
  }

  function DigitChar(d: nat): (c: char)
    requires d < 10
    ensures IsDigit(c)
  {
    ('0' as int + d) as char
  }

  /** The decimal digits of `n`, most significant first, no leading zero. */
  function Digits(n: nat): (r: string)
    ensures |r| >= 1
    ensures forall c :: c in r ==> IsDigit(c)
  {
    if n < 10 then [DigitChar(n)] else Digits(n / 10) + [DigitChar(n % 10)]
  }

  /** `str(i)` for a Python int. */
  function IntText(i: int): (r: string)
    ensures |r| >= 1
    ensures forall c :: c in r ==> c == '-' || IsDigit(c)
  {
    if i < 0 then "-" + Digits(-i) else Digits(i)
  }

  /** `int(s)` for a string of decimal digits. */
  function ParseDigits(s: string): nat
    requires forall c :: c in s ==> IsDigit(c)
  {
    if s == [] then 0
    else
      var last := s[|s| - 1];
      assert last in s && IsDigit(last);
      assert forall c :: c in s[..|s| - 1] ==> c in s;
      ParseDigits(s[..|s| - 1]) * 10 + (last - '0') as int
  }

  /** `int(s)` for an optionally signed string of decimal digits. */
  function ParseInt(s: string): int
    requires |s| > 0
    requires forall k :: 0 < k < |s| ==> IsDigit(s[k])
    requires s[0] == '-' || IsDigit(s[0])
  {
    if s[0] == '-' then 0 - ParseDigits(s[1..]) else ParseDigits(s)
  }

  lemma {:induction false} DigitsRoundTrip(n: nat)
    ensures ParseDigits(Digits(n)) == n
  {
    if n >= 10 {
      var r := Digits(n);
      DigitsRoundTrip(n / 10);
      assert r[..|r| - 1] == Digits(n / 10);
    }
  }

  /** Reading back a written id gives the id. */
  lemma IntTextRoundTrip(i: int)
    ensures var r := IntText(i);
      (forall k :: 0 < k < |r| ==> IsDigit(r[k])) && (r[0] == '-' || IsDigit(r[0])) && ParseInt(r) == i
  {
    var r := IntText(i);
    if i < 0 {
      DigitsRoundTrip(-i);
      assert r[1..] == Digits(-i);
      forall k | 0 < k < |r|
        ensures IsDigit(r[k])
      {
        assert r[k] == Digits(-i)[k - 1];
      }
    } else {
      DigitsRoundTrip(i);
      assert r[0] in r;
    }
  }

  /** `sep.join(parts)` */
  function Join(parts: seq<string>, sep: char): string
  {
    if |parts| == 0 then ""
    else if |parts| == 1 then parts[0]
    else parts[0] + [sep] + Join(parts[1..], sep)
  }

  /** `s.split(sep)`: the pieces between separators, always at least one. */
  function Split(s: string, sep: char): (r: seq<string>)
    ensures |r| >= 1
    ensures forall k :: 0 <= k < |r| ==> sep !in r[k]
  {
    if s == [] then [""]
    else
      var rest := Split(s[1..], sep);
      if s[0] == sep then [""] + rest
      else
        assert forall k :: 1 <= k < |rest| ==> ([[s[0]] + rest[0]] + rest[1..])[k] == rest[k];
        [[s[0]] + rest[0]] + rest[1..]
  }

  /** Splitting at a separator splits each side. */
  lemma {:induction false} SplitConcat(x: string, y: string, sep: char)
    ensures Split(x + [sep] + y, sep) == Split(x, sep) + Split(y, sep)
  {
    if x == [] {
      assert x + [sep] + y == [sep] + y;
      assert ([sep] + y)[1..] == y;
    } else {
      assert (x + [sep] + y)[0] == x[0];
      assert (x + [sep] + y)[1..] == x[1..] + [sep] + y;
      SplitConcat(x[1..], y, sep);
    }
  }

  lemma {:induction false} SplitNoSeparator(x: string, sep: char)
    requires sep !in x
    ensures Split(x, sep) == [x]
  {
    if x != [] {
      assert x[0] in x;
      SplitNoSeparator(x[1..], sep);
      assert x == [x[0]] + x[1..];
    }
  }

  /** Joining pieces free of the separator and splitting again gives the
      pieces back. */
  lemma {:induction false} SplitJoin(parts: seq<string>, sep: char)
    requires |parts| >= 1
    requires forall k :: 0 <= k < |parts| ==> sep !in parts[k]
    ensures Split(Join(parts, sep), sep) == parts
  {
    if |parts| == 1 {
      SplitNoSeparator(parts[0], sep);
    } else {
      SplitJoin(parts[1..], sep);
      SplitConcat(parts[0], Join(parts[1..], sep), sep);
      SplitNoSeparator(parts[0], sep);
      assert parts == [parts[0]] + parts[1..];
    }
  }

  /** Python's `str` of the two float weights. */
  function CostText(c: Cost): string
  {
    match c
    case Free => "0.0"
    case Penalty => "2.0"
  }

  /** The five fields of the f-string on line 184. */
  function ArcFields(a: Arc): seq<string>
  {
    [IntText(a.src), IntText(a.dst), a.ilabel, a.olabel, CostText(a.cost)]
  }

  function ArcLine(a: Arc): string
  {
    Join(ArcFields(a), ' ')
  }

  function ArcLines(arcs: seq<Arc>): (r: seq<string>)
    ensures |r| == |arcs|
    ensures forall k :: 0 <= k < |arcs| ==> r[k] == ArcLine(arcs[k])
  {
    seq(|arcs|, k requires 0 <= k < |arcs| => ArcLine(arcs[k]))
  }

  /** The line that marks `end` as the final state. */
  function FinalLine(end: int): string
  {
    IntText(end) + " 0"
  }

  /** Lines 184-185: the arc lines joined with newlines, then a newline, the
      final-state line and a closing newline. */
  function TranscriptText(arcs: seq<Arc>, end: int): string
  {
    Join(ArcLines(arcs), '\n') + "\n" + FinalLine(end) + "\n"
  }

  /** No label holds the character `c`. */
  ghost predicate LabelsAvoid(arcs: seq<Arc>, c: char)
  {
    forall k :: 0 <= k < |arcs| ==> c !in arcs[k].ilabel && c !in arcs[k].olabel
  }

  /** An arc line splits at its spaces into the five fields, and the first
      two read back as the arc's ids. */
  lemma ArcLineFields(a: Arc)
    requires ' ' !in a.ilabel && ' ' !in a.olabel
    ensures Split(ArcLine(a), ' ') == ArcFields(a)
    ensures ParseInt(Split(ArcLine(a), ' ')[0]) == a.src
    ensures ParseInt(Split(ArcLine(a), ' ')[1]) == a.dst
  {
    var f := ArcFields(a);
    IntTextRoundTrip(a.src);
    IntTextRoundTrip(a.dst);
    forall k | 0 <= k < |f|
      ensures ' ' !in f[k]
    {
      if k == 4 {
        assert f[k] == "0.0" || f[k] == "2.0";
      }
    }
    SplitJoin(f, ' ');
  }

  /** Without newlines inside the labels, the text splits into one line per
      arc, then the final-state line, then the empty piece after the
      closing newline; with no arcs at all the text starts with an empty
      line. */
  lemma TranscriptTextLines(arcs: seq<Arc>, end: int)
    requires LabelsAvoid(arcs, '\n')
    ensures Split(TranscriptText(arcs, end), '\n') ==
      (if arcs == [] then [""] else ArcLines(arcs)) + [FinalLine(end), ""]
  {
    var lines := ArcLines(arcs);
    var j := Join(lines, '\n');
    var f := FinalLine(end);
    FinalLineOneLine(end);
    assert TranscriptText(arcs, end) == j + ['\n'] + (f + ['\n'] + []);
    SplitConcat(j, f + ['\n'] + [], '\n');
    SplitConcat(f, [], '\n');
    SplitNoSeparator(f, '\n');
    if arcs != [] {
      ArcLinesOneLine(arcs);
      SplitJoin(lines, '\n');
    }
  }

  lemma FinalLineOneLine(end: int)
    ensures '\n' !in FinalLine(end)
  {
    var f := FinalLine(end);
    assert f == IntText(end) + " 0";
    assert forall c :: c in f ==> c == '-' || IsDigit(c) || c == ' ' || c == '0';
  }

  /** Arc lines hold no newline when the labels hold none. */
  lemma ArcLinesOneLine(arcs: seq<Arc>)
    requires LabelsAvoid(arcs, '\n')
    ensures forall k :: 0 <= k < |arcs| ==> '\n' !in ArcLines(arcs)[k]
  {
    forall k | 0 <= k < |arcs|
      ensures '\n' !in ArcLines(arcs)[k]
    {
      ArcLineOneLine(arcs[k]);
    }
  }

  lemma ArcLineOneLine(a: Arc)
    requires '\n' !in a.ilabel && '\n' !in a.olabel
    ensures '\n' !in ArcLine(a)
  {
    var fs := ArcFields(a);
    forall i | 0 <= i < |fs|
      ensures '\n' !in fs[i]
    {
      if i == 0 {
        assert fs[i] == IntText(a.src);
      } else if i == 1 {
        assert fs[i] == IntText(a.dst);
      } else if i == 4 {
        assert fs[i] == "0.0" || fs[i] == "2.0";
      }
    }
    JoinAvoids(fs, ' ', '\n');
  }

  lemma {:induction false} JoinAvoids(parts: seq<string>, sep: char, c: char)
    requires c != sep
    requires forall k :: 0 <= k < |parts| ==> c !in parts[k]
    ensures c !in Join(parts, sep)
  {
    if |parts| > 1 {
      JoinAvoids(parts[1..], sep, c);
    }
  }
}
