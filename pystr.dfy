/** Small wrapper datatypes shared by the modules below. */
module Wrappers {

  /** The value of a Python variable that may hold `None`. */
  datatype Option<+T> = None | Some(value: T)
}

/**
 * Python `str` values as sequences of code points, and the `str` built-ins
 * the application relies on: `isspace`, `strip()`, `split()`, `split(sep)`
 * and `sep.join(parts)`.
 *
 * A Python string may hold any code point in 0..0x10FFFF, lone surrogates
 * included, so a character is an integer rather than a Dafny `char` (which
 * excludes the surrogates). No rule below depends on the upper bound, so the
 * type is left unconstrained.
 */
module PyStr {
  import opened Seqs


  type CodePoint = int
  type Text = seq<CodePoint>

  const Space: CodePoint := 0x20
  const Comma: CodePoint := 0x2C
  const QuestionMark: CodePoint := 0x3F

  /**
   * Python's `str.isspace` on one character: the characters whose
   * bidirectional class is WS, B or S, or whose category is Zs.
   */
  predicate IsSpace(c: CodePoint) {
    || 0x09 <= c <= 0x0D
    || 0x1C <= c <= 0x20
    || c == 0x85
    || c == 0xA0
    || c == 0x1680
    || 0x2000 <= c <= 0x200A
    || c == 0x2028
    || c == 0x2029
    || c == 0x202F
    || c == 0x205F
    || c == 0x3000
  }

  predicate AllSpace(s: Text) {
    forall i :: 0 <= i < |s| ==> IsSpace(s[i])
  }

  predicate NoSpace(s: Text) {
    forall i :: 0 <= i < |s| ==> !IsSpace(s[i])
  }

  /** Neither end of `s` is whitespace: what `strip()` leaves. */
  predicate IsStripped(s: Text) {
    s == [] || (!IsSpace(s[0]) && !IsSpace(s[|s| - 1]))
  }

  // ---------------------------------------------------------------------
  // str.strip()
  // ---------------------------------------------------------------------

  /** `s` without its leading whitespace. */
  function TrimStart(s: Text): (r: Text)
    ensures |r| <= |s| && r == s[|s| - |r|..]
    ensures AllSpace(s[..|s| - |r|])
    ensures r == [] || !IsSpace(r[0])
    decreases |s|
  {
    if |s| > 0 && IsSpace(s[0]) then
      var r := TrimStart(s[1..]);
      assert s[..|s| - |r|] == [s[0]] + s[1..][..|s| - 1 - |r|];
      r
    else s
  }

  /** `s` without its trailing whitespace. */
  function TrimEnd(s: Text): (r: Text)
    ensures |r| <= |s| && r == s[..|r|]
    ensures AllSpace(s[|r|..])
    ensures r == [] || !IsSpace(r[|r| - 1])
    decreases |s|
  {
    if |s| > 0 && IsSpace(s[|s| - 1]) then
      var r := TrimEnd(s[..|s| - 1]);
      assert s[|r|..] == s[..|s| - 1][|r|..] + [s[|s| - 1]];
      r
    else s
  }

  /** Python's `s.strip()`: `s` without whitespace at either end. */
  function Strip(s: Text): (r: Text)
    ensures IsStripped(r)
    ensures |r| <= |s|
  {
    TrimEnd(TrimStart(s))
  }

  /**
   * What `Strip` keeps is a stretch of `s` with only whitespace before and
   * after it.
   */
  lemma StripLocated(s: Text)
    ensures exists i ::
              && 0 <= i <= |s| - |Strip(s)|
              && s[i..i + |Strip(s)|] == Strip(s)
              && AllSpace(s[..i])
              && AllSpace(s[i + |Strip(s)|..])
  {
    var t := TrimStart(s);
    var r := TrimEnd(t);
    var i := |s| - |t|;
    SliceOfSuffix(s, i, |r|);
    assert 0 <= i <= |s| - |Strip(s)| && s[i..i + |Strip(s)|] == Strip(s)
      && AllSpace(s[..i]) && AllSpace(s[i + |Strip(s)|..]);
  }

  lemma {:induction false} TrimStartOfPadded(a: Text, m: Text)
    requires AllSpace(a) && (m == [] || !IsSpace(m[0]))
    ensures TrimStart(a + m) == m
    decreases |a|
  {
    if a == [] {
      assert a + m == m;
    } else {
      assert (a + m)[1..] == a[1..] + m;
      TrimStartOfPadded(a[1..], m);
    }
  }

  lemma {:induction false} TrimEndOfPadded(m: Text, b: Text)
    requires AllSpace(b) && (m == [] || !IsSpace(m[|m| - 1]))
    ensures TrimEnd(m + b) == m
    decreases |b|
  {
    if b == [] {
      assert m + b == m;
    } else {
      assert (m + b)[..|m + b| - 1] == m + b[..|b| - 1];
      TrimEndOfPadded(m, b[..|b| - 1]);
    }
  }

  /**
   * `strip()` is determined by its contract: whatever surrounds a stripped
   * text with whitespace on both sides, stripping gives that text back.
   */
  lemma StripOfPadded(a: Text, m: Text, b: Text)
    requires AllSpace(a) && AllSpace(b) && IsStripped(m)
    ensures Strip(a + m + b) == m
  {
    if m == [] {
      assert a + m + b == (a + b) + [];
      TrimStartOfPadded(a + b, []);
    } else {
      assert a + m + b == a + (m + b);
      TrimStartOfPadded(a, m + b);
      TrimEndOfPadded(m, b);
    }
  }

  lemma StripOfStripped(m: Text)
    requires IsStripped(m)
    ensures Strip(m) == m
  {
  }

  lemma StripIdempotent(s: Text)
    ensures Strip(Strip(s)) == Strip(s)
  {
    StripOfStripped(Strip(s));
  }

  /** Every character `Strip` keeps comes from its argument. */
  lemma StripKeepsCharacters(s: Text)
    ensures forall c :: c in Strip(s) ==> c in s
  {
    var t := TrimStart(s);
    SliceMembers(s, |s| - |t|, |s|);
    SliceMembers(t, 0, |TrimEnd(t)|);
  }

  // ---------------------------------------------------------------------
  // str.split() with no argument
  // ---------------------------------------------------------------------

  /** The longest prefix of `s` that holds no whitespace. */
  function TakeWord(s: Text): (w: Text)
    ensures |w| <= |s| && w == s[..|w|] && NoSpace(w)
    ensures |w| == |s| || IsSpace(s[|w|])
    decreases |s|
  {
    if |s| == 0 || IsSpace(s[0]) then []
    else
      var w := [s[0]] + TakeWord(s[1..]);
      assert s == [s[0]] + s[1..];
      w
  }

  /**
   * Python's `s.split()`: the maximal runs of non-whitespace characters,
   * in order; leading, trailing and repeated whitespace yields no word.
   */
  function Words(s: Text): (ws: seq<Text>)
    ensures forall w <- ws :: w != [] && NoSpace(w)
    decreases |s|
  {
    var t := TrimStart(s);
    if t == [] then []
    else
      assert !IsSpace(t[0]);
      var w := TakeWord(t);
      assert |w| > 0;
      var rest := Words(t[|w|..]);
      assert forall v <- [w] + rest :: v == w || v in rest;
      [w] + rest
  }

  lemma {:induction false} TrimStartKeepsTail(x: Text, y: Text)
    requires TrimStart(x) != []
    ensures TrimStart(x + y) == TrimStart(x) + y
    decreases |x|
  {
    if IsSpace(x[0]) {
      assert (x + y)[1..] == x[1..] + y;
      TrimStartKeepsTail(x[1..], y);
    }
  }

  lemma {:induction false} TrimStartSkipsSpaces(x: Text, y: Text)
    requires AllSpace(x)
    ensures TrimStart(x + y) == TrimStart(y)
    decreases |x|
  {
    if x == [] {
      assert x + y == y;
    } else {
      assert (x + y)[1..] == x[1..] + y;
      TrimStartSkipsSpaces(x[1..], y);
    }
  }

  lemma {:induction false} TakeWordStopsAtSpace(x: Text, y: Text)
    requires y != [] && IsSpace(y[0])
    ensures TakeWord(x + y) == TakeWord(x)
    decreases |x|
  {
    if x == [] {
      assert x + y == y;
    } else if !IsSpace(x[0]) {
      assert (x + y)[1..] == x[1..] + y;
      TakeWordStopsAtSpace(x[1..], y);
    }
  }

  lemma WordsStep(s: Text)
    requires TrimStart(s) != []
    ensures var t := TrimStart(s); Words(s) == [TakeWord(t)] + Words(t[|TakeWord(t)|..])
  {
  }

  lemma WordsSameStart(x: Text, y: Text)
    requires TrimStart(x) == TrimStart(y)
    ensures Words(x) == Words(y)
  {
  }

  /** When `a` holds a word, `a + y` starts with that same word if `y` starts with whitespace. */
  lemma WordsSplitAtSpace(a: Text, y: Text)
    requires TrimStart(a) != [] && y != [] && IsSpace(y[0])
    ensures var t := TrimStart(a); var w := TakeWord(t);
      Words(a + y) == [w] + Words(t[|w|..] + y)
  {
    var t := TrimStart(a);
    var w := TakeWord(t);
    TrimStartKeepsTail(a, y);
    TakeWordStopsAtSpace(t, y);
    DropConcat(t, y, |w|);
  }

  lemma WordsSkipSpaces(a: Text, b: Text)
    requires AllSpace(a)
    ensures Words(a + b) == Words(b)
  {
    TrimStartSkipsSpaces(a, b);
    WordsSameStart(a + b, b);
  }

  /** The step of `WordsOfSpaced`: given the claim for what follows the first word of `a`. */
  lemma WordsOfSpacedStep(a: Text, b: Text)
    requires TrimStart(a) != []
    requires var t := TrimStart(a); var rest := t[|TakeWord(t)|..];
      Words(rest + [Space] + b) == Words(rest) + Words(b)
    ensures Words(a + [Space] + b) == Words(a) + Words(b)
  {
    var t, y := TrimStart(a), [Space] + b;
    var w := TakeWord(t);
    var rest := t[|w|..];
    ConcatAssoc(a, [Space], b);
    WordsSplitAtSpace(a, y);
    ConcatAssoc(rest, [Space], b);
    WordsStep(a);
    ConcatAssoc([w], Words(rest), Words(b));
  }

  /**
   * Joining two texts with one space gives exactly the words of the first
   * followed by the words of the second.
   */
  lemma {:induction false} WordsOfSpaced(a: Text, b: Text)
    ensures Words(a + [Space] + b) == Words(a) + Words(b)
    decreases |a|
  {
    var t := TrimStart(a);
    if t == [] {
      assert a[..|a|] == a;
      WordsSkipSpaces(a + [Space], b);
    } else {
      WordsOfSpaced(t[|TakeWord(t)|..], b);
      WordsOfSpacedStep(a, b);
    }
  }

  // ---------------------------------------------------------------------
  // sep.join(parts) and s.split(sep)
  // ---------------------------------------------------------------------

  /** Python's `sep.join(parts)`. */
  function Join(parts: seq<Text>, sep: Text): Text
    decreases |parts|
  {
    if |parts| == 0 then []
    else if |parts| == 1 then parts[0]
    else parts[0] + sep + Join(parts[1..], sep)
  }

  /** Python's `s.split(sep)` for a one-character separator. */
  function SplitOn(s: Text, sep: CodePoint): (pieces: seq<Text>)
    ensures |pieces| >= 1
    ensures forall k :: 0 <= k < |pieces| ==> sep !in pieces[k]
    decreases |s|
  {
    if s == [] then [[]]
    else
      var rest := SplitOn(s[1..], sep);
      if s[0] == sep then [[]] + rest else [[s[0]] + rest[0]] + rest[1..]
  }

  lemma JoinHead(p: Text, q: Text, more: seq<Text>, sep: Text)
    ensures Join([p + q] + more, sep) == p + Join([q] + more, sep)
  {
    if more != [] {
      ConsParts(p + q, more);
      ConsParts(q, more);
    }
  }

  /** Splitting on `sep` and joining with `sep` gives the text back. */
  lemma {:induction false} JoinOfSplit(s: Text, sep: CodePoint)
    ensures Join(SplitOn(s, sep), [sep]) == s
    decreases |s|
  {
    if s != [] {
      var rest := SplitOn(s[1..], sep);
      JoinOfSplit(s[1..], sep);
      if s[0] == sep {
        ConsParts([], rest);
      } else {
        ConsHeadTail(rest);
        JoinHead([s[0]], rest[0], rest[1..], [sep]);
      }
    }
  }

  lemma {:induction false} SplitOnWithout(s: Text, sep: CodePoint)
    requires sep !in s
    ensures SplitOn(s, sep) == [s]
    decreases |s|
  {
    if s != [] {
      assert sep !in s[1..];
      SplitOnWithout(s[1..], sep);
      assert [s[0]] + s[1..] == s;
    }
  }

  lemma {:induction false} SplitOnAround(x: Text, sep: CodePoint, y: Text)
    ensures SplitOn(x + [sep] + y, sep) == SplitOn(x, sep) + SplitOn(y, sep)
    decreases |x|
  {
    var z := [sep] + y;
    ConcatAssoc(x, [sep], y);
    if x == [] {
      assert x + z == z;
    } else {
      HeadTailOfConcat(x, z);
      ConcatAssoc(x[1..], [sep], y);
      SplitOnAround(x[1..], sep, y);
      var sx := SplitOn(x[1..], sep);
      var sy := SplitOn(y, sep);
      if x[0] == sep {
        ConcatAssoc([[]], sx, sy);
      } else {
        HeadTailOfConcat(sx, sy);
        ConcatAssoc([[x[0]] + sx[0]], sx[1..], sy);
      }
    }
  }

  /** Joining pieces free of `sep` with `sep` and splitting again gives the pieces back. */
  lemma {:induction false} SplitOfJoin(parts: seq<Text>, sep: CodePoint)
    requires |parts| >= 1
    requires forall k :: 0 <= k < |parts| ==> sep !in parts[k]
    ensures SplitOn(Join(parts, [sep]), sep) == parts
    decreases |parts|
  {
    SplitOnWithout(parts[0], sep);
    if |parts| > 1 {
      SplitOfJoin(parts[1..], sep);
      SplitOnAround(parts[0], sep, Join(parts[1..], [sep]));
      ConsHeadTail(parts);
    }
  }
}
