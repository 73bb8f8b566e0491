/**
 * `clean_text` (app.py): the sanitiser applied to every chunk before it is
 * embedded and to every retrieved document before it is re-chunked.
 */
module Cleaning {
  import opened PyStr
  import opened Seqs

  /** Code points UTF-8 cannot encode: the surrogate halves. */
  predicate IsSurrogate(c: CodePoint) {
    0xD800 <= c <= 0xDFFF
  }

  /** The code points outside the Basic Multilingual Plane, U+10000 to U+10FFFF, which the source deletes. */
  predicate IsAstral(c: CodePoint) {
    0x1_0000 <= c <= 0x10_FFFF
  }

  /**
   * The UTF-8 encode-and-decode round trip with the "replace" error handler: the
   * handler writes one `?` for every code point it cannot encode, and the
   * decode gives every other code point back unchanged.
   */
  function ReplaceUnencodable(s: Text): (r: Text)
    ensures |r| == |s|
    ensures forall i :: 0 <= i < |s| ==> r[i] == if IsSurrogate(s[i]) then QuestionMark else s[i]
    ensures forall c <- r :: !IsSurrogate(c)
  {
    seq(|s|, i requires 0 <= i < |s| => if IsSurrogate(s[i]) then QuestionMark else s[i])
  }

  /** The regular-expression substitution that deletes every astral code point. */
  function RemoveAstral(s: Text): (r: Text)
    ensures |r| <= |s|
    ensures forall c <- r :: !IsAstral(c) && c in s
    decreases |s|
  {
    if s == [] then []
    else
      var rest := RemoveAstral(s[1..]);
      if IsAstral(s[0]) then rest else [s[0]] + rest
  }

  /** Neither a surrogate nor an astral code point. */
  predicate IsKept(c: CodePoint) {
    !IsAstral(c) && !IsSurrogate(c)
  }

  /** `clean_text(text)` for a string argument. */
  function CleanText(s: Text): (r: Text)
    ensures s == [] ==> r == []
    ensures forall c <- r :: IsKept(c)
    ensures IsStripped(r)
  {
    if s == [] then []
    else
      var kept := RemoveAstral(ReplaceUnencodable(s));
      StripKeepsCharacters(kept);
      Strip(kept)
  }

  lemma {:induction false} RemoveAstralConcat(a: Text, b: Text)
    ensures RemoveAstral(a + b) == RemoveAstral(a) + RemoveAstral(b)
    decreases |a|
  {
    if a == [] {
      assert a + b == b;
    } else {
      HeadTailOfConcat(a, b);
      RemoveAstralConcat(a[1..], b);
      if !IsAstral(a[0]) {
        ConcatAssoc([a[0]], RemoveAstral(a[1..]), RemoveAstral(b));
      }
    }
  }

  lemma {:induction false} RemoveAstralOfPlain(s: Text)
    requires forall c <- s :: !IsAstral(c)
    ensures RemoveAstral(s) == s
    decreases |s|
  {
    if s != [] {
      assert s[0] in s;
      assert forall c <- s[1..] :: c in s;
      RemoveAstralOfPlain(s[1..]);
      assert [s[0]] + s[1..] == s;
    }
  }

  lemma ReplaceUnencodableConcat(a: Text, b: Text)
    ensures ReplaceUnencodable(a + b) == ReplaceUnencodable(a) + ReplaceUnencodable(b)
  {
  }

  lemma ReplaceUnencodableOfPlain(s: Text)
    requires forall c <- s :: !IsSurrogate(c)
    ensures ReplaceUnencodable(s) == s
  {
    var r := ReplaceUnencodable(s);
    forall i | 0 <= i < |s| ensures r[i] == s[i] {
      assert s[i] in s;
    }
  }

  /** On text with no surrogate and no astral code point, `clean_text` is `strip()`. */
  lemma CleanTextOfPlain(s: Text)
    requires forall c <- s :: IsKept(c)
    ensures CleanText(s) == Strip(s)
  {
    if s != [] {
      ReplaceUnencodableOfPlain(s);
      RemoveAstralOfPlain(s);
      assert CleanText(s) == Strip(RemoveAstral(ReplaceUnencodable(s)));
    }
  }

  /** Cleaning twice gives what cleaning once gives. */
  lemma CleanTextIdempotent(s: Text)
    ensures CleanText(CleanText(s)) == CleanText(s)
  {
    var r := CleanText(s);
    CleanTextOfPlain(r);
    StripOfStripped(r);
  }

  /** An astral code point (an emoji, say) anywhere in the input makes no difference. */
  lemma CleanTextDropsAstral(a: Text, c: CodePoint, b: Text)
    requires IsAstral(c)
    ensures CleanText(a + [c] + b) == CleanText(a + b)
  {
    ReplaceUnencodableConcat(a + [c], b);
    ReplaceUnencodableConcat(a, [c]);
    ReplaceUnencodableConcat(a, b);
    var ra, rb := ReplaceUnencodable(a), ReplaceUnencodable(b);
    assert ReplaceUnencodable([c]) == [c];
    RemoveAstralConcat(ra + [c], rb);
    RemoveAstralConcat(ra, [c]);
    RemoveAstralConcat(ra, rb);
    assert RemoveAstral([c]) == [];
    assert RemoveAstral(ra) + [] == RemoveAstral(ra);
    if a + b == [] {
      assert ra == [] && rb == [];
    }
  }

  /** A lone surrogate anywhere in the input cleans exactly like a `?` in its place. */
  lemma CleanTextReplacesSurrogate(a: Text, c: CodePoint, b: Text)
    requires IsSurrogate(c)
    ensures CleanText(a + [c] + b) == CleanText(a + [QuestionMark] + b)
  {
    ReplaceUnencodableConcat(a + [c], b);
    ReplaceUnencodableConcat(a, [c]);
    ReplaceUnencodableConcat(a + [QuestionMark], b);
    ReplaceUnencodableConcat(a, [QuestionMark]);
    assert ReplaceUnencodable([c]) == [QuestionMark] == ReplaceUnencodable([QuestionMark]);
  }
}
