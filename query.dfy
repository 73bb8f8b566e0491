/**
 * Query improvement (app.py, `fetch_related_terms` and `process_input`).
 *
 * A short question is widened with related search terms before the vector
 * store is searched. The terms come from a text generator whose answer is
 * normalised: split on commas, each piece stripped, empty pieces dropped,
 * the rest joined with ", ". The generator, the retriever and the answering
 * chain are parameters of the model.
 */
module Query {
  import opened Wrappers
  import opened PyStr
  import opened Seqs

  /** The separator the normalised term list uses. */
  const Separator: Text := [Comma, Space]

  /** Questions with fewer words than this are widened with related terms. */
  const ShortQueryWords: nat := 15

  /** A term of a normalised list: non-empty, stripped, and free of commas. */
  predicate IsTerm(t: Text) {
    t != [] && IsStripped(t) && Comma !in t
  }

  /** Each piece stripped, the pieces that strip to nothing dropped. */
  function StrippedPieces(pieces: seq<Text>): (terms: seq<Text>)
    ensures |terms| <= |pieces|
    ensures forall t <- terms :: t != [] && IsStripped(t)
  {
    if pieces == [] then []
    else
      var t := Strip(pieces[0]);
      var rest := StrippedPieces(pieces[1..]);
      if t == [] then rest else [t] + rest
  }

  /** The terms of the generated text: its comma-separated pieces, stripped, blanks dropped. */
  function RelatedTerms(raw: Text): (terms: seq<Text>)
    ensures forall t <- terms :: IsTerm(t)
  {
    var pieces := SplitOn(raw, Comma);
    PiecesKeepCommasOut(pieces);
    StrippedPieces(pieces)
  }

  /** The normal form of a term list: its terms joined with a comma and a space. */
  function NormalizeTerms(raw: Text): (r: Text)
    ensures r == [] <==> RelatedTerms(raw) == []
  {
    var terms := RelatedTerms(raw);
    JoinEmpty(terms);
    Join(terms, Separator)
  }

  /**
   * `fetch_related_terms(query)` given the generator's text for the query:
   * `None` stands for the exception the source turns into `""`.
   */
  function FetchRelatedTerms(generated: Option<Text>): (terms: Text)
    ensures generated.None? ==> terms == []
    ensures generated.Some? ==> RelatedTerms(terms) == RelatedTerms(Strip(generated.value))
    ensures NormalizeTerms(terms) == terms
  {
    match generated
    case None =>
      NormalizeEmpty();
      []
    case Some(text) =>
      var terms := NormalizeTerms(Strip(text));
      NormalizeRoundTrip(Strip(text));
      NormalizeIdempotent(Strip(text));
      terms
  }

  /** The question, followed by a space and the terms when there are any. */
  function CombinedQuery(question: Text, terms: Text): (q: Text)
    ensures terms == [] ==> q == question
    ensures terms != [] ==> q == question + [Space] + terms
    ensures |question| <= |q| && q[..|question|] == question
  {
    if terms != [] then
      PrefixOfConcat(question + [Space], terms);
      PrefixOfConcat(question, [Space]);
      question + [Space] + terms
    else
      ConcatEmpty(question);
      question
  }

  /** The text `process_input` hands to `retrieve_documents`. */
  function RetrievalQuery(question: Text, generate: Text -> Option<Text>): (q: Text)
    ensures |Words(question)| >= ShortQueryWords ==> q == question
    ensures |Words(question)| < ShortQueryWords ==> q == CombinedQuery(question, FetchRelatedTerms(generate(question)))
    ensures |question| <= |q| && q[..|question|] == question
  {
    if |Words(question)| < ShortQueryWords then CombinedQuery(question, FetchRelatedTerms(generate(question)))
    else question
  }

  /** The reply of `process_question`: the fixed "no documents" message, or the chain's answer. */
  datatype Reply = NoDocuments | Answer(text: Text)

  /** `process_question(question, retrieved_docs)`, the chain given as `answer`. */
  function ProcessQuestion(question: Text, docs: seq<Text>, answer: (Text, seq<Text>) -> Text): (r: Reply)
    ensures r.NoDocuments? <==> docs == []
    ensures r.Answer? ==> r.text == answer(question, docs)
  {
    if docs == [] then NoDocuments else Answer(answer(question, docs))
  }

  /**
   * `process_input(question)`: documents are retrieved with the widened
   * query, but the chain is always asked the original question.
   */
  function ProcessInput(question: Text, generate: Text -> Option<Text>, retrieve: Text -> seq<Text>,
                        answer: (Text, seq<Text>) -> Text): (r: Reply)
    ensures var docs := retrieve(RetrievalQuery(question, generate));
      && (r.NoDocuments? <==> docs == [])
      && (r.Answer? ==> r.text == answer(question, docs))
  {
    ProcessQuestion(question, retrieve(RetrievalQuery(question, generate)), answer)
  }

  /**
   * What the retriever searches for, word by word: the question's words, and
   * for a short question the related terms' words after them.
   */
  lemma RetrievalQueryWords(question: Text, generate: Text -> Option<Text>)
    ensures var terms := FetchRelatedTerms(generate(question));
      Words(RetrievalQuery(question, generate))
        == Words(question) + (if |Words(question)| < ShortQueryWords then Words(terms) else [])
  {
    var terms := FetchRelatedTerms(generate(question));
    if |Words(question)| < ShortQueryWords && terms != [] {
      WordsOfSpaced(question, terms);
    } else {
      assert Words([]) == [];
      ConcatEmpty(Words(question));
    }
  }

  // ---------------------------------------------------------------------
  // Properties of the normaliser
  // ---------------------------------------------------------------------

  lemma PiecesKeepCommasOut(pieces: seq<Text>)
    requires forall k :: 0 <= k < |pieces| ==> Comma !in pieces[k]
    ensures forall t <- StrippedPieces(pieces) :: Comma !in t
    decreases |pieces|
  {
    if pieces != [] {
      StripKeepsCharacters(pieces[0]);
      PiecesKeepCommasOut(pieces[1..]);
    }
  }

  lemma JoinEmpty(terms: seq<Text>)
    requires forall t <- terms :: t != []
    ensures Join(terms, Separator) == [] <==> terms == []
  {
    if terms != [] {
      assert terms[0] in terms;
      if |terms| > 1 {
        assert |Join(terms, Separator)| >= |terms[0]|;
      }
    }
  }

  /** The pieces a normalised list splits into: the first term, then each later term behind a space. */
  function Spaced(terms: seq<Text>): (pieces: seq<Text>)
    ensures |pieces| == |terms|
  {
    if terms == [] then [] else [[Space] + terms[0]] + Spaced(terms[1..])
  }

  lemma {:induction false} JoinSpaced(terms: seq<Text>)
    requires terms != []
    ensures Join(Spaced(terms), [Comma]) == [Space] + Join(terms, Separator)
    decreases |terms|
  {
    if |terms| > 1 {
      var head, rest := terms[0], terms[1..];
      JoinSpaced(rest);
      var tail := Join(rest, Separator);
      ConsParts([Space] + head, Spaced(rest));
      // [Space] + head + [Comma] + ([Space] + tail)
      ConcatAssoc([Space] + head, [Comma], [Space] + tail);
      ConcatAssoc([Comma], [Space], tail);
      assert [Comma] + [Space] == Separator;
      ConcatAssoc([Space] + head, Separator, tail);
      ConcatAssoc([Space], head, Separator + tail);
      ConcatAssoc(head, Separator, tail);
    }
  }

  lemma JoinNormalized(terms: seq<Text>)
    requires terms != []
    ensures Join(terms, Separator) == Join([terms[0]] + Spaced(terms[1..]), [Comma])
  {
    var head, rest := terms[0], terms[1..];
    var pieces := [head] + Spaced(rest);
    if rest == [] {
      assert pieces == [head];
    } else {
      var tail := Join(rest, Separator);
      JoinSpaced(rest);
      ConsParts(head, Spaced(rest));
      assert Join(pieces, [Comma]) == head + [Comma] + ([Space] + tail);
      ConcatAssoc(head + [Comma], [Space], tail);
      ConcatAssoc(head, [Comma], [Space]);
      assert [Comma] + [Space] == Separator;
    }
  }

  lemma CommaFreePieces(terms: seq<Text>)
    requires terms != []
    requires forall t <- terms :: IsTerm(t)
    ensures forall k :: 0 <= k < |terms| ==> Comma !in ([terms[0]] + Spaced(terms[1..]))[k]
  {
    var pieces := [terms[0]] + Spaced(terms[1..]);
    forall k | 0 <= k < |pieces| ensures Comma !in pieces[k] {
      assert terms[k] in terms;
      if k > 0 {
        SpacedAt(terms[1..], k - 1);
        assert pieces[k] == [Space] + terms[k];
      }
    }
  }

  /** A joined list of terms, split on commas, gives the first term and the later ones behind a space. */
  lemma SplitOfNormalized(terms: seq<Text>)
    requires terms != []
    requires forall t <- terms :: IsTerm(t)
    ensures SplitOn(Join(terms, Separator), Comma) == [terms[0]] + Spaced(terms[1..])
  {
    JoinNormalized(terms);
    CommaFreePieces(terms);
    SplitOfJoin([terms[0]] + Spaced(terms[1..]), Comma);
  }

  lemma {:induction false} SpacedAt(terms: seq<Text>, j: nat)
    requires j < |terms|
    ensures Spaced(terms)[j] == [Space] + terms[j]
    decreases j
  {
    if j > 0 {
      SpacedAt(terms[1..], j - 1);
    }
  }

  lemma {:induction false} StrippedOfSpaced(terms: seq<Text>)
    requires forall t <- terms :: IsTerm(t)
    ensures StrippedPieces(Spaced(terms)) == terms
    decreases |terms|
  {
    if terms != [] {
      var t := terms[0];
      assert t in terms;
      ConcatEmpty([Space] + t);
      StripOfPadded([Space], t, []);
      assert forall u <- terms[1..] :: u in terms;
      StrippedOfSpaced(terms[1..]);
      var pieces := Spaced(terms);
      ConsParts([Space] + t, Spaced(terms[1..]));
      assert Strip(pieces[0]) == t;
      assert StrippedPieces(pieces) == [t] + StrippedPieces(pieces[1..]);
      ConsHeadTail(terms);
    }
  }

  /**
   * A list of terms joined with ", " yields exactly those terms again: the
   * normaliser's output, read back, is the list it was built from.
   */
  lemma TermsOfJoin(terms: seq<Text>)
    requires forall t <- terms :: IsTerm(t)
    ensures RelatedTerms(Join(terms, Separator)) == terms
  {
    if terms == [] {
      assert Strip([]) == [];
    } else {
      var t := terms[0];
      assert t in terms;
      SplitOfNormalized(terms);
      StripOfStripped(t);
      assert forall u <- terms[1..] :: u in terms;
      StrippedOfSpaced(terms[1..]);
      var pieces := [t] + Spaced(terms[1..]);
      ConsParts(t, Spaced(terms[1..]));
      ConsHeadTail(terms);
    }
  }

  /** There are no terms in an empty text, so the normal form of `""` is `""`. */
  lemma NormalizeEmpty()
    ensures RelatedTerms([]) == [] && NormalizeTerms([]) == []
  {
    assert SplitOn([], Comma) == [[]];
    assert Strip([]) == [];
  }

  /** Normalising keeps the terms: the output splits into the same stripped, non-empty terms. */
  lemma NormalizeRoundTrip(raw: Text)
    ensures RelatedTerms(NormalizeTerms(raw)) == RelatedTerms(raw)
  {
    TermsOfJoin(RelatedTerms(raw));
  }

  /** Normalising an already normalised list changes nothing. */
  lemma NormalizeIdempotent(raw: Text)
    ensures NormalizeTerms(NormalizeTerms(raw)) == NormalizeTerms(raw)
  {
    NormalizeRoundTrip(raw);
  }

  lemma {:induction false} StrippedPiecesAppend(a: seq<Text>, b: seq<Text>)
    ensures StrippedPieces(a + b) == StrippedPieces(a) + StrippedPieces(b)
    decreases |a|
  {
    if a == [] {
      ConcatEmpty(b);
    } else {
      HeadTailOfConcat(a, b);
      StrippedPiecesAppend(a[1..], b);
      var t := Strip(a[0]);
      if t != [] {
        ConcatAssoc([t], StrippedPieces(a[1..]), StrippedPieces(b));
      }
    }
  }

  /**
   * The terms keep the order of the text: those before a comma come first,
   * then those after it.
   */
  lemma RelatedTermsAround(x: Text, y: Text)
    ensures RelatedTerms(x + [Comma] + y) == RelatedTerms(x) + RelatedTerms(y)
  {
    SplitOnAround(x, Comma, y);
    StrippedPiecesAppend(SplitOn(x, Comma), SplitOn(y, Comma));
  }
}
