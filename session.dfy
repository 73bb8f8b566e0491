/**
 * The "Send" handler `handle_submit` (app.py) and the part of the Streamlit
 * session state it reads and writes.
 *
 * A question is taken only when the input box holds something other than
 * whitespace and something has been uploaded (extracted text or an image).
 * Taking it stores the raw input as the current question, raises the
 * `processing` flag and empties the input box. Otherwise nothing changes;
 * with nothing uploaded the page shows an error.
 */
module Session {
  import opened Wrappers
  import opened PyStr

  /** An uploaded image; only whether there is one matters here. */
  datatype Image = Image(pixels: seq<int>)

  /** The session fields `handle_submit` touches. */
  datatype SessionState = SessionState(
    userInput: Text,
    content: Text,
    uploadedImage: Option<Image>,
    currentQuestion: Option<Text>,
    processing: bool)

  /** How a press of "Send" ends. */
  datatype SubmitOutcome =
    | Ignored            // the input is empty or only whitespace
    | NoDocumentsError   // the upload-first error shown with `st.error`
    | Submitted

  /** The input box holds something other than whitespace. */
  predicate HasQuestion(s: SessionState) {
    Strip(s.userInput) != []
  }

  /** Something has been uploaded: extracted text or an image. */
  predicate HasDocuments(s: SessionState) {
    s.content != [] || s.uploadedImage.Some?
  }

  /** The state the page starts from. */
  function Initial(): (s: SessionState)
    ensures !s.processing && s.currentQuestion.None? && !HasDocuments(s) && s.userInput == []
  {
    SessionState([], [], None, None, false)
  }

  /** `handle_submit()` as a function of the session state. */
  function Submit(s: SessionState): (r: (SessionState, SubmitOutcome))
    ensures r.1 == Ignored <==> !HasQuestion(s)
    ensures r.1 == NoDocumentsError <==> HasQuestion(s) && !HasDocuments(s)
    ensures r.1 == Submitted <==> HasQuestion(s) && HasDocuments(s)
    ensures r.1 != Submitted ==> r.0 == s
    ensures r.1 == Submitted ==>
      && r.0.currentQuestion == Some(s.userInput)
      && r.0.processing
      && r.0.userInput == []
      && r.0.content == s.content
      && r.0.uploadedImage == s.uploadedImage
  {
    if !HasQuestion(s) then (s, Ignored)
    else if !HasDocuments(s) then (s, NoDocumentsError)
    else (s.(currentQuestion := Some(s.userInput), processing := true, userInput := []), Submitted)
  }

  /** While a question is being processed, there is a current question that is not blank. */
  predicate Consistent(s: SessionState) {
    s.processing ==> s.currentQuestion.Some? && Strip(s.currentQuestion.value) != []
  }

  /** Submitting keeps the session consistent. */
  lemma SubmitKeepsConsistent(s: SessionState)
    requires Consistent(s)
    ensures Consistent(Submit(s).0)
  {
  }

  /**
   * A question is taken once: right after it is taken the input box is
   * empty, so pressing "Send" again changes nothing.
   */
  lemma SubmitTwice(s: SessionState)
    requires Submit(s).1 == Submitted
    ensures Submit(Submit(s).0) == (Submit(s).0, Ignored)
  {
    assert Strip([]) == [];
  }

  /** `st.session_state` with the fields `handle_submit` touches. */
  class SessionStore {
    var userInput: Text
    var content: Text
    var uploadedImage: Option<Image>
    var currentQuestion: Option<Text>
    var processing: bool

    function State(): SessionState
      reads this
    {
      SessionState(userInput, content, uploadedImage, currentQuestion, processing)
    }

    predicate Valid()
      reads this
    {
      Consistent(State())
    }

    /** The defaults the page sets when the fields are missing. */
    constructor ()
      ensures State() == Initial() && Valid()
    {
      userInput := [];
      content := [];
      uploadedImage := None;
      currentQuestion := None;
      processing := false;
    }

    /** The "Send" button's `on_click` handler. */
    method HandleSubmit() returns (outcome: SubmitOutcome)
      requires Valid()
      modifies this
      ensures (State(), outcome) == Submit(old(State()))
      ensures Valid()
    {
      if HasQuestion(State()) {
        if !HasDocuments(State()) {
          return NoDocumentsError;
        }
        currentQuestion := Some(userInput);
        processing := true;
        userInput := [];
        SubmitKeepsConsistent(old(State()));
        return Submitted;
      }
      return Ignored;
    }
  }
}
