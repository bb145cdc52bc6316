/**
 * The chat page's submission controller.  `Submit` is the synchronous part
 * of the submit handler (everything before the first `await`); `Complete`
 * is what runs once the request has produced an outcome.  The transcript
 * only ever grows at its end.
 */
module Chat {
  import opened Wrappers
  import opened JsStrings
  import opened UploadedContext

  /** One transcript entry; entries carry no identifier. */
  datatype Message = Message(content: string, isResponse: bool)

  /** The `error` state: `null` initially and after a new submit, `false`
      once the error dialog was dismissed, otherwise the text shown. */
  datatype ErrorState = NoError | Dismissed | Shown(text: string)

  /** The JSON body posted to the answer endpoint. */
  datatype SendRequest = SendRequest(question: string, noDoc: bool)

  /** What the request produced, standing in for `fetch` and JSON parsing:
      a 2xx reply with its `answer`, a non-2xx reply with its optional
      `error` field, or an exception with its optional message (a network
      failure, a body that is not JSON, a non-string `error` field). */
  datatype SendOutcome =
    | Answered(answer: string)
    | HttpError(errorField: Option<string>)
    | Thrown(message: Option<string>)

  const ReuploadMessage := "Failed to respond. Try reuploading the document."
  const RetryMessage := "Failed to fetch response. Please try again."
  const FallbackMessage := "Something went wrong."

  /** The message of the error thrown for a non-2xx reply: the re-upload
      hint exactly when the reply's error field is present and contains
      "dimensions", the generic retry text otherwise. */
  function FailureMessage(errorField: Option<string>): (msg: string)
    ensures msg == ReuploadMessage <==>
              errorField.Some? && exists i: nat :: OccursAt(errorField.value, "dimensions", i)
    ensures msg == ReuploadMessage || msg == RetryMessage
  {
    if errorField.Some? && Includes(errorField.value, "dimensions")
    then ReuploadMessage
    else RetryMessage
  }

  /** `err.message || 'Something went wrong.'`: the caught message when it
      is a non-empty string, the fallback otherwise; never empty. */
  function CaughtMessage(message: Option<string>): (text: string)
    ensures text != ""
    ensures message.Some? && message.value != "" ==> text == message.value
    ensures message.None? || message.value == "" ==> text == FallbackMessage
  {
    match message
    case Some(m) => if m != "" then m else FallbackMessage
    case None => FallbackMessage
  }

  /** The message of the TypeError that `new Error(...)` raises on a non-2xx
      reply.  `Error` in this file names the imported dialog component, an
      arrow function, and `new` on an arrow function throws before any Error
      object exists.  The wording is V8's for that name. */
  const NotAConstructorMessage := "Error is not a constructor"

  /** What `error` becomes after a failed outcome, as the handler is written.
      On a non-2xx reply the `throw new Error(...)` itself throws a TypeError,
      so the catch block shows that TypeError's message: neither of the two
      texts the handler composes from the reply's error field ever appears. */
  function OutcomeError(outcome: SendOutcome): (e: ErrorState)
    requires !outcome.Answered?
    ensures e.Shown? && e.text != ""
    ensures outcome.HttpError? ==> e.text == NotAConstructorMessage
    ensures outcome.HttpError? ==> e.text != ReuploadMessage && e.text != RetryMessage
    ensures outcome.Thrown? ==> e.text == CaughtMessage(outcome.message)
  {
    match outcome
    case HttpError(_) => Shown(CaughtMessage(Some(NotAConstructorMessage)))
    case Thrown(message) => Shown(CaughtMessage(message))
  }

  /** As written, the error shown for a non-2xx reply does not depend on the
      reply's error field at all. */
  lemma HttpErrorIgnoresField(f: Option<string>, g: Option<string>)
    ensures OutcomeError(HttpError(f)) == OutcomeError(HttpError(g))
  {
  }

  /** What `error` evidently should become after a failed outcome: on a
      non-2xx reply, the message of the Error the handler constructs, that
      is `FailureMessage` of the reply's error field; an exception is shown
      as before. */
  function IntendedOutcomeError(outcome: SendOutcome): (e: ErrorState)
    requires !outcome.Answered?
    ensures e.Shown? && e.text != ""
    ensures outcome.HttpError? ==>
              (e.text == ReuploadMessage <==>
                 outcome.errorField.Some? &&
                 exists i: nat :: OccursAt(outcome.errorField.value, "dimensions", i))
    ensures outcome.HttpError? ==> e.text == ReuploadMessage || e.text == RetryMessage
    ensures outcome.Thrown? ==> e == OutcomeError(outcome)
  {
    match outcome
    case HttpError(field) => Shown(CaughtMessage(Some(FailureMessage(field))))
    case Thrown(message) => Shown(CaughtMessage(message))
  }

  /** A reply whose error field mentions "dimensions" should bring up the
      re-upload hint; as written, the handler shows the TypeError instead. */
  lemma ReuploadHintNeverShown()
    ensures var outcome := HttpError(Some("vector dimensions mismatch"));
            && IntendedOutcomeError(outcome) == Shown(ReuploadMessage)
            && OutcomeError(outcome) == Shown(NotAConstructorMessage)
  {
    assert OccursAt("vector dimensions mismatch", "dimensions", 7);
  }

  /** A question as the transcript holds it: non-empty and already trimmed. */
  predicate IsTrimmedQuestion(q: string) {
    q != [] && IsTrimmed(q)
  }

  /** A transcript entry as the controller creates it: a user entry holds a
      trimmed, non-empty question. */
  predicate WellFormed(m: Message) {
    m.isResponse || IsTrimmedQuestion(m.content)
  }

  /** Every entry of the transcript is well formed. */
  predicate AllWellFormed(ms: seq<Message>) {
    forall k :: 0 <= k < |ms| ==> WellFormed(ms[k])
  }

  class ChatController {
    var input: string
    var messages: seq<Message>
    var loading: bool
    var error: ErrorState
    /** The shared document-presence cell, read when a question is sent. */
    const doc: DocumentPresence

    /** Every question the user sent is stored trimmed and non-empty. */
    ghost predicate Valid()
      reads this`messages
    {
      AllWellFormed(messages)
    }

    constructor (doc: DocumentPresence)
      ensures Valid()
      ensures input == "" && messages == [] && !loading && error == NoError
      ensures this.doc == doc
    {
      this.doc := doc;
      input, messages, loading, error := "", [], false, NoError;
    }

    /** The input's `onChange`. */
    method SetInput(value: string)
      requires Valid()
      modifies this
      ensures Valid()
      ensures input == value
      ensures messages == old(messages) && loading == old(loading) && error == old(error)
    {
      input := value;
    }

    /** The error dialog's "Try again" button: `setError(false)`. */
    method DismissError()
      requires Valid()
      modifies this
      ensures Valid()
      ensures error == Dismissed
      ensures input == old(input) && messages == old(messages) && loading == old(loading)
    {
      error := Dismissed;
    }

    /** The submit handler up to its first `await`.  Blank input (empty after
        trimming) changes nothing and sends nothing.  Otherwise the error is
        cleared, loading starts, the trimmed question is echoed at the end of
        the transcript, the input is cleared, and the request carries the
        trimmed question and the current `noDoc`. */
    method Submit() returns (req: Option<SendRequest>)
      requires Valid()
      modifies this
      ensures Valid()
      ensures Trim(old(input)) == [] ==>
                req == None && input == old(input) && messages == old(messages)
                && loading == old(loading) && error == old(error)
      ensures Trim(old(input)) != [] ==>
                && req == Some(SendRequest(Trim(old(input)), doc.noDoc))
                && messages == old(messages) + [Message(Trim(old(input)), false)]
                && input == "" && loading && error == NoError
    {
      var question := Trim(input);
      if question == [] {
        return None;
      }
      var echo := Message(question, false);
      assert WellFormed(echo);
      messages := messages + [echo];
      error := NoError;
      loading := true;
      input := "";
      req := Some(SendRequest(question, doc.noDoc));
    }

    /** The rest of the handler, once the request has an outcome.  Only an
        answer is appended; a failure sets the error and keeps the echoed
        question; `loading` is cleared on every path. */
    method Complete(outcome: SendOutcome)
      requires Valid()
      modifies this
      ensures Valid()
      ensures !loading && input == old(input)
      ensures outcome.Answered? ==>
                messages == old(messages) + [Message(outcome.answer, true)] && error == old(error)
      ensures !outcome.Answered? ==>
                messages == old(messages) && error == OutcomeError(outcome)
    {
      if outcome.Answered? {
        messages := messages + [Message(outcome.answer, true)];
      } else {
        error := OutcomeError(outcome);
      }
      loading := false;
    }

    /** `Complete` as the handler evidently means it: a non-2xx reply shows
        the text composed from the reply's error field. */
    method CompleteAsIntended(outcome: SendOutcome)
      requires Valid()
      modifies this
      ensures Valid()
      ensures !loading && input == old(input)
      ensures outcome.Answered? ==>
                messages == old(messages) + [Message(outcome.answer, true)] && error == old(error)
      ensures !outcome.Answered? ==>
                messages == old(messages) && error == IntendedOutcomeError(outcome)
    {
      if outcome.Answered? {
        messages := messages + [Message(outcome.answer, true)];
      } else {
        error := IntendedOutcomeError(outcome);
      }
      loading := false;
    }

    /** The whole handler when no other submission overlaps it: a valid
        question followed by an answer adds exactly the question and then
        the answer to the end of the transcript. */
    method HandleSubmit(outcome: SendOutcome) returns (req: Option<SendRequest>)
      requires Valid()
      modifies this
      ensures Valid()
      ensures Trim(old(input)) == [] ==>
                req == None && messages == old(messages) && loading == old(loading)
                && input == old(input) && error == old(error)
      ensures Trim(old(input)) != [] ==>
                var q := Trim(old(input));
                && req == Some(SendRequest(q, doc.noDoc))
                && input == "" && !loading
                && messages == old(messages) + [Message(q, false)]
                   + (if outcome.Answered? then [Message(outcome.answer, true)] else [])
                && error == (if outcome.Answered? then NoError else OutcomeError(outcome))
    {
      req := Submit();
      if req.Some? {
        Complete(outcome);
      }
    }
  }
}
