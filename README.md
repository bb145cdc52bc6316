# ChatPDF front end: the event-handler core

This project models the part of the ChatPDF React front end that has behaviour
worth stating exactly: three sets of event handlers and the one boolean they
share.

- **Chat submission** (`Chat` module). A class holds the input, the transcript,
  the `loading` flag and the `error` state (`null`, `false` after dismissal, or
  a text). The submit handler is split at its first `await`. `Submit` covers the
  trim guard, the echo of the question, clearing the input and building the
  request. `Complete(outcome)` covers the answer, an HTTP error or an exception,
  and then the `finally`. `HandleSubmit` chains the two for a submission that
  nothing else overlaps. On a non-2xx reply the handler composes a text from
  the reply's `error` field, but `Error` in that file is the imported dialog
  component, so `new Error(...)` throws a TypeError and that TypeError's
  message is what the page shows (see "## Findings").
- **Upload** (`Upload` module). A class holds `isDragging`, `loading` and the
  tri-state `uploadStatus`, plus `false` after the error dialog is dismissed. It
  has the drag handlers, the upload handler (split the same way), and the two
  dialog dismissals. Only a successful upload writes the shared flag, and it
  writes `false`.
- **Login** (`Login` module). The e-mail validator is the regular expression
  `^[^\s@]+@[^\s@]+\.[^\s@]+$` tested on the lower-cased input. It is modelled
  as a left-to-right matcher (`MatchesEmailPattern`) and proved equal to the
  declarative reading of the pattern (`EmailShape`: `A@B.C` with non-empty
  parts free of whitespace and '@'). Lower-casing is proved not to change the
  verdict. The form is a class with the e-mail change handler, the submit
  handler for register and sign-in mode (split at the request), the mode
  toggle and the submit-disabled predicate. The token store and navigation are
  ghost fields.
- **Document presence** (`UploadedContext` module). One mutable cell `noDoc`,
  initially true, with its setter. The `App` module builds one cell and gives
  it to both controllers. `Session.Dispatch` runs any handler of either page,
  or enters a page, which mounts a fresh controller for it. It proves that
  within one visit to the chat page the transcript only grows at its end, and
  that `noDoc` never returns to true.
- **String built-ins** (`JsStrings` module): `trim`, `includes`,
  `toLowerCase` and the regular-expression class `\s`, as the handlers use them.

Network calls are not performed. Each one is an abstract outcome datatype
passed to the `Complete` step: `SendOutcome`, `UploadOutcome` and
`AuthOutcome`.

Behaviour worth noting:

- Transcript entries carry no identifier; the list is keyed by index.
- Entering the chat or the upload page starts its state afresh; leaving the
  chat page and coming back empties the transcript.
- There is no cancellation or generation guard for a reply that arrives after
  its page was left.
- A sign-in or sign-up request that throws shows the exception's own message.
  The fixed texts ('Registration failed', 'Invalid credentials') appear only
  for a non-2xx reply.
- A chat exception shows its own message, falling back to
  "Something went wrong." only when that message is absent or empty.

## Model

| member | source | states |
|---|---|---|
| JsStrings.SkipLeading | src/components/Chat.jsx:58 | the index returned is the first position at or after the start that does not hold whitespace (or the end); everything skipped is whitespace |
| JsStrings.SkipTrailing | src/components/Chat.jsx:58 | the index returned is the last cut point at or before the end whose preceding character is not whitespace (or the lower bound); everything skipped is whitespace |
| JsStrings.Trim | src/components/Chat.jsx:58 | `trim()` is empty exactly when the input is all whitespace; a non-empty result has non-whitespace at both ends |
| JsStrings.TrimIsMiddle | src/components/Chat.jsx:62 | the trimmed question is a contiguous slice of the input with only whitespace removed on either side |
| JsStrings.TrimFixedIffTrimmed | src/components/Chat.jsx:62 | `trim` leaves a string unchanged if and only if neither end is whitespace; trimming is idempotent |
| JsStrings.OccursShift | src/components/Chat.jsx:84 | an occurrence in the tail of a string is an occurrence in the whole string one index further on, and conversely |
| JsStrings.Includes | src/components/Chat.jsx:84 | `includes(sub)` holds if and only if `sub` occurs at some index |
| JsStrings.LowerChar | src/components/Login.jsx:23 | lower-casing a character never yields one of the modelled capitals (A to Z and the Latin-1 capitals U+00C0 to U+00DE except U+00D7) and changes no other character; whitespace, '@' and '.' stay exactly what they were |
| JsStrings.ToLower | src/components/Login.jsx:23 | `toLowerCase` keeps the length, leaves no capital in the result and changes only the capitals |
| JsStrings.ToLowerIdempotent | src/components/Login.jsx:23 | lower-casing an already lower-cased string changes nothing |
| JsStrings.LowerCasesAlphabet | src/components/Login.jsx:23 | the capitals A to Z become the small letters a to z, in order |
| UploadedContext.DocumentPresence.constructor | src/context/UploadedContext.jsx:7 | the flag starts as true (no document) |
| UploadedContext.DocumentPresence.SetNoDoc | src/context/UploadedContext.jsx:7-10 | after `setNoDoc(b)` the flag reads `b` |
| Chat.FailureMessage | src/components/Chat.jsx:81-88 | the re-upload text if and only if the error field is present and contains "dimensions"; otherwise the retry text, also when the field is missing |
| Chat.CaughtMessage | src/components/Chat.jsx:92-93 | the exception's message when it is non-empty, else "Something went wrong."; never empty |
| Chat.OutcomeError | src/components/Chat.jsx:81-93 | as written: a non-2xx reply shows the message of the TypeError raised by `new` on the imported `Error` component (line 4), never the re-upload or retry text; an exception shows `CaughtMessage` of its message |
| Chat.HttpErrorIgnoresField | src/components/Chat.jsx:83-86 | as written, the error shown for a non-2xx reply is the same whatever the reply's error field says |
| Chat.IntendedOutcomeError | src/components/Chat.jsx:81-93 | as evidently intended: a non-2xx reply shows the re-upload text if and only if its error field contains "dimensions", otherwise the retry text; an exception is shown as written |
| Chat.ReuploadHintNeverShown | src/components/Chat.jsx:4 | for the reply error "vector dimensions mismatch" the intended text is the re-upload hint, while the code as written shows the TypeError's message |
| Chat.ChatController.constructor | src/components/Chat.jsx:11-15 | empty input and transcript, not loading, error `null`, reading the shared flag |
| Chat.ChatController.SetInput | src/components/Chat.jsx:165 | only the input changes |
| Chat.ChatController.DismissError | src/components/Error.jsx:18-20 | the error becomes `false`; nothing else changes |
| Chat.ChatController.Submit | src/components/Chat.jsx:56-79 | blank input changes nothing and sends nothing; otherwise it clears the error, starts loading, appends exactly one user message with the trimmed question, clears the input, and sends the trimmed question with the current `noDoc`; keeps the invariant that user messages are trimmed and non-empty |
| Chat.ChatController.Complete | src/components/Chat.jsx:81-96 | an answer is appended as one response message; a failure appends nothing, keeps the echoed question and sets `OutcomeError` (for a non-2xx reply, the TypeError's message); `loading` is false on every path |
| Chat.ChatController.CompleteAsIntended | src/components/Chat.jsx:81-96 | the same step with the non-2xx reply shown as intended, through `IntendedOutcomeError` |
| Chat.ChatController.HandleSubmit | src/components/Chat.jsx:56-97 | with no overlapping submission, a valid question followed by an answer adds exactly `[question, answer]` in that order; a failure adds only the question and shows `OutcomeError`; blank input changes nothing and sends nothing |
| Upload.UploadController.constructor | src/components/Upload.jsx:10-13 | not dragging, not loading, status `null` |
| Upload.UploadController.DragOver | src/components/Upload.jsx:16-19 | dragging becomes true; nothing else changes |
| Upload.UploadController.DragLeave | src/components/Upload.jsx:21-23 | dragging becomes false; nothing else changes |
| Upload.UploadController.BeginUpload | src/components/Upload.jsx:35-39 | a missing file changes nothing and sends nothing; otherwise loading starts, the status resets to `null` and that file is sent; the flag is untouched |
| Upload.UploadController.CompleteUpload | src/components/Upload.jsx:53-63 | a 2xx reply sets 'success' and the flag to false; a non-2xx reply or an exception sets 'error' and leaves the flag; loading is false on every path; a false flag stays false |
| Upload.UploadController.Drop | src/components/Upload.jsx:25-29 | ends the drag and uploads only the first dropped file |
| Upload.UploadController.FileSelect | src/components/Upload.jsx:31-33 | uploads the first selected file, or nothing when none was selected |
| Upload.UploadController.CloseSuccess | src/components/Upload.jsx:138 | the status becomes `null`; the flag and loading are untouched |
| Upload.UploadController.DismissError | src/components/Upload.jsx:146-150 | the status becomes `false`; the flag and loading are untouched |
| Login.ShapeIsMatched | src/components/Login.jsx:22 | every string of the shape `A@B.C` is accepted by the matcher |
| Login.ExtendMeaning | src/components/Login.jsx:22 | reading one more character keeps the state's description of the prefix true, moving the '@' or '.' position when that character is the separator taken |
| Login.StepsMeaning | src/components/Login.jsx:22 | each matcher state describes the prefix read so far, with the positions of '@' and the chosen '.' |
| Login.MatchedIsShape | src/components/Login.jsx:22 | every string the matcher accepts has the shape `A@B.C` |
| Login.MatchesIffShape | src/components/Login.jsx:22 | the matcher and the pattern's description agree on every string |
| Login.StepsIgnoreCase | src/components/Login.jsx:23 | lower-casing the input does not change the matcher's run |
| Login.ValidateEmail | src/components/Login.jsx:21-24 | accepts exactly the strings `A@B.C` with A, B and C non-empty and free of whitespace and '@'; lower-casing first does not change the verdict |
| Login.LoginForm.constructor | src/components/Login.jsx:5-19 | all fields empty, sign-in mode, not loading; a stored non-empty token navigates to '/chat' |
| Login.LoginForm.ToggleMode | src/components/Login.jsx:267 | only the mode flips; the e-mail error is not recomputed |
| Login.LoginForm.SetUsername | src/components/Login.jsx:123 | only the username changes |
| Login.LoginForm.SetPassword | src/components/Login.jsx:181 | only the password changes |
| Login.LoginForm.SetConfirmPassword | src/components/Login.jsx:209 | only the confirmation changes |
| Login.LoginForm.HandleEmailChange | src/components/Login.jsx:26-34 | always stores the e-mail; the e-mail error is non-empty if and only if register mode is on and the e-mail is invalid; the submit button (line 230) is then disabled exactly when loading or when it is register mode with an invalid e-mail |
| Login.LoginForm.Submit | src/components/Login.jsx:36-59 | clears the error and starts loading; in register mode a password mismatch wins over an invalid e-mail, and either stops loading and sends nothing; otherwise it sends sign-up with username, e-mail and password, or sign-in with login = e-mail if non-empty else username |
| Login.LoginForm.Complete | src/components/Login.jsx:60-95 | a token is stored and the page navigates to '/chat'; a non-2xx reply shows 'Registration failed' or 'Invalid credentials' according to the request and stops loading; an exception shows its message and stops loading |
| App.Session.constructor | src/App.jsx:55-63 | one fresh flag, initially true, shared by the chat and upload controllers |
| App.Session.Dispatch | src/App.jsx:44-45 | entering the chat or upload page mounts a fresh controller in its initial state; any other handler keeps both controllers, the transcript only grows at its end, a false flag never becomes true again, and only an upload reply can change the flag |

## Left out

- Rendering, CSS, layout and the presentational components (home, navigation bar, member cards, loading spinner, page transition, background particles) are not part of this model.
- App.jsx's other routes (home, login, about) and its fire-and-forget keep-alive request are not part of this model; only entering the chat and upload pages is.
- `fetch`, request headers, the bearer token from the identity provider (`getToken`) and JSON parsing are not performed. Each request's result is an abstract outcome. A reply body that is not JSON, or a non-string `error` field, counts as an exception outcome.
- Chat.ChatController.Complete: an ok reply whose body has no `answer` field would append an entry with undefined content; the model's answer is always a string.
- Login.LoginForm.Complete: an ok reply without a `token` field would store the text "undefined"; the model's token is always a string. `localStorage` and navigation are ghost fields.
- JsStrings.LowerChar: only the Basic Latin and Latin-1 capitals are lowered; other capitals such as Greek U+03A3 or Cyrillic U+0410 are kept as they are, whereas `toLowerCase` lowers them. The e-mail verdict does not depend on this, because it relies only on whitespace, '@' and '.' being kept.
- JsStrings.ToLower: only Basic Latin and Latin-1 capitals are mapped, and each character maps to exactly one character. The full Unicode case mapping is not modelled; that includes mappings that expand one character to two, such as U+0130. `StepsIgnoreCase` relies only on lower-casing keeping whitespace, '@' and '.' as they are.
- Markdown rendering of answers (`marked`) and scrolling to the newest message are not modelled.
- Overlapping submissions and updates after the page is left are not modelled. The handlers are modelled one step at a time; the source has no guard for either.
- App.Session.Dispatch: events arrive in any order, so a reply can reach a controller mounted after its request was sent. In the page itself the late reply's writes to the unmounted page's own state are dropped, while the model lets them update the newly mounted controller, so its claims cover a superset of what the page can do. An upload reply's `setNoDoc(false)` still reaches the provider, which stays mounted around every route, in the page as in the model.
- Strings are sequences of Unicode scalar values, not of UTF-16 code units, so lone surrogates cannot be represented and a character outside the Basic Multilingual Plane counts as one character rather than two. No verdict changes: every character `trim`, `includes("dimensions")` and the e-mail pattern test for is in the Basic Multilingual Plane, and a non-whitespace character other than '@' and '.' plays the same role in the e-mail pattern whether it is one unit or two.
- Chat.OutcomeError: the exact wording of the TypeError depends on the engine and on the name the bundler gives the imported component; the model uses V8's wording for the name as written. The proofs rely only on it being non-empty and different from both composed texts.
- Browser form validation that can stop a submit before the handler runs is not modelled. This covers `required` inputs, `type="email"` in register mode, and the chat send button being disabled while loading. The handlers are modelled as callable in any state.
- Login.LoginForm.SubmitDisabled is a predicate without its own contract; it is stated through HandleEmailChange's postcondition.

## Findings

| source | as written | input that shows it | evidently intended | confidence | as-written member | corrected member |
|---|---|---|---|---|---|---|
| src/components/Chat.jsx:4,83 | `Error` is the imported dialog component, an arrow function, so `throw new Error(...)` raises a TypeError and the catch shows its message | a non-2xx reply with error field "vector dimensions mismatch" | show "Failed to respond. Try reuploading the document." (or the retry text when the field lacks "dimensions") | high, not executed | Chat.OutcomeError, Chat.ReuploadHintNeverShown | Chat.IntendedOutcomeError, Chat.ChatController.CompleteAsIntended |
