/**
 * The login page: the e-mail validator (the regular expression
 * `^[^\s@]+@[^\s@]+\.[^\s@]+$` applied to the lower-cased input), the
 * e-mail field's change handler, and the submit handler for the two modes
 * (register and sign in), split into the synchronous part and the part that
 * runs once the request has an outcome.
 */
module Login {
  import opened Wrappers
  import opened JsStrings

  // ---------------------------------------------------------------------
  // The e-mail pattern
  // ---------------------------------------------------------------------

  /** `[^\s@]`: any character that is neither whitespace nor '@'. */
  predicate PartChar(c: char) {
    !IsWhitespace(c) && c != '@'
  }

  predicate AllPartChars(s: string) {
    forall k :: 0 <= k < |s| ==> PartChar(s[k])
  }

  /** `[^\s@]+` */
  predicate IsPart(s: string) {
    s != [] && AllPartChars(s)
  }

  /** The strings the pattern describes: `A@B.C` with A, B and C non-empty
      and free of whitespace and '@' (B and C may contain '.'). */
  ghost predicate EmailShape(s: string) {
    exists a, b, c :: IsPart(a) && IsPart(b) && IsPart(c) && s == a + "@" + b + "." + c
  }

  /** States of a left-to-right matcher for the pattern: before anything,
      inside A, just after '@', inside B (no usable '.' yet), just after a
      '.' that has a non-empty B before it, inside C (accepting), and dead. */
  datatype MatchState = Start | InUser | AfterAt | InHost | AfterDot | InSuffix | Dead

  function Step(st: MatchState, c: char): MatchState {
    if !PartChar(c) then
      if st == InUser && c == '@' then AfterAt else Dead
    else
      match st
      case Start => InUser
      case InUser => InUser
      case AfterAt => InHost
      case InHost => if c == '.' then AfterDot else InHost
      case AfterDot => InSuffix
      case InSuffix => InSuffix
      case Dead => Dead
  }

  /** The state reached from `st` after reading all of `s`. */
  function Steps(st: MatchState, s: string): MatchState {
    if s == [] then st else Step(Steps(st, s[..|s| - 1]), s[|s| - 1])
  }

  /** `re.test(s)` for the e-mail pattern, without the lower-casing. */
  predicate MatchesEmailPattern(s: string) {
    Steps(Start, s) == InSuffix
  }

  lemma {:induction false} StepsAppend(st: MatchState, x: string, y: string)
    ensures Steps(st, x + y) == Steps(Steps(st, x), y)
    decreases |y|
  {
    if y != [] {
      assert (x + y)[..|x + y| - 1] == x + y[..|y| - 1];
      StepsAppend(st, x, y[..|y| - 1]);
    } else {
      assert x + y == x;
    }
  }

  /** Inside A or inside C, more part characters keep the matcher there. */
  lemma {:induction false} StepsStay(st: MatchState, s: string)
    requires st == InUser || st == InSuffix
    requires AllPartChars(s)
    ensures Steps(st, s) == st
    decreases |s|
  {
    if s != [] {
      StepsStay(st, s[..|s| - 1]);
    }
  }

  /** Past the '@', part characters never leave the host/suffix states. */
  lemma {:induction false} StepsPastAt(st: MatchState, s: string)
    requires st == InHost || st == AfterDot || st == InSuffix
    requires AllPartChars(s)
    ensures Steps(st, s) in {InHost, AfterDot, InSuffix}
    decreases |s|
  {
    if s != [] {
      StepsPastAt(st, s[..|s| - 1]);
    }
  }

  /** A non-empty part read from `st` is its first step followed by the rest. */
  lemma StepsFirst(st: MatchState, s: string)
    requires s != []
    ensures Steps(st, s) == Steps(Step(st, s[0]), s[1..])
  {
    assert s == [s[0]] + s[1..];
    StepsAppend(st, [s[0]], s[1..]);
    assert [s[0]][..0] == [];
  }

  /** Every string of the shape `A@B.C` is accepted by the matcher. */
  lemma ShapeIsMatched(s: string)
    requires EmailShape(s)
    ensures MatchesEmailPattern(s)
  {
    var a, b, c :| IsPart(a) && IsPart(b) && IsPart(c) && s == a + "@" + b + "." + c;
    StepsFirst(Start, a);
    StepsStay(InUser, a[1..]);
    StepsAppend(Start, a, "@");
    assert Steps(Start, a + "@") == AfterAt;
    StepsAppend(Start, a + "@", b);
    StepsFirst(AfterAt, b);
    StepsPastAt(InHost, b[1..]);
    var h := Steps(Start, a + "@" + b);
    StepsAppend(Start, a + "@" + b, ".");
    assert Steps(Start, a + "@" + b + ".") == Step(h, '.');
    StepsAppend(Start, a + "@" + b + ".", c);
    StepsFirst(Step(h, '.'), c);
    StepsStay(InSuffix, c[1..]);
  }

  /** `p` splits as `A@B.C` with the '@' at `i` and the '.' at `j`. */
  ghost predicate SplitAt(p: string, i: nat, j: nat) {
    && 0 < i && i + 1 < j && j + 1 < |p|
    && IsPart(p[..i]) && p[i] == '@' && AllPartChars(p[i + 1..j])
    && p[j] == '.' && AllPartChars(p[j + 1..])
  }

  /** What each matcher state says about the prefix `p` read so far; `i`
      locates the '@' and `j` the chosen '.'. */
  ghost predicate StateMeaning(st: MatchState, p: string, i: nat, j: nat) {
    match st
    case Start => p == []
    case InUser => IsPart(p)
    case AfterAt => 0 < i && i + 1 == |p| && IsPart(p[..i]) && p[i] == '@'
    case InHost => 0 < i && i + 1 < |p| && IsPart(p[..i]) && p[i] == '@' && AllPartChars(p[i + 1..])
    case AfterDot =>
      && 0 < i && i + 2 < |p| && IsPart(p[..i]) && p[i] == '@' && AllPartChars(p[i + 1..])
      && p[|p| - 1] == '.'
    case InSuffix => SplitAt(p, i, j)
    case Dead => true
  }

  /** Reading one more character keeps the meaning of the state: from the
      meaning of the state after `q`, the meaning of the state after
      `q + [c]`, with the positions of '@' and '.' updated. */
  lemma ExtendMeaning(st: MatchState, q: string, c: char, i: nat, j: nat) returns (i': nat, j': nat)
    requires StateMeaning(st, q, i, j)
    ensures StateMeaning(Step(st, c), q + [c], i', j')
  {
    var p := q + [c];
    i', j' := i, j;
    if !PartChar(c) {
      if st == InUser && c == '@' {
        i' := |q|;
        assert p[..i'] == q;
      }
      return;
    }
    match st
    case Start =>
      assert p == [c];
    case InUser =>
    case AfterAt =>
      assert p[..i] == q[..i];
      assert p[i + 1..] == [c];
    case InHost =>
      assert p[..i] == q[..i];
      assert p[i + 1..] == q[i + 1..] + [c];
    case AfterDot =>
      j' := |q| - 1;
      assert p[..i] == q[..i];
      assert p[i + 1..j'] == q[i + 1..][..j' - i - 1];
      assert p[j' + 1..] == [c];
    case InSuffix =>
      ExtendSuffix(q, c, i, j);
    case Dead =>
  }

  lemma ExtendSuffix(q: string, c: char, i: nat, j: nat)
    requires SplitAt(q, i, j) && PartChar(c)
    ensures SplitAt(q + [c], i, j)
  {
    var p := q + [c];
    assert p[..i] == q[..i];
    assert p[i + 1..j] == q[i + 1..j];
    assert p[j + 1..] == q[j + 1..] + [c];
  }

  /** The matcher's state after any prefix means what StateMeaning says. */
  lemma {:induction false} StepsMeaning(p: string) returns (i: nat, j: nat)
    ensures StateMeaning(Steps(Start, p), p, i, j)
    decreases |p|
  {
    if p == [] {
      i, j := 0, 0;
      return;
    }
    var q := p[..|p| - 1];
    var c := p[|p| - 1];
    assert p == q + [c];
    var i', j' := StepsMeaning(q);
    i, j := ExtendMeaning(Steps(Start, q), q, c, i', j');
  }

  /** Every string the matcher accepts has the shape `A@B.C`. */
  lemma MatchedIsShape(s: string)
    requires MatchesEmailPattern(s)
    ensures EmailShape(s)
  {
    var i, j := StepsMeaning(s);
    var a, b, c := s[..i], s[i + 1..j], s[j + 1..];
    assert s == a + "@" + b + "." + c;
    assert IsPart(a) && IsPart(b) && IsPart(c);
  }

  /** The matcher and the pattern's description agree on every string. */
  lemma MatchesIffShape(s: string)
    ensures MatchesEmailPattern(s) <==> EmailShape(s)
  {
    if MatchesEmailPattern(s) { MatchedIsShape(s); }
    if EmailShape(s) { ShapeIsMatched(s); }
  }

  /** Lower-casing never changes the matcher's run: case mapping keeps
      whitespace, '@' and '.' what they are. */
  lemma {:induction false} StepsIgnoreCase(st: MatchState, s: string)
    ensures Steps(st, ToLower(s)) == Steps(st, s)
    decreases |s|
  {
    if s != [] {
      assert ToLower(s)[..|s| - 1] == ToLower(s[..|s| - 1]);
      StepsIgnoreCase(st, s[..|s| - 1]);
    }
  }

  /** `validateEmail`: the pattern tested on the lower-cased input.  It
      accepts exactly the strings of the shape `A@B.C`, so lower-casing
      first does not change which strings pass. */
  function ValidateEmail(email: string): (ok: bool)
    ensures ok <==> EmailShape(email)
    ensures ok <==> MatchesEmailPattern(email)
  {
    StepsIgnoreCase(Start, email);
    MatchesIffShape(email);
    MatchesEmailPattern(ToLower(email))
  }

  // ---------------------------------------------------------------------
  // The form
  // ---------------------------------------------------------------------

  const InvalidEmailText := "Please enter a valid email address"
  const MismatchText := "Passwords do not match"
  const SignUpFailedText := "Registration failed"
  const SignInFailedText := "Invalid credentials"
  const ChatRoute := "/chat"

  /** The JSON bodies posted to the sign-up and sign-in endpoints. */
  datatype AuthRequest =
    | SignUp(username: string, email: string, password: string)
    | SignIn(login: string, password: string)

  /** What the request produced, standing in for `fetch`: a 2xx reply with
      the body's token, a non-2xx reply, or an exception with its message
      (a network failure or a body that is not JSON). */
  datatype AuthOutcome = Authenticated(token: string) | Refused | Failed(message: string)

  /** The message a non-2xx reply throws, fixed by the request's endpoint. */
  function RefusalText(req: AuthRequest): string {
    if req.SignUp? then SignUpFailedText else SignInFailedText
  }

  class LoginForm {
    var isRegister: bool
    var username: string
    var email: string
    var password: string
    var confirmPassword: string
    var error: string
    var emailError: string
    var isLoading: bool
    /** The browser's stored `token` entry. */
    ghost var storedToken: Option<string>
    /** The route last navigated to, if any. */
    ghost var navigatedTo: Option<string>

    /** Mounting the form: every field empty, sign-in mode; a stored
        non-empty token sends the user straight to the chat page. */
    constructor (savedToken: Option<string>)
      ensures !isRegister && !isLoading
      ensures username == "" && email == "" && password == "" && confirmPassword == ""
      ensures error == "" && emailError == ""
      ensures storedToken == savedToken
      ensures navigatedTo == (if savedToken.Some? && savedToken.value != "" then Some(ChatRoute) else None)
    {
      isRegister, isLoading := false, false;
      username, email, password, confirmPassword := "", "", "", "";
      error, emailError := "", "";
      storedToken := savedToken;
      navigatedTo := if savedToken.Some? && savedToken.value != "" then Some(ChatRoute) else None;
    }

    /** The submit button is disabled while a request is in flight, and in
        register mode while an e-mail error is shown. */
    predicate SubmitDisabled()
      reads this
    {
      isLoading || (isRegister && emailError != "")
    }

    /** The mode switch: only the mode flips. */
    method ToggleMode()
      modifies this
      ensures isRegister == !old(isRegister)
      ensures username == old(username) && email == old(email)
      ensures password == old(password) && confirmPassword == old(confirmPassword)
      ensures error == old(error) && emailError == old(emailError) && isLoading == old(isLoading)
      ensures storedToken == old(storedToken) && navigatedTo == old(navigatedTo)
    {
      isRegister := !isRegister;
    }

    method SetUsername(value: string)
      modifies this
      ensures username == value
      ensures isRegister == old(isRegister) && email == old(email)
      ensures password == old(password) && confirmPassword == old(confirmPassword)
      ensures error == old(error) && emailError == old(emailError) && isLoading == old(isLoading)
      ensures storedToken == old(storedToken) && navigatedTo == old(navigatedTo)
    {
      username := value;
    }

    method SetPassword(value: string)
      modifies this
      ensures password == value
      ensures isRegister == old(isRegister) && username == old(username) && email == old(email)
      ensures confirmPassword == old(confirmPassword)
      ensures error == old(error) && emailError == old(emailError) && isLoading == old(isLoading)
      ensures storedToken == old(storedToken) && navigatedTo == old(navigatedTo)
    {
      password := value;
    }

    method SetConfirmPassword(value: string)
      modifies this
      ensures confirmPassword == value
      ensures isRegister == old(isRegister) && username == old(username) && email == old(email)
      ensures password == old(password)
      ensures error == old(error) && emailError == old(emailError) && isLoading == old(isLoading)
      ensures storedToken == old(storedToken) && navigatedTo == old(navigatedTo)
    {
      confirmPassword := value;
    }

    /** The e-mail field's `onChange`: the value is always stored, and an
        e-mail error is shown exactly in register mode for a value that does
        not have the shape `A@B.C`. */
    method HandleEmailChange(value: string)
      modifies this
      ensures email == value
      ensures emailError != "" <==> isRegister && !EmailShape(value)
      ensures emailError == "" || emailError == InvalidEmailText
      ensures SubmitDisabled() <==> isLoading || (isRegister && !EmailShape(value))
      ensures isRegister == old(isRegister) && username == old(username)
      ensures password == old(password) && confirmPassword == old(confirmPassword)
      ensures error == old(error) && isLoading == old(isLoading)
      ensures storedToken == old(storedToken) && navigatedTo == old(navigatedTo)
    {
      email := value;
      if isRegister && !ValidateEmail(value) {
        emailError := InvalidEmailText;
      } else {
        emailError := "";
      }
    }

    /** The submit handler up to the request.  It starts by clearing the
        error and setting `isLoading`.  In register mode a password mismatch
        is reported first, whatever the e-mail; then an e-mail without the
        shape `A@B.C`; either stops loading and sends nothing.  Otherwise
        register mode sends username, e-mail and password, and sign-in
        sends the e-mail (or the username when the e-mail is empty) as the
        login, with the password. */
    method Submit() returns (req: Option<AuthRequest>)
      modifies this
      ensures isRegister == old(isRegister) && username == old(username) && email == old(email)
      ensures password == old(password) && confirmPassword == old(confirmPassword)
      ensures storedToken == old(storedToken) && navigatedTo == old(navigatedTo)
      ensures isRegister && password != confirmPassword ==>
                && req == None && error == MismatchText && !isLoading
                && emailError == old(emailError)
      ensures isRegister && password == confirmPassword && !EmailShape(email) ==>
                && req == None && error == "" && !isLoading
                && emailError == InvalidEmailText
      ensures isRegister && password == confirmPassword && EmailShape(email) ==>
                && req == Some(SignUp(username, email, password)) && error == "" && isLoading
                && emailError == old(emailError)
      ensures !isRegister ==>
                && req == Some(SignIn(if email != "" then email else username, password))
                && error == "" && isLoading && emailError == old(emailError)
    {
      isLoading := true;
      error := "";
      if isRegister {
        if password != confirmPassword {
          error := MismatchText;
          isLoading := false;
          return None;
        }
        if !ValidateEmail(email) {
          emailError := InvalidEmailText;
          isLoading := false;
          return None;
        }
        req := Some(SignUp(username, email, password));
      } else {
        req := Some(SignIn(if email != "" then email else username, password));
      }
    }

    /** The promise chain of a request sent by `Submit`.  A token stores it
        and navigates to the chat page (loading is not reset); a non-2xx
        reply shows the endpoint's fixed message and stops loading; an
        exception shows its own message and stops loading. */
    method Complete(req: AuthRequest, outcome: AuthOutcome)
      modifies this
      ensures isRegister == old(isRegister) && username == old(username) && email == old(email)
      ensures password == old(password) && confirmPassword == old(confirmPassword)
      ensures emailError == old(emailError)
      ensures outcome.Authenticated? ==>
                && storedToken == Some(outcome.token) && navigatedTo == Some(ChatRoute)
                && error == old(error) && isLoading == old(isLoading)
      ensures outcome.Refused? ==>
                && error == RefusalText(req) && !isLoading
                && storedToken == old(storedToken) && navigatedTo == old(navigatedTo)
      ensures outcome.Failed? ==>
                && error == outcome.message && !isLoading
                && storedToken == old(storedToken) && navigatedTo == old(navigatedTo)
    {
      match outcome
      case Authenticated(token) =>
        storedToken := Some(token);
        navigatedTo := Some(ChatRoute);
      case Refused =>
        error := RefusalText(req);
        isLoading := false;
      case Failed(message) =>
        error := message;
        isLoading := false;
    }
  }
}
