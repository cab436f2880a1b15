/**
 * The sign-up form: the field check that runs before any backend call, and
 * the handling of the sign-up reply, which sorts an "already registered"
 * error into a sign-in attempt.
 */
module SignUp {
  import opened Basics
  import opened Text

  const FILL_ALL_FIELDS: string := "Please fill out all fields."
  const PASSWORDS_DIFFER: string := "Passwords do not match."
  const GENERIC_FAILURE: string := "Error during sign-up. Please try again."
  const ALREADY_REGISTERED: string := "already registered"

  /** The six inputs, as typed. */
  datatype SignUpForm = SignUpForm(
    firstName: string, lastName: string, username: string, email: string,
    password: string, confirmPassword: string)

  /** A field counts as filled when, after the trimming that field gets, it is not empty. */
  predicate AllFilled(f: SignUpForm) {
    && !IsBlank(f.firstName) && !IsBlank(f.lastName) && !IsBlank(f.username) && !IsBlank(f.email)
    && f.password != [] && f.confirmPassword != []
  }

  /**
   * The checks of the sign-up button, in order: the names, username and
   * email are trimmed, the passwords are not; an empty value stops with
   * "Please fill out all fields.", then differing passwords stop with
   * "Passwords do not match.". No message means the form passes.
   */
  function Validate(f: SignUpForm): Option<string> {
    var firstName := Trim(f.firstName);
    var lastName := Trim(f.lastName);
    var username := Trim(f.username);
    var email := Trim(f.email);
    if firstName == [] || lastName == [] || username == [] || email == [] || f.password == [] || f.confirmPassword == [] then
      Some(FILL_ALL_FIELDS)
    else if f.password != f.confirmPassword then
      Some(PASSWORDS_DIFFER)
    else
      None
  }

  /**
   * The three outcomes of the check: a missing field, a mismatch with every
   * field filled, or a pass, which needs every field filled and equal
   * passwords.
   */
  lemma ValidateSpec(f: SignUpForm)
    ensures Validate(f) == Some(FILL_ALL_FIELDS) <==> !AllFilled(f)
    ensures Validate(f) == Some(PASSWORDS_DIFFER) <==> AllFilled(f) && f.password != f.confirmPassword
    ensures Validate(f) == None <==> AllFilled(f) && f.password == f.confirmPassword
  {
  }

  /** A missing field is reported even when the passwords also differ. */
  lemma MissingFieldFirst(f: SignUpForm)
    requires IsBlank(f.email) && f.password != f.confirmPassword
    ensures Validate(f) == Some(FILL_ALL_FIELDS)
  {
  }

  /**
   * The passwords are not trimmed: with the other fields filled, a password
   * of spaces repeated in the confirmation passes.
   */
  lemma BlankPasswordAccepted(f: SignUpForm)
    requires !IsBlank(f.firstName) && !IsBlank(f.lastName) && !IsBlank(f.username) && !IsBlank(f.email)
    ensures Validate(f.(password := "   ", confirmPassword := "   ")) == None
  {
    ValidateSpec(f.(password := "   ", confirmPassword := "   "));
  }

  /** Nor is the confirmation: one that differs from the password only by a trailing space is a mismatch. */
  lemma TrailingSpaceMismatch(f: SignUpForm, password: string)
    requires !IsBlank(f.firstName) && !IsBlank(f.lastName) && !IsBlank(f.username) && !IsBlank(f.email)
    requires password != []
    ensures Validate(f.(password := password, confirmPassword := password + " ")) == Some(PASSWORDS_DIFFER)
  {
    var g := f.(password := password, confirmPassword := password + " ");
    assert |g.password| != |g.confirmPassword|;
    ValidateSpec(g);
  }

  /** A name, username or email made only of white space counts as missing. */
  lemma BlankFieldMissing(f: SignUpForm)
    requires IsBlank(f.firstName) || IsBlank(f.lastName) || IsBlank(f.username) || IsBlank(f.email)
    ensures Validate(f) == Some(FILL_ALL_FIELDS)
  {
  }

  /** `error.message.toLowerCase().includes("already registered")`. */
  predicate IsAlreadyRegistered(message: string) {
    Contains(ToLower(message), ALREADY_REGISTERED)
  }

  /** The classification ignores the letter case of the message. */
  lemma ClassificationIgnoresCase(message: string)
    ensures IsAlreadyRegistered(message) <==> IsAlreadyRegistered(ToLower(message))
  {
    ToLowerIdempotent(message);
  }

  /**
   * A message that holds the phrase in any letter case (any `phrase` whose
   * lower case is `already registered`) is classified as already registered.
   */
  lemma PhraseIsRecognised(before: string, phrase: string, after: string)
    requires ToLower(phrase) == ALREADY_REGISTERED
    ensures IsAlreadyRegistered(before + phrase + after)
  {
    var m := before + phrase + after;
    var k := |before|;
    assert ToLower(m)[k..k + |ALREADY_REGISTERED|] == ALREADY_REGISTERED by {
      forall j | 0 <= j < |ALREADY_REGISTERED|
        ensures ToLower(m)[k + j] == ALREADY_REGISTERED[j]
      {
        assert m[k + j] == phrase[j];
        assert ToLower(phrase)[j] == LowerChar(phrase[j]);
      }
    }
    assert OccursAt(ToLower(m), ALREADY_REGISTERED, k);
  }

  /** Conversely, a message classified as already registered holds such a phrase. */
  lemma RecognisedHasPhrase(message: string)
    requires IsAlreadyRegistered(message)
    ensures exists before, phrase, after ::
              message == before + phrase + after && ToLower(phrase) == ALREADY_REGISTERED
  {
    var k := IndexOf(ToLower(message), ALREADY_REGISTERED).value;
    var n := |ALREADY_REGISTERED|;
    assert OccursAt(ToLower(message), ALREADY_REGISTERED, k);
    var phrase := message[k..k + n];
    assert ToLower(phrase) == ALREADY_REGISTERED by {
      forall j | 0 <= j < n
        ensures ToLower(phrase)[j] == ALREADY_REGISTERED[j]
      {
        assert ToLower(message)[k + j] == ALREADY_REGISTERED[j];
      }
    }
    var before, after := message[..k], message[k + n..];
    assert message == before + phrase + after;
    assert message == before + phrase + after && ToLower(phrase) == ALREADY_REGISTERED;
  }

  /** What the sign-up call hands back: an account, an error message, or an exception. */
  datatype SignUpReply = SignedUp | SignUpError(message: string) | SignUpThrew

  /** What the sign-in call hands back: an account, an error message, or an exception. */
  datatype SignInReply = SignedIn | SignInError(message: string) | SignInThrew

  /** The backend calls the handler makes, in order. */
  datatype Call = SignUpCall(email: string, password: string) | SignInCall(email: string, password: string)

  /**
   * Where the handler goes: an error message shown (and it stops), or on to
   * the user-record reconciliation with an authenticated account.
   */
  datatype Step = ShowError(message: string) | Authenticated(viaSignIn: bool)

  /**
   * The handler up to authentication: a failed check stops before any
   * backend call; an "already registered" error switches to signing in,
   * whose error is shown as it is; any other error is shown as it is; an
   * exception from either call shows the generic message.
   */
  function HandleSignUp(f: SignUpForm, reply: SignUpReply, signIn: SignInReply): (Step, seq<Call>) {
    match Validate(f)
    case Some(message) => (ShowError(message), [])
    case None =>
      var email := Trim(f.email);
      var calls := [SignUpCall(email, f.password)];
      match reply
      case SignedUp => (Authenticated(false), calls)
      case SignUpThrew => (ShowError(GENERIC_FAILURE), calls)
      case SignUpError(message) =>
        if IsAlreadyRegistered(message) then
          var calls' := calls + [SignInCall(email, f.password)];
          match signIn
          case SignedIn => (Authenticated(true), calls')
          case SignInError(signInMessage) => (ShowError(signInMessage), calls')
          case SignInThrew => (ShowError(GENERIC_FAILURE), calls')
        else (ShowError(message), calls)
  }

  /** A form that fails the check makes no backend call, whatever the backend would have answered. */
  lemma RejectedBeforeBackend(f: SignUpForm, reply: SignUpReply, signIn: SignInReply)
    requires Validate(f).Some?
    ensures HandleSignUp(f, reply, signIn) == (ShowError(Validate(f).value), [])
  {
  }

  /**
   * For a form that passes: sign-in is attempted exactly when the sign-up
   * error is classified as already registered, and both calls use the
   * trimmed email and the untrimmed password; any other error's message,
   * and a sign-in error's, is shown verbatim; an exception from either call
   * shows the generic message.
   */
  lemma SignInOnlyWhenRegistered(f: SignUpForm, reply: SignUpReply, signIn: SignInReply)
    requires Validate(f).None?
    ensures var (step, calls) := HandleSignUp(f, reply, signIn);
      && 1 <= |calls| <= 2
      && calls[0] == SignUpCall(Trim(f.email), f.password)
      && (|calls| == 2 <==> reply.SignUpError? && IsAlreadyRegistered(reply.message))
      && (|calls| == 2 ==> calls[1] == SignInCall(Trim(f.email), f.password))
      && (reply.SignUpError? && !IsAlreadyRegistered(reply.message) ==> step == ShowError(reply.message))
      && (step.Authenticated? <==> reply.SignedUp? || (|calls| == 2 && signIn.SignedIn?))
      && (|calls| == 2 && signIn.SignInError? ==> step == ShowError(signIn.message))
      && (reply.SignUpThrew? || (|calls| == 2 && signIn.SignInThrew?) ==> step == ShowError(GENERIC_FAILURE))
  {
  }
}
