/** The older inline sign-in component of src/components/application/auth-section.tsx.
    It holds the same nine pieces of state as the `useAuthFlow` hook but its
    handlers differ: an empty email is ignored, errors are not cleared on
    entry, an invalid email always shows on the email screen, and every
    settled verification leaves an error message, success included. It also
    decides which of its four screens is shown. */
module LegacyAuthSection {
  import opened Services
  import opened Otp

  /** The screens the component renders. */
  datatype View = Choice | SignInForm | SignUpForm | CodeEntry

  /** The nested conditions of the rendered markup: the code screen once a
      code is sent, otherwise the choice until one is made, then its form. */
  function CurrentView(isCodeSent: bool, mode: Option<AuthMode>): (v: View)
    ensures v == CodeEntry <==> isCodeSent
    ensures v == Choice <==> !isCodeSent && mode == None
    ensures v == SignInForm <==> !isCodeSent && mode == Some(SignIn)
    ensures v == SignUpForm <==> !isCodeSent && mode == Some(SignUp)
  {
    if !isCodeSent then
      match mode
      case None => Choice
      case Some(SignIn) => SignInForm
      case Some(SignUp) => SignUpForm
    else CodeEntry
  }

  /** The message for an error returned by `signInWithOtp`, whichever screen
      it is shown on. */
  function SendErrorMessage(code: string): (m: string)
    ensures m != []
    ensures code == "validation_failed" ==> m == InvalidEmailMessage
    ensures code == "over_email_send_rate_limit" ==> m == RateLimitMessage
    ensures code == "otp_disabled" ==> m == NoAccountMessage
    ensures code !in ["validation_failed", "over_email_send_rate_limit", "otp_disabled"] ==>
      m == GenericMessage
  {
    if code == "validation_failed" then InvalidEmailMessage
    else if code == "over_email_send_rate_limit" then RateLimitMessage
    else if code == "otp_disabled" then NoAccountMessage
    else GenericMessage
  }

  /** Whether the error goes to the code screen: an invalid email never does;
      the others do once a code has been sent. */
  function ShownOnCodeScreen(code: string, isCodeSent: bool): (b: bool)
    ensures b <==> isCodeSent && code != "validation_failed"
  {
    if code == "validation_failed" then false else isCodeSent
  }

  /** The verification error set once `verifyOtp` settles, as written: the
      expiry text for `otp_expired` and the generic text in every other case,
      a successful verification included. */
  function VerifyOutcomeMessage(outcome: Outcome): (m: string)
    ensures m != []
    ensures m == ExpiredCodeMessage <==> outcome.Err? && outcome.error.code == "otp_expired"
  {
    if outcome.Err? && outcome.error.code == "otp_expired" then ExpiredCodeMessage
    else GenericMessage
  }

  /** A successful verification is reported to the user as a failure. */
  lemma SuccessfulVerifyShowsError()
    ensures VerifyOutcomeMessage(Ok) == GenericMessage
  {
  }

  class AuthSectionState {
    var email: string
    var code: string
    var sendCodeError: string
    var verifyCodeError: string
    var signInOrSignUp: Option<AuthMode>
    var isCodeSent: bool
    var sendingOtp: bool
    var verifyingOtp: bool
    /** `null` until the captcha widget reports a token. */
    var captchaToken: Option<string>

    predicate Initial()
      reads this
    {
      && email == "" && code == "" && sendCodeError == "" && verifyCodeError == ""
      && signInOrSignUp == None && !isCodeSent && !sendingOtp && !verifyingOtp
      && captchaToken == None
    }

    /** A token is present and non-empty, as `!captchaToken` tests. */
    predicate HasCaptcha()
      reads this
    {
      captchaToken.Some? && captchaToken.value != ""
    }

    function View(): View
      reads this
    {
      CurrentView(isCodeSent, signInOrSignUp)
    }

    constructor ()
      ensures Initial() && View() == Choice
    {
      email, code, sendCodeError, verifyCodeError := "", "", "", "";
      signInOrSignUp := None;
      isCodeSent, sendingOtp, verifyingOtp := false, false, false;
      captchaToken := None;
    }

    /** The Login and Create account buttons of the first screen. */
    method Choose(mode: AuthMode)
      modifies this`signInOrSignUp
      ensures signInOrSignUp == Some(mode)
      ensures !isCodeSent ==> View() == (if mode == SignIn then SignInForm else SignUpForm)
    {
      signInOrSignUp := Some(mode);
    }

    /** `handleSendOtp(signUp)`. An empty email changes nothing; a missing
        captcha sets the email-screen error. Otherwise `signInWithOtp` is
        called and, once it settles, the in-flight flag is down: success
        marks the code as sent, an error is shown on the screen
        `ShownOnCodeScreen` picks, and an exception shows the generic message
        on the email screen. Errors already shown are not cleared. */
    method HandleSendOtp(signUp: bool, outcome: Outcome) returns (request: Option<SendRequest>)
      modifies this
      ensures email == old(email) && code == old(code) && captchaToken == old(captchaToken)
      ensures signInOrSignUp == old(signInOrSignUp) && verifyingOtp == old(verifyingOtp)
      ensures request.Some? <==> old(email) != "" && old(HasCaptcha())
      ensures old(email) == "" ==>
        && sendCodeError == old(sendCodeError) && verifyCodeError == old(verifyCodeError)
        && isCodeSent == old(isCodeSent) && sendingOtp == old(sendingOtp)
      ensures old(email) != "" && !old(HasCaptcha()) ==>
        && sendCodeError == CaptchaMessage && verifyCodeError == old(verifyCodeError)
        && isCodeSent == old(isCodeSent) && sendingOtp == old(sendingOtp)
      ensures request.Some? ==>
        && request.value == SendRequest(old(email), RedirectUrl, signUp, old(captchaToken).value)
        && !sendingOtp
      ensures request.Some? && outcome.Ok? ==>
        && isCodeSent
        && sendCodeError == old(sendCodeError) && verifyCodeError == old(verifyCodeError)
      ensures request.Some? && outcome.Err? ==>
        && isCodeSent == old(isCodeSent)
        && var m := SendErrorMessage(outcome.error.code);
        && (if ShownOnCodeScreen(outcome.error.code, old(isCodeSent))
            then sendCodeError == old(sendCodeError) && verifyCodeError == m
            else sendCodeError == m && verifyCodeError == old(verifyCodeError))
      ensures request.Some? && outcome.Threw? ==>
        && isCodeSent == old(isCodeSent)
        && sendCodeError == GenericMessage && verifyCodeError == old(verifyCodeError)
    {
      if email == "" {
        return None;
      }
      if !HasCaptcha() {
        sendCodeError := CaptchaMessage;
        return None;
      }
      sendingOtp := true;
      request := Some(SendRequest(email, RedirectUrl, signUp, captchaToken.value));
      match outcome {
        case Err(error) =>
          var message := SendErrorMessage(error.code);
          if error.code == "validation_failed" {
            sendCodeError := message;
          } else if !isCodeSent {
            sendCodeError := message;
          } else {
            verifyCodeError := message;
          }
        case Ok =>
          isCodeSent := true;
        case Threw =>
          sendCodeError := GenericMessage;
      }
      sendingOtp := false;
    }

    /** `handleVerifyCode`: a code of the wrong length gets a message and no
        call; otherwise `verifyOtp` is called and, once it settles, the flag is
        down and the verification error is what `VerifyOutcomeMessage` gives,
        never empty. A thrown call is treated like any error. */
    method HandleVerifyCode(outcome: Outcome) returns (request: Option<VerifyRequest>)
      modifies this`verifyCodeError, this`verifyingOtp
      ensures request.Some? <==> |code| == CodeLength
      ensures request.None? ==>
        verifyCodeError == CodeLengthMessage && verifyingOtp == old(verifyingOtp)
      ensures request.Some? ==>
        && request.value == VerifyRequest(email, code, "email")
        && verifyCodeError == VerifyOutcomeMessage(outcome)
        && verifyCodeError != ""
        && !verifyingOtp
    {
      if |code| != CodeLength {
        verifyCodeError := CodeLengthMessage;
        return None;
      }
      verifyingOtp := true;
      request := Some(VerifyRequest(email, code, "email"));
      verifyCodeError := VerifyOutcomeMessage(outcome);
      verifyingOtp := false;
    }

    /** "Go back" on a sign-in or sign-up form: back to the choice. */
    method GoBackFromForm()
      modifies this`signInOrSignUp
      ensures signInOrSignUp == None
      ensures !isCodeSent ==> View() == Choice
    {
      signInOrSignUp := None;
    }

    /** "Go back" on the code screen: the choice and the sent flag are
        cleared, so the first screen shows again; the email and the code
        typed so far are kept. */
    method GoBackFromCode()
      modifies this`signInOrSignUp, this`isCodeSent
      ensures signInOrSignUp == None && !isCodeSent
      ensures View() == Choice
    {
      signInOrSignUp := None;
      isCodeSent := false;
    }
  }
}
