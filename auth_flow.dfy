/** The `useAuthFlow` hook of src/components/application/auth/use-auth-flow.tsx:
    the nine pieces of state of the email one-time-password sign-in and the
    handlers that send a code, verify it, and start over. The two calls into
    the authentication service are parameters: the handler returns the request
    it made and is told what the awaited call did. */
module AuthFlow {
  import opened Services
  import opened Otp

  /** The message for an error returned by `signInWithOtp`. Which of the two
      texts `otp_disabled` gives depends on the choice on the first screen. */
  function SendErrorMessage(code: string, mode: Option<AuthMode>): (m: string)
    ensures m != []
    ensures code == "validation_failed" ==> m == InvalidEmailMessage
    ensures code == "over_email_send_rate_limit" ==> m == RateLimitMessage
    ensures code == "otp_disabled" ==>
      m == (if mode == Some(SignIn) then NoAccountMessage else OtpDisabledMessage)
    ensures code !in ["validation_failed", "over_email_send_rate_limit", "otp_disabled"] ==>
      m == GenericMessage
  {
    if code == "validation_failed" then InvalidEmailMessage
    else if code == "over_email_send_rate_limit" then RateLimitMessage
    else if code == "otp_disabled" then
      (if mode == Some(SignIn) then NoAccountMessage else OtpDisabledMessage)
    else GenericMessage
  }

  /** The verification error left after the awaited `verifyOtp`: none on
      success, the expiry text for a wrong or stale code, a generic text for
      any other error, and a third text when the call throws. */
  function VerifyOutcomeMessage(outcome: Outcome): (m: string)
    ensures m == [] <==> outcome.Ok?
    ensures outcome.Err? && outcome.error.code in ["otp_expired", "invalid_token"] ==>
      m == ExpiredCodeMessage
    ensures outcome.Err? && outcome.error.code !in ["otp_expired", "invalid_token"] ==>
      m == GenericMessage
    ensures outcome.Threw? ==> m == UnexpectedVerifyMessage
  {
    match outcome
    case Ok => ""
    case Err(error) =>
      if error.code == "otp_expired" || error.code == "invalid_token" then ExpiredCodeMessage
      else GenericMessage
    case Threw => UnexpectedVerifyMessage
  }

  class AuthFlowState {
    var email: string
    var code: string
    var sendCodeError: string
    var verifyCodeError: string
    var signInOrSignUp: Option<AuthMode>
    var isCodeSent: bool
    var sendingOtp: bool
    var verifyingOtp: bool
    var captchaToken: string

    /** The values the state starts with and `resetAuthFlow` returns to. */
    predicate Initial()
      reads this
    {
      && email == "" && code == "" && sendCodeError == "" && verifyCodeError == ""
      && signInOrSignUp == None && !isCodeSent && !sendingOtp && !verifyingOtp
      && captchaToken == ""
    }

    /** The send button is enabled (src/components/application/auth/email-input-form.tsx:55). */
    predicate SendEnabled()
      reads this
    {
      !sendingOtp && email != "" && captchaToken != ""
    }

    /** The sign-in button is enabled (src/components/application/auth/otp-input-form.tsx:65). */
    predicate VerifyEnabled()
      reads this
    {
      !verifyingOtp && |code| == CodeLength
    }

    constructor ()
      ensures Initial()
    {
      email, code, sendCodeError, verifyCodeError := "", "", "", "";
      signInOrSignUp := None;
      isCodeSent, sendingOtp, verifyingOtp := false, false, false;
      captchaToken := "";
    }

    /** `handleSendOtp(signUp)`. Both errors are cleared first. Without an
        email or a captcha token the handler stops with a message and makes no
        call. Otherwise it calls `signInWithOtp` and, once that settles, the
        in-flight flag is down again: success marks the code as sent, an error
        is mapped to a message shown on the screen the user is on, and an
        exception gives a fixed message on the email screen. */
    method HandleSendOtp(signUp: bool, outcome: Outcome) returns (request: Option<SendRequest>)
      modifies this
      ensures email == old(email) && code == old(code) && captchaToken == old(captchaToken)
      ensures signInOrSignUp == old(signInOrSignUp) && verifyingOtp == old(verifyingOtp)
      ensures request.Some? <==> old(email) != "" && old(captchaToken) != ""
      ensures old(SendEnabled()) ==> request.Some?
      ensures sendCodeError == "" || verifyCodeError == ""
      ensures old(email) == "" ==>
        && sendCodeError == EmailRequiredMessage && verifyCodeError == ""
        && isCodeSent == old(isCodeSent) && sendingOtp == old(sendingOtp)
      ensures old(email) != "" && old(captchaToken) == "" ==>
        && sendCodeError == CaptchaMessage && verifyCodeError == ""
        && isCodeSent == old(isCodeSent) && sendingOtp == old(sendingOtp)
      ensures request.Some? ==>
        && request.value == SendRequest(old(email), RedirectUrl, signUp, old(captchaToken))
        && !sendingOtp
      ensures request.Some? && outcome.Ok? ==>
        isCodeSent && sendCodeError == "" && verifyCodeError == ""
      ensures request.Some? && outcome.Err? ==>
        && isCodeSent == old(isCodeSent)
        && var m := SendErrorMessage(outcome.error.code, old(signInOrSignUp));
        && (if old(isCodeSent) then sendCodeError == "" && verifyCodeError == m
            else sendCodeError == m && verifyCodeError == "")
      ensures request.Some? && outcome.Threw? ==>
        && isCodeSent == old(isCodeSent)
        && sendCodeError == UnexpectedSendMessage && verifyCodeError == ""
    {
      sendCodeError := "";
      verifyCodeError := "";
      if email == "" {
        sendCodeError := EmailRequiredMessage;
        return None;
      }
      if captchaToken == "" {
        sendCodeError := CaptchaMessage;
        return None;
      }
      sendingOtp := true;
      request := Some(SendRequest(email, RedirectUrl, signUp, captchaToken));
      match outcome {
        case Err(error) =>
          var message := SendErrorMessage(error.code, signInOrSignUp);
          if !isCodeSent {
            sendCodeError := message;
          } else {
            verifyCodeError := message;
          }
        case Ok =>
          isCodeSent := true;
        case Threw =>
          sendCodeError := UnexpectedSendMessage;
      }
      sendingOtp := false;
    }

    /** `handleVerifyCode`. The verification error is cleared first. A code of
        the wrong length stops with a message and no call. Otherwise the code
        is checked by `verifyOtp` and, once that settles, the in-flight flag
        is down and the verification error is what the outcome calls for. */
    method HandleVerifyCode(outcome: Outcome) returns (request: Option<VerifyRequest>)
      modifies this`verifyCodeError, this`verifyingOtp
      ensures request.Some? <==> |code| == CodeLength
      ensures old(VerifyEnabled()) ==> request.Some?
      ensures request.None? ==>
        verifyCodeError == CodeLengthMessage && verifyingOtp == old(verifyingOtp)
      ensures request.Some? ==>
        && request.value == VerifyRequest(email, code, "email")
        && verifyCodeError == VerifyOutcomeMessage(outcome)
        && !verifyingOtp
    {
      verifyCodeError := "";
      if |code| != CodeLength {
        verifyCodeError := CodeLengthMessage;
        return None;
      }
      verifyingOtp := true;
      request := Some(VerifyRequest(email, code, "email"));
      verifyCodeError := VerifyOutcomeMessage(outcome);
      verifyingOtp := false;
    }

    /** `resetAuthFlow`: every piece of state back to its initial value. */
    method ResetAuthFlow()
      modifies this
      ensures Initial()
    {
      email, code, sendCodeError, verifyCodeError := "", "", "", "";
      signInOrSignUp := None;
      isCodeSent, sendingOtp, verifyingOtp := false, false, false;
      captchaToken := "";
    }
  }
}
