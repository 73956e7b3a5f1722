/** What the two email one-time-password sign-in components share: the
    sign-in/sign-up choice, the requests handed to the authentication service,
    and the messages shown to the applicant. */
module Otp {

  /** The user's choice on the first screen; `None` while none is made. */
  datatype AuthMode = SignIn | SignUp

  /** The argument of `signInWithOtp`. */
  datatype SendRequest = SendRequest(
    email: string,
    emailRedirectTo: string,
    shouldCreateUser: bool,
    captchaToken: string)

  /** The argument of `verifyOtp`; its `type` is always "email". */
  datatype VerifyRequest = VerifyRequest(email: string, token: string, kind: string)

  /** Where the magic link in the email leads. */
  const RedirectUrl := "https://stemulateprogram.com/apply"

  /** The one-time codes have six characters. */
  const CodeLength := 6

  const EmailRequiredMessage := "Email address is required."
  const CaptchaMessage := "Please complete the captcha verification."
  const InvalidEmailMessage := "Invalid email address."
  const RateLimitMessage := "Too many login attempts, try again later."
  const NoAccountMessage := "Account with such email doesn't exist."
  const OtpDisabledMessage := "OTP disabled for this email."
  const GenericMessage := "Something went wrong, please try again."
  const UnexpectedSendMessage := "An unexpected error occurred. Please try again."
  const CodeLengthMessage := "Please enter a 6-digit code."
  const ExpiredCodeMessage := "The code is invalid or has expired. Please request a new one."
  const UnexpectedVerifyMessage := "An unexpected error occurred during verification."
}
