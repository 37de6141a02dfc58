/** The registration form: the checks the submit handler makes before it
    sends anything, the message it shows when the server refuses, and the
    strength indicator shown under the password field. Lengths are JavaScript
    string lengths, in UTF-16 code units. */
module Register {
  import opened Replies
  import opened JsText

  const MismatchMessage := "Passwords do not match"
  const TooShortMessage := "Password must be at least 6 characters long"
  const FallbackMessage := "Registration failed. Please try again."

  /** The shortest password the form lets through. */
  const MinPasswordLength := 6

  /** The message the validation guards show, or `None` when they let the
      submission through. The two passwords are compared first, then the
      length, so a mismatch is reported whatever the length. */
  function ValidationError(password: string, confirmPassword: string): (r: Option<string>)
    ensures r.None? <==> password == confirmPassword && Utf16Length(password) >= MinPasswordLength
    ensures password != confirmPassword ==> r == Some(MismatchMessage)
    ensures password == confirmPassword && Utf16Length(password) < MinPasswordLength ==>
      r == Some(TooShortMessage)
  {
    if password != confirmPassword then Some(MismatchMessage)
    else if Utf16Length(password) < MinPasswordLength then Some(TooShortMessage)
    else None
  }

  /** `err.response?.data?.error || fallback`: the server's error text when
      there is one and it is not empty, the fixed fallback otherwise. Either
      way the message is not empty, so the error banner is shown. */
  function FailureMessage(serverError: Option<string>): (m: string)
    ensures m != ""
    ensures serverError.Some? && serverError.value != "" ==> m == serverError.value
    ensures serverError.None? || serverError.value == "" ==> m == FallbackMessage
  {
    if serverError.Some? && serverError.value != "" then serverError.value else FallbackMessage
  }

  /** What the register endpoint answered: the signed-in user, or a failure
      with the `error` field of the response body, if any. */
  datatype RegisterReply = Registered(user: SessionUser) | Refused(serverError: Option<string>)

  datatype Credentials = Credentials(email: string, password: string)

  /** What a submission leaves behind: the error shown, the request sent (if
      any) and the user signed in (if any). */
  datatype Submission = Submission(error: string, request: Option<Credentials>, signedIn: Option<SessionUser>)

  /** `handleSubmit`: the request goes out only when both guards pass; the
      user is signed in only when it succeeds; otherwise an error is shown,
      the guard's own message when a guard stopped the submission. */
  function HandleSubmit(email: string, password: string, confirmPassword: string, reply: RegisterReply): (r: Submission)
    ensures r.request.Some? <==> ValidationError(password, confirmPassword).None?
    ensures r.request.Some? ==> r.request.value == Credentials(email, password)
    ensures r.signedIn.Some? <==> r.request.Some? && reply.Registered?
    ensures r.signedIn.Some? ==> r.signedIn.value == reply.user
    ensures r.error == "" <==> r.signedIn.Some?
    ensures r.request.None? ==> r.error == ValidationError(password, confirmPassword).value
    ensures r.request.Some? && reply.Refused? ==> r.error == FailureMessage(reply.serverError)
  {
    match ValidationError(password, confirmPassword)
    case Some(message) => Submission(message, None, None)
    case None =>
      var request := Some(Credentials(email, password));
      match reply
      case Registered(user) => Submission("", request, Some(user))
      case Refused(serverError) => Submission(FailureMessage(serverError), request, None)
  }

  /** A request is sent exactly when the passwords agree and are long enough. */
  lemma SubmitsOnlyValidPasswords(email: string, password: string, confirmPassword: string, reply: RegisterReply)
    ensures HandleSubmit(email, password, confirmPassword, reply).request.Some? <==>
      password == confirmPassword && Utf16Length(password) >= 6
    ensures password != confirmPassword ==>
      HandleSubmit(email, password, confirmPassword, reply).error == "Passwords do not match"
    ensures password == confirmPassword && Utf16Length(password) < 6 ==>
      HandleSubmit(email, password, confirmPassword, reply).error == "Password must be at least 6 characters long"
  {
  }

  /** `getPasswordStrength`: the indicator under the password field. */
  function PasswordStrength(password: string): (s: string)
    ensures s == "" <==> password == ""
    ensures s == "" || s == "Weak" || s == "Medium" || s == "Strong"
  {
    var n := Utf16Length(password);
    if n == 0 then ""
    else if n < 6 then "Weak"
    else if n < 10 then "Medium"
    else "Strong"
  }

  /** The order of the indicator's values. */
  function StrengthRank(s: string): (k: nat)
    ensures k <= 3
  {
    if s == "Weak" then 1
    else if s == "Medium" then 2
    else if s == "Strong" then 3
    else 0
  }

  /** The indicator by length: empty, then Weak up to 5 code units, Medium
      from 6 to 9, Strong from 10 on. */
  lemma StrengthBands(password: string)
    ensures Utf16Length(password) == 0 ==> PasswordStrength(password) == ""
    ensures 1 <= Utf16Length(password) <= 5 ==> PasswordStrength(password) == "Weak"
    ensures 6 <= Utf16Length(password) <= 9 ==> PasswordStrength(password) == "Medium"
    ensures Utf16Length(password) >= 10 ==> PasswordStrength(password) == "Strong"
  {
  }

  /** A longer password never rates lower. */
  lemma StrengthMonotone(shorter: string, longer: string)
    requires Utf16Length(shorter) <= Utf16Length(longer)
    ensures StrengthRank(PasswordStrength(shorter)) <= StrengthRank(PasswordStrength(longer))
  {
  }

  /** Every password the form submits rates Medium or Strong. */
  lemma SubmittedPasswordIsNotWeak(password: string, confirmPassword: string)
    requires ValidationError(password, confirmPassword).None?
    ensures PasswordStrength(password) == "Medium" || PasswordStrength(password) == "Strong"
  {
  }
}
