/** The reset-password page's submit handler (src/pages/ResetPasswordPage.tsx). */
module ResetPassword {
  import opened Common
  import opened Auth
  import JsString

  const TooShort := "Password must be at least 8 characters."
  const Mismatch := "Password values do not match."
  const Destination := "/login"
  const MinLength := 8

  /** The input the page accepts before contacting the service: long enough and confirmed. */
  predicate IsAcceptable(password: string, confirmPassword: string) {
    JsString.Length(password) >= MinLength && password == confirmPassword
  }

  /**
   `onSubmit`: the length check, then the confirmation, and only then the configuration check;
   `updateUser` is called only with an acceptable password.
   */
  function Submit(configured: bool, password: string, confirmPassword: string, updateError: Option<string>): (o: Outcome)
    ensures JsString.Length(password) < MinLength ==> o.message == Some(TooShort) && o.calls == [] && o.navigation.None?
    ensures JsString.Length(password) >= MinLength && password != confirmPassword ==>
              o.message == Some(Mismatch) && o.calls == [] && o.navigation.None?
    ensures IsAcceptable(password, confirmPassword) && !configured ==>
              o.message == Some(NotConfigured) && o.calls == [] && o.navigation.None?
    ensures o.calls != [] <==> configured && IsAcceptable(password, confirmPassword)
    ensures o.calls != [] ==> o.calls == [UpdatePassword(password)]
    ensures o.calls != [] && updateError.Some? ==> o.message == updateError && o.navigation.None?
    ensures o.navigation.Some? <==> o.calls != [] && updateError.None?
    ensures o.navigation.Some? ==> o.navigation == Some(Destination) && o.message.None?
    ensures o.SettlesIdle()
  {
    if JsString.Length(password) < MinLength then Rejected(TooShort)
    else if password != confirmPassword then Rejected(Mismatch)
    else if !configured then Rejected(NotConfigured)
    else AfterCall(UpdatePassword(password), updateError, Destination)
  }

  /** Input validation comes first: unacceptable input gets the same result whether or not a client is configured. */
  lemma ValidationPrecedesConfiguration(password: string, confirmPassword: string, e1: Option<string>, e2: Option<string>)
    requires !IsAcceptable(password, confirmPassword)
    ensures Submit(true, password, confirmPassword, e1) == Submit(false, password, confirmPassword, e2)
    ensures Submit(false, password, confirmPassword, e2).message != Some(NotConfigured)
  {
  }
}
