/** The login page's schema and submit (src/pages/LoginPage.tsx). */
module Login {
  import opened Common
  import JsString

  const IdentifierMessage := "Enter username or email"
  const PasswordMessage := "Password must be at least 8 characters"
  const Destination := "/dashboard"
  const IdentifierMin := 3
  const PasswordMin := 8

  /** The form's values; `remember` is an optional boolean. */
  datatype Form = Form(identifier: string, password: string, remember: Option<bool>)

  /** The resolver's per-field messages; a valid field has none. */
  datatype Errors = Errors(identifier: Option<string>, password: Option<string>) {
    predicate IsEmpty() {
      identifier.None? && password.None?
    }
  }

  /** What a submit leaves: the errors shown under the fields and, when there are none, the redirect. */
  datatype Outcome = Outcome(errors: Errors, navigation: Option<string>)

  /** The values before the visitor types: `remember` defaults to true, the text inputs start empty. */
  function DefaultForm(): (f: Form)
    ensures f.remember == Some(true)
    ensures JsString.Length(f.identifier) < IdentifierMin && JsString.Length(f.password) < PasswordMin
  {
    Form("", "", Some(true))
  }

  /** The zod schema: minimum lengths, counted in UTF-16 code units, each with its own message. */
  function Validate(f: Form): (e: Errors)
    ensures e.identifier.Some? <==> JsString.Length(f.identifier) < IdentifierMin
    ensures e.identifier.Some? ==> e.identifier.value == IdentifierMessage
    ensures e.password.Some? <==> JsString.Length(f.password) < PasswordMin
    ensures e.password.Some? ==> e.password.value == PasswordMessage
  {
    Errors(
      if JsString.Length(f.identifier) < IdentifierMin then Some(IdentifierMessage) else None,
      if JsString.Length(f.password) < PasswordMin then Some(PasswordMessage) else None)
  }

  /** `handleSubmit(onSubmit)`: the redirect happens exactly when the schema accepts the form; nothing is sent anywhere. */
  function Submit(f: Form): (o: Outcome)
    ensures o.errors == Validate(f)
    ensures o.navigation.Some? <==> JsString.Length(f.identifier) >= IdentifierMin && JsString.Length(f.password) >= PasswordMin
    ensures o.navigation.Some? ==> o.navigation == Some(Destination)
  {
    var e := Validate(f);
    Outcome(e, if e.IsEmpty() then Some(Destination) else None)
  }

  /** Each field's message depends on that field alone, and `remember` never affects the result. */
  lemma ErrorsAreIndependent(f: Form, g: Form)
    ensures f.identifier == g.identifier ==> Validate(f).identifier == Validate(g).identifier
    ensures f.password == g.password ==> Validate(f).password == Validate(g).password
    ensures f.identifier == g.identifier && f.password == g.password ==> Submit(f) == Submit(g)
  {
  }

  /** Submitting the untouched form reports both fields and stays on the page. */
  lemma DefaultFormIsRejected()
    ensures Submit(DefaultForm()) == Outcome(Errors(Some(IdentifierMessage), Some(PasswordMessage)), None)
  {
  }
}
