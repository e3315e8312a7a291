/** The verification page (src/pages/VerifyOtpPage.tsx): its query parameters, its token input and its submit handler. */
module VerifyOtp {
  import opened Common
  import opened Auth
  import JsString
  import FormUrlencoded

  const Recovery := "recovery"
  const Signup := "signup"
  const DefaultPurpose := "login"
  const ResetDestination := "/reset-password"
  const Destination := "/dashboard"
  const OtpKind := "email"

  /** The `email` and `purpose` the page reads from its search parameters. */
  datatype Context = Context(email: string, purpose: string)

  /**
   The registration data left in session storage under `pending_registration`. Only the PIN is
   read; an absent PIN is the empty string, both being falsy.
   */
  datatype PendingRecord = PendingRecord(pin: string)

  /** The page's effects together with the pending-registration slot after the submit. */
  datatype Result = Result(outcome: Outcome, pending: Option<PendingRecord>)

  /** `searchParams.get('email') ?? ''` and `searchParams.get('purpose') ?? 'login'`. */
  function ContextOf(params: seq<FormUrlencoded.Pair>): (ctx: Context)
    ensures (forall i :: 0 <= i < |params| ==> params[i].name != "email") ==> ctx.email == ""
    ensures (forall i :: 0 <= i < |params| ==> params[i].name != "purpose") ==> ctx.purpose == DefaultPurpose
    ensures forall i :: (0 <= i < |params| && params[i].name == "email"
                          && forall j :: 0 <= j < i ==> params[j].name != "email") ==> ctx.email == params[i].value
    ensures forall i :: (0 <= i < |params| && params[i].name == "purpose"
                          && forall j :: 0 <= j < i ==> params[j].name != "purpose") ==> ctx.purpose == params[i].value
  {
    Context(FormUrlencoded.Get(params, "email").GetOr(""), FormUrlencoded.Get(params, "purpose").GetOr(DefaultPurpose))
  }

  /**
   The token state after the visitor edits the input: `e.target.value.trim()`, the typed text
   between its leading and trailing whitespace runs.
   */
  function TokenFromInput(raw: string): (token: string)
    ensures JsString.IsTrimOf(raw, token)
  {
    JsString.TrimIsTrimOf(raw);
    JsString.Trim(raw)
  }

  /**
   `onSubmit`: with a configured client, verify the code for the context's email; on an error show
   it verbatim; on success branch on the purpose. Recovery goes to the reset page. Signup consumes
   the pending slot, calling `set_transaction_pin` when the stored PIN is non-empty and ignoring
   that call's outcome (`pinError`). Every other purpose goes to the dashboard.
   */
  function Submit(configured: bool, ctx: Context, token: string, pending: Option<PendingRecord>,
                  verifyError: Option<string>, pinError: Option<string>): (r: Result)
    ensures !configured <==> r.outcome.calls == []
    ensures !configured ==> r.outcome.message == Some(NotConfigured) && r.outcome.navigation.None? && r.pending == pending
    ensures configured ==> r.outcome.calls[0] == VerifyOtp(ctx.email, token, OtpKind)
    ensures configured && verifyError.Some? ==>
              r.outcome.message == verifyError && r.outcome.navigation.None?
              && |r.outcome.calls| == 1 && r.pending == pending
    ensures configured && verifyError.None? && ctx.purpose == Recovery ==>
              r.outcome.navigation == Some(ResetDestination) && |r.outcome.calls| == 1 && r.pending == pending
    ensures configured && verifyError.None? && ctx.purpose != Recovery ==> r.outcome.navigation == Some(Destination)
    ensures r.outcome.navigation.Some? ==> r.outcome.message.None? && configured && verifyError.None?
    ensures configured && verifyError.None? ==>
              r.outcome.calls == [VerifyOtp(ctx.email, token, OtpKind)]
                                 + (if ctx.purpose == Signup && pending.Some? && pending.value.pin != ""
                                    then [SetTransactionPin(pending.value.pin)] else [])
    ensures forall p :: SetTransactionPin(p) in r.outcome.calls <==>
              configured && verifyError.None? && ctx.purpose == Signup && pending == Some(PendingRecord(p)) && p != ""
    ensures r.pending != pending ==> r.pending.None? && configured && verifyError.None? && ctx.purpose == Signup
    ensures configured && verifyError.None? && ctx.purpose == Signup ==> r.pending.None?
    ensures r.outcome.SettlesIdle()
  {
    if !configured then Result(Rejected(NotConfigured), pending)
    else
      var verify := VerifyOtp(ctx.email, token, OtpKind);
      if verifyError.Some? then Result(AfterCall(verify, verifyError, Destination), pending)
      else if ctx.purpose == Recovery then Result(AfterCall(verify, None, ResetDestination), pending)
      else if ctx.purpose == Signup && pending.Some? then
        var pinCalls := if pending.value.pin != "" then [SetTransactionPin(pending.value.pin)] else [];
        var o := AfterCall(verify, None, Destination);
        Result(o.(calls := o.calls + pinCalls), None)
      else Result(AfterCall(verify, None, Destination), pending)
  }

  /** The PIN is applied at most once: a later verification, whatever its inputs, finds the slot empty. */
  lemma PinAppliedAtMostOnce(ctx: Context, token: string, pending: Option<PendingRecord>, pinError: Option<string>,
                             ctx2: Context, token2: string, verifyError2: Option<string>, pinError2: Option<string>)
    requires ctx.purpose == Signup
    ensures var first := Submit(true, ctx, token, pending, None, pinError);
            var second := Submit(true, ctx2, token2, first.pending, verifyError2, pinError2);
            first.pending.None? && second.pending.None?
            && forall c :: c in second.outcome.calls ==> !c.SetTransactionPin?
  {
  }

  /** The outcome of `set_transaction_pin` is never looked at. */
  lemma PinOutcomeIgnored(configured: bool, ctx: Context, token: string, pending: Option<PendingRecord>,
                          verifyError: Option<string>, e1: Option<string>, e2: Option<string>)
    ensures Submit(configured, ctx, token, pending, verifyError, e1) == Submit(configured, ctx, token, pending, verifyError, e2)
  {
  }

  /** A signup verification with a stored PIN applies exactly that PIN, once, right after the verification call. */
  lemma SignupAppliesStoredPin(ctx: Context, token: string, pin: string, pinError: Option<string>)
    requires ctx.purpose == Signup && pin != ""
    ensures var r := Submit(true, ctx, token, Some(PendingRecord(pin)), None, pinError);
            r.outcome.calls == [VerifyOtp(ctx.email, token, OtpKind), SetTransactionPin(pin)]
            && r.pending.None? && r.outcome.navigation == Some(Destination)
  {
  }

  /**
   A purpose other than recovery and signup is not rejected or rewritten, yet the submit behaves
   exactly as it does for the default purpose.
   */
  lemma UnrecognisedPurposeActsAsLogin(configured: bool, ctx: Context, token: string, pending: Option<PendingRecord>,
                                       verifyError: Option<string>, pinError: Option<string>)
    requires ctx.purpose != Recovery && ctx.purpose != Signup
    ensures Submit(configured, ctx, token, pending, verifyError, pinError)
         == Submit(configured, ctx.(purpose := DefaultPurpose), token, pending, verifyError, pinError)
  {
  }
}
