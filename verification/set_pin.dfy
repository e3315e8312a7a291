/** The transaction-PIN page's submit handler (src/pages/SetPinPage.tsx). */
module SetPin {
  import opened Common
  import opened Auth

  const BadFormat := "Transaction PIN must be 4 to 6 digits."
  const Mismatch := "PIN values do not match."
  const Destination := "/dashboard"

  predicate IsAsciiDigit(c: char) {
    '0' <= c <= '9'
  }

  /** The strings `/^[0-9]{4,6}$/` accepts: four to six ASCII digits and nothing else. */
  predicate IsPinFormat(s: string) {
    4 <= |s| <= 6 && forall i :: 0 <= i < |s| ==> IsAsciiDigit(s[i])
  }

  /**
   The pattern run as a matcher: from the start anchor take at most six digits greedily, then
   require at least four of them and the end anchor. Without the multiline flag `$` matches only at
   the very end, so the greedy choice never needs to be undone.
   */
  method MatchPinPattern(s: string) returns (matched: bool)
    ensures matched <==> IsPinFormat(s)
  {
    var n := 0;
    while n < 6 && n < |s| && IsAsciiDigit(s[n])
      invariant 0 <= n <= 6 && n <= |s|
      invariant forall i :: 0 <= i < n ==> IsAsciiDigit(s[i])
    {
      n := n + 1;
    }
    matched := 4 <= n && n == |s|;
  }

  /**
   `onSubmit`: the configuration check, then the PIN format, then the confirmation; only a
   well-formed PIN equal to its confirmation reaches the `set_transaction_pin` RPC.
   */
  function Submit(configured: bool, pin: string, confirmPin: string, rpcError: Option<string>): (o: Outcome)
    ensures !configured ==> o.message == Some(NotConfigured) && o.calls == [] && o.navigation.None?
    ensures configured && !IsPinFormat(pin) ==> o.message == Some(BadFormat) && o.calls == [] && o.navigation.None?
    ensures configured && IsPinFormat(pin) && pin != confirmPin ==> o.message == Some(Mismatch) && o.calls == [] && o.navigation.None?
    ensures o.calls != [] <==> configured && IsPinFormat(pin) && pin == confirmPin
    ensures o.calls != [] ==> o.calls == [SetTransactionPin(pin)]
    ensures o.calls != [] && rpcError.Some? ==> o.message == rpcError && o.navigation.None?
    ensures o.navigation.Some? <==> o.calls != [] && rpcError.None?
    ensures o.navigation.Some? ==> o.navigation == Some(Destination) && o.message.None?
    ensures o.SettlesIdle()
  {
    if !configured then Rejected(NotConfigured)
    else if !IsPinFormat(pin) then Rejected(BadFormat)
    else if pin != confirmPin then Rejected(Mismatch)
    else AfterCall(SetTransactionPin(pin), rpcError, Destination)
  }

  /** The cases the page is meant to separate: a short PIN, a mismatched pair, a matching pair. */
  lemma SubmitExamples(rpcError: Option<string>)
    ensures Submit(true, "12", "1235", rpcError).message == Some(BadFormat)
    ensures Submit(true, "1234", "1235", rpcError) == Rejected(Mismatch)
    ensures Submit(true, "1234", "1234", rpcError).calls == [SetTransactionPin("1234")]
  {
    assert !IsPinFormat("12");
    assert IsPinFormat("1234");
  }
}
