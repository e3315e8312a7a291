/** The forgot-password page's `sendOtp` handler (src/pages/ForgotPasswordPage.tsx). */
module ForgotPassword {
  import opened Common
  import opened Auth
  import UriComponent

  /** The query handed to the verification page: the email, percent-encoded, and the recovery purpose. */
  function HandoffQuery(email: string): string {
    "email=" + UriComponent.Encode(email) + "&purpose=recovery"
  }

  /**
   Whatever the email holds, the query has no `#` or `?`, and the email cannot add a parameter:
   the only `&` is the one that starts the purpose.
   */
  lemma QueryDelimiters(email: string)
    ensures var q := HandoffQuery(email);
            && '#' !in q && '?' !in q
            && forall i :: 0 <= i < |q| && q[i] == '&' ==> i == |q| - |"&purpose=recovery"|
  {
    var enc := UriComponent.Encode(email);
    UriComponent.EncodeIsEncodedForm(email);
    UriComponent.EncodedFormIsInert(enc);
    DelimitersAround(enc);
  }

  /** The query's delimiters around a value that holds none of `#`, `?` and `&`. */
  lemma DelimitersAround(enc: string)
    requires '#' !in enc && '?' !in enc && '&' !in enc
    ensures var q := "email=" + enc + "&purpose=recovery";
            && '#' !in q && '?' !in q
            && forall i :: 0 <= i < |q| && q[i] == '&' ==> i == |q| - |"&purpose=recovery"|
  {
    var a, b := "email=", "&purpose=recovery";
    var q := a + enc + b;
    assert '#' !in a && '?' !in a && '&' !in a;
    assert '#' !in b && '?' !in b;
    forall i | 0 <= i < |q| && q[i] == '&'
      ensures i == |q| - |b|
    {
      if i >= |a| + |enc| {
        assert q[i] == b[i - |a| - |enc|];
        assert forall j :: 1 <= j < |b| ==> b[j] != '&';
      }
    }
  }

  /** The path `sendOtp` navigates to: its one `?` ends the pathname `/verify-otp`, and it has no `#`. */
  function HandoffPath(email: string): (p: string)
    ensures '#' !in p
    ensures forall i :: 0 <= i < |p| && p[i] == '?' ==> i == |"/verify-otp"|
  {
    var q := HandoffQuery(email);
    QueryDelimiters(email);
    PathDelimiters("/verify-otp", q);
    "/verify-otp?" + q
  }

  /** A pathname and a query with no `?` or `#`, joined by `?`: the join holds one `?`, at the end of the pathname. */
  lemma PathDelimiters(page: string, q: string)
    requires '#' !in page && '?' !in page && '#' !in q && '?' !in q
    ensures var p := page + "?" + q;
            '#' !in p && forall i :: 0 <= i < |p| && p[i] == '?' ==> i == |page|
  {
  }

  /**
   `sendOtp`: the configuration check, then a one-time-code request that must not create an
   account; an error is shown verbatim, success hands off to the verification page.
   */
  function Submit(configured: bool, email: string, otpError: Option<string>): (o: Outcome)
    ensures !configured <==> o.calls == []
    ensures !configured ==> o.message == Some(NotConfigured) && o.navigation.None?
    ensures configured ==> o.calls == [SignInWithOtp(email, false)]
    ensures forall c :: c in o.calls ==> c.SignInWithOtp? && !c.shouldCreateUser
    ensures configured && otpError.Some? ==> o.message == otpError && o.navigation.None?
    ensures o.navigation.Some? <==> configured && otpError.None?
    ensures o.navigation.Some? ==> o.navigation == Some(HandoffPath(email)) && o.message.None?
    ensures o.SettlesIdle()
  {
    if !configured then Rejected(NotConfigured)
    else AfterCall(SignInWithOtp(email, false), otpError, HandoffPath(email))
  }
}
