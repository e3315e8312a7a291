/**
 What an auth-form handler can do, seen from outside: the message it leaves on the page, the
 calls it issues to the authentication service (in order), where it navigates, and the values it
 writes to the page's busy flag. The service itself is reduced to whether a client is configured
 and, per call, an optional error message.
 */
module Auth {
  import opened Common

  /** Shown by every handler that needs the service when no client is configured. */
  const NotConfigured := "Supabase is not configured. Add env values before using auth."

  /** A request to the authentication service. */
  datatype Call =
    | VerifyOtp(email: string, token: string, kind: string)
    | SetTransactionPin(pin: string)
    | UpdatePassword(password: string)
    | SignInWithOtp(email: string, shouldCreateUser: bool)

  /** The effects of one submit. `busyWrites` lists the values written to the page's busy flag, in order. */
  datatype Outcome = Outcome(
    message: Option<string>,
    calls: seq<Call>,
    navigation: Option<string>,
    busyWrites: seq<bool>)
  {
    /** The busy flag is down once the handler returns: it was never raised, or was lowered last. */
    predicate SettlesIdle() {
      busyWrites == [] || busyWrites[|busyWrites| - 1] == false
    }
  }

  /** The effects of a handler that stopped before calling the service. */
  function Rejected(message: string): (o: Outcome)
    ensures o.message == Some(message) && o.calls == [] && o.navigation.None?
    ensures o.SettlesIdle()
  {
    Outcome(Some(message), [], None, [])
  }

  /**
   The effects of a handler that made one service call: the flag is raised around the call; an
   error is shown verbatim and the page stays, success navigates to `target` with no message.
   */
  function AfterCall(call: Call, error: Option<string>, target: string): (o: Outcome)
    ensures o.calls == [call]
    ensures o.busyWrites == [true, false] && o.SettlesIdle()
    ensures error.Some? ==> o.message == error && o.navigation.None?
    ensures error.None? ==> o.message.None? && o.navigation == Some(target)
  {
    match error
    case Some(e) => Outcome(Some(e), [call], None, [true, false])
    case None => Outcome(None, [call], Some(target), [true, false])
  }
}
