# Enrollment and account-access pages, modelled in Dafny

This project models the account-access core of a consumer-banking web front end. It covers six pages:

- **Enrollment wizard** (`RegisterPage`): a four-step form. It has a zod schema of twenty keys, Continue and Back, a progress bar, a button row and a final submit.
- **Verification page** (`VerifyOtpPage`): reads `email` and `purpose` from its query string and trims the typed code. It verifies the code, then branches on the purpose: recovery goes to the reset page; signup applies the PIN left in session storage under `pending_registration` and removes it; anything else goes to the dashboard.
- **Transaction-PIN page** (`SetPinPage`): `/^[0-9]{4,6}$/`, a confirmation, then the `set_transaction_pin` RPC.
- **Reset-password page** (`ResetPasswordPage`): the length check, the confirmation, then `updateUser`.
- **Forgot-password page** (`ForgotPasswordPage`): `signInWithOtp` with `shouldCreateUser: false`, then a hand-off to `/verify-otp?email=<encodeURIComponent(email)>&purpose=recovery`.
- **Login page** (`LoginPage`): schema, default values and the redirect.

The authentication service is reduced to two things: whether a client is configured, and an optional error message per call (`Auth`). Each handler is a pure function of those inputs and the page's fields. Each handler that calls the service returns an `Auth.Outcome`; the verification page returns it together with the pending-registration slot as it is afterwards, in `VerifyOtp.Result`. The login page, which calls no service, returns its own `Login.Outcome`. An `Auth.Outcome` records:

- the message shown (each handler first clears the previous one, so only the new message survives);
- the calls issued, in order;
- the navigation target;
- the values written to the busy flag.

`VerifyOtp.Result` adds the pending-registration slot after the submit.

The browser and library behaviour that the pages rely on is modelled from the published standards:

- JavaScript string length in UTF-16 code units, and `String.prototype.trim` (`JsString`).
- UTF-8 encoding, and "UTF-8 decode without BOM" from the WHATWG Encoding Standard (`Utf8`).
- `encodeURIComponent` from section 19.2.6 of ECMA-262 (`UriComponent`).
- The application/x-www-form-urlencoded parser from section 5.1 of the WHATWG URL Standard, and the `URLSearchParams` constructor and `get` from section 6.2 of the same standard (`FormUrlencoded`).
- The search part of a router path (`Router`).

With these, the project proves a round trip. Whatever email the forgot-password page encodes, the verification page reads back exactly that email with purpose `recovery` (`Handoff.RecoveryHandoffRoundTrip`).

Points about the code as written that the model follows:

- The enrollment submit makes no service call. It shows an alert and redirects to `/login` (src/pages/RegisterPage.tsx:60-63). It creates no account, sends no code and stores no pending registration. No modelled page stores a pending registration; the verification page reads it and, after a successful signup verification, removes it (src/pages/VerifyOtpPage.tsx:45-51).
- An unrecognised `purpose` is not rewritten to `login`. Only a missing one defaults, via `?? 'login'`. The observable behaviour is the same, since every purpose other than `recovery` and `signup` goes to the dashboard; `VerifyOtp.UnrecognisedPurposeActsAsLogin` proves this.
- The dashboard page does not check for a signed-in user, so a navigation to it is modelled as a path and nothing more.

## Model

| member | source | states |
|---|---|---|
| JsString.Length | src/pages/ResetPasswordPage.tsx:18 | `.length` counts UTF-16 code units: between the number of code points and twice that, and equal to it exactly when every code point is in the Basic Multilingual Plane |
| JsString.LengthAppend | src/pages/ResetPasswordPage.tsx:18 | the `.length` of a concatenation is the sum of the parts' `.length`s |
| JsString.LengthOne | src/pages/ResetPasswordPage.tsx:18 | a single code point has `.length` 1 in the Basic Multilingual Plane and 2 outside it |
| JsString.TrimStart | src/pages/VerifyOtpPage.tsx:67 | the result is a suffix of the input that does not start with a trimmable code point, and everything dropped is trimmable |
| JsString.TrimEnd | src/pages/VerifyOtpPage.tsx:67 | the result is a prefix of the input that does not end with a trimmable code point, and everything dropped is trimmable |
| JsString.TrimIsSlice | src/pages/VerifyOtpPage.tsx:67 | `trim` returns the slice of its input that starts right after the leading whitespace run; everything before and after that slice is WhiteSpace/LineTerminator |
| JsString.Trim | src/pages/VerifyOtpPage.tsx:67 | a trimmed string is no longer than its input, neither starts nor ends with a trimmable code point, and is empty exactly when the input is all trimmable code points |
| JsString.TrimKeepsTrimmed | src/pages/VerifyOtpPage.tsx:67 | a string with no outer trimmable code point is left unchanged |
| JsString.TrimIdempotent | src/pages/VerifyOtpPage.tsx:67 | trimming twice equals trimming once |
| JsString.TrimIsTrimOf | src/pages/VerifyOtpPage.tsx:67 | `trim` returns the slice of its input between the outer whitespace runs, with no trimmable code point at either end, and a second `trim` leaves it alone |
| Utf8.EncodeChar | src/pages/ForgotPasswordPage.tsx:34 | one to four bytes per code point: one byte exactly for ASCII, a lead byte that is ASCII or in C2..F4, and continuation bytes after it |
| Utf8.Encode | src/pages/ForgotPasswordPage.tsx:34 | the encoding has between one and four times as many bytes as the string has code points |
| Utf8.EncodeAppend | src/pages/ForgotPasswordPage.tsx:34 | encoding distributes over concatenation |
| Utf8.EncodeAscii | src/pages/ForgotPasswordPage.tsx:34 | an ASCII string encodes to its own code values |
| Utf8.EncodeAsciiChar | src/pages/ForgotPasswordPage.tsx:34 | a single ASCII character encodes to the single byte of its code value |
| Utf8.AsciiByteInEncode | src/pages/VerifyOtpPage.tsx:8 | an ASCII character's byte occurs in the UTF-8 encoding exactly when the character occurs in the string, so an `&` byte always comes from an `&` |
| Utf8.Step | src/pages/VerifyOtpPage.tsx:8 | one decoder step always makes progress: it consumes between one and four bytes, never more than remain |
| Utf8.Decode | src/pages/VerifyOtpPage.tsx:8 | decoding never fails and yields no more code points than there are bytes |
| Utf8.StepEncodeChar | src/pages/VerifyOtpPage.tsx:8 | a decoder step on the encoding of a code point yields that code point and consumes exactly its bytes |
| Utf8.StepTwoBytes | src/pages/VerifyOtpPage.tsx:8 | the same for code points with a two-byte encoding |
| Utf8.StepThreeBytes | src/pages/VerifyOtpPage.tsx:8 | the same for code points with a three-byte encoding, including the E0 and ED lead-byte bounds |
| Utf8.StepFourBytes | src/pages/VerifyOtpPage.tsx:8 | the same for code points with a four-byte encoding, including the F0 and F4 lead-byte bounds |
| Utf8.DecodeEncode | src/pages/VerifyOtpPage.tsx:8 | decoding the UTF-8 encoding of any string gives the string back |
| UriComponent.HexDigit | src/pages/ForgotPasswordPage.tsx:34 | escapes use uppercase hexadecimal digits |
| UriComponent.Triplets | src/pages/ForgotPasswordPage.tsx:34 | the escapes have three characters per byte, and the i-th three characters are the `%XY` escape of the i-th byte |
| UriComponent.Encode | src/pages/ForgotPasswordPage.tsx:34 | `encodeURIComponent` writes between one and twelve times as many characters as the string has code points, and leaves a string of unreserved characters as it is |
| UriComponent.EncodedFormAppend | src/pages/ForgotPasswordPage.tsx:34 | joining two encoded strings gives an encoded string |
| UriComponent.TripletsEncodedForm | src/pages/ForgotPasswordPage.tsx:34 | a run of escapes is in encoded form |
| UriComponent.EncodeIsEncodedForm | src/pages/ForgotPasswordPage.tsx:34 | `encodeURIComponent` yields only unreserved characters and `%XY` escapes |
| UriComponent.EncodedFormIsInert | src/pages/ForgotPasswordPage.tsx:34 | an encoded string is ASCII and contains none of `&`, `=`, `#`, `+` or `?`, so it cannot split or end the query it is placed in |
| FormUrlencoded.HexValue | src/pages/VerifyOtpPage.tsx:8 | a hexadecimal digit byte has a value below sixteen |
| FormUrlencoded.PercentDecode | src/pages/VerifyOtpPage.tsx:8 | percent-decoding never lengthens its input |
| FormUrlencoded.PercentDecodePlain | src/pages/VerifyOtpPage.tsx:8 | bytes without `%` are left unchanged by percent-decoding |
| FormUrlencoded.SplitOn | src/pages/VerifyOtpPage.tsx:8 | splitting on `&` yields at least one part, no part contains the separator, and joining the parts rebuilds the input |
| FormUrlencoded.SplitJoin | src/pages/VerifyOtpPage.tsx:8 | splitting the join of separator-free parts gives the parts back |
| FormUrlencoded.SplitAtFirst | src/pages/VerifyOtpPage.tsx:8 | a name/value split happens at the first `=`; with no `=` the whole sequence is the name |
| FormUrlencoded.ReplacePlus | src/pages/VerifyOtpPage.tsx:8 | no `+` is left, and bytes without a `+` come back unchanged |
| FormUrlencoded.ParseSequences | src/pages/VerifyOtpPage.tsx:8 | there are never more tuples than `&`-separated sequences, and there are none exactly when every sequence is empty |
| FormUrlencoded.Parse | src/pages/VerifyOtpPage.tsx:8 | an empty input has no tuples, and a non-empty input without `&` is a single tuple read from the whole input |
| FormUrlencoded.SearchParams | src/pages/VerifyOtpPage.tsx:8 | a search that is empty or just `?` has no parameters, and a longer one without `&` has exactly one |
| FormUrlencoded.Get | src/pages/VerifyOtpPage.tsx:9-10 | `get` is null exactly when no tuple has the name, and otherwise it is the value of the first tuple that does |
| Router.IndexOf | src/pages/VerifyOtpPage.tsx:8 | the position found is within the string and holds the character sought |
| Router.IndexOfIsFirst | src/pages/VerifyOtpPage.tsx:8 | no earlier position holds the character |
| Router.IndexOfAt | src/pages/VerifyOtpPage.tsx:8 | the first occurrence is the one found |
| Router.IndexOfAbsent | src/pages/VerifyOtpPage.tsx:8 | an absent character is reported at the end of the string |
| Router.SearchOf | src/pages/VerifyOtpPage.tsx:8 | the search part of a path is empty or starts with `?` |
| Router.SearchOfPageAndQuery | src/pages/ForgotPasswordPage.tsx:34 | for a path `page?query` with no `?` or `#` in the page and no `#` in the query, the search is `?query` |
| Handoff.PercentDecodeEncode | src/pages/ForgotPasswordPage.tsx:34 | percent-decoding the bytes of `encodeURIComponent(s)` gives the UTF-8 bytes of `s` |
| Handoff.DecodeEncodedComponent | src/pages/ForgotPasswordPage.tsx:34 | a query component produced by `encodeURIComponent` decodes back to the original string |
| Handoff.ParseHandoffQuery | src/pages/ForgotPasswordPage.tsx:34 | the hand-off query parses to exactly two tuples, (`email`, the email) and (`purpose`, `recovery`) |
| ForgotPassword.QueryDelimiters | src/pages/ForgotPasswordPage.tsx:34 | whatever the email holds, the hand-off query has no `#` or `?`, and its only `&` is the one that starts `purpose=recovery` |
| ForgotPassword.HandoffPath | src/pages/ForgotPasswordPage.tsx:34 | the hand-off path has no `#`, and its only `?` is the one right after `/verify-otp` |
| Handoff.SearchOfHandoff | src/pages/ForgotPasswordPage.tsx:34 | the router's search part of the hand-off path is `?` followed by the hand-off query |
| Handoff.RecoveryHandoffRoundTrip | src/pages/ForgotPasswordPage.tsx:34 | the verification page reached from the hand-off reads back the same email, whatever it contains, with purpose `recovery` |
| SetPin.MatchPinPattern | src/pages/SetPinPage.tsx:23 | the greedy matcher for `/^[0-9]{4,6}$/` accepts exactly the strings of four to six ASCII digits |
| SetPin.Submit | src/pages/SetPinPage.tsx:14-43 | configuration, then format, then confirmation are checked in that order, each with its own message; the RPC is called exactly when all three pass, and then it is the only call, made once with the PIN; its error is shown verbatim; only success navigates to `/dashboard` |
| SetPin.SubmitExamples | src/pages/SetPinPage.tsx:23-31 | "12" fails the format, "1234" against "1235" is a mismatch, and "1234" twice reaches the RPC |
| ResetPassword.Submit | src/pages/ResetPasswordPage.tsx:14-43 | a password under 8 UTF-16 code units, then a confirmation mismatch, then a missing client each stop the handler with their own message; `updateUser` is called exactly for an acceptable password with a client, and then it is the only call, made once with that password; success goes to `/login` |
| ResetPassword.ValidationPrecedesConfiguration | src/pages/ResetPasswordPage.tsx:18-31 | for unacceptable input the result does not depend on whether a client is configured, and the not-configured message never appears |
| ForgotPassword.Submit | src/pages/ForgotPasswordPage.tsx:13-35 | with a client, exactly one code request that never creates an account; an error is shown verbatim; success, and only success, navigates to the hand-off path for the typed email |
| VerifyOtp.ContextOf | src/pages/VerifyOtpPage.tsx:9-10 | `email` is the first `email` parameter or empty when there is none; `purpose` is the first `purpose` parameter or `login` when there is none |
| VerifyOtp.TokenFromInput | src/pages/VerifyOtpPage.tsx:67 | the stored token is the slice of the typed text between its leading and trailing whitespace runs, with no whitespace at either end, and a fixed point of `trim` |
| VerifyOtp.Submit | src/pages/VerifyOtpPage.tsx:17-56 | without a client, no call is made and the pending slot is untouched. Otherwise the first call verifies the code for the context's email. An error is shown verbatim and leaves the slot. Recovery goes to `/reset-password`; every other success goes to `/dashboard`. After a successful verification the calls are exactly the verification followed, for a signup whose slot holds a non-empty PIN, by one PIN call with that PIN, and the slot is emptied by every successful signup and by nothing else |
| VerifyOtp.PinAppliedAtMostOnce | src/pages/VerifyOtpPage.tsx:44-52 | after one successful signup verification, a second verification of any kind finds the slot empty and sets no PIN |
| VerifyOtp.PinOutcomeIgnored | src/pages/VerifyOtpPage.tsx:49 | the result of the PIN call never changes what the page does |
| VerifyOtp.SignupAppliesStoredPin | src/pages/VerifyOtpPage.tsx:44-55 | a successful signup with a stored PIN issues exactly the verification and then that PIN, empties the slot and goes to `/dashboard` |
| VerifyOtp.UnrecognisedPurposeActsAsLogin | src/pages/VerifyOtpPage.tsx:39-55 | any purpose other than `recovery` and `signup` produces exactly what the default `login` purpose produces |
| Login.DefaultForm | src/pages/LoginPage.tsx:16-19 | `remember` starts true, and the untouched text inputs are too short for the schema |
| Login.Validate | src/pages/LoginPage.tsx:7-11 | an identifier shorter than 3, or a password shorter than 8, UTF-16 code units gets its own message, and nothing else does |
| Login.Submit | src/pages/LoginPage.tsx:21-29 | the page redirects to `/dashboard` exactly when both lengths pass; the resolver's errors are reported otherwise |
| Login.ErrorsAreIndependent | src/pages/LoginPage.tsx:7-11 | each field's message depends only on that field, and `remember` never affects the outcome |
| Login.DefaultFormIsRejected | src/pages/LoginPage.tsx:7-19 | submitting the untouched form reports both messages and does not redirect |
| Enrollment.RuleOf | src/pages/RegisterPage.tsx:8-29 | every key but four is required text with a minimum length between one and eight; the middle name is the only optional key, the terms box the only one that must be true, the email the only address check, and the account type the only choice, among Personal, Business and Investment |
| Enrollment.Satisfies | src/pages/RegisterPage.tsx:8-29 | a missing value passes only the optional rule; a checkbox value passes only the must-be-true rule; a value passing a positive minimum length is non-empty text |
| Enrollment.StepOf | src/pages/RegisterPage.tsx:33-38 | every schema key is rendered by some step |
| Enrollment.FieldIndex | src/pages/RegisterPage.tsx:8-29 | every key has a position in the schema's key list |
| Enrollment.StepsPartitionSchema | src/pages/RegisterPage.tsx:33-38 | the four steps' key lists, read one after the other, are the twenty schema keys in order, each once |
| Enrollment.FieldIndexIsPosition | src/pages/RegisterPage.tsx:8-29 | no schema key appears twice |
| Enrollment.StepOfIsUnique | src/pages/RegisterPage.tsx:33-38 | no key is rendered by two steps |
| Enrollment.StepErrors | src/pages/RegisterPage.tsx:54 | validating a step flags only that step's keys, and flags none exactly when the step is valid |
| Enrollment.StepValidityIsLocal | src/pages/RegisterPage.tsx:33-38 | a step's verdict depends only on the values of its own keys |
| Enrollment.SchemaIsStepwise | src/pages/RegisterPage.tsx:8-38 | the whole schema holds exactly when each of the four steps holds |
| Enrollment.Edit | src/pages/RegisterPage.tsx:47-118 | typing changes only the typed key and only when it is rendered on the current step. Before any submit attempt no flag changes; after one, the typed key's flag is set exactly when its new value fails its rule, and no other flag changes |
| Enrollment.Mount | src/pages/RegisterPage.tsx:74-118 | showing a step gives each of its keys that has no value the value its input starts with, and changes no key that already has a value, so values typed on a hidden step are kept |
| Enrollment.MountKeepsValidity | src/pages/RegisterPage.tsx:74-118 | showing a step never makes a valid key invalid |
| Enrollment.RenderedDefaults | src/pages/RegisterPage.tsx:99-108 | an untouched account-type select already holds a valid option, and an untouched terms box fails its rule |
| Enrollment.InitialDraft | src/pages/RegisterPage.tsx:74-82 | on first render, only the first step's keys have values, all of them empty |
| Enrollment.InitialFieldValidity | src/pages/RegisterPage.tsx:8-13 | on first render, the optional middle name is the only key that passes |
| Enrollment.InitialContinueFlagsRequired | src/pages/RegisterPage.tsx:53-56 | Continue on the untouched first step stays there and flags exactly the first name, last name, date of birth and username |
| Enrollment.Next | src/pages/RegisterPage.tsx:53-56 | Continue stays within the four steps. A valid step advances by one, capped at the last, and the step shown next registers its inputs; an invalid step stays and keeps every value. The current step's error flags are recomputed and no other flag changes |
| Enrollment.Prev | src/pages/RegisterPage.tsx:58 | Back moves one step down and registers that step's inputs; on the first step it changes nothing; error flags stay |
| Enrollment.LaterStepsNeverBlock | src/pages/RegisterPage.tsx:53-56 | whether Continue advances depends only on the current step's keys, so blank later steps never block it |
| Enrollment.Progress | src/pages/RegisterPage.tsx:51 | the bar is exactly (step + 1)/4 of 100 percent, positive, and full exactly on the last step |
| Enrollment.ProgressIncreases | src/pages/RegisterPage.tsx:51 | a later step shows a strictly wider bar |
| Enrollment.ButtonsAt | src/pages/RegisterPage.tsx:123-125 | Back shows on every step but the first; exactly one of Continue and Submit Enrollment shows, Submit only on the last step |
| Enrollment.Submit | src/pages/RegisterPage.tsx:60-69 | the redirect to `/login` happens exactly when all twenty keys pass. Otherwise every failing key, and no other, is flagged, the banner shows, the step and values stay, and from then on each change re-validates its key |
| Enrollment.SchemaErrorsEmpty | src/pages/RegisterPage.tsx:8-29 | checked over the whole schema, a key is flagged exactly when it fails |
| Enrollment.TermsGateSubmit | src/pages/RegisterPage.tsx:25 | an unchecked terms box blocks the enrollment and is flagged, whatever else is filled in |
| Enrollment.RunStaysInRange | src/pages/RegisterPage.tsx:53-58 | no sequence of edits, Continue and Back leaves the four steps |
| Enrollment.ContinueStuckOnInvalidStep | src/pages/RegisterPage.tsx:53-56 | pressing Continue any number of times on an invalid step neither advances nor changes the values |
| Enrollment.BackStaysAtFirstStep | src/pages/RegisterPage.tsx:58 | pressing Back any number of times on the first step stays there |
| Enrollment.NavigationKeepsValues | src/pages/RegisterPage.tsx:53-58 | no sequence of Continue and Back changes a value the form already holds |
| Enrollment.ContinueReachesLastStep | src/pages/RegisterPage.tsx:53-56 | with every key valid, n presses of Continue move n steps, capped at the last |

## Left out

- Rendering, the header, the footer, the marketing and dashboard pages, and `alert`: they are presentation only. `window.location.href` and `navigate` are modelled as a navigation target.
- The authentication client (src/lib/supabase is not part of this model): it is reduced to a configured flag and one optional error message per call. Network failures that throw instead of returning an error are not modelled.
- The busy flag's effect on the button: the model records the writes to the flag. It does not model a second click while a call is outstanding, because that needs concurrency, which the pure model does not have.
- Native form constraint validation (`required`, `type="email"`, `type="date"`): the browser may block a submit before the handler runs. The model describes the handler as if the submit reached it.
- Enrollment.Satisfies: zod's `.email()` check is a parameter (`isEmail`), not its regular expression.
- VerifyOtp.Submit: a stored record that is not valid JSON makes `JSON.parse` throw. That path is not modelled. An empty stored string is falsy and is treated like an absent record, which the model also leaves untouched. The record is reduced to its `pin`; a missing PIN is the empty string, both being falsy.
- UriComponent.Encode: a lone surrogate makes `encodeURIComponent` throw `URIError`. Dafny strings hold only Unicode scalar values, so the model cannot express such input.
- Router.SearchOf: only the search part of a path is modelled, not the router's path matching or history. The search is taken as `parsePath` cuts it from the pushed path, not as the browser re-serialises it under a browser router, which would rewrite a `'` in the email to `%27`. The form parser decodes `%27` back to `'`, so the email round trip is the same either way.
- Enrollment.Submit: the alert shown before the redirect is left out.
