/**
 * The four-step account-opening wizard (src/pages/RegisterPage.tsx): the
 * zod schema, the step table, Continue/Back, the progress bar, the buttons
 * and the final submit.
 */
module Enrollment {
  import opened Common
  import JsString

  /** The twenty keys of the enrollment schema. */
  datatype Field =
    | FirstName | MiddleName | LastName | DateOfBirth | Username
    | Email | Phone | Country | Address | City | State | PostalCode
    | AccountType | Password | SecurityQuestion1 | SecurityQuestion2 | TermsAccepted
    | EmailCode | PhoneCode | IdReference

  /** A form value: text inputs and the select give strings, the checkbox a boolean. */
  datatype Value = Text(text: string) | Flag(flag: bool)

  /** The form values; a field whose input was never rendered has no value at all. */
  type Draft = map<Field, Value>

  function Lookup(d: Draft, f: Field): Option<Value> {
    if f in d then Some(d[f]) else None
  }

  /** The kinds of constraint the schema places on a key. */
  datatype Rule =
    | MinLength(n: nat)
    | OptionalText
    | OneOf(options: seq<string>)
    | MustBeTrue
    | EmailAddress

  const AccountTypes: seq<string> := ["Personal", "Business", "Investment"]

  /**
   * The schema, key by key. Every key but four is a required text with a
   * minimum length of one to eight; only the middle name is optional, only
   * the terms box must be ticked, only the email is checked as an address
   * and only the account type is a choice.
   */
  function RuleOf(f: Field): (r: Rule)
    ensures r == OptionalText <==> f == MiddleName
    ensures r == MustBeTrue <==> f == TermsAccepted
    ensures r == EmailAddress <==> f == Email
    ensures r.OneOf? <==> f == AccountType
    ensures r.OneOf? ==> r.options == AccountTypes
    ensures r.MinLength? ==> 1 <= r.n <= 8
  {
    match f
    case FirstName => MinLength(2)
    case MiddleName => OptionalText
    case LastName => MinLength(2)
    case DateOfBirth => MinLength(1)
    case Username => MinLength(4)
    case Email => EmailAddress
    case Phone => MinLength(8)
    case Country => MinLength(2)
    case Address => MinLength(5)
    case City => MinLength(2)
    case State => MinLength(2)
    case PostalCode => MinLength(3)
    case AccountType => OneOf(AccountTypes)
    case Password => MinLength(8)
    case SecurityQuestion1 => MinLength(3)
    case SecurityQuestion2 => MinLength(3)
    case TermsAccepted => MustBeTrue
    case EmailCode => MinLength(4)
    case PhoneCode => MinLength(4)
    case IdReference => MinLength(4)
  }

  /**
   * Whether a value passes a rule. A missing value passes only the optional
   * rule; lengths are UTF-16 lengths; the email check is the library's, taken
   * as a parameter.
   */
  function Satisfies(v: Option<Value>, r: Rule, isEmail: string -> bool): (ok: bool)
    ensures v.None? ==> (ok <==> r == OptionalText)
    ensures ok && v.Some? && v.value.Flag? ==> r == MustBeTrue
    ensures ok && r.MinLength? && r.n > 0 ==> v.Some? && v.value.Text? && v.value.text != []
  {
    match r
    case MinLength(n) => v.Some? && v.value.Text? && JsString.Length(v.value.text) >= n
    case OptionalText => v.None? || v.value.Text?
    case OneOf(options) => v.Some? && v.value.Text? && v.value.text in options
    case MustBeTrue => v == Some(Flag(true))
    case EmailAddress => v.Some? && v.value.Text? && isEmail(v.value.text)
  }

  predicate FieldValid(d: Draft, f: Field, isEmail: string -> bool) {
    Satisfies(Lookup(d, f), RuleOf(f), isEmail)
  }

  /** A wizard step: its title and the keys it renders and validates. */
  datatype Step = Step(title: string, fields: seq<Field>)

  const PersonalFields: seq<Field> := [FirstName, MiddleName, LastName, DateOfBirth, Username]
  const ContactFields: seq<Field> := [Email, Phone, Country, Address, City, State, PostalCode]
  const AccountFields: seq<Field> := [AccountType, Password, SecurityQuestion1, SecurityQuestion2, TermsAccepted]
  const VerificationFields: seq<Field> := [EmailCode, PhoneCode, IdReference]

  const Steps: seq<Step> := [
    Step("Personal Information", PersonalFields),
    Step("Contact Information", ContactFields),
    Step("Account Setup", AccountFields),
    Step("Verification", VerificationFields)
  ]

  const LastStep := |Steps| - 1

  /** Every key in schema order. */
  const AllFields: seq<Field> := [
    FirstName, MiddleName, LastName, DateOfBirth, Username,
    Email, Phone, Country, Address, City, State, PostalCode,
    AccountType, Password, SecurityQuestion1, SecurityQuestion2, TermsAccepted,
    EmailCode, PhoneCode, IdReference
  ]

  predicate InRange(step: int) {
    0 <= step < |Steps|
  }

  function FieldsOf(k: nat): set<Field>
    requires k < |Steps|
  {
    set f | f in Steps[k].fields
  }

  /** The step that renders a key: every key belongs to some step. */
  function StepOf(f: Field): (k: nat)
    ensures k < |Steps| && f in Steps[k].fields
  {
    match f
    case FirstName | MiddleName | LastName | DateOfBirth | Username => 0
    case Email | Phone | Country | Address | City | State | PostalCode => 1
    case AccountType | Password | SecurityQuestion1 | SecurityQuestion2 | TermsAccepted => 2
    case EmailCode | PhoneCode | IdReference => 3
  }

  /** A key's position in schema order. */
  function FieldIndex(f: Field): (i: nat)
    ensures i < |AllFields| && AllFields[i] == f
  {
    match f
    case FirstName => 0
    case MiddleName => 1
    case LastName => 2
    case DateOfBirth => 3
    case Username => 4
    case Email => 5
    case Phone => 6
    case Country => 7
    case Address => 8
    case City => 9
    case State => 10
    case PostalCode => 11
    case AccountType => 12
    case Password => 13
    case SecurityQuestion1 => 14
    case SecurityQuestion2 => 15
    case TermsAccepted => 16
    case EmailCode => 17
    case PhoneCode => 18
    case IdReference => 19
  }

  /**
   * The steps list the twenty schema keys in schema order, each exactly
   * once: read one after the other they give the schema, and no key sits
   * at two positions.
   */
  lemma StepsPartitionSchema()
    ensures |AllFields| == 20
    ensures Steps[0].fields + Steps[1].fields + Steps[2].fields + Steps[3].fields == AllFields
    ensures forall i :: 0 <= i < |AllFields| ==> FieldIndex(AllFields[i]) == i
  {
    assert PersonalFields + ContactFields + AccountFields + VerificationFields == AllFields;
    FieldIndexIsPosition();
  }

  /** Reading off the position of the key at position i gives i back, so no key repeats. */
  lemma FieldIndexIsPosition()
    ensures forall i :: 0 <= i < |AllFields| ==> FieldIndex(AllFields[i]) == i
  {
  }

  /** No key is rendered by two steps: the key at any position of step k belongs to step k alone. */
  lemma StepOfIsUnique(k: nat, i: nat)
    requires k < |Steps| && i < |Steps[k].fields|
    ensures StepOf(Steps[k].fields[i]) == k
  {
    if k == 0 {
      assert Steps[k].fields[i] == PersonalFields[i];
    } else if k == 1 {
      assert Steps[k].fields[i] == ContactFields[i];
    } else if k == 2 {
      assert Steps[k].fields[i] == AccountFields[i];
    } else {
      assert Steps[k].fields[i] == VerificationFields[i];
    }
  }

  predicate StepValid(d: Draft, k: nat, isEmail: string -> bool)
    requires k < |Steps|
  {
    forall f :: f in Steps[k].fields ==> FieldValid(d, f, isEmail)
  }

  /** The keys among `fields` that fail the schema. */
  function ErrorsAmong(d: Draft, fields: seq<Field>, isEmail: string -> bool): (errs: set<Field>)
    ensures forall f :: f in errs <==> f in fields && !FieldValid(d, f, isEmail)
  {
    set f | f in fields && !FieldValid(d, f, isEmail)
  }

  /** `trigger(steps[k].fields)`: the keys of step k that fail the schema. */
  function StepErrors(d: Draft, k: nat, isEmail: string -> bool): (errs: set<Field>)
    requires k < |Steps|
    ensures errs <= FieldsOf(k)
    ensures errs == {} <==> StepValid(d, k, isEmail)
  {
    var errs := ErrorsAmong(d, Steps[k].fields, isEmail);
    assert errs == {} <==> StepValid(d, k, isEmail) by {
      if errs != {} {
        var f :| f in errs;
      }
    }
    errs
  }

  /** A step's verdict depends on its own keys only, never on keys of other steps. */
  lemma StepValidityIsLocal(d1: Draft, d2: Draft, k: nat, isEmail: string -> bool)
    requires k < |Steps|
    requires forall f :: f in Steps[k].fields ==> Lookup(d1, f) == Lookup(d2, f)
    ensures StepValid(d1, k, isEmail) <==> StepValid(d2, k, isEmail)
  {
  }

  /** The whole schema holds exactly when every step's keys hold. */
  lemma SchemaIsStepwise(d: Draft, isEmail: string -> bool)
    ensures (forall f: Field :: FieldValid(d, f, isEmail))
        <==> (forall k: nat :: k < |Steps| ==> StepValid(d, k, isEmail))
  {
    if forall k: nat :: k < |Steps| ==> StepValid(d, k, isEmail) {
      forall f: Field ensures FieldValid(d, f, isEmail) {
        assert StepValid(d, StepOf(f), isEmail);
      }
    }
  }

  /**
   * The page state: the current step, the form values, the keys flagged in
   * error, and whether a submit has been attempted (from then on every
   * change re-validates the changed key).
   */
  datatype Wizard = Wizard(step: int, draft: Draft, errors: set<Field>, submitted: bool)

  /** The value an input holds when first rendered: empty text, the select's first option, an unchecked box. */
  function RenderedDefault(f: Field): Value {
    match f
    case AccountType => Text(AccountTypes[0])
    case TermsAccepted => Flag(false)
    case _ => Text("")
  }

  /**
   * Rendering step k registers its inputs: a key of step k with no value
   * yet takes its input's initial value; every key that already has a value
   * (typed earlier and kept while its step was hidden) keeps it.
   */
  function Mount(d: Draft, k: nat): (r: Draft)
    requires k < |Steps|
    ensures forall f :: f in d ==> Lookup(r, f) == Lookup(d, f)
    ensures forall f :: f !in d && f in Steps[k].fields ==> Lookup(r, f) == Some(RenderedDefault(f))
    ensures forall f :: f !in d && f !in Steps[k].fields ==> Lookup(r, f).None?
  {
    map f | f in d.Keys + FieldsOf(k) :: if f in d then d[f] else RenderedDefault(f)
  }

  /** The page as first rendered: step 0 with its inputs registered, no errors. */
  const Initial := Wizard(0, Mount(map[], 0), {}, false)

  /**
   * Typing into a rendered input; keys of other steps have no input on
   * screen. Before any submit attempt a change validates nothing; after one,
   * the changed key alone is validated again and its flag replaced.
   */
  function Edit(w: Wizard, f: Field, v: Value, isEmail: string -> bool): (r: Wizard)
    ensures r.step == w.step && r.submitted == w.submitted
    ensures InRange(w.step) && f in Steps[w.step].fields ==> Lookup(r.draft, f) == Some(v)
    ensures forall g :: g != f ==> Lookup(r.draft, g) == Lookup(w.draft, g)
    ensures !(InRange(w.step) && f in Steps[w.step].fields) ==> r == w
    ensures !w.submitted ==> r.errors == w.errors
    ensures forall g :: g != f ==> (g in r.errors <==> g in w.errors)
    ensures w.submitted && InRange(w.step) && f in Steps[w.step].fields ==>
              (f in r.errors <==> !FieldValid(r.draft, f, isEmail))
  {
    if InRange(w.step) && f in Steps[w.step].fields then
      var d := w.draft[f := v];
      var errs :=
        if !w.submitted then w.errors
        else if FieldValid(d, f, isEmail) then w.errors - {f}
        else w.errors + {f};
      w.(draft := d, errors := errs)
    else w
  }

  /**
   * Continue: validate the current step's keys, replace their error flags,
   * and advance (never past the last step) only when none failed; the step
   * shown next registers its inputs.
   */
  function Next(w: Wizard, isEmail: string -> bool): (r: Wizard)
    requires InRange(w.step)
    ensures InRange(r.step) && r.submitted == w.submitted
    ensures StepValid(w.draft, w.step, isEmail) && w.step < LastStep ==> r.step == w.step + 1
    ensures StepValid(w.draft, w.step, isEmail) && w.step == LastStep ==> r.step == w.step
    ensures !StepValid(w.draft, w.step, isEmail) ==> r.step == w.step
    ensures r.step == w.step ==> r.draft == w.draft
    ensures r.step != w.step ==> r.draft == Mount(w.draft, r.step)
    ensures forall f :: f in Steps[w.step].fields ==> (f in r.errors <==> !FieldValid(w.draft, f, isEmail))
    ensures forall f :: f !in Steps[w.step].fields ==> (f in r.errors <==> f in w.errors)
  {
    var errs := StepErrors(w.draft, w.step, isEmail);
    var flagged := (w.errors - FieldsOf(w.step)) + errs;
    if errs == {} && w.step < LastStep then
      w.(step := w.step + 1, draft := Mount(w.draft, w.step + 1), errors := flagged)
    else
      w.(errors := flagged)
  }

  /** Back: one step down, never below the first; the step shown registers its inputs, error flags stay. */
  function Prev(w: Wizard): (r: Wizard)
    requires InRange(w.step)
    ensures r.errors == w.errors && r.submitted == w.submitted
    ensures w.step > 0 ==> r.step == w.step - 1 && r.draft == Mount(w.draft, r.step)
    ensures w.step == 0 ==> r == w
  {
    if w.step > 0 then w.(step := w.step - 1, draft := Mount(w.draft, w.step - 1)) else w
  }

  /**
   * Registering inputs never breaks a key that was valid: only missing keys
   * change, and a missing key passes only the optional rule, which its empty
   * text also passes.
   */
  lemma MountKeepsValidity(d: Draft, k: nat, f: Field, isEmail: string -> bool)
    requires k < |Steps| && FieldValid(d, f, isEmail)
    ensures FieldValid(Mount(d, k), f, isEmail)
  {
  }

  /** An untouched select already holds a valid account type, while an untouched terms box fails. */
  lemma RenderedDefaults(d: Draft, isEmail: string -> bool)
    requires AccountType !in d && TermsAccepted !in d
    ensures FieldValid(Mount(d, 2), AccountType, isEmail)
    ensures !FieldValid(Mount(d, 2), TermsAccepted, isEmail)
  {
    assert AccountType in Steps[2].fields && TermsAccepted in Steps[2].fields;
  }

  /** The first step's inputs start empty and nothing else has a value. */
  lemma InitialDraft(f: Field)
    ensures Lookup(Initial.draft, f) == if f in PersonalFields then Some(Text("")) else None
  {
  }

  /** On the page as first rendered, the optional middle name is the only key that passes. */
  lemma InitialFieldValidity(f: Field, isEmail: string -> bool)
    ensures FieldValid(Initial.draft, f, isEmail) <==> f == MiddleName
  {
    InitialDraft(f);
    assert JsString.Length("") == 0;
  }

  /** Continue on the untouched first step flags every required key of that step, and not the optional middle name. */
  lemma InitialContinueFlagsRequired(isEmail: string -> bool)
    ensures Next(Initial, isEmail).step == 0
    ensures forall f :: f in Next(Initial, isEmail).errors <==> f in PersonalFields && f != MiddleName
  {
    InitialFieldValidity(FirstName, isEmail);
    assert FirstName in Steps[0].fields;
    forall f ensures FieldValid(Initial.draft, f, isEmail) <==> f == MiddleName {
      InitialFieldValidity(f, isEmail);
    }
  }

  /** Whether Continue at a step advances depends only on that step's keys. */
  lemma LaterStepsNeverBlock(w1: Wizard, w2: Wizard, isEmail: string -> bool)
    requires InRange(w1.step) && w1.step == w2.step
    requires forall f :: f in Steps[w1.step].fields ==> Lookup(w1.draft, f) == Lookup(w2.draft, f)
    ensures Next(w1, isEmail).step == Next(w2, isEmail).step
  {
    StepValidityIsLocal(w1.draft, w2.draft, w1.step, isEmail);
  }

  /** The progress bar's width in percent: (step + 1) / 4 * 100, exact at every step. */
  function Progress(step: int): (p: int)
    requires InRange(step)
    ensures p * |Steps| == (step + 1) * 100
    ensures 0 < p <= 100
    ensures p == 100 <==> step == LastStep
  {
    (step + 1) * 100 / |Steps|
  }

  lemma ProgressIncreases(i: int, j: int)
    requires InRange(i) && InRange(j) && i < j
    ensures Progress(i) < Progress(j)
  {
  }

  /** The buttons shown under the form: Back, Continue and Submit Enrollment. */
  datatype Buttons = Buttons(back: bool, proceed: bool, submit: bool)

  function ButtonsAt(step: int): (b: Buttons)
    requires InRange(step)
    ensures b.back <==> step != 0
    ensures b.proceed != b.submit
    ensures b.submit <==> step == LastStep
  {
    Buttons(step > 0, step < |Steps| - 1, step == |Steps| - 1)
  }

  /** The banner above the buttons appears while any key is flagged. */
  predicate ShowsBanner(w: Wizard) {
    w.errors != {}
  }

  /** What pressing Submit Enrollment leads to. */
  datatype SubmitResult = Redirect(target: string) | Stay(wizard: Wizard)

  const Destination := "/login"

  /**
   * `handleSubmit(onSubmit)`: the whole schema is checked; the redirect to
   * the login page happens only when every key passes, otherwise every
   * failing key is flagged and the step stays.
   */
  function Submit(w: Wizard, isEmail: string -> bool): (r: SubmitResult)
    ensures r.Redirect? <==> forall f: Field :: FieldValid(w.draft, f, isEmail)
    ensures r.Redirect? ==> r.target == Destination
    ensures r.Stay? ==> r.wizard.step == w.step && r.wizard.draft == w.draft
    ensures r.Stay? ==> forall f: Field :: f in r.wizard.errors <==> !FieldValid(w.draft, f, isEmail)
    ensures r.Stay? ==> ShowsBanner(r.wizard) && r.wizard.submitted
  {
    var errs := ErrorsAmong(w.draft, AllFields, isEmail);
    SchemaErrorsEmpty(w.draft, isEmail);
    if errs == {} then Redirect(Destination) else Stay(w.(errors := errs, submitted := true))
  }

  /** Checked over the whole schema, a key is flagged exactly when it fails; so no flag means every key passes. */
  lemma SchemaErrorsEmpty(d: Draft, isEmail: string -> bool)
    ensures forall f: Field :: f in ErrorsAmong(d, AllFields, isEmail) <==> !FieldValid(d, f, isEmail)
    ensures ErrorsAmong(d, AllFields, isEmail) == {} <==> forall f: Field :: FieldValid(d, f, isEmail)
  {
    var errs := ErrorsAmong(d, AllFields, isEmail);
    forall f: Field ensures f in errs <==> !FieldValid(d, f, isEmail) {
      assert AllFields[FieldIndex(f)] == f;
    }
    if errs != {} {
      var f :| f in errs;
    } else {
      forall f: Field ensures FieldValid(d, f, isEmail) {
        assert f in AllFields by {
          assert AllFields[FieldIndex(f)] == f;
        }
      }
    }
  }

  /** An unchecked terms box blocks the enrollment whatever else is filled in. */
  lemma TermsGateSubmit(w: Wizard, isEmail: string -> bool)
    requires Lookup(w.draft, TermsAccepted) != Some(Flag(true))
    ensures Submit(w, isEmail).Stay?
    ensures TermsAccepted in Submit(w, isEmail).wizard.errors
  {
    assert !FieldValid(w.draft, TermsAccepted, isEmail);
  }

  /** The visitor's actions on the wizard. */
  datatype Action = Type(field: Field, value: Value) | Continue | Back

  function Apply(w: Wizard, a: Action, isEmail: string -> bool): Wizard
    requires InRange(w.step)
  {
    match a
    case Type(f, v) => Edit(w, f, v, isEmail)
    case Continue => Next(w, isEmail)
    case Back => Prev(w)
  }

  function Run(w: Wizard, actions: seq<Action>, isEmail: string -> bool): Wizard
    requires InRange(w.step)
    decreases |actions|
  {
    if actions == [] then w
    else
      var w' := Apply(w, actions[0], isEmail);
      assert InRange(w'.step);
      Run(w', actions[1..], isEmail)
  }

  /** No sequence of actions moves the wizard off its four steps. */
  lemma {:induction false} RunStaysInRange(w: Wizard, actions: seq<Action>, isEmail: string -> bool)
    requires InRange(w.step)
    ensures InRange(Run(w, actions, isEmail).step)
    decreases |actions|
  {
    if actions != [] {
      RunStaysInRange(Apply(w, actions[0], isEmail), actions[1..], isEmail);
    }
  }

  predicate AllContinue(actions: seq<Action>) {
    forall i :: 0 <= i < |actions| ==> actions[i] == Continue
  }

  predicate AllBack(actions: seq<Action>) {
    forall i :: 0 <= i < |actions| ==> actions[i] == Back
  }

  /** Pressing Continue again and again on a failing step never advances. */
  lemma {:induction false} ContinueStuckOnInvalidStep(w: Wizard, actions: seq<Action>, isEmail: string -> bool)
    requires InRange(w.step) && !StepValid(w.draft, w.step, isEmail)
    requires AllContinue(actions)
    ensures Run(w, actions, isEmail).step == w.step
    ensures Run(w, actions, isEmail).draft == w.draft
    decreases |actions|
  {
    if actions != [] {
      assert actions[0] == Continue;
      var w' := Next(w, isEmail);
      assert AllContinue(actions[1..]) by {
        forall i | 0 <= i < |actions| - 1 ensures actions[1..][i] == Continue {
          assert actions[1..][i] == actions[i + 1];
        }
      }
      ContinueStuckOnInvalidStep(w', actions[1..], isEmail);
    }
  }

  /** Pressing Back again and again on the first step stays there. */
  lemma {:induction false} BackStaysAtFirstStep(w: Wizard, actions: seq<Action>, isEmail: string -> bool)
    requires w.step == 0
    requires AllBack(actions)
    ensures Run(w, actions, isEmail).step == 0
    decreases |actions|
  {
    if actions != [] {
      assert actions[0] == Back;
      assert AllBack(actions[1..]) by {
        forall i | 0 <= i < |actions| - 1 ensures actions[1..][i] == Back {
          assert actions[1..][i] == actions[i + 1];
        }
      }
      BackStaysAtFirstStep(Prev(w), actions[1..], isEmail);
    }
  }

  /** With every key valid, n presses of Continue from a step reach step + n, capped at the last step. */
  lemma {:induction false} ContinueReachesLastStep(w: Wizard, actions: seq<Action>, isEmail: string -> bool)
    requires InRange(w.step)
    requires forall f: Field :: FieldValid(w.draft, f, isEmail)
    requires AllContinue(actions)
    ensures Run(w, actions, isEmail).step == if w.step + |actions| < LastStep then w.step + |actions| else LastStep
    decreases |actions|
  {
    if actions != [] {
      assert actions[0] == Continue;
      SchemaIsStepwise(w.draft, isEmail);
      assert StepValid(w.draft, w.step, isEmail);
      var w' := Next(w, isEmail);
      forall f: Field ensures FieldValid(w'.draft, f, isEmail) {
        if w'.step != w.step {
          MountKeepsValidity(w.draft, w'.step, f, isEmail);
        }
      }
      assert AllContinue(actions[1..]) by {
        forall i | 0 <= i < |actions| - 1 ensures actions[1..][i] == Continue {
          assert actions[1..][i] == actions[i + 1];
        }
      }
      ContinueReachesLastStep(w', actions[1..], isEmail);
    }
  }

  predicate AllNavigation(actions: seq<Action>) {
    forall i :: 0 <= i < |actions| ==> actions[i] == Continue || actions[i] == Back
  }

  /** Continue and Back never change a value the form already holds; they only register inputs that had none. */
  lemma {:induction false} NavigationKeepsValues(w: Wizard, actions: seq<Action>, f: Field, isEmail: string -> bool)
    requires InRange(w.step) && AllNavigation(actions) && f in w.draft
    ensures Lookup(Run(w, actions, isEmail).draft, f) == Lookup(w.draft, f)
    decreases |actions|
  {
    if actions != [] {
      var w' := Apply(w, actions[0], isEmail);
      assert Lookup(w'.draft, f) == Lookup(w.draft, f);
      assert AllNavigation(actions[1..]) by {
        forall i | 0 <= i < |actions| - 1 ensures actions[1..][i] == Continue || actions[1..][i] == Back {
          assert actions[1..][i] == actions[i + 1];
        }
      }
      NavigationKeepsValues(w', actions[1..], f, isEmail);
    }
  }
}
