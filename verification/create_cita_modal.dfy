/**
 * The four-step creation wizard: client, date and hour, details, summary.
 * "Next" validates the current step and advances; "back" never validates;
 * "create" validates the details step only and, on success, hands the form
 * over and resets the wizard.
 */
module CreateCitaModal {
  import opened Options
  import opened Text
  import opened FormErrors
  import opened Citas
  import EditCitaModal

  /** The step whose screen holds each field: client 1, date and hour 2, details 3. */
  function StepOf(f: Field): (s: int)
    ensures 1 <= s <= 3
  {
    match f
    case Cliente | Telefono | Email => 1
    case Fecha | Hora => 2
    case Propiedad | Notas | Estado => 3
  }

  /** `validateStep(step)`: the checks of that step's fields; the summary step (and any other number) checks nothing. */
  function ValidateStep(step: int, d: CitaData): (errors: map<Field, string>)
    ensures forall f :: f in errors <==> f in EditCitaModal.ValidateForm(d) && StepOf(f) == step
    ensures forall f | f in errors :: errors[f] == EditCitaModal.ValidateForm(d)[f] == Message(f, d)
  {
    if step == 1 then ClienteChecks(map[], d)
    else if step == 2 then ScheduleChecks(map[], d)
    else if step == 3 then PropiedadChecks(map[], d)
    else map[]
  }

  /** The boolean `validateStep` returns. */
  predicate StepValid(step: int, d: CitaData)
  {
    NoErrors(ValidateStep(step, d))
  }

  /** A step's verdict depends only on that step's own fields. */
  lemma ValidateStepIgnoresOtherFields(step: int, d: CitaData, d': CitaData)
    requires forall g | StepOf(g) == step :: Get(d, g) == Get(d', g)
    ensures ValidateStep(step, d) == ValidateStep(step, d')
  {
    if step == 1 {
      assert Get(d, Cliente) == Get(d', Cliente) && Get(d, Telefono) == Get(d', Telefono) && Get(d, Email) == Get(d', Email);
    } else if step == 2 {
      assert Get(d, Fecha) == Get(d', Fecha) && Get(d, Hora) == Get(d', Hora);
    } else if step == 3 {
      assert Get(d, Propiedad) == Get(d', Propiedad);
    }
  }

  /** The three step checks together are exactly the edit form's check: a form passes all steps iff it passes `validateForm`. */
  lemma StepsMakeUpValidateForm(d: CitaData)
    ensures EditCitaModal.FormValid(d) <==> StepValid(1, d) && StepValid(2, d) && StepValid(3, d)
  {
    var e := EditCitaModal.ValidateForm(d);
    if !EditCitaModal.FormValid(d) {
      var k :| k in e;
      assert k in ValidateStep(StepOf(k), d);
    }
    if !StepValid(1, d) {
      var k :| k in ValidateStep(1, d);
      assert k in e;
    }
    if !StepValid(2, d) {
      var k :| k in ValidateStep(2, d);
      assert k in e;
    }
    if !StepValid(3, d) {
      var k :| k in ValidateStep(3, d);
      assert k in e;
    }
  }

  /** The wizard's state: the current step, the form and the field messages. */
  datatype Wizard = Wizard(step: int, form: CitaData, errors: map<Field, string>)

  /** The state on opening and after every close: step 1, the default form, no messages. */
  const Initial: Wizard := Wizard(1, DefaultForm, map[])

  /** `handleNext`: the messages become the current step's; the step advances (at most to 4) only when it passes. */
  function HandleNext(w: Wizard): (r: Wizard)
    ensures r.errors == ValidateStep(w.step, w.form) && r.form == w.form
    ensures StepValid(w.step, w.form) ==> r.step == Min4(w.step + 1)
    ensures !StepValid(w.step, w.form) ==> r.step == w.step
  {
    var errors := ValidateStep(w.step, w.form);
    Wizard(if NoErrors(errors) then Min4(w.step + 1) else w.step, w.form, errors)
  }

  function Min4(n: int): int
  {
    if n < 4 then n else 4
  }

  /** `handlePrev`: one step back, never below 1, without validating. */
  function HandlePrev(w: Wizard): (r: Wizard)
    ensures r.step == (if w.step - 1 > 1 then w.step - 1 else 1)
    ensures r.form == w.form && r.errors == w.errors
  {
    w.(step := if w.step - 1 > 1 then w.step - 1 else 1)
  }

  /** `handleClose`: back to the initial state whatever the current one. */
  function HandleClose(w: Wizard): (r: Wizard)
    ensures r.step == 1 && r.form == DefaultForm && NoErrors(r.errors)
  {
    Initial
  }

  /**
   * `handleSubmit`: only the details step is validated; on success the form is
   * handed over and the wizard is closed, otherwise the messages become the
   * details step's and nothing else changes.
   */
  function HandleSubmit(w: Wizard): (r: (Wizard, Option<CitaData>))
    ensures r.1.Some? <==> StepValid(3, w.form)
    ensures r.1.Some? ==> r.1.value == w.form && r.0 == Initial
    ensures r.1.None? ==> r.0 == w.(errors := ValidateStep(3, w.form))
  {
    var errors := ValidateStep(3, w.form);
    if NoErrors(errors) then (HandleClose(w), Some(w.form)) else (w.(errors := errors), None)
  }

  /** `updateFormData(field, value)`: the field takes the value and its message is blanked. */
  function UpdateFormData(w: Wizard, field: Field, value: string): (r: Wizard)
    ensures Get(r.form, field) == value
    ensures forall g :: g != field ==> Get(r.form, g) == Get(w.form, g)
    ensures r.step == w.step && r.errors == ClearError(w.errors, field)
  {
    w.(form := Set(w.form, field, value), errors := ClearError(w.errors, field))
  }

  /** What the user can do: the footer buttons, the close icon, and typing into a field. */
  datatype Action = Next | Prev | Submit | Close | Edit(field: Field, value: string)

  /**
   * What the screen offers in a state: "next" before the summary, "back" after
   * step 1, "create" on the summary, close always, and inputs only for the
   * fields of the step on screen (the summary has none).
   */
  predicate Offered(w: Wizard, a: Action)
  {
    match a
    case Next => w.step < 4
    case Prev => w.step != 1
    case Submit => w.step >= 4
    case Close => true
    case Edit(f, _) => StepOf(f) == w.step
  }

  /** One action; the second component is the form handed to `onSubmit`, if any. */
  function Apply(w: Wizard, a: Action): (Wizard, Option<CitaData>)
  {
    match a
    case Next => (HandleNext(w), None)
    case Prev => (HandlePrev(w), None)
    case Submit => HandleSubmit(w)
    case Close => (HandleClose(w), None)
    case Edit(f, v) => (UpdateFormData(w, f, v), None)
  }

  /** A run of actions, each offered by the state it meets. */
  predicate AllOffered(w: Wizard, acts: seq<Action>)
    decreases |acts|
  {
    |acts| == 0 || (Offered(w, acts[0]) && AllOffered(Apply(w, acts[0]).0, acts[1..]))
  }

  /** The final state of a run and the forms it handed over, in order. */
  function Run(w: Wizard, acts: seq<Action>): (Wizard, seq<CitaData>)
    decreases |acts|
  {
    if |acts| == 0 then (w, [])
    else
      var (w', out) := Apply(w, acts[0]);
      var (w'', rest) := Run(w', acts[1..]);
      (w'', (if out.Some? then [out.value] else []) + rest)
  }

  /** The wizard's invariant: the step is 1 to 4 and every step before the current one passes. */
  predicate Inv(w: Wizard)
  {
    1 <= w.step <= 4 && forall j | 1 <= j < w.step :: StepValid(j, w.form)
  }

  lemma InitialInv()
    ensures Inv(Initial)
  {
  }

  /** Editing a field leaves the verdict of every other step as it was. */
  lemma EditKeepsOtherSteps(d: CitaData, f: Field, v: string, j: int)
    requires j != StepOf(f)
    ensures StepValid(j, Set(d, f, v)) == StepValid(j, d)
  {
    ValidateStepIgnoresOtherFields(j, d, Set(d, f, v));
  }

  /** Every offered action keeps the invariant, and whatever is handed over passes the whole edit-form check. */
  lemma ApplyPreservesInv(w: Wizard, a: Action)
    requires Inv(w) && Offered(w, a)
    ensures Inv(Apply(w, a).0)
    ensures Apply(w, a).1.Some? ==> EditCitaModal.FormValid(Apply(w, a).1.value)
  {
    match a
    case Next =>
    case Prev =>
    case Submit =>
      SubmitFromSummary(w);
    case Close =>
    case Edit(f, v) =>
      forall j | 1 <= j < w.step
        ensures StepValid(j, Set(w.form, f, v))
      {
        EditKeepsOtherSteps(w.form, f, v, j);
      }
  }

  /** On the summary, "create" always succeeds: the earlier steps were passed on the way, and nothing on the summary can undo that. */
  lemma SubmitFromSummary(w: Wizard)
    requires Inv(w) && w.step == 4
    ensures HandleSubmit(w) == (Initial, Some(w.form))
    ensures EditCitaModal.FormValid(w.form)
  {
    assert StepValid(1, w.form) && StepValid(2, w.form) && StepValid(3, w.form);
    StepsMakeUpValidateForm(w.form);
  }

  /**
   * From any state satisfying the invariant (the initial one in particular),
   * a run of offered actions keeps the invariant and hands over only forms that
   * pass the edit form's full check.
   */
  lemma {:induction false} RunKeepsInv(w: Wizard, acts: seq<Action>)
    requires Inv(w) && AllOffered(w, acts)
    ensures Inv(Run(w, acts).0)
    ensures forall k | 0 <= k < |Run(w, acts).1| :: EditCitaModal.FormValid(Run(w, acts).1[k])
    decreases |acts|
  {
    if |acts| > 0 {
      ApplyPreservesInv(w, acts[0]);
      RunKeepsInv(Apply(w, acts[0]).0, acts[1..]);
    }
  }

  /** The step stays within 1..4 on every run from the initial state. */
  lemma StepStaysInRange(acts: seq<Action>)
    requires AllOffered(Initial, acts)
    ensures 1 <= Run(Initial, acts).0.step <= 4
  {
    RunKeepsInv(Initial, acts);
  }
}
