/**
 * The edit form: a copy of the selected cita, field edits, validation of all
 * required fields at once, and a submit that hands the whole copy back.
 */
module EditCitaModal {
  import opened Options
  import opened Text
  import opened FormErrors
  import opened Citas

  /** The form state: the working copy of the cita and the field messages. */
  datatype EditModal = EditModal(form: Cita, errors: map<Field, string>)

  /** `validateForm`: one message per failing required field, and none for any other field. */
  function ValidateForm(d: CitaData): (errors: map<Field, string>)
    ensures errors.Keys == ClienteFailures(d) + ScheduleFailures(d) + PropiedadFailures(d)
    ensures forall k | k in errors :: errors[k] == Message(k, d)
  {
    var e1 := ClienteChecks(map[], d);
    var e2 := ScheduleChecks(e1, d);
    PropiedadChecks(e2, d)
  }

  /** The client fields: a message is present exactly when that field fails. */
  lemma ValidateFormCliente(d: CitaData)
    ensures var errors := ValidateForm(d);
            && (Cliente in errors <==> Blank(d.cliente))
            && (Telefono in errors <==> Blank(d.telefono))
            && (Email in errors <==> Blank(d.email) || !EmailLike(d.email))
  {
  }

  /** The schedule and property fields: a message is present exactly when that field fails; `notas` and `estado` are never checked. */
  lemma ValidateFormRest(d: CitaData)
    ensures var errors := ValidateForm(d);
            && (Fecha in errors <==> |d.fecha| == 0)
            && (Hora in errors <==> |d.hora| == 0)
            && (Propiedad in errors <==> Blank(d.propiedad))
            && Notas !in errors && Estado !in errors
  {
  }

  predicate FormValid(d: CitaData)
  {
    NoErrors(ValidateForm(d))
  }

  /** The form passes exactly when every required field is filled and the email matches the pattern. */
  lemma FormValidIff(d: CitaData)
    ensures FormValid(d) <==>
              && !Blank(d.cliente) && !Blank(d.telefono) && !Blank(d.email) && EmailLike(d.email)
              && |d.fecha| > 0 && |d.hora| > 0 && !Blank(d.propiedad)
  {
    var e := ValidateForm(d);
    ValidateFormCliente(d);
    ValidateFormRest(d);
    if !FormValid(d) {
      var k :| k in e;
      assert k != Notas && k != Estado;
    }
  }

  /** The notes and the status never decide validity. */
  lemma NotasAndEstadoUnchecked(d: CitaData, notas: string, estado: string)
    ensures FormValid(d.(notas := notas, estado := estado)) == FormValid(d)
  {
    FormValidIff(d);
    FormValidIff(d.(notas := notas, estado := estado));
  }

  /** The `useEffect` on `cita`: when a cita is selected the form becomes a copy of it; the messages stay. */
  function Load(m: EditModal, cita: Option<Cita>): (r: EditModal)
    ensures cita.Some? ==> r.form == cita.value
    ensures cita.None? ==> r.form == m.form
    ensures r.errors == m.errors
  {
    match cita
    case Some(c) => m.(form := c)
    case None => m
  }

  /** `updateFormData(field, value)` on the copy. */
  function UpdateFormData(m: EditModal, field: Field, value: string): (r: EditModal)
    ensures Get(r.form.data, field) == value
    ensures forall g :: g != field ==> Get(r.form.data, g) == Get(m.form.data, g)
    ensures r.form.id == m.form.id && r.form.fechaCreacion == m.form.fechaCreacion && r.form.documento == m.form.documento
    ensures r.errors == ClearError(m.errors, field)
  {
    EditModal(m.form.(data := Set(m.form.data, field, value)), ClearError(m.errors, field))
  }

  /** `handleSubmit`: the messages become the validator's; the copy is handed over exactly when it is valid. */
  function HandleSubmit(m: EditModal): (r: (EditModal, Option<Cita>))
    ensures r.0.errors == ValidateForm(m.form.data) && r.0.form == m.form
    ensures r.1.Some? <==> FormValid(m.form.data)
    ensures r.1.Some? ==> r.1.value == m.form
  {
    var errors := ValidateForm(m.form.data);
    (m.(errors := errors), if NoErrors(errors) then Some(m.form) else None)
  }

  /** `handleClose`: the messages are cleared but the working copy is kept. */
  function HandleClose(m: EditModal): (r: EditModal)
    ensures r.form == m.form && NoErrors(r.errors)
  {
    m.(errors := map[])
  }

  /** A run of field edits. */
  function ApplyEdits(m: EditModal, edits: seq<(Field, string)>): EditModal
    decreases |edits|
  {
    if |edits| == 0 then m else ApplyEdits(UpdateFormData(m, edits[0].0, edits[0].1), edits[1..])
  }

  /**
   * Whatever the user types, the copy keeps the loaded cita's id, creation date
   * and visit extras, and a field never edited keeps its loaded value; so a
   * submitted cita replaces the one it was loaded from.
   */
  lemma {:induction false} EditsKeepIdentity(m: EditModal, edits: seq<(Field, string)>)
    ensures var r := ApplyEdits(m, edits).form;
            && r.id == m.form.id && r.fechaCreacion == m.form.fechaCreacion && r.documento == m.form.documento
            && forall g :: (forall i | 0 <= i < |edits| :: edits[i].0 != g) ==> Get(r.data, g) == Get(m.form.data, g)
    decreases |edits|
  {
    if |edits| > 0 {
      var m' := UpdateFormData(m, edits[0].0, edits[0].1);
      EditsKeepIdentity(m', edits[1..]);
      forall g | (forall i | 0 <= i < |edits| :: edits[i].0 != g)
        ensures Get(ApplyEdits(m, edits).form.data, g) == Get(m.form.data, g)
      {
        assert edits[0].0 != g;
        assert forall i | 0 <= i < |edits[1..]| :: edits[1..][i].0 == edits[i + 1].0;
      }
    }
  }

  /** Submitting after loading `cita` and editing hands back a cita with `cita`'s id, or nothing. */
  lemma SubmittedCitaKeepsId(cita: Cita, errors: map<Field, string>, edits: seq<(Field, string)>)
    ensures var r := HandleSubmit(ApplyEdits(Load(EditModal(cita, errors), Some(cita)), edits)).1;
            r.Some? ==> r.value.id == cita.id && r.value.fechaCreacion == cita.fechaCreacion && FormValid(r.value.data)
  {
    EditsKeepIdentity(Load(EditModal(cita, errors), Some(cita)), edits);
  }
}
