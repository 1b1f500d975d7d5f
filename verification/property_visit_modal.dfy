/**
 * The public form for booking a visit to a property: identity document, contact
 * details, a calendar that also disables Sundays, an hour slot and a message.
 * On success it hands the page a cita-shaped request whose property is the
 * property's title and whose notes summarise the document and the message.
 */
module PropertyVisitModal {
  import opened Options
  import opened Text
  import opened FormErrors
  import opened Dates
  import opened Calendar
  import Citas
  import EditCitaModal

  /** The form's fields, as named in `updateFormData` calls. */
  datatype VisitField = NombreCompleto | TipoDocumento | NumeroDocumento | Telefono | Email | Fecha | Hora | Mensaje

  datatype VisitForm = VisitForm(
    nombreCompleto: string,
    tipoDocumento: string,
    numeroDocumento: string,
    telefono: string,
    email: string,
    fecha: string,
    hora: string,
    mensaje: string)

  function Get(f: VisitForm, field: VisitField): string
  {
    match field
    case NombreCompleto => f.nombreCompleto
    case TipoDocumento => f.tipoDocumento
    case NumeroDocumento => f.numeroDocumento
    case Telefono => f.telefono
    case Email => f.email
    case Fecha => f.fecha
    case Hora => f.hora
    case Mensaje => f.mensaje
  }

  /** `{...prev, [field]: value}`. */
  function Set(f: VisitForm, field: VisitField, v: string): (r: VisitForm)
    ensures Get(r, field) == v
    ensures forall g :: g != field ==> Get(r, g) == Get(f, g)
  {
    match field
    case NombreCompleto => f.(nombreCompleto := v)
    case TipoDocumento => f.(tipoDocumento := v)
    case NumeroDocumento => f.(numeroDocumento := v)
    case Telefono => f.(telefono := v)
    case Email => f.(email := v)
    case Fecha => f.(fecha := v)
    case Hora => f.(hora := v)
    case Mensaje => f.(mensaje := v)
  }

  /** The initial and the reset form: everything empty, document type "cedula". */
  const DefaultForm: VisitForm := VisitForm("", "cedula", "", "", "", "", "", "")

  /** The document types offered by the select: value and label. */
  const TiposDocumento: seq<(string, string)> := [
    ("cedula", "Cédula de Ciudadanía"),
    ("cedula_extranjeria", "Cédula de Extranjería"),
    ("pasaporte", "Pasaporte"),
    ("tarjeta_identidad", "Tarjeta de Identidad")
  ]

  /** `tiposDocumento.find(t => t.value === tipo)?.label`: the first entry with that value, if any. */
  function FindLabel(tipos: seq<(string, string)>, tipo: string): (r: Option<string>)
    ensures r.None? <==> forall i | 0 <= i < |tipos| :: tipos[i].0 != tipo
    ensures r.Some? ==> exists i | 0 <= i < |tipos| :: tipos[i] == (tipo, r.value) && forall j | 0 <= j < i :: tipos[j].0 != tipo
    decreases |tipos|
  {
    if |tipos| == 0 then None
    else if tipos[0].0 == tipo then Some(tipos[0].1)
    else
      var r := FindLabel(tipos[1..], tipo);
      assert forall i | 1 <= i < |tipos| :: tipos[i] == tipos[1..][i - 1];
      if r.Some? then
        var i :| 0 <= i < |tipos[1..]| && tipos[1..][i] == (tipo, r.value) && forall j | 0 <= j < i :: tipos[1..][j].0 != tipo;
        assert tipos[i + 1] == (tipo, r.value) && forall j | 0 <= j < i + 1 :: tipos[j].0 != tipo;
        r
      else r
  }

  /** The label as the template literal prints it: a missing one prints as "undefined". */
  function LabelText(tipo: string): (s: string)
    ensures tipo == "cedula" ==> s == "Cédula de Ciudadanía"
    ensures tipo == "pasaporte" ==> s == "Pasaporte"
    ensures (forall i | 0 <= i < |TiposDocumento| :: TiposDocumento[i].0 != tipo) ==> s == "undefined"
  {
    FindLabel(TiposDocumento, tipo).GetOr("undefined")
  }

  const NombreRequerido: string := "El nombre completo es requerido"
  const DocumentoRequerido: string := "El número de documento es requerido"

  /** The message shown under a failing field; the type and the message are never checked. */
  function Message(field: VisitField, f: VisitForm): string
  {
    match field
    case NombreCompleto => NombreRequerido
    case NumeroDocumento => DocumentoRequerido
    case Telefono => Citas.TelefonoRequerido
    case Email => if Blank(f.email) then Citas.EmailRequerido else Citas.EmailInvalido
    case Fecha => Citas.FechaRequerida
    case Hora => Citas.HoraRequerida
    case TipoDocumento => ""
    case Mensaje => ""
  }

  /** `validateForm`: the same client, date and hour checks as the wizard, plus the name and the document number. */
  function ValidateForm(f: VisitForm): (errors: map<VisitField, string>)
    ensures errors.Keys == IdentityFailures(f) + ContactFailures(f)
    ensures forall k | k in errors :: errors[k] == Message(k, f)
  {
    ContactChecks(IdentityChecks(map[], f), f)
  }

  /** The name and document-number checks, added to `e`. */
  function IdentityChecks(e: map<VisitField, string>, f: VisitForm): (r: map<VisitField, string>)
    ensures r.Keys == e.Keys + IdentityFailures(f)
    ensures forall k | k in IdentityFailures(f) :: r[k] == Message(k, f)
    ensures forall k | k in e && k !in IdentityFailures(f) :: r[k] == e[k]
  {
    var e := Require(e, NombreCompleto, Blank(f.nombreCompleto), NombreRequerido);
    Require(e, NumeroDocumento, Blank(f.numeroDocumento), DocumentoRequerido)
  }

  /** The phone, email, date and hour checks, added to `e`. */
  function ContactChecks(e: map<VisitField, string>, f: VisitForm): (r: map<VisitField, string>)
    ensures r.Keys == e.Keys + ContactFailures(f)
    ensures forall k | k in ContactFailures(f) :: r[k] == Message(k, f)
    ensures forall k | k in e && k !in ContactFailures(f) :: r[k] == e[k]
  {
    ScheduleChecks(ReachChecks(e, f), f)
  }

  /** The phone and email checks, added to `e`. */
  function ReachChecks(e: map<VisitField, string>, f: VisitForm): (r: map<VisitField, string>)
    ensures r.Keys == e.Keys + ReachFailures(f)
    ensures forall k | k in ReachFailures(f) :: r[k] == Message(k, f)
    ensures forall k | k in e && k !in ReachFailures(f) :: r[k] == e[k]
  {
    var e := Require(e, Telefono, Blank(f.telefono), Citas.TelefonoRequerido);
    if Blank(f.email) then Require(e, Email, true, Citas.EmailRequerido)
    else Require(e, Email, !EmailLike(f.email), Citas.EmailInvalido)
  }

  /** The date and hour checks, added to `e`. */
  function ScheduleChecks(e: map<VisitField, string>, f: VisitForm): (r: map<VisitField, string>)
    ensures r.Keys == e.Keys + ScheduleFailures(f)
    ensures forall k | k in ScheduleFailures(f) :: r[k] == Message(k, f)
    ensures forall k | k in e && k !in ScheduleFailures(f) :: r[k] == e[k]
  {
    var e := Require(e, Fecha, |f.fecha| == 0, Citas.FechaRequerida);
    Require(e, Hora, |f.hora| == 0, Citas.HoraRequerida)
  }

  /** The name and document checks that fail. */
  function IdentityFailures(f: VisitForm): set<VisitField>
  {
    (if Blank(f.nombreCompleto) then {NombreCompleto} else {})
      + (if Blank(f.numeroDocumento) then {NumeroDocumento} else {})
  }

  /** The contact and schedule checks that fail. */
  function ContactFailures(f: VisitForm): set<VisitField>
  {
    ReachFailures(f) + ScheduleFailures(f)
  }

  function ReachFailures(f: VisitForm): set<VisitField>
  {
    (if Blank(f.telefono) then {Telefono} else {})
      + (if Blank(f.email) || !EmailLike(f.email) then {Email} else {})
  }

  function ScheduleFailures(f: VisitForm): set<VisitField>
  {
    (if |f.fecha| == 0 then {Fecha} else {}) + (if |f.hora| == 0 then {Hora} else {})
  }

  predicate FormValid(f: VisitForm)
  {
    NoErrors(ValidateForm(f))
  }

  /** The form passes exactly when the name, document number, phone and email are filled, the email matches, and a date and hour are chosen; the type and the message are never checked. */
  lemma FormValidIff(f: VisitForm)
    ensures FormValid(f) <==>
              && !Blank(f.nombreCompleto) && !Blank(f.numeroDocumento) && !Blank(f.telefono)
              && !Blank(f.email) && EmailLike(f.email) && |f.fecha| > 0 && |f.hora| > 0
  {
    var e := ValidateForm(f);
    if !FormValid(f) {
      var k :| k in e;
      assert k in IdentityFailures(f) + ContactFailures(f);
    }
  }

  /** The property the form was opened for; a missing or empty title is falsy. */
  datatype Property = Property(title: Option<string>)

  const SinPropiedad: string := "Propiedad no especificada"

  /** `property?.title || 'Propiedad no especificada'`. */
  function PropertyName(p: Option<Property>): (s: string)
    ensures (p.Some? && p.value.title.Some? && p.value.title.value != "") ==> s == p.value.title.value
    ensures !(p.Some? && p.value.title.Some? && p.value.title.value != "") ==> s == SinPropiedad
    ensures s != ""
  {
    if p.Some? && p.value.title.Some? && p.value.title.value != "" then p.value.title.value else SinPropiedad
  }

  /** The notes of the cita: document type label and number, then the message when there is one. */
  function Notes(f: VisitForm): string
  {
    "Tipo de documento: " + LabelText(f.tipoDocumento) + ", Número: " + f.numeroDocumento + ". "
      + (if f.mensaje != "" then "Mensaje: " + f.mensaje else "")
  }

  /** The notes begin with the document summary and end with the message, so both can be read back from them. */
  lemma NotesShape(f: VisitForm)
    ensures var n := Notes(f);
            var head := "Tipo de documento: " + LabelText(f.tipoDocumento) + ", Número: " + f.numeroDocumento + ". ";
            && |n| >= |head| && n[..|head|] == head
            && (f.mensaje == "" ==> n == head)
            && (f.mensaje != "" ==> n[|head|..] == "Mensaje: " + f.mensaje)
  {
  }

  /** What `onSubmit` receives: the cita fields, status "programada", and the document details. */
  function RequestOf(f: VisitForm, p: Option<Property>): (r: Citas.VisitRequest)
    ensures r.data.cliente == f.nombreCompleto && r.data.telefono == f.telefono && r.data.email == f.email
    ensures r.data.fecha == f.fecha && r.data.hora == f.hora
    ensures r.data.propiedad == PropertyName(p) && r.data.notas == Notes(f)
    ensures r.data.estado == Citas.Programada
    ensures r.documento == Citas.Documento(f.tipoDocumento, f.numeroDocumento, f.mensaje)
  {
    Citas.VisitRequest(
      Citas.CitaData(f.nombreCompleto, f.telefono, f.email, f.fecha, f.hora, PropertyName(p), Notes(f), Citas.Programada),
      Citas.Documento(f.tipoDocumento, f.numeroDocumento, f.mensaje))
  }

  /** The modal's state: the displayed month, the form and the field messages. */
  datatype VisitModal = VisitModal(currentMonth: Date, form: VisitForm, errors: map<VisitField, string>)

  /** On mount: the month of `now`, the default form, no messages. */
  function Mount(now: Date): (m: VisitModal)
    requires ValidDate(now)
    ensures ValidDate(m.currentMonth) && m.form == DefaultForm && NoErrors(m.errors)
  {
    VisitModal(now, DefaultForm, map[])
  }

  /** `handleClose`: the form and the messages are reset; the displayed month is kept. */
  function HandleClose(m: VisitModal): (r: VisitModal)
    ensures r.currentMonth == m.currentMonth && r.form == DefaultForm && NoErrors(r.errors)
  {
    m.(form := DefaultForm, errors := map[])
  }

  /** `handleSubmit`: the messages become the validator's; a valid form is handed over and the modal reset. */
  function HandleSubmit(m: VisitModal, p: Option<Property>): (r: (VisitModal, Option<Citas.VisitRequest>))
    ensures r.1.Some? <==> FormValid(m.form)
    ensures r.1.Some? ==> r.1.value == RequestOf(m.form, p) && r.0 == HandleClose(m)
    ensures r.1.None? ==> r.0 == m.(errors := ValidateForm(m.form))
  {
    var errors := ValidateForm(m.form);
    if NoErrors(errors) then (HandleClose(m), Some(RequestOf(m.form, p))) else (m.(errors := errors), None)
  }

  /** `updateFormData(field, value)`. */
  function UpdateFormData(m: VisitModal, field: VisitField, value: string): (r: VisitModal)
    ensures Get(r.form, field) == value
    ensures forall g :: g != field ==> Get(r.form, g) == Get(m.form, g)
    ensures r.currentMonth == m.currentMonth && r.errors == ClearError(m.errors, field)
  {
    m.(form := Set(m.form, field, value), errors := ClearError(m.errors, field))
  }

  /** The cells on screen: past days and Sundays of the displayed month are disabled. */
  function Days(m: VisitModal, today: Date): (days: seq<CalendarDay>)
    requires ValidDate(m.currentMonth)
    ensures |days| == 42
    ensures forall k | 0 <= k < 42 :: ValidDate(days[k].date)
  {
    forall k | 0 <= k < 42
      ensures ValidDate(Grid(m.currentMonth, today, PastAndSundays)[k].date)
    {
      SelectableDaysAreBookable(m.currentMonth, today, PastAndSundays, k);
    }
    Grid(m.currentMonth, today, PastAndSundays)
  }

  /** `handleDateSelect(day)`: a disabled cell changes nothing; an enabled one sets `fecha` to its ISO date. */
  function HandleDateSelect(m: VisitModal, cell: CalendarDay): (r: VisitModal)
    requires ValidDate(cell.date)
    ensures cell.isDisabled ==> r == m
    ensures !cell.isDisabled ==> r == UpdateFormData(m, Fecha, SelectDate(cell).value)
  {
    match SelectDate(cell)
    case None => m
    case Some(iso) => UpdateFormData(m, Fecha, iso)
  }

  /** `navigateMonth(direction)`, with the month arithmetic corrected (see `Calendar.NavigateMonth`). */
  function NavigateMonth(m: VisitModal, direction: int): (r: VisitModal)
    ensures ValidDate(r.currentMonth)
    ensures MonthIndex(MonthOf(r.currentMonth)) == MonthIndex(MonthOf(m.currentMonth)) + direction
    ensures r.form == m.form && r.errors == m.errors
  {
    m.(currentMonth := Calendar.NavigateMonth(m.currentMonth, direction))
  }

  /** A click on any cell either changes nothing or sets `fecha` to a day of the displayed month that is neither past nor a Sunday. */
  lemma PickedDateIsBookable(m: VisitModal, today: Date, k: int)
    requires ValidDate(m.currentMonth) && 0 <= k < 42 && 0 <= m.currentMonth.year <= 9999
    ensures var r := HandleDateSelect(m, Days(m, today)[k]);
            r == m ||
            exists d: Date | ParseIsoDate(r.form.fecha) == Some(d) ::
              MonthOf(d) == MonthOf(m.currentMonth) && !Before(d, today) && Weekday(d) != 0
  {
    var cell := Days(m, today)[k];
    SelectableDaysAreBookable(m.currentMonth, today, PastAndSundays, k);
    if !cell.isDisabled {
      var d := cell.date;
      assert MonthOf(d) == MonthOf(m.currentMonth);
      assert d.year == m.currentMonth.year;
      assert ParseIsoDate(HandleDateSelect(m, cell).form.fecha) == Some(d);
    }
  }

  /**
   * A request this form accepts is also a valid cita for the edit form, as long
   * as the property title is missing or not made of spaces only (the title
   * itself is never checked).
   */
  lemma AcceptedRequestIsValidCita(f: VisitForm, p: Option<Property>)
    requires FormValid(f)
    requires !(p.Some? && p.value.title.Some? && p.value.title.value != "" && Blank(p.value.title.value))
    ensures EditCitaModal.FormValid(RequestOf(f, p).data)
  {
    FormValidIff(f);
    var d := RequestOf(f, p).data;
    assert !Blank(SinPropiedad);
    assert !Blank(d.propiedad);
    EditCitaModal.FormValidIff(d);
  }
}
