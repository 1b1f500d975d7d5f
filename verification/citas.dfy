/**
 * The appointment ("cita") record shared by the page, the table and the forms,
 * the form fields, the four statuses, the messages of the validators and the
 * bookable hour slots.
 */
module Citas {
  import opened Options
  import opened Text
  import opened FormErrors

  /** The fields a user fills in: the creation wizard's whole form, and the editable part of a stored cita. */
  datatype CitaData = CitaData(
    cliente: string,
    telefono: string,
    email: string,
    fecha: string,
    hora: string,
    propiedad: string,
    notas: string,
    estado: string)

  /** The extra fields a public visit request carries along (`tipoDocumento`, `numeroDocumento`, `mensaje`). */
  datatype Documento = Documento(tipo: string, numero: string, mensaje: string)

  /** A stored appointment: an id and creation date added at creation, the form data, and the visit extras when it came from the public form. */
  datatype Cita = Cita(id: int, fechaCreacion: string, data: CitaData, documento: Option<Documento>)

  /** What the public visit form hands to the page: a cita without id and creation date. */
  datatype VisitRequest = VisitRequest(data: CitaData, documento: Documento)

  /** The field names `updateFormData` is called with. */
  datatype Field = Cliente | Telefono | Email | Fecha | Hora | Propiedad | Notas | Estado

  function Get(d: CitaData, f: Field): string
  {
    match f
    case Cliente => d.cliente
    case Telefono => d.telefono
    case Email => d.email
    case Fecha => d.fecha
    case Hora => d.hora
    case Propiedad => d.propiedad
    case Notas => d.notas
    case Estado => d.estado
  }

  /** `{...d, [f]: v}`: the named field takes the value, every other field keeps its own. */
  function Set(d: CitaData, f: Field, v: string): (r: CitaData)
    ensures Get(r, f) == v
    ensures forall g :: g != f ==> Get(r, g) == Get(d, g)
  {
    match f
    case Cliente => d.(cliente := v)
    case Telefono => d.(telefono := v)
    case Email => d.(email := v)
    case Fecha => d.(fecha := v)
    case Hora => d.(hora := v)
    case Propiedad => d.(propiedad := v)
    case Notas => d.(notas := v)
    case Estado => d.(estado := v)
  }

  /** A form is determined by its fields, so `Set` of a field's current value changes nothing. */
  lemma SameFieldsSameData(a: CitaData, b: CitaData)
    requires forall f :: Get(a, f) == Get(b, f)
    ensures a == b
  {
    assert Get(a, Cliente) == Get(b, Cliente) && Get(a, Telefono) == Get(b, Telefono);
    assert Get(a, Email) == Get(b, Email) && Get(a, Fecha) == Get(b, Fecha);
    assert Get(a, Hora) == Get(b, Hora) && Get(a, Propiedad) == Get(b, Propiedad);
    assert Get(a, Notas) == Get(b, Notas) && Get(a, Estado) == Get(b, Estado);
  }

  const Programada: string := "programada"
  const Confirmada: string := "confirmada"
  const Cancelada: string := "cancelada"
  const Completada: string := "completada"

  /** The four statuses a cita can have. */
  predicate KnownStatus(estado: string)
  {
    estado == Programada || estado == Confirmada || estado == Cancelada || estado == Completada
  }

  /** The creation form's initial value: everything empty, status "programada". */
  const DefaultForm: CitaData := CitaData("", "", "", "", "", "", "", Programada)

  const ClienteRequerido: string := "El nombre del cliente es requerido"
  const TelefonoRequerido: string := "El teléfono es requerido"
  const EmailRequerido: string := "El email es requerido"
  const EmailInvalido: string := "Email inválido"
  const FechaRequerida: string := "La fecha es requerida"
  const HoraRequerida: string := "La hora es requerida"
  const PropiedadRequerida: string := "La propiedad es requerida"

  /**
   * The message shown under a failing field: "required" for an empty one, and for
   * a non-blank email without the pattern "invalid". Notes and status are never checked.
   */
  function Message(f: Field, d: CitaData): string
  {
    match f
    case Cliente => ClienteRequerido
    case Telefono => TelefonoRequerido
    case Email => if Blank(d.email) then EmailRequerido else EmailInvalido
    case Fecha => FechaRequerida
    case Hora => HoraRequerida
    case Propiedad => PropiedadRequerida
    case Notas => ""
    case Estado => ""
  }

  /** The client checks (wizard step 1; first three checks of the edit form), added to `e`. */
  function ClienteChecks(e: map<Field, string>, d: CitaData): (r: map<Field, string>)
    ensures r.Keys == e.Keys + ClienteFailures(d)
    ensures forall k | k in ClienteFailures(d) :: r[k] == Message(k, d)
    ensures forall k | k in e && k !in ClienteFailures(d) :: r[k] == e[k]
  {
    var e := Require(e, Cliente, Blank(d.cliente), ClienteRequerido);
    var e := Require(e, Telefono, Blank(d.telefono), TelefonoRequerido);
    if Blank(d.email) then Require(e, Email, true, EmailRequerido)
    else Require(e, Email, !EmailLike(d.email), EmailInvalido)
  }

  /** The client fields that fail: blank name or phone, blank or pattern-less email. */
  function ClienteFailures(d: CitaData): set<Field>
  {
    (if Blank(d.cliente) then {Cliente} else {})
      + (if Blank(d.telefono) then {Telefono} else {})
      + (if Blank(d.email) || !EmailLike(d.email) then {Email} else {})
  }

  /** The date and hour checks (wizard step 2), added to `e`: an empty string is missing, spaces are not. */
  function ScheduleChecks(e: map<Field, string>, d: CitaData): (r: map<Field, string>)
    ensures r.Keys == e.Keys + ScheduleFailures(d)
    ensures forall k | k in ScheduleFailures(d) :: r[k] == Message(k, d)
    ensures forall k | k in e && k !in ScheduleFailures(d) :: r[k] == e[k]
  {
    var e := Require(e, Fecha, |d.fecha| == 0, FechaRequerida);
    Require(e, Hora, |d.hora| == 0, HoraRequerida)
  }

  function ScheduleFailures(d: CitaData): set<Field>
  {
    (if |d.fecha| == 0 then {Fecha} else {}) + (if |d.hora| == 0 then {Hora} else {})
  }

  /** The property check (wizard step 3), added to `e`. */
  function PropiedadChecks(e: map<Field, string>, d: CitaData): (r: map<Field, string>)
    ensures r.Keys == e.Keys + PropiedadFailures(d)
    ensures forall k | k in PropiedadFailures(d) :: r[k] == Message(k, d)
    ensures forall k | k in e && k !in PropiedadFailures(d) :: r[k] == e[k]
  {
    Require(e, Propiedad, Blank(d.propiedad), PropiedadRequerida)
  }

  function PropiedadFailures(d: CitaData): set<Field>
  {
    if Blank(d.propiedad) then {Propiedad} else {}
  }

  /** The bookable half-hour slots offered by every form. */
  const AvailableHours: seq<string> := [
    "08:00", "08:30", "09:00", "09:30", "10:00", "10:30",
    "11:00", "11:30", "14:00", "14:30", "15:00", "15:30",
    "16:00", "16:30", "17:00", "17:30"
  ]

  /** Minutes after midnight of an `HH:MM` text. */
  function SlotMinutes(h: string): int
    requires |h| == 5
  {
    600 * (h[0] as int - '0' as int) + 60 * (h[1] as int - '0' as int)
      + 10 * (h[3] as int - '0' as int) + (h[4] as int - '0' as int)
  }

  /** The start of slot `i`: 08:00 to 11:30, then 14:00 to 17:30, every 30 minutes. */
  function SlotStart(i: int): int
  {
    if i < 8 then 8 * 60 + 30 * i else 14 * 60 + 30 * (i - 8)
  }

  /** There are 16 slots, morning then afternoon, in strictly increasing order. */
  lemma AvailableHoursShape()
    ensures |AvailableHours| == 16
    ensures forall i | 0 <= i < 16 ::
              |AvailableHours[i]| == 5 && AvailableHours[i][2] == ':' && SlotMinutes(AvailableHours[i]) == SlotStart(i)
    ensures forall i, j | 0 <= i < j < 16 :: SlotMinutes(AvailableHours[i]) < SlotMinutes(AvailableHours[j])
  {
    forall i | 0 <= i < 16
      ensures |AvailableHours[i]| == 5 && AvailableHours[i][2] == ':' && SlotMinutes(AvailableHours[i]) == SlotStart(i)
    {
      if i < 4 {} else if i < 8 {} else if i < 12 {} else {}
    }
  }
}
