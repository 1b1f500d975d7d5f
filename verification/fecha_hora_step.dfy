/**
 * The date-and-hour step of the creation wizard: a month calendar whose past
 * days are disabled, the selected date kept as `YYYY-MM-DD`, and the sixteen
 * hour slots. Each selection is handed to the wizard as a field update.
 */
module FechaHoraStep {
  import opened Options
  import opened Dates
  import opened Calendar
  import opened Citas
  import CreateCitaModal

  /** The step's own state: the displayed month (any date inside it) and the highlighted date. */
  datatype DateStep = DateStep(currentMonth: Date, selectedDate: string)

  /** On mount the calendar shows the month of `now` and highlights the form's current `fecha`. */
  function Mount(form: CitaData, now: Date): (s: DateStep)
    requires ValidDate(now)
    ensures ValidDate(s.currentMonth) && MonthOf(s.currentMonth) == MonthOf(now)
    ensures s.selectedDate == form.fecha
  {
    DateStep(now, form.fecha)
  }

  /** The cells on screen: past days disabled, Sundays allowed. */
  function Days(s: DateStep, today: Date): (days: seq<CalendarDay>)
    requires ValidDate(s.currentMonth)
    ensures |days| == 42
    ensures forall k | 0 <= k < 42 :: ValidDate(days[k].date) && days[k].isSunday == false
  {
    GridFlagsNoSunday(s.currentMonth, today);
    Grid(s.currentMonth, today, PastOnly)
  }

  lemma GridFlagsNoSunday(reference: Date, today: Date)
    requires 1 <= reference.month <= 12
    ensures forall k | 0 <= k < 42 :: ValidDate(Grid(reference, today, PastOnly)[k].date) && Grid(reference, today, PastOnly)[k].isSunday == false
  {
    forall k | 0 <= k < 42
      ensures ValidDate(Grid(reference, today, PastOnly)[k].date) && Grid(reference, today, PastOnly)[k].isSunday == false
    {
      GridAt(reference, today, PastOnly, k);
      SelectableDaysAreBookable(reference, today, PastOnly, k);
    }
  }

  /**
   * `handleDateSelect(day)`: a disabled cell changes nothing; an enabled one
   * becomes the highlighted date and is handed to the wizard as `fecha`.
   */
  function HandleDateSelect(s: DateStep, cell: CalendarDay): (r: (DateStep, Option<CreateCitaModal.Action>))
    requires ValidDate(cell.date)
    ensures cell.isDisabled ==> r == (s, None)
    ensures !cell.isDisabled ==>
              && r.1.Some? && r.1.value.Edit? && r.1.value.field == Fecha
              && r.0 == s.(selectedDate := r.1.value.value)
              && (0 <= cell.date.year <= 9999 ==> ParseIsoDate(r.1.value.value) == Some(cell.date))
  {
    match SelectDate(cell)
    case None => (s, None)
    case Some(iso) => (s.(selectedDate := iso), Some(CreateCitaModal.Edit(Fecha, iso)))
  }

  /** `handleHourSelect(hour)`: the slot is handed to the wizard as `hora`. */
  function HandleHourSelect(hour: string): (a: CreateCitaModal.Action)
    ensures a.Edit? && a.field == Hora && a.value == hour
    ensures CreateCitaModal.StepOf(a.field) == 2
  {
    CreateCitaModal.Edit(Hora, hour)
  }

  /** `navigateMonth(direction)`, with the month arithmetic corrected (see `Calendar.NavigateMonth`); the highlighted date stays. */
  function NavigateMonth(s: DateStep, direction: int): (r: DateStep)
    ensures ValidDate(r.currentMonth)
    ensures MonthIndex(MonthOf(r.currentMonth)) == MonthIndex(MonthOf(s.currentMonth)) + direction
    ensures r.selectedDate == s.selectedDate
  {
    s.(currentMonth := Calendar.NavigateMonth(s.currentMonth, direction))
  }

  /**
   * Picking an enabled day and any hour slot on the date step makes the step
   * pass: both updates are offered on step 2, and neither text is empty.
   */
  lemma DateAndHourCompleteTheStep(w: CreateCitaModal.Wizard, s: DateStep, today: Date, k: int, i: int)
    requires w.step == 2 && ValidDate(s.currentMonth) && 0 <= k < 42 && 0 <= i < |AvailableHours|
    requires !Days(s, today)[k].isDisabled
    ensures var cell := Days(s, today)[k];
            var pick := HandleDateSelect(s, cell).1.value;
            var hour := HandleHourSelect(AvailableHours[i]);
            && CreateCitaModal.Offered(w, pick)
            && CreateCitaModal.Offered(CreateCitaModal.Apply(w, pick).0, hour)
            && CreateCitaModal.StepValid(2, CreateCitaModal.Apply(CreateCitaModal.Apply(w, pick).0, hour).0.form)
  {
    var cell := Days(s, today)[k];
    SelectableDaysAreBookable(s.currentMonth, today, PastOnly, k);
    AvailableHoursShape();
    var iso := IsoDate(cell.date);
    assert HandleDateSelect(s, cell).1.value == CreateCitaModal.Edit(Fecha, iso);
  }
}
