# Appointments dashboard of a real-estate site, in Dafny

This project models the appointment ("cita") logic of a React real-estate dashboard and proves properties of it. It covers:

- the appointments page: search and status filters, the five counters, ten-per-page pagination, and creating, editing and deleting citas;
- the table's status badges and pagination buttons;
- the four-step creation wizard and its date-and-hour step;
- the edit form;
- the public form for booking a property visit;
- the month calendar. Two components render it; they differ only in which days they disable.

Layout, one module per file:

| module | models |
|---|---|
| `Options` | the `undefined`-or-value results of `find` and optional props |
| `Text` | `trim`, the whitespace class `\s`/`\S`, `toLowerCase`, `includes`, the email test `/\S+@\S+\.\S+/`, fixed-width digits |
| `Seqs` | `Array.prototype.filter`, `Array.prototype.slice`, `Math.ceil(n / d)` |
| `Dates` | the Gregorian calendar, with dates as `(year, month 1..12, day)` triples: `getDay`, days in a month, month arithmetic, `YYYY-MM-DD` text |
| `Calendar` | `getDaysInMonth` (both variants, as one `Grid` with a `Policy`), `handleDateSelect`, `navigateMonth` |
| `FormErrors` | the per-field message objects of the validators and `updateFormData`'s message clearing |
| `Citas` | the cita record, its form fields, the statuses, the messages, the group checks shared by the validators, and the hour slots |
| `EditCitaModal`, `CreateCitaModal`, `FechaHoraStep`, `PropertyVisitModal`, `CitasTable`, `CitasPage` | the components of the same names |

Every handler is a pure state transition. Values that come from the environment are parameters:

- "today" and the current date behind `new Date()`;
- the fresh id from `Date.now()`;
- the creation date;
- the property the visit form is opened for.

## Model

| member | source | states |
|---|---|---|
| Calendar.Grid | src/features/dashboard/components/citas/steps/FechaHoraStep.jsx:21-67 | the grid always has 42 cells |
| Calendar.TrailingCountRange | src/features/properties/components/PropertyVisitModal.jsx:61-102 | at most 37 cells are leading or in the month, so 5 to 14 next-month cells complete the grid |
| Calendar.GridConsecutive | src/features/dashboard/components/citas/steps/FechaHoraStep.jsx:31-64 | every cell holds a real date, and each cell is the day after the one before it (previous-month tail, the month, next-month head) |
| Calendar.GridDayNumbers | src/features/dashboard/components/citas/steps/FechaHoraStep.jsx:31-64 | cell `k` is exactly `k` days after cell 0 |
| Calendar.GridStartsOnSunday | src/features/dashboard/components/citas/steps/FechaHoraStep.jsx:27-39 | cell 0 falls on a Sunday |
| Calendar.GridWeekdays | src/features/properties/components/PropertyVisitModal.jsx:61-102 | cell `k` falls on weekday `k % 7`, so each column of the table is one weekday |
| Calendar.GridMonthCells | src/features/properties/components/PropertyVisitModal.jsx:76-91 | a cell is marked current-month exactly when its date lies in the displayed month, and those cells are days 1 to the month's length, in order |
| Calendar.GridFlags | src/features/properties/components/PropertyVisitModal.jsx:66-102 | a current-month cell is disabled exactly when it is before today or (visit variant) a Sunday; other cells are always disabled and never today; `isSunday` marks exactly the current-month Sundays of the visit variant |
| Calendar.GridToday | src/features/dashboard/components/citas/steps/FechaHoraStep.jsx:42-52 | `isToday` marks exactly one cell, today's, when today is in the displayed month, and no cell otherwise |
| Calendar.PoliciesDifferOnlyOnSundays | src/features/properties/components/PropertyVisitModal.jsx:81-89 | the two variants agree on dates and flags, except that the visit variant also disables and marks the month's Sundays |
| Calendar.SelectDate | src/features/dashboard/components/citas/steps/FechaHoraStep.jsx:84-90 | a disabled cell yields nothing; an enabled one yields a `YYYY-MM-DD` text that reads back as the cell's date |
| Calendar.SelectableDaysAreBookable | src/features/properties/components/PropertyVisitModal.jsx:170-175 | any day that can be selected is in the displayed month, not before today, and (visit variant) not a Sunday |
| Calendar.NavigateMonthAsWritten | src/features/dashboard/components/citas/steps/FechaHoraStep.jsx:96-102 | `setMonth(getMonth() + direction)`: for days up to the 28th the displayed month moves by `direction` months, with the year carried |
| Calendar.NavigateMonthAsWrittenSkipsForward | src/features/dashboard/components/citas/steps/FechaHoraStep.jsx:96-102 | from 2026-10-31, "next" shows December |
| Calendar.NavigateMonthAsWrittenStuckBackward | src/features/properties/components/PropertyVisitModal.jsx:177-183 | from 2025-03-31, "previous" shows March again |
| Calendar.NavigateMonth | src/features/dashboard/components/citas/steps/FechaHoraStep.jsx:96-102 | corrected navigation: the first day of the month exactly `direction` months away |
| Calendar.NavigateMonthInverse | src/features/properties/components/PropertyVisitModal.jsx:177-183 | with the correction, going forward then back (or back then forward) returns to the displayed month |
| Dates.DaysInMonth | src/features/dashboard/components/citas/steps/FechaHoraStep.jsx:25-26 | the length of a month (`new Date(y, m + 1, 0).getDate()`) is 28 to 31, and February has 29 days exactly in leap years |
| Dates.Weekday | src/features/dashboard/components/citas/steps/FechaHoraStep.jsx:27 | `getDay()` is 0 (Sunday) to 6 |
| Dates.WeekdayOfKnownDates | src/features/dashboard/components/citas/steps/FechaHoraStep.jsx:27 | 2024-01-01 and 2024-01-15 are Mondays and 2026-10-09 is a Friday, which anchors the weekday count |
| Dates.NextDayWeekday | src/features/dashboard/components/citas/steps/FechaHoraStep.jsx:42-44 | the day after any date is one weekday later |
| Dates.BeforeIffEarlier | src/features/dashboard/components/citas/steps/FechaHoraStep.jsx:50 | the comparison `date < today` of two midnights is the comparison of their day numbers |
| Dates.PrevNextInverse | src/features/dashboard/components/citas/steps/FechaHoraStep.jsx:31-64 | the previous and next months (`new Date(y, m, -i)`, `new Date(y, m + 1, d)`) are inverse, with the year carried |
| Dates.LastDayThenFirst | src/features/dashboard/components/citas/steps/FechaHoraStep.jsx:42-58 | the day after a month's last day is the next month's first day |
| Dates.IsoDateRoundTrip | src/features/dashboard/components/citas/steps/FechaHoraStep.jsx:69-71 | the `YYYY-MM-DD` text of a date reads back as the same date (years 0 to 9999) |
| Dates.IsoDateInjective | src/features/properties/components/PropertyVisitModal.jsx:423 | two dates with the same `YYYY-MM-DD` text are the same date, so comparing texts identifies the selected cell |
| Text.BlankIffAllSpace | src/features/dashboard/components/citas/EditCitaModal.jsx:46-52 | `!s.trim()` holds exactly when every character of `s` is whitespace |
| Text.TrimHasNoOuterSpace | src/features/dashboard/components/citas/CreateCitaModal.jsx:36-46 | a trimmed text neither starts nor ends with whitespace |
| Text.EmailLikeIffPattern | src/features/dashboard/components/citas/EditCitaModal.jsx:49 | the unanchored test `/\S+@\S+\.\S+/` holds exactly when some span of the text is non-spaces, `@`, non-spaces, `.`, non-spaces |
| Text.NoAtNoEmail | src/features/properties/components/PropertyVisitModal.jsx:118 | a text without `@` fails the email test |
| Text.LowerChar | src/features/dashboard/pages/citas/CitasPage.jsx:89-93 | `toLowerCase` moves an ASCII or Latin-1 capital 32 code points up, to a letter that is no longer a capital, and keeps every other character |
| Text.Lower | src/features/dashboard/pages/citas/CitasPage.jsx:89-93 | `toLowerCase` keeps the length, lowers each character on its own, and leaves no capital behind |
| Text.LowerIdempotent | src/features/dashboard/pages/citas/CitasPage.jsx:89-93 | lower-casing an already lower-cased text changes nothing |
| Text.LowerIgnoresCase | src/features/dashboard/pages/citas/CitasPage.jsx:89-93 | two texts that differ only in the case of their letters lower-case to the same text |
| Seqs.Filter | src/features/dashboard/pages/citas/CitasPage.jsx:89-97 | `filter` keeps exactly the elements that pass, and no more elements than it was given |
| Seqs.FilterCounts | src/features/dashboard/pages/citas/CitasPage.jsx:89-97 | `filter` keeps each passing element as many times as it occurs, and no failing one |
| Seqs.FilterIsSubsequence | src/features/dashboard/pages/citas/CitasPage.jsx:84-100 | `filter` keeps the order of what it keeps |
| Seqs.FilterTwice | src/features/dashboard/pages/citas/CitasPage.jsx:86-98 | filtering by one test and then another is filtering by both |
| Seqs.Slice | src/features/dashboard/pages/citas/CitasPage.jsx:116 | `slice(start, end)` with non-negative bounds is the part between them, clamped to the length |
| Seqs.CeilDiv | src/features/dashboard/pages/citas/CitasPage.jsx:117 | `Math.ceil(n / d)` is the least `r` with `r * d >= n` |
| FormErrors.Require | src/features/dashboard/components/citas/CreateCitaModal.jsx:36-46 | one check adds its field's message when the field fails, and changes nothing else |
| FormErrors.ClearError | src/features/dashboard/components/citas/CreateCitaModal.jsx:89-91 | typing blanks that field's message and keeps every other message |
| Citas.Set | src/features/dashboard/components/citas/CreateCitaModal.jsx:87-88 | `{...prev, [field]: value}` changes the named field only |
| Citas.ClienteChecks | src/features/dashboard/components/citas/CreateCitaModal.jsx:35-40 | the client checks add a message exactly for a blank name, a blank phone, and a blank or pattern-less email; the email message says "required" when blank and "invalid" otherwise; earlier messages are kept |
| Citas.ScheduleChecks | src/features/dashboard/components/citas/CreateCitaModal.jsx:41-44 | the schedule checks add the date or hour "required" message exactly for an empty date or hour |
| Citas.PropiedadChecks | src/features/dashboard/components/citas/CreateCitaModal.jsx:45-47 | the details check adds the property "required" message exactly for a blank property |
| Citas.AvailableHoursShape | src/features/dashboard/components/citas/steps/FechaHoraStep.jsx:8-12 | there are 16 slots, 08:00 to 11:30 and 14:00 to 17:30 every 30 minutes, in strictly increasing order |
| EditCitaModal.ValidateForm | src/features/dashboard/components/citas/EditCitaModal.jsx:43-56 | the fields with a message are exactly those failing the client, schedule and property checks, and each carries that field's message text |
| EditCitaModal.FormValidIff | src/features/dashboard/components/citas/EditCitaModal.jsx:43-56 | the edit form passes exactly when name, phone, email and property are not blank, the email matches, and date and hour are set |
| EditCitaModal.NotasAndEstadoUnchecked | src/features/dashboard/components/citas/EditCitaModal.jsx:43-56 | the notes and the status never affect validity |
| EditCitaModal.Load | src/features/dashboard/components/citas/EditCitaModal.jsx:35-41 | when a cita is given, the form becomes a copy of it; the messages stay |
| EditCitaModal.UpdateFormData | src/features/dashboard/components/citas/EditCitaModal.jsx:70-75 | the named field takes the value, other fields and the cita's id, creation date and document stay, and only that field's message is blanked |
| EditCitaModal.HandleSubmit | src/features/dashboard/components/citas/EditCitaModal.jsx:58-63 | the messages become the validator's, and the whole form is handed over exactly when it is valid |
| EditCitaModal.HandleClose | src/features/dashboard/components/citas/EditCitaModal.jsx:65-68 | the messages are cleared and the form is kept |
| EditCitaModal.EditsKeepIdentity | src/features/dashboard/components/citas/EditCitaModal.jsx:35-75 | after any edits the copy keeps the loaded id, creation date and document, and fields never edited keep their loaded value |
| EditCitaModal.SubmittedCitaKeepsId | src/features/dashboard/components/citas/EditCitaModal.jsx:35-63 | what a submit hands back has the loaded cita's id and creation date and passes validation |
| CreateCitaModal.ValidateStep | src/features/dashboard/components/citas/CreateCitaModal.jsx:31-52 | a step's messages are exactly the edit form's messages, same texts, for that step's fields; the summary step checks nothing |
| CreateCitaModal.ValidateStepIgnoresOtherFields | src/features/dashboard/components/citas/CreateCitaModal.jsx:31-52 | a step's verdict depends only on that step's fields |
| CreateCitaModal.StepsMakeUpValidateForm | src/features/dashboard/components/citas/CreateCitaModal.jsx:31-52 | a form passes all three steps exactly when it passes the edit form's validation |
| CreateCitaModal.HandleNext | src/features/dashboard/components/citas/CreateCitaModal.jsx:54-58 | the messages become the step's; the step advances to `min(step + 1, 4)` only when it passes |
| CreateCitaModal.HandlePrev | src/features/dashboard/components/citas/CreateCitaModal.jsx:60-62 | back to `max(step - 1, 1)`, without validating |
| CreateCitaModal.HandleSubmit | src/features/dashboard/components/citas/CreateCitaModal.jsx:64-69 | only the details step is validated; on success the form is handed over and the wizard reset, otherwise only the messages change |
| CreateCitaModal.HandleClose | src/features/dashboard/components/citas/CreateCitaModal.jsx:71-85 | back to step 1, the default form (status "programada") and no messages |
| CreateCitaModal.UpdateFormData | src/features/dashboard/components/citas/CreateCitaModal.jsx:87-92 | the named field takes the value, every other field stays, and only that field's message is blanked |
| CreateCitaModal.ApplyPreservesInv | src/features/dashboard/components/citas/CreateCitaModal.jsx:54-127 | every action the screen offers keeps the invariant "the step is 1 to 4 and every earlier step passes" |
| CreateCitaModal.SubmitFromSummary | src/features/dashboard/components/citas/CreateCitaModal.jsx:64-69 | on the summary, "create" always succeeds and hands over a form that passes the edit form's validation |
| CreateCitaModal.RunKeepsInv | src/features/dashboard/components/citas/CreateCitaModal.jsx:54-127 | any run of offered actions keeps the invariant, and every form it hands over passes the full validation |
| CreateCitaModal.StepStaysInRange | src/features/dashboard/components/citas/CreateCitaModal.jsx:11-62 | from the initial state the step stays between 1 and 4 |
| FechaHoraStep.Mount | src/features/dashboard/components/citas/steps/FechaHoraStep.jsx:6-7 | the calendar opens on the current month and highlights the form's date |
| FechaHoraStep.Days | src/features/dashboard/components/citas/steps/FechaHoraStep.jsx:104 | the step shows 42 cells of real dates and never marks a Sunday |
| FechaHoraStep.HandleDateSelect | src/features/dashboard/components/citas/steps/FechaHoraStep.jsx:84-90 | a disabled cell changes nothing; an enabled one becomes the highlighted date and is sent as `fecha`, reading back as the cell's date |
| FechaHoraStep.HandleHourSelect | src/features/dashboard/components/citas/steps/FechaHoraStep.jsx:92-94 | a slot is sent as `hora`, a field of the date step |
| FechaHoraStep.NavigateMonth | src/features/dashboard/components/citas/steps/FechaHoraStep.jsx:96-102 | the displayed month moves by `direction`; the highlighted date stays |
| FechaHoraStep.DateAndHourCompleteTheStep | src/features/dashboard/components/citas/steps/FechaHoraStep.jsx:84-94 | picking an enabled day and any slot are both offered on step 2 and make that step pass |
| PropertyVisitModal.Set | src/features/properties/components/PropertyVisitModal.jsx:163-164 | `{...prev, [field]: value}` changes the named field only |
| PropertyVisitModal.FindLabel | src/features/properties/components/PropertyVisitModal.jsx:136 | `find` yields the label of the first entry with the value, or nothing when no entry has it |
| PropertyVisitModal.LabelText | src/features/properties/components/PropertyVisitModal.jsx:48-136 | "cedula" is labelled "Cédula de Ciudadanía", and an unknown type prints as "undefined" |
| PropertyVisitModal.ValidateForm | src/features/properties/components/PropertyVisitModal.jsx:111-124 | the fields with a message are exactly the failing name, document-number, phone, email, date and hour fields, each with its text (required, or invalid for a filled email) |
| PropertyVisitModal.IdentityChecks | src/features/properties/components/PropertyVisitModal.jsx:113-114 | a name or document-number message is added exactly for a blank name or number, earlier messages kept |
| PropertyVisitModal.ReachChecks | src/features/properties/components/PropertyVisitModal.jsx:115-117 | a phone message is added exactly for a blank phone, an email message (required or invalid) exactly for a blank or pattern-less email |
| PropertyVisitModal.ScheduleChecks | src/features/properties/components/PropertyVisitModal.jsx:118-119 | a date or hour message is added exactly for an empty date or hour |
| PropertyVisitModal.FormValidIff | src/features/properties/components/PropertyVisitModal.jsx:111-124 | the form passes exactly when name, document number, phone and email are not blank, the email matches, and date and hour are set |
| PropertyVisitModal.PropertyName | src/features/properties/components/PropertyVisitModal.jsx:135 | the property is the title when it is a non-empty text, and "Propiedad no especificada" otherwise |
| PropertyVisitModal.NotesShape | src/features/properties/components/PropertyVisitModal.jsx:136 | the notes start with the document type and number and end with "Mensaje: " and the message, or with nothing when there is no message |
| PropertyVisitModal.RequestOf | src/features/properties/components/PropertyVisitModal.jsx:129-141 | the request copies name, phone, email, date and hour, has status "programada", and carries the document details |
| PropertyVisitModal.HandleSubmit | src/features/properties/components/PropertyVisitModal.jsx:126-146 | the request is handed over exactly when the form is valid, and then the form is reset |
| PropertyVisitModal.HandleClose | src/features/properties/components/PropertyVisitModal.jsx:148-161 | the form and messages are reset; the displayed month is kept |
| PropertyVisitModal.UpdateFormData | src/features/properties/components/PropertyVisitModal.jsx:163-168 | the named field takes the value, every other field stays, and only that field's message is blanked |
| PropertyVisitModal.HandleDateSelect | src/features/properties/components/PropertyVisitModal.jsx:170-175 | a disabled cell changes nothing; an enabled one sets `fecha` to its date text |
| PropertyVisitModal.NavigateMonth | src/features/properties/components/PropertyVisitModal.jsx:177-183 | the displayed month moves by `direction`; the form stays |
| PropertyVisitModal.PickedDateIsBookable | src/features/properties/components/PropertyVisitModal.jsx:55-175 | a click on any cell leaves the form unchanged or sets `fecha` to a day of the displayed month that is neither past nor a Sunday |
| PropertyVisitModal.AcceptedRequestIsValidCita | src/features/properties/components/PropertyVisitModal.jsx:126-141 | a request the visit form accepts passes the edit form's validation, unless the property title is made of spaces only |
| CitasPage.FilterCitas | src/features/dashboard/pages/citas/CitasPage.jsx:84-100 | the shown citas are exactly the citas of the list that match the term (if any) in name, property or email, ignoring case, and that have the chosen status (unless "all") |
| CitasPage.FilterCitasIsOneFilter | src/features/dashboard/pages/citas/CitasPage.jsx:84-100 | the two filter stages are one order-preserving filter by both tests |
| CitasPage.NoFilterShowsAll | src/features/dashboard/pages/citas/CitasPage.jsx:88-98 | an empty term with "all" shows the whole list |
| CitasPage.ComputeStats | src/features/dashboard/pages/citas/CitasPage.jsx:105-111 | the counters are the list's length and, for each status, the number of citas the status filter alone would show |
| CitasPage.StatsSumToTotal | src/features/dashboard/pages/citas/CitasPage.jsx:105-111 | when every cita has one of the four statuses, the four counters add up to the total |
| CitasPage.SeedStats | src/features/dashboard/pages/citas/CitasPage.jsx:30-111 | the mock list counts 4 citas, one of each status |
| CitasPage.SeedConfirmadas | src/features/dashboard/pages/citas/CitasPage.jsx:30-98 | choosing "confirmada" on the mock list shows María González's cita alone |
| CitasPage.SeedSearchIgnoresCase | src/features/dashboard/pages/citas/CitasPage.jsx:88-93 | searching "MARÍA" finds María González's cita |
| CitasPage.CurrentItems | src/features/dashboard/pages/citas/CitasPage.jsx:113-116 | page `p` shows the filtered citas from index `(p - 1) * 10` to `p * 10`, clamped to the list, and at most 10 |
| CitasPage.TotalPages | src/features/dashboard/pages/citas/CitasPage.jsx:117 | the page count is the least number of 10-row pages that hold the filtered list |
| CitasPage.EveryCitaOnItsPage | src/features/dashboard/pages/citas/CitasPage.jsx:113-117 | filtered cita `i` appears on page `i / 10 + 1`, at row `i % 10`, and that page is within the page count |
| CitasPage.PagesInRangeAreNonEmpty | src/features/dashboard/pages/citas/CitasPage.jsx:113-117 | a page has rows exactly when it is within the page count |
| CitasPage.ReplaceById | src/features/dashboard/pages/citas/CitasPage.jsx:147-150 | every cita with the edited cita's id is replaced by it, and every other cita stays in place |
| CitasPage.ReplaceIsPointUpdate | src/features/dashboard/pages/citas/CitasPage.jsx:147-150 | with unique ids, an edit replaces exactly the one cita with that id and keeps the ids unique |
| CitasPage.ReplaceUnknownIdChangesNothing | src/features/dashboard/pages/citas/CitasPage.jsx:147-150 | an edit whose id no cita has changes nothing |
| CitasPage.RemoveById | src/features/dashboard/pages/citas/CitasPage.jsx:160-161 | a delete keeps exactly the citas whose id differs from the selected one |
| CitasPage.RemoveIsCut | src/features/dashboard/pages/citas/CitasPage.jsx:160-161 | with unique ids, deleting cita `k` cuts exactly it out and keeps the others in order |
| CitasPage.RemoveKeepsUnique | src/features/dashboard/pages/citas/CitasPage.jsx:160-161 | deleting keeps the ids unique |
| CitasPage.Refilter | src/features/dashboard/pages/citas/CitasPage.jsx:84-102 | the filtering effect recomputes the shown list and returns to page 1 |
| CitasPage.Mount | src/features/dashboard/pages/citas/CitasPage.jsx:29-82 | the page opens on the mock list, unfiltered, on page 1 |
| CitasPage.SetSearchTerm | src/features/dashboard/pages/citas/CitasPage.jsx:268-272 | a new term refilters and returns to page 1; the same term changes nothing |
| CitasPage.SetStatusFilter | src/features/dashboard/pages/citas/CitasPage.jsx:275-285 | a new status refilters and returns to page 1; the same status changes nothing |
| CitasPage.HandleCreateCita | src/features/dashboard/pages/citas/CitasPage.jsx:119-125 | the new cita, with the given id and creation date, is appended after the unchanged list; the page refilters and returns to page 1 |
| CitasPage.HandlePublicVisitSchedule | src/features/dashboard/pages/citas/CitasPage.jsx:135-142 | the visit, with the given id and creation date and its document details, is appended after the unchanged list |
| CitasPage.HandleEditCita | src/features/dashboard/pages/citas/CitasPage.jsx:147-152 | the list becomes the replace-by-id of the edited cita, then refilters on page 1 |
| CitasPage.HandleDeleteCita | src/features/dashboard/pages/citas/CitasPage.jsx:160-163 | the list becomes the remove-by-id of the selected cita, then refilters on page 1 |
| CitasPage.HandlePageChange | src/features/dashboard/pages/citas/CitasPage.jsx:302 | the page is set as asked; the lists are unchanged |
| CitasPage.CreateKeepsUnique | src/features/dashboard/pages/citas/CitasPage.jsx:119-125 | creating with a fresh id keeps the ids unique |
| CitasPage.CreatedCitaIsListed | src/features/dashboard/pages/citas/CitasPage.jsx:84-125 | with no filter set, the new cita is among the shown citas |
| CitasPage.DeleteRemovesOne | src/features/dashboard/pages/citas/CitasPage.jsx:160-161 | with unique ids, deleting a listed cita cuts exactly it out and keeps the ids unique |
| CitasPage.DeleteUnknownIdChangesNothing | src/features/dashboard/pages/citas/CitasPage.jsx:160-161 | deleting a cita whose id no listed cita has leaves the list unchanged |
| CitasPage.PaginationHiddenIffOnePage | src/features/dashboard/components/citas/CitasTable.jsx:156 | the pagination bar is hidden exactly when the filtered list fits on one page of 10 |
| CitasPage.SearchIgnoresTermCase | src/features/dashboard/pages/citas/CitasPage.jsx:89-93 | the search finds the same citas whether the term is typed in capitals or not |
| CitasTable.StatusBadge | src/features/dashboard/components/citas/CitasTable.jsx:14-38 | each of the four statuses has its own label, and any other text shows the "Programada" badge |
| CitasTable.BadgeLabelsDistinguishStatuses | src/features/dashboard/components/citas/CitasTable.jsx:14-38 | two known statuses share a label only when they are equal |
| CitasTable.PageButtons | src/features/dashboard/components/citas/CitasTable.jsx:173-192 | the buttons are pages 1 to the page count, each marked current exactly when it is the current page |
| CitasTable.ExactlyOneCurrent | src/features/dashboard/components/citas/CitasTable.jsx:173-192 | exactly one page button is marked current when the current page is in range, and none otherwise |
| CitasTable.ControlsStayInRange | src/features/dashboard/components/citas/CitasTable.jsx:162-202 | from a page in range, every enabled control asks for a page in range |
| CitasTable.PrevOnlyGuardsPageOne | src/features/dashboard/components/citas/CitasTable.jsx:166-167 | "previous" is disabled only on page 1 itself, so from page 0 it asks for page -1 |

## Left out

- Rendering: JSX, CSS classes, animation, icons, the modals' open/close chrome, and the `isOpen`/`property` guards that return `null`.
- The components that are only presentational: `ViewCitaModal.jsx`, `ResumenStep.jsx`, `DetallesStep.jsx` and `ClienteStep.jsx`. The model keeps only which fields each wizard step edits (`CreateCitaModal.StepOf`).
- `DashboardLayout`, `SearchBar`, `StatsCard`, `DeleteConfirmModal` and the toasts. They are external components with no logic in the modelled files.
- React effect scheduling and batching. Each handler is one transition. The filtering effect is applied inside the handler that changes its inputs. On mount the page goes straight to the refiltered mock list.
- The clock and id generation: `Date.now()`, `new Date().toISOString()` and `new Date()` are parameters.
- Times of day and time zones: dates are calendar dates at midnight. `toDateString` equality is date equality.
- Calendar.SelectDate: the `YYYY-MM-DD` text is the cell's local date. `toISOString` formats in UTC, which can give the previous day east of UTC; that shift is not modelled.
- Dates.IsoDateRoundTrip: holds for years 0 to 9999 only. Outside that range the four-digit year does not fit.
- Dates.DaysInMonth: the `new Date(y, m, d)` rule that maps years 0 to 99 onto 1900 to 1999 is not modelled. Years are proleptic Gregorian as given.
- Text.Lower: lowercases ASCII and Latin-1 capitals only. Other Unicode case mappings of `toLowerCase` are not modelled.
- Strings are sequences of Unicode scalar values; JavaScript's UTF-16 code units (surrogate pairs, lone surrogates) are not modelled, nor is Unicode normalisation.
- CitasTable.StatusBadge: status texts that name members of `Object.prototype` (such as "constructor") would find an inherited value instead of falling back. That is not modelled.
- `formatDate`, `formatDateForDisplay` and `toLocaleDateString`: locale formatting for display only.
- The edit form's initial default form before any cita is selected. The form is only shown once a cita is selected, so `EditCitaModal.Load` starts from the current state.
- FechaHoraStep.NavigateMonth and PropertyVisitModal.NavigateMonth: both use the corrected month navigation. The behaviour as written is `Calendar.NavigateMonthAsWritten` (see Findings).
- PropertyVisitModal.PickedDateIsBookable: stated for displayed years 0 to 9999, where the date text reads back.
- EditCitaModal.ValidateFormCliente and EditCitaModal.ValidateFormRest: these per-field restatements of `ValidateForm` are helpers for `FormValidIff`.

## Findings

| source | as written | input that shows it | evidently intended | confidence | as-written member | corrected member |
|---|---|---|---|---|---|---|
| src/features/dashboard/components/citas/steps/FechaHoraStep.jsx:96-102 | `setMonth(getMonth() + direction)` keeps the day of the month, so a day the target month lacks rolls over into the month after | displayed date 2026-10-31, direction +1: November has 30 days, so the calendar shows December 2026 and November is skipped | show the next month | not executed | Calendar.NavigateMonthAsWrittenSkipsForward | Calendar.NavigateMonth |
| src/features/properties/components/PropertyVisitModal.jsx:177-183 | the same `setMonth` navigation | displayed date 2025-03-31, direction -1: "February 31st" rolls over to 2025-03-03, so the calendar stays on March | show the previous month | not executed | Calendar.NavigateMonthAsWrittenStuckBackward | Calendar.NavigateMonth |
