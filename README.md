# Clinic booking: appointment store, upcoming list, patient records

A Dafny model of the behaviour behind five screens of a React Native clinic
app:

- **Booking** (`app/appointment.tsx`): a calendar day and one of sixteen fixed
  half-hour slots are picked, and "Confirm Appointment" inserts one row into
  the `appointments` table of `appointments.db` in a transaction. The id is
  `INTEGER PRIMARY KEY AUTOINCREMENT`.
- **Upcoming appointments** (`app/appointments-list.tsx`): each load reads
  every row from the same `appointments.db`. It keeps the rows whose
  `date`+`T`+`time` parses to a moment at or after now and sorts them soonest
  first. A delete asks "Cancel Appointment" and, on "Yes", deletes by id and
  loads again.
- **Patient records** (`app/record.tsx`): a list that starts with two sample
  records and a modal form. Save checks doctor name and diagnosis. It then
  prepends the record, closes the modal, blanks the form and inserts the
  entered values into `patient_records`. That table is dropped and recreated
  at every launch.
- **Department header** (`app/department/_layout.tsx`): the title is the id
  with its first character upper-cased.
- **Health-tip details** (`app/healthtip-details.tsx`): route parameters that
  may be a string, an array or absent are normalised, and the image is shown
  unless the normalised image is `""`.

Modules: `Wrappers` (Option), `Collation` (SQLite's BINARY text order), `Decimal` (digit strings), `Timestamp` (the
`Date` parsing the list relies on), `AppointmentStore` (the shared
`Database` class), `Booking`, `UpcomingList`, `PatientRecords`,
`DepartmentTitle`, `HealthTip`.

Each event handler is one atomic method of a class whose fields are the
screen's React state. Both appointment screens hold the same `Database`
object, because both open `appointments.db`. Several things become method
parameters: storage failures (a `fails` flag per call), the clock (`now` in
milliseconds; the two separate `Date.now()` readings in `addRecord`), `today`
(the form's default visit date) and the user's answer to the delete prompt.
Alerts and `router.replace` become outcome values (`InitOutcome`,
`BookOutcome`, `DeleteOutcome`, `AddOutcome`).

Behaviour of the code that the model makes explicit:

- No slot-conflict check exists. Booking the same day and slot twice stores
  two rows (`Booking.BookSameSlotTwice`).
- `p || ""` on a string parameter always yields that string, so only an
  absent parameter falls back to `""`. An empty array yields `undefined`,
  which counts as "image shown".
- The record modal has no input for `medicalHistory`, so a saved record's
  medical history is always empty (`RecordsScreen.Valid`).
- The listed record and the stored row take their ids from two different
  `Date.now()` readings. If the stored id is already taken (`id TEXT PRIMARY
  KEY`), the insert fails, and the failure is only logged.
- At launch the table is emptied before the first query runs, so a launch
  always shows the two sample records (`PatientRecords.LaunchShowsSeeds`).

## Model

Several functions carry the source's expressions and are described through
the lemmas and methods above rather than rows of their own:
`DepartmentTitle.HeaderTitle` is the title expression of
app/department/_layout.tsx:6; `HealthTip.Normalize` is the parameter
normalisation of app/healthtip-details.tsx:14-16, and `HealthTip.ShowsImage`
and `HealthTip.Details` the image test and the screen's values at line 23;
`UpcomingList.IsUpcoming`, `UpcomingList.Upcoming` and `UpcomingList.Key` are
the filter and sort key of app/appointments-list.tsx:19-29;
`AppointmentStore.Without` is the delete at app/appointments-list.tsx:62;
`PatientRecords.CanSave` is the check at app/record.tsx:103,
`PatientRecords.Edit` the form inputs at app/record.tsx:224-256, and
`PatientRecords.OrderByVisitDateDesc` the query at app/record.tsx:82;
`Decimal.Format` is `Date.now().toString()` at app/record.tsx:110 and 128;
`Booking.TimeSlots` is the slot list at app/appointment.tsx:37, and
`Booking.BookingScreen.ConfirmEnabled` the Confirm button's `disabled` test at
app/appointment.tsx:104.

| member | source | states |
|---|---|---|
| `Booking.TimeSlotsAreHalfHours` | app/appointment.tsx:37 | there are 16 slots; slot k is 540 + 30·k minutes after midnight, so they run from 09:00 to 16:30, 30 minutes apart |
| `Booking.TimeSlotsDistinct` | app/appointment.tsx:37 | no slot appears twice |
| `Booking.BookingScreen.constructor` | app/appointment.tsx:12-14 | the screen starts with the spinner showing and with no date and no time |
| `Booking.BookingScreen.Init` | app/appointment.tsx:16-35 | the spinner goes away only after table creation succeeds; a failure ends in `InitFailed`, the "Could not initialize database" alert, and the spinner stays; the selection is untouched |
| `Booking.BookingScreen.SelectDate` | app/appointment.tsx:57-77 | callable once the spinner is gone and for a day other than the selected one (that day is `disableTouchEvent`); the date becomes the picked day and the time is always reset to null |
| `Booking.BookingScreen.SelectTime` | app/appointment.tsx:57-92 | callable once the spinner is gone, while a date is selected, and with a listed slot; sets the time and keeps the date |
| `Booking.BookingScreen.Book` | app/appointment.tsx:39-55 | with the date or the time missing, the result is `MissingSelection` and the store is unchanged; on a failed transaction, `SaveFailed` and the store is unchanged; otherwise exactly one row with the selected date and time is appended, under an id above every id issued before; the selection is kept in every case |
| `Booking.BookSameSlotTwice` | app/appointment.tsx:39-48 | two bookings of the same day and slot both succeed and add two rows with equal date and time and different ids |
| `AppointmentStore.Database.constructor` | app/appointment.tsx:8 | a new database file has no rows and has issued no id |
| `AppointmentStore.Database.CreateTableIfNotExists` | app/appointment.tsx:20-28 | reports success unless the store fails; the rows never change |
| `AppointmentStore.Database.Insert` | app/appointment.tsx:44-48 | transactional: on failure nothing changes; on success one row `(nextId, date, time)` is appended and the counter advances past it; the new id is above every id issued before, deleted ones included |
| `AppointmentStore.Database.DeleteById` | app/appointments-list.tsx:62 | the rows become those without that id; the id counter is kept, so ids are never reused; a failure changes nothing |
| `AppointmentStore.Database.SelectAll` | app/appointments-list.tsx:17 | returns every row, or `None` exactly when the read fails |
| `AppointmentStore.WithoutMembers` | app/appointments-list.tsx:62 | a row survives the delete if and only if it was stored and has a different id |
| `AppointmentStore.WithoutAbsent` | app/appointments-list.tsx:62 | deleting an id that no row has leaves the rows unchanged |
| `AppointmentStore.WithoutPresent` | app/appointments-list.tsx:62 | with distinct ids, deleting the id of row k removes exactly row k; the rows before and after it stay in order |
| `AppointmentStore.WithoutSubset` | app/appointments-list.tsx:62 | a delete adds no row and keeps the ids distinct |
| `Timestamp.Parse` | app/appointments-list.tsx:22-23 | a timestamp exists exactly when the date is a real `YYYY-MM-DD` day and the time is a valid `HH:MM` |
| `Timestamp.ParseChronological` | app/appointments-list.tsx:28-29 | comparing two parsed timestamps orders by day first, then by time of day |
| `Timestamp.YearEnd` | app/appointments-list.tsx:22 | the last day of December is followed by 1 January of the next year |
| `Timestamp.CalendarDayOrder` | app/appointments-list.tsx:22 | for two valid `YYYY-MM-DD` days, the earlier-or-equal day is exactly the text that is no greater under the BINARY collation |
| `Timestamp.TimeOfDayOrder` | app/appointments-list.tsx:22 | for two valid `HH:MM` times, the earlier-or-equal time is exactly the text that is no greater |
| `Timestamp.ParseTextOrder` | app/appointments-list.tsx:28-29 | for two parseable date/time pairs, timestamp order is exactly text order of `date`+`T`+`time` |
| `UpcomingList.UpcomingMembers` | app/appointments-list.tsx:19-27 | the filter keeps a row if and only if it has a non-empty date and time and a valid timestamp at or after now |
| `UpcomingList.ViewSound` | app/appointments-list.tsx:19-31 | every row shown is a stored row with a non-empty date and time and a timestamp at or after now |
| `UpcomingList.ViewComplete` | app/appointments-list.tsx:19-31 | every stored row with a non-empty date and time and a timestamp at or after now is shown |
| `UpcomingList.ViewDropsUnparseable` | app/appointments-list.tsx:20-26 | a row whose date or time does not parse is never shown, and no error is raised for it |
| `UpcomingList.ViewChronological` | app/appointments-list.tsx:28-30 | of two neighbours in the list, the first is on an earlier day, or on the same day at the same time or earlier; equivalently, its `date`+`T`+`time` text is no greater |
| `UpcomingList.SortInPlace` | app/appointments-list.tsx:28-30 | after the in-place sort the array is non-decreasing by key and holds the same elements, counted with multiplicity |
| `UpcomingList.SortedUpcoming` | app/appointments-list.tsx:19-30 | filtering then sorting gives a list sorted by timestamp that is a permutation of the filtered rows |
| `UpcomingList.UpcomingScreen.constructor` | app/appointments-list.tsx:11-12 | the screen starts with an empty list and `loading` set |
| `UpcomingList.UpcomingScreen.LoadAppointments` | app/appointments-list.tsx:14-37 | a failed read gives an empty list; otherwise the list is the sorted permutation of the upcoming stored rows; `loading` ends false either way; the store is only read |
| `UpcomingList.UpcomingScreen.HandleDelete` | app/appointments-list.tsx:52-72 | "No" changes nothing; "Yes" always attempts the delete: a failed delete changes neither the store nor the list; with a working store the result is `Deleted`, which removes exactly the rows with that id and reloads, and the new list holds no row with that id |
| `UpcomingList.BookThenList` | app/appointment.tsx:39-48 | booking a day and slot on the booking screen and then opening the list on the same database appends one row, and the list shows it exactly when its date and time parse to a moment at or after now |
| `UpcomingList.BookedThenListed` | app/appointments-list.tsx:19-31 | a store holding only the booking for 2030-01-01 09:00, listed at any earlier `now`, shows exactly that row |
| `Decimal.FormatRoundTrip` | app/record.tsx:110 | the decimal string of `Date.now()` reads back as the same number |
| `Decimal.FormatInjective` | app/record.tsx:128 | different clock readings give different record ids |
| `Decimal.DigitsOrder` | app/record.tsx:82 | for digit strings of equal length, text order agrees with numeric order, and text equality with numeric equality |
| `PatientRecords.OptionalFieldsNotValidated` | app/record.tsx:103 | validation depends only on doctor name and diagnosis; prescription, allergies and medical history may be anything, empty included |
| `PatientRecords.EditSetsOneField` | app/record.tsx:219-257 | an input sets its own field and no other; no input touches the medical history |
| `Collation.TextLeTotal` | app/record.tsx:82 | any two TEXT values are comparable under the BINARY collation |
| `Collation.TextLeTrans` | app/record.tsx:82 | the BINARY collation order is transitive |
| `Collation.TextLeAntisymmetric` | app/record.tsx:82 | two TEXT values each no greater than the other are equal |
| `Collation.TextLeAppend` | app/record.tsx:82 | comparing two texts with heads of equal length compares the heads first and, only when they are equal, the tails |
| `PatientRecords.OrderByVisitDateDescCorrect` | app/record.tsx:81-83 | the query returns exactly the stored rows, newest visit date first |
| `PatientRecords.NewestFirstChronological` | app/record.tsx:82 | where visit dates are valid `YYYY-MM-DD` days, a record listed later is on the same calendar day or an earlier one |
| `PatientRecords.RecordStore.constructor` | app/record.tsx:18 | before setup the table holds whatever the file held, and the store is not yet open |
| `PatientRecords.RecordStore.DropAndCreate` | app/record.tsx:18-35 | once the store opens, the table is empty; if opening fails, nothing changes and every later use fails |
| `PatientRecords.RecordStore.Insert` | app/record.tsx:131-144 | the row is appended exactly when the store is open, the write succeeds and the id is not already a key; otherwise nothing changes |
| `PatientRecords.RecordStore.SelectNewestFirst` | app/record.tsx:81-83 | returns the rows ordered by visit date descending, or `None` when the store is unusable or the read fails |
| `PatientRecords.RecordsScreen.constructor` | app/record.tsx:41-70 | the screen starts with the two sample records, the modal closed, a blank form dated today, and `loading` set |
| `PatientRecords.RecordsScreen.InitLoad` | app/record.tsx:73-100 | the list is replaced by the query result only when the query succeeds and returns rows; otherwise the list stays; `loading` ends false |
| `PatientRecords.RecordsScreen.OpenModal` | app/record.tsx:201-206 | the modal opens; the list and form are untouched |
| `PatientRecords.RecordsScreen.CloseModal` | app/record.tsx:209-213 | the modal closes and keeps what was typed |
| `PatientRecords.RecordsScreen.EditForm` | app/record.tsx:219-257 | the form becomes the edited form; nothing else changes |
| `PatientRecords.RecordsScreen.AddRecord` | app/record.tsx:102-150 | the result is `Rejected` (the validation alert) exactly when the doctor name or the diagnosis is missing, and then nothing changes. Otherwise the list gains exactly one record at its head, holding the entered fields; the old records follow in order; the modal is closed; the form is blank and dated today; the stored row holds the fields entered before the reset, and a failed insert is only logged: it is not `Rejected`, it leaves the store unchanged and the list as prepended |
| `PatientRecords.LaunchShowsSeeds` | app/record.tsx:18-100 | whatever the file held, a launch shows the two sample records, because the table is emptied before the first query |
| `DepartmentTitle.ToUpperCase` | app/department/_layout.tsx:6 | same length; each character is upper-cased independently |
| `DepartmentTitle.HeaderTitleShape` | app/department/_layout.tsx:6 | same length as the id; the first character is upper-cased and the rest equals the id from index 1; an empty id gives an empty title |
| `DepartmentTitle.HeaderTitleIdempotent` | app/department/_layout.tsx:6 | capitalising a title again returns the same title |
| `DepartmentTitle.HeaderTitleOf` | app/department/_layout.tsx:6 | any non-empty string whose first character is the upper-cased first character of the id, and whose remainder equals the id's remainder, is the title |
| `DepartmentTitle.DepartmentHeaderTitles` | app/department/_layout.tsx:6 | for each of the six departments listed in app/(tabs)/department.tsx at lines 15-22, the id (`cardiology`, …) gets the displayed name (`Cardiology`, …) as its title |
| `HealthTip.NormalizeList` | app/healthtip-details.tsx:14-16 | an array gives its first element with no `""` fallback, and an empty array gives `undefined` |
| `HealthTip.NormalizeText` | app/healthtip-details.tsx:14-16 | a string gives itself, and an absent parameter gives `""` |
| `HealthTip.NormalizeEmpty` | app/healthtip-details.tsx:14-16 | the value is `""` exactly for an absent parameter, an empty string, or an array whose first element is `""` |
| `HealthTip.ImageShownIff` | app/healthtip-details.tsx:23 | the image is shown if and only if the normalised image is not `""`, so an empty array shows it with an undefined source |
| `HealthTip.ParamsIndependent` | app/healthtip-details.tsx:14-16 | title, description and image each depend only on their own parameter |

## Left out

- Rendering, styles, lists, modals and icons: only the state that these display is modelled.
- Asynchrony: `useEffect` and `useFocusEffect` timing, promises, the reload that `handleDelete` does not await, and the two loads at mount. Each handler runs as one atomic step.
- The SQLite engine: the tables are sequences in memory. A storage failure is a `fails` parameter on each call; the engine's own causes of failure are not modelled.
- `Alert.alert`, `alert`, `console.log` and `router.replace` are outcome values, not effects.
- Clock and time zone: `new Date()` and `Date.now()` are parameters. Timestamps lie on one fixed local time line, with no offset and no daylight saving.
- `Timestamp.Parse` accepts exactly `YYYY-MM-DD` (years 0000–9999, real days only) and `HH:MM` (00:00–23:59). Other strings that JavaScript engines accept (seconds, fractions, zone suffixes, `24:00`, expanded years, engine-specific lenient days such as `02-30`) are treated as invalid.
- `UpcomingList.SortInPlace`: does not state that the sort is stable (JavaScript's `Array.prototype.sort` is); only sortedness and permutation are stated.
- `PatientRecords.OrderByVisitDateDescCorrect`: the order of rows with equal visit dates is fixed here, but SQLite leaves it unspecified.
- `DepartmentTitle.ToUpperCase`: upper-cases only ASCII `a`–`z`. Full Unicode case mapping, which can change a string's length, is not modelled.
- `id` given as an array in the department route (the route type says `string`) is not modelled.
- The SQL NULL text is folded into `""`: both are falsy where the list screen tests `date` and `time`.
- The patient name, doctor and department a booking could carry: this variant's booking stores only date and time, so those fields of a row are always `None`.
- The chat assistant, keyword mapping, doctor directory and the other screens are not part of this model.
