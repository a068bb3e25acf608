# Clinic appointment booking wizard, modelled in Dafny

This project models the booking core of the clinic website: the five-step
wizard of `appointments.js` and its session (`bookingData`, `currentStep`,
the loaded department and doctor lists), the time-slot generator, the
appointment record that confirmation builds, lookup by e-mail and
cancellation. It also models the form validators and `generateId` of
`main.js`, and the doctor directory of `js/doctors.js`: its active-doctor
list, its department dictionary and `filterDoctors`.

The model follows the code's own form.

- The wizard (`Booking.BookingWizard`), the record store
  (`Store.AppointmentStore`) and the directory page
  (`DoctorDirectory.DoctorsPage`) are classes. Their fields are the source's
  globals, and each of their methods states its whole new state.
- The two loops of the source are `while` loops with invariants:
  - the slot loop of `generateTimeSlots` (`Slots.HalfHourSlots`);
  - the `forEach` that fills the department dictionary
    (`DoctorDirectory.DoctorsPage.LoadDoctors`).
- The validators, `trim`, `parseInt`, `split`, `padStart`, `includes` and
  `toLowerCase` are functions.
- Every `Array.prototype.filter` of the source is an instance of one
  order-preserving `Seqs.Filter`.

Module layout:

- `Seqs.dfy`: `Option`, `Result`, `Filter`, subsequences and `find`.
- `Text.dfy`: the JavaScript string primitives the core relies on. Whitespace
  is the full set that `String.prototype.trim` and `\s` use.
- `Validators.dfy`: `validateEmail`, `validatePhone` and `generateId`.
- `Records.dfy`: departments, doctors, the guest bundle, the appointment
  record, and lookup by id.
- `Slots.dfy`: `generateTimeSlots`.
- `Store.dfy`: the `appointments` table behind `fetchData`, `createRecord`
  and `patchRecord`.
- `Booking.dfy`: the wizard.
- `Lookup.dfy`: `lookupAppointments` and `cancelAppointment`.
- `DoctorDirectory.dfy`: `js/doctors.js`.

Page and network inputs are parameters:

- the patient form, the terms box and the payment method;
- the weekday name of the chosen date, and the ISO timestamp (`None` when the
  date and slot do not form a valid date);
- the confirm and prompt answers;
- the clock readings and random digits of `generateId`;
- whether each store request succeeds, and what `fetchData` answered.

## Where the code and its description differ

The model follows the code in each case.

- `validatePhone`: its description allows digits, spaces, hyphens, plus signs
  and parentheses. The regular expression's `\s` admits every JavaScript
  whitespace character, so tabs and line breaks pass too.
- `nextStep` on step 4: its description has the confirmation summary always
  built once the guest form is accepted. In the code, `populateConfirmation`
  runs after the patient has been stored and reads the department's and
  doctor's names. With either one missing it throws, so the step does not
  advance (`SummaryFailed`).
- The session is described as advancing past step 3 only once a date is set.
  The code never assigns `bookingData.date`, and `selectTimeSlot` accepts any
  slot.
- `selectDepartment` advances to step 2 even when the doctor fetch fails. The
  previous doctor list then stays in place.
- Lookup: a failed query, no data, and no matching row all give "No
  appointments found". `fetchData` never throws, so the error branch is
  unreachable.

## Model

| member | source | states |
|---|---|---|
| Seqs.Find | Harsha_hospital/js/appointments.js:52 | `find` returns nothing exactly when no element matches, otherwise the first matching element |
| Records.FindDepartment | Harsha_hospital/js/appointments.js:52 | the department found is the first in the list with the id asked for; nothing is found iff no department has that id |
| Records.FindDoctor | Harsha_hospital/js/appointments.js:124 | the doctor found is the first in the loaded list with the id asked for; nothing is found iff no doctor has that id |
| Text.Trim | Harsha_hospital/js/appointments.js:266-270 | `String.prototype.trim`: `TrimShape` says it removes exactly the surrounding whitespace, and `TrimIdempotent` that it is idempotent |
| Text.TrimShape | Harsha_hospital/js/appointments.js:266-270 | `trim` removes exactly the leading and trailing whitespace and keeps a contiguous middle slice |
| Text.TrimIdempotent | Harsha_hospital/js/appointments.js:266-270 | trimming a trimmed value changes nothing |
| Text.DecimalRoundTrip | Harsha_hospital/js/appointments.js:184-185 | the digits `toString` writes for a number read back as that number |
| Text.Split | Harsha_hospital/js/appointments.js:177-179 | `split` of one character gives at least one piece and no piece holds the separator; `JoinSplit` and `SplitJoin` make it the inverse of joining |
| Text.SplitOnePieceIff | Harsha_hospital/js/appointments.js:177 | `split` gives a single piece iff the separator does not occur |
| Text.JoinSplit | Harsha_hospital/js/appointments.js:177-179 | joining the pieces of `split` with the separator gives the original string |
| Text.SplitJoin | Harsha_hospital/js/appointments.js:177-179 | splitting a join of separator-free pieces gives the pieces back |
| Text.Contains | js/doctors.js:119-120 | `includes`: `ContainsIffOccurs` says it holds exactly when the query occurs at some position |
| Text.ContainsIffOccurs | js/doctors.js:119-120 | `includes` holds iff the query occurs at some position |
| Text.ToLower | js/doctors.js:112 | `toLowerCase` keeps the length and lowercases each character on its own; `ToLowerIdempotent` says applying it twice is applying it once |
| Text.ToLowerIdempotent | js/doctors.js:112 | lowercasing twice is lowercasing once |
| DoctorDirectory.SearchIgnoresCase | js/doctors.js:112-121 | lowercasing the search input first shows the same list, so the case of what is typed does not matter |
| Text.ParseInt | Harsha_hospital/js/appointments.js:291 | `parseInt` with no radix: `ParseIntDecimal` and `ParseIntStopsAtNonDigit` say what it reads from decimal text |
| Text.ParseIntDecimal | Harsha_hospital/js/appointments.js:291 | `parseInt` of a rendered number gives the number |
| Text.ParseIntStopsAtNonDigit | Harsha_hospital/js/appointments.js:291 | `parseInt` reads leading digits and stops at the first non-digit, so `"42 years"` and `"42x"` read 42; only a lone `"0"` before `x` is excluded, because that starts a hexadecimal number |
| Validators.ValidateEmail | Harsha_hospital/js/main.js:259-262 | `validateEmail`, characterised by `ValidateEmailIsPattern` as exactly the strings the regular expression matches |
| Validators.ValidateEmailIsPattern | Harsha_hospital/js/main.js:259-262 | `validateEmail` accepts exactly the strings `^[^\s@]+@[^\s@]+\.[^\s@]+$` matches |
| Validators.AcceptedEmailMatches | Harsha_hospital/js/main.js:260-261 | every accepted address splits as local part, '@', name, '.', suffix, all free of whitespace and '@' |
| Validators.MatchingEmailAccepted | Harsha_hospital/js/main.js:260-261 | every such split is accepted |
| Validators.ExampleEmailAccepted | Harsha_hospital/js/main.js:260 | `"a@b.co"` is accepted |
| Validators.DomainWithoutDotRejected | Harsha_hospital/js/main.js:260 | an address whose part after '@' has no '.' is rejected |
| Validators.ExampleEmailWithoutDotRejected | Harsha_hospital/js/main.js:260 | `"a.b@example"` is rejected |
| Validators.EmailWithWhitespaceRejected | Harsha_hospital/js/main.js:260 | one whitespace character anywhere rejects an address |
| Validators.DigitsOf | Harsha_hospital/js/main.js:266 | `replace(/\D/g, '')` keeps every digit of the input and nothing else, in order: the result is all digits, a subsequence of the input, and as long as the input has digits |
| Validators.ValidatePhone | Harsha_hospital/js/main.js:264-267 | `validatePhone`: allowed characters only and at least ten digits; the lemmas below give its length bound, its extensions and its accepted and rejected shapes |
| Validators.AcceptedPhoneLength | Harsha_hospital/js/main.js:264-267 | an accepted phone number has at least ten characters |
| Validators.PhoneExtension | Harsha_hospital/js/main.js:264-267 | appending phone characters to an accepted number keeps it accepted |
| Validators.HyphenatedPhoneAccepted | Harsha_hospital/js/main.js:265-266 | three digit groups joined by '-' holding ten digits in all are accepted |
| Validators.ExamplePhoneAccepted | Harsha_hospital/js/main.js:265-266 | `"555-123-4567"` is accepted |
| Validators.ShortPhoneRejected | Harsha_hospital/js/main.js:266 | `"555-1234"` (seven digits) is rejected |
| Validators.LetterPhoneRejected | Harsha_hospital/js/main.js:265 | `"call-me"` (letters) is rejected |
| Validators.GenerateId | Harsha_hospital/js/main.js:120-122 | every generated id begins with `"id-"` |
| Validators.GenerateIdInjective | Harsha_hospital/js/main.js:121 | ids from different clock readings or different random digits differ |
| Slots.HourNumber | Harsha_hospital/js/appointments.js:178-179 | `Number` of the hour text is its decimal value after trimming, 0 for empty text, and `NaN` for anything that is not all digits |
| Slots.ParseHours | Harsha_hospital/js/appointments.js:177-179 | `split('-')` then `split(':')` and `Number` of each hour; `ParseHoursOfRange` says `"S:MM-E:MM"` gives S and E, and `ParseHoursNeedsDash` that only a text without '-' is unreadable |
| Slots.ParseHoursNeedsDash | Harsha_hospital/js/appointments.js:177-178 | the hours text is unreadable (`endTime` undefined, so `split` throws) iff it holds no '-' |
| Slots.ParseHoursOfRange | Harsha_hospital/js/appointments.js:177-179 | `"S:MM-E:MM"` reads as start hour S and end hour E |
| Slots.HoursOf | Harsha_hospital/js/appointments.js:177 | a doctor's hours are unreadable iff the `available_hours` column is absent or holds no '-', both of which throw a `TypeError`; `GenerateTimeSlots` states each outcome in terms of it |
| Slots.NineToFiveHours | Harsha_hospital/js/appointments.js:176-179 | `"09:00-17:00"` reads as hours 9 and 17 |
| Text.PadStart2 | Harsha_hospital/js/appointments.js:184-185 | `padStart(2, '0')` gives at least two characters, ends with the input and puts only '0' before it |
| Slots.HourLabel | Harsha_hospital/js/appointments.js:184-185 | `padStart(2, '0')` gives digits only, at least two, and exactly two below 100 |
| Slots.HourLabelValue | Harsha_hospital/js/appointments.js:184-185 | the padded hour reads back as the hour |
| Slots.HalfHourSlots | Harsha_hospital/js/appointments.js:181-186 | the loop yields `2 * (end - start)` slots (none if start >= end), slot i being `HH:00` or `HH:30` for hour `start + i / 2` |
| Slots.SlotAtMinutes | Harsha_hospital/js/appointments.js:182-186 | slot i reads back as `start:00` plus `30 * i` minutes |
| Slots.SlotTimes | Harsha_hospital/js/appointments.js:182-186 | every slot lies in `[start:00, end:00)` and sits half an hour after the previous one |
| Slots.SlotsStrictlyIncreasing | Harsha_hospital/js/appointments.js:182-186 | the slots are in strictly ascending time order |
| Slots.EndHourNotOffered | Harsha_hospital/js/appointments.js:183 | `end:00` is never offered |
| Slots.SlotsAlternate | Harsha_hospital/js/appointments.js:184-185 | the slots alternate between `:00` and `:30` |
| Slots.FirstSlot | Harsha_hospital/js/appointments.js:183-184 | the first slot is `start:00` |
| Slots.LastSlot | Harsha_hospital/js/appointments.js:183-185 | the last slot is `(end - 1):30` |
| Slots.NineToFiveSlots | Harsha_hospital/js/appointments.js:176-186 | a 09:00-17:00 doctor is offered 16 slots, from `"09:00"` to `"16:30"` |
| Slots.GenerateTimeSlots | Harsha_hospital/js/appointments.js:158-193 | no date or no doctor asks for a date; a day off says so; missing hours, or hours without '-', throw; otherwise the slots of the parsed hours are offered, none when an hour is `NaN` |
| Slots.EmptyRangeIsNotUnavailable | Harsha_hospital/js/appointments.js:171-186 | a start at or after the end offers an empty list, not "not available" |
| Store.FirstWithId | Harsha_hospital/js/main.js:68-81 | the record a `PATCH` addresses is the first one with that id, and there is none iff no record has it |
| Store.Patched | Harsha_hospital/js/appointments.js:452-455 | a patch changes only status and cancellation reason of the addressed record; all other records and fields stay as they were |
| Store.AppointmentStore.FetchAll | Harsha_hospital/js/main.js:10-21 | a successful fetch returns the table; a failed one returns `null` and does not throw |
| Store.AppointmentStore.Create | Harsha_hospital/js/main.js:36-49 | success appends the record and returns it; failure leaves the table and reaches the caller |
| Store.AppointmentStore.Patch | Harsha_hospital/js/main.js:68-81 | success updates exactly the addressed record; a failed request or an unknown id changes nothing |
| DoctorDirectory.DoctorsPage.LoadDoctors | js/doctors.js:11-42 | each fetched department id is written to the dictionary; the doctor list becomes the active fetched doctors only when some were fetched |
| DoctorDirectory.ActiveDoctorsLoaded | js/doctors.js:40 | the doctor list holds exactly the active fetched doctors, in fetch order, each as often as it was fetched |
| DoctorDirectory.WithDepartmentNames | js/doctors.js:19-22 | the `forEach` that fills `allDepartmentsData`; `DepartmentNamesKeys`, `DepartmentNamesUntouched` and `LastDuplicateWins` give its keys and values |
| DoctorDirectory.DepartmentNamesKeys | js/doctors.js:19-23 | the dictionary's keys are the old keys plus the fetched ids |
| DoctorDirectory.DepartmentNamesUntouched | js/doctors.js:19-23 | an id that no fetched department carries keeps its old name |
| DoctorDirectory.LastDuplicateWins | js/doctors.js:19-23 | of two departments with one id, the later name wins |
| DoctorDirectory.DepartmentLabel | js/doctors.js:67 | an unmapped department, or one mapped to the empty name, shows `'N/A'`; a mapped, non-empty name shows itself |
| DoctorDirectory.DoctorDepartmentShown | js/doctors.js:67 | a doctor shows the last fetched name of its department, or `'N/A'` when the id was never mapped |
| DoctorDirectory.FilterDoctors | js/doctors.js:111-131 | `filterDoctors`: `FilterDoctorsExactly`, `FilterDoctorsIsSubsequence`, `FilterDoctorsUnfiltered` and `SearchIgnoresCase` say which doctors it shows and in what order |
| DoctorDirectory.FilterDoctorsIsSubsequence | js/doctors.js:111-131 | the filtered list is an order-preserving subsequence of the loaded list |
| DoctorDirectory.FilterDoctorsUnfiltered | js/doctors.js:115-128 | with no query and no department the loaded list is shown unchanged |
| DoctorDirectory.FilterDoctorsExactly | js/doctors.js:117-128 | a doctor is shown iff loaded, containing the lowercased query in its lowercased name or specialization (when there is a query), and in the chosen department (when there is one) |
| Booking.CheckPatientForm | Harsha_hospital/js/appointments.js:262-302 | a registered patient is refused with the login message; an accepted guest is the trimmed name, e-mail, phone and reason with `parseInt` of the age |
| Booking.PatientFormVerdicts | Harsha_hospital/js/appointments.js:265-285 | a form is accepted iff it is a guest form with name, e-mail, phone and age filled in and a valid address and phone; missing fields are reported iff one is empty |
| Booking.AcceptedGuestIsClean | Harsha_hospital/js/appointments.js:266-295 | an accepted guest has a non-empty name, no surrounding whitespace, a valid address and a phone of at least ten characters |
| Booking.CheckReadsTrimmed | Harsha_hospital/js/appointments.js:266-270 | the verdict depends only on the trimmed fields, the raw age and the patient type |
| Booking.CheckIgnoresSurroundingWhitespace | Harsha_hospital/js/appointments.js:266-268 | whitespace typed before or after the name, e-mail or phone, each run chosen independently, changes neither the verdict nor the stored guest |
| Booking.TrimPadded | Harsha_hospital/js/appointments.js:266-268 | trimming discards any run of whitespace on the left and any, possibly different, run on the right |
| Booking.UnevenPaddingTrimmed | Harsha_hospital/js/appointments.js:266 | a name typed as `" Ann\t"` is stored as `"Ann"` |
| Booking.PaymentStatus | Harsha_hospital/js/appointments.js:346 | `'paid'` iff the method is `'online'`, `'pending'` otherwise |
| Booking.BuildAppointment | Harsha_hospital/js/appointments.js:333-352 | the record's id starts `"id-"`, the guest id starts `"guest-id-"`, its payment status is `'paid'` iff online, its status is `'scheduled'`, it copies department, doctor, fee, patient contact, slot and timestamp, and notes and cancellation reason are empty |
| Booking.GuestIdsDiffer | Harsha_hospital/js/appointments.js:335 | guest ids drawn with different random digits differ |
| Booking.DoctorsOfDepartment | Harsha_hospital/js/appointments.js:74-76 | the doctor list for a department is exactly its active doctors, in store order, each as often as the store returned it |
| Booking.SearchDoctors | Harsha_hospital/js/appointments.js:83-89 | the booking page's search filter; `SearchAgreesWithDirectory` says it shows what the directory's `filterDoctors` shows |
| Booking.SearchAgreesWithDirectory | Harsha_hospital/js/appointments.js:83-89 | the booking page's doctor search gives the same list as the directory's `filterDoctors` with no department filter |
| Booking.BookingWizard.constructor | Harsha_hospital/js/appointments.js:5-15 | the page starts on step 1 with an empty session and empty lists |
| Booking.BookingWizard.LoadDepartmentsForBooking | Harsha_hospital/js/appointments.js:24-48 | a missing or empty answer keeps the list; otherwise the list becomes the active departments in store order |
| Booking.BookingWizard.SelectDepartment | Harsha_hospital/js/appointments.js:51-60 | an unknown id changes nothing; otherwise the department is set, the doctor list becomes that department's active doctors (kept on a failed fetch), and the step moves to 2 |
| Booking.BookingWizard.SelectDoctor | Harsha_hospital/js/appointments.js:123-136 | an unknown id changes nothing; otherwise the doctor is set from the loaded list and the step moves to 3 |
| Booking.BookingWizard.SelectTimeSlot | Harsha_hospital/js/appointments.js:196-207 | the slot is recorded, whatever it is, and the step moves to 4 |
| Booking.BookingWizard.ValidatePatientInfo | Harsha_hospital/js/appointments.js:262-302 | acceptance stores the guest; refusal leaves the patient as it was |
| Booking.BookingWizard.NextStep | Harsha_hospital/js/appointments.js:225-245 | below step 4 the step moves on; a refused form changes nothing; an accepted one advances to 5, unless the summary throws on a missing department or doctor |
| Booking.BookingWizard.PreviousStep | Harsha_hospital/js/appointments.js:247-259 | the step moves back by one, nothing else changes |
| Booking.BookingWizard.BackAndReselectDepartment | Harsha_hospital/js/appointments.js:51-60 | going back and choosing the same department again gives the same session |
| Booking.BookingWizard.BackAndReselectDoctor | Harsha_hospital/js/appointments.js:123-136 | going back from the time step and choosing the same doctor again gives the same session |
| Booking.BookingWizard.ConfirmAppointment | Harsha_hospital/js/appointments.js:319-372 | unaccepted terms or an invalid date change nothing; a successful create appends the built record and resets the session to step 1; a failed create keeps the session and the table |
| Lookup.LookupAppointments | Harsha_hospital/js/appointments.js:375-408 | the lookup shows what `LookupResult` says for the store's table |
| Lookup.LookupResult | Harsha_hospital/js/appointments.js:375-408 | the answer of `lookupAppointments` for a table; `LookupVerdicts` and `LookupFoundExactly` characterise each of its outcomes |
| Lookup.LookupVerdicts | Harsha_hospital/js/appointments.js:376-401 | invalid iff the trimmed address fails `validateEmail`; "no appointments" iff valid and the query failed or no row has the address; found iff valid, the query succeeded and some row has it |
| Lookup.LookupFoundExactly | Harsha_hospital/js/appointments.js:396 | the rows found are exactly the store's rows with that address, in store order, and as many as the store holds |
| Lookup.InvalidEmailIgnoresStore | Harsha_hospital/js/appointments.js:378-381 | a refused address gives the same answer whatever the store holds, so no query is needed |
| Lookup.NarrowedSearchSameResult | Harsha_hospital/js/appointments.js:388-396 | any backend search that keeps the address's rows leads to the same list after the exact filter |
| Lookup.CleanAddressFinds | Harsha_hospital/js/appointments.js:376-403 | a valid address without surrounding whitespace that has rows finds them |
| Lookup.LookupTwoOfThree | Harsha_hospital/js/appointments.js:396 | with rows for x@y.com, x@y.com and z@y.com, the lookup of x@y.com returns the first two, in order |
| Lookup.CancelAppointment | Harsha_hospital/js/appointments.js:443-468 | a dismissed confirm or an empty reason changes nothing; a failed patch changes nothing; otherwise the record gets status `'cancelled'` and the reason, and the lookup is re-run when the box is not empty |
| Lookup.CancelledNoLongerOffered | Harsha_hospital/js/appointments.js:428 | the cancelled record is `'cancelled'` with the reason and no longer offers Cancel; other records keep whether they offer it |
| Lookup.CancelKeepsLookupLength | Harsha_hospital/js/appointments.js:459-463 | the refreshed lookup lists as many rows as before the cancel |

## Left out

- The DOM: rendering, `innerHTML`, classes, scrolling, toasts, the loading
  spinner and the injected styles. Only the values the code reads from the
  page enter the model, as parameters.
- Transport: `fetch`, `URLSearchParams` and JSON. The store is a sequence of
  records, and each request's success is an input. `fetchRecord`,
  `updateRecord` and `deleteRecord` are not used by the core.
- Dates and locale:
  - the weekday name of `toLocaleDateString`;
  - the ISO timestamp of `new Date(...).toISOString()`, where `None` stands
    for the `RangeError`;
  - the `min`/`max` of the date picker;
  - `formatDate` and `formatDateTime`.

  All of these are inputs or are not modelled.
- Validators.GenerateId: `Date.now()` and `Math.random().toString(36)` are
  inputs, so the model does not capture how likely a collision is.
- Store.AppointmentStore.Create: a store that assigns its own id to the new
  record is not modelled. `Booked` reports the id sent.
- Lookup.LookupAppointments: the store-side effect of the `search` query
  parameter is not modelled. The client reads the whole table, and
  `Lookup.NarrowedSearchSameResult` shows that any narrowing that keeps the
  address's rows gives the same list.
- Slots.HourNumber: `Number` is modelled for trimmed plain decimal digits and
  for the empty string. Signs, decimals, exponents and hexadecimal hours read
  as `NaN` here, which offers no slot. One of these edges does more in the
  source: an end hour written `"Infinity"` (for example
  `"09:00-Infinity:00"`) gives `Number` the value `Infinity`. The slot loop
  at `Harsha_hospital/js/appointments.js:183` then never ends, because every
  finite hour is below it. The model reads that text as `NaN` and offers no
  slot, so it does not capture that the source never terminates.
- Text.ToLower: ASCII letters only. Unicode case mapping is not modelled.
- DoctorDirectory.DepartmentLabel: inherited object keys such as
  `"constructor"` are not in the dictionary here. In JavaScript,
  `allDepartmentsData["constructor"]` is a function, not `'N/A'`.
  With DoctorDirectory.WithDepartmentNames, a department whose id is
  `"__proto__"` is recorded here. In the source,
  `allDepartmentsData[dept.id] = dept.name` at `js/doctors.js:21` assigns a
  string to `__proto__`, and JavaScript ignores that write, so a later
  lookup of that id yields the dictionary's prototype object rather than
  the name.
- Booking.BookingWizard.NextStep: the step must be at most 4, and for
  `previousStep` at least 2; both are preconditions. In the source,
  `currentStep++` and `currentStep--` run before the panel lookup. From step
  5 or step 1 the counter is left at 6 or 0, and the lookup of the missing
  panel then throws. The model does not reach those states.
- Booking.BookingWizard.SelectDepartment, Booking.BookingWizard.SelectTimeSlot,
  Booking.BookingWizard.ConfirmAppointment: each call is modelled as atomic.
  Interleavings of the source's asynchronous handlers are not modelled:
  - a second department click while the doctor fetch is pending calls
    `nextStep` twice, so the step reaches 3 with no doctor chosen;
  - two slot clicks within the 500 ms delay queue two `nextStep` calls, and
    the second one validates the form on step 4;
  - a second confirm click while `createRecord` is pending posts a second
    record.
- Booking.BookingWizard.ConfirmAppointment: the payment method is a string
  input. An unchecked payment radio throws in the source and is not modelled.
- The registered-patient flow is modelled only as the login refusal
  (`LoginRequired`).
- `rescheduleAppointment` only shows an informational toast.
- The `setTimeout` before `nextStep` in `selectTimeSlot` is not modelled.
- `js/home.js`, `js/departments.js`, the chat widget, the statistic
  animation and the scroll observer are not part of this model.
- The source never assigns `bookingData.date`. `Session.date` stays `None`,
  and the chosen date reaches the model only through the timestamp input.
