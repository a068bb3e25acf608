/** The five-step booking wizard of `appointments.js`: the session held in
    `bookingData` and `currentStep`, the loaded department and doctor lists,
    and the transitions between the steps Department (1), Doctor (2),
    Date & Time (3), Patient Information (4) and Confirmation (5).

    Values the source reads from the page (the patient form, the terms
    checkbox, the payment radio, the combined date and time) and the answers
    of the record store are method inputs. */
module Booking {
  import opened Seqs
  import opened Text
  import opened Validators
  import opened Records
  import opened Store
  import DoctorDirectory

  // ------------------------------------------------------------ patient form

  datatype PatientType = GuestType | RegisteredType

  /** The raw values of the patient-type radio and the guest inputs. */
  datatype PatientForm = PatientForm(
    patientType: PatientType,
    name: string,
    email: string,
    phone: string,
    age: string,
    reason: string)

  /** Why `validatePatientInfo` refused the form (the toast it shows). */
  datatype FormError =
    | LoginRequired   // "Please login or continue as guest"
    | MissingFields   // "Please fill in all required fields"
    | InvalidEmail    // "Please enter a valid email address"
    | InvalidPhone    // "Please enter a valid phone number"

  /** The checks of `validatePatientInfo`, in the source's order. Name,
      e-mail, phone and reason are trimmed; the age is tested raw and then
      read with `parseInt`. */
  function CheckPatientForm(f: PatientForm): (r: Result<Patient, FormError>)
    ensures f.patientType == RegisteredType ==> r == Err(LoginRequired)
    ensures r.Ok? ==> r.value == Guest(Trim(f.name), Trim(f.email), Trim(f.phone), ParseInt(f.age), Trim(f.reason))
  {
    if f.patientType != GuestType then Err(LoginRequired)
    else
      var name, email, phone := Trim(f.name), Trim(f.email), Trim(f.phone);
      if name == [] || email == [] || phone == [] || f.age == [] then Err(MissingFields)
      else if !ValidateEmail(email) then Err(InvalidEmail)
      else if !ValidatePhone(phone) then Err(InvalidPhone)
      else Ok(Guest(name, email, phone, ParseInt(f.age), Trim(f.reason)))
  }

  /** The verdict table of `validatePatientInfo`: a form is accepted
      exactly when it is a guest form with name, e-mail, phone and age
      filled in and a valid e-mail address and phone number; each refusal
      names the first check that failed. */
  lemma PatientFormVerdicts(f: PatientForm)
    ensures CheckPatientForm(f).Ok? <==>
      && f.patientType == GuestType
      && Trim(f.name) != [] && Trim(f.email) != [] && Trim(f.phone) != [] && f.age != []
      && ValidateEmail(Trim(f.email)) && ValidatePhone(Trim(f.phone))
    ensures CheckPatientForm(f) == Err(MissingFields) <==>
      f.patientType == GuestType && (Trim(f.name) == [] || Trim(f.email) == [] || Trim(f.phone) == [] || f.age == [])
    ensures CheckPatientForm(f) == Err(InvalidEmail) ==> !ValidateEmail(Trim(f.email))
    ensures CheckPatientForm(f) == Err(InvalidPhone) ==> ValidateEmail(Trim(f.email)) && !ValidatePhone(Trim(f.phone))
  {
  }

  /** An accepted guest has a non-empty name, no surrounding whitespace on
      the trimmed fields, a valid e-mail address and a phone number of at
      least ten characters. */
  lemma AcceptedGuestIsClean(f: PatientForm)
    requires CheckPatientForm(f).Ok?
    ensures var p := CheckPatientForm(f).value;
      && p.name != [] && Trim(p.name) == p.name
      && Trim(p.email) == p.email && ValidateEmail(p.email)
      && Trim(p.phone) == p.phone && |p.phone| >= 10
  {
    PatientFormVerdicts(f);
    TrimIdempotent(f.name);
    TrimIdempotent(f.email);
    TrimIdempotent(f.phone);
    AcceptedPhoneLength(Trim(f.phone));
  }

  /** Whitespace typed before or after the name, the e-mail address or the
      phone number, each run chosen independently, changes neither the
      verdict nor the stored guest. */
  lemma CheckIgnoresSurroundingWhitespace(f: PatientForm, nameL: string, nameR: string,
                                          emailL: string, emailR: string, phoneL: string, phoneR: string)
    requires AllWhitespace(nameL) && AllWhitespace(nameR)
    requires AllWhitespace(emailL) && AllWhitespace(emailR)
    requires AllWhitespace(phoneL) && AllWhitespace(phoneR)
    ensures CheckPatientForm(f.(name := nameL + f.name + nameR, email := emailL + f.email + emailR,
                                phone := phoneL + f.phone + phoneR))
         == CheckPatientForm(f)
  {
    TrimPadded(nameL, f.name, nameR);
    TrimPadded(emailL, f.email, emailR);
    TrimPadded(phoneL, f.phone, phoneR);
    CheckReadsTrimmed(f, f.(name := nameL + f.name + nameR, email := emailL + f.email + emailR,
                            phone := phoneL + f.phone + phoneR));
  }

  /** The verdict depends on the form only through its trimmed fields. */
  lemma CheckReadsTrimmed(f: PatientForm, g: PatientForm)
    requires f.patientType == g.patientType && f.age == g.age && Trim(f.reason) == Trim(g.reason)
    requires Trim(f.name) == Trim(g.name) && Trim(f.email) == Trim(g.email) && Trim(f.phone) == Trim(g.phone)
    ensures CheckPatientForm(f) == CheckPatientForm(g)
  {
  }

  lemma {:induction false} TrimStartPadded(pad: string, s: string)
    requires forall i :: 0 <= i < |pad| ==> IsJsWhitespace(pad[i])
    ensures TrimStart(pad + s) == TrimStart(s)
  {
    if pad != [] {
      assert (pad + s)[0] == pad[0];
      assert (pad + s)[1..] == pad[1..] + s;
      TrimStartPadded(pad[1..], s);
    } else {
      assert pad + s == s;
    }
  }

  lemma {:induction false} TrimEndPadded(s: string, pad: string)
    requires forall i :: 0 <= i < |pad| ==> IsJsWhitespace(pad[i])
    ensures TrimEnd(s + pad) == TrimEnd(s)
  {
    if pad != [] {
      var p := pad[..|pad| - 1];
      assert (s + pad)[|s + pad| - 1] == pad[|pad| - 1];
      assert (s + pad)[..|s + pad| - 1] == s + p;
      TrimEndPadded(s, p);
    } else {
      assert s + pad == s;
    }
  }

  lemma {:induction false} TrimStartAppend(s: string, t: string)
    requires TrimStart(s) != []
    ensures TrimStart(s + t) == TrimStart(s) + t
  {
    if IsJsWhitespace(s[0]) {
      assert (s + t)[0] == s[0];
      assert (s + t)[1..] == s[1..] + t;
      TrimStartAppend(s[1..], t);
    } else {
      assert (s + t)[0] == s[0];
    }
  }

  lemma {:induction false} AllWhitespaceTrimStart(s: string)
    requires forall i :: 0 <= i < |s| ==> IsJsWhitespace(s[i])
    ensures TrimStart(s) == []
  {
    if s != [] {
      AllWhitespaceTrimStart(s[1..]);
    }
  }

  lemma TrimPadded(left: string, s: string, right: string)
    requires AllWhitespace(left) && AllWhitespace(right)
    ensures Trim(left + s + right) == Trim(s)
  {
    assert left + s + right == left + (s + right);
    TrimStartPadded(left, s + right);
    var t := TrimStart(s);
    TrimStartSpec(s);
    if t == [] {
      assert forall i :: 0 <= i < |s + right| ==> IsJsWhitespace((s + right)[i]) by {
        forall i | 0 <= i < |s + right| ensures IsJsWhitespace((s + right)[i]) {
          if i >= |s| {
            assert (s + right)[i] == right[i - |s|];
          }
        }
      }
      AllWhitespaceTrimStart(s + right);
    } else {
      TrimStartAppend(s, right);
      TrimEndPadded(t, right);
    }
  }

  /** A name typed as `" Ann\t"` is stored as `"Ann"`. */
  lemma UnevenPaddingTrimmed(s: string)
    requires s == " Ann\t"
    ensures Trim(s) == "Ann"
  {
    assert s == [' '] + "Ann" + ['\t'];
    TrimPadded([' '], "Ann", ['\t']);
    assert TrimStart("Ann") == "Ann";
  }

  // ------------------------------------------------------------ the record

  /** `paymentMethod === 'online' ? 'paid' : 'pending'`. */
  function PaymentStatus(paymentMethod: string): (r: string)
    ensures r == "paid" <==> paymentMethod == "online"
    ensures r == "pending" <==> paymentMethod != "online"
  {
    if paymentMethod == "online" then "paid" else "pending"
  }

  /** The appointment record `confirmAppointment` sends. The two
      `generateId()` calls take their clock readings and random digits as
      inputs; `timestamp` is the ISO string of the chosen date and slot. */
  function BuildAppointment(
    department: Department, doctor: Doctor, patient: Patient, timeSlot: string,
    timestamp: string, paymentMethod: string,
    idClock: nat, idRandom: string, patientClock: nat, patientRandom: string): (r: Appointment)
    requires patient.Guest?
    ensures |r.id| > 3 && r.id[..3] == "id-"
    ensures |r.patientId| > 9 && r.patientId[..9] == "guest-id-"
    ensures r.paymentStatus == "paid" <==> paymentMethod == "online"
    ensures r.paymentStatus == "pending" <==> paymentMethod != "online"
    ensures r.paymentMethod == paymentMethod && r.status == "scheduled"
    ensures r.doctorId == doctor.id && r.doctorName == doctor.name && r.consultationFee == doctor.consultationFee
    ensures r.departmentId == department.id && r.departmentName == department.name
    ensures r.patientName == patient.name && r.patientEmail == patient.email && r.patientPhone == patient.phone
    ensures r.appointmentDate == timestamp && r.timeSlot == timeSlot
    ensures r.reason == patient.reason && r.notes == [] && r.cancellationReason == []
  {
    var guestId := "guest-" + GenerateId(patientClock, patientRandom);
    assert guestId[6..] == GenerateId(patientClock, patientRandom);
    Appointment(
      id := GenerateId(idClock, idRandom),
      patientId := guestId,
      patientName := patient.name,
      patientEmail := patient.email,
      patientPhone := patient.phone,
      doctorId := doctor.id,
      doctorName := doctor.name,
      departmentId := department.id,
      departmentName := department.name,
      appointmentDate := timestamp,
      timeSlot := timeSlot,
      consultationFee := doctor.consultationFee,
      paymentStatus := PaymentStatus(paymentMethod),
      paymentMethod := paymentMethod,
      status := "scheduled",
      reason := patient.reason,
      notes := "",
      cancellationReason := "")
  }

  /** Two guest bookings whose guest ids were drawn with different random
      digits get different patient ids. */
  lemma GuestIdsDiffer(
    department: Department, doctor: Doctor, patient: Patient, timeSlot: string,
    timestamp: string, paymentMethod: string,
    idClock: nat, idRandom: string, clock1: nat, random1: string, clock2: nat, random2: string)
    requires patient.Guest? && random1 != random2
    ensures BuildAppointment(department, doctor, patient, timeSlot, timestamp, paymentMethod, idClock, idRandom, clock1, random1).patientId
         != BuildAppointment(department, doctor, patient, timeSlot, timestamp, paymentMethod, idClock, idRandom, clock2, random2).patientId
  {
    var g1 := "guest-" + GenerateId(clock1, random1);
    var g2 := "guest-" + GenerateId(clock2, random2);
    if g1 == g2 {
      assert g1[6..] == GenerateId(clock1, random1);
      assert g2[6..] == GenerateId(clock2, random2);
      GenerateIdInjective(clock1, random1, clock2, random2);
    }
  }

  // --------------------------------------------------------- the session

  /** `bookingData` together with `currentStep` (`date` is never assigned
      by the source and stays `None`). */
  datatype Session = Session(
    department: Option<Department>,
    doctor: Option<Doctor>,
    date: Option<string>,
    timeSlot: Option<string>,
    patient: Patient,
    step: int)

  /** The session the page starts with, and the one a booking resets to. */
  const EmptySession := Session(None, None, None, None, NoPatient, 1)

  /** What `nextStep` did. */
  datatype StepOutcome =
    | Advanced
    | Rejected(error: FormError)  // step 4: the form failed `validatePatientInfo`
    | SummaryFailed               // step 4: `populateConfirmation` threw on a missing department or doctor

  /** What `confirmAppointment` did. */
  datatype BookingOutcome =
    | TermsNotAccepted
    | InvalidDateTime             // `new Date(...).toISOString()` threw a RangeError
    | Booked(appointmentId: string)
    | BookingFailed               // `createRecord` threw

  /** The doctors of department `id` that are active: the filter of
      `loadDoctorsForDepartment`. */
  function OfDepartment(id: string): Doctor -> bool
  {
    (doc: Doctor) => doc.departmentId == id && doc.status == "active"
  }

  /** The list loaded for a department holds exactly the active doctors of
      that department, in the order the store returned them. */
  lemma DoctorsOfDepartment(docs: seq<Doctor>, id: string)
    ensures IsSubsequence(Filter(docs, OfDepartment(id)), docs)
    ensures forall d :: d in Filter(docs, OfDepartment(id)) <==>
                        d in docs && d.departmentId == id && d.status == "active"
    ensures |Filter(docs, OfDepartment(id))| == CountWhere(docs, OfDepartment(id))
  {
    FilterIsSubsequence(docs, OfDepartment(id));
    FilterSound(docs, OfDepartment(id));
    FilterComplete(docs, OfDepartment(id));
    FilterLength(docs, OfDepartment(id));
  }

  /** The search box of the doctor step: the lowercased input as a
      substring of the lowercased name or specialization, with no guard for
      an empty input. */
  function SearchDoctors(doctors: seq<Doctor>, input: string): seq<Doctor>
  {
    Filter(doctors, DoctorDirectory.MatchesQuery(ToLower(input)))
  }

  /** The booking page's search gives the same list as the directory's
      `filterDoctors` with no department chosen, even for an empty input
      (every string includes the empty string). */
  lemma SearchAgreesWithDirectory(doctors: seq<Doctor>, input: string)
    ensures SearchDoctors(doctors, input) == DoctorDirectory.FilterDoctors(doctors, input, "")
  {
    if input == [] {
      var p := DoctorDirectory.MatchesQuery(ToLower(input));
      assert ToLower(input) == [];
      forall d | d in doctors ensures p(d) {
        assert [] <= ToLower(d.name);
      }
      FilterAll(doctors, p);
    } else {
      assert ToLower(input) != [];
    }
  }

  class BookingWizard {
    var department: Option<Department>
    var doctor: Option<Doctor>
    var date: Option<string>
    var timeSlot: Option<string>
    var patient: Patient
    var currentStep: int
    /** The active doctors of the chosen department. */
    var allDoctors: seq<Doctor>
    /** The active departments. */
    var allDepartments: seq<Department>

    function Snapshot(): Session
      reads this
    {
      Session(department, doctor, date, timeSlot, patient, currentStep)
    }

    /** The step is one of the five panels; the Confirmation panel is only
        reached with a department, a doctor and an accepted guest. */
    ghost predicate Valid()
      reads this
    {
      && 1 <= currentStep <= 5
      && (currentStep == 5 ==> department.Some? && doctor.Some? && patient.Guest?)
    }

    constructor()
      ensures Valid()
      ensures Snapshot() == EmptySession
      ensures allDoctors == [] && allDepartments == []
    {
      department, doctor, date, timeSlot, patient := None, None, None, None, NoPatient;
      currentStep := 1;
      allDoctors, allDepartments := [], [];
    }

    /** `loadDepartmentsForBooking` with the answer of `fetchData`: a missing
        or empty answer leaves the list as it was. */
    method LoadDepartmentsForBooking(fetched: Option<seq<Department>>)
      modifies this`allDepartments
      ensures fetched.None? || fetched.value == [] ==> allDepartments == old(allDepartments)
      ensures fetched.Some? && fetched.value != [] ==> allDepartments == Filter(fetched.value, IsActiveDepartment)
    {
      if fetched.None? || fetched.value == [] {
        return;
      }
      allDepartments := Filter(fetched.value, IsActiveDepartment);
    }

    /** `selectDepartment(id)` followed by `loadDoctorsForDepartment(id)`
        with the answer of `fetchData('doctors')`, then `nextStep()`. An
        unknown id changes nothing. A failed doctor fetch keeps the old
        doctor list but still advances. */
    method SelectDepartment(id: string, fetchedDoctors: Option<seq<Doctor>>)
      requires Valid() && currentStep == 1
      modifies this
      ensures Valid()
      ensures allDepartments == old(allDepartments)
      ensures FindDepartment(old(allDepartments), id).None? ==>
                Snapshot() == old(Snapshot()) && allDoctors == old(allDoctors)
      ensures FindDepartment(old(allDepartments), id).Some? ==>
                && Snapshot() == old(Snapshot()).(department := FindDepartment(old(allDepartments), id), step := 2)
                && department.value.id == id
                && allDoctors == (if fetchedDoctors.Some? then Filter(fetchedDoctors.value, OfDepartment(id))
                                  else old(allDoctors))
    {
      var found := FindDepartment(allDepartments, id);
      if found.None? {
        return;
      }
      department := found;
      if fetchedDoctors.Some? {
        allDoctors := Filter(fetchedDoctors.value, OfDepartment(id));
      }
      currentStep := currentStep + 1;
    }

    /** `selectDoctor(id)`: looks the id up among the loaded doctors. */
    method SelectDoctor(id: string)
      requires Valid() && currentStep == 2
      modifies this
      ensures Valid()
      ensures allDoctors == old(allDoctors) && allDepartments == old(allDepartments)
      ensures FindDoctor(old(allDoctors), id).None? ==> Snapshot() == old(Snapshot())
      ensures FindDoctor(old(allDoctors), id).Some? ==>
                && Snapshot() == old(Snapshot()).(doctor := FindDoctor(old(allDoctors), id), step := 3)
                && doctor.value.id == id && doctor.value in allDoctors
    {
      var found := FindDoctor(allDoctors, id);
      if found.None? {
        return;
      }
      doctor := found;
      currentStep := currentStep + 1;
    }

    /** `selectTimeSlot(slot)`: records the slot, whichever it is, and moves
        on (after a cosmetic delay in the source). */
    method SelectTimeSlot(slot: string)
      requires Valid() && currentStep == 3
      modifies this
      ensures Valid()
      ensures allDoctors == old(allDoctors) && allDepartments == old(allDepartments)
      ensures Snapshot() == old(Snapshot()).(timeSlot := Some(slot), step := 4)
    {
      timeSlot := Some(slot);
      currentStep := currentStep + 1;
    }

    /** `validatePatientInfo` for the current form values: on acceptance the
        guest bundle replaces `patient`; on refusal `patient` is kept. */
    method ValidatePatientInfo(form: PatientForm) returns (r: Result<Patient, FormError>)
      modifies this`patient
      ensures r == CheckPatientForm(form)
      ensures r.Ok? ==> patient == r.value
      ensures r.Err? ==> patient == old(patient)
    {
      r := CheckPatientForm(form);
      if r.Ok? {
        patient := r.value;
      }
    }

    /** `nextStep()`. Below step 4 it moves on unconditionally. On step 4 it
        validates the form; the confirmation summary then reads the
        department's and doctor's names, which throws when either is
        missing, after the patient has been stored but before the step
        moves. */
    method NextStep(form: PatientForm) returns (outcome: StepOutcome)
      requires Valid() && 1 <= currentStep <= 4
      modifies this
      ensures Valid()
      ensures allDoctors == old(allDoctors) && allDepartments == old(allDepartments)
      ensures old(currentStep) < 4 ==>
                outcome == Advanced && Snapshot() == old(Snapshot()).(step := old(currentStep) + 1)
      ensures old(currentStep) == 4 && CheckPatientForm(form).Err? ==>
                outcome == Rejected(CheckPatientForm(form).error) && Snapshot() == old(Snapshot())
      ensures old(currentStep) == 4 && CheckPatientForm(form).Ok? && old(department).Some? && old(doctor).Some? ==>
                outcome == Advanced && Snapshot() == old(Snapshot()).(patient := CheckPatientForm(form).value, step := 5)
      ensures old(currentStep) == 4 && CheckPatientForm(form).Ok? && (old(department).None? || old(doctor).None?) ==>
                outcome == SummaryFailed && Snapshot() == old(Snapshot()).(patient := CheckPatientForm(form).value)
    {
      if currentStep < 4 {
        currentStep := currentStep + 1;
        return Advanced;
      }
      var checked := ValidatePatientInfo(form);
      if checked.Err? {
        return Rejected(checked.error);
      }
      if department.None? || doctor.None? {
        return SummaryFailed;
      }
      currentStep := 5;
      outcome := Advanced;
    }

    /** `previousStep()`: one step back, nothing re-validated. */
    method PreviousStep()
      requires Valid() && 2 <= currentStep <= 5
      modifies this`currentStep
      ensures Valid()
      ensures currentStep == old(currentStep) - 1
    {
      currentStep := currentStep - 1;
    }

    /** Going back from the doctor step and choosing the same department
        again, with the same doctor list from the store, gives the same
        session. */
    method BackAndReselectDepartment(fetchedDoctors: Option<seq<Doctor>>)
      requires Valid() && currentStep == 2 && department.Some?
      requires FindDepartment(allDepartments, department.value.id) == department
      modifies this
      ensures Valid()
      ensures Snapshot() == old(Snapshot())
      ensures allDepartments == old(allDepartments)
      ensures fetchedDoctors.Some? ==> allDoctors == Filter(fetchedDoctors.value, OfDepartment(department.value.id))
      ensures fetchedDoctors.None? ==> allDoctors == old(allDoctors)
    {
      var id := department.value.id;
      PreviousStep();
      SelectDepartment(id, fetchedDoctors);
    }

    /** Going back from the time step and choosing the same doctor again
        gives the same session. */
    method BackAndReselectDoctor()
      requires Valid() && currentStep == 3 && doctor.Some?
      requires FindDoctor(allDoctors, doctor.value.id) == doctor
      modifies this
      ensures Valid()
      ensures Snapshot() == old(Snapshot())
      ensures allDoctors == old(allDoctors) && allDepartments == old(allDepartments)
    {
      var id := doctor.value.id;
      PreviousStep();
      SelectDoctor(id);
    }

    /** `confirmAppointment()`. The terms box is checked first; then the
        chosen date and slot must form a valid date (`timestamp` is `None`
        when they do not, and a missing slot never does); then the record
        is created. Only a successful create resets the session. */
    method ConfirmAppointment(
      store: AppointmentStore, termsAccepted: bool, paymentMethod: string, timestamp: Option<string>,
      idClock: nat, idRandom: string, patientClock: nat, patientRandom: string, requestOk: bool)
      returns (outcome: BookingOutcome)
      requires Valid() && currentStep == 5
      modifies this, store
      ensures Valid()
      ensures allDoctors == old(allDoctors) && allDepartments == old(allDepartments)
      ensures !termsAccepted ==>
                outcome == TermsNotAccepted && Snapshot() == old(Snapshot()) && store.records == old(store.records)
      ensures termsAccepted && (old(timeSlot).None? || timestamp.None?) ==>
                outcome == InvalidDateTime && Snapshot() == old(Snapshot()) && store.records == old(store.records)
      ensures termsAccepted && old(timeSlot).Some? && timestamp.Some? ==>
                var rec := BuildAppointment(old(department).value, old(doctor).value, old(patient),
                                            old(timeSlot).value, timestamp.value, paymentMethod,
                                            idClock, idRandom, patientClock, patientRandom);
                if requestOk then
                  outcome == Booked(rec.id) && Snapshot() == EmptySession
                  && store.records == old(store.records) + [rec]
                else
                  outcome == BookingFailed && Snapshot() == old(Snapshot())
                  && store.records == old(store.records)
    {
      if !termsAccepted {
        return TermsNotAccepted;
      }
      if timeSlot.None? || timestamp.None? {
        return InvalidDateTime;
      }
      var rec := BuildAppointment(department.value, doctor.value, patient, timeSlot.value, timestamp.value,
                                  paymentMethod, idClock, idRandom, patientClock, patientRandom);
      var created := store.Create(rec, requestOk);
      if created.None? {
        return BookingFailed;
      }
      department, doctor, date, timeSlot, patient := None, None, None, None, NoPatient;
      currentStep := 1;
      outcome := Booked(created.value.id);
    }
  }
}
