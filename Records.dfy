/** The records the booking wizard reads from and writes to the table store:
    departments, doctors, the patient bundle collected by the wizard and the
    persisted appointment. Field names follow the store's columns in camel
    case; only the fields the core logic reads or writes are kept (icons,
    photos, biographies and descriptions are rendering-only). */
module Records {
  import opened Seqs

  datatype Department = Department(id: string, name: string, status: string)

  /** A doctor. `availableDays` is absent when the record has no
      `available_days` column, and `availableHours` when it has no
      `available_hours` column; otherwise the latter is the `"HH:MM-HH:MM"`
      text. The fee is copied into bookings, never computed
      on. */
  datatype Doctor = Doctor(
    id: string,
    departmentId: string,
    name: string,
    specialization: string,
    consultationFee: real,
    status: string,
    availableDays: Option<seq<string>>,
    availableHours: Option<string>)

  /** `bookingData.patient`: the empty object `{}` until the guest form is
      accepted, then the trimmed guest bundle (`type: 'guest'`). `age` is
      the result of `parseInt`, `None` standing for `NaN`. */
  datatype Patient =
    | NoPatient
    | Guest(name: string, email: string, phone: string, age: Option<int>, reason: string)

  /** The appointment record sent to, and kept by, the store. */
  datatype Appointment = Appointment(
    id: string,
    patientId: string,
    patientName: string,
    patientEmail: string,
    patientPhone: string,
    doctorId: string,
    doctorName: string,
    departmentId: string,
    departmentName: string,
    appointmentDate: string,
    timeSlot: string,
    consultationFee: real,
    paymentStatus: string,
    paymentMethod: string,
    status: string,
    reason: string,
    notes: string,
    cancellationReason: string)

  predicate IsActiveDepartment(d: Department) { d.status == "active" }

  predicate IsActiveDoctor(d: Doctor) { d.status == "active" }

  /** `list.find(d => d.id === id)` over departments. */
  function FindDepartment(list: seq<Department>, id: string): (r: Option<Department>)
    ensures r.Some? ==> r.value in list && r.value.id == id
    ensures r.None? <==> forall j :: 0 <= j < |list| ==> list[j].id != id
    ensures r.Some? ==> exists k :: 0 <= k < |list| && list[k] == r.value
                                    && forall j :: 0 <= j < k ==> list[j].id != id
  {
    Find(list, (d: Department) => d.id == id)
  }

  /** `list.find(d => d.id === id)` over doctors. */
  function FindDoctor(list: seq<Doctor>, id: string): (r: Option<Doctor>)
    ensures r.Some? ==> r.value in list && r.value.id == id
    ensures r.None? <==> forall j :: 0 <= j < |list| ==> list[j].id != id
    ensures r.Some? ==> exists k :: 0 <= k < |list| && list[k] == r.value
                                    && forall j :: 0 <= j < k ==> list[j].id != id
  {
    Find(list, (d: Doctor) => d.id == id)
  }
}
