/** "Manage appointments" of `appointments.js`: looking a patient's
    appointments up by e-mail and cancelling one of them. Both work on the
    `appointments` table of the record store. */
module Lookup {
  import opened Seqs
  import opened Text
  import opened Validators
  import opened Records
  import opened Store

  // --------------------------------------------------------------- lookup

  /** What the appointments list shows after a lookup. */
  datatype LookupOutcome =
    | InvalidEmail                           // toast; no query is sent
    | NoAppointments                         // "No appointments found for this email."
    | Found(appointments: seq<Appointment>)  // `displayUserAppointments`

  /** The client-side filter `apt.patient_email === email`. */
  function OfEmail(records: seq<Appointment>, email: string): seq<Appointment>
  {
    Filter(records, (a: Appointment) => a.patientEmail == email)
  }

  /** What `lookupAppointments` shows for the text of the lookup box, when
      the store holds `records` and the query succeeds (`fetchOk`) or not.
      A failed query answers `null`, which reads as "no appointments". */
  function LookupResult(records: seq<Appointment>, input: string, fetchOk: bool): LookupOutcome
  {
    var email := Trim(input);
    if email == [] || !ValidateEmail(email) then InvalidEmail
    else if !fetchOk || records == [] then NoAppointments
    else
      var mine := OfEmail(records, email);
      if mine == [] then NoAppointments else Found(mine)
  }

  /** `lookupAppointments`: trim the address, refuse it without querying
      when it is empty or malformed, otherwise fetch the table and keep the
      rows of that address. */
  method LookupAppointments(store: AppointmentStore, input: string, fetchOk: bool)
    returns (r: LookupOutcome)
    ensures r == LookupResult(store.records, input, fetchOk)
  {
    var email := Trim(input);
    if email == [] || !ValidateEmail(email) {
      return InvalidEmail;
    }
    var result := store.FetchAll(fetchOk);
    if result.None? || result.value == [] {
      return NoAppointments;
    }
    var mine := OfEmail(result.value, email);
    if mine == [] {
      return NoAppointments;
    }
    return Found(mine);
  }

  /** The three verdicts of a lookup, each with the exact condition that
      produces it. A lookup that finds nothing, or whose query fails, is not
      an error. */
  lemma {:induction false} LookupVerdicts(records: seq<Appointment>, input: string, fetchOk: bool)
    ensures var email, r := Trim(input), LookupResult(records, input, fetchOk);
      && (r.InvalidEmail? <==> !ValidateEmail(email))
      && (r.NoAppointments? <==>
            ValidateEmail(email)
            && (!fetchOk || forall j :: 0 <= j < |records| ==> records[j].patientEmail != email))
      && (r.Found? <==>
            ValidateEmail(email) && fetchOk
            && exists j :: 0 <= j < |records| && records[j].patientEmail == email)
  {
    var email := Trim(input);
    var p := (a: Appointment) => a.patientEmail == email;
    if email == [] {
      assert multiset(email)['@'] == 0;
    }
    FilterSound(records, p);
    FilterComplete(records, p);
    if exists j :: 0 <= j < |records| && records[j].patientEmail == email {
      var j :| 0 <= j < |records| && records[j].patientEmail == email;
      assert records[j] in OfEmail(records, email);
    }
    if OfEmail(records, email) != [] {
      var a := OfEmail(records, email)[0];
      assert a in records;
    }
  }

  /** A successful lookup lists exactly the rows of the trimmed address:
      each listed row is one of the store's and has that address, every
      such row is listed, and the list keeps the store's order. */
  lemma {:induction false} LookupFoundExactly(records: seq<Appointment>, input: string, fetchOk: bool)
    requires LookupResult(records, input, fetchOk).Found?
    ensures var list, email := LookupResult(records, input, fetchOk).appointments, Trim(input);
      && list != []
      && (forall a :: a in list ==> a in records && a.patientEmail == email)
      && (forall j :: 0 <= j < |records| && records[j].patientEmail == email ==> records[j] in list)
      && IsSubsequence(list, records)
      && |list| == CountWhere(records, (x: Appointment) => x.patientEmail == email)
  {
    var email := Trim(input);
    var p := (a: Appointment) => a.patientEmail == email;
    FilterSound(records, p);
    FilterComplete(records, p);
    FilterIsSubsequence(records, p);
    FilterLength(records, p);
  }

  /** A refused address gives the same answer whatever the store holds: no
      query is made. */
  lemma {:induction false} InvalidEmailIgnoresStore(
    records1: seq<Appointment>, ok1: bool, records2: seq<Appointment>, ok2: bool, input: string)
    requires !ValidateEmail(Trim(input))
    ensures LookupResult(records1, input, ok1) == LookupResult(records2, input, ok2) == InvalidEmail
  {
  }

  /** The store's own `search` may narrow the rows it returns any way that
      keeps the rows of the address; the exact filter
      `apt.patient_email === email` then gives the same list as filtering
      the whole table. */
  lemma {:induction false} NarrowedSearchSameResult(
    records: seq<Appointment>, email: string, search: Appointment -> bool)
    requires forall a :: a in records && a.patientEmail == email ==> search(a)
    ensures OfEmail(Filter(records, search), email) == OfEmail(records, email)
  {
    var p := (a: Appointment) => a.patientEmail == email;
    FilterNarrowed(records, search, p);
  }

  lemma {:induction false} ExampleAddress(email: string)
    requires email == "x@y.com"
    ensures ValidateEmail(email) && Trim(email) == email
  {
    assert EmailPatternAt(email, 1, 3);
    MatchingEmailAccepted(email, 1, 3);
    TrimStartNoLeading(email);
    TrimEndNoTrailing(email);
  }

  /** A clean, valid address finds the matching rows of the store. */
  lemma {:induction false} CleanAddressFinds(records: seq<Appointment>, email: string)
    requires ValidateEmail(email) && Trim(email) == email
    requires OfEmail(records, email) != []
    ensures LookupResult(records, email, true) == Found(OfEmail(records, email))
  {
    assert multiset(email)['@'] == 1;
  }

  /** Two rows of `x@y.com` and one of `z@y.com`: the lookup of `x@y.com`
      returns the two, in store order. */
  lemma {:induction false} LookupTwoOfThree(a: Appointment, b: Appointment, c: Appointment, email: string)
    requires email == "x@y.com"
    requires a.patientEmail == email && b.patientEmail == email && c.patientEmail == "z@y.com"
    ensures LookupResult([a, b, c], email, true) == Found([a, b])
  {
    ExampleAddress(email);
    assert c.patientEmail != email by {
      assert c.patientEmail[0] != email[0];
    }
    FilterTwoOfThree(a, b, c, (x: Appointment) => x.patientEmail == email);
    CleanAddressFinds([a, b, c], email);
  }

  // --------------------------------------------------------------- cancel

  /** The list offers Reschedule and Cancel only for a scheduled
      appointment. */
  predicate CancelOffered(a: Appointment)
  {
    a.status == "scheduled"
  }

  datatype CancelOutcome =
    | NotConfirmed                           // the confirm dialog was dismissed
    | NoReason                               // the reason prompt gave nothing
    | CancelFailed                           // the patch failed
    | Cancelled(refresh: Option<LookupOutcome>)  // lookup re-run when the box is not empty

  /** `cancelAppointment(appointmentId)`. The answers of the confirm and
      prompt dialogs are inputs (`reason` is `None` when the prompt is
      dismissed); so are the outcomes of the patch and of the refreshing
      lookup, and the raw text of the lookup box. */
  method CancelAppointment(
    store: AppointmentStore, id: string, confirmed: bool, reason: Option<string>,
    patchOk: bool, lookupInput: string, refetchOk: bool)
    returns (r: CancelOutcome)
    modifies store
    ensures !confirmed ==> r == NotConfirmed && store.records == old(store.records)
    ensures confirmed && (reason.None? || reason.value == []) ==>
      r == NoReason && store.records == old(store.records)
    ensures confirmed && reason.Some? && reason.value != [] ==>
      var k := FirstWithId(old(store.records), id);
      if patchOk && k.Some? then
        && store.records == Patched(old(store.records), id, "cancelled", reason.value)
        && r == Cancelled(if lookupInput == [] then None
                          else Some(LookupResult(store.records, lookupInput, refetchOk)))
      else
        r == CancelFailed && store.records == old(store.records)
  {
    if !confirmed {
      return NotConfirmed;
    }
    if reason.None? || reason.value == [] {
      return NoReason;
    }
    var patched := store.Patch(id, "cancelled", reason.value, patchOk);
    if patched.None? {
      return CancelFailed;
    }
    if lookupInput == [] {
      return Cancelled(None);
    }
    var refreshed := LookupAppointments(store, lookupInput, refetchOk);
    return Cancelled(Some(refreshed));
  }

  /** After a cancel the record is `cancelled` with the given reason, no
      longer offers Cancel, and every other record keeps whether it offers
      it. */
  lemma {:induction false} CancelledNoLongerOffered(records: seq<Appointment>, id: string, reason: string)
    requires FirstWithId(records, id).Some?
    ensures var k, r := FirstWithId(records, id).value, Patched(records, id, "cancelled", reason);
      && r[k].status == "cancelled" && r[k].cancellationReason == reason
      && !CancelOffered(r[k])
      && forall j :: 0 <= j < |records| && j != k ==> (CancelOffered(r[j]) <==> CancelOffered(records[j]))
  {
    var r := Patched(records, id, "cancelled", reason);
    var k := FirstWithId(records, id).value;
    assert r[k].status == "cancelled";
    assert "cancelled"[0] != "scheduled"[0];
  }

  /** Cancelling never changes whose appointment a row is: the refreshed
      lookup lists as many rows as before the cancel. */
  lemma {:induction false} CancelKeepsLookupLength(
    records: seq<Appointment>, id: string, reason: string, email: string)
    ensures |OfEmail(Patched(records, id, "cancelled", reason), email)| == |OfEmail(records, email)|
  {
    var r := Patched(records, id, "cancelled", reason);
    var p := (a: Appointment) => a.patientEmail == email;
    assert forall j :: 0 <= j < |records| ==> r[j].patientEmail == records[j].patientEmail;
    CountPointwise(r, records, p);
    FilterLength(r, p);
    FilterLength(records, p);
  }
}
