/** The `appointments` table of the record store, as the wizard sees it
    through `fetchData`, `createRecord` and `patchRecord` of `main.js`. The
    network is not modelled: each call takes whether the request succeeded
    as an input. `fetchData` swallows failures and answers `null` (here
    `None`); `createRecord` and `patchRecord` rethrow them, which here is a
    `None` result that the caller must handle. */
module Store {
  import opened Seqs
  import opened Records

  /** Index of the first record with the given id. */
  function FirstWithId(records: seq<Appointment>, id: string): (k: Option<nat>)
    ensures k.None? <==> forall j :: 0 <= j < |records| ==> records[j].id != id
    ensures k.Some? ==> k.value < |records| && records[k.value].id == id
                        && forall j :: 0 <= j < k.value ==> records[j].id != id
  {
    if records == [] then None
    else if records[0].id == id then Some(0)
    else
      var k := FirstWithId(records[1..], id);
      assert forall j :: 0 < j < |records| ==> records[j] == records[1..][j - 1];
      if k.None? then None else Some(k.value + 1)
  }

  /** The partial update `{status, cancellation_reason}` of one record. */
  function WithStatus(a: Appointment, status: string, reason: string): Appointment
  {
    a.(status := status, cancellationReason := reason)
  }

  /** The table after a successful `PATCH` of record `id`: the first record
      with that id gets the new status and cancellation reason; no other
      record and no other field changes. */
  function Patched(records: seq<Appointment>, id: string, status: string, reason: string)
    : (r: seq<Appointment>)
    ensures |r| == |records|
    ensures forall j :: 0 <= j < |records| && records[j].id != id ==> r[j] == records[j]
    ensures match FirstWithId(records, id)
      case None => r == records
      case Some(k) =>
        && r[k].status == status && r[k].cancellationReason == reason
        && r[k] == records[k].(status := status, cancellationReason := reason)
        && forall j :: 0 <= j < |records| && j != k ==> r[j] == records[j]
  {
    match FirstWithId(records, id)
    case None => records
    case Some(k) => records[k := WithStatus(records[k], status, reason)]
  }

  class AppointmentStore {
    /** The rows of the `appointments` table, in the order the store lists
        them. */
    var records: seq<Appointment>

    constructor(initial: seq<Appointment>)
      ensures records == initial
    {
      records := initial;
    }

    /** `fetchData('appointments', ...)`: the rows on success, `null` on any
        failure (the error is logged and swallowed). */
    method FetchAll(requestOk: bool) returns (r: Option<seq<Appointment>>)
      ensures requestOk ==> r == Some(records)
      ensures !requestOk ==> r.None?
    {
      if requestOk {
        r := Some(records);
      } else {
        r := None;
      }
    }

    /** `createRecord('appointments', rec)`: on success the record is added
        at the end of the table and returned; on failure the table is
        unchanged and the error reaches the caller. */
    method Create(rec: Appointment, requestOk: bool) returns (r: Option<Appointment>)
      modifies this
      ensures requestOk ==> r == Some(rec) && records == old(records) + [rec]
      ensures !requestOk ==> r.None? && records == old(records)
    {
      if requestOk {
        records := records + [rec];
        r := Some(rec);
      } else {
        r := None;
      }
    }

    /** `patchRecord('appointments', id, {status, cancellation_reason})`. It
        fails, leaving the table unchanged, when the request fails or no
        record has that id (the store answers 404, which is not `ok`). */
    method Patch(id: string, status: string, reason: string, requestOk: bool)
      returns (r: Option<Appointment>)
      modifies this
      ensures var k := FirstWithId(old(records), id);
        if requestOk && k.Some? then
          records == Patched(old(records), id, status, reason)
          && r == Some(records[k.value])
        else
          r.None? && records == old(records)
    {
      var k := FirstWithId(records, id);
      if requestOk && k.Some? {
        records := Patched(records, id, status, reason);
        r := Some(records[k.value]);
      } else {
        r := None;
      }
    }
  }
}
