/** The application handlers of db/dbAPI.py over an in-memory stand-in for
    the Supabase `applications` table: the closed status enumeration, the
    request model with its default status, lookup by natural key, insert,
    and status update, each with the HTTP error the handler raises. */
module ApplicationStore {
  import opened Common

  /** The database ENUM of application statuses. */
  datatype ApplicationStatus = PendingResponse | Rejected | InterviewScheduled | TalkScheduled | OfferReceived

  /** The display string each status stands for in the table. */
  function Value(s: ApplicationStatus): string
  {
    match s
    case PendingResponse => "Pending Response"
    case Rejected => "Rejected"
    case InterviewScheduled => "Interview Scheduled"
    case TalkScheduled => "Talk Scheduled"
    case OfferReceived => "Offer Received"
  }

  const AllStatuses: seq<ApplicationStatus> := [PendingResponse, Rejected, InterviewScheduled, TalkScheduled, OfferReceived]

  /** Validating a request string against the enumeration, by value. */
  function ParseStatus(v: string): (r: Option<ApplicationStatus>)
    ensures r.Some? ==> Value(r.value) == v
    ensures r.None? ==> forall s :: Value(s) != v
  {
    if v == "Pending Response" then Some(PendingResponse)
    else if v == "Rejected" then Some(Rejected)
    else if v == "Interview Scheduled" then Some(InterviewScheduled)
    else if v == "Talk Scheduled" then Some(TalkScheduled)
    else if v == "Offer Received" then Some(OfferReceived)
    else None
  }

  /** Each display string validates back to its own status. */
  lemma ValueValidates(s: ApplicationStatus)
    ensures ParseStatus(Value(s)) == Some(s)
  {
    match s
    case PendingResponse =>
    case Rejected =>
    case InterviewScheduled =>
    case TalkScheduled =>
    case OfferReceived =>
  }

  /** The enumeration is closed: exactly five statuses, with five different
      display strings, each of which validates back to its own status. */
  lemma StatusesClosed()
    ensures |AllStatuses| == 5
    ensures forall s :: s in AllStatuses
    ensures forall i, j :: 0 <= i < j < |AllStatuses| ==> Value(AllStatuses[i]) != Value(AllStatuses[j])
    ensures forall s :: ParseStatus(Value(s)) == Some(s)
  {
    forall s ensures s in AllStatuses && ParseStatus(Value(s)) == Some(s) {
      ValueValidates(s);
    }
  }

  /** A status string that a row may hold. */
  predicate IsStatusValue(v: string)
  {
    ParseStatus(v).Some?
  }

  /** The validated request body of POST /applications. */
  datatype Application = Application(email: string, companyName: string, jobTitle: string, status: ApplicationStatus)

  datatype HttpError = HttpError(code: int, detail: string)

  /** FastAPI's status code for a request body that fails validation. */
  const UnprocessableEntity := 422

  /** Building an `Application` from the request fields: a missing status
      takes the default PendingResponse; a status string outside the
      enumeration is refused before the handler runs. */
  function ParseApplication(email: string, companyName: string, jobTitle: string, status: Option<string>): (r: Result<Application, HttpError>)
    ensures status.None? ==> r == Success(Application(email, companyName, jobTitle, PendingResponse))
    ensures status.Some? ==> (r.Success? <==> IsStatusValue(status.value))
    ensures r.Success? ==> r.value.email == email && r.value.companyName == companyName && r.value.jobTitle == jobTitle
    ensures r.Success? && status.Some? ==> Value(r.value.status) == status.value
    ensures r.Failure? ==> r.error.code == UnprocessableEntity
  {
    if status.None? then Success(Application(email, companyName, jobTitle, PendingResponse))
    else
      match ParseStatus(status.value)
      case Some(s) => Success(Application(email, companyName, jobTitle, s))
      case None => Failure(HttpError(UnprocessableEntity, "Input should be one of the application statuses"))
  }

  /** Validating the `status_update` query parameter of
      PUT /applications/{app_id}: a display string of the enumeration gives
      its status, anything else is refused with 422 before the handler runs. */
  function ParseStatusUpdate(v: string): (r: Result<ApplicationStatus, HttpError>)
    ensures r.Success? <==> IsStatusValue(v)
    ensures r.Success? ==> Value(r.value) == v
    ensures r.Failure? ==> r.error.code == UnprocessableEntity
  {
    match ParseStatus(v)
    case Some(s) => Success(s)
    case None => Failure(HttpError(UnprocessableEntity, "Input should be one of the application statuses"))
  }

  /** One row of the `applications` table. */
  datatype Row = Row(appId: int, email: string, companyName: string, jobTitle: string, status: string)

  /** The row has the natural key (email, company_name, job_title). */
  predicate HasKey(r: Row, email: string, companyName: string, jobTitle: string)
  {
    r.email == email && r.companyName == companyName && r.jobTitle == jobTitle
  }

  /** The app_ids of the rows with a natural key, in table order. */
  function MatchingIds(rows: seq<Row>, email: string, companyName: string, jobTitle: string): seq<int>
  {
    if rows == [] then []
    else (if HasKey(rows[0], email, companyName, jobTitle) then [rows[0].appId] else [])
         + MatchingIds(rows[1..], email, companyName, jobTitle)
  }

  /** Exactly the ids of matching rows are found. */
  lemma {:induction false} MatchingIdsMembers(rows: seq<Row>, email: string, companyName: string, jobTitle: string)
    ensures forall id :: id in MatchingIds(rows, email, companyName, jobTitle) <==>
      exists i :: 0 <= i < |rows| && HasKey(rows[i], email, companyName, jobTitle) && rows[i].appId == id
    ensures |MatchingIds(rows, email, companyName, jobTitle)| <= |rows|
  {
    if rows != [] {
      MatchingIdsMembers(rows[1..], email, companyName, jobTitle);
      forall id | (exists i :: 0 <= i < |rows| && HasKey(rows[i], email, companyName, jobTitle) && rows[i].appId == id)
        ensures id in MatchingIds(rows, email, companyName, jobTitle)
      {
        var i :| 0 <= i < |rows| && HasKey(rows[i], email, companyName, jobTitle) && rows[i].appId == id;
        if i > 0 {
          assert rows[1..][i - 1] == rows[i];
        }
      }
      forall id | id in MatchingIds(rows[1..], email, companyName, jobTitle)
        ensures exists i :: 0 <= i < |rows| && HasKey(rows[i], email, companyName, jobTitle) && rows[i].appId == id
      {
        var j :| 0 <= j < |rows[1..]| && HasKey(rows[1..][j], email, companyName, jobTitle) && rows[1..][j].appId == id;
        assert rows[j + 1] == rows[1..][j];
      }
    }
  }

  lemma {:induction false} MatchingIdsAppend(rows: seq<Row>, row: Row, email: string, companyName: string, jobTitle: string)
    ensures MatchingIds(rows + [row], email, companyName, jobTitle)
         == MatchingIds(rows, email, companyName, jobTitle) + (if HasKey(row, email, companyName, jobTitle) then [row.appId] else [])
  {
    var tail := if HasKey(row, email, companyName, jobTitle) then [row.appId] else [];
    if rows == [] {
      assert [row][1..] == [];
      assert MatchingIds([row], email, companyName, jobTitle) == tail + MatchingIds([], email, companyName, jobTitle);
    } else {
      var all := rows + [row];
      assert all[0] == rows[0];
      assert all[1..] == rows[1..] + [row];
      var head := if HasKey(rows[0], email, companyName, jobTitle) then [rows[0].appId] else [];
      calc {
        MatchingIds(all, email, companyName, jobTitle);
        head + MatchingIds(rows[1..] + [row], email, companyName, jobTitle);
        { MatchingIdsAppend(rows[1..], row, email, companyName, jobTitle); }
        head + (MatchingIds(rows[1..], email, companyName, jobTitle) + tail);
        MatchingIds(rows, email, companyName, jobTitle) + tail;
      }
    }
  }

  /** Inserting a row whose natural key is already present leaves two
      matching rows: nothing in the handlers rejects a duplicate key (a
      unique constraint in the database is not part of this model), so a
      lookup of that key then no longer finds a single row. */
  lemma DuplicateInsertKeepsBoth(rows: seq<Row>, row: Row)
    requires |MatchingIds(rows, row.email, row.companyName, row.jobTitle)| >= 1
    ensures |MatchingIds(rows + [row], row.email, row.companyName, row.jobTitle)| >= 2
  {
    MatchingIdsAppend(rows, row, row.email, row.companyName, row.jobTitle);
  }

  /** Inserting the first row with a natural key makes that row the one a
      lookup of the key finds. */
  lemma FirstInsertIsFound(rows: seq<Row>, row: Row)
    requires MatchingIds(rows, row.email, row.companyName, row.jobTitle) == []
    ensures MatchingIds(rows + [row], row.email, row.companyName, row.jobTitle) == [row.appId]
  {
    MatchingIdsAppend(rows, row, row.email, row.companyName, row.jobTitle);
  }

  /** The rows after setting the status of every row with app_id `id`. */
  function SetStatus(rows: seq<Row>, id: int, v: string): (r: seq<Row>)
    ensures |r| == |rows|
    ensures forall i :: 0 <= i < |rows| ==> r[i] == if rows[i].appId == id then rows[i].(status := v) else rows[i]
  {
    if rows == [] then []
    else [if rows[0].appId == id then rows[0].(status := v) else rows[0]] + SetStatus(rows[1..], id, v)
  }

  /** Status updates overwrite: the last one wins, so repeating an update
      changes nothing. */
  lemma LastWriteWins(rows: seq<Row>, id: int, v1: string, v2: string)
    ensures SetStatus(SetStatus(rows, id, v1), id, v2) == SetStatus(rows, id, v2)
    ensures SetStatus(SetStatus(rows, id, v2), id, v2) == SetStatus(rows, id, v2)
  {
  }

  /** A status update never changes what a natural-key lookup finds. */
  lemma {:induction false} SetStatusKeepsLookup(rows: seq<Row>, id: int, v: string, email: string, companyName: string, jobTitle: string)
    ensures MatchingIds(SetStatus(rows, id, v), email, companyName, jobTitle) == MatchingIds(rows, email, companyName, jobTitle)
  {
    if rows != [] {
      SetStatusKeepsLookup(rows[1..], id, v, email, companyName, jobTitle);
      assert SetStatus(rows, id, v)[1..] == SetStatus(rows[1..], id, v);
    }
  }

  /** Some row has app_id `id`. */
  predicate HasId(rows: seq<Row>, id: int)
  {
    exists i :: 0 <= i < |rows| && rows[i].appId == id
  }

  /** The index of the first row with app_id `id`. */
  function FirstWithId(rows: seq<Row>, id: int): (k: nat)
    requires HasId(rows, id)
    ensures k < |rows| && rows[k].appId == id
    ensures forall i :: 0 <= i < k ==> rows[i].appId != id
  {
    if rows[0].appId == id then 0
    else
      assert HasId(rows[1..], id) by {
        var i :| 0 <= i < |rows| && rows[i].appId == id;
        assert rows[1..][i - 1] == rows[i];
      }
      1 + FirstWithId(rows[1..], id)
  }

  /** The table invariant: assigned ids are positive, distinct and below
      `nextId`; every row's email is a user's (the foreign key); every status
      is one of the enumeration's strings (the database ENUM). */
  ghost predicate ValidRows(rows: seq<Row>, users: set<string>, nextId: int)
  {
    && 0 < nextId
    && (forall i :: 0 <= i < |rows| ==> 0 < rows[i].appId < nextId)
    && (forall i :: 0 <= i < |rows| ==> rows[i].email in users && IsStatusValue(rows[i].status))
    && (forall i, j :: 0 <= i < j < |rows| ==> rows[i].appId != rows[j].appId)
  }

  /** A status update with a valid status keeps the table invariant. */
  lemma SetStatusKeepsValid(rows: seq<Row>, users: set<string>, nextId: int, id: int, v: string)
    requires ValidRows(rows, users, nextId) && IsStatusValue(v)
    ensures ValidRows(SetStatus(rows, id, v), users, nextId)
  {
    var r := SetStatus(rows, id, v);
    assert forall i :: 0 <= i < |r| ==> r[i].appId == rows[i].appId && r[i].email == rows[i].email;
  }

  /** The substring by which `create_application` recognises a
      foreign-key violation. */
  const ForeignKeyNeedle := "violates foreign key constraint"

  /** The message of the database error for an insert whose email is not in
      the users table. */
  const ForeignKeyViolation := ForeignKeyPrefix + ForeignKeyNeedle + " \"applications_email_fkey\""

  const ForeignKeyPrefix := "insert or update on table \"applications\" "

  const UnknownEmailDetail := "Email does not exist in users table"

  /** How `create_application` maps an insert error with message `msg`:
      409 when the message names a foreign-key violation, 400 with the
      message otherwise. */
  function InsertError(msg: string): (e: HttpError)
    ensures e.code == 409 <==> Contains(msg, ForeignKeyNeedle)
    ensures e.code == 409 || e.code == 400
    ensures e.code == 409 ==> e.detail == UnknownEmailDetail
    ensures e.code == 400 ==> e.detail == msg
  {
    if Contains(msg, ForeignKeyNeedle) then HttpError(409, UnknownEmailDetail) else HttpError(400, msg)
  }

  /** An insert for an email missing from the users table is answered 409. */
  lemma ForeignKeyViolationIsConflict()
    ensures InsertError(ForeignKeyViolation) == HttpError(409, UnknownEmailDetail)
  {
    var n := |ForeignKeyPrefix|;
    assert ForeignKeyViolation[n..n + |ForeignKeyNeedle|] == ForeignKeyNeedle;
    assert OccursAt(ForeignKeyViolation, ForeignKeyNeedle, n);
  }

  /** The detail of the 400 that wraps a handler's own 404 "Application not
      found", as the exception renders it. */
  const NotFoundDetail := "404: Application not found"

  /** The detail of the 400 raised when `.single()` finds more than one
      matching row. */
  const MultipleRowsDetail := "JSON object requested, multiple (or no) rows returned"

  /** The stand-in for the `applications` table and the `users` emails its
      foreign key refers to. `nextId` is the next app_id the table assigns. */
  class ApplicationsTable {
    var rows: seq<Row>
    var users: set<string>
    var nextId: int

    /** The table invariant, on the current fields. */
    ghost predicate Valid()
      reads this
    {
      ValidRows(rows, users, nextId)
    }

    constructor(users: set<string>)
      ensures Valid()
      ensures rows == [] && this.users == users
    {
      rows := [];
      this.users := users;
      nextId := 1;
    }

    /** `get_application_id`: the app_id of the one row with the natural key.
        Every failure, the not-found 404 included, reaches the caller as a
        400: a client error `fault`, or no matching row. */
    function GetApplicationId(email: string, companyName: string, jobTitle: string, fault: Option<string>): (r: Result<int, HttpError>)
      reads this
      ensures r.Success? <==> fault.None? && |MatchingIds(rows, email, companyName, jobTitle)| == 1
      ensures r.Success? ==> exists i :: 0 <= i < |rows| && HasKey(rows[i], email, companyName, jobTitle) && rows[i].appId == r.value
      ensures r.Failure? ==> r.error.code == 400
      ensures fault.Some? ==> r == Failure(HttpError(400, fault.value))
      ensures fault.None? && MatchingIds(rows, email, companyName, jobTitle) == [] ==> r == Failure(HttpError(400, NotFoundDetail))
      ensures fault.None? && |MatchingIds(rows, email, companyName, jobTitle)| > 1 ==> r == Failure(HttpError(400, MultipleRowsDetail))
    {
      MatchingIdsMembers(rows, email, companyName, jobTitle);
      var ids := MatchingIds(rows, email, companyName, jobTitle);
      if fault.Some? then Failure(HttpError(400, fault.value))
      else if |ids| == 0 then Failure(HttpError(400, NotFoundDetail))
      else if |ids| == 1 then
        assert ids[0] in ids;
        assert exists i :: 0 <= i < |rows| && HasKey(rows[i], email, companyName, jobTitle) && rows[i].appId == ids[0];
        Success(ids[0])
      else Failure(HttpError(400, MultipleRowsDetail))
    }

    /** `create_application`: inserts one row with exactly the four given
        fields and a fresh app_id and returns it; an email missing from the
        users table is a foreign-key violation (409); a client error `fault`
        maps by its message. A failed insert changes nothing. */
    method CreateApplication(app: Application, fault: Option<string>) returns (r: Result<Row, HttpError>)
      requires Valid()
      modifies this
      ensures Valid()
      ensures users == old(users)
      ensures fault.Some? ==> rows == old(rows) && nextId == old(nextId) && r == Failure(InsertError(fault.value))
      ensures fault.None? && app.email !in users ==>
        rows == old(rows) && nextId == old(nextId) && r == Failure(InsertError(ForeignKeyViolation))
      ensures fault.None? && app.email in users ==>
        var row := Row(old(nextId), app.email, app.companyName, app.jobTitle, Value(app.status));
        rows == old(rows) + [row] && r == Success(row) && nextId > row.appId
    {
      if fault.Some? {
        return Failure(InsertError(fault.value));
      }
      if app.email !in users {
        return Failure(InsertError(ForeignKeyViolation));
      }
      ValueValidates(app.status);
      var row := Row(nextId, app.email, app.companyName, app.jobTitle, Value(app.status));
      rows := rows + [row];
      nextId := nextId + 1;
      r := Success(row);
    }

    /** `update_application_status`: sets the status of the rows with the
        given app_id to the status's display string, touching no other row
        or field, and returns the updated row; an unknown app_id changes
        nothing and its 404 reaches the caller as a 400, as does a client
        error `fault`. */
    method UpdateApplicationStatus(appId: int, status: ApplicationStatus, fault: Option<string>) returns (r: Result<Row, HttpError>)
      requires Valid()
      modifies this
      ensures Valid()
      ensures users == old(users) && nextId == old(nextId)
      ensures fault.Some? ==> rows == old(rows) && r == Failure(HttpError(400, fault.value))
      ensures fault.None? ==> rows == SetStatus(old(rows), appId, Value(status))
      ensures fault.None? ==> (r.Success? <==> HasId(old(rows), appId))
      ensures fault.None? && !HasId(old(rows), appId) ==> rows == old(rows) && r == Failure(HttpError(400, NotFoundDetail))
      ensures r.Success? ==> r.value.appId == appId && r.value.status == Value(status) && r.value in rows
    {
      if fault.Some? {
        return Failure(HttpError(400, fault.value));
      }
      ValueValidates(status);
      var updated := SetStatus(rows, appId, Value(status));
      if !HasId(rows, appId) {
        assert updated == rows;
        return Failure(HttpError(400, NotFoundDetail));
      }
      var k := FirstWithId(rows, appId);
      SetStatusKeepsValid(rows, users, nextId, appId, Value(status));
      rows := updated;
      r := Success(rows[k]);
    }
  }
}
