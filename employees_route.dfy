/**
 * The employee directory behind `/api/employees`
 * (app/api/employees/route.js): lookup by id and listing by company (GET),
 * check-in, check-out and creation (POST), and shallow-merge update (PUT)
 * over the `employees` array of the document.
 */
module EmployeesRoute {
  import opened Records
  import opened Document

  datatype QueryReply = OneEmployee(employee: Record) | EmployeeList(employees: seq<Record>)

  /** No two employees share an email (a missing email counts as a value of its own). */
  ghost predicate DistinctEmails(employees: seq<Record>)
  {
    forall i, j :: 0 <= i < j < |employees| ==> !SameField(employees[i], employees[j], "email")
  }

  /** `employees.filter((e) => e.companyId === companyId)` */
  function CompanyEmployees(employees: seq<Record>, companyId: string): (r: seq<Record>)
    ensures IsSubsequence(r, employees)
    ensures forall e :: e in r <==> e in employees && Field(e, "companyId") == Some(companyId)
    ensures forall e :: multiset(r)[e] == if Field(e, "companyId") == Some(companyId) then multiset(employees)[e] else 0
  {
    var inCompany := e => Field(e, "companyId") == Some(companyId);
    FilterMembers(employees, inCompany);
    Filter(employees, inCompany)
  }

  /**
   * GET: with a non-empty `id` parameter, the first employee with that id
   * or 404; otherwise the employees of the non-empty `companyId`, or all.
   */
  function Query(employees: seq<Record>, id: Option<string>, companyId: Option<string>): (r: Outcome<QueryReply>)
    ensures Truthy(id) ==> (r.Ok? <==> exists i :: 0 <= i < |employees| && Field(employees[i], "id") == id)
    ensures Truthy(id) && r.Ok? ==>
      exists i :: 0 <= i < |employees| && Field(employees[i], "id") == id && r.value == OneEmployee(employees[i])
        && forall j :: 0 <= j < i ==> Field(employees[j], "id") != id
    ensures r.Err? ==> r == Err(404, "Employee not found")
    ensures !Truthy(id) && Truthy(companyId) ==> r == Ok(EmployeeList(CompanyEmployees(employees, companyId.value)))
    ensures !Truthy(id) && !Truthy(companyId) ==> r == Ok(EmployeeList(employees))
  {
    if Truthy(id) then
      match FindIndex(employees, e => QueryMatch(e, "id", id))
      case Some(i) => Ok(OneEmployee(employees[i]))
      case None => Err(404, "Employee not found")
    else if Truthy(companyId) then
      Ok(EmployeeList(CompanyEmployees(employees, companyId.value)))
    else
      Ok(EmployeeList(employees))
  }

  /** The record after `employee.checkInTime = time; employee.status = "present"`. */
  function CheckedIn(e: Record, time: Option<string>): (r: Record)
    ensures Field(r, "checkInTime") == time && Field(r, "status") == Some("present")
    ensures forall k :: k != "checkInTime" && k != "status" ==> Field(r, k) == Field(e, k)
  {
    Assign(Assign(e, "checkInTime", time), "status", Some("present"))
  }

  /** The record after `employee.checkOutTime = time`. */
  function CheckedOut(e: Record, time: Option<string>): (r: Record)
    ensures Field(r, "checkOutTime") == time
    ensures forall k :: k != "checkOutTime" ==> Field(r, k) == Field(e, k)
  {
    Assign(e, "checkOutTime", time)
  }

  /** Whether `i` is the first position whose employee has the id of `d`. */
  ghost predicate FirstWithId(employees: seq<Record>, d: Record, i: int)
  {
    && 0 <= i < |employees| && SameField(employees[i], d, "id")
    && forall j :: 0 <= j < i ==> !SameField(employees[j], d, "id")
  }

  /**
   * What a check-in (`checkIn`) or check-out (`!checkIn`) answers and leaves in
   * `employees`: the first employee with the id of `d` is stamped in place.
   */
  ghost predicate AttendanceEffect(before: seq<Record>, d: Record, checkIn: bool, r: Outcome<Record>, after: seq<Record>)
  {
    if forall j :: 0 <= j < |before| ==> !SameField(before[j], d, "id") then
      r == Err(404, "Employee not found") && after == before
    else
      exists i :: FirstWithId(before, d, i)
        && after == before[i := if checkIn then CheckedIn(before[i], Field(d, "checkInTime"))
                                else CheckedOut(before[i], Field(d, "checkOutTime"))]
        && r == Ok(after[i])
  }

  /** What creation answers and leaves in `employees`: rejected when any employee has the same email. */
  ghost predicate CreateEffect(before: seq<Record>, d: Record, r: Outcome<Record>, after: seq<Record>)
  {
    if exists j :: 0 <= j < |before| && SameField(before[j], d, "email") then
      r == Err(400, "Employee already exists") && after == before
    else
      r == Ok(d) && after == before + [d]
  }

  /**
   * What PUT answers and leaves in `employees`: `{ id, ...updates } = body`,
   * a shallow merge of `updates` into the first employee with that id.
   */
  ghost predicate UpdateEffect(before: seq<Record>, body: Record, r: Outcome<Record>, after: seq<Record>)
  {
    if forall j :: 0 <= j < |before| ==> !SameField(before[j], body, "id") then
      r == Err(404, "Employee not found") && after == before
    else
      exists i :: FirstWithId(before, body, i)
        && after == before[i := Merge(before[i], Without(body, "id"))]
        && r == Ok(after[i])
  }

  /** GET /api/employees */
  method Get(db: Database, id: Option<string>, companyId: Option<string>) returns (r: Outcome<QueryReply>)
    requires db.Valid()
    modifies db
    ensures db.Valid() && db.onDisk
    ensures db.users == old(db.users) && db.employees == old(db.employees)
    ensures db.hasEmployees == (old(db.hasEmployees) || !old(db.onDisk))
    ensures r == Query(old(db.employees), id, companyId)
    ensures db.writes == old(db.writes) + CreationWrites(old(db.onDisk))
  {
    db.EnsureForEmployees();
    r := Query(db.employees, id, companyId);
  }

  /**
   * POST /api/employees: `{ action, ...employeeData } = body`, then check-in,
   * check-out, or, for any other action or none, creation.
   */
  method Post(db: Database, body: Record) returns (r: Outcome<Record>)
    requires db.Valid()
    modifies db
    ensures db.Valid() && db.onDisk && db.users == old(db.users)
    ensures var action := Field(body, "action");
            var d := Without(body, "action");
      && (action == Some("check-in") ==> AttendanceEffect(old(db.employees), d, true, r, db.employees))
      && (action == Some("check-out") ==> AttendanceEffect(old(db.employees), d, false, r, db.employees))
      && (action != Some("check-in") && action != Some("check-out") ==> CreateEffect(old(db.employees), d, r, db.employees))
    ensures db.hasEmployees == (old(db.hasEmployees) || !old(db.onDisk) || r.Ok?)
    ensures db.writes == old(db.writes) + CreationWrites(old(db.onDisk)) + if r.Ok? then 1 else 0
  {
    db.EnsureForEmployees();
    var action := Field(body, "action");
    var d := Without(body, "action");
    if action == Some("check-in") || action == Some("check-out") {
      var found := FindIndex(db.employees, e => SameField(e, d, "id"));
      if found.None? {
        r := Err(404, "Employee not found");
      } else {
        var i := found.value;
        var stamped := if action == Some("check-in") then CheckedIn(db.employees[i], Field(d, "checkInTime"))
                       else CheckedOut(db.employees[i], Field(d, "checkOutTime"));
        db.employees := db.employees[i := stamped];
        db.hasEmployees := true;
        db.writes := db.writes + 1;
        r := Ok(stamped);
        assert FirstWithId(old(db.employees), d, i);
      }
    } else {
      var existing := FindIndex(db.employees, e => SameField(e, d, "email"));
      if existing.Some? {
        r := Err(400, "Employee already exists");
      } else {
        db.employees := db.employees + [d];
        db.hasEmployees := true;
        db.writes := db.writes + 1;
        r := Ok(d);
      }
    }
  }

  /** PUT /api/employees */
  method Put(db: Database, body: Record) returns (r: Outcome<Record>)
    requires db.Valid()
    modifies db
    ensures db.Valid() && db.onDisk && db.users == old(db.users)
    ensures UpdateEffect(old(db.employees), body, r, db.employees)
    ensures db.hasEmployees == (old(db.hasEmployees) || !old(db.onDisk) || r.Ok?)
    ensures db.writes == old(db.writes) + CreationWrites(old(db.onDisk)) + if r.Ok? then 1 else 0
  {
    db.EnsureForEmployees();
    var found := FindIndex(db.employees, e => SameField(e, body, "id"));
    if found.None? {
      r := Err(404, "Employee not found");
    } else {
      var i := found.value;
      db.employees := db.employees[i := Merge(db.employees[i], Without(body, "id"))];
      db.hasEmployees := true;
      db.writes := db.writes + 1;
      r := Ok(db.employees[i]);
      assert FirstWithId(old(db.employees), body, i);
    }
  }

  /** Creation never lets two employees share an email, across all companies. */
  lemma CreateKeepsEmailsDistinct(before: seq<Record>, d: Record, r: Outcome<Record>, after: seq<Record>)
    requires DistinctEmails(before) && CreateEffect(before, d, r, after)
    ensures DistinctEmails(after)
  {
    if r.Ok? {
      forall i, j | 0 <= i < j < |after| ensures !SameField(after[i], after[j], "email") {
        if j == |before| {
          assert after[j] == d && after[i] == before[i];
        }
      }
    }
  }

  /**
   * A check-in or check-out changes one employee, the first with the given
   * id, and in it only the attendance fields: `checkInTime` and `status` on
   * check-in, `checkOutTime` on check-out.
   */
  lemma AttendanceTouchesOne(before: seq<Record>, d: Record, checkIn: bool, r: Outcome<Record>, after: seq<Record>)
    requires AttendanceEffect(before, d, checkIn, r, after) && r.Ok?
    ensures |after| == |before|
    ensures exists i :: (FirstWithId(before, d, i)
      && (forall j :: 0 <= j < |before| && j != i ==> after[j] == before[j])
      && (checkIn ==> Field(after[i], "checkInTime") == Field(d, "checkInTime")
                      && Field(after[i], "status") == Some("present")
                      && forall k :: k != "checkInTime" && k != "status" ==> Field(after[i], k) == Field(before[i], k))
      && (!checkIn ==> Field(after[i], "checkOutTime") == Field(d, "checkOutTime")
                       && forall k :: k != "checkOutTime" ==> Field(after[i], k) == Field(before[i], k)))
  {
    var i :| FirstWithId(before, d, i)
      && after == before[i := if checkIn then CheckedIn(before[i], Field(d, "checkInTime"))
                              else CheckedOut(before[i], Field(d, "checkOutTime"))];
    assert forall j :: 0 <= j < |before| && j != i ==> after[j] == before[j];
  }

  /** The first position with the id is unique, so the stamped employee is determined by it. */
  lemma AttendanceStampsFirst(before: seq<Record>, d: Record, checkIn: bool, r: Outcome<Record>, after: seq<Record>, i: nat)
    requires FirstWithId(before, d, i) && AttendanceEffect(before, d, checkIn, r, after)
    ensures after == before[i := if checkIn then CheckedIn(before[i], Field(d, "checkInTime"))
                                 else CheckedOut(before[i], Field(d, "checkOutTime"))]
    ensures r == Ok(after[i])
  {
    var k :| FirstWithId(before, d, k)
      && after == before[k := if checkIn then CheckedIn(before[k], Field(d, "checkInTime"))
                              else CheckedOut(before[k], Field(d, "checkOutTime"))]
      && r == Ok(after[k]);
    FirstWithIdUnique(before, d, i, k);
  }

  /** At most one position is the first with a given id. */
  lemma FirstWithIdUnique(employees: seq<Record>, d: Record, i: int, k: int)
    requires FirstWithId(employees, d, i) && FirstWithId(employees, d, k)
    ensures i == k
  {
  }

  /** Check-in and check-out keep every email, so they keep emails distinct. */
  lemma AttendanceKeepsEmailsDistinct(before: seq<Record>, d: Record, checkIn: bool, r: Outcome<Record>, after: seq<Record>)
    requires DistinctEmails(before) && AttendanceEffect(before, d, checkIn, r, after)
    ensures DistinctEmails(after)
  {
    if r.Ok? {
      AttendanceTouchesOne(before, d, checkIn, r, after);
      assert forall j :: 0 <= j < |before| ==> SameField(after[j], before[j], "email");
    }
  }

  /** An update never changes an employee's id, because `id` is taken out of the updates. */
  lemma UpdateKeepsIds(before: seq<Record>, body: Record, r: Outcome<Record>, after: seq<Record>)
    requires UpdateEffect(before, body, r, after)
    ensures |after| == |before|
    ensures forall i :: 0 <= i < |before| ==> SameField(after[i], before[i], "id")
  {
    if r.Ok? {
      var i :| FirstWithId(before, body, i) && after == before[i := Merge(before[i], Without(body, "id"))];
      assert Field(after[i], "id") == Field(before[i], "id");
    }
  }

  /**
   * Check-in followed by check-out on the same employee: present, with both
   * times recorded.
   */
  lemma CheckInThenCheckOut(e: Record, inTime: string, outTime: string)
    ensures var after := CheckedOut(CheckedIn(e, Some(inTime)), Some(outTime));
      && Field(after, "status") == Some("present")
      && Field(after, "checkInTime") == Some(inTime)
      && Field(after, "checkOutTime") == Some(outTime)
  {
  }

  /**
   * Creation checks emails only: an employee whose id is already taken is
   * accepted, and lookups by id then find the earlier one.
   */
  lemma CreateAcceptsTakenId()
    ensures var before := [map["id" := "E1", "email" := "e1@x.com"]];
            var d := map["id" := "E1", "email" := "e2@x.com"];
      && CreateEffect(before, d, Ok(d), before + [d])
      && Query(before + [d], Some("E1"), None) == Ok(OneEmployee(before[0]))
  {
    var before := [map["id" := "E1", "email" := "e1@x.com"]];
    var d := map["id" := "E1", "email" := "e2@x.com"];
    assert !SameField(before[0], d, "email");
    assert Field((before + [d])[0], "id") == Some("E1");
  }
}
