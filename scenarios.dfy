/**
 * End-to-end runs of the route handlers on a fresh document, each stating
 * the outcome the handlers' contracts guarantee.
 */
module Scenarios {
  import opened Records
  import opened Document
  import AuthRoute
  import EmployeesRoute

  /** A second signup with a taken email is refused, whatever its login ID, and the directory keeps one user. */
  method DuplicateEmailSignup() returns (first: Outcome<Record>, second: Outcome<Record>, stored: nat)
    ensures first.Ok? && Field(first.value, "password") == None
    ensures second == Err(400, "User already exists")
    ensures stored == 1
  {
    var db := new Database.Absent();
    var a := map["action" := "signup", "loginId" := "ABC2024001", "email" := "a@x.com", "password" := "Secret1"];
    var b := map["action" := "signup", "loginId" := "ABC2024002", "email" := "a@x.com", "password" := "Secret1"];
    first := AuthRoute.Post(db, a);
    assert Field(a, "action") == Some("signup");
    var d := Without(a, "action");
    assert db.users == [d];
    assert AuthRoute.SameAccount(db.users[0], Without(b, "action")) by {
      assert Field(d, "email") == Some("a@x.com") == Field(Without(b, "action"), "email");
    }
    second := AuthRoute.Post(db, b);
    assert Field(b, "action") == Some("signup");
    stored := |db.users|;
  }

  /** Create E1, check it in at 09:15, then look it up: present since 09:15. */
  method CreateThenCheckIn() returns (found: Outcome<EmployeesRoute.QueryReply>)
    ensures found.Ok? && found.value.OneEmployee?
    ensures Field(found.value.employee, "status") == Some("present")
    ensures Field(found.value.employee, "checkInTime") == Some("09:15")
    ensures Field(found.value.employee, "companyId") == Some("C1")
  {
    var db := new Database.Absent();
    var e := map["id" := "E1", "companyId" := "C1", "email" := "e1@x.com"];
    var created := EmployeesRoute.Post(db, e);
    assert db.employees == [e] by {
      assert Field(e, "action") == None;
      assert Without(e, "action") == e;
    }
    var checkIn := map["action" := "check-in", "id" := "E1", "checkInTime" := "09:15"];
    var stamped := EmployeesRoute.Post(db, checkIn);
    var s := EmployeesRoute.CheckedIn(e, Some("09:15"));
    assert db.employees == [s] by {
      assert Field(checkIn, "action") == Some("check-in");
      var d := Without(checkIn, "action");
      assert SameField(e, d, "id") && Field(d, "checkInTime") == Some("09:15");
      EmployeesRoute.AttendanceStampsFirst([e], d, true, stamped, db.employees, 0);
    }
    assert Field(s, "id") == Some("E1") && Field(s, "companyId") == Some("C1");
    LookupOnly(s, "E1");
    found := EmployeesRoute.Get(db, Some("E1"), None);
  }

  /** Looking up the id of the only employee finds that employee. */
  lemma LookupOnly(e: Record, id: string)
    requires Field(e, "id") == Some(id) && id != ""
    ensures EmployeesRoute.Query([e], Some(id), None) == Ok(EmployeesRoute.OneEmployee(e))
  {
  }

  /** Checking in an unknown id is refused with 404 and leaves the employees as they were. */
  method CheckInUnknownId() returns (r: Outcome<Record>, intact: bool)
    ensures r == Err(404, "Employee not found")
    ensures intact
  {
    var e := map["id" := "E1", "companyId" := "C1", "email" := "e1@x.com"];
    var db := new Database.Holding([], Some([e]));
    var checkIn := map["action" := "check-in", "id" := "no-such-id", "checkInTime" := "09:00"];
    r := EmployeesRoute.Post(db, checkIn);
    assert Field(checkIn, "action") == Some("check-in");
    assert !SameField(e, Without(checkIn, "action"), "id");
    intact := db.employees == [e];
  }
}
