/**
 * The decision rules of the dashboard (app/dashboard/page.jsx): the search
 * filter, the status indicator, the action offered to an admin for a
 * selected employee, the quick-attendance panel of the signed-in user, and
 * which fetched data replaces the employee list. The signed-in user is the
 * record kept by the auth context, `None` before it has loaded.
 */
module Dashboard {
  import opened Records
  import opened Text
  import EmployeesRoute
  import SignupPage
  import Url

  /** `field?.toLowerCase().includes(query.toLowerCase())`: a missing field does not match. */
  predicate FieldMatches(field: Option<string>, query: string)
  {
    field.Some? && Includes(Lower(field.value), Lower(query))
  }

  predicate SearchHit(e: Record, query: string)
  {
    || FieldMatches(Field(e, "name"), query)
    || FieldMatches(Field(e, "department"), query)
    || FieldMatches(Field(e, "position"), query)
  }

  /** `filteredEmployees`: the employees the search keeps, in list order. */
  function FilteredEmployees(employees: seq<Record>, query: string): (r: seq<Record>)
    ensures IsSubsequence(r, employees)
    ensures forall e :: e in r <==> e in employees && SearchHit(e, query)
    ensures forall e :: multiset(r)[e] == if SearchHit(e, query) then multiset(employees)[e] else 0
  {
    var hit := e => SearchHit(e, query);
    FilterMembers(employees, hit);
    Filter(employees, hit)
  }

  /** An empty query keeps every employee that has a name, a department or a position. */
  lemma EmptyQueryKeepsDescribed(employees: seq<Record>)
    ensures forall e :: e in FilteredEmployees(employees, "") <==>
      e in employees && (Field(e, "name").Some? || Field(e, "department").Some? || Field(e, "position").Some?)
  {
    forall s: string ensures Includes(s, Lower("")) {
      assert StartsWith(s[0..], "");
    }
  }

  lemma LowerOfUpper(q: string)
    ensures Lower(Upper(q)) == Lower(q)
  {
    forall i | 0 <= i < |q| ensures Lower(Upper(q))[i] == Lower(q)[i] {
      assert Upper(q)[i] == UpperChar(q[i]);
    }
  }

  /** The search ignores the case of the query. */
  lemma SearchIgnoresQueryCase(employees: seq<Record>, query: string)
    ensures FilteredEmployees(employees, Upper(query)) == FilteredEmployees(employees, query)
  {
    LowerOfUpper(query);
    FilterAgree(employees, e => SearchHit(e, Upper(query)), e => SearchHit(e, query));
  }

  datatype Indicator = GreenDot | LeavePlane | YellowDot | GreyDot

  /** `getStatusIndicator`: one case each for present, on leave and absent, grey for anything else. */
  function StatusIndicator(status: Option<string>): (r: Indicator)
    ensures r == GreenDot <==> status == Some("present")
    ensures r == LeavePlane <==> status == Some("on-leave")
    ensures r == YellowDot <==> status == Some("absent")
  {
    if status == Some("present") then GreenDot
    else if status == Some("on-leave") then LeavePlane
    else if status == Some("absent") then YellowDot
    else GreyDot
  }

  /** After a check-in the employee shows the present dot; a check-out does not change the dot. */
  lemma AttendanceIndicator(e: Record, time: Option<string>)
    ensures StatusIndicator(Field(EmployeesRoute.CheckedIn(e, time), "status")) == GreenDot
    ensures StatusIndicator(Field(EmployeesRoute.CheckedOut(e, time), "status")) == StatusIndicator(Field(e, "status"))
  {
  }

  datatype AdminOffer = OfferCheckIn | OfferCheckOut | AlreadyCheckedOut

  /**
   * The admin actions of the employee modal: nothing for a non-admin;
   * otherwise Check In unless the employee is present with a check-in time,
   * then Check Out unless there is a check-out time, else "Already checked
   * out today".
   */
  function AdminAction(user: Option<Record>, e: Record): (r: Option<AdminOffer>)
    ensures r.Some? <==> user.Some? && Field(user.value, "role") == Some("Admin")
    ensures r == Some(OfferCheckIn) <==> r.Some? && (Field(e, "status") != Some("present") || !Truthy(Field(e, "checkInTime")))
    ensures r == Some(OfferCheckOut) <==>
      r.Some? && Field(e, "status") == Some("present") && Truthy(Field(e, "checkInTime")) && !Truthy(Field(e, "checkOutTime"))
    ensures r == Some(AlreadyCheckedOut) <==>
      r.Some? && Field(e, "status") == Some("present") && Truthy(Field(e, "checkInTime")) && Truthy(Field(e, "checkOutTime"))
  {
    if user.None? || Field(user.value, "role") != Some("Admin") then None
    else if Field(e, "status") != Some("present") || !Truthy(Field(e, "checkInTime")) then Some(OfferCheckIn)
    else if !Truthy(Field(e, "checkOutTime")) then Some(OfferCheckOut)
    else Some(AlreadyCheckedOut)
  }

  /** The id the admin buttons send: `selectedEmployee._id || selectedEmployee.id`. */
  function ActionTarget(e: Record): (id: Option<string>)
    ensures Truthy(Field(e, "_id")) ==> id == Field(e, "_id")
    ensures !Truthy(Field(e, "_id")) ==> id == Field(e, "id")
  {
    if Truthy(Field(e, "_id")) then Field(e, "_id") else Field(e, "id")
  }

  /**
   * The body of `handleCheckIn` (`checkIn`) and of `handleCheckOut`:
   * `{ action: "check-in", id, checkInTime }` or `{ action: "check-out", id, checkOutTime }`.
   */
  function AttendanceBody(checkIn: bool, id: Option<string>, time: string): (body: Record)
    ensures Field(body, "action") == Some(if checkIn then "check-in" else "check-out")
    ensures Field(body, "id") == id
    ensures Field(body, if checkIn then "checkInTime" else "checkOutTime") == Some(time)
    ensures Field(body, if checkIn then "checkOutTime" else "checkInTime") == None
  {
    var stamp := if checkIn then "checkInTime" else "checkOutTime";
    Assign(map["action" := if checkIn then "check-in" else "check-out", stamp := time], "id", id)
  }

  /** The quick panel's two flags, `isCheckedIn` and `isCheckedOut`. */
  datatype PanelState = PanelState(isCheckedIn: bool, isCheckedOut: bool)

  /** The employee record of the signed-in user: the first whose id equals the user's login ID. */
  function CurrentEmployee(employees: seq<Record>, user: Record): (r: Option<Record>)
    ensures r.None? <==> forall i :: 0 <= i < |employees| ==> Field(employees[i], "id") != Field(user, "loginId")
    ensures r.Some? ==> exists i :: (0 <= i < |employees| && r.value == employees[i]
      && Field(employees[i], "id") == Field(user, "loginId")
      && forall j :: 0 <= j < i ==> Field(employees[j], "id") != Field(user, "loginId"))
  {
    match FindIndex(employees, e => Field(e, "id") == Field(user, "loginId"))
    case Some(i) => Some(employees[i])
    case None => None
  }

  /**
   * `isCheckedIn`: a check-in time and no check-out time; `isCheckedOut`: a
   * check-out time. The two never hold together.
   */
  function Panel(current: Option<Record>): (p: PanelState)
    ensures !(p.isCheckedIn && p.isCheckedOut)
    ensures p.isCheckedIn <==>
      current.Some? && Truthy(Field(current.value, "checkInTime")) && !Truthy(Field(current.value, "checkOutTime"))
    ensures p.isCheckedOut <==> current.Some? && Truthy(Field(current.value, "checkOutTime"))
  {
    match current
    case None => PanelState(false, false)
    case Some(e) =>
      PanelState(Truthy(Field(e, "checkInTime")) && !Truthy(Field(e, "checkOutTime")), Truthy(Field(e, "checkOutTime")))
  }

  /** Which of the panel's three blocks are shown. */
  predicate ShowsCheckInButton(p: PanelState) { !p.isCheckedIn && !p.isCheckedOut }
  predicate ShowsCheckedIn(p: PanelState) { p.isCheckedIn }
  predicate ShowsCheckedOut(p: PanelState) { p.isCheckedOut }

  /**
   * The panel shows exactly one block, and the Check In button only for a
   * user without a record or whose record has no check-in time and no
   * check-out time.
   */
  lemma PanelShowsOneBlock(current: Option<Record>)
    ensures var p := Panel(current);
      && (ShowsCheckInButton(p) || ShowsCheckedIn(p) || ShowsCheckedOut(p))
      && !(ShowsCheckInButton(p) && ShowsCheckedIn(p))
      && !(ShowsCheckInButton(p) && ShowsCheckedOut(p))
      && !(ShowsCheckedIn(p) && ShowsCheckedOut(p))
    ensures ShowsCheckInButton(Panel(current)) <==>
      current.None? || (!Truthy(Field(current.value, "checkInTime")) && !Truthy(Field(current.value, "checkOutTime")))
  {
  }

  /** For a present employee, the panel's "Checked In" block and the admin's Check Out button agree. */
  lemma PanelAgreesWithAdmin(admin: Record, e: Record)
    requires Field(admin, "role") == Some("Admin") && Field(e, "status") == Some("present")
    ensures Panel(Some(e)).isCheckedIn <==> AdminAction(Some(admin), e) == Some(OfferCheckOut)
  {
  }

  /**
   * Check-in never clears `checkOutTime`: a repeat check-in, by id, of an
   * employee who has checked out leaves the admin modal at "Already checked
   * out today" and the panel at "Checked out".
   */
  lemma RepeatCheckInStaysCheckedOut(admin: Record, before: seq<Record>, id: Option<string>, time: string,
                                     i: nat, r: Outcome<Record>, after: seq<Record>)
    requires Field(admin, "role") == Some("Admin") && time != ""
    requires EmployeesRoute.FirstWithId(before, AttendanceBody(true, id, time), i)
    requires Truthy(Field(before[i], "checkOutTime"))
    requires EmployeesRoute.AttendanceEffect(before, Without(AttendanceBody(true, id, time), "action"), true, r, after)
    ensures r.Ok? && r.value == after[i]
    ensures AdminAction(Some(admin), after[i]) == Some(AlreadyCheckedOut)
    ensures ShowsCheckedOut(Panel(Some(after[i]))) && !ShowsCheckInButton(Panel(Some(after[i])))
  {
    var d := Without(AttendanceBody(true, id, time), "action");
    assert EmployeesRoute.FirstWithId(before, d, i) by {
      assert Field(d, "id") == Field(AttendanceBody(true, id, time), "id");
    }
    EmployeesRoute.AttendanceStampsFirst(before, d, true, r, after, i);
  }

  /**
   * The panel's Check Out button posts the user's login ID; once the route
   * has stamped the user's record, the panel finds that record again and
   * shows "Checked out".
   */
  lemma PanelCheckOutShowsCheckedOut(employees: seq<Record>, user: Record, time: string,
                                     i: nat, r: Outcome<Record>, after: seq<Record>)
    requires time != ""
    requires EmployeesRoute.FirstWithId(employees, AttendanceBody(false, Field(user, "loginId"), time), i)
    requires EmployeesRoute.AttendanceEffect(employees, Without(AttendanceBody(false, Field(user, "loginId"), time), "action"), false, r, after)
    ensures r.Ok? && CurrentEmployee(after, user) == Some(after[i])
    ensures ShowsCheckedOut(Panel(CurrentEmployee(after, user)))
  {
    var body := AttendanceBody(false, Field(user, "loginId"), time);
    var d := Without(body, "action");
    assert Field(d, "id") == Field(user, "loginId") && Field(d, "checkOutTime") == Some(time);
    EmployeesRoute.AttendanceStampsFirst(employees, d, false, r, after, i);
    assert Field(after[i], "checkOutTime") == Some(time);
    assert forall j :: 0 <= j < |after| ==> Field(after[j], "id") == Field(employees[j], "id");
    CurrentAt(after, user, i);
  }

  /** The panel's record is the employee at `i` when that is the first with the user's login ID. */
  lemma CurrentAt(employees: seq<Record>, user: Record, i: nat)
    requires i < |employees| && Field(employees[i], "id") == Field(user, "loginId")
    requires forall j :: 0 <= j < i ==> Field(employees[j], "id") != Field(user, "loginId")
    ensures CurrentEmployee(employees, user) == Some(employees[i])
  {
  }

  /** What `fetchEmployees` gets back. */
  datatype FetchResult =
    | Thrown                                                 // network failure or unreadable JSON
    | NotOk                                                  // a status outside 200-299
    | NotJson                                                // a content type without application/json
    | Json(success: bool, employees: Option<seq<Record>>)    // `None`: `employees` is not an array

  /** The response the employees route sends for a GET outcome. */
  function Delivered(reply: Outcome<EmployeesRoute.QueryReply>): (f: FetchResult)
    ensures f.Json? <==> reply.Ok?
    ensures reply.Ok? && reply.value.EmployeeList? ==> f == Json(true, Some(reply.value.employees))
  {
    match reply
    case Ok(EmployeeList(es)) => Json(true, Some(es))
    case Ok(OneEmployee(_)) => Json(true, None)
    case Err(_, _) => NotOk
  }

  /** The list `fetchEmployees` leaves: the fetched array only for a successful JSON reply carrying one. */
  function FetchedList(f: FetchResult): (r: seq<Record>)
    ensures r != [] ==> f.Json? && f.success && f.employees == Some(r)
    ensures f.Json? && f.success && f.employees.Some? ==> r == f.employees.value
  {
    if f.Json? && f.success && f.employees.Some? then f.employees.value else []
  }

  /** `user?.loginId || ""`: the text `fetchEmployees` splices into its URL after `companyId=`. */
  function CompanyParam(user: Option<Record>): (c: string)
    ensures user.Some? && Truthy(Field(user.value, "loginId")) ==> Some(c) == Field(user.value, "loginId")
    ensures !(user.Some? && Truthy(Field(user.value, "loginId"))) ==> c == ""
  {
    if user.Some? && Truthy(Field(user.value, "loginId")) then Field(user.value, "loginId").value else ""
  }

  /**
   * The list the dashboard keeps after fetching `/api/employees?companyId=`
   * followed by `raw`: the route answers the `id` and `companyId`
   * parameters `searchParams.get` finds in the query it receives.
   */
  function ListFetchedFor(employees: seq<Record>, raw: string): (shown: seq<Record>)
    ensures forall e :: e in shown ==> e in employees
  {
    var pairs := Url.Pairs(Url.SentQuery(raw));
    FetchedList(Delivered(EmployeesRoute.Query(employees, Url.Lookup(pairs, "id"), Url.Lookup(pairs, "companyId"))))
  }

  /**
   * A login ID that holds none of `&`, `#`, `%`, `+`, tabs or newlines and
   * does not end in a control or a space arrives intact, so the dashboard
   * lists exactly the employees whose `companyId` is the user's login ID,
   * in stored order.
   */
  lemma DashboardListsOwnCompany(employees: seq<Record>, user: Record)
    requires Truthy(Field(user, "loginId"))
    requires var id := Field(user, "loginId").value;
      (forall i :: 0 <= i < |id| ==> Url.PlainParamChar(id[i])) && id[|id| - 1] as int > 0x20
    ensures var shown := ListFetchedFor(employees, CompanyParam(Some(user)));
      && shown == EmployeesRoute.CompanyEmployees(employees, Field(user, "loginId").value)
      && (forall e :: e in shown <==> e in employees && Field(e, "companyId") == Field(user, "loginId"))
  {
    var id := Field(user, "loginId").value;
    Url.PlainParamArrives(id);
    FetchForCompany(employees, id, id);
  }

  /**
   * A loaded user whose `loginId` is missing or empty: the effect never
   * fetches for them, but a successful check-in or check-out on their panel
   * refetches with `companyId=`, and the empty parameter is falsy, so every
   * company's employees are listed.
   */
  lemma FalsyLoginIdListsAll(employees: seq<Record>, user: Record)
    requires !Truthy(Field(user, "loginId"))
    ensures ListFetchedFor(employees, CompanyParam(Some(user))) == employees
  {
    Url.PlainParamArrives("");
  }

  /** A query whose `companyId` reads as a non-empty `c`, and with no `id`, lists company `c`. */
  lemma FetchForCompany(employees: seq<Record>, raw: string, c: string)
    requires Url.Lookup(Url.Pairs(Url.SentQuery(raw)), "id") == None
    requires Url.Lookup(Url.Pairs(Url.SentQuery(raw)), "companyId") == Some(c) && c != ""
    ensures ListFetchedFor(employees, raw) == EmployeesRoute.CompanyEmployees(employees, c)
  {
  }

  /**
   * `fetchEmployees` as written splices the login ID into the URL
   * unencoded: for a login ID `a&b`, the server reads `companyId` as `a`
   * and `b` as a parameter of its own, so the dashboard lists the
   * employees of company `a` instead of the user's.
   */
  lemma AmpersandLoginIdCut(employees: seq<Record>, a: string, b: string)
    requires a != [] && forall i :: 0 <= i < |a| ==> Url.PlainParamChar(a[i])
    requires b != [] && b[|b| - 1] as int > 0x20 && b != "id"
    requires forall i :: 0 <= i < |b| ==> Url.PlainParamChar(b[i]) && !Url.QueryEscaped(b[i]) && b[i] != '='
    ensures ListFetchedFor(employees, a + "&" + b) == EmployeesRoute.CompanyEmployees(employees, a)
  {
    Url.AmpersandCutsParam(a, b);
    FetchForCompany(employees, a + "&" + b, a);
  }

  /**
   * The login ID "R&LAJODO20250001" (which the signup page issues for
   * company "R&D Labs" and administrator "Jo Do" in 2025) is read by the
   * server as `companyId=R`, so the company's own employee is not listed.
   */
  lemma AmpersandLoginIdMissesOwnCompany()
    ensures var e := map["companyId" := "R&LAJODO20250001"];
      && EmployeesRoute.CompanyEmployees([e], "R&LAJODO20250001") == [e]
      && ListFetchedFor([e], "R&LAJODO20250001") == []
  {
    var e := map["companyId" := "R&LAJODO20250001"];
    LajodoCut([e]);
    SingleCompany(e, "R&LAJODO20250001");
    SingleCompany(e, "R");
  }

  /** The server reads the login ID "R&LAJODO20250001" as company "R". */
  lemma LajodoCut(employees: seq<Record>)
    ensures ListFetchedFor(employees, "R&LAJODO20250001") == EmployeesRoute.CompanyEmployees(employees, "R")
  {
    LajodoPlain();
    AmpersandLoginIdCut(employees, "R", "LAJODO20250001");
    RAmpersandLajodo();
  }

  /** A lone employee is listed for its own company and for no other. */
  lemma SingleCompany(e: Record, c: string)
    ensures EmployeesRoute.CompanyEmployees([e], c) == if Field(e, "companyId") == Some(c) then [e] else []
  {
    var r := EmployeesRoute.CompanyEmployees([e], c);
    if Field(e, "companyId") == Some(c) {
      assert multiset(r) == multiset([e]);
      assert |r| == 1;
      assert r[0] in multiset(r);
    } else {
      assert multiset(r) == multiset{};
    }
  }

  lemma LajodoPlain()
    ensures var b := "LAJODO20250001";
      && b[|b| - 1] as int > 0x20 && b != "id"
      && forall i :: 0 <= i < |b| ==> Url.PlainParamChar(b[i]) && !Url.QueryEscaped(b[i]) && b[i] != '='
  {
  }

  lemma RAmpersandLajodo()
    ensures "R" + "&" + "LAJODO20250001" == "R&LAJODO20250001"
  {
  }

  /** The corrected request: `companyId=${encodeURIComponent(user?.loginId || "")}`. */
  function EncodedCompanyParam(user: Option<Record>): (c: string)
    ensures Url.Lookup(Url.Pairs(Url.SentQuery(c)), "companyId") == Some(CompanyParam(user))
  {
    Url.EncodedParamArrives(CompanyParam(user));
    Url.EncodeUriComponent(CompanyParam(user))
  }

  /**
   * With the login ID encoded, the dashboard lists exactly the employees
   * whose `companyId` is the user's login ID, whatever characters it holds.
   */
  lemma EncodedFetchListsOwnCompany(employees: seq<Record>, user: Record)
    requires Truthy(Field(user, "loginId"))
    ensures var shown := ListFetchedFor(employees, EncodedCompanyParam(Some(user)));
      && shown == EmployeesRoute.CompanyEmployees(employees, Field(user, "loginId").value)
      && (forall e :: e in shown <==> e in employees && Field(e, "companyId") == Field(user, "loginId"))
  {
    Url.EncodedParamArrives(CompanyParam(Some(user)));
  }
}
