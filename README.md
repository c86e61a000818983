# WorkZen employee portal — a Dafny model of its core

WorkZen is a Next.js employee-management portal. Its persistence is one JSON
document, `data/users.json`, holding a `users` array of company accounts and
an `employees` array of employee records. This project models the parts of
the portal that decide things:

- The two API routes that read and rewrite that document:
  - `/api/auth`: lookup and password-stripped listing, signup, login, merge update and delete.
  - `/api/employees`: lookup by id, listing by company, check-in, check-out, creation and merge update.
- The signup page's validators, its login-ID generator and the record it submits.
- The login page's validator and the credentials it sends.
- The request guard in `middleware.js`, together with its matcher.
- The dashboard's search filter, status indicator, admin action rule,
  quick-attendance panel and its handling of fetched data, including the
  request URL it builds and how the employees route reads it back.

Modules, one per source file plus two shared ones:

| module | file | models |
|---|---|---|
| `Records` | records.dfy | JSON records as `map<string, string>`, property reads (`undefined` is `None`), `===`, spread merge, `find`, `findIndex`, `filter` |
| `Text` | text.dfy | `trim` (with the exact JavaScript whitespace set), `split`, `slice`, ASCII case mapping, `includes`, decimal rendering |
| `Url` | url.dfy | what `fetch` and `new URL(...).searchParams.get` do to a query string: the URL parser's query encoding, `application/x-www-form-urlencoded` parsing, UTF-8 encoding and decoding, `encodeURIComponent` |
| `Document` | document.dfy | the document as a class whose fields the handlers update: file present or not, `users`, whether `employees` exists, `employees`, and a ghost count of whole-file writes |
| `AuthRoute` | auth_route.dfy | app/api/auth/route.js |
| `EmployeesRoute` | employees_route.dfy | app/api/employees/route.js |
| `SignupPage` | signup_page.dfy | app/signup/page.jsx |
| `LoginPage` | login_page.dfy | app/page.jsx |
| `Middleware` | middleware.dfy | middleware.js |
| `Dashboard` | dashboard.dfy | app/dashboard/page.jsx |
| `Scenarios` | scenarios.dfy | request sequences run against a fresh document |

Each route handler is a module-level method that takes the `Database` object
as a parameter and may modify it (`modifies db`). It does what the handler does to the stored arrays and returns `Ok(payload)` or
`Err(status, message)` with the handler's status and message. Its
postcondition relates the new arrays to the old ones through a ghost effect
predicate (`SignupEffect`, `AttendanceEffect`, ...). The lemmas then prove
the directory's invariants about those predicates:

- uniqueness of emails and login IDs;
- "nothing else changes";
- failures leave the document as it was.

Property comparisons follow JavaScript `===` on parsed JSON. Two records
that both lack a property agree on it, because `undefined === undefined`.
A query parameter that is absent is `null`, and `null` equals no stored
value.

Where a comment and the code disagree, the model follows the code. The
comment on `generateLoginId` (app/signup/page.jsx:121-122) gives
`OIJODO20220001` as an example. The code takes two characters of each
company word and then cuts the result to four characters. That is what
`CompanyInitials` models.

## Model

| member | source | states |
|---|---|---|
| `Records.Merge` | app/api/auth/route.js:143 | the spread `{ ...base, ...updates }`: each property comes from `updates` when present there, otherwise from `base` |
| `Records.Without` | app/api/auth/route.js:69 | rest destructuring removes exactly one property and keeps every other one |
| `Records.Assign` | app/api/employees/route.js:78-79 | assigning a property sets it (assigning `undefined` removes it from the serialised record) and leaves every other property alone |
| `Records.FindIndex` | app/api/auth/route.js:136 | `findIndex`: the result satisfies the predicate, nothing before it does, and there is no result exactly when no element satisfies it |
| `Records.Filter` | app/api/auth/route.js:175 | `filter` keeps an order-preserving subsequence that has each satisfying element with its full multiplicity and no other element |
| `Records.FilterKeepsAll` | app/api/auth/route.js:174-177 | the filtered array is no longer than the input, and is as long exactly when every element satisfies the predicate (the DELETE "nothing removed" test) |
| `Text.Trim` | app/signup/page.jsx:42 | `trim` never lengthens, and its result neither starts nor ends with whitespace |
| `Text.TrimEmpty` | app/page.jsx:32 | `!s.trim()` holds exactly when the string is all whitespace |
| `Text.Split` | app/signup/page.jsx:129 | `split(" ")` yields at least one piece, no piece contains the separator, and joining the pieces gives the input back |
| `Text.Upper` | app/signup/page.jsx:132 | `toUpperCase` maps every character through the ASCII upper-case map, keeping length |
| `Text.Lower` | app/dashboard/page.jsx:138 | `toLowerCase` maps every character through the ASCII lower-case map, keeping length |
| `Text.Take` | app/signup/page.jsx:130-133 | `slice(0, n)` keeps the first `n` characters, or the whole string when it is shorter |
| `Text.Utf16Length` | app/signup/page.jsx:44-46 | `length` counts UTF-16 code units: between one and two per character, and one per character exactly when none is above U+FFFF |
| `Text.TrimUnpadded` | app/signup/page.jsx:42 | a string that neither starts nor ends with whitespace trims to itself |
| `Text.StartsWith` | middleware.js:16 | `startsWith` holds exactly when the prefix is no longer than the string and agrees with it position by position |
| `Text.Includes` | app/dashboard/page.jsx:138-140 | `includes` never finds a longer string, always finds "", and finds any prefix |
| `Text.SplitAt` | app/signup/page.jsx:129 | splitting at the first separator yields the text before it, then the pieces of the rest |
| `Text.DecimalString` | app/signup/page.jsx:147 | `${year}` is a non-empty digit string without a leading zero |
| `Text.DecimalRoundTrip` | app/signup/page.jsx:147 | reading the rendered digits gives the year back |
| `Document.Database.Absent` | app/api/auth/route.js:20 | a document not yet on disk has no users and no employees |
| `Document.Database.Holding` | app/api/employees/route.js:31-33 | a stored document without `employees` reads as an empty employee array |
| `Document.Database.EnsureForAuth` | app/api/auth/route.js:11-23 | the file is created once, as `{ users: [] }`, only when absent; contents otherwise unchanged |
| `Document.Database.EnsureForEmployees` | app/api/employees/route.js:7-15 | the file is created once, as `{ users: [], employees: [] }`, only when absent |
| `AuthRoute.WithoutPasswords` | app/api/auth/route.js:53 | the list has one entry per user, none has a password, and every other property is kept |
| `AuthRoute.Query` | app/api/auth/route.js:40-54 | with an email or login ID parameter: the first user matching either one, or 404 "User not found" exactly when none matches; without: every user with the password removed |
| `AuthRoute.Login` | app/api/auth/route.js:98-112 | login succeeds iff some user has the given email or login ID and the same password; it returns the first such user without the password, else 401 "Invalid credentials" |
| `AuthRoute.RemainingUsers` | app/api/auth/route.js:175 | the users left are an order-preserving subsequence holding every user without that login ID as often as stored and no other; the length is unchanged exactly when nobody had it |
| `AuthRoute.Get` | app/api/auth/route.js:28-59 | GET answers `Query` on the stored users and changes nothing but the file's creation |
| `AuthRoute.Post` | app/api/auth/route.js:64-121 | signup appends, or refuses with 400 when a user has the same email or login ID; login answers `Login`; any other action is 400 "Invalid action"; only a successful signup changes `users` or writes |
| `AuthRoute.Put` | app/api/auth/route.js:126-155 | the first user with the body's login ID gets the other body properties merged in and is returned without the password; 404 and no write when there is none |
| `AuthRoute.Delete` | app/api/auth/route.js:160-188 | 400 without a login ID; 404 and no write when nobody has it; otherwise the filtered users are written |
| `AuthRoute.SignupKeepsAccountsDistinct` | app/api/auth/route.js:76-89 | if no two users share an email or a login ID before a signup, none do after it |
| `AuthRoute.SignupAppends` | app/api/auth/route.js:88-94 | a successful signup grows `users` by one at the end, keeps every earlier user, and answers without the password |
| `AuthRoute.UpdateKeepsLoginIds` | app/api/auth/route.js:131 | an update never changes any user's login ID, because the login ID is destructured out of the updates |
| `AuthRoute.UpdateKeepsDistinctLoginIds` | app/api/auth/route.js:131-143 | updates keep login IDs pairwise distinct |
| `AuthRoute.UpdateIsShallowMerge` | app/api/auth/route.js:143 | a successful update sets the given properties of the matched user, keeps the ones not given, and leaves every other user unchanged |
| `AuthRoute.UpdateCanDuplicateEmail` | app/api/auth/route.js:136-144 | a witness that the update path checks no uniqueness: updating one user with another's email succeeds and stores the email twice |
| `AuthRoute.DeleteRemovesExactly` | app/api/auth/route.js:174-181 | with a login ID, DELETE succeeds iff some user has it; afterwards nobody has it, every other user stays as often as stored and in order; on 404 nothing changes |
| `AuthRoute.DeleteKeepsAccountsDistinct` | app/api/auth/route.js:175 | deleting keeps emails and login IDs pairwise distinct |
| `EmployeesRoute.CompanyEmployees` | app/api/employees/route.js:47-49 | exactly the employees with that `companyId`, in stored order, each as often as stored |
| `EmployeesRoute.Query` | app/api/employees/route.js:36-51 | with an id: the first employee with it, or 404 "Employee not found" exactly when none has it; else the company's employees, or all of them |
| `EmployeesRoute.CheckedIn` | app/api/employees/route.js:78-79 | check-in sets `checkInTime` and `status` "present" and changes no other property, `checkOutTime` included |
| `EmployeesRoute.CheckedOut` | app/api/employees/route.js:89 | check-out sets `checkOutTime` only |
| `EmployeesRoute.Get` | app/api/employees/route.js:20-56 | GET answers `Query` on the stored employees (missing array read as empty) and changes no stored array |
| `EmployeesRoute.Post` | app/api/employees/route.js:61-117 | check-in and check-out stamp the first employee with the id in place, or 404 with no write; any other action creates, refused with 400 when any employee has the same email |
| `EmployeesRoute.Put` | app/api/employees/route.js:122-154 | the first employee with the body's id gets the other body properties merged in; 404 and no write when there is none |
| `EmployeesRoute.CreateKeepsEmailsDistinct` | app/api/employees/route.js:97-106 | creation keeps employee emails pairwise distinct across all companies |
| `EmployeesRoute.AttendanceTouchesOne` | app/api/employees/route.js:75-91 | a check-in or check-out changes one employee, the first with the id, and in it only the attendance properties |
| `EmployeesRoute.AttendanceStampsFirst` | app/api/employees/route.js:76-81 | the stamped and returned employee is the first one with the id |
| `EmployeesRoute.AttendanceKeepsEmailsDistinct` | app/api/employees/route.js:75-91 | check-in and check-out keep emails pairwise distinct |
| `EmployeesRoute.UpdateKeepsIds` | app/api/employees/route.js:127 | an update never changes an employee's id, because the id is destructured out of the updates |
| `EmployeesRoute.CheckInThenCheckOut` | app/api/employees/route.js:78-89 | check-in then check-out leaves the employee present with both times recorded |
| `EmployeesRoute.CreateAcceptsTakenId` | app/api/employees/route.js:97-105 | creation checks only emails: an employee with a taken id is accepted, and lookup by id then finds the earlier one |
| `SignupPage.UntrimmedCheckAgrees` | app/signup/page.jsx:48 | a character check on the untrimmed string agrees with one on the trimmed string when whitespace is allowed |
| `SignupPage.CompanyNameError` | app/signup/page.jsx:42-50 | no message exactly when the trimmed name has 2 to 100 UTF-16 code units and every character is a letter, digit, whitespace, `&`, `.` or `-` |
| `SignupPage.NameError` | app/signup/page.jsx:53-61 | no message exactly when the trimmed name has 2 to 50 UTF-16 code units and only letters and whitespace |
| `SignupPage.NameLimitsCountCharacters` | app/signup/page.jsx:42-61 | names that pass the character checks hold nothing above U+FFFF, so their length limits count characters |
| `SignupPage.EmailPattern` | app/signup/page.jsx:66 | an address of the required shape has at least five characters and neither starts nor ends with whitespace or `@` |
| `SignupPage.EmailPatternShape` | app/signup/page.jsx:66 | an address of the required shape is not blank and has exactly one `@` |
| `SignupPage.EmailError` | app/signup/page.jsx:64-70 | no message exactly when the address has the shape local `@` domain `.` suffix (no whitespace, no other `@`) and at most 100 UTF-16 code units; the "required" message exactly when it is all whitespace |
| `SignupPage.StripSeparators` | app/signup/page.jsx:77 | removing separators keeps, in order, exactly the characters that are not whitespace, `-`, `+`, `(` or `)` |
| `SignupPage.StripLeavesDigits` | app/signup/page.jsx:77 | for a string of phone characters, removing the separators leaves exactly its digits |
| `SignupPage.DigitsNotBlank` | app/signup/page.jsx:73 | a phone number holding a digit is never blank |
| `SignupPage.PhoneError` | app/signup/page.jsx:73-81 | no message exactly when every character is a digit or one of whitespace, `-`, `+`, `(`, `)`, and there are 10 to 15 digits |
| `SignupPage.PasswordError` | app/signup/page.jsx:84-96 | no message exactly when the password has 8 to 50 UTF-16 code units with a lower-case letter, an upper-case letter and a digit |
| `SignupPage.ConfirmPasswordError` | app/signup/page.jsx:99-103 | no message exactly when the confirmation is non-empty and equal to the password |
| `SignupPage.LogoError` | app/signup/page.jsx:106-113 | no message exactly when there is no logo, or its type is one of the five image types and it is at most 5 MiB |
| `SignupPage.ValidateSignUp` | app/signup/page.jsx:38-116 | a field has a key exactly when its cascade produced a message, and the value is that message |
| `SignupPage.FieldErrorIff` | app/signup/page.jsx:38-116 | each field's cascade is silent exactly when the field's condition holds |
| `SignupPage.ValidFormFieldwise` | app/signup/page.jsx:38-116 | the form is valid exactly when each field is |
| `SignupPage.ValidateSignUpEmpty` | app/signup/page.jsx:38-116 | the error object is empty exactly when every field passes |
| `SignupPage.CompanyInitials` | app/signup/page.jsx:128-133 | the company initials have at most four characters and no lower-case letter |
| `SignupPage.NameInitials` | app/signup/page.jsx:136-139 | the name initials have at most four characters and no lower-case letter |
| `SignupPage.GenerateLoginId` | app/signup/page.jsx:124-147 | the generated ID is empty exactly when the company name or the name is empty |
| `SignupPage.LoginIdLayout` | app/signup/page.jsx:124-147 | a generated ID is up to eight non-lower-case initials, then the year in decimal (which reads back as the year), then "0001" |
| `SignupPage.TwoWordCompanyInitials` | app/signup/page.jsx:128-133 | a two-word company name gives the upper-cased first two characters of each word, cut to four |
| `SignupPage.AmpersandCompanyLoginId` | app/signup/page.jsx:124-147 | company "R&D Labs" with administrator "Jo Do" in 2025 gets the login ID "R&LAJODO20250001" |
| `SignupPage.RdLabsValid` | app/signup/page.jsx:42-50 | "R&D Labs" passes the company-name checks |
| `SignupPage.JoDoValid` | app/signup/page.jsx:53-61 | "Jo Do" passes the name checks |
| `SignupPage.RdLabsInitials` | app/signup/page.jsx:128-133 | the initials of "R&D Labs" are "R&LA" |
| `SignupPage.JoDoInitials` | app/signup/page.jsx:136-139 | the initials of "Jo Do" are "JODO" |
| `SignupPage.SplitWithoutSeparator` | app/signup/page.jsx:136 | a name without a space splits into itself alone |
| `SignupPage.OneWordNameInitials` | app/signup/page.jsx:136-139 | a one-word name is both first and last name, so its first two letters appear twice |
| `SignupPage.Avatar` | app/signup/page.jsx:197 | the avatar is the upper-cased first character of the name, or empty for an empty name |
| `SignupPage.NewUser` | app/signup/page.jsx:188-199 | the built record holds the login ID, the form's email and password, role "Admin", the avatar and the logo preview, and no `action` |
| `SignupPage.NewUserProfile` | app/signup/page.jsx:188-199 | the built record also holds the form's company name, name and phone and the timestamp |
| `SignupPage.SignUpRecord` | app/signup/page.jsx:176-199 | a record is produced exactly when the form is valid, and then the generated login ID is non-empty |
| `SignupPage.SignUpRecordFields` | app/signup/page.jsx:188-199 | the submitted record carries a non-empty generated login ID, role "Admin", the upper-cased first letter of the name, the email, the password and the logo |
| `SignupPage.SameNamesCollide` | app/signup/page.jsx:145 | the serial is always "0001", so a second valid signup with the same company name and name in the same year is refused with 400 |
| `SignupPage.TakenLoginIdRefused` | app/api/auth/route.js:76-85 | a signup whose login ID a stored user already has is refused and changes nothing |
| `LoginPage.IdentifierError` | app/page.jsx:32-36 | no message exactly when the trimmed identifier has at least 3 UTF-16 code units; the "required" message exactly when it is all whitespace |
| `LoginPage.PasswordError` | app/page.jsx:39-45 | no message exactly when the password has 6 to 50 UTF-16 code units; the "required" message exactly when it is empty |
| `LoginPage.ValidateLogin` | app/page.jsx:28-48 | each key is present exactly when its check fails and holds that check's message; the object is empty iff the trimmed identifier has at least 3 code units and the password 6 to 50 |
| `LoginPage.Credentials` | app/page.jsx:75-79 | the one input string is sent as both `email` and `loginId`, with the password and nothing else |
| `LoginPage.LoginRequest` | app/page.jsx:63-79 | nothing is sent exactly when validation reports an error; otherwise the body has action "login" plus the credentials |
| `LoginPage.LoginByEmailOrLoginId` | app/page.jsx:75-79 | combined with the auth route, login succeeds exactly when some user has the input as email or as login ID and the same password |
| `Middleware.Guard` | middleware.js:12-36 | a redirect happens iff the path is not under "/api/", is neither "/" nor "/signup", and the `user` cookie is missing or empty; it always goes to "/" |
| `Middleware.GuardRunsOn` | middleware.js:44 | the matcher selects only paths starting with `/`, never one under `/_next/static`, `/_next/image` or `/favicon.ico`, and always selects `/` |
| `Middleware.Effective` | middleware.js:44 | a request is redirected iff the matcher selects its path and the guard redirects it |
| `Middleware.AssetsNeverRedirected` | middleware.js:44 | paths under `/_next/static`, `/_next/image` and `/favicon.ico` are never redirected, whatever the cookie |
| `Middleware.DashboardNeedsCookie` | middleware.js:27-35 | `/dashboard` is served with a non-empty cookie and otherwise redirected to "/" |
| `Middleware.FaviconDotIsWildcard` | middleware.js:44 | the unescaped `.` in the matcher also exempts `/favicon-ico` |
| `Middleware.BareApiPathGuarded` | middleware.js:16 | only paths under "/api/" pass unchecked; `/api` itself without a cookie is redirected |
| `Dashboard.FilteredEmployees` | app/dashboard/page.jsx:137-141 | the search keeps, in list order, exactly the employees whose name, department or position contains the query ignoring ASCII case; a missing field does not match |
| `Dashboard.EmptyQueryKeepsDescribed` | app/dashboard/page.jsx:137-141 | an empty query keeps exactly the employees that have a name, a department or a position |
| `Dashboard.SearchIgnoresQueryCase` | app/dashboard/page.jsx:138-140 | an upper-cased query keeps the same employees |
| `Dashboard.StatusIndicator` | app/dashboard/page.jsx:143-154 | "present", "on-leave" and "absent" each have their own indicator, and every other status the grey default |
| `Dashboard.AttendanceIndicator` | app/dashboard/page.jsx:143-146 | after a check-in the employee shows the present indicator; a check-out leaves the indicator as it was |
| `Dashboard.AdminAction` | app/dashboard/page.jsx:322-348 | nothing for a non-admin; otherwise exactly one of Check In (not present or no check-in time), Check Out (checked in, no check-out time) or "Already checked out today" |
| `Dashboard.ActionTarget` | app/dashboard/page.jsx:327 | the admin buttons send `_id` when it is non-empty, else `id` |
| `Dashboard.AttendanceBody` | app/dashboard/page.jsx:83-118 | a check-in request carries action "check-in", the id and the time as `checkInTime`; a check-out request carries "check-out", the id and the time as `checkOutTime`; neither carries the other time |
| `Dashboard.CurrentEmployee` | app/dashboard/page.jsx:375 | the panel's record is the first employee whose id equals the user's login ID, and there is none exactly when no employee has it |
| `Dashboard.Panel` | app/dashboard/page.jsx:376-377 | "checked in" holds iff there is a check-in time and no check-out time; "checked out" holds iff there is a check-out time; the two never hold together |
| `Dashboard.PanelShowsOneBlock` | app/dashboard/page.jsx:381-412 | the panel shows exactly one of its three blocks; the Check In button only when there is no record or neither time is set |
| `Dashboard.PanelAgreesWithAdmin` | app/dashboard/page.jsx:324-334 | for a present employee, the panel's "Checked In" block shows exactly when the admin is offered Check Out |
| `Dashboard.RepeatCheckInStaysCheckedOut` | app/dashboard/page.jsx:324-348 | check-in never clears `checkOutTime`: after a repeat check-in of a checked-out employee the admin sees "Already checked out today" and the panel "Checked out" |
| `Dashboard.PanelCheckOutShowsCheckedOut` | app/dashboard/page.jsx:403-412 | after the panel's Check Out is stamped by the route, the panel finds the same record and shows "Checked out" |
| `Dashboard.CompanyParam` | app/dashboard/page.jsx:45 | the text spliced after `companyId=` is the user's login ID when it is non-empty, else "" |
| `Dashboard.Delivered` | app/dashboard/page.jsx:48-66 | a JSON reply arrives exactly when the route answered OK, and a list reply carries the list |
| `Dashboard.FetchedList` | app/dashboard/page.jsx:66-72 | the fetched data replaces the list only for a successful reply carrying an array; otherwise the list becomes empty |
| `Dashboard.ListFetchedFor` | app/dashboard/page.jsx:45-72 | whatever the URL carries, the list shown holds only stored employees |
| `Dashboard.FetchForCompany` | app/api/employees/route.js:24-49 | a query that reads as a non-empty `companyId` and no `id` lists exactly that company's employees |
| `Dashboard.DashboardListsOwnCompany` | app/dashboard/page.jsx:45-67 | for a login ID free of `&`, `#`, `%`, `+`, tabs and newlines and not ending in a control character or space, the dashboard lists exactly the employees whose `companyId` is the login ID, in stored order |
| `Dashboard.FalsyLoginIdListsAll` | app/dashboard/page.jsx:93-99 | a loaded user with a missing or empty login ID refetches after a panel check-in with an empty `companyId=`, which is falsy, so every company's employees are listed |
| `Dashboard.AmpersandLoginIdCut` | app/dashboard/page.jsx:45 | a login ID `a&b` is read by the route as `companyId` `a`, so company `a`'s employees are listed instead of the user's |
| `Dashboard.SingleCompany` | app/api/employees/route.js:47-49 | a lone employee is listed for its own company and for no other |
| `Dashboard.AmpersandLoginIdMissesOwnCompany` | app/dashboard/page.jsx:45 | for the login ID "R&LAJODO20250001" the company's own employee is stored but not listed |
| `Dashboard.EncodedCompanyParam` | app/dashboard/page.jsx:45 | with `encodeURIComponent`, the route reads back exactly the login ID (or "") as `companyId` |
| `Dashboard.EncodedFetchListsOwnCompany` | app/dashboard/page.jsx:45-67 | with the login ID encoded, the dashboard lists exactly the employees whose `companyId` is the login ID, whatever characters it holds |
| `Url.Utf8` | app/api/employees/route.js:24 | a character encodes to one to four bytes; one byte, equal to the character, exactly for ASCII; every byte of a longer encoding is at least 0x80 |
| `Url.Utf8String` | app/api/employees/route.js:24 | the encoding is no shorter than the string and holds an ASCII byte exactly when the string holds that character |
| `Url.Utf8StringAppend` | app/api/employees/route.js:24 | encoding distributes over concatenation |
| `Url.Utf8Ascii` | app/api/employees/route.js:24 | an ASCII string encodes byte for byte |
| `Url.DecodeOne` | app/api/employees/route.js:25-26 | one decoder step consumes at least one byte, passes ASCII through and turns an invalid lead byte into U+FFFD |
| `Url.Utf8Decode` | app/api/employees/route.js:25-26 | decoding yields no more characters than bytes, and exactly as many for ASCII input |
| `Url.DecodeOneOfUtf8` | app/api/employees/route.js:25-26 | the decoder reads a character's own encoding back in one step |
| `Url.Utf8RoundTrip` | app/api/employees/route.js:25-26 | decoding the UTF-8 encoding of a string gives the string back |
| `Url.PlusToSpace` | app/api/employees/route.js:25-26 | form decoding leaves no `+` byte and changes nothing without one |
| `Url.HexValue` | app/api/employees/route.js:25-26 | a hex digit's value is below 16 |
| `Url.PercentDecode` | app/api/employees/route.js:25-26 | percent-decoding never lengthens and changes nothing without a `%` |
| `Url.HexDigit` | app/dashboard/page.jsx:45 | the upper-case hex digit for a value reads back as that value |
| `Url.PercentChars` | app/dashboard/page.jsx:45 | `%XX` escapes are three characters per byte, made only of `%` and hex digits |
| `Url.PercentDecodeEscape` | app/api/employees/route.js:25-26 | one `%XX` escape decodes to its byte |
| `Url.PercentDecodeEscapes` | app/api/employees/route.js:25-26 | a run of escapes decodes to the bytes it escapes |
| `Url.QueryEncode` | app/dashboard/page.jsx:45 | the URL parser's query encoding leaves no character that needs escaping, and every character other than `%` and hex digits comes from the input |
| `Url.QueryEncodeAppend` | app/dashboard/page.jsx:45 | query encoding distributes over concatenation |
| `Url.QueryEncodePlain` | app/dashboard/page.jsx:45 | text that needs no escaping is sent unchanged |
| `Url.QueryEncodeKeepsEscapes` | app/dashboard/page.jsx:45 | already-escaped text is sent unchanged |
| `Url.EncodeUriComponent` | app/dashboard/page.jsx:45 | `encodeURIComponent` leaves only unreserved characters, `%` and hex digits |
| `Url.QueryCharDecodes` | app/api/employees/route.js:25-26 | a sent character other than `%` percent-decodes to its UTF-8 bytes |
| `Url.PercentDecodeQuery` | app/api/employees/route.js:25-26 | text without `%` percent-decodes after query encoding to its own UTF-8 bytes |
| `Url.PercentDecodeComponent` | app/api/employees/route.js:25-26 | `encodeURIComponent` text percent-decodes after query encoding to the original's UTF-8 bytes |
| `Url.NoPlusBytes` | app/api/employees/route.js:25-26 | a string without `+` encodes without a `+` byte |
| `Url.Before` | app/api/employees/route.js:25-26 | the text before the first occurrence of a character is a prefix without it, followed by it, and is the whole string exactly when it does not occur |
| `Url.After` | app/api/employees/route.js:25-26 | the text after the first occurrence rebuilds the string with the text before it, and is empty when it does not occur |
| `Url.TrimC0End` | app/dashboard/page.jsx:45 | the URL parser drops trailing controls and spaces: the result is a prefix ending in neither, and nothing else is dropped |
| `Url.RemoveTabNewline` | app/dashboard/page.jsx:45 | the URL parser removes every tab and newline and keeps everything else, in order and with its multiplicity |
| `Url.FormDecode` | app/api/employees/route.js:25-26 | a name or value without `%` or `+` decodes to itself |
| `Url.Pair` | app/api/employees/route.js:25-26 | a piece splits at its first `=` into name and value; a piece without `=` has an empty value |
| `Url.Pairs` | app/api/employees/route.js:25-26 | an empty query has no pairs, a query without `&` has one, and a leading `&` (an empty piece) is skipped |
| `Url.Lookup` | app/api/employees/route.js:25-26 | `get` finds the value of the first pair with the name, and `null` exactly when no pair has it |
| `Url.SentQuery` | app/dashboard/page.jsx:45 | the query received starts with `companyId=` and, after it, holds no character that needs escaping |
| `Url.FormDecodeOfQuery` | app/api/employees/route.js:25-26 | a value without `%` or `+` is read back unchanged after query encoding |
| `Url.FormDecodeOfComponent` | app/api/employees/route.js:25-26 | an `encodeURIComponent` value is read back as the original |
| `Url.SentPair` | app/api/employees/route.js:25-26 | a sent value without `&` forms the single pair `companyId` |
| `Url.SentValue` | app/api/employees/route.js:25-26 | such a query has a `companyId` and no `id` |
| `Url.PlainParamArrives` | app/dashboard/page.jsx:45 | a raw value free of `&`, `#`, `%`, `+`, tabs and newlines, not ending in a control or space, is read back exactly as `companyId`, and there is no `id` |
| `Url.EncodedParamArrives` | app/dashboard/page.jsx:45 | any value passed through `encodeURIComponent` is read back exactly as `companyId`, and there is no `id` |
| `Url.SentQueryUncut` | app/dashboard/page.jsx:45 | a value without `#`, tabs or newlines and not ending in a control or space is sent as its query encoding |
| `Url.PairsAtAmpersand` | app/api/employees/route.js:25-26 | the query splits into pairs at each `&` |
| `Url.QueryEncodeAmpersand` | app/dashboard/page.jsx:45 | an `&` is sent as itself, not escaped |
| `Url.AmpersandQuery` | app/dashboard/page.jsx:45 | a raw value `a&b` is sent as `companyId=` then `a` encoded, `&`, `b` |
| `Url.AmpersandCutsParam` | app/api/employees/route.js:25-26 | for a raw value `a&b`, `get("companyId")` returns `a` only, and there is no `id` |
| `Url.TwoPairs` | app/api/employees/route.js:25-26 | `companyId=e&b` reads as the pairs (`companyId`, e decoded) and (`b`, "") |
| `Url.LookupTwo` | app/api/employees/route.js:25-26 | `get` on two pairs returns the first one's value when its name matches, else the second's |
| `Scenarios.DuplicateEmailSignup` | app/api/auth/route.js:76-94 | on a fresh document, a first signup answers without the password, and a second with the same email is refused with 400; one user is stored |
| `Scenarios.CreateThenCheckIn` | app/api/employees/route.js:75-81 | create, check in at 09:15, then look up by id: the employee is present since 09:15 in its company |
| `Scenarios.CheckInUnknownId` | app/api/employees/route.js:83 | checking in an unknown id answers 404 "Employee not found" and leaves the employees as they were |

## Left out

- File-system calls, `path.join`, JSON parsing and serialisation, `NextResponse` and the network side of `fetch`. A handler takes the parsed body or query parameters and returns an `Outcome`. The query string of the dashboard's one GET is modelled (`Url`): the URL parser's handling of the query (trailing C0 and space trimming, tab and newline removal, the `#` fragment cut, query percent-encoding) and `searchParams.get`. The scheme, host and path parts of the URL, and other pages' requests, are not. The file is the `Database` object, and each whole-file write bumps a ghost counter.
- The 500 "Server error" / "Failed to ..." paths, taken when the file system or `JSON.parse` throws: the model has no failing I/O.
- Stored values other than strings. A record maps property names to strings, so JSON `null`, numbers and nested objects are not represented.
- The `null` logo of a signup without a preview is modelled as an omitted `logo` property, which serialises differently from `"logo": null`.
- Property order inside serialised records: maps are unordered.
- The lost-update race between concurrent requests, each of which reads, changes and rewrites the whole file. The model runs requests one at a time.
- Clocks: the year, the ISO timestamp and the dashboard's `toLocaleTimeString` time are parameters.
- The regular-expression engine. Each pattern is a character-class predicate, and case mapping covers ASCII letters only (`toUpperCase`/`toLowerCase` on other letters are not modelled).
- The `Next.js` matcher is modelled as the regular expression it is written as, anchored to the whole path. Next's own path normalisation is not modelled.
- React state, rendering, toasts, `alert`, `router.push`, the password-visibility toggles and the `FileReader` logo preview (the preview string is a parameter). The `signup`/`login` helpers of app/context/auth-context.jsx are not part of this model. They add `action` to the body and post it, which the lemmas stand in for by giving the route handlers the record the page builds.
- app/profile/page.jsx, app/attendance/page.jsx, app/layout.jsx, app/context/sidebar-context.jsx and components/* are not part of this model (display and wiring only).
- `Text.Take`: `slice(0, 2)` on a word counts UTF-16 code units, and the model counts characters. They differ only for characters above U+FFFF, which the company-name and name checks reject before a login ID is generated.
- `Url.Lookup` and `searchParams` are modelled for the dashboard's query only; the route's `id` parameter is read back the same way but no request of the dashboard sets it.
- Password handling is plain string equality, as in the source: no hashing.
- `SignupPage.CompanyInitials`: its contract states only the length bound and the absence of lower-case letters. The exact per-word construction is its definition and is used by `LoginIdLayout`.
- `SignupPage.NameInitials`: its contract states only the length bound and the absence of lower-case letters. The first/last-word construction is its definition and is stated for one-word names by `OneWordNameInitials`.
- `Text.Trim`: its contract states the shape of the result. The link to blankness is `TrimEmpty`, and the exact bounds are `TrimFrom`/`TrimTo`.
- `Dashboard.Delivered`: a lookup by id (which the dashboard never makes) is mapped to a JSON reply without an array. The route's 500 replies are not modelled.

## Findings

| source | as written | input that shows it | evidently intended | confidence | as-written member | corrected member |
|---|---|---|---|---|---|---|
| app/dashboard/page.jsx:45 | the login ID is spliced into `/api/employees?companyId=` unencoded | company "R&D Labs" (a valid name: `&` is allowed) and administrator "Jo Do" signing up in 2025 get the login ID "R&LAJODO20250001"; the route's `searchParams.get("companyId")` returns "R", so the company's own employees are not listed | `encodeURIComponent(user?.loginId \|\| "")`, so that the route reads back the whole login ID | high; not executed | `Dashboard.AmpersandLoginIdMissesOwnCompany` | `Dashboard.EncodedFetchListsOwnCompany` |
