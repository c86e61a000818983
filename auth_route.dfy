/**
 * The account directory behind `/api/auth` (app/api/auth/route.js): lookup
 * and listing (GET), signup and login (POST), shallow-merge update (PUT) and
 * removal by login ID (DELETE) over the `users` array of the document.
 */
module AuthRoute {
  import opened Records
  import opened Document

  const PasswordKey := "password"

  datatype QueryReply = OneUser(user: Record) | UserList(users: seq<Record>)

  /** `u.email === userData.email || u.loginId === userData.loginId` */
  predicate SameAccount(u: Record, d: Record)
  {
    SameField(u, d, "email") || SameField(u, d, "loginId")
  }

  /** The login test: the same account and `u.password === userData.password`. */
  predicate CredentialsMatch(u: Record, d: Record)
  {
    SameAccount(u, d) && SameField(u, d, PasswordKey)
  }

  /** The GET lookup test `u.email === email || u.loginId === loginId` on query parameters. */
  predicate LookupMatch(u: Record, email: Option<string>, loginId: Option<string>)
  {
    QueryMatch(u, "email", email) || QueryMatch(u, "loginId", loginId)
  }

  /**
   * No two users share an email and no two share a login ID. A missing
   * property counts as a value of its own, as it does for `===`.
   */
  ghost predicate DistinctAccounts(users: seq<Record>)
  {
    forall i, j :: 0 <= i < j < |users| ==> !SameAccount(users[i], users[j])
  }

  ghost predicate DistinctLoginIds(users: seq<Record>)
  {
    forall i, j :: 0 <= i < j < |users| ==> !SameField(users[i], users[j], "loginId")
  }

  /** `users.map(({ password, ...user }) => user)` */
  function WithoutPasswords(users: seq<Record>): (r: seq<Record>)
    ensures |r| == |users|
    ensures forall i :: 0 <= i < |r| ==> Field(r[i], PasswordKey) == None
    ensures forall i, k :: 0 <= i < |r| && k != PasswordKey ==> Field(r[i], k) == Field(users[i], k)
  {
    seq(|users|, i requires 0 <= i < |users| => Without(users[i], PasswordKey))
  }

  /**
   * GET: with a non-empty `email` or `loginId` parameter, the first user
   * matching either one, as stored (password included); otherwise every
   * user with the password removed.
   */
  function Query(users: seq<Record>, email: Option<string>, loginId: Option<string>): (r: Outcome<QueryReply>)
    ensures !Truthy(email) && !Truthy(loginId) ==> r == Ok(UserList(WithoutPasswords(users)))
    ensures Truthy(email) || Truthy(loginId) ==>
      (r.Ok? <==> exists i :: 0 <= i < |users| && LookupMatch(users[i], email, loginId))
    ensures r.Ok? && (Truthy(email) || Truthy(loginId)) ==>
      exists i :: 0 <= i < |users| && LookupMatch(users[i], email, loginId) && r.value == OneUser(users[i])
        && forall j :: 0 <= j < i ==> !LookupMatch(users[j], email, loginId)
    ensures r.Err? ==> r == Err(404, "User not found")
  {
    if Truthy(email) || Truthy(loginId) then
      match FindIndex(users, u => LookupMatch(u, email, loginId))
      case Some(i) => Ok(OneUser(users[i]))
      case None => Err(404, "User not found")
    else
      Ok(UserList(WithoutPasswords(users)))
  }

  /**
   * POST with action "login": the first user whose email or login ID and
   * password match, with the password removed; otherwise 401.
   */
  function Login(users: seq<Record>, d: Record): (r: Outcome<Record>)
    ensures r.Ok? <==> exists i :: 0 <= i < |users| && CredentialsMatch(users[i], d)
    ensures r.Ok? ==>
      exists i :: 0 <= i < |users| && CredentialsMatch(users[i], d) && r.value == Without(users[i], PasswordKey)
        && forall j :: 0 <= j < i ==> !CredentialsMatch(users[j], d)
    ensures r.Ok? ==> Field(r.value, PasswordKey) == None
    ensures r.Err? ==> r == Err(401, "Invalid credentials")
  {
    match FindIndex(users, u => CredentialsMatch(u, d))
    case Some(i) => Ok(Without(users[i], PasswordKey))
    case None => Err(401, "Invalid credentials")
  }

  /** What signup answers and leaves in `users`. */
  ghost predicate SignupEffect(before: seq<Record>, d: Record, r: Outcome<Record>, after: seq<Record>)
  {
    if exists i :: 0 <= i < |before| && SameAccount(before[i], d) then
      r == Err(400, "User already exists") && after == before
    else
      r == Ok(Without(d, PasswordKey)) && after == before + [d]
  }

  /**
   * What PUT answers and leaves in `users`: `{ loginId, ...updates } = body`,
   * a shallow merge of `updates` into the first user with that login ID.
   */
  ghost predicate UpdateEffect(before: seq<Record>, body: Record, r: Outcome<Record>, after: seq<Record>)
  {
    var updates := Without(body, "loginId");
    if forall j :: 0 <= j < |before| ==> !SameField(before[j], body, "loginId") then
      r == Err(404, "User not found") && after == before
    else
      exists i :: 0 <= i < |before| && SameField(before[i], body, "loginId")
        && (forall j :: 0 <= j < i ==> !SameField(before[j], body, "loginId"))
        && after == before[i := Merge(before[i], updates)]
        && r == Ok(Without(after[i], PasswordKey))
  }

  /** `users.filter((u) => u.loginId !== loginId)` */
  function RemainingUsers(users: seq<Record>, loginId: string): (r: seq<Record>)
    ensures IsSubsequence(r, users)
    ensures forall u :: u in r <==> u in users && Field(u, "loginId") != Some(loginId)
    ensures forall u :: multiset(r)[u] == if Field(u, "loginId") != Some(loginId) then multiset(users)[u] else 0
    ensures |r| == |users| <==> forall i :: 0 <= i < |users| ==> Field(users[i], "loginId") != Some(loginId)
  {
    var keep := u => Field(u, "loginId") != Some(loginId);
    FilterMembers(users, keep);
    FilterKeepsAll(users, keep);
    Filter(users, keep)
  }

  /** What DELETE answers and leaves in `users`. */
  ghost predicate DeleteEffect(before: seq<Record>, loginId: Option<string>, r: Outcome<()>, after: seq<Record>)
  {
    if !Truthy(loginId) then
      r == Err(400, "Login ID required") && after == before
    else if |RemainingUsers(before, loginId.value)| == |before| then
      r == Err(404, "User not found") && after == before
    else
      r == Ok(()) && after == RemainingUsers(before, loginId.value)
  }

  /** GET /api/auth */
  method Get(db: Database, email: Option<string>, loginId: Option<string>) returns (r: Outcome<QueryReply>)
    requires db.Valid()
    modifies db
    ensures db.Valid() && db.onDisk
    ensures db.users == old(db.users) && db.employees == old(db.employees) && db.hasEmployees == old(db.hasEmployees)
    ensures r == Query(old(db.users), email, loginId)
    ensures db.writes == old(db.writes) + CreationWrites(old(db.onDisk))
  {
    db.EnsureForAuth();
    r := Query(db.users, email, loginId);
  }

  /**
   * POST /api/auth: `{ action, ...userData } = body`, then signup, login, or
   * 400 "Invalid action" for any other action.
   */
  method Post(db: Database, body: Record) returns (r: Outcome<Record>)
    requires db.Valid()
    modifies db
    ensures db.Valid() && db.onDisk
    ensures db.employees == old(db.employees) && db.hasEmployees == old(db.hasEmployees)
    ensures var action := Field(body, "action");
            var d := Without(body, "action");
      && (action == Some("signup") ==> SignupEffect(old(db.users), d, r, db.users))
      && (action == Some("login") ==> r == Login(old(db.users), d))
      && (action != Some("signup") && action != Some("login") ==> r == Err(400, "Invalid action"))
      && (action != Some("signup") ==> db.users == old(db.users))
      && db.writes == old(db.writes) + CreationWrites(old(db.onDisk)) + if action == Some("signup") && r.Ok? then 1 else 0
  {
    db.EnsureForAuth();
    var action := Field(body, "action");
    var d := Without(body, "action");
    if action == Some("signup") {
      var existing := FindIndex(db.users, u => SameAccount(u, d));
      if existing.Some? {
        r := Err(400, "User already exists");
      } else {
        db.users := db.users + [d];
        db.writes := db.writes + 1;
        r := Ok(Without(d, PasswordKey));
      }
    } else if action == Some("login") {
      r := Login(db.users, d);
    } else {
      r := Err(400, "Invalid action");
    }
  }

  /** PUT /api/auth */
  method Put(db: Database, body: Record) returns (r: Outcome<Record>)
    requires db.Valid()
    modifies db
    ensures db.Valid() && db.onDisk
    ensures db.employees == old(db.employees) && db.hasEmployees == old(db.hasEmployees)
    ensures UpdateEffect(old(db.users), body, r, db.users)
    ensures db.writes == old(db.writes) + CreationWrites(old(db.onDisk)) + if r.Ok? then 1 else 0
  {
    db.EnsureForAuth();
    var updates := Without(body, "loginId");
    var index := FindIndex(db.users, u => SameField(u, body, "loginId"));
    if index.None? {
      r := Err(404, "User not found");
    } else {
      var i := index.value;
      db.users := db.users[i := Merge(db.users[i], updates)];
      db.writes := db.writes + 1;
      r := Ok(Without(db.users[i], PasswordKey));
    }
  }

  /** DELETE /api/auth?loginId=... */
  method Delete(db: Database, loginId: Option<string>) returns (r: Outcome<()>)
    requires db.Valid()
    modifies db
    ensures db.Valid() && db.onDisk
    ensures db.employees == old(db.employees) && db.hasEmployees == old(db.hasEmployees)
    ensures DeleteEffect(old(db.users), loginId, r, db.users)
    ensures db.writes == old(db.writes) + CreationWrites(old(db.onDisk)) + if r.Ok? then 1 else 0
  {
    db.EnsureForAuth();
    if !Truthy(loginId) {
      r := Err(400, "Login ID required");
      return;
    }
    var remaining := RemainingUsers(db.users, loginId.value);
    if |remaining| == |db.users| {
      r := Err(404, "User not found");
    } else {
      db.users := remaining;
      db.writes := db.writes + 1;
      r := Ok(());
    }
  }

  /** A signup never lets two users share an email or a login ID. */
  lemma SignupKeepsAccountsDistinct(before: seq<Record>, d: Record, r: Outcome<Record>, after: seq<Record>)
    requires DistinctAccounts(before) && SignupEffect(before, d, r, after)
    ensures DistinctAccounts(after)
  {
    if r.Ok? {
      forall i, j | 0 <= i < j < |after| ensures !SameAccount(after[i], after[j]) {
        if j == |before| {
          assert after[j] == d && after[i] == before[i];
        }
      }
    }
  }

  /** A successful signup appends the new record and keeps every earlier user in place. */
  lemma SignupAppends(before: seq<Record>, d: Record, r: Outcome<Record>, after: seq<Record>)
    requires SignupEffect(before, d, r, after) && r.Ok?
    ensures |after| == |before| + 1 && after[|before|] == d
    ensures forall i :: 0 <= i < |before| ==> after[i] == before[i]
    ensures Field(r.value, PasswordKey) == None
  {
  }

  /** An update never changes any user's login ID, because `loginId` is taken out of the updates. */
  lemma UpdateKeepsLoginIds(before: seq<Record>, body: Record, r: Outcome<Record>, after: seq<Record>)
    requires UpdateEffect(before, body, r, after)
    ensures |after| == |before|
    ensures forall i :: 0 <= i < |before| ==> SameField(after[i], before[i], "loginId")
  {
    if r.Ok? {
      var i :| 0 <= i < |before| && after == before[i := Merge(before[i], Without(body, "loginId"))];
      assert Field(after[i], "loginId") == Field(before[i], "loginId");
    }
  }

  /** Hence updates keep login IDs distinct. */
  lemma UpdateKeepsDistinctLoginIds(before: seq<Record>, body: Record, r: Outcome<Record>, after: seq<Record>)
    requires DistinctLoginIds(before) && UpdateEffect(before, body, r, after)
    ensures DistinctLoginIds(after)
  {
    UpdateKeepsLoginIds(before, body, r, after);
  }

  /**
   * An update only touches the matched user: keys absent from the updates
   * keep their values, and every other user is unchanged.
   */
  lemma UpdateIsShallowMerge(before: seq<Record>, body: Record, r: Outcome<Record>, after: seq<Record>)
    requires UpdateEffect(before, body, r, after) && r.Ok?
    ensures |after| == |before|
    ensures exists i :: (0 <= i < |before| && SameField(before[i], body, "loginId")
      && (forall k :: k != "loginId" && Field(body, k).Some? ==> Field(after[i], k) == Field(body, k))
      && (forall k :: Field(body, k).None? ==> Field(after[i], k) == Field(before[i], k))
      && (forall j :: 0 <= j < |before| && j != i ==> after[j] == before[j]))
  {
    var i :| 0 <= i < |before| && SameField(before[i], body, "loginId")
      && after == before[i := Merge(before[i], Without(body, "loginId"))];
    MergeWithoutLoginId(before[i], body);
    assert forall j :: 0 <= j < |before| && j != i ==> after[j] == before[j];
  }

  /** Merging the body minus its login ID sets the given properties and keeps the others. */
  lemma MergeWithoutLoginId(user: Record, body: Record)
    ensures var m := Merge(user, Without(body, "loginId"));
      && (forall k :: k != "loginId" && Field(body, k).Some? ==> Field(m, k) == Field(body, k))
      && (forall k :: Field(body, k).None? ==> Field(m, k) == Field(user, k))
  {
    var u := Without(body, "loginId");
    var m := Merge(user, u);
    forall k | k != "loginId" && Field(body, k).Some? ensures Field(m, k) == Field(body, k) {
      assert Field(u, k) == Field(body, k) && k in u;
    }
    forall k | Field(body, k).None? ensures Field(m, k) == Field(user, k) {
      assert Field(u, k) == None && k !in u;
    }
  }

  /**
   * The update path checks no uniqueness. A witness: updating "B1" with the
   * email of "A1" succeeds and leaves two users with that email, so email
   * uniqueness is kept by signup and delete only.
   */
  lemma UpdateCanDuplicateEmail()
    ensures var before := [map["loginId" := "A1", "email" := "a@x.com"], map["loginId" := "B1", "email" := "b@x.com"]];
            var body := map["loginId" := "B1", "email" := "a@x.com"];
            var r := Ok(map["loginId" := "B1", "email" := "a@x.com"]);
            var after := [before[0], map["loginId" := "B1", "email" := "a@x.com"]];
      && DistinctAccounts(before) && UpdateEffect(before, body, r, after) && !DistinctAccounts(after)
  {
    var before := [map["loginId" := "A1", "email" := "a@x.com"], map["loginId" := "B1", "email" := "b@x.com"]];
    var body := map["loginId" := "B1", "email" := "a@x.com"];
    var merged := map["loginId" := "B1", "email" := "a@x.com"];
    assert Merge(before[1], Without(body, "loginId")) == merged;
    assert Without(merged, PasswordKey) == merged;
    assert !SameField(before[0], body, "loginId");
    assert SameField(before[1], body, "loginId");
    var after := [before[0], merged];
    assert after == before[1 := merged];
    assert SameAccount(after[0], after[1]);
    assert !SameAccount(before[0], before[1]);
  }

  /**
   * DELETE with a login ID leaves no user with that login ID, keeps the
   * others in their order, and answers 404 exactly when nobody had it.
   */
  lemma DeleteRemovesExactly(before: seq<Record>, loginId: Option<string>, r: Outcome<()>, after: seq<Record>)
    requires DeleteEffect(before, loginId, r, after) && Truthy(loginId)
    ensures r.Ok? <==> exists i :: 0 <= i < |before| && Field(before[i], "loginId") == loginId
    ensures r.Err? ==> r.status == 404 && after == before
    ensures r.Ok? ==> IsSubsequence(after, before)
    ensures r.Ok? ==> forall u :: u in after <==> u in before && Field(u, "loginId") != loginId
    ensures r.Ok? ==> forall u :: multiset(after)[u] == if Field(u, "loginId") != loginId then multiset(before)[u] else 0
  {
  }

  /** Deleting keeps emails and login IDs distinct. */
  lemma DeleteKeepsAccountsDistinct(before: seq<Record>, loginId: Option<string>, r: Outcome<()>, after: seq<Record>)
    requires DistinctAccounts(before) && DeleteEffect(before, loginId, r, after)
    ensures DistinctAccounts(after)
  {
    if r.Ok? {
      SubsequencePairwise(after, before, (a, b) => !SameAccount(a, b));
    }
  }
}
