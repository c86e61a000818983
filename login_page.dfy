/**
 * The login page (app/page.jsx): its two-field validator and the credential
 * object it hands to the login call, which the auth route then matches by
 * email or by login ID.
 */
module LoginPage {
  import opened Records
  import opened Text
  import AuthRoute

  /** The keys of the login form's error object. */
  datatype LoginField = Email | Password

  function IdentifierError(id: string): (r: Option<string>)
    ensures r.None? <==> Utf16Length(Trim(id)) >= 3
    ensures r == Some("Login ID or Email is required") <==> AllSpace(id)
  {
    TrimEmpty(id);
    if Trim(id) == "" then Some("Login ID or Email is required")
    else if Utf16Length(Trim(id)) < 3 then Some("Login ID must be at least 3 characters")
    else None
  }

  function PasswordError(password: string): (r: Option<string>)
    ensures r.None? <==> 6 <= Utf16Length(password) <= 50
    ensures r == Some("Password is required") <==> password == ""
  {
    if password == "" then Some("Password is required")
    else if Utf16Length(password) < 6 then Some("Password must be at least 6 characters")
    else if Utf16Length(password) > 50 then Some("Password cannot exceed 50 characters")
    else None
  }

  /** `validateLoginForm`: the identifier's message under `email`, the password's under `password`. */
  function ValidateLogin(id: string, password: string): (errors: map<LoginField, string>)
    ensures Email in errors <==> Utf16Length(Trim(id)) < 3
    ensures Password in errors <==> !(6 <= Utf16Length(password) <= 50)
    ensures errors == map[] <==> Utf16Length(Trim(id)) >= 3 && 6 <= Utf16Length(password) <= 50
    ensures Email in errors ==> errors[Email] == IdentifierError(id).value
    ensures Password in errors ==> errors[Password] == PasswordError(password).value
  {
    var idError, passwordError := IdentifierError(id), PasswordError(password);
    var e1 := if idError.Some? then map[Email := idError.value] else map[];
    var errors := if passwordError.Some? then e1[Password := passwordError.value] else e1;
    assert errors == map[] <==> errors.Keys == {};
    errors
  }

  /** The object `handleLogin` passes on: the one input string as both `email` and `loginId`. */
  function Credentials(id: string, password: string): (c: Record)
    ensures Field(c, "email") == Some(id) && Field(c, "loginId") == Some(id)
    ensures Field(c, "password") == Some(password) && Field(c, "action") == None
    ensures c.Keys == {"email", "loginId", "password"}
  {
    map["email" := id, "loginId" := id, "password" := password]
  }

  /**
   * `handleLogin`: a validation message stops the submission; otherwise the
   * request body posted to `/api/auth` with action "login".
   */
  function LoginRequest(id: string, password: string): (body: Option<Record>)
    ensures body.None? <==> ValidateLogin(id, password) != map[]
    ensures body.Some? ==> Field(body.value, "action") == Some("login")
    ensures body.Some? ==> Without(body.value, "action") == Credentials(id, password)
  {
    if ValidateLogin(id, password) != map[] then None
    else
      var c := Credentials(id, password);
      var body := c["action" := "login"];
      assert Without(body, "action") == c;
      Some(body)
  }

  /**
   * Because the one string is sent under both keys, login succeeds exactly
   * when some stored user has that string as email or as login ID and the
   * same password.
   */
  lemma LoginByEmailOrLoginId(users: seq<Record>, id: string, password: string)
    ensures AuthRoute.Login(users, Credentials(id, password)).Ok? <==>
      exists i :: 0 <= i < |users| && (Field(users[i], "email") == Some(id) || Field(users[i], "loginId") == Some(id))
                                   && Field(users[i], "password") == Some(password)
  {
    var c := Credentials(id, password);
    if AuthRoute.Login(users, c).Ok? {
      var i :| 0 <= i < |users| && AuthRoute.CredentialsMatch(users[i], c);
      assert Field(users[i], "password") == Some(password);
    } else {
      forall i | 0 <= i < |users|
        ensures !((Field(users[i], "email") == Some(id) || Field(users[i], "loginId") == Some(id))
                  && Field(users[i], "password") == Some(password))
      {
        assert !AuthRoute.CredentialsMatch(users[i], c);
      }
    }
  }
}
