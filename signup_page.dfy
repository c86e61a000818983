/**
 * The signup page (app/signup/page.jsx): the field validators, the login-ID
 * generator and the user record that a successful submission sends to
 * `/api/auth`. Each regular expression is written as a character class.
 */
module SignupPage {
  import opened Records
  import opened Text
  import AuthRoute

  datatype LogoFile = LogoFile(mimeType: string, size: nat)

  datatype SignUpForm = SignUpForm(
    companyName: string,
    name: string,
    email: string,
    phone: string,
    password: string,
    confirmPassword: string,
    logo: Option<LogoFile>)

  /** `[a-zA-Z0-9\s&.-]` */
  predicate CompanyChar(c: char)
  {
    IsLetter(c) || IsDigit(c) || IsSpace(c) || c == '&' || c == '.' || c == '-'
  }

  /** `[a-zA-Z\s]` */
  predicate NameChar(c: char)
  {
    IsLetter(c) || IsSpace(c)
  }

  /** `[^\s@]` */
  predicate EmailChar(c: char)
  {
    !IsSpace(c) && c != '@'
  }

  /** `[\s\-+()]` */
  predicate PhoneSeparator(c: char)
  {
    IsSpace(c) || c == '-' || c == '+' || c == '(' || c == ')'
  }

  predicate NotPhoneSeparator(c: char)
  {
    !PhoneSeparator(c)
  }

  /** `[\d\s\-+()]` */
  predicate PhoneChar(c: char)
  {
    IsDigit(c) || PhoneSeparator(c)
  }

  /** `/^[class]+$/.test(s)` */
  predicate OnlyOf(s: string, allowed: char -> bool)
  {
    |s| > 0 && forall i :: 0 <= i < |s| ==> allowed(s[i])
  }

  /** `/^[^\s@]+@[^\s@]+\.[^\s@]+$/.test(s)` */
  predicate EmailPattern(s: string): (b: bool)
    ensures b ==> 5 <= |s| && EmailChar(s[0]) && EmailChar(s[|s| - 1])
  {
    exists at, dot :: 0 < at && at + 1 < dot && dot + 1 < |s| && s[at] == '@' && s[dot] == '.'
      && forall k :: 0 <= k < |s| && k != at ==> EmailChar(s[k])
  }

  predicate HasLower(s: string) { exists i :: 0 <= i < |s| && IsLower(s[i]) }
  predicate HasUpper(s: string) { exists i :: 0 <= i < |s| && IsUpper(s[i]) }
  predicate HasDigit(s: string) { exists i :: 0 <= i < |s| && IsDigit(s[i]) }

  /** `phone.replace(/[\s\-+()]/g, "")` */
  function StripSeparators(s: string): (r: string)
    ensures IsSubsequence(r, s)
    ensures forall c :: c in r <==> c in s && !PhoneSeparator(c)
  {
    FilterMembers(s, NotPhoneSeparator);
    Filter(s, NotPhoneSeparator)
  }

  const ImageTypes := ["image/jpeg", "image/png", "image/jpg", "image/gif", "image/svg+xml"]
  const MaxLogoSize := 5 * 1024 * 1024

  // The conditions under which each field passes, stated without the cascade.

  ghost predicate ValidCompanyName(s: string)
  {
    2 <= Utf16Length(Trim(s)) <= 100 && forall i :: 0 <= i < |s| ==> CompanyChar(s[i])
  }

  ghost predicate ValidName(s: string)
  {
    2 <= Utf16Length(Trim(s)) <= 50 && forall i :: 0 <= i < |s| ==> NameChar(s[i])
  }

  ghost predicate ValidEmail(s: string)
  {
    EmailPattern(s) && Utf16Length(s) <= 100
  }

  ghost predicate ValidPhone(s: string)
  {
    (forall i :: 0 <= i < |s| ==> PhoneChar(s[i])) && 10 <= |Filter(s, IsDigit)| <= 15
  }

  ghost predicate ValidPassword(p: string)
  {
    8 <= Utf16Length(p) <= 50 && HasLower(p) && HasUpper(p) && HasDigit(p)
  }

  ghost predicate ValidLogo(logo: Option<LogoFile>)
  {
    logo.Some? ==> logo.value.mimeType in ImageTypes && logo.value.size <= MaxLogoSize
  }

  ghost predicate ValidForm(f: SignUpForm)
  {
    && ValidCompanyName(f.companyName) && ValidName(f.name) && ValidEmail(f.email)
    && ValidPhone(f.phone) && ValidPassword(f.password)
    && f.confirmPassword != "" && f.confirmPassword == f.password
    && ValidLogo(f.logo)
  }


  /**
   * The character checks run on the untrimmed string; since whitespace is in
   * both classes this agrees with checking the trimmed string.
   */
  lemma UntrimmedCheckAgrees(s: string, allowed: char -> bool)
    requires forall c :: IsSpace(c) ==> allowed(c)
    ensures (forall i :: 0 <= i < |s| ==> allowed(s[i])) <==> (forall i :: 0 <= i < |Trim(s)| ==> allowed(Trim(s)[i]))
  {
    var a, b, t := TrimFrom(s), TrimTo(s), Trim(s);
    if forall i :: 0 <= i < |t| ==> allowed(t[i]) {
      forall i | 0 <= i < |s| ensures allowed(s[i]) {
        if a <= i < b {
          assert t[i - a] == s[i];
        }
      }
    }
  }

  /**
   * The length limits count UTF-16 code units, but the character classes of
   * company and person names hold nothing above U+FFFF, so for those fields
   * the limits count characters.
   */
  lemma NameLimitsCountCharacters(s: string)
    ensures ValidCompanyName(s) <==> 2 <= |Trim(s)| <= 100 && forall i :: 0 <= i < |s| ==> CompanyChar(s[i])
    ensures ValidName(s) <==> 2 <= |Trim(s)| <= 50 && forall i :: 0 <= i < |s| ==> NameChar(s[i])
  {
    if forall i :: 0 <= i < |s| ==> CompanyChar(s[i]) {
      TrimmedCountsCharacters(s);
    }
  }

  /** A string of company-name characters has as many code units as characters, trimmed or not. */
  lemma TrimmedCountsCharacters(s: string)
    requires forall i :: 0 <= i < |s| ==> CompanyChar(s[i])
    ensures Utf16Length(Trim(s)) == |Trim(s)|
  {
    var a, b := TrimFrom(s), TrimTo(s);
    var t := s[a..b];
    assert Trim(s) == t;
    forall i | 0 <= i < |t| ensures t[i] as int < 0x10000 {
      CompanyCharBelowAstral(s[a + i]);
    }
  }

  /** Every character a company name may hold lies in the Basic Multilingual Plane. */
  lemma CompanyCharBelowAstral(c: char)
    requires CompanyChar(c)
    ensures c as int < 0x10000
  {
    if IsSpace(c) {
      assert c in SpaceChars;
    }
  }

  function CompanyNameError(s: string): (r: Option<string>)
    ensures r.None? <==> ValidCompanyName(s)
  {
    if Trim(s) == "" then Some("Company name is required")
    else if Utf16Length(Trim(s)) < 2 then Some("Company name must be at least 2 characters")
    else if Utf16Length(Trim(s)) > 100 then Some("Company name cannot exceed 100 characters")
    else if !OnlyOf(s, CompanyChar) then Some("Company name can only contain letters, numbers, spaces, and &.-")
    else None
  }

  function NameError(s: string): (r: Option<string>)
    ensures r.None? <==> ValidName(s)
  {
    if Trim(s) == "" then Some("Name is required")
    else if Utf16Length(Trim(s)) < 2 then Some("Name must be at least 2 characters")
    else if Utf16Length(Trim(s)) > 50 then Some("Name cannot exceed 50 characters")
    else if !OnlyOf(s, NameChar) then Some("Name can only contain letters and spaces")
    else None
  }

  /** A string of the email shape has exactly one `@` and is not blank. */
  lemma EmailPatternShape(s: string)
    requires EmailPattern(s)
    ensures Trim(s) != ""
    ensures exists at :: 0 < at < |s| && s[at] == '@' && forall k :: 0 <= k < |s| && s[k] == '@' ==> k == at
  {
    var at, dot :| 0 < at && at + 1 < dot && dot + 1 < |s| && s[at] == '@' && s[dot] == '.'
      && forall k :: 0 <= k < |s| && k != at ==> EmailChar(s[k]);
    assert EmailChar(s[0]);
    TrimNonEmpty(s, 0);
  }

  function EmailError(s: string): (r: Option<string>)
    ensures r.None? <==> ValidEmail(s)
    ensures r == Some("Email is required") <==> AllSpace(s)
  {
    TrimEmpty(s);
    assert EmailPattern(s) ==> Trim(s) != "" by {
      if EmailPattern(s) {
        EmailPatternShape(s);
      }
    }
    if Trim(s) == "" then Some("Email is required")
    else if !EmailPattern(s) then Some("Please enter a valid email address")
    else if Utf16Length(s) > 100 then Some("Email cannot exceed 100 characters")
    else None
  }

  /** Once every character is a phone character, stripping separators leaves exactly the digits. */
  lemma StripLeavesDigits(s: string)
    requires forall i :: 0 <= i < |s| ==> PhoneChar(s[i])
    ensures StripSeparators(s) == Filter(s, IsDigit)
  {
    FilterAgree(s, NotPhoneSeparator, IsDigit);
  }

  /** A string holding a digit is not blank. */
  lemma DigitsNotBlank(s: string)
    ensures |Filter(s, IsDigit)| > 0 ==> Trim(s) != ""
  {
    var digits := Filter(s, IsDigit);
    if |digits| > 0 {
      var d := digits[0];
      assert d in digits;
      FilterMembers(s, IsDigit);
      assert d in s && IsDigit(d);
      MemberNotBlank(s, d);
    }
  }

  /** A string holding a non-whitespace character does not trim to "". */
  lemma MemberNotBlank(s: string, c: char)
    requires c in s && !IsSpace(c)
    ensures Trim(s) != ""
  {
    var k :| 0 <= k < |s| && s[k] == c;
    TrimNonEmpty(s, k);
  }

  function PhoneError(s: string): (r: Option<string>)
    ensures r.None? <==> ValidPhone(s)
  {
    DigitsNotBlank(s);
    if Trim(s) == "" then Some("Phone number is required")
    else if !OnlyOf(s, PhoneChar) then Some("Please enter a valid phone number")
    else
      StripLeavesDigits(s);
      if |StripSeparators(s)| < 10 then Some("Phone number must be at least 10 digits")
      else if |StripSeparators(s)| > 15 then Some("Phone number cannot exceed 15 digits")
      else None
  }

  function PasswordError(p: string): (r: Option<string>)
    ensures r.None? <==> ValidPassword(p)
  {
    if p == "" then Some("Password is required")
    else if Utf16Length(p) < 8 then Some("Password must be at least 8 characters")
    else if Utf16Length(p) > 50 then Some("Password cannot exceed 50 characters")
    else if !HasLower(p) then Some("Password must contain at least one lowercase letter")
    else if !HasUpper(p) then Some("Password must contain at least one uppercase letter")
    else if !HasDigit(p) then Some("Password must contain at least one number")
    else None
  }

  function ConfirmPasswordError(password: string, confirmPassword: string): (r: Option<string>)
    ensures r.None? <==> confirmPassword != "" && confirmPassword == password
  {
    if confirmPassword == "" then Some("Please confirm your password")
    else if password != confirmPassword then Some("Passwords do not match")
    else None
  }

  function LogoError(logo: Option<LogoFile>): (r: Option<string>)
    ensures r.None? <==> ValidLogo(logo)
  {
    match logo
    case None => None
    case Some(file) =>
      if file.mimeType !in ImageTypes then Some("Logo must be a valid image file (JPEG, PNG, GIF, SVG)")
      else if file.size > MaxLogoSize then Some("Logo file size cannot exceed 5MB")
      else None
  }

  /** The keys of the form's error object. */
  datatype FormField = CompanyName | Name | Email | Phone | Password | ConfirmPassword | Logo

  const AllFields: set<FormField> := {CompanyName, Name, Email, Phone, Password, ConfirmPassword, Logo}

  /** The message `validateSignUpForm` stores under a field, if any. */
  function FieldError(f: SignUpForm, field: FormField): Option<string>
  {
    match field
    case CompanyName => CompanyNameError(f.companyName)
    case Name => NameError(f.name)
    case Email => EmailError(f.email)
    case Phone => PhoneError(f.phone)
    case Password => PasswordError(f.password)
    case ConfirmPassword => ConfirmPasswordError(f.password, f.confirmPassword)
    case Logo => LogoError(f.logo)
  }

  /**
   * `validateSignUpForm`: one message under each field whose check fails,
   * the first failing step of that field's cascade.
   */
  function ValidateSignUp(f: SignUpForm): (errors: map<FormField, string>)
    ensures forall field :: field in errors <==> FieldError(f, field).Some?
    ensures forall field :: field in errors ==> errors[field] == FieldError(f, field).value
  {
    map field | field in AllFields && FieldError(f, field).Some? :: FieldError(f, field).value
  }

  /** Whether a field passes, stated without the cascade. */
  ghost predicate FieldValid(f: SignUpForm, field: FormField)
  {
    match field
    case CompanyName => ValidCompanyName(f.companyName)
    case Name => ValidName(f.name)
    case Email => ValidEmail(f.email)
    case Phone => ValidPhone(f.phone)
    case Password => ValidPassword(f.password)
    case ConfirmPassword => f.confirmPassword != "" && f.confirmPassword == f.password
    case Logo => ValidLogo(f.logo)
  }

  lemma FieldErrorIff(f: SignUpForm, field: FormField)
    ensures FieldError(f, field).None? <==> FieldValid(f, field)
  {
    match field
    case CompanyName =>
    case Name =>
    case Email =>
    case Phone =>
    case Password =>
    case ConfirmPassword =>
    case Logo =>
  }

  /** The whole form passes exactly when each field does. */
  lemma ValidFormFieldwise(f: SignUpForm)
    ensures ValidForm(f) <==> forall field :: FieldValid(f, field)
  {
    if ValidForm(f) {
      forall field ensures FieldValid(f, field) {
        match field
        case CompanyName =>
        case Name =>
        case Email =>
        case Phone =>
        case Password =>
        case ConfirmPassword =>
        case Logo =>
      }
    } else {
      assert !FieldValid(f, CompanyName) || !FieldValid(f, Name) || !FieldValid(f, Email) || !FieldValid(f, Phone)
        || !FieldValid(f, Password) || !FieldValid(f, ConfirmPassword) || !FieldValid(f, Logo);
    }
  }

  /** The error object is empty exactly when every field passes. */
  lemma ValidateSignUpEmpty(f: SignUpForm)
    ensures ValidateSignUp(f) == map[] <==> ValidForm(f)
  {
    var errors := ValidateSignUp(f);
    forall field
      ensures field !in errors <==> FieldValid(f, field)
    {
      FieldErrorIff(f, field);
    }
    ValidFormFieldwise(f);
    if errors != map[] {
      var field :| field in errors;
    }
  }

  /** Company initials: the first two characters of each space-separated word, upper-cased, at most four. */
  function CompanyInitials(companyName: string): (r: string)
    ensures |r| <= 4
    ensures forall i :: 0 <= i < |r| ==> !IsLower(r[i])
  {
    var words := Split(companyName, ' ');
    Take(Upper(Concat(seq(|words|, i requires 0 <= i < |words| => Take(words[i], 2)))), 4)
  }

  /** Name initials: the first two characters of the first and of the last word of the trimmed name, upper-cased. */
  function NameInitials(name: string): (r: string)
    ensures |r| <= 4
    ensures forall i :: 0 <= i < |r| ==> !IsLower(r[i])
  {
    var parts := Split(Trim(name), ' ');
    Upper(Take(parts[0], 2) + Take(parts[|parts| - 1], 2))
  }

  /**
   * `generateLoginId`, with the clock's year passed in: company initials,
   * name initials, the year and the fixed serial "0001"; "" when the company
   * name or the name is empty.
   */
  function GenerateLoginId(companyName: string, name: string, year: nat): (r: string)
    ensures r == "" <==> companyName == "" || name == ""
  {
    if companyName == "" || name == "" then ""
    else CompanyInitials(companyName) + NameInitials(name) + DecimalString(year) + "0001"
  }

  /**
   * Shape of a generated ID: at most eight characters of initials, none of
   * them lower-case, then the decimal year, then "0001".
   */
  lemma LoginIdLayout(companyName: string, name: string, year: nat)
    requires companyName != "" && name != ""
    ensures var r := GenerateLoginId(companyName, name, year);
            var y := DecimalString(year);
            var n := |r| - |y| - 4;
      && 0 <= n <= 8
      && r[..n] == CompanyInitials(companyName) + NameInitials(name)
      && (forall i :: 0 <= i < n ==> !IsLower(r[i]))
      && r[n..n + |y|] == y && DecimalValue(r[n..n + |y|]) == year
      && r[n + |y|..] == "0001"
  {
    var c, m, y := CompanyInitials(companyName), NameInitials(name), DecimalString(year);
    var r := GenerateLoginId(companyName, name, year);
    assert r == (c + m) + y + "0001";
    DecimalRoundTrip(year);
  }

  /** Splitting a string without the separator gives the string alone. */
  lemma {:induction false} SplitWithoutSeparator(s: string, sep: char)
    requires sep !in s
    ensures Split(s, sep) == [s]
  {
    if |s| > 0 {
      assert sep !in s[1..] by {
        forall k | 0 <= k < |s[1..]| ensures s[1..][k] != sep {
          assert s[1..][k] == s[k + 1];
        }
      }
      SplitWithoutSeparator(s[1..], sep);
    }
  }

  /** A two-word company name contributes the first two characters of each word. */
  lemma TwoWordCompanyInitials(a: string, b: string)
    requires ' ' !in a && ' ' !in b
    ensures CompanyInitials(a + [' '] + b) == Take(Upper(Take(a, 2) + Take(b, 2)), 4)
  {
    SplitAt(a, b, ' ');
    SplitWithoutSeparator(b, ' ');
    var words := Split(a + [' '] + b, ' ');
    assert words == [a, b];
    var firsts := seq(|words|, i requires 0 <= i < |words| => Take(words[i], 2));
    assert firsts == [Take(a, 2), Take(b, 2)];
    assert firsts[0] == Take(a, 2) && firsts[1..] == [Take(b, 2)];
    assert Concat(firsts[1..]) == Take(b, 2) + Concat([]);
    assert Concat(firsts) == Take(a, 2) + Take(b, 2);
  }

  /**
   * The company class admits `&`, and initials keep it: "R&D Labs" is a
   * valid company name, and its administrator "Jo Do" signing up in 2025
   * receives the login ID "R&LAJODO20250001".
   */
  lemma AmpersandCompanyLoginId()
    ensures GenerateLoginId("R&D Labs", "Jo Do", 2025) == "R&LAJODO20250001"
  {
    RdLabsInitials();
    JoDoInitials();
    Year2025();
    LoginIdFromParts("R&D Labs", "Jo Do", 2025, "R&LA", "JODO", "2025");
    RdLabsJoined();
  }

  /** The ID is the concatenation of its parts, whatever they evaluate to. */
  lemma LoginIdFromParts(company: string, name: string, year: nat, ci: string, ni: string, ys: string)
    requires company != "" && name != ""
    requires CompanyInitials(company) == ci && NameInitials(name) == ni && DecimalString(year) == ys
    ensures GenerateLoginId(company, name, year) == ci + ni + ys + "0001"
  {
  }

  lemma RdLabsJoined()
    ensures "R&LA" + "JODO" + "2025" + "0001" == "R&LAJODO20250001"
  {
  }

  lemma Year2025()
    ensures DecimalString(2025) == "2025"
  {
  }

  /** "R&D Labs" passes the sign-up form's company-name check. */
  lemma RdLabsValid()
    ensures ValidCompanyName("R&D Labs")
  {
    var s := "R&D Labs";
    TrimUnpadded(s);
    assert forall i :: 0 <= i < |s| ==> s[i] as int < 0x10000;
    assert forall i :: 0 <= i < |s| ==> CompanyChar(s[i]);
  }

  /** "Jo Do" passes the sign-up form's name check. */
  lemma JoDoValid()
    ensures ValidName("Jo Do")
  {
    var s := "Jo Do";
    TrimUnpadded(s);
    assert forall i :: 0 <= i < |s| ==> s[i] as int < 0x10000;
    assert forall i :: 0 <= i < |s| ==> NameChar(s[i]);
  }

  lemma RdLabsInitials()
    ensures CompanyInitials("R&D Labs") == "R&LA"
  {
    RdLabsWords();
    TwoWordCompanyInitials("R&D", "Labs");
    RdLabsFirstLetters();
  }

  lemma RdLabsWords()
    ensures "R&D Labs" == "R&D" + [' '] + "Labs" && ' ' !in "R&D" && ' ' !in "Labs"
  {
  }

  lemma RdLabsFirstLetters()
    ensures Take(Upper(Take("R&D", 2) + Take("Labs", 2)), 4) == "R&LA"
  {
    assert Take("R&D", 2) + Take("Labs", 2) == "R&La";
    var u := Upper("R&La");
    assert u == "R&LA";
  }

  lemma JoDoInitials()
    ensures NameInitials("Jo Do") == "JODO"
  {
    TrimUnpadded("Jo Do");
    JoDoWords();
    NameInitialsOfWords("Jo Do", "Jo", "Do");
    JoDoUpper();
  }

  /** The name initials come from the first and the last word of the trimmed name. */
  lemma NameInitialsOfWords(name: string, first: string, last: string)
    requires Split(Trim(name), ' ') == [first, last]
    ensures NameInitials(name) == Upper(Take(first, 2) + Take(last, 2))
  {
  }

  lemma JoDoWords()
    ensures Split("Jo Do", ' ') == ["Jo", "Do"]
  {
    assert "Jo Do" == "Jo" + [' '] + "Do";
    SplitAt("Jo", "Do", ' ');
    SplitWithoutSeparator("Do", ' ');
  }

  lemma JoDoUpper()
    ensures Upper(Take("Jo", 2) + Take("Do", 2)) == "JODO"
  {
    assert Take("Jo", 2) + Take("Do", 2) == "JoDo";
    var u := Upper("JoDo");
    assert u == "JODO";
  }

  /** A one-word name uses its first two letters twice, as first and as last name. */
  lemma OneWordNameInitials(name: string)
    requires ' ' !in Trim(name)
    ensures NameInitials(name) == Upper(Take(Trim(name), 2) + Take(Trim(name), 2))
  {
    SplitWithoutSeparator(Trim(name), ' ');
  }

  /** `name.charAt(0).toUpperCase()` */
  function Avatar(name: string): (r: string)
    ensures |r| <= 1 && (name != "" ==> r == [UpperChar(name[0])])
  {
    if name == "" then "" else [UpperChar(name[0])]
  }

  /**
   * The user object `handleSignUp` builds from a form: the generated login
   * ID, the form's fields, role "Admin", the avatar, the timestamp and the
   * logo preview when there is one, and no `action`.
   */
  function NewUser(f: SignUpForm, loginId: string, createdAt: string, logoPreview: Option<string>): (r: Record)
    ensures Field(r, "loginId") == Some(loginId)
    ensures Field(r, "email") == Some(f.email) && Field(r, "password") == Some(f.password)
    ensures Field(r, "role") == Some("Admin") && Field(r, "avatar") == Some(Avatar(f.name))
    ensures Field(r, "logo") == logoPreview
    ensures Field(r, "action") == None
  {
    var fields := map[
      "loginId" := loginId,
      "companyName" := f.companyName,
      "name" := f.name,
      "email" := f.email,
      "phone" := f.phone,
      "password" := f.password,
      "role" := "Admin",
      "avatar" := Avatar(f.name),
      "createdAt" := createdAt];
    Assign(fields, "logo", logoPreview)
  }

  /** The built record also carries the company name, the name, the phone and the timestamp as given. */
  lemma NewUserProfile(f: SignUpForm, loginId: string, createdAt: string, logoPreview: Option<string>)
    ensures var r := NewUser(f, loginId, createdAt, logoPreview);
      && Field(r, "companyName") == Some(f.companyName) && Field(r, "name") == Some(f.name)
      && Field(r, "phone") == Some(f.phone) && Field(r, "createdAt") == Some(createdAt)
  {
  }

  /**
   * `handleSignUp`: any validation message stops the submission; otherwise
   * the user record sent to signup, with a generated login ID. The clock's
   * year and timestamp and the logo's data URL are passed in.
   */
  function SignUpRecord(f: SignUpForm, year: nat, createdAt: string, logoPreview: Option<string>): (r: Option<Record>)
    ensures r.None? <==> !ValidForm(f)
    ensures r.Some? ==> GenerateLoginId(f.companyName, f.name, year) != ""
  {
    ValidateSignUpEmpty(f);
    if ValidateSignUp(f) != map[] then None
    else
      Some(NewUser(f, GenerateLoginId(f.companyName, f.name, year), createdAt, logoPreview))
  }

  /**
   * The submitted record carries the generated login ID, role "Admin", the
   * upper-cased first character of the name as avatar, the form's email and
   * password and the logo when one was chosen, and no `action` key.
   */
  lemma SignUpRecordFields(f: SignUpForm, year: nat, createdAt: string, logoPreview: Option<string>)
    requires ValidForm(f)
    ensures var r := SignUpRecord(f, year, createdAt, logoPreview).value;
      && Field(r, "loginId") == Some(GenerateLoginId(f.companyName, f.name, year))
      && r["loginId"] != ""
      && Field(r, "role") == Some("Admin")
      && Field(r, "avatar") == Some([UpperChar(f.name[0])])
      && Field(r, "email") == Some(f.email)
      && Field(r, "password") == Some(f.password)
      && Field(r, "logo") == logoPreview
      && Field(r, "action") == None
  {
    var loginId := GenerateLoginId(f.companyName, f.name, year);
    assert SignUpRecord(f, year, createdAt, logoPreview) == Some(NewUser(f, loginId, createdAt, logoPreview)) by {
      ValidateSignUpEmpty(f);
    }
    assert f.name != "";
  }

  /**
   * The serial is always "0001": two valid forms with the same company name
   * and name in the same year get the same login ID, so once the first has
   * signed up the second is refused, whatever its email.
   */
  lemma SameNamesCollide(f1: SignUpForm, f2: SignUpForm, year: nat, t1: string, t2: string,
                         l1: Option<string>, l2: Option<string>, users: seq<Record>, r2: Outcome<Record>, after: seq<Record>)
    requires ValidForm(f1) && ValidForm(f2)
    requires f1.companyName == f2.companyName && f1.name == f2.name
    requires AuthRoute.SignupEffect(users + [SignUpRecord(f1, year, t1, l1).value], SignUpRecord(f2, year, t2, l2).value, r2, after)
    ensures r2 == Err(400, "User already exists")
  {
    SignUpRecordFields(f1, year, t1, l1);
    SignUpRecordFields(f2, year, t2, l2);
    TakenLoginIdRefused(users, SignUpRecord(f1, year, t1, l1).value, SignUpRecord(f2, year, t2, l2).value, r2, after);
  }

  /** A signup whose login ID is already held by a stored user is refused. */
  lemma TakenLoginIdRefused(users: seq<Record>, first: Record, second: Record, r: Outcome<Record>, after: seq<Record>)
    requires Field(first, "loginId") == Field(second, "loginId")
    requires AuthRoute.SignupEffect(users + [first], second, r, after)
    ensures r == Err(400, "User already exists") && after == users + [first]
  {
    var before := users + [first];
    assert before[|users|] == first;
    assert AuthRoute.SameAccount(before[|users|], second);
  }
}
