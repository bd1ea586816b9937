/** The User entity: a mutable bean with four nullable fields, the
    declarative field constraints as an explicit violations function, and
    the toString rendering. */
module UserModel {
  import opened Optional
  import opened Strings

  /** The field values of one User at one moment. Every Java String field
      may be null (None); id is null until the store assigns one. */
  datatype UserRecord = UserRecord(
    id: Option<nat>,
    userName: Option<string>,
    email: Option<string>,
    password: Option<string>)

  /** One constraint violation: the property path and the message. */
  datatype Violation = Violation(property: string, message: string)

  const UserNameEmpty := Violation("userName", "username cannot be empty")
  const EmailEmpty := Violation("email", "email cannot be empty")
  const EmailMalformed := Violation("email", "must be a well-formed email address")
  const PasswordEmpty := Violation("password", "password cannot be empty")
  const PasswordTooShort := Violation("password", "password must contains at least 8 characters")

  const MinPasswordLength := 8

  /** @NotBlank: not null, and not only characters at or below U+0020. */
  predicate NotBlank(f: Option<string>): (b: bool)
    ensures b ==> f.Some? && f.value != ""
  {
    f.Some? && !IsBlank(f.value)
  }

  /** @NotBlank as Hibernate Validator checks it: not null, and trim()
      leaves something. */
  lemma NotBlankIffTrimmed(f: Option<string>)
    ensures NotBlank(f) <==> f.Some? && Trim(f.value) != []
  {
    if f.Some? {
      BlankIffTrimEmpty(f.value);
    }
  }

  /** @Email: null and the empty string pass; any other string must be
      accepted by the email grammar isEmail. */
  predicate EmailShaped(f: Option<string>, isEmail: string -> bool): (b: bool)
    ensures f.None? ==> b
    ensures f == Some("") ==> b
  {
    f.None? || f.value == "" || isEmail(f.value)
  }

  /** @Size(min = 8): null passes; otherwise at least 8 characters. */
  predicate LongEnough(f: Option<string>): (b: bool)
    ensures f.None? ==> b
    ensures f.Some? && |f.value| < MinPasswordLength ==> !b
    ensures f == Some("") ==> !b
  {
    f.None? || |f.value| >= MinPasswordLength
  }

  /** What bean validation reports for a User: one violation per constraint
      that fails, each carrying its field name and its message. */
  function Violations(u: UserRecord, isEmail: string -> bool): (v: set<Violation>)
    ensures v <= {UserNameEmpty, EmailEmpty, EmailMalformed, PasswordEmpty, PasswordTooShort}
    ensures UserNameEmpty in v <==> !NotBlank(u.userName)
    ensures EmailEmpty in v <==> !NotBlank(u.email)
    ensures EmailMalformed in v <==> !EmailShaped(u.email, isEmail)
    ensures PasswordEmpty in v <==> !NotBlank(u.password)
    ensures PasswordTooShort in v <==> !LongEnough(u.password)
  {
    (if NotBlank(u.userName) then {} else {UserNameEmpty})
    + (if NotBlank(u.email) then {} else {EmailEmpty})
    + (if EmailShaped(u.email, isEmail) then {} else {EmailMalformed})
    + (if NotBlank(u.password) then {} else {PasswordEmpty})
    + (if LongEnough(u.password) then {} else {PasswordTooShort})
  }

  /** A user as the data model describes a valid one: a non-empty user name,
      a non-empty well-formed email, a non-empty password of at least 8
      characters. */
  predicate IsValidUser(u: UserRecord, isEmail: string -> bool) {
    && u.userName.Some? && !IsBlank(u.userName.value)
    && u.email.Some? && !IsBlank(u.email.value) && isEmail(u.email.value)
    && u.password.Some? && !IsBlank(u.password.value) && |u.password.value| >= MinPasswordLength
  }

  /** The email grammar is not modelled; these are the facts the tests fix. */
  predicate AgreesWithTests(isEmail: string -> bool) {
    && isEmail("test@example.com")
    && isEmail("user@gmail.com")
    && !isEmail("invalid-email")
  }

  /** The empty string is blank. */
  lemma EmptyIsBlank()
    ensures IsBlank("")
  {
  }

  /** Validation passes exactly for the valid users. */
  lemma NoViolationsIffValid(u: UserRecord, isEmail: string -> bool)
    ensures Violations(u, isEmail) == {} <==> IsValidUser(u, isEmail)
  {
    var v := Violations(u, isEmail);
    if v == {} {
      assert UserNameEmpty !in v && EmailEmpty !in v && EmailMalformed !in v;
      assert PasswordEmpty !in v && PasswordTooShort !in v;
      assert u.email.value != "" by { EmptyIsBlank(); }
    }
  }

  /** A null user name, everything else valid: one violation, whose message
      says the field cannot be empty. */
  lemma NullUserName(email: string, password: string, isEmail: string -> bool)
    requires !IsBlank(email) && isEmail(email)
    requires !IsBlank(password) && |password| >= MinPasswordLength
    ensures var v := Violations(UserRecord(None, None, Some(email), Some(password)), isEmail);
      v == {UserNameEmpty} && Contains(UserNameEmpty.message, "cannot be empty")
  {
    ContainsAt(UserNameEmpty.message, "cannot be empty", 9);
  }

  /** A null email: only the not-blank rule fires; @Email accepts null. */
  lemma NullEmail(userName: string, password: string, isEmail: string -> bool)
    requires !IsBlank(userName)
    requires !IsBlank(password) && |password| >= MinPasswordLength
    ensures var v := Violations(UserRecord(None, Some(userName), None, Some(password)), isEmail);
      v == {EmailEmpty} && Contains(EmailEmpty.message, "cannot be empty")
  {
    ContainsAt(EmailEmpty.message, "cannot be empty", 6);
  }

  /** A non-blank email the grammar rejects: one violation, on "email". */
  lemma MalformedEmail(userName: string, email: string, password: string, isEmail: string -> bool)
    requires !IsBlank(userName) && !IsBlank(email) && !isEmail(email)
    requires !IsBlank(password) && |password| >= MinPasswordLength
    ensures Violations(UserRecord(None, Some(userName), Some(email), Some(password)), isEmail) == {EmailMalformed}
    ensures EmailMalformed.property == "email"
  {
  }

  /** A null password: only the not-blank rule fires; @Size accepts null. */
  lemma NullPassword(userName: string, email: string, isEmail: string -> bool)
    requires !IsBlank(userName) && !IsBlank(email) && isEmail(email)
    ensures var v := Violations(UserRecord(None, Some(userName), Some(email), None), isEmail);
      v == {PasswordEmpty} && Contains(PasswordEmpty.message, "cannot be empty")
  {
    ContainsAt(PasswordEmpty.message, "cannot be empty", 9);
  }

  /** A non-blank password under 8 characters: one violation, on "password". */
  lemma ShortPassword(userName: string, email: string, password: string, isEmail: string -> bool)
    requires !IsBlank(userName) && !IsBlank(email) && isEmail(email)
    requires !IsBlank(password) && |password| < MinPasswordLength
    ensures Violations(UserRecord(None, Some(userName), Some(email), Some(password)), isEmail) == {PasswordTooShort}
    ensures PasswordTooShort.property == "password"
  {
  }

  /** An empty password breaks both password rules: two violations. */
  lemma EmptyPassword(userName: string, email: string, isEmail: string -> bool)
    requires !IsBlank(userName) && !IsBlank(email) && isEmail(email)
    ensures var v := Violations(UserRecord(None, Some(userName), Some(email), Some("")), isEmail);
      v == {PasswordEmpty, PasswordTooShort} && |v| == 2
  {
    EmptyIsBlank();
  }

  /** The six records of the validation tests, with their violation counts. */
  lemma ValidationTestCases(isEmail: string -> bool)
    requires AgreesWithTests(isEmail)
    ensures |Violations(UserRecord(None, None, Some("user@gmail.com"), Some("12345678")), isEmail)| == 1
    ensures |Violations(UserRecord(None, Some("username"), None, Some("12345678")), isEmail)| == 1
    ensures Violations(UserRecord(None, Some("testuser"), Some("invalid-email"), Some("password123")), isEmail)
      == {EmailMalformed}
    ensures |Violations(UserRecord(None, Some("username"), Some("user@gmail.com"), None), isEmail)| == 1
    ensures Violations(UserRecord(None, Some("testuser"), Some("test@example.com"), Some("short")), isEmail)
      == {PasswordTooShort}
    ensures Violations(UserRecord(None, Some("testuser"), Some("test@example.com"), Some("password123")), isEmail)
      == {}
  {
    assert !IsBlank("user@gmail.com") by { assert "user@gmail.com"[0] == 'u'; }
    assert !IsBlank("test@example.com") by { assert "test@example.com"[0] == 't'; }
    assert !IsBlank("invalid-email") by { assert "invalid-email"[0] == 'i'; }
    assert !IsBlank("12345678") by { assert "12345678"[0] == '1'; }
    assert !IsBlank("password123") by { assert "password123"[0] == 'p'; }
    assert !IsBlank("username") by { assert "username"[0] == 'u'; }
    assert !IsBlank("testuser") by { assert "testuser"[0] == 't'; }
    assert !IsBlank("short") by { assert "short"[0] == 's'; }
    NullUserName("user@gmail.com", "12345678", isEmail);
    NullEmail("username", "12345678", isEmail);
    NullPassword("username", "user@gmail.com", isEmail);
  }

  /** Java's rendering of a possibly-null String in a concatenation. */
  function Show(f: Option<string>): string {
    match f
    case None => "null"
    case Some(s) => s
  }

  /** Java's rendering of a possibly-null Long in a concatenation. */
  function ShowId(id: Option<nat>): (s: string)
    ensures id.Some? ==> AllDigits(s) && DigitsValue(s) == id.value
    ensures id.None? ==> s == "null"
  {
    match id
    case None => "null"
    case Some(n) => NatToStringRoundTrip(n); NatToString(n)
  }

  /** The User bean. Its getters are plain reads of these fields. */
  class User {
    var id: Option<nat>
    var userName: Option<string>
    var email: Option<string>
    var password: Option<string>

    /** The bean's current field values. */
    function Record(): UserRecord
      reads this
    {
      UserRecord(id, userName, email, password)
    }

    /** The no-argument constructor the persistence layer uses. */
    constructor Empty()
      ensures Record() == UserRecord(None, None, None, None)
    {
      id, userName, email, password := None, None, None, None;
    }

    /** The three-argument constructor: the given fields, no id. */
    constructor (userName: Option<string>, email: Option<string>, password: Option<string>)
      ensures Record() == UserRecord(None, userName, email, password)
    {
      this.id := None;
      this.userName := userName;
      this.email := email;
      this.password := password;
    }

    method SetUserName(userName: Option<string>)
      modifies this
      ensures Record() == old(Record()).(userName := userName)
    {
      this.userName := userName;
    }

    method SetEmail(email: Option<string>)
      modifies this
      ensures Record() == old(Record()).(email := email)
    {
      this.email := email;
    }

    method SetPassword(password: Option<string>)
      modifies this
      ensures Record() == old(Record()).(password := password)
    {
      this.password := password;
    }

    /** toString: email, user name and id; the password is left out. */
    function ToString(): (s: string)
      reads this
      ensures |s| > 0 && s[|s| - 1] == '}'
    {
      "User{email='" + Show(email) + "'" + ", userName='" + Show(userName) + "'" + ", id=" + ShowId(id) + "}"
    }
  }

  /** Two users that agree on email, user name and id render alike, whatever
      their passwords. */
  lemma ToStringOmitsPassword(a: User, b: User)
    requires a.email == b.email && a.userName == b.userName && a.id == b.id
    ensures a.ToString() == b.ToString()
  {
  }

  /** The rendering shows the email right after "User{email='" and the user
      name right after the email's closing "', userName='". */
  lemma ToStringShowsFields(u: User)
    ensures var s, e := u.ToString(), Show(u.email);
      && s[..12] == "User{email='"
      && OccursAt(s, e, 12) && s[12 + |e|..25 + |e|] == "', userName='"
      && OccursAt(s, Show(u.userName), 25 + |e|)
      && Contains(s, e) && Contains(s, Show(u.userName))
  {
    var s, e, n := u.ToString(), Show(u.email), Show(u.userName);
    var head := "User{email='" + e;
    var middle := head + "'" + ", userName='" + n;
    assert head[12..] == e;
    assert middle[..|head|] == head && middle[25 + |e|..] == n;
    assert middle[12 + |e|..25 + |e|] == "', userName='";
    assert s[..|middle|] == middle;
    assert s[12..12 + |e|] == e;
    assert s[25 + |e|..25 + |e| + |n|] == n;
    ContainsAt(s, e, 12);
    ContainsAt(s, n, 25 + |e|);
  }

  /** The rendering ends with the decimal id, so the id can be read back. */
  lemma ToStringEndsWithId(u: User)
    requires u.id.Some?
    ensures var s, t := u.ToString(), NatToString(u.id.value);
      |s| > |t| && s[|s| - 1 - |t|..|s| - 1] == t && DigitsValue(t) == u.id.value
  {
    var t := NatToString(u.id.value);
    var s := u.ToString();
    var head := "User{email='" + Show(u.email) + "'" + ", userName='" + Show(u.userName) + "'" + ", id=";
    assert s == head + t + "}";
    assert s[|s| - 1 - |t|..|s| - 1] == t;
    NatToStringRoundTrip(u.id.value);
  }

}
