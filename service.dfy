/** The account service the controller calls. Its source is not part of this
    model: its operations are written here over the user table, the way the
    controller and the service tests use them, with password hashing left to
    an abstract encoder. */
module AccountService {
  import opened Optional
  import opened UserModel
  import opened UserTable

  /** The password hashing collaborator: encode(raw) gives the stored hash,
      matches(raw, hash) checks a raw password against one. */
  datatype PasswordEncoder = PasswordEncoder(encode: string -> string, matches: (string, string) -> bool)

  /** The one law a password encoder keeps: a raw password matches its own
      hash. */
  ghost predicate Verifies(enc: PasswordEncoder) {
    forall raw: string :: enc.matches(raw, enc.encode(raw))
  }

  /** authenticate: look the email up; an unknown email, or a row without a
      stored hash, fails; otherwise the encoder decides. */
  function Authenticate(t: Table, enc: PasswordEncoder, email: string, password: string): (ok: bool)
    ensures ok ==> exists x :: x in t.rows && x.email == Some(email) && x.password.Some?
                               && enc.matches(password, x.password.value)
    ensures (forall x | x in t.rows :: x.email != Some(email)) ==> !ok
  {
    match t.FindByEmail(Some(email))
    case None => false
    case Some(x) => x.password.Some? && enc.matches(password, x.password.value)
  }

  /** saveUser: store the user with its password replaced by its hash. */
  function SavedUser(t: Table, enc: PasswordEncoder, u: UserRecord): (res: (Table, UserRecord))
    requires u.password.Some?
    ensures res.1.password == Some(enc.encode(u.password.value))
    ensures res.1.userName == u.userName && res.1.email == u.email
    ensures res.1.id.Some? && res.1 in res.0.rows
  {
    t.Save(u.(password := Some(enc.encode(u.password.value))))
  }

  /** changePassword: after re-authenticating with the old password, store
      the hash of the new one in the user's row and return that row; on a
      failed re-authentication nothing changes and there is no row. */
  function PasswordChange(t: Table, enc: PasswordEncoder, email: string, oldPassword: string, newPassword: string)
    : (res: (Table, Option<UserRecord>))
    ensures res.1.None? <==> !Authenticate(t, enc, email, oldPassword)
    ensures res.1.None? ==> res.0 == t
    ensures res.1.Some? ==> res.1.value.email == Some(email) && res.1.value.password == Some(enc.encode(newPassword))
    ensures res.1.Some? ==> var x := t.FindByEmail(Some(email)); x.Some? && res.1.value.userName == x.value.userName
  {
    if Authenticate(t, enc, email, oldPassword) then
      var x := t.FindByEmail(Some(email)).value;
      var (t', saved) := t.Save(x.(password := Some(enc.encode(newPassword))));
      (t', Some(saved))
    else
      (t, None)
  }

  /** changeUsername: after re-authenticating, store the new user name in the
      user's row and return that row; otherwise nothing changes. */
  function UsernameChange(t: Table, enc: PasswordEncoder, email: string, password: string, newUsername: string)
    : (res: (Table, Option<UserRecord>))
    ensures res.1.None? <==> !Authenticate(t, enc, email, password)
    ensures res.1.None? ==> res.0 == t
    ensures res.1.Some? ==> res.1.value.email == Some(email) && res.1.value.userName == Some(newUsername)
    ensures res.1.Some? ==> var x := t.FindByEmail(Some(email)); x.Some? && res.1.value.password == x.value.password
  {
    if Authenticate(t, enc, email, password) then
      var x := t.FindByEmail(Some(email)).value;
      var (t', saved) := t.Save(x.(userName := Some(newUsername)));
      (t', Some(saved))
    else
      (t, None)
  }

  /** When at most one row carries the email, authentication succeeds
      exactly when a row with that email holds a hash the encoder accepts. */
  lemma AuthenticateIff(t: Table, enc: PasswordEncoder, email: string, password: string)
    requires forall x, y | x in t.rows && y in t.rows && x.email == Some(email) && y.email == Some(email) :: x == y
    ensures Authenticate(t, enc, email, password) <==>
      exists x :: x in t.rows && x.email == Some(email) && x.password.Some? && enc.matches(password, x.password.value)
  {
  }

  /** What a successful password change does to a valid table: the user's
      row becomes that row with the new hash, every other row stays. */
  lemma PasswordChangeInPlace(t: Table, enc: PasswordEncoder, email: string, oldPassword: string, newPassword: string)
    requires t.Valid() && Authenticate(t, enc, email, oldPassword)
    ensures var (t', r) := PasswordChange(t, enc, email, oldPassword, newPassword);
      && r.Some? && r.value == t.FindByEmail(Some(email)).value.(password := Some(enc.encode(newPassword)))
      && |t'.rows| == |t.rows| && t'.nextId == t.nextId
      && (forall i | 0 <= i < |t.rows| :: t'.rows[i] == if t.rows[i].id == r.value.id then r.value else t.rows[i])
  {
    var x := t.FindByEmail(Some(email)).value;
    FindByIdFinds(t, x);
    SaveReplacesHeldId(t, x.(password := Some(enc.encode(newPassword))));
  }

  /** What a successful user name change does to a valid table: the user's
      row becomes that row with the new name, every other row stays. */
  lemma UsernameChangeInPlace(t: Table, enc: PasswordEncoder, email: string, password: string, newUsername: string)
    requires t.Valid() && Authenticate(t, enc, email, password)
    ensures var (t', r) := UsernameChange(t, enc, email, password, newUsername);
      && r.Some? && r.value == t.FindByEmail(Some(email)).value.(userName := Some(newUsername))
      && |t'.rows| == |t.rows| && t'.nextId == t.nextId
      && (forall i | 0 <= i < |t.rows| :: t'.rows[i] == if t.rows[i].id == r.value.id then r.value else t.rows[i])
  {
    var x := t.FindByEmail(Some(email)).value;
    FindByIdFinds(t, x);
    SaveReplacesHeldId(t, x.(userName := Some(newUsername)));
  }

  /** The service operations keep the table valid. */
  lemma ServicePreservesValid(t: Table, enc: PasswordEncoder, u: UserRecord, email: string, p: string, q: string)
    requires t.Valid() && u.password.Some?
    ensures SavedUser(t, enc, u).0.Valid()
    ensures PasswordChange(t, enc, email, p, q).0.Valid()
    ensures UsernameChange(t, enc, email, p, q).0.Valid()
  {
    SavePreservesValid(t, u.(password := Some(enc.encode(u.password.value))));
    if Authenticate(t, enc, email, p) {
      var x := t.FindByEmail(Some(email)).value;
      SavePreservesValid(t, x.(password := Some(enc.encode(q))));
      SavePreservesValid(t, x.(userName := Some(q)));
    }
  }

  /** Registering a new user stores the hash, never the raw password, under a
      fresh id. */
  lemma RegisterStoresHash(t: Table, enc: PasswordEncoder, userName: string, email: string, password: string)
    requires t.Valid()
    ensures var (t', saved) := SavedUser(t, enc, UserRecord(None, Some(userName), Some(email), Some(password)));
      && saved == UserRecord(Some(t.nextId), Some(userName), Some(email), Some(enc.encode(password)))
      && (forall x | x in t.rows :: x.id != saved.id)
      && t'.rows == t.rows + [saved]
  {
    SaveAssignsFreshId(t, UserRecord(None, Some(userName), Some(email), Some(enc.encode(password))));
  }

  /** The stored hash of a saved user matches the raw password it was
      given. */
  lemma SavedUserMatches(t: Table, enc: PasswordEncoder, u: UserRecord)
    requires Verifies(enc) && u.password.Some?
    ensures var saved := SavedUser(t, enc, u).1;
      saved.password.Some? && enc.matches(u.password.value, saved.password.value)
  {
  }

  /** The one row carrying an email in a table after a rewrite of that row by
      save is the rewritten row. */
  lemma {:induction false} RewrittenRowIsFound(t: Table, x: UserRecord, y: UserRecord, email: string)
    requires t.Valid() && x in t.rows && x.email == Some(email) && y.email == Some(email) && y.id == x.id
    requires forall z | z in t.rows && z.email == Some(email) :: z == x
    ensures t.Save(y).0.FindByEmail(Some(email)) == Some(y)
  {
    FindByIdFinds(t, x);
    SaveReplacesHeldId(t, y);
    var t' := t.Save(y).0;
    var f := t'.FindByEmail(Some(email));
    assert y in t'.rows;
    assert forall j | 0 <= j < |t'.rows| && t'.rows[j].email == Some(email) :: t'.rows[j] == y;
  }

  /** A registered user can log in with the password given at registration,
      when no other row holds that email. */
  lemma RegisterThenAuthenticate(t: Table, enc: PasswordEncoder, userName: string, email: string, password: string)
    requires t.Valid() && Verifies(enc)
    requires forall x | x in t.rows :: x.email != Some(email)
    ensures var t' := SavedUser(t, enc, UserRecord(None, Some(userName), Some(email), Some(password))).0;
      Authenticate(t', enc, email, password)
  {
    var u := UserRecord(None, Some(userName), Some(email), Some(password));
    RegisterStoresHash(t, enc, userName, email, password);
    var (t', saved) := SavedUser(t, enc, u);
    var f := t'.FindByEmail(Some(email));
    assert saved in t'.rows;
    assert f.Some? && f.value in t.rows + [saved];
  }

  /** After a password change the new password authenticates, when one row
      holds the email. */
  lemma PasswordChangeThenAuthenticate(t: Table, enc: PasswordEncoder, email: string, oldPassword: string, newPassword: string)
    requires t.Valid() && Verifies(enc) && Authenticate(t, enc, email, oldPassword)
    requires forall x, y | x in t.rows && y in t.rows && x.email == Some(email) && y.email == Some(email) :: x == y
    ensures Authenticate(PasswordChange(t, enc, email, oldPassword, newPassword).0, enc, email, newPassword)
  {
    var x := t.FindByEmail(Some(email)).value;
    RewrittenRowIsFound(t, x, x.(password := Some(enc.encode(newPassword))), email);
  }

  /** After a user name change the same password still authenticates, when
      one row holds the email. */
  lemma UsernameChangeKeepsLogin(t: Table, enc: PasswordEncoder, email: string, password: string, newUsername: string)
    requires t.Valid() && Authenticate(t, enc, email, password)
    requires forall x, y | x in t.rows && y in t.rows && x.email == Some(email) && y.email == Some(email) :: x == y
    ensures Authenticate(UsernameChange(t, enc, email, password, newUsername).0, enc, email, password)
  {
    var x := t.FindByEmail(Some(email)).value;
    RewrittenRowIsFound(t, x, x.(userName := Some(newUsername)), email);
  }

  /** The service object: a repository and an encoder. Its remaining
      operations (find, delete, update) are the repository's own. */
  class UserService {
    const repository: UserRepository
    const encoder: PasswordEncoder

    constructor (repository: UserRepository, encoder: PasswordEncoder)
      ensures this.repository == repository && this.encoder == encoder
    {
      this.repository := repository;
      this.encoder := encoder;
    }

    /** saveUser hashes the bean's password in place, then saves the bean;
        the store's id lands in the bean too. */
    method SaveUser(user: User) returns (saved: UserRecord)
      requires repository.Valid() && user.password.Some?
      modifies user, repository
      ensures repository.Valid()
      ensures (repository.Contents(), saved) == SavedUser(old(repository.Contents()), encoder, old(user.Record()))
      ensures user.Record() == saved
    {
      user.SetPassword(Some(encoder.encode(user.password.value)));
      saved := repository.Save(user.Record());
      user.id := saved.id;
    }

    method ChangePassword(email: string, oldPassword: string, newPassword: string) returns (result: Option<UserRecord>)
      requires repository.Valid()
      modifies repository
      ensures repository.Valid()
      ensures (repository.Contents(), result) == PasswordChange(old(repository.Contents()), encoder, email, oldPassword, newPassword)
    {
      if Authenticate(repository.Contents(), encoder, email, oldPassword) {
        var x := repository.Contents().FindByEmail(Some(email)).value;
        var saved := repository.Save(x.(password := Some(encoder.encode(newPassword))));
        result := Some(saved);
      } else {
        result := None;
      }
    }

    method ChangeUsername(email: string, password: string, newUsername: string) returns (result: Option<UserRecord>)
      requires repository.Valid()
      modifies repository
      ensures repository.Valid()
      ensures (repository.Contents(), result) == UsernameChange(old(repository.Contents()), encoder, email, password, newUsername)
    {
      if Authenticate(repository.Contents(), encoder, email, password) {
        var x := repository.Contents().FindByEmail(Some(email)).value;
        var saved := repository.Save(x.(userName := Some(newUsername)));
        result := Some(saved);
      } else {
        result := None;
      }
    }
  }

}
