/** CustomController: sixteen request handlers over the session's "user"
    attribute and the user table. Dispatch is the reference definition of one
    request; the CustomController class performs it step by step on a Session,
    a Model and the repository, and each handler's contract says it did
    exactly what Dispatch prescribes. */
module Controller {
  import opened Optional
  import opened UserModel
  import opened UserTable
  import opened AccountService

  /** Java's 32-bit int. */
  newtype int32 = x: int | -0x8000_0000 <= x < 0x8000_0000

  /** The low 32 bits of x read as a two's-complement int, which is what a
      Java int multiplication keeps. */
  function WrapInt(x: int): (r: int32)
    ensures (r as int - x) % 0x1_0000_0000 == 0
    ensures -0x8000_0000 <= x < 0x8000_0000 ==> r as int == x
  {
    var m := x % 0x1_0000_0000;
    if m >= 0x8000_0000 then (m - 0x1_0000_0000) as int32 else m as int32
  }

  /** number * 5 in int arithmetic. */
  function MultiplyByFive(number: int32): (r: int32)
    ensures (r as int - number as int * 5) % 0x1_0000_0000 == 0
    ensures -0x1999_9999 <= number as int <= 0x1999_9999 ==> r as int == number as int * 5
  {
    WrapInt(number as int * 5)
  }

  /** The multiplication the controller test checks, and one that wraps. */
  lemma MultiplyExamples()
    ensures MultiplyByFive(5) == 25
    ensures MultiplyByFive(0x2000_0000) == -0x6000_0000
  {
  }

  const LoginView := "logining"
  const MenuView := "menu"
  const BadCredentials := "incorrect email or password"

  /** The values handlers put into the Model. */
  datatype Attr =
    | Number(n: int)
    | UserList(users: seq<UserRecord>)
    | Registered(user: UserRecord)
    | Message(text: string)
    | ChangeResult(updated: Option<UserRecord>)

  /** One request: its method, path and request parameters. */
  datatype Request =
    | GetForm
    | PostMultiply(number: int32)
    | GetListOfUsers
    | PostListOfUsersByPattern(pattern: string)
    | GetListOfUsersByPattern
    | PostRegister(username: string, email: string, password: string)
    | GetRoot
    | GetLogout
    | PostLogin(email: string, password: string)
    | GetRegister
    | PostChangePassword(email: string, oldPassword: string, newPassword: string)
    | GetChangePassword
    | PostDelete(email: string, password: string)
    | GetDelete
    | PostChangeUsername(email: string, password: string, newUsername: string)
    | GetChangeUsername

  /** The routes that answer with the login view when the session has no user. */
  predicate IsGated(req: Request) {
    !(req.PostRegister? || req.GetRoot? || req.GetLogout? || req.PostLogin? || req.GetRegister?)
  }

  /** The session's "user" attribute and the user table. */
  datatype State = State(user: Option<string>, table: Table)

  /** The view name, the Model attributes the handler added, the next state. */
  datatype Reply = Reply(view: string, attributes: map<string, Attr>, next: State)

  // The view-only handlers of the gated GET routes: the login view exactly
  // when the session has no user, their own form otherwise.

  function ShowForm(user: Option<string>): (v: string)
    ensures v == LoginView <==> user.None?
    ensures user.Some? ==> v == MenuView
  {
    if user.None? then LoginView else MenuView
  }

  function Pattern(user: Option<string>): (v: string)
    ensures v == LoginView <==> user.None?
    ensures user.Some? ==> v == "pattern"
  {
    if user.None? then LoginView else "pattern"
  }

  function ViewPasswordChange(user: Option<string>): (v: string)
    ensures v == LoginView <==> user.None?
    ensures user.Some? ==> v == "password_change"
  {
    if user.None? then LoginView else "password_change"
  }

  function ViewDelete(user: Option<string>): (v: string)
    ensures v == LoginView <==> user.None?
    ensures user.Some? ==> v == "deleting"
  {
    if user.None? then LoginView else "deleting"
  }

  function ViewUsernameChange(user: Option<string>): (v: string)
    ensures v == LoginView <==> user.None?
    ensures user.Some? ==> v == "username_change"
  {
    if user.None? then LoginView else "username_change"
  }

  /** The answer of a gated route to a session without a user. */
  function NoSession(st: State): Reply {
    Reply(LoginView, map[], st)
  }

  /** What one request does, the route table of the controller. A gated
      route answers with the login view exactly when the session has no user,
      and then adds nothing and changes nothing. */
  function Dispatch(req: Request, st: State, enc: PasswordEncoder): (rep: Reply)
    ensures IsGated(req) ==> (rep.view == LoginView <==> st.user.None?)
    ensures IsGated(req) && st.user.None? ==> rep == NoSession(st)
  {
    match req
    case GetForm => Reply(ShowForm(st.user), map[], st)
    case PostMultiply(number) =>
      if st.user.None? then NoSession(st)
      else Reply("result", map["result" := Number(MultiplyByFive(number) as int)], st)
    case GetListOfUsers =>
      if st.user.None? then NoSession(st)
      else Reply("users_list", map["result" := UserList(st.table.FindAll())], st)
    case PostListOfUsersByPattern(pattern) =>
      if st.user.None? then NoSession(st)
      else Reply("users_list_by_pattern", map["result" := UserList(st.table.FindByPartOfUsernameOrEmail(pattern))], st)
    case GetListOfUsersByPattern => Reply(Pattern(st.user), map[], st)
    case PostRegister(username, email, password) =>
      var (t, saved) := SavedUser(st.table, enc, UserRecord(None, Some(username), Some(email), Some(password)));
      Reply("registration_result", map["result" := Registered(saved)], State(st.user, t))
    case GetRoot => Reply(LoginView, map[], st)
    case GetLogout => Reply(LoginView, map[], State(None, st.table))
    case PostLogin(email, password) =>
      var ok := Authenticate(st.table, enc, email, password);
      Reply(if ok then MenuView else LoginView,
            map["message" := Message(if ok then "" else BadCredentials)],
            State(Some(email), st.table))
    case GetRegister => Reply("registration", map[], st)
    case PostChangePassword(email, oldPassword, newPassword) =>
      if st.user.None? then NoSession(st)
      else
        var (t, r) := PasswordChange(st.table, enc, email, oldPassword, newPassword);
        Reply("password_change_result", map["result" := ChangeResult(r)], State(st.user, t))
    case GetChangePassword => Reply(ViewPasswordChange(st.user), map[], st)
    case PostDelete(email, password) =>
      if st.user.None? then NoSession(st)
      else if Authenticate(st.table, enc, email, password) then
        Reply("delete_result", map["message" := Message("")], State(st.user, st.table.DeleteByEmail(Some(email))))
      else
        Reply("deleting", map["message" := Message(BadCredentials)], st)
    case GetDelete => Reply(ViewDelete(st.user), map[], st)
    case PostChangeUsername(email, password, newUsername) =>
      if st.user.None? then NoSession(st)
      else
        var (t, r) := UsernameChange(st.table, enc, email, password, newUsername);
        Reply("username_change_result", map["result" := ChangeResult(r)], State(st.user, t))
    case GetChangeUsername => Reply(ViewUsernameChange(st.user), map[], st)
  }

  /** Without a user in the session a gated route answers with the login view,
      adds nothing to the Model and changes neither session nor table. */
  lemma GatedRoutesNeedSession(req: Request, st: State, enc: PasswordEncoder)
    requires IsGated(req) && st.user.None?
    ensures Dispatch(req, st, enc) == Reply(LoginView, map[], st)
  {
  }

  /** With a user in the session no gated route answers with the login view. */
  lemma GatedRoutesWithSession(req: Request, st: State, enc: PasswordEncoder)
    requires IsGated(req) && st.user.Some?
    ensures Dispatch(req, st, enc).view != LoginView
  {
  }

  /** With a user in the session: the view-only routes show their forms, the
      user list holds findAll(), and the two change routes show the service's
      result and keep its table. */
  lemma SessionOutcomes(st: State, enc: PasswordEncoder, email: string, p: string, q: string)
    requires st.user.Some?
    ensures Dispatch(GetForm, st, enc) == Reply(MenuView, map[], st)
    ensures Dispatch(GetListOfUsersByPattern, st, enc) == Reply("pattern", map[], st)
    ensures Dispatch(GetChangePassword, st, enc) == Reply("password_change", map[], st)
    ensures Dispatch(GetDelete, st, enc) == Reply("deleting", map[], st)
    ensures Dispatch(GetChangeUsername, st, enc) == Reply("username_change", map[], st)
    ensures Dispatch(GetListOfUsers, st, enc) == Reply("users_list", map["result" := UserList(st.table.FindAll())], st)
    ensures var (t, r) := PasswordChange(st.table, enc, email, p, q);
      Dispatch(PostChangePassword(email, p, q), st, enc)
        == Reply("password_change_result", map["result" := ChangeResult(r)], State(st.user, t))
    ensures var (t, r) := UsernameChange(st.table, enc, email, p, q);
      Dispatch(PostChangeUsername(email, p, q), st, enc)
        == Reply("username_change_result", map["result" := ChangeResult(r)], State(st.user, t))
  {
  }

  /** Login stores the submitted email in the session whatever the outcome,
      and leaves the table alone. */
  lemma LoginSetsSession(email: string, password: string, st: State, enc: PasswordEncoder)
    ensures Dispatch(PostLogin(email, password), st, enc).next == State(Some(email), st.table)
  {
  }

  /** Login answers with the menu and an empty message exactly when the
      credentials authenticate, and with the login view and the error message
      otherwise. */
  lemma LoginOutcome(email: string, password: string, st: State, enc: PasswordEncoder)
    ensures var rep := Dispatch(PostLogin(email, password), st, enc);
      && (rep.view == MenuView <==> Authenticate(st.table, enc, email, password))
      && (rep.view == MenuView || rep.view == LoginView)
      && rep.attributes == map["message" := Message(if rep.view == MenuView then "" else BadCredentials)]
  {
  }

  /** Registering and then logging in with the same email and password
      reaches the menu and leaves the email in the session, when no row held
      that email before. */
  lemma RegisterThenLogin(username: string, email: string, password: string, st: State, enc: PasswordEncoder)
    requires st.table.Valid() && Verifies(enc)
    requires forall x | x in st.table.rows :: x.email != Some(email)
    ensures var registered := Dispatch(PostRegister(username, email, password), st, enc);
      var login := Dispatch(PostLogin(email, password), registered.next, enc);
      && login.view == MenuView && login.attributes == map["message" := Message("")]
      && login.next.user == Some(email)
  {
    RegisterThenAuthenticate(st.table, enc, username, email, password);
  }

  /** Logout leaves no user in the session, whatever was there. */
  lemma LogoutClearsSession(st: State, enc: PasswordEncoder)
    ensures Dispatch(GetLogout, st, enc) == Reply(LoginView, map[], State(None, st.table))
  {
  }

  /** Delete with a session: on good credentials every row with the email is
      gone and every other row stays; on bad ones the table is untouched.
      The session is not changed either way. */
  lemma DeleteOutcome(email: string, password: string, st: State, enc: PasswordEncoder)
    requires st.user.Some?
    ensures var rep := Dispatch(PostDelete(email, password), st, enc);
      && rep.next.user == st.user
      && (if Authenticate(st.table, enc, email, password) then
            && rep.view == "delete_result" && rep.attributes == map["message" := Message("")]
            && (forall x | x in rep.next.table.rows :: x.email != Some(email))
            && (forall x: UserRecord | x.email != Some(email) :: multiset(rep.next.table.rows)[x] == multiset(st.table.rows)[x])
          else
            && rep.view == "deleting" && rep.attributes == map["message" := Message(BadCredentials)]
            && rep.next.table == st.table)
  {
    DeleteByEmailExact(st.table, Some(email));
  }

  /** Multiply with a session: the product as a Java int, on the result view.
      It lies in the int range and agrees with number * 5 modulo 2^32, which
      together fix it to the two's-complement wrap of the exact product. */
  lemma MultiplyOutcome(number: int32, st: State, enc: PasswordEncoder)
    requires st.user.Some?
    ensures var rep := Dispatch(PostMultiply(number), st, enc);
      && rep.view == "result" && rep.next == st
      && rep.attributes.Keys == {"result"} && rep.attributes["result"].Number?
      && rep.attributes["result"] == Number(MultiplyByFive(number) as int)
      && -0x8000_0000 <= rep.attributes["result"].n < 0x8000_0000
      && (rep.attributes["result"].n - number as int * 5) % 0x1_0000_0000 == 0
  {
  }

  /** Register is not gated: with or without a session it stores the new user
      (hashed password, fresh id, appended), puts it in the Model and answers
      with the registration result. */
  lemma RegisterOutcome(username: string, email: string, password: string, st: State, enc: PasswordEncoder)
    requires st.table.Valid()
    ensures var rep := Dispatch(PostRegister(username, email, password), st, enc);
      var saved := UserRecord(Some(st.table.nextId), Some(username), Some(email), Some(enc.encode(password)));
      && rep.view == "registration_result"
      && rep.attributes == map["result" := Registered(saved)]
      && rep.next == State(st.user, Table(st.table.rows + [saved], st.table.nextId + 1))
  {
    RegisterStoresHash(st.table, enc, username, email, password);
  }

  /** The search route answers with exactly the rows matching the pattern. */
  lemma SearchOutcome(pattern: string, st: State, enc: PasswordEncoder)
    requires st.user.Some?
    ensures var rep := Dispatch(PostListOfUsersByPattern(pattern), st, enc);
      && rep.view == "users_list_by_pattern" && rep.next == st
      && rep.attributes.Keys == {"result"} && rep.attributes["result"].UserList?
      && forall x :: x in rep.attributes["result"].users <==> x in st.table.rows && MatchesPattern(x, pattern)
  {
  }

  /** Only login and logout touch the session. */
  lemma OnlyLoginAndLogoutTouchSession(req: Request, st: State, enc: PasswordEncoder)
    requires !req.PostLogin? && !req.GetLogout?
    ensures Dispatch(req, st, enc).next.user == st.user
  {
  }

  /** Only register, delete and the two change routes touch the table. */
  lemma OnlyWritesTouchTable(req: Request, st: State, enc: PasswordEncoder)
    requires !req.PostRegister? && !req.PostDelete? && !req.PostChangePassword? && !req.PostChangeUsername?
    ensures Dispatch(req, st, enc).next.table == st.table
  {
  }

  /** The root and the registration form need no session. */
  lemma FixedViews(st: State, enc: PasswordEncoder)
    ensures Dispatch(GetRoot, st, enc) == Reply(LoginView, map[], st)
    ensures Dispatch(GetRegister, st, enc) == Reply("registration", map[], st)
  {
  }

  /** Every request keeps the table's ids assigned and unique. */
  lemma DispatchPreservesValid(req: Request, st: State, enc: PasswordEncoder)
    requires st.table.Valid()
    ensures Dispatch(req, st, enc).next.table.Valid()
  {
    match req
    case PostRegister(username, email, password) =>
      ServicePreservesValid(st.table, enc, UserRecord(None, Some(username), Some(email), Some(password)), email, password, password);
    case PostChangePassword(email, oldPassword, newPassword) =>
      ServicePreservesValid(st.table, enc, UserRecord(None, None, None, Some("")), email, oldPassword, newPassword);
    case PostChangeUsername(email, password, newUsername) =>
      ServicePreservesValid(st.table, enc, UserRecord(None, None, None, Some("")), email, password, newUsername);
    case PostDelete(email, password) =>
      DeletesPreserveValid(st.table, 0, Some(email), UserRecord(None, None, None, None));
    case _ =>
  }

  /** The handler did what Dispatch prescribes: it answered with the view,
      added the attributes to the Model and left the prescribed state. */
  ghost predicate Answers(req: Request, enc: PasswordEncoder, before: State, attrsBefore: map<string, Attr>,
                          view: string, attrsAfter: map<string, Attr>, after: State)
  {
    var rep := Dispatch(req, before, enc);
    view == rep.view && attrsAfter == attrsBefore + rep.attributes && after == rep.next
  }

  /** The HTTP session, holding at most the "user" attribute. */
  class Session {
    var user: Option<string>

    constructor ()
      ensures user == None
    {
      user := None;
    }

    method SetUser(email: string)
      modifies this
      ensures user == Some(email)
    {
      user := Some(email);
    }

    /** After invalidation the session carries no attributes. */
    method Invalidate()
      modifies this
      ensures user == None
    {
      user := None;
    }
  }

  /** The Spring Model the handlers fill. */
  class Model {
    var attributes: map<string, Attr>

    constructor ()
      ensures attributes == map[]
    {
      attributes := map[];
    }

    method AddAttribute(name: string, value: Attr)
      modifies this
      ensures attributes == old(attributes)[name := value]
    {
      attributes := attributes[name := value];
    }
  }

  class CustomController {
    const service: UserService

    constructor (service: UserService)
      ensures this.service == service
    {
      this.service := service;
    }

    ghost predicate Valid()
      reads service.repository
    {
      service.repository.Valid()
    }

    /** The session's user and the table, as Dispatch sees them. */
    function Current(session: Session): State
      reads session, service.repository
    {
      State(session.user, service.repository.Contents())
    }

    method MultiplyNumber(number: int32, model: Model, session: Session) returns (view: string)
      requires Valid()
      modifies model
      ensures Valid()
      ensures Answers(PostMultiply(number), service.encoder, old(Current(session)), old(model.attributes),
                      view, model.attributes, Current(session))
    {
      if session.user == None {
        return LoginView;
      }
      var result := MultiplyByFive(number);
      model.AddAttribute("result", Number(result as int));
      view := "result";
    }

    method ShowListOfUsers(model: Model, session: Session) returns (view: string)
      requires Valid()
      modifies model
      ensures Valid()
      ensures Answers(GetListOfUsers, service.encoder, old(Current(session)), old(model.attributes),
                      view, model.attributes, Current(session))
      ensures old(session.user).Some? ==>
        && view == "users_list"
        && model.attributes == old(model.attributes)["result" := UserList(service.repository.Contents().FindAll())]
    {
      if session.user == None {
        return LoginView;
      }
      var listOfUsers := service.repository.Contents().FindAll();
      model.AddAttribute("result", UserList(listOfUsers));
      view := "users_list";
    }

    method ShowListOfUsersByPattern(pattern: string, model: Model, session: Session) returns (view: string)
      requires Valid()
      modifies model
      ensures Valid()
      ensures Answers(PostListOfUsersByPattern(pattern), service.encoder, old(Current(session)), old(model.attributes),
                      view, model.attributes, Current(session))
    {
      if session.user == None {
        return LoginView;
      }
      var listOfUsers := service.repository.Contents().FindByPartOfUsernameOrEmail(pattern);
      model.AddAttribute("result", UserList(listOfUsers));
      view := "users_list_by_pattern";
    }

    /** Builds a new User bean from the parameters, saves it once through
        the service and shows it. */
    method Register(username: string, email: string, password: string, model: Model, session: Session)
      returns (view: string)
      requires Valid()
      modifies model, service.repository
      ensures Valid()
      ensures Answers(PostRegister(username, email, password), service.encoder, old(Current(session)),
                      old(model.attributes), view, model.attributes, Current(session))
    {
      var user := new User(Some(username), Some(email), Some(password));
      var saved := service.SaveUser(user);
      model.AddAttribute("result", Registered(user.Record()));
      view := "registration_result";
    }

    method Logout(model: Model, session: Session) returns (view: string)
      requires Valid()
      modifies session
      ensures Valid()
      ensures Answers(GetLogout, service.encoder, old(Current(session)), old(model.attributes),
                      view, model.attributes, Current(session))
    {
      session.Invalidate();
      view := LoginView;
    }

    /** Writes the session first, then checks the credentials. */
    method Login(email: string, password: string, model: Model, session: Session) returns (view: string)
      requires Valid()
      modifies model, session
      ensures Valid()
      ensures Answers(PostLogin(email, password), service.encoder, old(Current(session)), old(model.attributes),
                      view, model.attributes, Current(session))
    {
      session.SetUser(email);
      var message := "";
      if Authenticate(service.repository.Contents(), service.encoder, email, password) {
        view := MenuView;
      } else {
        view := LoginView;
        message := BadCredentials;
      }
      model.AddAttribute("message", Message(message));
    }

    method ChangePassword(email: string, oldPassword: string, newPassword: string, model: Model, session: Session)
      returns (view: string)
      requires Valid()
      modifies model, service.repository
      ensures Valid()
      ensures Answers(PostChangePassword(email, oldPassword, newPassword), service.encoder, old(Current(session)),
                      old(model.attributes), view, model.attributes, Current(session))
      ensures old(session.user).Some? ==>
        var (t, r) := PasswordChange(old(service.repository.Contents()), service.encoder, email, oldPassword, newPassword);
        && view == "password_change_result" && service.repository.Contents() == t
        && model.attributes == old(model.attributes)["result" := ChangeResult(r)]
    {
      if session.user == None {
        return LoginView;
      }
      var result := service.ChangePassword(email, oldPassword, newPassword);
      model.AddAttribute("result", ChangeResult(result));
      view := "password_change_result";
    }

    /** Checks the credentials and only then deletes the rows of that email. */
    method DeleteUser(email: string, password: string, model: Model, session: Session) returns (view: string)
      requires Valid()
      modifies model, service.repository
      ensures Valid()
      ensures Answers(PostDelete(email, password), service.encoder, old(Current(session)), old(model.attributes),
                      view, model.attributes, Current(session))
    {
      if session.user == None {
        return LoginView;
      }
      var message := "";
      if Authenticate(service.repository.Contents(), service.encoder, email, password) {
        service.repository.DeleteByEmail(Some(email));
        view := "delete_result";
      } else {
        view := "deleting";
        message := BadCredentials;
      }
      model.AddAttribute("message", Message(message));
    }

    method ChangeUsername(email: string, password: string, newUsername: string, model: Model, session: Session)
      returns (view: string)
      requires Valid()
      modifies model, service.repository
      ensures Valid()
      ensures Answers(PostChangeUsername(email, password, newUsername), service.encoder, old(Current(session)),
                      old(model.attributes), view, model.attributes, Current(session))
      ensures old(session.user).Some? ==>
        var (t, r) := UsernameChange(old(service.repository.Contents()), service.encoder, email, password, newUsername);
        && view == "username_change_result" && service.repository.Contents() == t
        && model.attributes == old(model.attributes)["result" := ChangeResult(r)]
    {
      if session.user == None {
        return LoginView;
      }
      var result := service.ChangeUsername(email, password, newUsername);
      model.AddAttribute("result", ChangeResult(result));
      view := "username_change_result";
    }

    /** The request mapping: route each request to its handler. */
    method Handle(req: Request, model: Model, session: Session) returns (view: string)
      requires Valid()
      modifies model, session, service.repository
      ensures Valid()
      ensures Answers(req, service.encoder, old(Current(session)), old(model.attributes),
                      view, model.attributes, Current(session))
    {
      match req
      case GetForm => view := ShowForm(session.user);
      case PostMultiply(number) => view := MultiplyNumber(number, model, session);
      case GetListOfUsers => view := ShowListOfUsers(model, session);
      case PostListOfUsersByPattern(pattern) => view := ShowListOfUsersByPattern(pattern, model, session);
      case GetListOfUsersByPattern => view := Pattern(session.user);
      case PostRegister(username, email, password) => view := Register(username, email, password, model, session);
      case GetRoot => view := LoginView;
      case GetLogout => view := Logout(model, session);
      case PostLogin(email, password) => view := Login(email, password, model, session);
      case GetRegister => view := "registration";
      case PostChangePassword(email, oldPassword, newPassword) =>
        view := ChangePassword(email, oldPassword, newPassword, model, session);
      case GetChangePassword => view := ViewPasswordChange(session.user);
      case PostDelete(email, password) => view := DeleteUser(email, password, model, session);
      case GetDelete => view := ViewDelete(session.user);
      case PostChangeUsername(email, password, newUsername) =>
        view := ChangeUsername(email, password, newUsername, model, session);
      case GetChangeUsername => view := ViewUsernameChange(session.user);
    }
  }

}
