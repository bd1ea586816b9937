# User accounts web application: verified model

This project models the core of a small Spring user-account application:

- **the request controller** (`CustomController`). It has sixteen handlers. Most of them answer with the login view unless the HTTP session carries a `user` attribute. Login, logout, registration, search, rename, password change and delete are some of them.
- **the `User` entity**. It is a mutable bean with a nullable id, user name, email and password. It carries declarative field constraints (`@NotBlank`, `@Email`, `@Size(min = 8)`) and a `toString` rendering.
- **the user table** behind `UserRepository`. It supports find-all, find by id, find by email, the "user name or email contains" search, save with identity assignment, and three kinds of delete.

Modules, one per component:

- `Optional`: Java's `null` / `Optional`, as `Option`.
- `Strings`: Java's `trim()`-based blankness, `contains`, and the decimal rendering of a `Long`.
- `UserModel` (User.java): the `UserRecord` value, the `User` class (constructors and setters change fields in place), `Violations`, `ToString`.
- `UserTable` (UserRepository.java): the `Table` value (rows in table order plus the identity counter) with its queries, save and deletes as functions, and the `UserRepository` class whose methods change the table in place.
- `AccountService`: the service the controller calls (`authenticate`, `saveUser`, `changePassword`, `changeUsername`). The service source is not part of this model. These operations are written over the table, with password hashing left to an abstract `PasswordEncoder`: a pair of functions `encode` and `matches`.
- `Controller` (CustomController.java): `Dispatch` is the reference definition of one request. It maps a request, the session's `user` and the table to a view name, the Model attributes added, and the next session and table. The `Session`, `Model` and `CustomController` classes carry the handlers out step by step. Each handler method is proved to do exactly what `Dispatch` prescribes (predicate `Answers`). `Handle` routes a request to its handler.

Behaviour taken from the code where other descriptions differ:

- A successful login answers with view `menu` (CustomController.java:99). The controller test expects `form` at CustomControllerTest.java:110.
- An empty password `""` breaks both `@NotBlank` and `@Size(min = 8)`, so it gives two violations, not one (`UserModel.EmptyPassword`). A null password gives one.
- `@Email` accepts null and the empty string. So a null email gives exactly one violation, from `@NotBlank` (`UserModel.NullEmail`).
- Login writes the session attribute before checking the credentials. A failed login therefore still leaves the email in the session (`Controller.LoginSetsSession`). The model keeps this.

## Model

| member | source | states |
|---|---|---|
| `Strings.NatToStringRoundTrip` | spring/src/main/java/com/example/spring/model/User.java:74 | reading the decimal rendering of an id back gives the id |
| `Strings.ContainsAt` | spring/src/main/java/com/example/spring/repository/UserRepository.java:18 | an occurrence of the pattern at some offset makes `contains` true |
| `Strings.ContainsHasOffset` | spring/src/main/java/com/example/spring/repository/UserRepository.java:18 | `contains` holds only when the pattern occurs at some offset |
| `UserModel.Violations` | spring/src/main/java/com/example/spring/model/User.java:18-30 | the result holds only the five declared (property, message) pairs, each exactly when its rule fails: not-blank for user name, email and password; `@Email` (null and empty pass); `@Size(min = 8)` (null passes) |
| `UserModel.NoViolationsIffValid` | spring/src/main/java/com/example/spring/model/User.java:18-30 | no violations if and only if the user is valid: non-blank user name, non-blank well-formed email, non-blank password of at least 8 characters |
| `UserModel.NullUserName` | spring/src/main/java/com/example/spring/model/User.java:18 | null user name, other fields valid: exactly one violation, whose message contains "cannot be empty" |
| `UserModel.NullEmail` | spring/src/main/java/com/example/spring/model/User.java:22-23 | null email: exactly the not-blank violation; the format rule does not fire |
| `UserModel.MalformedEmail` | spring/src/main/java/com/example/spring/model/User.java:22 | non-blank malformed email: exactly one violation, on "email", "must be a well-formed email address" |
| `UserModel.NullPassword` | spring/src/main/java/com/example/spring/model/User.java:27-28 | null password: exactly the not-blank violation; the size rule does not fire |
| `UserModel.ShortPassword` | spring/src/main/java/com/example/spring/model/User.java:28 | non-blank password under 8 characters: exactly one violation, on "password", "password must contains at least 8 characters" |
| `UserModel.EmptyPassword` | spring/src/main/java/com/example/spring/model/User.java:27-28 | empty password: exactly two violations, not-blank and size |
| `UserModel.ValidationTestCases` | spring/src/test/java/com/example/spring/UserTest.java:27-87 | the six test records give 1, 1, 1, 1, 1 and 0 violations, given only that the email grammar accepts the two test addresses and rejects "invalid-email" |
| `UserModel.User.Empty` | spring/src/main/java/com/example/spring/model/User.java:32-33 | the no-argument constructor leaves every field null |
| `UserModel.User.constructor` | spring/src/main/java/com/example/spring/model/User.java:35-39 | sets exactly user name, email and password; id stays null |
| `UserModel.User.SetUserName` | spring/src/main/java/com/example/spring/model/User.java:49-51 | changes the user name and no other field |
| `UserModel.User.SetEmail` | spring/src/main/java/com/example/spring/model/User.java:57-59 | changes the email and no other field |
| `UserModel.User.SetPassword` | spring/src/main/java/com/example/spring/model/User.java:65-67 | changes the password and no other field |
| `UserModel.User.ToString` | spring/src/main/java/com/example/spring/model/User.java:69-76 | the rendering is non-empty and closes with `}` |
| `UserModel.ToStringOmitsPassword` | spring/src/main/java/com/example/spring/model/User.java:69-76 | users agreeing on email, user name and id render identically whatever their passwords |
| `UserModel.ToStringShowsFields` | spring/src/main/java/com/example/spring/model/User.java:71-73 | the rendering starts with "User{email='", shows the email at offset 12, then exactly "', userName='", then the user name (null fields as "null") |
| `UserModel.ToStringEndsWithId` | spring/src/main/java/com/example/spring/model/User.java:74 | the rendering ends with the decimal id (then `}`), which reads back as the id |
| `UserTable.Filter` | spring/src/main/java/com/example/spring/repository/UserRepository.java:18-23 | a row is in the result exactly when it is stored and accepted; the result is no longer than the input |
| `UserTable.FilterCount` | spring/src/main/java/com/example/spring/repository/UserRepository.java:21-25 | filtering keeps each accepted row with its multiplicity and drops every other row entirely |
| `UserTable.FilterDistinctIds` | spring/src/main/java/com/example/spring/repository/UserRepository.java:21-25 | filtering a table with unique ids keeps them unique |
| `UserTable.First` | spring/src/main/java/com/example/spring/repository/UserRepository.java:14-16 | a found row is stored and matches; nothing is found exactly when no stored row matches |
| `UserTable.OccursOnce` | spring/src/main/java/com/example/spring/repository/UserRepository.java:12 | with unique ids every stored row occurs exactly once |
| `UserTable.Replace` | spring/src/main/java/com/example/spring/repository/UserRepository.java:27 | same length; rows with the saved id become the saved record, all others stay |
| `UserTable.Table.FindAll` | spring/src/main/java/com/example/spring/repository/UserRepository.java:12 | as many rows as stored, containing exactly the stored rows |
| `UserTable.FindAllExactlyOnce` | spring/src/main/java/com/example/spring/repository/UserRepository.java:12 | in a valid table findAll holds every stored row exactly once |
| `UserTable.Table.FindById` | spring/src/main/java/com/example/spring/repository/UserRepository.java:14 | a found row is stored and has the id; empty exactly when no row has it |
| `UserTable.FindByIdFinds` | spring/src/main/java/com/example/spring/repository/UserRepository.java:14 | in a valid table findById of a stored row's id returns that row |
| `UserTable.Table.FindByEmail` | spring/src/main/java/com/example/spring/repository/UserRepository.java:16 | a found row is stored and has the email; empty exactly when no row has it |
| `UserTable.Table.FindByPartOfUsernameOrEmail` | spring/src/main/java/com/example/spring/repository/UserRepository.java:18-19 | exactly the stored rows whose user name or email contains the pattern |
| `UserTable.Table.Save` | spring/src/main/java/com/example/spring/repository/UserRepository.java:27 | the stored record keeps the saved name, email and password, has an id and is in the new table |
| `UserTable.SaveAssignsFreshId` | spring/src/main/java/com/example/spring/repository/UserRepository.java:27 | a record without a held id is appended under the counter's id, which no stored row has |
| `UserTable.SaveReplacesHeldId` | spring/src/main/java/com/example/spring/repository/UserRepository.java:27 | a record with a held id replaces that row in place; other rows, size and counter are unchanged |
| `UserTable.SavePreservesValid` | spring/src/main/java/com/example/spring/model/User.java:12-16 | save keeps ids assigned, unique and below the identity counter |
| `UserTable.Table.DeleteById` | spring/src/main/java/com/example/spring/repository/UserRepository.java:21 | the remaining rows are exactly the stored rows without that id |
| `UserTable.DeleteByIdExact` | spring/src/main/java/com/example/spring/repository/UserRepository.java:21 | no row with the id remains; every other row keeps its multiplicity |
| `UserTable.DeleteByIdRemovesOne` | spring/src/main/java/com/example/spring/repository/UserRepository.java:21 | in a valid table deleting a stored row's id removes exactly that one row |
| `UserTable.Table.DeleteByEmail` | spring/src/main/java/com/example/spring/repository/UserRepository.java:23 | the remaining rows are exactly the stored rows with another email |
| `UserTable.DeleteByEmailExact` | spring/src/main/java/com/example/spring/repository/UserRepository.java:23 | no row with the email remains; every other row keeps its multiplicity |
| `UserTable.Table.Delete` | spring/src/main/java/com/example/spring/repository/UserRepository.java:25 | a record without an id removes nothing; otherwise exactly the rows with its id go |
| `UserTable.DeleteExact` | spring/src/main/java/com/example/spring/repository/UserRepository.java:25 | delete removes only rows with the record's id, nothing when it has none |
| `UserTable.FilterPreservesValid` | spring/src/main/java/com/example/spring/repository/UserRepository.java:21-25 | removing rows keeps the table valid |
| `UserTable.DeletesPreserveValid` | spring/src/main/java/com/example/spring/repository/UserRepository.java:21-25 | the three deletes keep the table valid |
| `UserTable.UserRepository.constructor` | spring/src/main/java/com/example/spring/repository/UserRepository.java:11 | a new repository holds an empty valid table |
| `UserTable.UserRepository.Save` | spring/src/main/java/com/example/spring/repository/UserRepository.java:27 | the held table becomes the saved table, the record returned is the stored one, validity is kept |
| `UserTable.UserRepository.DeleteById` | spring/src/main/java/com/example/spring/repository/UserRepository.java:21 | the held table becomes the table without that id |
| `UserTable.UserRepository.DeleteByEmail` | spring/src/main/java/com/example/spring/repository/UserRepository.java:23 | the held table becomes the table without that email |
| `UserTable.UserRepository.Delete` | spring/src/main/java/com/example/spring/repository/UserRepository.java:25 | the held table becomes the table without the record's id |
| `AccountService.Authenticate` | spring/src/main/java/com/example/spring/controller/CustomController.java:98 | success implies a row with that email whose stored hash the encoder accepts; an unknown email never authenticates |
| `AccountService.AuthenticateIff` | spring/src/main/java/com/example/spring/controller/CustomController.java:141 | with at most one row per email: success exactly when such a row's hash accepts the password |
| `AccountService.SavedUser` | spring/src/test/java/com/example/spring/UserServiceTest.java:36-45 | the stored password is the hash of the given one; name and email are kept; the record gets an id and is stored |
| `AccountService.RegisterStoresHash` | spring/src/test/java/com/example/spring/UserServiceTest.java:36-45 | a new user is appended with the hashed password under a fresh id |
| `AccountService.SavedUserMatches` | spring/src/test/java/com/example/spring/UserServiceTest.java:42-43 | under an encoder whose hashes match their raw passwords, the stored hash of a saved user matches the password it was given |
| `AccountService.RegisterThenAuthenticate` | spring/src/test/java/com/example/spring/UserServiceTest.java:42-43 | under that encoder law, a newly registered user whose email no row held authenticates with the registration password |
| `AccountService.PasswordChange` | spring/src/main/java/com/example/spring/controller/CustomController.java:120 | no result exactly when re-authentication fails, and then the table is unchanged; a result has the email, the new hash and the user name of the user's row |
| `AccountService.PasswordChangeInPlace` | spring/src/main/java/com/example/spring/controller/CustomController.java:120 | a successful change returns the user's row with only its password replaced by the new hash (id, email and user name kept), writes it in place of that row, and leaves every other row, the size and the counter |
| `AccountService.UsernameChange` | spring/src/main/java/com/example/spring/controller/CustomController.java:167 | no result exactly when re-authentication fails, and then the table is unchanged; a result has the email, the new user name and the password hash of the user's row |
| `AccountService.UsernameChangeInPlace` | spring/src/main/java/com/example/spring/controller/CustomController.java:167 | a successful rename returns the user's row with only its user name replaced (id, email and password hash kept), writes it in place of that row, and leaves every other row, the size and the counter |
| `AccountService.RewrittenRowIsFound` | spring/src/main/java/com/example/spring/repository/UserRepository.java:16-27 | when one row holds an email, after save rewrites that row findByEmail returns the rewritten row |
| `AccountService.PasswordChangeThenAuthenticate` | spring/src/main/java/com/example/spring/controller/CustomController.java:113-122 | under the encoder law, with one row per email, after a password change the new password authenticates |
| `AccountService.UsernameChangeKeepsLogin` | spring/src/main/java/com/example/spring/controller/CustomController.java:160-169 | with one row per email, after a user name change the same password still authenticates |
| `AccountService.ServicePreservesValid` | spring/src/main/java/com/example/spring/controller/CustomController.java:76 | save, password change and rename keep the table valid |
| `AccountService.UserService.SaveUser` | spring/src/main/java/com/example/spring/controller/CustomController.java:76 | hashes the bean's password in place, saves it, and the bean ends up equal to the stored record |
| `AccountService.UserService.ChangePassword` | spring/src/main/java/com/example/spring/controller/CustomController.java:120 | the table and result are those of `PasswordChange` |
| `AccountService.UserService.ChangeUsername` | spring/src/main/java/com/example/spring/controller/CustomController.java:167 | the table and result are those of `UsernameChange` |
| `Controller.WrapInt` | spring/src/main/java/com/example/spring/controller/CustomController.java:38 | the 32-bit result is congruent to the exact value modulo 2^32 and equals it when it fits |
| `Controller.MultiplyByFive` | spring/src/main/java/com/example/spring/controller/CustomController.java:38 | `number * 5` in Java int: congruent modulo 2^32, exact when no overflow |
| `Controller.MultiplyExamples` | spring/src/test/java/com/example/spring/CustomControllerTest.java:53-59 | 5 gives 25; 2^29 wraps to -0x60000000 |
| `Controller.GatedRoutesNeedSession` | spring/src/main/java/com/example/spring/controller/CustomController.java:25-177 | every gated route without a session user: view "logining", nothing added, session and table unchanged |
| `Controller.GatedRoutesWithSession` | spring/src/main/java/com/example/spring/controller/CustomController.java:25-177 | with a session user no gated route answers "logining" |
| `Controller.SessionOutcomes` | spring/src/main/java/com/example/spring/controller/CustomController.java:25-177 | with a session user: GET /form gives "menu"; the four other form routes give "pattern", "password_change", "deleting", "username_change"; GET /list_of_users gives "users_list" with "result" = findAll(); the two change routes give their result views with the service's result and its table |
| `Controller.LoginSetsSession` | spring/src/main/java/com/example/spring/controller/CustomController.java:95 | login sets the session user to the submitted email whatever the outcome; the table is unchanged |
| `Controller.LoginOutcome` | spring/src/main/java/com/example/spring/controller/CustomController.java:96-105 | view "menu" with message "" iff authentication holds, else "logining" with "incorrect email or password" |
| `Controller.RegisterThenLogin` | spring/src/main/java/com/example/spring/controller/CustomController.java:71-106 | under the encoder law, POST /register then POST /login with the same email and password reaches "menu" with message "" and leaves the email in the session, when no row held that email |
| `Controller.LogoutClearsSession` | spring/src/main/java/com/example/spring/controller/CustomController.java:86-90 | logout leaves no session user and answers "logining", whatever the prior session |
| `Controller.DeleteOutcome` | spring/src/main/java/com/example/spring/controller/CustomController.java:132-150 | with a session: on success all rows of that email go, each other row stays, view "delete_result" with ""; on failure the table is unchanged, view "deleting" with the error message |
| `Controller.MultiplyOutcome` | spring/src/main/java/com/example/spring/controller/CustomController.java:33-41 | with a session: view "result", only "result" added, holding `MultiplyByFive(number)`: a value in the Java int range congruent to number * 5 modulo 2^32, that is the 32-bit wrapped product |
| `Controller.RegisterOutcome` | spring/src/main/java/com/example/spring/controller/CustomController.java:71-79 | any session: the user built from the three parameters is saved once (hashed, fresh id, appended) and shown as "result" on "registration_result" |
| `Controller.SearchOutcome` | spring/src/main/java/com/example/spring/controller/CustomController.java:53-61 | with a session: "result" holds exactly the rows matching the pattern |
| `Controller.OnlyLoginAndLogoutTouchSession` | spring/src/main/java/com/example/spring/controller/CustomController.java:25-177 | every other route leaves the session user as it was |
| `Controller.OnlyWritesTouchTable` | spring/src/main/java/com/example/spring/controller/CustomController.java:25-177 | only register, delete and the two change routes touch the table |
| `Controller.FixedViews` | spring/src/main/java/com/example/spring/controller/CustomController.java:81-111 | GET / always gives "logining" and GET /register "registration", changing nothing |
| `Controller.DispatchPreservesValid` | spring/src/main/java/com/example/spring/controller/CustomController.java:71-169 | every request keeps the table valid |
| `Controller.Session.SetUser` | spring/src/main/java/com/example/spring/controller/CustomController.java:95 | the session user becomes the email |
| `Controller.Session.Invalidate` | spring/src/main/java/com/example/spring/controller/CustomController.java:88 | the session has no user afterwards |
| `Controller.Model.AddAttribute` | spring/src/main/java/com/example/spring/controller/CustomController.java:39 | the attribute map gains (or overwrites) that one entry |
| `Controller.CustomController.MultiplyNumber` | spring/src/main/java/com/example/spring/controller/CustomController.java:33-41 | performs exactly what `Dispatch` prescribes for POST /multiply |
| `Controller.CustomController.ShowListOfUsers` | spring/src/main/java/com/example/spring/controller/CustomController.java:43-51 | performs exactly what `Dispatch` prescribes for GET /list_of_users; with a session user the view is "users_list" and the Model gains "result" = findAll() of the table |
| `Controller.CustomController.ShowListOfUsersByPattern` | spring/src/main/java/com/example/spring/controller/CustomController.java:53-61 | performs exactly what `Dispatch` prescribes for POST /list_of_users_by_pattern |
| `Controller.CustomController.Register` | spring/src/main/java/com/example/spring/controller/CustomController.java:71-79 | builds a fresh bean, calls saveUser once and shows the bean: exactly `Dispatch` for POST /register |
| `Controller.CustomController.Logout` | spring/src/main/java/com/example/spring/controller/CustomController.java:86-90 | invalidates the session: exactly `Dispatch` for GET /logout |
| `Controller.CustomController.Login` | spring/src/main/java/com/example/spring/controller/CustomController.java:92-106 | writes the session, then authenticates: exactly `Dispatch` for POST /login |
| `Controller.CustomController.ChangePassword` | spring/src/main/java/com/example/spring/controller/CustomController.java:113-122 | performs exactly what `Dispatch` prescribes for POST /change-password; with a session user the table becomes that of `PasswordChange`, the view is "password_change_result" and the Model gains "result" = the service's result |
| `Controller.CustomController.DeleteUser` | spring/src/main/java/com/example/spring/controller/CustomController.java:132-150 | authenticates, then deletes: exactly `Dispatch` for POST /delete |
| `Controller.CustomController.ChangeUsername` | spring/src/main/java/com/example/spring/controller/CustomController.java:160-169 | performs exactly what `Dispatch` prescribes for POST /change-username; with a session user the table becomes that of `UsernameChange`, the view is "username_change_result" and the Model gains "result" = the service's result |
| `Controller.CustomController.Handle` | spring/src/main/java/com/example/spring/controller/CustomController.java:16-178 | every one of the sixteen routes, including the view-only ones, performs exactly what `Dispatch` prescribes and keeps the table valid |
| `Strings.TrimFrom` | spring/src/main/java/com/example/spring/model/User.java:18 | the first loop of `trim()`: every skipped character is at or below U+0020 and it stops at the end or at a character above U+0020 |
| `Strings.TrimTo` | spring/src/main/java/com/example/spring/model/User.java:18 | the second loop of `trim()`: every character passed from the end is at or below U+0020 and it stops at the start or after a character above U+0020 |
| `Strings.Trim` | spring/src/main/java/com/example/spring/model/User.java:18 | `trim()` gives the slice of s after the leading blank run; everything dropped before and after it is at or below U+0020; it is empty exactly when all of s is, and otherwise starts and ends with a character above U+0020 |
| `Strings.IsBlank` | spring/src/main/java/com/example/spring/model/User.java:18 | every character is at or below U+0020 (no contract of its own; `Strings.BlankIffTrimEmpty` ties it to `trim()`) |
| `Strings.BlankIffTrimEmpty` | spring/src/main/java/com/example/spring/model/User.java:18 | a string is blank exactly when `trim()` leaves nothing |
| `Strings.Contains` | spring/src/main/java/com/example/spring/repository/UserRepository.java:18 | `contains`: the empty pattern is contained in every string, and a contained pattern is no longer than the string |
| `Strings.NatToString` | spring/src/main/java/com/example/spring/model/User.java:74 | the decimal rendering of an id: non-empty, only digits, no leading zero from 10 on |
| `UserModel.NotBlank` | spring/src/main/java/com/example/spring/model/User.java:18-27 | `@NotBlank` passes only a non-null, non-empty value |
| `UserModel.NotBlankIffTrimmed` | spring/src/main/java/com/example/spring/model/User.java:18-27 | `@NotBlank` passes exactly a non-null value that `trim()` does not empty |
| `UserModel.EmailShaped` | spring/src/main/java/com/example/spring/model/User.java:22 | `@Email` passes null and the empty string |
| `UserModel.LongEnough` | spring/src/main/java/com/example/spring/model/User.java:28 | `@Size(min = 8)` passes null and fails every value shorter than 8 characters, the empty one among them |
| `UserModel.Show` | spring/src/main/java/com/example/spring/model/User.java:72-73 | Java string conversion of a String: itself, or "null" (a definition with no contract of its own; `UserModel.ToStringShowsFields` states where it lands) |
| `UserModel.ShowId` | spring/src/main/java/com/example/spring/model/User.java:74 | Java string conversion of a Long: a non-null id renders as decimal digits that read back as the id; null renders as "null" |
| `UserTable.MatchesPattern` | spring/src/main/java/com/example/spring/repository/UserRepository.java:18 | the search condition; with the empty pattern it accepts exactly the rows with a non-null user name or email |
| `Controller.Dispatch` | spring/src/main/java/com/example/spring/controller/CustomController.java:25-177 | the route table; a gated route answers with the login view exactly when the session has no user, and then adds nothing and changes nothing |
| `Controller.ShowForm` | spring/src/main/java/com/example/spring/controller/CustomController.java:25-31 | GET /form: the login view exactly when the session has no user, "menu" when it has one |
| `Controller.Pattern` | spring/src/main/java/com/example/spring/controller/CustomController.java:63-69 | GET /list_of_users_by_pattern: the login view exactly when the session has no user, "pattern" when it has one |
| `Controller.ViewPasswordChange` | spring/src/main/java/com/example/spring/controller/CustomController.java:124-130 | GET /change-password: the login view exactly when the session has no user, "password_change" when it has one |
| `Controller.ViewDelete` | spring/src/main/java/com/example/spring/controller/CustomController.java:152-158 | GET /delete: the login view exactly when the session has no user, "deleting" when it has one |
| `Controller.ViewUsernameChange` | spring/src/main/java/com/example/spring/controller/CustomController.java:171-177 | GET /change-username: the login view exactly when the session has no user, "username_change" when it has one |
| `Controller.CustomController.constructor` | spring/src/main/java/com/example/spring/controller/CustomController.java:21-23 | the controller holds the service it is given |

## Left out

- The response-header filter and the request-header logging filter: header writes and log output, with no decisions in them.
- Password hashing: BCrypt is a foreign library. `PasswordEncoder` is an abstract pair: `encode` gives a hash, `matches` checks a raw password against a hash. The one law assumed of it, where a lemma needs it, is `Verifies`: every raw password matches its own hash.
- The service source is not part of this model. `updateUser`, `deleteUser`, `deleteUserById`, `findById`, `findByEmail` and the list queries of the service are the repository's own operations. `changePassword` and `changeUsername` are modelled as: re-authenticate with the given password, update the user's row through save, and return the updated row, or nothing when re-authentication fails.
- The email grammar (Hibernate Validator's) is a parameter `isEmail`. The only facts assumed about it are those the tests fix (`AgreesWithTests`).
- `UserTable.Table.FindByPartOfUsernameOrEmail`: the pattern is a literal substring. JPQL `LIKE` wildcards (`%`, `_`) inside the pattern and the store's case rules are not modelled.
- `UserTable.Table.FindByEmail`: when several rows share an email it returns the first in table order. Spring Data would raise an error instead, and `AccountService.Authenticate` inherits this.
- `UserTable.Table.Save`: the model chooses to insert a record carrying an id that no row holds under a fresh id; the JPA provider may instead reject such a record, and that behaviour depends on its version. Validation that the persistence layer may run on insert or update (the `@Valid` element types of the repository) is not modelled: save stores a record whatever its violations. So POST /register with an invalid user is stored and answered with "registration_result", where a validating store would reject it and store nothing.
- Null ids given to find-by-id or delete-by-id are errors in Spring Data. Here ids are `nat`, so they cannot be null. Ids are unbounded, so 64-bit overflow of `Long` is not modelled.
- `UserModel.Violations`: lengths are counted in characters, not Java's UTF-16 code units.
- `@RequestParam` conversion: a `number` that is not a valid 32-bit int is rejected by the framework before the handler runs. The model takes the parameter as `int32`.
- Attribute values in the Model are snapshots of the records, not references to the beans.
- User getters are plain field reads and have no members of their own.
- `@Transactional`, HTTP status codes, view rendering, dependency injection, and concurrent sessions and requests.
- A session after `invalidate()` is modelled as a session with no `user`. The servlet container's replacement of the session object is not modelled.
