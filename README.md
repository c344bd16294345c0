# MiniTwit registration, modelled in Dafny

MiniTwit is a small microblogging web application. Its one piece of real
logic is the registration page: `RegisterController.OnPost` and the
validation attributes on the page's four bound properties (`Username`,
`Email`, `Password`, `password2`). A submission is validated. An invalid one
redisplays the page with per-property errors. A valid one looks the user name
up in the `Users` table. A taken name redisplays the page with "The username
is already taken". A free name gets a new `User` row whose `PasswordHash` is
the password hasher's output; the row is staged and committed, the flash
message "You were successfully registered and can login now" is written to
`TempData["Message"]`, and the handler redirects to `/login`.

The project has four modules:

- `Wrappers` (`wrappers.dfy`): `Option`, used for null property values, empty query results and fields a request does not carry.
- `Validation` (`validation.dfy`): model binding (`Bind`), which turns an
  empty or white-space-only submitted value into null (the string binder's
  `ConvertEmptyStringToNull` default) and leaves a property the request does
  not carry as it was, while validating null for it; the attributes `[Required]`, `[StringLength]`,
  `[EmailAddress]` and `[Compare]` with the framework's meaning, and the
  model state they produce (`Validate`). Every attribute of a property is
  evaluated and every failing one adds its own error. The framework keeps a
  property's errors as an ordered list; the model keeps them as a set and
  does not keep their order, which only rendering depends on. Lengths are counted in UTF-16 code units, as .NET's
  `String.Length` counts them.
- `Data` (`data.dfy`): the `User` row, the unique-name constraint, the
  `FirstOrDefault` lookup and a `MiniTwitContext` class. The class holds the
  committed rows, the rows staged by `AddAsync` and a ghost log of context
  operations, in order, so that "no store query" can be stated. Of the
  logged operations, the query and the commit reach the database; staging
  only starts tracking the row in the context.
- `Register` (`register.dfy`): `Post`, a function stating what one
  submission does to the outcome, the model state, the table, the flash
  message and the operation log. The `RegisterController` class has the bound
  properties, `ModelState` and `TempData` as fields, and its `OnPost`
  method is proved to do exactly what `Post` says. The lemmas about `Post`
  state the handler's properties.

Things supplied from outside become parameters. The password hasher is a
function value `(User, string) -> string` held by the controller. The
`[EmailAddress]` syntax check is a function value `string -> bool`. Neither
is interpreted.

The model follows the code on these points, which are easy to misread:

- Validation reports every failing attribute of a field, not only the first one.
  For example, an `Email` longer than 32 code units that also fails the syntax
  check gets both the length error and the syntax error.
- A blank submitted value is bound as null before validation, so a blank
  `Username`, `Email` or `Password` gets only the `[Required]` error (the
  length and syntax rules pass on null). A blank `password2` also gets the
  mismatch error unless the `Password` property is null too, so two blank
  passwords are not a mismatch, but a blank confirmation of a non-blank
  password is.
- `[Compare]` on `password2` reads the `Password` property itself. When the
  request has no `Password`, that property keeps the empty string the page
  starts with, so a blank or absent `password2`, validated as null, is
  reported as a mismatch.
- The hasher is called with a draft user whose `PasswordHash` still holds the
  plaintext (lines 64-71). The row that is stored holds the hash.
- The flash message is written to `TempData`. It is not part of the redirect outcome.
- A commit failure is not handled by the code, and the model has none.

## Model

| member | source | states |
|---|---|---|
| `Validation.Utf16Length` | MiniTwitInfra/Controllers/RegisterController.cs:29 | the length `[StringLength]` compares lies between the number of characters and twice that number |
| `Validation.Utf16LengthOfBmp` | MiniTwitInfra/Controllers/RegisterController.cs:29 | for a string without supplementary characters, that length is the number of characters |
| `Validation.AddModelError` | MiniTwitInfra/Controllers/RegisterController.cs:60 | adds one error to one key, leaves every other key's errors unchanged, and makes the state invalid |
| `Validation.BindValue` | MiniTwitInfra/Controllers/RegisterController.cs:28-48 | the validated value is null exactly when the request's value is absent, empty or white space only, and is the request's value otherwise |
| `Validation.BindProperty` | MiniTwitInfra/Controllers/RegisterController.cs:22-48 | a property the request does not carry keeps its value (the empty string the constructor set); a carried one gets the bound value |
| `Validation.Bind` | MiniTwitInfra/Controllers/RegisterController.cs:22-48 | binding is coherent (each property holds any non-null value validated for it); the validated values and the property values are those of the two rules above, field by field |
| `Validation.BindingKeepsAcceptance` | MiniTwitInfra/Controllers/RegisterController.cs:28-48 | binding never changes whether a request meets the constraint table |
| `Validation.BlankEmailReportsOnlyRequired` | MiniTwitInfra/Controllers/RegisterController.cs:33-37 | a blank or absent `Email` gets exactly the required error "You have to enter a valid email address" |
| `Validation.BlankPasswordsAreNoMismatch` | MiniTwitInfra/Controllers/RegisterController.cs:39-48 | when both passwords are submitted blank, `password2` gets exactly "Please confirm your password" and no mismatch error |
| `Validation.BlankConfirmationIsMismatch` | MiniTwitInfra/Controllers/RegisterController.cs:44-48 | a blank `password2` with a non-blank `Password` gets exactly two errors: "Please confirm your password" and "The two passwords do not match" |
| `Validation.AbsentPasswordIsMismatch` | MiniTwitInfra/Controllers/RegisterController.cs:22-48 | when the request has no `Password` and `password2` is blank or absent, `password2` gets the mismatch error, because the `Password` property keeps its non-null value |
| `Validation.Validate` | MiniTwitInfra/Controllers/RegisterController.cs:28-48 | gives an entry for each of the four properties; for a coherent binding the state is valid exactly when every validated field is present, not blank and within its bound, the email passes the syntax check and `password2` equals `Password` |
| `Validation.UsernameRules` | MiniTwitInfra/Controllers/RegisterController.cs:28-31 | `Username` has errors exactly when it is null, blank or longer than 16; "You have to enter a username" is reported exactly when it is null or blank |
| `Validation.EmailRules` | MiniTwitInfra/Controllers/RegisterController.cs:33-37 | `Email` has errors exactly when it is null, blank, longer than 32 or fails the syntax check; "You have to enter a valid email address" is reported exactly for the required and the syntax failures |
| `Validation.PasswordRules` | MiniTwitInfra/Controllers/RegisterController.cs:39-42 | `Password` has errors exactly when it is null, blank or longer than 32; "You have to enter a password" is reported exactly when it is null or blank |
| `Validation.Password2Rules` | MiniTwitInfra/Controllers/RegisterController.cs:44-48 | `password2` has errors exactly when it is null, blank, longer than 32 or different from the `Password` property; "Please confirm your password" is reported exactly when it is null or blank, and "The two passwords do not match" exactly when the two differ |
| `Data.FirstIndexWithUserName` | MiniTwitInfra/Controllers/RegisterController.cs:57 | returns nothing exactly when no row has the name; otherwise returns the first row whose name equals it exactly |
| `Data.FirstOrDefault` | MiniTwitInfra/Controllers/RegisterController.cs:57 | returns nothing exactly when no row has the name; otherwise returns a row of the table with that name |
| `Data.LookupFindsTheRow` | MiniTwitInfra/Controllers/RegisterController.cs:57 | while names are unique, looking up a row's name returns that row |
| `Data.AppendFreshNameKeepsUnique` | MiniTwitInfra/Controllers/RegisterController.cs:57-76 | appending a row whose name is not in the table keeps names unique |
| `Data.MiniTwitContext.constructor` | MiniTwit/Data/MiniTwitContext.cs:12 | a context over a table with unique names is valid, nothing staged, and its operation log is empty |
| `Data.MiniTwitContext.FirstOrDefaultAsync` | MiniTwitInfra/Controllers/RegisterController.cs:57 | returns the lookup over the committed rows, changes no row and logs one query |
| `Data.MiniTwitContext.AddAsync` | MiniTwitInfra/Controllers/RegisterController.cs:75 | stages the row after those already staged and logs it; committed rows are unchanged |
| `Data.MiniTwitContext.SaveChangesAsync` | MiniTwitInfra/Controllers/RegisterController.cs:76 | appends the staged rows to the committed ones in order, empties the staging area and logs a commit |
| `Register.NewUser` | MiniTwitInfra/Controllers/RegisterController.cs:64-73 | the new row has the submitted name and email, and its hash is the hasher's output for a draft row holding the plaintext password |
| `Register.Post` | MiniTwitInfra/Controllers/RegisterController.cs:50-80 | existing rows are never changed and at most one row is added; the outcome is a redirect, and a flash message is written, exactly when a row was added |
| `Register.InvalidFormIsRedisplayed` | MiniTwitInfra/Controllers/RegisterController.cs:52-55 | an invalid submission redisplays the page with the validation errors, issues no context operation, adds no row and writes no flash message |
| `Register.MismatchIsRejected` | MiniTwitInfra/Controllers/RegisterController.cs:44-55 | a `password2` different from the `Password` property always redisplays the page with the mismatch error on `password2` and leaves the table and the store untouched, whatever the other fields hold |
| `Register.TakenNameIsRejected` | MiniTwitInfra/Controllers/RegisterController.cs:57-62 | a valid submission with a taken name issues exactly one query, reports only "The username is already taken" on `Username`, leaves every other property's errors as they were, and adds no row |
| `Register.FreeNameIsRegistered` | MiniTwitInfra/Controllers/RegisterController.cs:64-79 | a valid submission with a free name appends exactly the new row after a query, a staged insert and a commit, sets the success message and redirects to `/login` |
| `Register.PostKeepsUserNamesUnique` | MiniTwitInfra/Controllers/RegisterController.cs:57-76 | no submission makes two rows share a user name |
| `Register.RegisteredUserIsFound` | MiniTwitInfra/Controllers/RegisterController.cs:64-76 | after a successful registration, looking the name up again returns the new row, with the submitted name and email |
| `Register.BobRegisters` | MiniTwitInfra/Controllers/RegisterController.cs:50-80 | "bob" with email "bob@example.com" and matching passwords "secret12", not yet in the table, is redirected to `/login` with the success message set, and stored with the hash of "secret12" |
| `Register.EmptyUsernameIsRejected` | MiniTwitInfra/Controllers/RegisterController.cs:28-55 | a request with an empty user name, bound as null, redisplays the page with "You have to enter a username" and leaves the table and the store untouched |
| `Register.RegisterController.constructor` | MiniTwitInfra/Controllers/RegisterController.cs:17-26 | keeps the injected context and hasher and starts every bound property as the empty string |
| `Register.RegisterController.BindProperties` | MiniTwitInfra/Controllers/RegisterController.cs:28-48 | binds the request into the properties and the validated values as `Bind` says, from the properties the page held, and leaves the model state equal to their validation |
| `Register.RegisterController.OnPost` | MiniTwitInfra/Controllers/RegisterController.cs:50-80 | returns the outcome `Post` gives for the current binding and leaves the model state, the table, the operation log and `TempData["Message"]` as `Post` says; the unique-name constraint still holds afterwards |

## Left out

- Asynchronous execution: `FirstOrDefaultAsync`, `AddAsync` and `SaveChangesAsync` are sequential reads and writes of the in-memory table.
- Store failures, of the query or of the commit: the code does not handle them, their exceptions propagate, and the model has none.
- The race between concurrent registrations of the same name. That is concurrency, and the database's unique constraint resolves it.
- The user-name comparison is exact string equality. The case sensitivity of the real comparison depends on the database collation.
- The password algorithm behind `IPasswordHasher<User>`: it is a function parameter and is not interpreted. Its random salt is not modelled, because the model takes the hasher as a fixed function. "The stored hash differs from the plaintext" is not stated, because nothing in the code ensures it.
- The internals of the `[EmailAddress]` syntax check: it is library code, and here a function parameter.
- The framework's default messages for `[StringLength]` failures: the code does not customise them, so only the bound is kept.
- Page rendering, how `TempData` reaches the next page, `RedirectToPage` routing and `[IgnoreAntiforgeryToken]`.
- The source's `MiniTwitInfra.Models.DataModels.User` class is not among the files, so its key column and any other properties it has are not modelled.
- Lone UTF-16 surrogates: a .NET string may hold them, a Dafny string cannot.
- The context the handler uses is `MiniTwitInfra.Data.MiniTwitContext` (imported at RegisterController.cs:6), and its source is not part of this model. `Data.MiniTwitContext` is built from the `Users` collection of the similar `MiniTwit.Data` context (MiniTwit/Data/MiniTwitContext.cs:12); that file's `Twits` and `Followers` are not used by the registration handler.
- Model binding is reduced to the string binder: blank values become null, and a field the request does not carry leaves its property unchanged and is validated as null, as the framework does for a required property. Other value providers, binding errors and type conversion are not modelled.
