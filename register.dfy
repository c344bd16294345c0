/** The registration page's POST handler: validate, check that the user name is
    free, hash the password, insert the user, leave a flash message and redirect
    to the login page. Post states as a function what one submission does;
    RegisterController.OnPost performs it step by step against the context. */
module Register {
  import opened Wrappers
  import opened Validation
  import opened Data

  const LoginPage := "/login"
  const MessageKey := "Message"
  const SuccessMessage := "You were successfully registered and can login now"
  const TakenMessage := "The username is already taken"

  /** What the handler returns: the page again, rendered with its model state,
      or a redirect to another page. */
  datatype Outcome = Page(errors: ModelStateDictionary) | RedirectToPage(pageName: string)

  /** Everything one submission produces: the outcome, the final model state,
      the user table afterwards, the flash message written (if any) and the
      context operations issued, in order. */
  datatype Response = Response(
    outcome: Outcome,
    modelState: ModelStateDictionary,
    users: seq<User>,
    message: Option<string>,
    operations: seq<Operation>)

  /** IPasswordHasher<User>.HashPassword(user, password). */
  type PasswordHasher = (User, string) -> string

  /** The record built for a new user: the name and email the properties hold,
      and the hasher's output for a draft that still holds the plaintext password. */
  function NewUser(f: Form, hasher: PasswordHasher): (u: User)
    requires f.Username.Some? && f.Email.Some? && f.Password.Some?
    ensures u.UserName == f.Username.value && u.Email == f.Email.value
    ensures u.PasswordHash == hasher(User(f.Username.value, f.Email.value, f.Password.value), f.Password.value)
  {
    var draft := User(f.Username.value, f.Email.value, f.Password.value);
    draft.(PasswordHash := hasher(draft, draft.PasswordHash))
  }

  /** One submission of the registration form, after binding, against the user
      table. Existing rows are never changed and at most one is added; the
      response redirects, and carries the flash message, exactly when a row was
      added. */
  function Post(b: Binding, emailSyntax: string -> bool, users: seq<User>, hasher: PasswordHasher): (r: Response)
    requires Coherent(b)
    ensures users <= r.users && |r.users| <= |users| + 1
    ensures r.outcome.RedirectToPage? <==> |r.users| == |users| + 1
    ensures r.message.Some? <==> r.outcome.RedirectToPage?
  {
    var ms := Validate(b, emailSyntax);
    if !IsValid(ms) then
      Response(Page(ms), ms, users, None, [])
    else
      var name := b.properties.Username.value;
      if FirstOrDefault(users, name).Some? then
        var taken := AddModelError(ms, UsernameKey, AddedError(TakenMessage));
        Response(Page(taken), taken, users, None, [Query(name)])
      else
        var u := NewUser(b.properties, hasher);
        Response(RedirectToPage(LoginPage), ms, users + [u], Some(SuccessMessage), [Query(name), Stage(u), Commit])
  }

  /** A submission that fails validation redisplays the page with the validation
      errors, issues no context operation, adds no row and writes no flash message. */
  lemma InvalidFormIsRedisplayed(b: Binding, emailSyntax: string -> bool, users: seq<User>, hasher: PasswordHasher)
    requires Coherent(b)
    requires !Acceptable(b.validated, emailSyntax)
    ensures var r := Post(b, emailSyntax, users, hasher);
      r.outcome == Page(Validate(b, emailSyntax)) && r.modelState == Validate(b, emailSyntax) &&
      r.users == users && r.message == None && r.operations == []
  {
  }

  /** A confirmation that differs from the Password property always fails,
      whatever the other fields hold: the page reports the mismatch on password2
      and nothing is stored. */
  lemma MismatchIsRejected(b: Binding, emailSyntax: string -> bool, users: seq<User>, hasher: PasswordHasher)
    requires Coherent(b)
    requires b.validated.password2 != b.properties.Password
    ensures var r := Post(b, emailSyntax, users, hasher);
      r.outcome.Page? && CompareError(PasswordKey, MismatchMessage) in ErrorsOf(r.outcome.errors, Password2Key) &&
      r.users == users && r.operations == []
  {
    Password2Rules(b, emailSyntax);
  }

  /** A valid submission whose user name is taken queries the store once,
      reports "The username is already taken" on Username alone and adds no row. */
  lemma TakenNameIsRejected(b: Binding, emailSyntax: string -> bool, users: seq<User>, hasher: PasswordHasher)
    requires Coherent(b)
    requires Acceptable(b.validated, emailSyntax)
    requires HasUserName(users, b.validated.Username.value)
    ensures var r := Post(b, emailSyntax, users, hasher);
      var ms := Validate(b, emailSyntax);
      r.outcome == Page(r.modelState) &&
      ErrorsOf(r.modelState, UsernameKey) == {AddedError(TakenMessage)} &&
      (forall k :: k != UsernameKey ==> ErrorsOf(r.modelState, k) == ErrorsOf(ms, k)) &&
      r.users == users && r.message == None && r.operations == [Query(b.validated.Username.value)]
  {
  }

  /** A valid submission with a free user name appends exactly the new record,
      after the query, one staged insert and one commit, sets the success flash
      message and redirects to the login page. */
  lemma FreeNameIsRegistered(b: Binding, emailSyntax: string -> bool, users: seq<User>, hasher: PasswordHasher)
    requires Coherent(b)
    requires Acceptable(b.validated, emailSyntax)
    requires !HasUserName(users, b.validated.Username.value)
    ensures var r := Post(b, emailSyntax, users, hasher);
      var u := NewUser(b.validated, hasher);
      r.outcome == RedirectToPage(LoginPage) && r.message == Some(SuccessMessage) &&
      r.users == users + [u] && r.operations == [Query(b.validated.Username.value), Stage(u), Commit] &&
      IsValid(r.modelState)
  {
  }

  /** No submission breaks the unique constraint on user names. */
  lemma PostKeepsUserNamesUnique(b: Binding, emailSyntax: string -> bool, users: seq<User>, hasher: PasswordHasher)
    requires Coherent(b)
    requires UniqueUserNames(users)
    ensures UniqueUserNames(Post(b, emailSyntax, users, hasher).users)
  {
    if Acceptable(b.validated, emailSyntax) && !HasUserName(users, b.validated.Username.value) {
      AppendFreshNameKeepsUnique(users, NewUser(b.properties, hasher));
    }
  }

  /** After a successful registration, looking the submitted user name up again
      returns the new record, with the name and email submitted. */
  lemma RegisteredUserIsFound(b: Binding, emailSyntax: string -> bool, users: seq<User>, hasher: PasswordHasher)
    requires Coherent(b)
    requires Post(b, emailSyntax, users, hasher).outcome.RedirectToPage?
    ensures var r := Post(b, emailSyntax, users, hasher);
      b.properties.Username.Some? && b.properties.Email.Some? &&
      FirstOrDefault(r.users, b.properties.Username.value) == Some(r.users[|users|]) &&
      r.users[|users|].UserName == b.properties.Username.value && r.users[|users|].Email == b.properties.Email.value
  {
    var r := Post(b, emailSyntax, users, hasher);
    var name := b.properties.Username.value;
    assert r.users[|users|].UserName == name;
    assert HasUserName(r.users, name);
  }

  /** The example of a fresh registration: a request for "bob" with matching
      passwords, whatever the page held before binding. */
  lemma BobRegisters(current: Form, emailSyntax: string -> bool, users: seq<User>, hasher: PasswordHasher)
    requires emailSyntax("bob@example.com")
    requires !HasUserName(users, "bob")
    ensures var submitted: Request := Form(Some("bob"), Some("bob@example.com"), Some("secret12"), Some("secret12"));
      var r := Post(Bind(submitted, current), emailSyntax, users, hasher);
      r.outcome == RedirectToPage("/login") && r.message == Some(SuccessMessage) &&
      r.users == users + [User("bob", "bob@example.com", hasher(User("bob", "bob@example.com", "secret12"), "secret12"))]
  {
    var submitted: Request := Form(Some("bob"), Some("bob@example.com"), Some("secret12"), Some("secret12"));
    assert !IsWhiteSpace("bob"[0]);
    assert !IsWhiteSpace("bob@example.com"[0]);
    assert !IsWhiteSpace("secret12"[0]);
    var b := Bind(submitted, current);
    assert b.validated == submitted && b.properties == submitted;
    assert Acceptable(b.validated, emailSyntax);
    FreeNameIsRegistered(b, emailSyntax, users, hasher);
  }

  /** The example of a request with an empty user name: it is bound as null,
      the page is redisplayed with "You have to enter a username" and the table
      is left alone. */
  lemma EmptyUsernameIsRejected(submitted: Request, current: Form, emailSyntax: string -> bool, users: seq<User>, hasher: PasswordHasher)
    requires submitted.Username == Some("")
    ensures var r := Post(Bind(submitted, current), emailSyntax, users, hasher);
      r.outcome.Page? && UsernameRequiredMessage in Messages(ErrorsOf(r.outcome.errors, UsernameKey)) &&
      r.users == users && r.operations == []
  {
    UsernameRules(Bind(submitted, current), emailSyntax);
  }

  /** The registration page model: the bound properties, the model state the
      framework filled in, the TempData dictionary, and the injected context and
      password hasher. */
  class RegisterController {
    const context: MiniTwitContext
    const passwordHasher: PasswordHasher
    /** The syntax check behind [EmailAddress], library code supplied from outside. */
    const emailSyntax: string -> bool

    var Username: FieldValue
    var Email: FieldValue
    var Password: FieldValue
    var password2: FieldValue
    /** The values model validation saw; they differ from the properties only
        for fields the request did not carry. */
    ghost var ValidatedValues: Form
    var ModelState: ModelStateDictionary
    var TempData: map<string, string>

    /** The page is created per request with empty bound properties. */
    constructor (context: MiniTwitContext, passwordHasher: PasswordHasher, emailSyntax: string -> bool)
      ensures this.context == context && this.passwordHasher == passwordHasher && this.emailSyntax == emailSyntax
      ensures Username == Some("") && Email == Some("") && Password == Some("") && password2 == Some("")
      ensures ModelState == map[] && TempData == map[]
    {
      this.context := context;
      this.passwordHasher := passwordHasher;
      this.emailSyntax := emailSyntax;
      Username := Some("");
      Password := Some("");
      password2 := Some("");
      Email := Some("");
      ValidatedValues := Form(Some(""), Some(""), Some(""), Some(""));
      ModelState := map[];
      TempData := map[];
    }

    function BoundForm(): Form
      reads this
    {
      Form(Username, Email, Password, password2)
    }

    /** The properties together with the values the framework validated for them. */
    ghost function CurrentBinding(): Binding
      reads this
    {
      Binding(BoundForm(), ValidatedValues)
    }

    /** The model state is the result of validating a coherent binding. */
    ghost predicate Validated()
      reads this
    {
      Coherent(CurrentBinding()) && ModelState == Validate(CurrentBinding(), emailSyntax)
    }

    /** What the framework does before calling the handler: bind the request's
        fields to the properties (blank values becoming null, absent ones
        leaving the property as it was) and validate them. */
    method BindProperties(submitted: Request)
      modifies this`Username, this`Email, this`Password, this`password2, this`ValidatedValues, this`ModelState
      ensures CurrentBinding() == Bind(submitted, old(BoundForm())) && Validated()
    {
      var b := Bind(submitted, BoundForm());
      Username, Email, Password, password2 := b.properties.Username, b.properties.Email, b.properties.Password, b.properties.password2;
      ValidatedValues := b.validated;
      ModelState := Validate(b, emailSyntax);
    }

    /** OnPost: does exactly what Post says for the bound form and the committed
        rows, and keeps the context's unique constraint. */
    method OnPost() returns (outcome: Outcome)
      requires Validated() && context.Valid()
      modifies this`ModelState, this`TempData, context
      ensures context.Valid()
      ensures var r := Post(CurrentBinding(), emailSyntax, old(context.Users), passwordHasher);
        outcome == r.outcome && ModelState == r.modelState && context.Users == r.users &&
        context.Log == old(context.Log) + r.operations &&
        TempData == (if r.message.Some? then old(TempData)[MessageKey := r.message.value] else old(TempData))
    {
      PostKeepsUserNamesUnique(CurrentBinding(), emailSyntax, context.Users, passwordHasher);
      if !IsValid(ModelState) {
        return Page(ModelState);
      }

      var user := context.FirstOrDefaultAsync(Username.value);
      if user.Some? {
        ModelState := AddModelError(ModelState, UsernameKey, AddedError(TakenMessage));
        return Page(ModelState);
      }

      var newUser := User(Username.value, Email.value, Password.value);
      var hashedPassword := passwordHasher(newUser, newUser.PasswordHash);
      newUser := newUser.(PasswordHash := hashedPassword);

      context.AddAsync(newUser);
      context.SaveChangesAsync();

      TempData := TempData[MessageKey := SuccessMessage];
      return RedirectToPage(LoginPage);
    }
  }
}
