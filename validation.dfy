/** The data-annotation attributes declared on the registration form's bound
    properties (Username, Email, Password, password2), and the framework step
    that evaluates them into a model state before the POST handler runs. */
module Validation {
  import opened Wrappers

  /** A bound string property after model binding; None is a null value. */
  type FieldValue = Option<string>

  /** Four values, one per property of the registration page: the values the
      properties hold, or the values validated for them. None is null. */
  datatype Form = Form(Username: FieldValue, Email: FieldValue, Password: FieldValue, password2: FieldValue)

  /** The four fields of a submitted request. Here None is a field the request
      does not carry, and Some("") a field carried with an empty value. */
  type Request = Form

  // Model-state keys: the names of the bound properties.
  const UsernameKey := "Username"
  const EmailKey := "Email"
  const PasswordKey := "Password"
  const Password2Key := "password2"

  // The StringLength bounds.
  const UsernameMaxLength: nat := 16
  const EmailMaxLength: nat := 32
  const PasswordMaxLength: nat := 32

  // The custom error messages.
  const UsernameRequiredMessage := "You have to enter a username"
  const EmailMessage := "You have to enter a valid email address"
  const PasswordRequiredMessage := "You have to enter a password"
  const Password2RequiredMessage := "Please confirm your password"
  const MismatchMessage := "The two passwords do not match"

  /** One entry of a field's error list, tagged by the rule that produced it.
      StringLength carries the framework's default text, which is not modelled,
      so only its bound is kept. */
  datatype ModelError =
    | RequiredError(message: string)
    | StringLengthError(maximumLength: nat)
    | EmailAddressError(message: string)
    | CompareError(otherProperty: string, message: string)
    | AddedError(message: string)

  /** The validation state: property name to the errors recorded for it. */
  type ModelStateDictionary = map<string, set<ModelError>>

  /** The texts a page shows for a set of errors (the StringLength texts are left out). */
  function Messages(errors: set<ModelError>): set<string> {
    set e | e in errors && !e.StringLengthError? :: e.message
  }

  function ErrorsOf(ms: ModelStateDictionary, key: string): set<ModelError> {
    if key in ms then ms[key] else {}
  }

  /** ModelState.IsValid: no property has an error. */
  predicate IsValid(ms: ModelStateDictionary) {
    forall key :: key in ms ==> ms[key] == {}
  }

  /** ModelState.AddModelError: records one more error for one key, touching no other key. */
  function AddModelError(ms: ModelStateDictionary, key: string, error: ModelError): (r: ModelStateDictionary)
    ensures ErrorsOf(r, key) == ErrorsOf(ms, key) + {error}
    ensures forall k :: k != key ==> ErrorsOf(r, k) == ErrorsOf(ms, k)
    ensures !IsValid(r)
  {
    ms[key := ErrorsOf(ms, key) + {error}]
  }

  /** char.IsWhiteSpace: the Unicode space, line and paragraph separators,
      U+0009 to U+000D and U+0085. */
  predicate IsWhiteSpace(c: char) {
    ('\t' <= c <= '\r') || c == ' ' || c == '\U{0085}' || c == '\U{00A0}' || c == '\U{1680}' ||
    ('\U{2000}' <= c <= '\U{200A}') || c == '\U{2028}' || c == '\U{2029}' ||
    c == '\U{202F}' || c == '\U{205F}' || c == '\U{3000}'
  }

  /** string.IsNullOrWhiteSpace. */
  predicate IsNullOrWhiteSpace(v: FieldValue) {
    v.None? || forall i :: 0 <= i < |v.value| ==> IsWhiteSpace(v.value[i])
  }

  /** String.Length of the .NET string holding s: UTF-16 code units, so a
      character outside the Basic Multilingual Plane counts twice. */
  function Utf16Length(s: string): (n: nat)
    ensures |s| <= n <= 2 * |s|
  {
    if s == [] then 0 else (if s[0] as int > 0xFFFF then 2 else 1) + Utf16Length(s[1..])
  }

  /** Without supplementary characters the StringLength bound counts characters. */
  lemma {:induction false} Utf16LengthOfBmp(s: string)
    requires forall i :: 0 <= i < |s| ==> s[i] as int <= 0xFFFF
    ensures Utf16Length(s) == |s|
  {
    if s != [] {
      assert forall i :: 0 <= i < |s[1..]| ==> s[1..][i] == s[i + 1];
      Utf16LengthOfBmp(s[1..]);
    }
  }

  // The attributes' IsValid tests, as the framework defines them.

  /** [Required]: null fails, and so does a string that is empty or only white space. */
  predicate RequiredValid(v: FieldValue) {
    !IsNullOrWhiteSpace(v)
  }

  /** [StringLength(max)]: null passes; otherwise at most max code units. */
  predicate StringLengthValid(v: FieldValue, max: nat) {
    v.None? || Utf16Length(v.value) <= max
  }

  /** [EmailAddress]: null passes; otherwise the library's syntax check decides. */
  predicate EmailAddressValid(v: FieldValue, emailSyntax: string -> bool) {
    v.None? || emailSyntax(v.value)
  }

  /** [Compare(other)]: Equals(value, other), under which two nulls are equal. */
  predicate CompareValid(v: FieldValue, other: FieldValue) {
    v == other
  }

  // Every attribute of a property is evaluated, and each failing one adds its error.

  function UsernameErrors(v: FieldValue): set<ModelError> {
    (if StringLengthValid(v, UsernameMaxLength) then {} else {StringLengthError(UsernameMaxLength)}) +
    (if RequiredValid(v) then {} else {RequiredError(UsernameRequiredMessage)})
  }

  function EmailErrors(v: FieldValue, emailSyntax: string -> bool): set<ModelError> {
    (if RequiredValid(v) then {} else {RequiredError(EmailMessage)}) +
    (if StringLengthValid(v, EmailMaxLength) then {} else {StringLengthError(EmailMaxLength)}) +
    (if EmailAddressValid(v, emailSyntax) then {} else {EmailAddressError(EmailMessage)})
  }

  function PasswordErrors(v: FieldValue): set<ModelError> {
    (if StringLengthValid(v, PasswordMaxLength) then {} else {StringLengthError(PasswordMaxLength)}) +
    (if RequiredValid(v) then {} else {RequiredError(PasswordRequiredMessage)})
  }

  function Password2Errors(v: FieldValue, password: FieldValue): set<ModelError> {
    (if RequiredValid(v) then {} else {RequiredError(Password2RequiredMessage)}) +
    (if StringLengthValid(v, PasswordMaxLength) then {} else {StringLengthError(PasswordMaxLength)}) +
    (if CompareValid(v, password) then {} else {CompareError(PasswordKey, MismatchMessage)})
  }

  /** A field that holds a string with at least one non-white-space character
      and at most max UTF-16 code units. */
  predicate FilledWithin(v: FieldValue, max: nat) {
    v.Some? && (exists i :: 0 <= i < |v.value| && !IsWhiteSpace(v.value[i])) && Utf16Length(v.value) <= max
  }

  /** The constraint table a submission must meet, stated directly: every field
      present and not blank, within its bound, the email well formed and the
      confirmation equal to the password. */
  predicate Acceptable(f: Form, emailSyntax: string -> bool) {
    FilledWithin(f.Username, UsernameMaxLength) &&
    FilledWithin(f.Email, EmailMaxLength) && emailSyntax(f.Email.value) &&
    FilledWithin(f.Password, PasswordMaxLength) &&
    FilledWithin(f.password2, PasswordMaxLength) && f.password2.value == f.Password.value
  }

  /** The string binder's default (ConvertEmptyStringToNull): a submitted value
      that is empty or only white space is bound as null; any other value is
      bound as submitted. */
  function BindValue(submitted: Option<string>): (v: FieldValue)
    ensures v.None? <==> IsNullOrWhiteSpace(submitted)
    ensures v.Some? ==> v == submitted
  {
    if IsNullOrWhiteSpace(submitted) then None else submitted
  }

  /** What model binding leaves behind: the value each property holds, and the
      value validated for it. They differ only for a field the request did not
      carry: the property keeps what it held, while null is validated. */
  datatype Binding = Binding(properties: Form, validated: Form)

  /** A property holds whatever non-null value was validated for it. */
  predicate Coherent(b: Binding) {
    (b.validated.Username.Some? ==> b.properties.Username == b.validated.Username) &&
    (b.validated.Email.Some? ==> b.properties.Email == b.validated.Email) &&
    (b.validated.Password.Some? ==> b.properties.Password == b.validated.Password) &&
    (b.validated.password2.Some? ==> b.properties.password2 == b.validated.password2)
  }

  /** Binding one field: a field the request does not carry (None) leaves the
      property as it was; a carried one is bound through BindValue. */
  function BindProperty(submitted: Option<string>, current: FieldValue): (v: FieldValue)
    ensures submitted.None? ==> v == current
    ensures submitted.Some? ==> v == BindValue(submitted)
  {
    if submitted.None? then current else BindValue(submitted)
  }

  /** Model binding of the four properties from a request (None: the field is
      absent) into a page whose properties hold current. */
  function Bind(submitted: Request, current: Form): (b: Binding)
    ensures Coherent(b)
    ensures b.validated == Form(BindValue(submitted.Username), BindValue(submitted.Email),
                                BindValue(submitted.Password), BindValue(submitted.password2))
    ensures b.properties == Form(BindProperty(submitted.Username, current.Username),
                                 BindProperty(submitted.Email, current.Email),
                                 BindProperty(submitted.Password, current.Password),
                                 BindProperty(submitted.password2, current.password2))
  {
    Binding(
      Form(BindProperty(submitted.Username, current.Username), BindProperty(submitted.Email, current.Email),
           BindProperty(submitted.Password, current.Password), BindProperty(submitted.password2, current.password2)),
      Form(BindValue(submitted.Username), BindValue(submitted.Email),
           BindValue(submitted.Password), BindValue(submitted.password2)))
  }

  /** Model validation after binding: one entry per property. Each attribute
      checks the validated value, except that [Compare] on password2 reads the
      Password property itself. For a coherent binding the state is valid
      exactly when the validated values meet the constraint table. */
  function Validate(b: Binding, emailSyntax: string -> bool): (ms: ModelStateDictionary)
    ensures ms.Keys == {UsernameKey, EmailKey, PasswordKey, Password2Key}
    ensures Coherent(b) ==> (IsValid(ms) <==> Acceptable(b.validated, emailSyntax))
  {
    map[UsernameKey := UsernameErrors(b.validated.Username),
        EmailKey := EmailErrors(b.validated.Email, emailSyntax),
        PasswordKey := PasswordErrors(b.validated.Password),
        Password2Key := Password2Errors(b.validated.password2, b.properties.Password)]
  }

  /** Binding never changes whether a request meets the constraint table. */
  lemma BindingKeepsAcceptance(submitted: Request, current: Form, emailSyntax: string -> bool)
    ensures Acceptable(Bind(submitted, current).validated, emailSyntax) <==> Acceptable(submitted, emailSyntax)
  {
  }

  /** A blank or absent Email is validated as null, so only [Required] reports
      it: the length and syntax rules pass on null. */
  lemma BlankEmailReportsOnlyRequired(submitted: Request, current: Form, emailSyntax: string -> bool)
    requires IsNullOrWhiteSpace(submitted.Email)
    ensures ErrorsOf(Validate(Bind(submitted, current), emailSyntax), EmailKey) == {RequiredError(EmailMessage)}
  {
  }

  /** Two blank submitted passwords both bind to null, which [Compare] takes as
      equal: password2 reports only that it is required, not a mismatch. */
  lemma BlankPasswordsAreNoMismatch(submitted: Request, current: Form, emailSyntax: string -> bool)
    requires submitted.Password.Some? && submitted.password2.Some?
    requires IsNullOrWhiteSpace(submitted.Password) && IsNullOrWhiteSpace(submitted.password2)
    ensures ErrorsOf(Validate(Bind(submitted, current), emailSyntax), Password2Key) == {RequiredError(Password2RequiredMessage)}
  {
  }

  /** A blank confirmation is validated as null, which differs from a carried
      non-blank Password: password2 reports both that it is required and the
      mismatch. */
  lemma BlankConfirmationIsMismatch(submitted: Request, current: Form, emailSyntax: string -> bool)
    requires !IsNullOrWhiteSpace(submitted.Password) && IsNullOrWhiteSpace(submitted.password2)
    ensures ErrorsOf(Validate(Bind(submitted, current), emailSyntax), Password2Key) ==
            {RequiredError(Password2RequiredMessage), CompareError(PasswordKey, MismatchMessage)}
  {
  }

  /** An absent Password leaves the property at a non-null value (the page
      starts it as the empty string), so a blank or absent password2, validated
      as null, does not match it. */
  lemma AbsentPasswordIsMismatch(submitted: Request, current: Form, emailSyntax: string -> bool)
    requires submitted.Password.None? && current.Password.Some?
    requires IsNullOrWhiteSpace(submitted.password2)
    ensures CompareError(PasswordKey, MismatchMessage) in ErrorsOf(Validate(Bind(submitted, current), emailSyntax), Password2Key)
  {
  }

  /** Username fails when null, blank or longer than 16; the "enter a username"
      message appears exactly when it is null or blank. */
  lemma UsernameRules(b: Binding, emailSyntax: string -> bool)
    ensures var v, errors := b.validated.Username, ErrorsOf(Validate(b, emailSyntax), UsernameKey);
      (errors != {} <==> IsNullOrWhiteSpace(v) || Utf16Length(v.value) > UsernameMaxLength) &&
      (UsernameRequiredMessage in Messages(errors) <==> IsNullOrWhiteSpace(v))
  {
    var errors := ErrorsOf(Validate(b, emailSyntax), UsernameKey);
    if IsNullOrWhiteSpace(b.validated.Username) {
      assert RequiredError(UsernameRequiredMessage) in errors;
    }
  }

  /** Email fails when null, blank, longer than 32 or not well formed; the
      required rule and the syntax rule both report "enter a valid email address". */
  lemma EmailRules(b: Binding, emailSyntax: string -> bool)
    ensures var v, errors := b.validated.Email, ErrorsOf(Validate(b, emailSyntax), EmailKey);
      (errors != {} <==> IsNullOrWhiteSpace(v) || Utf16Length(v.value) > EmailMaxLength || !emailSyntax(v.value)) &&
      (EmailMessage in Messages(errors) <==> IsNullOrWhiteSpace(v) || !emailSyntax(v.value))
  {
    var errors := ErrorsOf(Validate(b, emailSyntax), EmailKey);
    if IsNullOrWhiteSpace(b.validated.Email) {
      assert RequiredError(EmailMessage) in errors;
    } else if !emailSyntax(b.validated.Email.value) {
      assert EmailAddressError(EmailMessage) in errors;
    }
  }

  /** Password fails when null, blank or longer than 32; "enter a password"
      appears exactly when it is null or blank. */
  lemma PasswordRules(b: Binding, emailSyntax: string -> bool)
    ensures var v, errors := b.validated.Password, ErrorsOf(Validate(b, emailSyntax), PasswordKey);
      (errors != {} <==> IsNullOrWhiteSpace(v) || Utf16Length(v.value) > PasswordMaxLength) &&
      (PasswordRequiredMessage in Messages(errors) <==> IsNullOrWhiteSpace(v))
  {
    var errors := ErrorsOf(Validate(b, emailSyntax), PasswordKey);
    if IsNullOrWhiteSpace(b.validated.Password) {
      assert RequiredError(PasswordRequiredMessage) in errors;
    }
  }

  /** password2 fails when null, blank, longer than 32 or different from the
      Password property; the mismatch error is there exactly when the two
      differ, whatever the other fields hold. */
  lemma Password2Rules(b: Binding, emailSyntax: string -> bool)
    ensures var v, errors := b.validated.password2, ErrorsOf(Validate(b, emailSyntax), Password2Key);
      (errors != {} <==> IsNullOrWhiteSpace(v) || Utf16Length(v.value) > PasswordMaxLength ||
                         v != b.properties.Password) &&
      (Password2RequiredMessage in Messages(errors) <==> IsNullOrWhiteSpace(v)) &&
      (CompareError(PasswordKey, MismatchMessage) in errors <==> v != b.properties.Password)
  {
    var errors := ErrorsOf(Validate(b, emailSyntax), Password2Key);
    if IsNullOrWhiteSpace(b.validated.password2) {
      assert RequiredError(Password2RequiredMessage) in errors;
    }
  }
}
