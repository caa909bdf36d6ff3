/** The registration form of src/components/auth/RegisterForm.tsx: its change handler, its
    validation, and its submission, which calls register on the identity store. */
module RegisterForm {
  import opened Types
  import opened Text
  import opened AuthContext

  const UsernameRequiredMessage: string := "Имя пользователя обязательно"
  const UsernameTooShortMessage: string := "Имя пользователя должно содержать не менее 3 символов"
  const EmailRequiredMessage: string := "Email обязателен"
  const InvalidEmailMessage: string := "Некорректный email"
  const PasswordRequiredMessage: string := "Пароль обязателен"
  const PasswordTooShortMessage: string := "Пароль должен содержать не менее 6 символов"
  const PasswordMismatchMessage: string := "Пароли не совпадают"

  const MinUsernameLength: nat := 3
  const MinPasswordLength: nat := 6

  datatype RegisterFormData = RegisterFormData(username: string, email: string, password: string, confirmPassword: string)

  /** One message per input, and `form` for the error register reports. */
  datatype RegisterErrors = RegisterErrors(username: string, email: string, password: string, confirmPassword: string, form: string)

  const NoErrors: RegisterErrors := RegisterErrors("", "", "", "", "")

  const InitialFormData: RegisterFormData := RegisterFormData("", "", "", "")

  datatype Field = Username | Email | Password | ConfirmPassword

  function FieldValue(form: RegisterFormData, field: Field): string {
    match field
    case Username => form.username
    case Email => form.email
    case Password => form.password
    case ConfirmPassword => form.confirmPassword
  }

  function ErrorOf(errors: RegisterErrors, field: Field): string {
    match field
    case Username => errors.username
    case Email => errors.email
    case Password => errors.password
    case ConfirmPassword => errors.confirmPassword
  }

  /** handleChange: the named input takes the new value and its error is cleared; every other input and
      error, the form error included, stays as it was. */
  function HandleChange(form: RegisterFormData, errors: RegisterErrors, field: Field, value: string)
      : (r: (RegisterFormData, RegisterErrors))
    ensures forall g :: FieldValue(r.0, g) == if g == field then value else FieldValue(form, g)
    ensures forall g :: ErrorOf(r.1, g) == if g == field then "" else ErrorOf(errors, g)
    ensures r.1.form == errors.form
  {
    var newForm := match field
      case Username => form.(username := value)
      case Email => form.(email := value)
      case Password => form.(password := value)
      case ConfirmPassword => form.(confirmPassword := value);
    var newErrors := if ErrorOf(errors, field) == "" then errors else match field
      case Username => errors.(username := "")
      case Email => errors.(email := "")
      case Password => errors.(password := "")
      case ConfirmPassword => errors.(confirmPassword := "");
    (newForm, newErrors)
  }

  /** The username check: not blank, and at least three characters counted with any surrounding white
      space. */
  function UsernameError(username: string): (r: string)
    ensures r == UsernameRequiredMessage <==> IsBlank(username)
    ensures r == "" <==> !IsBlank(username) && |username| >= MinUsernameLength
  {
    if IsBlank(username) then UsernameRequiredMessage
    else if |username| < MinUsernameLength then UsernameTooShortMessage
    else ""
  }

  function EmailError(email: string): (r: string)
    ensures r == EmailRequiredMessage <==> IsBlank(email)
    ensures r == "" <==> IsEmail(email)
  {
    if IsBlank(email) then EmailRequiredMessage
    else if !IsEmail(email) then InvalidEmailMessage
    else ""
  }

  /** The password check, on the password as typed: not empty, and at least six characters. */
  function PasswordError(password: string): (r: string)
    ensures r == PasswordRequiredMessage <==> password == ""
    ensures r == "" <==> |password| >= MinPasswordLength
  {
    if password == "" then PasswordRequiredMessage
    else if |password| < MinPasswordLength then PasswordTooShortMessage
    else ""
  }

  /** The form data validate accepts. */
  predicate Acceptable(form: RegisterFormData) {
    && !IsBlank(form.username) && |form.username| >= MinUsernameLength
    && IsEmail(form.email)
    && |form.password| >= MinPasswordLength
    && form.password == form.confirmPassword
  }

  /** The data is acceptable exactly when none of the four checks reports a message. */
  lemma AcceptableIffNoMessage(form: RegisterFormData)
    ensures Acceptable(form) <==>
      && UsernameError(form.username) == "" && EmailError(form.email) == ""
      && PasswordError(form.password) == "" && form.password == form.confirmPassword
  {
    if IsEmail(form.email) {
      EmailIsNotBlank(form.email);
    }
  }

  /** validate: each input gets at most one message, the confirmation its own whatever the other
      checks say; the form is valid exactly when no message is set, which is exactly when the data is
      acceptable. */
  method Validate(form: RegisterFormData) returns (errors: RegisterErrors, isValid: bool)
    ensures errors.username == UsernameError(form.username)
    ensures errors.email == EmailError(form.email)
    ensures errors.password == PasswordError(form.password)
    ensures errors.confirmPassword == if form.password != form.confirmPassword then PasswordMismatchMessage else ""
    ensures errors.form == ""
    ensures isValid <==> errors == NoErrors
    ensures isValid <==> Acceptable(form)
  {
    errors := NoErrors;
    isValid := true;
    if Trim(form.username) == "" {
      errors := errors.(username := UsernameRequiredMessage);
      isValid := false;
    } else if |form.username| < MinUsernameLength {
      errors := errors.(username := UsernameTooShortMessage);
      isValid := false;
    }
    assert errors.username == UsernameError(form.username) && (isValid <==> errors.username == "");
    if Trim(form.email) == "" {
      errors := errors.(email := EmailRequiredMessage);
      isValid := false;
    } else if !IsEmail(form.email) {
      errors := errors.(email := InvalidEmailMessage);
      isValid := false;
    }
    assert errors.email == EmailError(form.email);
    assert isValid <==> errors.username == "" && errors.email == "";
    if form.password == "" {
      errors := errors.(password := PasswordRequiredMessage);
      isValid := false;
    } else if |form.password| < MinPasswordLength {
      errors := errors.(password := PasswordTooShortMessage);
      isValid := false;
    }
    assert isValid <==> errors.username == "" && errors.email == "" && errors.password == "";
    if form.password != form.confirmPassword {
      errors := errors.(confirmPassword := PasswordMismatchMessage);
      isValid := false;
    }
    AcceptableIffNoMessage(form);
  }

  /** White space counts toward the minimum length: a username of two spaces around one letter passes the
      username check. */
  lemma PaddedUsernamePasses()
    ensures UsernameError(" a ") == ""
  {
    assert " a "[1] == 'a' && !IsSpace('a');
  }

  /** handleSubmit: with data validate rejects nothing reaches the store; otherwise register is called
      with the username and password (the e-mail is not passed on), and a failure shows its message as
      the form error. */
  method HandleSubmit(auth: AuthProvider, form: RegisterFormData, clock: Clock) returns (errors: RegisterErrors)
    requires auth.Consistent()
    modifies auth`authState, auth`storage
    ensures auth.Consistent()
    ensures !Acceptable(form) ==>
      && errors != NoErrors && auth.authState == old(auth.authState) && auth.storage == old(auth.storage)
    ensures Acceptable(form) ==>
      && (FindByUsername(auth.mockUsers, form.username).None? ==>
            errors == NoErrors && auth.authState == AuthState(Some(NewUser(form.username, clock)), true, false, None))
      && (FindByUsername(auth.mockUsers, form.username).Some? ==>
            errors == NoErrors.(form := DuplicateUsernameMessage) && auth.authState.error == Some(DuplicateUsernameMessage))
  {
    var isValid;
    errors, isValid := Validate(form);
    if !isValid {
      return;
    }
    errors := errors.(form := "");
    var outcome := auth.Register(form.username, form.password, clock);
    if outcome.Fail? {
      errors := errors.(form := outcome.message);
    }
  }
}
