/** The login form of src/components/auth/LoginForm.tsx: its change handler, its validation, and its
    submission, which calls login on the identity store. */
module LoginForm {
  import opened Types
  import opened Text
  import opened AuthContext

  const UsernameRequiredMessage: string := "Имя пользователя обязательно"
  const PasswordRequiredMessage: string := "Пароль обязателен"

  datatype LoginFormData = LoginFormData(username: string, password: string)

  /** One message per input, and `form` for the error login reports. */
  datatype LoginErrors = LoginErrors(username: string, password: string, form: string)

  const NoErrors: LoginErrors := LoginErrors("", "", "")

  const InitialFormData: LoginFormData := LoginFormData("", "")

  datatype Field = Username | Password

  function FieldValue(form: LoginFormData, field: Field): string {
    match field
    case Username => form.username
    case Password => form.password
  }

  function ErrorOf(errors: LoginErrors, field: Field): string {
    match field
    case Username => errors.username
    case Password => errors.password
  }

  /** handleChange: the named input takes the new value and its error is cleared; the other input,
      its error and the form error stay as they were. */
  function HandleChange(form: LoginFormData, errors: LoginErrors, field: Field, value: string): (r: (LoginFormData, LoginErrors))
    ensures forall g :: FieldValue(r.0, g) == if g == field then value else FieldValue(form, g)
    ensures forall g :: ErrorOf(r.1, g) == if g == field then "" else ErrorOf(errors, g)
    ensures r.1.form == errors.form
  {
    var newForm := match field
      case Username => form.(username := value)
      case Password => form.(password := value);
    var newErrors := if ErrorOf(errors, field) == "" then errors else match field
      case Username => errors.(username := "")
      case Password => errors.(password := "");
    (newForm, newErrors)
  }

  /** The form data validate accepts: a username that is not blank and a password that is not empty
      (the password is not trimmed). */
  predicate Acceptable(form: LoginFormData) {
    !IsBlank(form.username) && form.password != ""
  }

  /** validate: the form is valid exactly when no message is set, which is exactly when the data is
      acceptable. */
  method Validate(form: LoginFormData) returns (errors: LoginErrors, isValid: bool)
    ensures errors.username == if IsBlank(form.username) then UsernameRequiredMessage else ""
    ensures errors.password == if form.password == "" then PasswordRequiredMessage else ""
    ensures errors.form == ""
    ensures isValid <==> errors == NoErrors
    ensures isValid <==> Acceptable(form)
  {
    errors := NoErrors;
    isValid := true;
    if Trim(form.username) == "" {
      errors := errors.(username := UsernameRequiredMessage);
      isValid := false;
    }
    if form.password == "" {
      errors := errors.(password := PasswordRequiredMessage);
      isValid := false;
    }
  }

  /** A password of white space only passes, although a username of white space only does not. */
  lemma BlankPasswordPasses(form: LoginFormData)
    requires !IsBlank(form.username) && form.password == "   "
    ensures Acceptable(form) && !Acceptable(form.(username := form.password))
  {
    assert form.password[0] == ' ';
  }

  /** handleSubmit: with data validate rejects nothing reaches the store; otherwise login is called
      with the username and password, and a failure shows its message as the form error. */
  method HandleSubmit(auth: AuthProvider, form: LoginFormData) returns (errors: LoginErrors)
    requires auth.Consistent()
    modifies auth`authState, auth`storage
    ensures auth.Consistent()
    ensures !Acceptable(form) ==>
      && errors != NoErrors && auth.authState == old(auth.authState) && auth.storage == old(auth.storage)
    ensures Acceptable(form) ==>
      && (FindByUsername(auth.mockUsers, form.username).Some? ==>
            errors == NoErrors && auth.authState == AuthState(FindByUsername(auth.mockUsers, form.username), true, false, None))
      && (FindByUsername(auth.mockUsers, form.username).None? ==>
            errors == NoErrors.(form := InvalidCredentialsMessage) && auth.authState.error == Some(InvalidCredentialsMessage))
  {
    var isValid;
    errors, isValid := Validate(form);
    if !isValid {
      return;
    }
    errors := errors.(form := "");
    var outcome := auth.Login(form.username, form.password);
    if outcome.Fail? {
      errors := errors.(form := outcome.message);
    }
  }
}
