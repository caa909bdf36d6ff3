/** The profile form of src/components/auth/ProfileForm.tsx: its initial and edit-mode data, its
    change handlers, its validation against the clock, and its submission, which calls updateProfile
    on the identity store. */
module ProfileForm {
  import opened Types
  import opened Seqs
  import opened AuthContext

  const CountryRequiredMessage: string := "Выберите страну"
  const BirthDateRequiredMessage: string := "Укажите дату рождения"
  const FutureBirthDateMessage: string := "Дата рождения не может быть в будущем"
  const MinimumAgeMessage: string := "Минимальный возраст - 13 лет"

  datatype ProfileFormData = ProfileFormData(gender: Gender, country: string, birthDate: string, interests: seq<string>)

  /** One message per checked input, and `form` for the error updateProfile reports. */
  datatype ProfileErrors = ProfileErrors(country: string, birthDate: string, form: string)

  const NoErrors: ProfileErrors := ProfileErrors("", "", "")

  const InitialFormData: ProfileFormData := ProfileFormData(Other, "", "", [])

  /** The edit-mode effect: in edit mode with a current user the four fields are copied from that user;
      otherwise the form data stays as it was. */
  function EditModeFormData(isEdit: bool, user: Option<User>, current: ProfileFormData): (r: ProfileFormData)
    ensures isEdit && user.Some? ==>
      && r.gender == user.value.gender && r.country == user.value.country
      && r.birthDate == user.value.birthDate && r.interests == user.value.interests
    ensures !(isEdit && user.Some?) ==> r == current
  {
    if isEdit && user.Some? then
      ProfileFormData(user.value.gender, user.value.country, user.value.birthDate, user.value.interests)
    else current
  }

  /** The select and date inputs wired to `handleChange`, each with its new value. */
  datatype ProfileInput = GenderInput(gender: Gender) | CountryInput(country: string) | BirthDateInput(birthDate: string)

  /** handleChange: the named input takes the new value; the country and the birth date clear their
      own error, the gender has none. The interests and the other errors stay as they were. */
  function HandleChange(form: ProfileFormData, errors: ProfileErrors, input: ProfileInput): (r: (ProfileFormData, ProfileErrors))
    ensures r.0.interests == form.interests && r.1.form == errors.form
    ensures input.GenderInput? ==> r.0 == form.(gender := input.gender) && r.1 == errors
    ensures input.CountryInput? ==> r.0 == form.(country := input.country) && r.1 == errors.(country := "")
    ensures input.BirthDateInput? ==> r.0 == form.(birthDate := input.birthDate) && r.1 == errors.(birthDate := "")
  {
    match input
    case GenderInput(g) => (form.(gender := g), errors)
    case CountryInput(c) => (form.(country := c), if errors.country != "" then errors.(country := "") else errors)
    case BirthDateInput(d) => (form.(birthDate := d), if errors.birthDate != "" then errors.(birthDate := "") else errors)
  }

  /** handleInterestChange: checking an interest appends it, unchecking drops every occurrence of it. */
  function HandleInterestChange(form: ProfileFormData, checked: bool, value: string): (r: ProfileFormData)
    ensures r.gender == form.gender && r.country == form.country && r.birthDate == form.birthDate
    ensures checked ==> r.interests == form.interests + [value]
    ensures !checked ==> value !in r.interests && IsSubsequence(r.interests, form.interests)
    ensures !checked ==> forall x :: x != value ==> multiset(r.interests)[x] == multiset(form.interests)[x]
  {
    form.(interests := if checked then form.interests + [value] else Without(form.interests, value))
  }

  /** Checking an interest that was not chosen and then unchecking it restores the interests. */
  lemma CheckThenUncheckRestores(form: ProfileFormData, value: string)
    requires value !in form.interests
    ensures HandleInterestChange(HandleInterestChange(form, true, value), false, value) == form
  {
    WithoutAppended(form.interests, value);
  }

  /** The birth-date check. `parseDate` is `new Date(birthDate)` as a millisecond count, `None` for an
      Invalid Date, which compares false with everything; `now` and `minAge` are the two clock readings,
      the second moved back by the 13 calendar years `MinimumAgeMessage` names. */
  function BirthDateError(birthDate: string, parseDate: string -> Option<int>, now: int, minAge: int): (r: string)
    ensures r == "" || r == BirthDateRequiredMessage || r == FutureBirthDateMessage || r == MinimumAgeMessage
    ensures r == BirthDateRequiredMessage <==> birthDate == ""
    ensures r == FutureBirthDateMessage <==> birthDate != "" && parseDate(birthDate).Some? && parseDate(birthDate).value > now
    ensures r == MinimumAgeMessage <==>
      birthDate != "" && parseDate(birthDate).Some? && minAge < parseDate(birthDate).value <= now
  {
    if birthDate == "" then BirthDateRequiredMessage
    else
      var born := parseDate(birthDate);
      if born.Some? && born.value > now then FutureBirthDateMessage
      else if born.Some? && born.value > minAge then MinimumAgeMessage
      else ""
  }

  /** The form data validate accepts, as a statement about the birth date. */
  predicate Acceptable(form: ProfileFormData, parseDate: string -> Option<int>, now: int, minAge: int) {
    && form.country != ""
    && form.birthDate != ""
    && (parseDate(form.birthDate).None? || (parseDate(form.birthDate).value <= now && parseDate(form.birthDate).value <= minAge))
  }

  /** validate: the country and the birth date each get at most one message; the form is valid exactly
      when no message is set, which is exactly when the data is acceptable. */
  method Validate(form: ProfileFormData, parseDate: string -> Option<int>, now: int, minAge: int)
      returns (errors: ProfileErrors, isValid: bool)
    ensures errors.country == if form.country == "" then CountryRequiredMessage else ""
    ensures errors.birthDate == BirthDateError(form.birthDate, parseDate, now, minAge)
    ensures errors.form == ""
    ensures isValid <==> errors == NoErrors
    ensures isValid <==> Acceptable(form, parseDate, now, minAge)
  {
    errors := NoErrors;
    isValid := true;
    if form.country == "" {
      errors := errors.(country := CountryRequiredMessage);
      isValid := false;
    }
    if form.birthDate == "" {
      errors := errors.(birthDate := BirthDateRequiredMessage);
      isValid := false;
    } else {
      var born := parseDate(form.birthDate);
      if born.Some? && born.value > now {
        errors := errors.(birthDate := FutureBirthDateMessage);
        isValid := false;
      } else if born.Some? && born.value > minAge {
        errors := errors.(birthDate := MinimumAgeMessage);
        isValid := false;
      }
    }
  }

  /** A birth date that does not parse passes the check. */
  lemma UnparsableBirthDatePasses(form: ProfileFormData, parseDate: string -> Option<int>, now: int, minAge: int)
    requires form.country != "" && form.birthDate != "" && parseDate(form.birthDate).None?
    ensures Acceptable(form, parseDate, now, minAge)
    ensures BirthDateError(form.birthDate, parseDate, now, minAge) == ""
  {
  }

  /** The form data handed to updateProfile: the four form keys, never the id, the username or the
      creation time. */
  function AsPatch(form: ProfileFormData): (r: UserPatch)
    ensures r.id.None? && r.username.None? && r.createdAt.None?
  {
    UserPatch(None, None, Some(form.gender), Some(form.country), Some(form.birthDate), Some(form.interests), None)
  }

  /** Saving the profile form changes exactly the four profile fields of the user. */
  lemma ProfileUpdateKeepsIdentity(u: User, form: ProfileFormData)
    ensures OverlayUser(u, AsPatch(form)) == u.(gender := form.gender, country := form.country,
                                                birthDate := form.birthDate, interests := form.interests)
  {
  }

  /** handleSubmit: with data validate rejects nothing reaches the store; otherwise updateProfile is
      called with the form data, and a failure shows its message as the form error. */
  method HandleSubmit(auth: AuthProvider, form: ProfileFormData, parseDate: string -> Option<int>, now: int, minAge: int)
      returns (errors: ProfileErrors)
    requires auth.Consistent()
    modifies auth`authState, auth`storage
    ensures auth.Consistent()
    ensures !Acceptable(form, parseDate, now, minAge) ==>
      && errors != NoErrors && auth.authState == old(auth.authState) && auth.storage == old(auth.storage)
    ensures Acceptable(form, parseDate, now, minAge) ==>
      && (old(auth.authState.user).Some? ==>
            && errors == NoErrors
            && auth.authState.user == Some(OverlayUser(old(auth.authState.user).value, AsPatch(form))))
      && (old(auth.authState.user).None? ==>
            errors == NoErrors.(form := NotAuthorizedMessage) && auth.authState.error == Some(NotAuthorizedMessage))
  {
    var isValid;
    errors, isValid := Validate(form, parseDate, now, minAge);
    if !isValid {
      return;
    }
    errors := errors.(form := "");
    var outcome := auth.UpdateProfile(AsPatch(form));
    if outcome.Fail? {
      errors := errors.(form := outcome.message);
    }
  }
}
