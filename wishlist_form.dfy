/** The wishlist form of src/components/wishlist/WishlistForm.tsx: initial data, the two change
    handlers, validation and the submission gate. */
module WishlistForm {
  import opened Types
  import opened Text

  const NameRequiredMessage: string := "Название списка обязательно"

  datatype WishlistFormData = WishlistFormData(name: string, description: string, isPublic: bool)

  datatype WishlistErrors = WishlistErrors(name: string)

  const NoErrors: WishlistErrors := WishlistErrors("")

  /** The text inputs wired to `handleChange`. */
  datatype Field = Name | Description

  const EmptyWishlistPatch: WishlistPatch := WishlistPatch(None, None, None, None, None, None, None, None)

  /** An existing wishlist passed as `initialData`: every key present. */
  function WishlistAsPatch(w: Wishlist): (r: WishlistPatch)
    ensures r.name == Some(w.name) && r.description.Some? && Flatten(r.description) == w.description
    ensures r.isPublic == Some(w.isPublic) && r.id == Some(w.id) && r.userId == Some(w.userId)
    ensures r.createdAt == Some(w.createdAt) && r.updatedAt == Some(w.updatedAt) && r.items == Some(w.items)
  {
    WishlistPatch(Some(w.id), Some(w.name), Some(w.description), Some(w.isPublic), Some(w.createdAt),
      Some(w.updatedAt), Some(w.userId), Some(w.items))
  }

  /** The initial form data (and what the effect resets it to when `initialData` changes): a missing or
      empty name or description becomes the empty string, and a form without `isPublic` starts public. */
  function InitialFormData(initial: WishlistPatch): (r: WishlistFormData)
    ensures initial == EmptyWishlistPatch ==> r == WishlistFormData("", "", true)
    ensures initial.isPublic.None? ==> r.isPublic
    ensures initial.isPublic.Some? ==> r.isPublic == initial.isPublic.value
    ensures OrElse(initial.name, "") != "" ==> r.name == initial.name.value
    ensures OrElse(initial.name, "") == "" ==> r.name == ""
    ensures OrElse(Flatten(initial.description), "") != "" ==> r.description == Flatten(initial.description).value
    ensures OrElse(Flatten(initial.description), "") == "" ==> r.description == ""
  {
    WishlistFormData(
      OrElse(initial.name, ""),
      OrElse(Flatten(initial.description), ""),
      if initial.isPublic.Some? then initial.isPublic.value else true)
  }

  /** Editing a wishlist starts from its own name, description and visibility. */
  lemma EditFormShowsWishlist(w: Wishlist)
    ensures InitialFormData(WishlistAsPatch(w)) == WishlistFormData(w.name, w.description.GetOr(""), w.isPublic)
  {
  }

  function FieldValue(form: WishlistFormData, field: Field): string {
    match field
    case Name => form.name
    case Description => form.description
  }

  /** handleChange: the named input takes the new value; typing into the name clears its error. */
  function HandleChange(form: WishlistFormData, errors: WishlistErrors, field: Field, value: string)
      : (r: (WishlistFormData, WishlistErrors))
    ensures forall g :: FieldValue(r.0, g) == if g == field then value else FieldValue(form, g)
    ensures r.0.isPublic == form.isPublic
    ensures r.1 == if field == Name then NoErrors else errors
  {
    var newForm := match field
      case Name => form.(name := value)
      case Description => form.(description := value);
    (newForm, if field == Name && errors.name != "" then NoErrors else errors)
  }

  /** handleToggleChange: the visibility follows the checkbox, nothing else changes. */
  function HandleToggleChange(form: WishlistFormData, checked: bool): (r: WishlistFormData)
    ensures r.isPublic == checked && r.name == form.name && r.description == form.description
  {
    form.(isPublic := checked)
  }

  /** validate: the name must not be blank, and that is the only check. */
  method Validate(form: WishlistFormData) returns (errors: WishlistErrors, isValid: bool)
    ensures errors.name == if IsBlank(form.name) then NameRequiredMessage else ""
    ensures isValid <==> errors == NoErrors
    ensures isValid <==> !IsBlank(form.name)
  {
    errors := NoErrors;
    isValid := true;
    if Trim(form.name) == "" {
      errors := errors.(name := NameRequiredMessage);
      isValid := false;
    }
  }

  /** handleSubmit: the form data (name, description, visibility) is submitted exactly when the name is
      not blank. */
  method HandleSubmit(form: WishlistFormData) returns (errors: WishlistErrors, submitted: Option<WishlistFormData>)
    ensures submitted.Some? <==> !IsBlank(form.name)
    ensures submitted.Some? ==> submitted.value == form
    ensures submitted.Some? <==> errors == NoErrors
  {
    var isValid;
    errors, isValid := Validate(form);
    submitted := if isValid then Some(form) else None;
  }
}
