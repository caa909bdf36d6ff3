/** The item form of src/components/wishlist/ItemForm.tsx: its initial data, its change handlers,
    its validation and its submission gate. */
module ItemForm {
  import opened Types
  import opened Text

  const NameRequiredMessage: string := "Название элемента обязательно"
  const CategoryRequiredMessage: string := "Категория обязательна"
  const NegativePriceMessage: string := "Цена не может быть отрицательной"
  const InvalidImageUrlMessage: string := "Некорректный URL изображения"

  /** The form's state. `category` is undefined when the form starts without a category and the
      category list is empty; `price` is undefined when no price is entered. */
  datatype ItemFormData = ItemFormData(
    name: string,
    description: string,
    category: Option<string>,
    price: Option<real>,
    imageUrl: string)

  datatype ItemErrors = ItemErrors(name: string, category: string, price: string, imageUrl: string)

  const NoErrors: ItemErrors := ItemErrors("", "", "", "")

  /** The inputs wired to `handleChange`; the price input has its own handler. */
  datatype Field = Name | Description | Category | ImageUrl

  const EmptyItemPatch: ItemPatch := ItemPatch(None, None, None, None, None, None, None, None)

  /** An existing item passed as `initialData`: every key present. */
  function ItemAsPatch(item: WishlistItem): (r: ItemPatch)
    ensures r.id == Some(item.id) && r.name == Some(item.name) && r.category == Some(item.category)
    ensures r.description.Some? && r.price.Some? && r.imageUrl.Some?
    ensures Flatten(r.description) == item.description && Flatten(r.price) == item.price
    ensures Flatten(r.imageUrl) == item.imageUrl
    ensures r.createdAt == Some(item.createdAt) && r.updatedAt == Some(item.updatedAt)
  {
    ItemPatch(Some(item.id), Some(item.name), Some(item.description), Some(item.category), Some(item.price),
      Some(item.imageUrl), Some(item.createdAt), Some(item.updatedAt))
  }

  /** `categories[0]`, which is undefined for an empty list. */
  function FirstCategory(categories: seq<string>): Option<string> {
    if |categories| > 0 then Some(categories[0]) else None
  }

  /** The initial form data (and the data the effect resets it to when `initialData` changes): a
      missing or empty name, description or image URL becomes the empty string, a missing or empty
      category the first of the category list, and the price is taken as it is. */
  function InitialFormData(initial: ItemPatch, categories: seq<string>): (r: ItemFormData)
    ensures initial == EmptyItemPatch ==> r == ItemFormData("", "", FirstCategory(categories), None, "")
    ensures OrElse(initial.name, "") != "" ==> r.name == initial.name.value
    ensures OrElse(initial.name, "") == "" ==> r.name == ""
    ensures OrElse(initial.category, "") != "" ==> r.category == initial.category
    ensures OrElse(initial.category, "") == "" ==> r.category == FirstCategory(categories)
    ensures OrElse(Flatten(initial.description), "") != "" ==> r.description == Flatten(initial.description).value
    ensures OrElse(Flatten(initial.description), "") == "" ==> r.description == ""
    ensures OrElse(Flatten(initial.imageUrl), "") != "" ==> r.imageUrl == Flatten(initial.imageUrl).value
    ensures OrElse(Flatten(initial.imageUrl), "") == "" ==> r.imageUrl == ""
    ensures r.price == Flatten(initial.price)
  {
    ItemFormData(
      OrElse(initial.name, ""),
      OrElse(Flatten(initial.description), ""),
      if OrElse(initial.category, "") != "" then initial.category else FirstCategory(categories),
      Flatten(initial.price),
      OrElse(Flatten(initial.imageUrl), ""))
  }

  /** Editing an item starts from its own values; its absent description and image URL show as empty. */
  lemma EditFormShowsItem(item: WishlistItem, categories: seq<string>)
    requires item.category != ""
    ensures var r := InitialFormData(ItemAsPatch(item), categories);
      && r.name == item.name && r.category == Some(item.category) && r.price == item.price
      && r.description == item.description.GetOr("") && r.imageUrl == item.imageUrl.GetOr("")
  {
  }

  function FieldValue(form: ItemFormData, field: Field): Option<string> {
    match field
    case Name => Some(form.name)
    case Description => Some(form.description)
    case Category => form.category
    case ImageUrl => Some(form.imageUrl)
  }

  /** The error shown under an input; the description has none. */
  function ErrorOf(errors: ItemErrors, field: Field): Option<string> {
    match field
    case Name => Some(errors.name)
    case Description => None
    case Category => Some(errors.category)
    case ImageUrl => Some(errors.imageUrl)
  }

  function SetField(form: ItemFormData, field: Field, value: string): ItemFormData {
    match field
    case Name => form.(name := value)
    case Description => form.(description := value)
    case Category => form.(category := Some(value))
    case ImageUrl => form.(imageUrl := value)
  }

  function ClearError(errors: ItemErrors, field: Field): ItemErrors {
    match field
    case Name => errors.(name := "")
    case Description => errors
    case Category => errors.(category := "")
    case ImageUrl => errors.(imageUrl := "")
  }

  /** handleChange: the named input takes the new value and its error, if it shows one, is cleared;
      every other input and error stays as it was. */
  function HandleChange(form: ItemFormData, errors: ItemErrors, field: Field, value: string): (r: (ItemFormData, ItemErrors))
    ensures forall g :: FieldValue(r.0, g) == if g == field then Some(value) else FieldValue(form, g)
    ensures r.0.price == form.price
    ensures forall g :: ErrorOf(r.1, g) == if g == field && ErrorOf(errors, g).Some? then Some("") else ErrorOf(errors, g)
    ensures r.1.price == errors.price
  {
    var e := ErrorOf(errors, field);
    (SetField(form, field, value), if e.Some? && e.value != "" then ClearError(errors, field) else errors)
  }

  /** handlePriceChange: an empty input makes the price undefined, any other input its parsed value,
      where `parsed` is `parseFloat(value)` and `None` stands for NaN, which becomes 0. The price
      error is cleared. */
  method HandlePriceChange(form: ItemFormData, errors: ItemErrors, value: string, parsed: Option<real>)
      returns (newForm: ItemFormData, newErrors: ItemErrors)
    ensures value == "" ==> newForm.price.None?
    ensures value != "" ==> newForm.price == Some(if parsed.Some? then parsed.value else 0.0)
    ensures newForm.(price := form.price) == form
    ensures newErrors.price == "" && newErrors.(price := errors.price) == errors
  {
    newForm := form;
    if value == "" {
      newForm := newForm.(price := None);
    } else {
      var price := if parsed.Some? then parsed.value else 0.0;
      newForm := newForm.(price := Some(price));
    }
    newErrors := errors;
    if errors.price != "" {
      newErrors := newErrors.(price := "");
    }
  }

  predicate HasCategory(form: ItemFormData) {
    form.category.Some? && form.category.value != ""
  }

  predicate PriceAcceptable(form: ItemFormData) {
    form.price.None? || form.price.value >= 0.0
  }

  predicate ImageUrlAcceptable(form: ItemFormData) {
    form.imageUrl == "" || IsHttpUrl(form.imageUrl)
  }

  /** The form data validate accepts. */
  predicate Acceptable(form: ItemFormData) {
    !IsBlank(form.name) && HasCategory(form) && PriceAcceptable(form) && ImageUrlAcceptable(form)
  }

  /** validate: each failed check sets its own message; the form is valid exactly when no message is
      set, which is exactly when every check passes. */
  method Validate(form: ItemFormData) returns (errors: ItemErrors, isValid: bool)
    ensures errors.name == if IsBlank(form.name) then NameRequiredMessage else ""
    ensures errors.category == if HasCategory(form) then "" else CategoryRequiredMessage
    ensures errors.price == if PriceAcceptable(form) then "" else NegativePriceMessage
    ensures errors.imageUrl == if ImageUrlAcceptable(form) then "" else InvalidImageUrlMessage
    ensures isValid <==> errors == NoErrors
    ensures isValid <==> Acceptable(form)
  {
    errors := NoErrors;
    isValid := true;
    if Trim(form.name) == "" {
      errors := errors.(name := NameRequiredMessage);
      isValid := false;
    }
    if form.category.None? || form.category.value == "" {
      errors := errors.(category := CategoryRequiredMessage);
      isValid := false;
    }
    if form.price.Some? && form.price.value < 0.0 {
      errors := errors.(price := NegativePriceMessage);
      isValid := false;
    }
    if form.imageUrl != "" && !IsHttpUrl(form.imageUrl) {
      errors := errors.(imageUrl := InvalidImageUrlMessage);
      isValid := false;
    }
  }

  /** The form data handed to `onSubmit`: the five keys of the form, and no id or timestamps. */
  function AsPatch(form: ItemFormData): (r: ItemPatch)
    ensures r.id.None? && r.createdAt.None? && r.updatedAt.None?
    ensures r.name == Some(form.name) && r.category == form.category && Flatten(r.price) == form.price
    ensures Flatten(r.description) == Some(form.description) && Flatten(r.imageUrl) == Some(form.imageUrl)
  {
    ItemPatch(None, Some(form.name), Some(Some(form.description)), form.category, Some(form.price),
      Some(Some(form.imageUrl)), None, None)
  }

  /** handleSubmit: the form data is submitted exactly when validate accepts it. */
  method HandleSubmit(form: ItemFormData) returns (errors: ItemErrors, submitted: Option<ItemPatch>)
    ensures submitted.Some? <==> Acceptable(form)
    ensures submitted.Some? ==> submitted.value == AsPatch(form)
    ensures submitted.Some? <==> errors == NoErrors
  {
    var isValid;
    errors, isValid := Validate(form);
    submitted := if isValid then Some(AsPatch(form)) else None;
  }
}
