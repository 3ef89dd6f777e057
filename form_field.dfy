/**
 * The per-field state of `src/components/ui/FormField.tsx`: the validation
 * error, whether the field has been touched (blurred at least once), and
 * whether a password field shows its text. The field's value is owned by
 * the page and arrives as a parameter; `HandleChange` returns the value it
 * forwards to the page's `onChange`.
 */
module FormFieldState {
  import opened Wrappers
  import opened Validation

  class FormField {
    /** The declared input type (`'text'` when the page gives none). */
    const fieldType: string
    const validation: ValidationFunction
    var error: Option<string>
    var touched: bool
    var showPassword: bool
    /** The value last passed to `HandleChange` or `HandleBlur`; not part of the component. */
    ghost var lastValue: string

    /** An untouched field holds no error; a touched one holds the verdict on the latest value. */
    ghost predicate Valid()
      reads this
    {
      && (!touched ==> error.None?)
      && (touched ==> error == validation(lastValue))
    }

    constructor (fieldType: string, validation: ValidationFunction, value: string)
      ensures this.fieldType == fieldType && this.validation == validation
      ensures error.None? && !touched && !showPassword
      ensures lastValue == value && Valid()
    {
      this.fieldType := fieldType;
      this.validation := validation;
      error := None;
      touched := false;
      showPassword := false;
      lastValue := value;
    }

    /** `handleChange`: forwards the value; revalidates only once the field has been touched. */
    method HandleChange(newValue: string) returns (forwarded: string)
      requires Valid()
      modifies this
      ensures Valid()
      ensures forwarded == newValue
      ensures touched == old(touched) && showPassword == old(showPassword)
      ensures error == if old(touched) then validation(newValue) else old(error)
      ensures lastValue == newValue
    {
      forwarded := newValue;
      if touched {
        var validationError := validation(newValue);
        error := validationError;
      }
      lastValue := newValue;
    }

    /** `handleBlur`: marks the field touched and validates the current value. */
    method HandleBlur(value: string)
      requires Valid()
      modifies this
      ensures Valid()
      ensures touched && error == validation(value)
      ensures showPassword == old(showPassword)
      ensures lastValue == value
    {
      touched := true;
      var validationError := validation(value);
      error := validationError;
      lastValue := value;
    }

    /** `togglePasswordVisibility`: flips `showPassword` and nothing else. */
    method TogglePasswordVisibility()
      requires Valid()
      modifies this
      ensures Valid()
      ensures showPassword == !old(showPassword)
      ensures touched == old(touched) && error == old(error) && lastValue == old(lastValue)
    {
      showPassword := !showPassword;
    }

    /**
     * `hasError`: the error line is rendered for a touched field whose error is
     * a non-empty message; in a valid state, for a touched field holding the
     * verdict "invalid" on its latest value.
     */
    function HasError(): (r: bool)
      reads this
      ensures r <==> touched && error.Some? && error.value != ""
      ensures Valid() ==> (r <==> touched && IsError(validation(lastValue)))
      ensures !touched ==> !r
    {
      touched && IsError(error)
    }

    /**
     * `inputType`: a password field is masked exactly while its password is
     * hidden and is shown as text otherwise; any other field keeps its type.
     */
    function InputType(): (r: string)
      reads this
      ensures r == "password" <==> fieldType == "password" && !showPassword
      ensures fieldType == "password" && showPassword ==> r == "text"
      ensures fieldType != "password" ==> r == fieldType
    {
      var isPassword := fieldType == "password";
      if isPassword then (if showPassword then "text" else "password") else fieldType
    }
  }

  /**
   * Typing into a field before its first blur never shows an error, whatever
   * is typed, and the first blur shows exactly the verdict on the value.
   */
  method TypeThenBlur(field: FormField, typed: string, value: string) returns (before: bool, after: bool)
    requires field.Valid() && !field.touched
    modifies field
    ensures !before
    ensures after <==> IsError(field.validation(value))
    ensures field.touched
  {
    var _ := field.HandleChange(typed);
    before := field.HasError();
    field.HandleBlur(value);
    after := field.HasError();
  }
}
