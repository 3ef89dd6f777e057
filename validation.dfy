/**
 * The field validators of `src/utils/validation.ts`. Each maps the raw field
 * text to `None` (the source's `null`, "valid") or to one fixed message.
 */
module Validation {
  import opened Wrappers
  import opened Text
  import EmailPattern

  /** The type of every validator, and of the `validation` prop of a form field. */
  type ValidationFunction = string -> Option<string>

  /**
   * JavaScript truthiness of a `string | null` result: `null` and `''` are falsy.
   * The pages test `!error`, the form field `touched && error`.
   */
  predicate IsError(r: Option<string>) {
    r.Some? && r.value != ""
  }

  const NameTooShort := "Name must be at least 2 characters long"
  const NameTooLong := "Name must be less than 80 characters"
  const FullNameTooShort := "Full name must be at least 2 characters long"
  const InvalidEmail := "Please enter a valid email address"
  const PasswordTooShort := "Password must be at least 6 characters long"
  const SignupPasswordTooShort := "Password must be at least 8 characters long"
  const MissingUppercase := "Password must contain at least one uppercase letter"
  const MissingLowercase := "Password must contain at least one lowercase letter"
  const MissingNumber := "Password must contain at least one number"
  const InvalidPhone := "Phone number must be 7-20 digits"
  const MessageTooShort := "Message must be at least 10 characters long"
  const MessageTooLong := "Message must be less than 2000 characters"
  const RequiredMissing := "This field is required"

  /** `validation.name`: 2 to 80 characters once surrounding whitespace is removed; "too short" is checked first. */
  function Name(value: string): (r: Option<string>)
    ensures r.None? <==> 2 <= |Trim(value)| <= 80
    ensures |Trim(value)| < 2 ==> r == Some(NameTooShort)
    ensures |Trim(value)| > 80 ==> r == Some(NameTooLong)
    ensures r.Some? ==> IsError(r)
  {
    var trimmed := Trim(value);
    if |trimmed| < 2 then Some(NameTooShort)
    else if |trimmed| > 80 then Some(NameTooLong)
    else None
  }

  /** `validation.fullName`: at least 2 characters once trimmed, with no upper bound. */
  function FullName(value: string): (r: Option<string>)
    ensures r.None? <==> |Trim(value)| >= 2
    ensures r.Some? ==> r == Some(FullNameTooShort) && IsError(r)
  {
    var trimmed := Trim(value);
    if |trimmed| < 2 then Some(FullNameTooShort) else None
  }

  /** `validation.email`: valid exactly when the text matches `^[^\s@]+@[^\s@]+\.[^\s@]+$`. */
  function Email(value: string): (r: Option<string>)
    ensures r.None? <==> EmailPattern.MatchesEmailPattern(value)
    ensures r.Some? ==> r == Some(InvalidEmail) && IsError(r)
  {
    EmailPattern.MatchesIff(value);
    if !EmailPattern.Matches(value) then Some(InvalidEmail) else None
  }

  /** `validation.password` (login): at least 6 characters, whitespace included, no trimming. */
  function Password(value: string): (r: Option<string>)
    ensures r.None? <==> |value| >= 6
    ensures r.Some? ==> r == Some(PasswordTooShort) && IsError(r)
  {
    if |value| < 6 then Some(PasswordTooShort) else None
  }

  ghost predicate HasUpper(s: string) { exists i :: 0 <= i < |s| && IsAsciiUpper(s[i]) }
  ghost predicate HasLower(s: string) { exists i :: 0 <= i < |s| && IsAsciiLower(s[i]) }
  ghost predicate HasDigit(s: string) { exists i :: 0 <= i < |s| && IsDigit(s[i]) }

  /**
   * `validation.signupPassword`: at least 8 characters with an ASCII upper-case
   * letter, a lower-case letter and a digit. A failing value gets the message of
   * the first failing check, in the order length, upper, lower, digit.
   */
  function SignupPassword(value: string): (r: Option<string>)
    ensures r.None? <==> |value| >= 8 && HasUpper(value) && HasLower(value) && HasDigit(value)
    ensures r == Some(SignupPasswordTooShort) <==> |value| < 8
    ensures r == Some(MissingUppercase) <==> |value| >= 8 && !HasUpper(value)
    ensures r == Some(MissingLowercase) <==> |value| >= 8 && HasUpper(value) && !HasLower(value)
    ensures r == Some(MissingNumber) <==> |value| >= 8 && HasUpper(value) && HasLower(value) && !HasDigit(value)
    ensures r.Some? ==> IsError(r)
  {
    if |value| < 8 then Some(SignupPasswordTooShort)
    else if !ContainsInRange(value, 'A', 'Z') then Some(MissingUppercase)
    else if !ContainsInRange(value, 'a', 'z') then Some(MissingLowercase)
    else if !ContainsInRange(value, '0', '9') then Some(MissingNumber)
    else None
  }

  /** `validation.phone`: 7 to 20 digits; every other character is ignored. */
  function Phone(value: string): (r: Option<string>)
    ensures r.None? <==> 7 <= |KeepDigits(value)| <= 20
    ensures r.Some? ==> r == Some(InvalidPhone) && IsError(r)
  {
    var cleaned := KeepDigits(value);
    if |cleaned| < 7 || |cleaned| > 20 then Some(InvalidPhone) else None
  }

  /** `validation.message`: 10 to 2000 characters once trimmed; "too short" is checked first. */
  function Message(value: string): (r: Option<string>)
    ensures r.None? <==> 10 <= |Trim(value)| <= 2000
    ensures |Trim(value)| < 10 ==> r == Some(MessageTooShort)
    ensures |Trim(value)| > 2000 ==> r == Some(MessageTooLong)
    ensures r.Some? ==> IsError(r)
  {
    var trimmed := Trim(value);
    if |trimmed| < 10 then Some(MessageTooShort)
    else if |trimmed| > 2000 then Some(MessageTooLong)
    else None
  }

  /** `validation.required`: valid exactly when some character is not whitespace. */
  function Required(value: string): (r: Option<string>)
    ensures r.None? <==> !AllWhitespace(value)
    ensures r.Some? ==> r == Some(RequiredMissing) && IsError(r)
  {
    TrimEmptyIff(value);
    if value == "" || |Trim(value)| == 0 then Some(RequiredMissing) else None
  }

  /** The validators that trim ignore whitespace added around the value. */
  lemma TrimmingValidatorsIgnorePadding(w1: string, value: string, w2: string)
    requires AllWhitespace(w1) && AllWhitespace(w2)
    ensures Name(w1 + value + w2) == Name(value)
    ensures FullName(w1 + value + w2) == FullName(value)
    ensures Message(w1 + value + w2) == Message(value)
    ensures Required(w1 + value + w2) == Required(value)
  {
    TrimPadded(w1, value, w2);
  }

  /** Non-digit characters inserted anywhere do not change the phone verdict. */
  lemma PhoneIgnoresNonDigits(a: string, x: string, b: string)
    requires forall i :: 0 <= i < |x| ==> !IsDigit(x[i])
    ensures Phone(a + x + b) == Phone(a + b)
  {
    KeepDigitsAppend(a + x, b);
    KeepDigitsAppend(a, x);
    KeepDigitsAppend(a, b);
    KeepDigitsNone(x);
  }

  /** The phone verdict depends only on the digits, in order. */
  lemma PhoneOnlyDigitsMatter(value: string)
    ensures Phone(value) == Phone(KeepDigits(value))
  {
    KeepDigitsAll(KeepDigits(value));
  }

  /** A valid signup password is also a valid login password. */
  lemma SignupPasswordIsLoginPassword(value: string)
    ensures SignupPassword(value).None? ==> Password(value).None?
  {
  }

  /** A valid name is a valid full name as well, and passes `required`. */
  lemma NameIsFullName(value: string)
    ensures Name(value).None? ==> FullName(value).None? && Required(value).None?
  {
  }
}
