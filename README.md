# Living With Logic: account forms, modelled in Dafny

This project models the client-side logic behind the account forms of the Living With Logic
marketing site:

- **Field validators** (`src/utils/validation.ts`). Eight pure functions map a field's text to `null`
  (valid) or to one fixed message. They are modelled as functions returning `Option<string>` in module
  `Validation`.
  - `trim` and the regex class `\s` are modelled exactly over ECMAScript's whitespace set (module `Text`).
  - The e-mail regex `^[^\s@]+@[^\s@]+\.[^\s@]+$` is run as a deterministic automaton (module
    `EmailPattern`). `EmailPattern.MatchesIff` proves that the automaton accepts exactly the strings
    of a declarative pattern: a non-empty local part, one `@`, and a domain with an inner `.`.
- **Account registry** (`src/utils/userStorage.ts`). This is the class `UserStorage.Registry`.
  - Its `slot` field holds the parsed content of the `living_with_logic_users` storage key, or `None`
    when the key is absent, empty or unparseable.
  - The constant `hasWindow` says whether a browser window exists.
  - The reads (`Users`, `ValidateUserCredentials`, `IsEmailRegistered`) are functions.
  - `RegisterUser` and `ClearAllUsers` are methods that change the slot.
  - Account keys are e-mail addresses compared after lower-casing. `RegisterUser` keeps them unique.
- **Form field state** (`src/components/ui/FormField.tsx`). The class `FormFieldState.FormField` has
  the fields `error`, `touched` and `showPassword`, and the handlers `HandleChange`, `HandleBlur` and
  `TogglePasswordVisibility`. Its invariant `Valid()` says two things:
  - an untouched field holds no error;
  - a touched field holds the validator's verdict on the value last passed to `handleChange` or `handleBlur`. The pages reset their form data without calling these handlers, so in the source a touched field's error can be the verdict on a value it no longer shows.
- **Login and signup submits** (`src/app/login/page.tsx`, `src/app/signup/page.tsx`). The page classes
  hold the form data, `isSubmitting` and the registry. `HandleSubmit` is one atomic step that returns
  the notification it shows, as a `Toast.Notice` value.

Some details of the model:

- The validators' results are tested in the source with JavaScript truthiness (`!error`,
  `touched && error`). The model keeps this as `Validation.IsError`. Every validator's contract says
  that its messages are non-empty. That is why the pages' `ValidateForm` is exactly "every validator
  returns `None`".
- Two messages do not match their bounds: "Name must be less than 80 characters" and
  "Message must be less than 2000 characters". A trimmed length of exactly 80, or exactly 2000, is
  still accepted. The model follows the code, not the wording.
- The registration time stamp (`new Date().toISOString()`) is a parameter of `RegisterUser` and of
  the signup `HandleSubmit`.

## Model

| member | source | states |
|---|---|---|
| `Text.Trim` | src/utils/validation.ts:5 | `trim` returns the middle slice of the value, with only whitespace cut from either end, and it neither starts nor ends with whitespace |
| `Text.TrimEmptyIff` | src/utils/validation.ts:50 | the trimmed value is empty exactly when the value is entirely whitespace |
| `Text.TrimPadded` | src/utils/validation.ts:5 | whitespace added around a value never changes its trimmed form |
| `Text.TrimIdempotent` | src/utils/validation.ts:5 | trimming twice is the same as trimming once |
| `Text.ContainsInRange` | src/utils/validation.ts:30-32 | a one-range class test such as `/[A-Z]/` is true exactly when some character lies in the range |
| `Text.KeepDigits` | src/utils/validation.ts:37 | `replace(/\D/g, '')` keeps only digits, and keeps every digit as often as it occurs |
| `Text.KeepDigitsAppend` | src/utils/validation.ts:37 | stripping non-digits works piecewise on a concatenation, so order is kept |
| `Text.ToLower` | src/utils/userStorage.ts:33 | lower-casing keeps the length and maps each character through the ASCII case mapping |
| `Text.ToLowerIdempotent` | src/utils/userStorage.ts:33 | lower-casing twice is the same as lower-casing once |
| `EmailPattern.MatchesIff` | src/utils/validation.ts:18-19 | the automaton run by `emailRegex.test` accepts a string exactly when it is a non-empty local part, `@`, and a domain with a `.` that is neither its first nor its last character, with no whitespace or extra `@` anywhere |
| `EmailPattern.PatternIsRegexGroups` | src/utils/validation.ts:18 | that pattern is the same as splitting the string into the regex's three `[^\s@]+` groups around one `@` and one `.` |
| `EmailPattern.PatternHasOneAt` | src/utils/validation.ts:18 | a matching string has no whitespace and exactly one `@` |
| `Validation.Name` | src/utils/validation.ts:4-9 | valid exactly when the trimmed length is between 2 and 80; "too short" is reported below 2 and "too long" above 80 |
| `Validation.FullName` | src/utils/validation.ts:11-15 | valid exactly when the trimmed length is at least 2; there is no upper bound |
| `Validation.Email` | src/utils/validation.ts:17-21 | valid exactly when the text matches the e-mail pattern; otherwise the one e-mail message |
| `Validation.Password` | src/utils/validation.ts:23-26 | valid exactly when the untrimmed length is at least 6 |
| `Validation.SignupPassword` | src/utils/validation.ts:28-34 | valid exactly when the length is at least 8 and there is an upper-case letter, a lower-case letter and a digit; each message is returned exactly when its check is the first one to fail, in the order length, upper, lower, digit |
| `Validation.Phone` | src/utils/validation.ts:36-40 | valid exactly when the value has between 7 and 20 digits |
| `Validation.Message` | src/utils/validation.ts:42-47 | valid exactly when the trimmed length is between 10 and 2000; "too short" is reported below 10 and "too long" above 2000 |
| `Validation.Required` | src/utils/validation.ts:49-52 | valid exactly when some character is not whitespace |
| `Validation.TrimmingValidatorsIgnorePadding` | src/utils/validation.ts:4-52 | `name`, `fullName`, `message` and `required` give the same verdict when whitespace is added around the value |
| `Validation.PhoneIgnoresNonDigits` | src/utils/validation.ts:36-40 | inserting non-digit characters anywhere does not change the phone verdict |
| `Validation.PhoneOnlyDigitsMatter` | src/utils/validation.ts:36-40 | the phone verdict on a value equals the verdict on its digits alone |
| `Validation.SignupPasswordIsLoginPassword` | src/utils/validation.ts:23-34 | every password that passes the signup check also passes the login check |
| `Validation.NameIsFullName` | src/utils/validation.ts:4-52 | a valid name is also a valid full name and passes `required` |
| `UserStorage.Find` | src/utils/userStorage.ts:33 | `find` returns nothing exactly when no element satisfies the predicate; otherwise it returns an element of the list that does |
| `UserStorage.Any` | src/utils/userStorage.ts:76 | `some` is true exactly when some element satisfies the predicate |
| `UserStorage.FindByEmail` | src/utils/userStorage.ts:33-36 | the duplicate lookup finds nothing exactly when no record has the address, compared case-insensitively |
| `UserStorage.EmailRegistered` | src/utils/userStorage.ts:76 | true exactly when some record has the address, compared case-insensitively |
| `UserStorage.CredentialsMatch` | src/utils/userStorage.ts:59-63 | true exactly when some record has the address, compared case-insensitively, and exactly the given password |
| `UserStorage.CredentialsImplyRegistered` | src/utils/userStorage.ts:54-81 | whenever the credentials match, the address is registered |
| `UserStorage.QueriesIgnoreCase` | src/utils/userStorage.ts:54-81 | two addresses that are equal after lower-casing get the same answer from both queries |
| `UserStorage.AppendKeepsUnique` | src/utils/userStorage.ts:33-46 | appending a record whose address is not registered keeps account keys unique |
| `UserStorage.RegisterThenQuery` | src/utils/userStorage.ts:38-46 | after a fresh address is appended, it is registered in any casing, and it logs in with exactly the stored password and no other |
| `UserStorage.AppendKeepsRegistered` | src/utils/userStorage.ts:44 | appending a record never unregisters an address |
| `UserStorage.Registry.Users` | src/utils/userStorage.ts:13-23 | the stored list; the empty list when there is no window or the slot is absent or unparseable |
| `UserStorage.Registry.ValidateUserCredentials` | src/utils/userStorage.ts:54-68 | true exactly when a window exists and some stored record has the address, compared case-insensitively, and the same password |
| `UserStorage.Registry.IsEmailRegistered` | src/utils/userStorage.ts:71-81 | true exactly when a window exists and some stored record has the address, compared case-insensitively |
| `UserStorage.Registry.RegisterUser` | src/utils/userStorage.ts:26-51 | succeeds exactly when a window exists and the address is not stored; on refusal the slot is unchanged; on success the slot becomes the old list followed by one record carrying the given email, password, name and time stamp; unique account keys stay unique |
| `UserStorage.Registry.ClearAllUsers` | src/utils/userStorage.ts:84-92 | with a window the slot is removed; afterwards the list is empty and no address is registered |
| `UserStorage.RegisterTwice` | src/utils/userStorage.ts:26-51 | registering an address and then the same address in another casing: the first call succeeds, the second is refused, and the first password logs in |
| `FormFieldState.FormField.constructor` | src/components/ui/FormField.tsx:36-38 | a new field is untouched, holds no error and hides its password |
| `FormFieldState.FormField.HandleChange` | src/components/ui/FormField.tsx:40-46 | the new value is always forwarded; the error is recomputed from the new value only when the field is touched, and is unchanged otherwise; `touched` and `showPassword` are unchanged |
| `FormFieldState.FormField.HandleBlur` | src/components/ui/FormField.tsx:48-52 | the field becomes touched and its error is the verdict on the current value |
| `FormFieldState.FormField.TogglePasswordVisibility` | src/components/ui/FormField.tsx:58-60 | `showPassword` is negated, and nothing else changes |
| `FormFieldState.FormField.HasError` | src/components/ui/FormField.tsx:56 | the error is displayed exactly when the field is touched and holds a non-empty error; in a valid state, exactly when the field is touched and its latest value is invalid; never before the first blur |
| `FormFieldState.FormField.InputType` | src/components/ui/FormField.tsx:62 | a password field is masked exactly while its password is hidden, and shows its text otherwise; other fields keep their declared type |
| `FormFieldState.TypeThenBlur` | src/components/ui/FormField.tsx:40-56 | typing before the first blur shows no error; the first blur shows exactly the verdict on the value |
| `LoginPage.ValidateForm` | src/app/login/page.tsx:25-30 | the login form is valid exactly when both the e-mail and the login-password validators return null |
| `LoginPage.Outcome` | src/app/login/page.tsx:51-60 | "under review" exactly for a valid user; the invalid-credentials error exactly for a registered address without valid credentials; "please sign up" exactly for an unregistered address |
| `LoginPage.OutcomeTextsDistinct` | src/app/login/page.tsx:51-60 | two different outcomes of the login chain show different notification texts |
| `LoginPage.OutcomesPartition` | src/app/login/page.tsx:48-60 | on any stored list, the three notices correspond to: matching credentials, a registered address with a wrong password, and an unknown address |
| `LoginPage.LoginPage.constructor` | src/app/login/page.tsx:15-19 | the page starts with an empty form and no submit running |
| `LoginPage.LoginPage.CanSubmit` | src/app/login/page.tsx:159 | the submit button is enabled exactly when no submit is running and both validators pass |
| `LoginPage.LoginPage.HandleSubmit` | src/app/login/page.tsx:32-68 | an invalid form shows nothing and changes nothing; otherwise exactly one of the three notices is shown, chosen as stated, the form is cleared, `isSubmitting` ends false, and the registry is not modified |
| `SignupPage.ValidateForm` | src/app/signup/page.tsx:26-32 | the signup form is valid exactly when the name, e-mail and signup-password validators all return null |
| `SignupPage.SignupPage.constructor` | src/app/signup/page.tsx:15-20 | the page starts with an empty form and no submit running |
| `SignupPage.SignupPage.CanSubmit` | src/app/signup/page.tsx:166 | the submit button is enabled exactly when no submit is running and all three validators pass |
| `SignupPage.SignupPage.HandleSubmit` | src/app/signup/page.tsx:34-66 | an invalid form shows nothing and attempts no registration; otherwise the form's own name, e-mail and password are registered; on success the signup notice is shown, the record is appended and the form is cleared; on a refusal the "already registered" error is shown and the form and slot are kept; `isSubmitting` ends false; unique keys stay unique |

## Left out

- String lengths: JavaScript counts UTF-16 code units; the model counts characters (Unicode scalar values). The two differ for characters outside the Basic Multilingual Plane. JavaScript strings can also hold unpaired surrogate code units, which Dafny's `string` cannot represent at all.
- `Text.ToLower`: lower-cases ASCII letters only. `toLowerCase` follows the full Unicode case mapping, so addresses that differ only in non-ASCII letter case are distinct keys in the model.
- Storage and JSON: the slot is abstracted to an optional parsed list. There is one case the model does not cover: slot text that parses as JSON but is not a list of account records. In the source, `getRegisteredUsers` returns that value, and the later `find`/`some`/`toLowerCase` calls may throw, which makes those operations report `false`.
- Write failures: `localStorage.setItem` throwing (for example when the storage quota is full) makes `registerUser` return `false` without a change. The model assumes writes succeed.
- `console.log` and `console.error` calls: these are diagnostics only.
- The one-second `setTimeout` delay and `async` handlers: each `handleSubmit` is one atomic step. The short period in which `isSubmitting` is true is therefore not observable, and a second submit during the delay is not modelled.
- The `catch` branches of both `handleSubmit`s ("There was an error ..."): the registry functions catch their own errors and nothing else in the `try` can throw, so the model never produces these notices.
- React's batching of state updates: each handler is applied to the state left by the previous one.
- Toast presentation: icons, durations and styles are not modelled. Each preset of `showToast`, including the `formSuccess` preset that no page in this model calls, is a `Toast.Notice` value, and `Toast.DisplayText` gives its text.
- `updateField`, the JSX markup, the textarea/input choice, `aria-*` attributes and CSS classes: these are presentational.
- The submit flows of the booking, contact and forgot-password pages are not part of this model. One quirk there is also not modelled: booking's form requires a valid phone number but renders no phone field.
- `UserStorage.Find`: states that a found element is in the list and satisfies the predicate, but not that it is the first such element. Every caller uses only whether something was found.
