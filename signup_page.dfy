/**
 * The submit logic of `src/app/signup/page.tsx`: the form is checked with the
 * name, e-mail and signup-password validators, then one registration is
 * attempted; success clears the form, a refusal keeps it.
 */
module SignupPage {
  import opened Wrappers
  import Validation
  import opened Toast
  import opened UserStorage

  datatype SignupForm = SignupForm(name: string, email: string, password: string)

  const EmptyForm := SignupForm("", "", "")
  const EmailTakenMessage := "This email is already registered. Please use a different email or login."

  /** `validateForm`: none of the three validators reports an error. */
  function ValidateForm(form: SignupForm): (r: bool)
    ensures r <==>
      && Validation.Name(form.name).None?
      && Validation.Email(form.email).None?
      && Validation.SignupPassword(form.password).None?
  {
    var nameError := Validation.Name(form.name);
    var emailError := Validation.Email(form.email);
    var passwordError := Validation.SignupPassword(form.password);
    !Validation.IsError(nameError) && !Validation.IsError(emailError) && !Validation.IsError(passwordError)
  }

  class SignupPage {
    var formData: SignupForm
    var isSubmitting: bool
    const registry: Registry

    constructor (registry: Registry)
      ensures this.registry == registry && formData == EmptyForm && !isSubmitting
    {
      this.registry := registry;
      formData := EmptyForm;
      isSubmitting := false;
    }

    /** The submit button is enabled only when no submit is running and the form validates. */
    function CanSubmit(): (r: bool)
      reads this
      ensures r <==>
        && !isSubmitting
        && Validation.Name(formData.name).None?
        && Validation.Email(formData.email).None?
        && Validation.SignupPassword(formData.password).None?
    {
      !(isSubmitting || !ValidateForm(formData))
    }

    /**
     * `handleSubmit`, as one atomic step; `now` is the registration time
     * stamp. An invalid form changes nothing and attempts no registration.
     * Otherwise the form's own name, e-mail and password are registered:
     * on success the signup notice is shown and the form cleared; on a
     * refusal the "already registered" error is shown and the form kept.
     * In both cases `isSubmitting` ends false.
     */
    method HandleSubmit(now: string) returns (notice: Option<Notice>)
      modifies this, registry
      ensures !ValidateForm(old(formData)) ==>
        && notice.None? && formData == old(formData) && isSubmitting == old(isSubmitting)
        && registry.slot == old(registry.slot)
      ensures ValidateForm(old(formData)) ==> !isSubmitting
      ensures notice == Some(Signup) <==>
        ValidateForm(old(formData)) && registry.hasWindow && !old(registry.IsEmailRegistered(formData.email))
      ensures notice == Some(Signup) ==>
        && formData == EmptyForm
        && registry.Users() == old(registry.Users()) +
             [RegisteredUser(old(formData).email, old(formData).password, old(formData).name, now)]
      ensures ValidateForm(old(formData)) && notice != Some(Signup) ==>
        && notice == Some(Error(EmailTakenMessage))
        && formData == old(formData) && registry.slot == old(registry.slot)
      ensures UniqueEmails(old(registry.Users())) ==> UniqueEmails(registry.Users())
    {
      if !ValidateForm(formData) {
        return None;
      }
      isSubmitting := true;
      var userRegistered := registry.RegisterUser(formData.email, formData.password, formData.name, now);
      if userRegistered {
        notice := Some(Signup);
        formData := EmptyForm;
      } else {
        notice := Some(Error(EmailTakenMessage));
      }
      isSubmitting := false;
    }
  }
}
