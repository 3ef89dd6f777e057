/**
 * The submit logic of `src/app/login/page.tsx`: the form is checked with the
 * e-mail and login-password validators, then the registry decides which of
 * three notices is shown, and the form is cleared.
 */
module LoginPage {
  import opened Wrappers
  import Validation
  import opened Toast
  import opened UserStorage

  datatype LoginForm = LoginForm(email: string, password: string)

  const EmptyForm := LoginForm("", "")
  const InvalidCredentialsMessage := "Invalid credentials. Please check your password."

  /** `validateForm`: neither validator reports an error. */
  function ValidateForm(form: LoginForm): (r: bool)
    ensures r <==> Validation.Email(form.email).None? && Validation.Password(form.password).None?
  {
    var emailError := Validation.Email(form.email);
    var passwordError := Validation.Password(form.password);
    !Validation.IsError(emailError) && !Validation.IsError(passwordError)
  }

  /** The if/else chain of `handleSubmit` on the two registry answers. */
  function Outcome(isValidUser: bool, isRegistered: bool): (n: Notice)
    ensures n == AccountUnderReview <==> isValidUser
    ensures n == Error(InvalidCredentialsMessage) <==> !isValidUser && isRegistered
    ensures n == LoginRedirect <==> !isValidUser && !isRegistered
  {
    if isValidUser then AccountUnderReview
    else if isRegistered then Error(InvalidCredentialsMessage)
    else LoginRedirect
  }

  /**
   * On any stored list the three notices split the cases: right credentials,
   * a registered address with a wrong password, an unknown address.
   */
  lemma OutcomesPartition(users: seq<RegisteredUser>, email: string, password: string)
    ensures var n := Outcome(CredentialsMatch(users, email, password), EmailRegistered(users, email));
      && (n == AccountUnderReview <==> CredentialsMatch(users, email, password))
      && (n == Error(InvalidCredentialsMessage) <==> EmailRegistered(users, email) && !CredentialsMatch(users, email, password))
      && (n == LoginRedirect <==> !EmailRegistered(users, email))
  {
  }

  /** The three login outcomes show three different texts. */
  lemma OutcomeTextsDistinct(v1: bool, r1: bool, v2: bool, r2: bool)
    requires Outcome(v1, r1) != Outcome(v2, r2)
    ensures DisplayText(Outcome(v1, r1)) != DisplayText(Outcome(v2, r2))
  {
  }

  class LoginPage {
    var formData: LoginForm
    var isSubmitting: bool
    const registry: Registry

    constructor (registry: Registry)
      ensures this.registry == registry && formData == EmptyForm && !isSubmitting
    {
      this.registry := registry;
      formData := EmptyForm;
      isSubmitting := false;
    }

    /** The submit button is enabled only when no submit is running and the form validates. */
    function CanSubmit(): (r: bool)
      reads this
      ensures r <==> !isSubmitting && Validation.Email(formData.email).None? && Validation.Password(formData.password).None?
    {
      !(isSubmitting || !ValidateForm(formData))
    }

    /**
     * `handleSubmit`, as one atomic step (the artificial delay is left out).
     * An invalid form changes nothing and shows nothing. Otherwise exactly one
     * of three notices is shown, the form is cleared, `isSubmitting` ends
     * false, and the registry is only read.
     */
    method HandleSubmit() returns (notice: Option<Notice>)
      modifies this
      ensures !ValidateForm(old(formData)) ==>
        notice.None? && formData == old(formData) && isSubmitting == old(isSubmitting)
      ensures ValidateForm(old(formData)) ==> notice.Some? && formData == EmptyForm && !isSubmitting
      ensures var e, p := old(formData).email, old(formData).password;
        && (notice == Some(AccountUnderReview) <==>
              ValidateForm(old(formData)) && registry.ValidateUserCredentials(e, p))
        && (notice == Some(Error(InvalidCredentialsMessage)) <==>
              ValidateForm(old(formData)) && registry.IsEmailRegistered(e) && !registry.ValidateUserCredentials(e, p))
        && (notice == Some(LoginRedirect) <==>
              ValidateForm(old(formData)) && !registry.IsEmailRegistered(e))
    {
      if !ValidateForm(formData) {
        return None;
      }
      isSubmitting := true;
      var isValidUser := registry.ValidateUserCredentials(formData.email, formData.password);
      var isRegistered := registry.IsEmailRegistered(formData.email);
      if registry.hasWindow {
        OutcomesPartition(registry.Users(), formData.email, formData.password);
      }
      notice := Some(Outcome(isValidUser, isRegistered));
      formData := EmptyForm;
      isSubmitting := false;
    }
  }
}
