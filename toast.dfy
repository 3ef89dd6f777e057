/**
 * The notification presets of `src/utils/toast.ts`, as values. Showing a
 * notice is a side effect outside the model; the pages return the notice
 * they would show.
 */
module Toast {

  datatype Notice =
    | Success(message: string)   // showToast.success
    | Error(message: string)     // showToast.error
    | Info(message: string)      // showToast.info
    | Contact                    // showToast.contact
    | Booking                    // showToast.booking
    | Newsletter                 // showToast.newsletter
    | Signup                     // showToast.signup
    | LoginRedirect              // showToast.loginRedirect ("Please signup")
    | BlogLoginRequired          // showToast.blogLoginRequired
    | PlanLoginRequired          // showToast.planLoginRequired
    | SlotLoginRequired          // showToast.slotLoginRequired
    | PasswordResetSuccess       // showToast.passwordResetSuccess
    | AccountUnderReview         // showToast.accountUnderReview
    | NewsletterSuccess          // showToast.newsletterSuccess
    | FormSuccess(context: string) // showToast.formSuccess

  /** The text each preset displays. */
  function DisplayText(n: Notice): string {
    match n
    case Success(m) => m
    case Error(m) => m
    case Info(m) => m
    case Contact => "Thank you for contacting us, we will contact you soon"
    case Booking => "Thank you for booking, we will contact you soon"
    case Newsletter => "Thank you for subscribing, we will contact you soon"
    case Signup => "Thank you for signup, we will contact you soon"
    case LoginRedirect => "Please signup"
    case BlogLoginRequired => "Login first for reading article"
    case PlanLoginRequired => "Login first to go with the plan"
    case SlotLoginRequired => "Login first to grab your preferred slot"
    case PasswordResetSuccess =>
      "Your reset password request is placed successfull and will receive an reset link in your email"
    case AccountUnderReview => "Your account is under review we will get back soon"
    case NewsletterSuccess => "Thank you for subscribing us we will contact you soon"
    case FormSuccess(c) => "Thank you for " + c + ", we will contact you soon"
  }
}
