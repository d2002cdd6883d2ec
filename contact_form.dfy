/**
 * The contact form's submit handler (`initializeContactForm`,
 * script.js:453-491). A submission never leaves the page: the handler checks
 * the three fields in a fixed order, shows exactly one notification, and
 * clears the form only when the submission is accepted. Showing a
 * notification removes any earlier one first, so the page holds only the
 * latest; that is all of `showNotification` this model keeps.
 */
module ContactForm {
  import opened Wrappers
  import opened Email

  /** The two styles `showNotification` knows. */
  datatype Kind = Success | Error

  datatype Notification = Notification(message: string, kind: Kind)

  const FillAllFields: string := "Please fill in all fields."
  const InvalidEmail: string := "Please enter a valid email address."
  const Thanks: string := "Thank you for your message! I'll get back to you soon."

  /** What one submission does: the notification it shows and whether it resets the form. */
  datatype Outcome = Outcome(notification: Notification, reset: bool)

  /**
   * The handler's decision for the field values `name`, `email` and
   * `message`. An empty field is refused before the e-mail is looked at, a
   * malformed e-mail is refused next, and only a submission that passes both
   * is thanked and clears the form.
   */
  function Decide(name: string, email: string, message: string): (o: Outcome)
    ensures o.notification.kind == Success <==> o.reset
    ensures (name == "" || email == "" || message == "") <==> o.notification == Notification(FillAllFields, Error)
    ensures (name != "" && email != "" && message != "" && !IsValidEmail(email))
            <==> o.notification == Notification(InvalidEmail, Error)
    ensures o.notification.kind == Success <==> name != "" && message != "" && IsValidEmail(email)
    ensures o.notification.kind == Success ==> o.notification.message == Thanks
  {
    if name == "" || email == "" || message == "" then
      Outcome(Notification(FillAllFields, Error), false)
    else if !IsValidEmail(email) then
      Outcome(Notification(InvalidEmail, Error), false)
    else
      Outcome(Notification(Thanks, Success), true)
  }

  /**
   * An empty message is refused without a reset, a malformed address is
   * refused, and a complete form with a valid address is thanked and reset.
   */
  lemma DecideExamples()
    ensures Decide("Ada", "ada@example.org", "") == Outcome(Notification(FillAllFields, Error), false)
    ensures Decide("Ada", "ab.com", "Hi") == Outcome(Notification(InvalidEmail, Error), false)
    ensures Decide("Ada", "a@b.co", "Hi") == Outcome(Notification(Thanks, Success), true)
  {
    AcceptsExample();
    RejectsExamples();
  }

  /** The form on the page: its three fields and the notification currently shown. */
  class Form {
    var name: string
    var email: string
    var message: string
    var shown: Option<Notification>

    /** A freshly loaded page: empty fields, no notification. */
    constructor ()
      ensures name == "" && email == "" && message == "" && shown == None
    {
      name, email, message := "", "", "";
      shown := None;
    }

    /**
     * The `submit` listener. The notification it shows replaces any earlier
     * one; `this.reset()` empties all three fields on success, and otherwise
     * the fields are left as they were.
     */
    method Submit()
      modifies this
      ensures var o := Decide(old(name), old(email), old(message));
        shown == Some(o.notification) &&
        (if o.reset then name == "" && email == "" && message == ""
         else name == old(name) && email == old(email) && message == old(message))
    {
      if name == "" || email == "" || message == "" {
        shown := Some(Notification(FillAllFields, Error));
        return;
      }
      if !IsValidEmail(email) {
        shown := Some(Notification(InvalidEmail, Error));
        return;
      }
      shown := Some(Notification(Thanks, Success));
      name, email, message := "", "", "";
    }
  }
}
