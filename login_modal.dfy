/** The password dialog that guards the protected tabs. */
module LoginModal {

  /** The one accepted password. */
  const CorrectPassword: string := "202030305"

  /** The message shown after a wrong password ("the password is wrong, try again"). */
  const WrongPasswordMessage: string :=
    "\U{0643}\U{0644}\U{0645}\U{0629} \U{0627}\U{0644}\U{0645}\U{0631}\U{0648}\U{0631} \U{063A}\U{064A}\U{0631} \U{0635}\U{062D}\U{064A}\U{062D}\U{0629}. \U{062D}\U{0627}\U{0648}\U{0644} \U{0645}\U{0631}\U{0629} \U{0623}\U{062E}\U{0631}\U{0649}."

  /** The dialog's state: the text typed so far and the error line. */
  class LoginModal {
    var password: string
    var error: string

    /** A freshly opened dialog: nothing typed, no error. */
    constructor()
      ensures password == "" && error == ""
      ensures !ErrorShown()
    {
      password := "";
      error := "";
    }

    /** `{error && <p>...</p>}`: the error line is rendered exactly when the message is non-empty. */
    predicate ErrorShown()
      reads this
    {
      error != ""
    }

    /** The input's `onChange`: the typed value replaces the password verbatim. */
    method OnChange(value: string)
      modifies this
      ensures password == value && error == old(error)
    {
      password := value;
    }

    /** `handleSubmit`: reports success (the call of `onSuccess`) exactly when the typed password
        is the accepted one, leaving the dialog as it was; otherwise shows the fixed error message
        and clears the input. */
    method HandleSubmit() returns (success: bool)
      modifies this
      ensures success <==> old(password) == CorrectPassword
      ensures success ==> password == old(password) && error == old(error)
      ensures !success ==> password == "" && error == WrongPasswordMessage && ErrorShown()
    {
      if password == CorrectPassword {
        success := true;
      } else {
        error := WrongPasswordMessage;
        password := "";
        success := false;
      }
    }
  }

  /** After a wrong password the input is empty, so submitting again without typing fails too and
      the dialog stays cleared with the error shown. */
  method ResubmitWithoutTyping(modal: LoginModal) returns (first: bool, second: bool)
    modifies modal
    ensures !first ==> !second && modal.password == "" && modal.ErrorShown()
  {
    first := modal.HandleSubmit();
    second := modal.HandleSubmit();
  }
}
