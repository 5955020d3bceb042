/** The password reset form (src/pages/ResetPassword.jsx): the same two password
    checks as sign-up, then the update. The update's error is a parameter. */
module ResetPassword {
  import opened Common
  import opened Register

  const ResetSuccessMessage := "Senha atualizada com sucesso!"

  class ResetForm {
    var password: string
    var confirmPassword: string
    var error: string
    var success: string
    var loading: bool
    /** Where the page will go once its timer fires. */
    var scheduledNavigation: Option<string>

    constructor ()
      ensures password == [] && confirmPassword == [] && error == [] && success == []
      ensures !loading && scheduledNavigation.None?
    {
      password, confirmPassword := [], [];
      error, success, loading, scheduledNavigation := [], [], false, None;
    }

    /** `handleSubmit`: both messages are cleared; a failed check is reported and
        the password is not sent. Otherwise `updatePassword` is called with it
        (`called`), its error shown or the success shown and the dashboard
        scheduled; either way loading ends. */
    method Submit(updateError: Option<string>) returns (called: Option<string>)
      modifies this
      ensures var problem := PasswordProblem(old(password), old(confirmPassword));
        && (problem.Some? ==>
              && called.None? && error == problem.value && success == []
              && loading == old(loading) && scheduledNavigation == old(scheduledNavigation))
        && (problem.None? ==> called == Some(password) && !loading)
        && (problem.None? && updateError.Some? ==>
              && error == updateError.value && success == []
              && scheduledNavigation == old(scheduledNavigation))
        && (problem.None? && updateError.None? ==>
              && error == [] && success == ResetSuccessMessage
              && scheduledNavigation == Some("/dashboard"))
      ensures password == old(password) && confirmPassword == old(confirmPassword)
    {
      error := [];
      success := [];
      var problem := PasswordProblem(password, confirmPassword);
      if problem.Some? {
        error := problem.value;
        return None;
      }
      loading := true;
      called := Some(password);
      if updateError.Some? {
        error := updateError.value;
      } else {
        success := ResetSuccessMessage;
        scheduledNavigation := Some("/dashboard");
      }
      loading := false;
    }
  }

  /** A password the reset form accepts is one sign-up accepts too, given a birth
      date and a grade: the two forms share their password rules. */
  lemma ResetAcceptsWhatSignUpAccepts(password: string, confirm: string, dataNascimento: string, serie: string)
    requires dataNascimento != [] && serie != []
    ensures PasswordProblem(password, confirm).None? <==> Validate(password, confirm, dataNascimento, serie).None?
  {
  }
}
