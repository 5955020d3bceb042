/** The sign-up form (src/pages/Register.jsx): the checks run before the account
    is requested, and what the form does with the answer. The account service is
    a parameter: its error, and the id of the user it creates. */
module Register {
  import opened Common

  const MismatchMessage := "As senhas não coincidem"
  const ShortMessage := "A senha deve ter pelo menos 6 caracteres"
  const BirthDateMessage := "Informe sua data de nascimento"
  const GradeMessage := "Selecione sua série"
  const SignUpFallbackMessage := "Erro ao criar conta. Tente novamente."
  const DashboardPath := "/dashboard"

  /** The shortest password accepted. */
  const MinPasswordLength := 6

  /** The two password checks, shared with the reset form: a confirmation that
      differs is reported before a short password. */
  function PasswordProblem(password: string, confirm: string): (r: Option<string>)
    ensures r.None? <==> password == confirm && |password| >= MinPasswordLength
    ensures password != confirm ==> r == Some(MismatchMessage)
    ensures password == confirm && |password| < MinPasswordLength ==> r == Some(ShortMessage)
  {
    if password != confirm then Some(MismatchMessage)
    else if |password| < MinPasswordLength then Some(ShortMessage)
    else None
  }

  /** The checks of `handleSubmit`, in order; the first failure is the one
      reported. */
  function Validate(password: string, confirm: string, dataNascimento: string, serie: string): (r: Option<string>)
    ensures r.None? <==> password == confirm && |password| >= MinPasswordLength && dataNascimento != [] && serie != []
    ensures PasswordProblem(password, confirm).Some? ==> r == PasswordProblem(password, confirm)
    ensures PasswordProblem(password, confirm).None? && dataNascimento == [] ==> r == Some(BirthDateMessage)
    ensures PasswordProblem(password, confirm).None? && dataNascimento != [] && serie == [] ==> r == Some(GradeMessage)
  {
    match PasswordProblem(password, confirm)
    case Some(m) => Some(m)
    case None =>
      if dataNascimento == [] then Some(BirthDateMessage)
      else if serie == [] then Some(GradeMessage)
      else None
  }

  /** Each check speaks only when every earlier one passed: a form failing all
      four reports only the mismatch, and the grade is asked for only once the
      rest is right. */
  lemma OnlyFirstFailureReported(password: string, confirm: string, dataNascimento: string, serie: string)
    ensures password != confirm ==> Validate(password, confirm, dataNascimento, serie) == Some(MismatchMessage)
    ensures Validate(password, confirm, dataNascimento, serie) == Some(GradeMessage) ==>
      password == confirm && |password| >= MinPasswordLength && dataNascimento != [] && serie == []
  {
  }

  /** What is sent to the account service. `serie` is `parseInt(serie)`, `None`
      standing for NaN. */
  datatype SignUpRequest = SignUpRequest(email: string, password: string, nome: string, dataNascimento: string, escola: string, serie: Option<int>)

  /** Every grade the form offers is sent as its number. */
  lemma OfferedGradesParse(n: int)
    requires 6 <= n <= 9
    ensures ParseInt(IntToString(n)) == Some(n) && IntToString(n) != []
  {
    ParseIntToString(n);
  }

  /** The avatar kept for after sign-in (`localStorage.pendingAvatar`). */
  datatype PendingAvatar = PendingAvatar(userId: int, fileName: string)

  class RegisterForm {
    var nome: string
    var email: string
    var password: string
    var confirmPassword: string
    var dataNascimento: string
    var escola: string
    var serie: string
    /** The name of the chosen avatar file, if any. */
    var avatarFile: Option<string>
    var error: string
    var loading: bool
    var pendingAvatar: Option<PendingAvatar>
    var navigatedTo: Option<string>

    constructor ()
      ensures nome == [] && email == [] && password == [] && confirmPassword == []
      ensures dataNascimento == [] && escola == [] && serie == [] && avatarFile.None?
      ensures error == [] && !loading && pendingAvatar.None? && navigatedTo.None?
    {
      nome, email, password, confirmPassword := [], [], [], [];
      dataNascimento, escola, serie, avatarFile := [], [], [], None;
      error, loading, pendingAvatar, navigatedTo := [], false, None, None;
    }

    /** `handleSubmit`. The error is cleared first; a failed check is reported and
        nothing is sent. Otherwise the account is requested, with the grade as a
        number: `signUpError` is the service's error message, if any (an empty
        one reads as the fallback text), and `newUser` the id of the user it
        created. On an error loading ends; on success the avatar, if any, is
        kept for later and the learner goes to the dashboard. */
    method Submit(signUpError: Option<string>, newUser: Option<int>) returns (sent: Option<SignUpRequest>)
      modifies this
      ensures Validate(password, confirmPassword, dataNascimento, serie).Some? ==>
        && sent.None? && error == Validate(password, confirmPassword, dataNascimento, serie).value
        && loading == old(loading) && pendingAvatar == old(pendingAvatar) && navigatedTo == old(navigatedTo)
      ensures Validate(password, confirmPassword, dataNascimento, serie).None? ==>
        sent == Some(SignUpRequest(email, password, nome, dataNascimento, escola, ParseInt(serie)))
      ensures Validate(password, confirmPassword, dataNascimento, serie).None? && signUpError.Some? ==>
        && error == (if signUpError.value == [] then SignUpFallbackMessage else signUpError.value)
        && !loading && pendingAvatar == old(pendingAvatar) && navigatedTo == old(navigatedTo)
      ensures Validate(password, confirmPassword, dataNascimento, serie).None? && signUpError.None? ==>
        && error == [] && loading && navigatedTo == Some(DashboardPath)
        && pendingAvatar == (if avatarFile.Some? && newUser.Some? then Some(PendingAvatar(newUser.value, avatarFile.value)) else old(pendingAvatar))
      ensures nome == old(nome) && email == old(email) && password == old(password)
      ensures confirmPassword == old(confirmPassword) && dataNascimento == old(dataNascimento)
      ensures escola == old(escola) && serie == old(serie) && avatarFile == old(avatarFile)
    {
      var problem := Validate(password, confirmPassword, dataNascimento, serie);
      if problem.Some? {
        error := problem.value;
        return None;
      }
      sent := Some(SignUpRequest(email, password, nome, dataNascimento, escola, ParseInt(serie)));
      Answer(signUpError, newUser);
    }

    /** What the form does with the account service's answer. */
    method Answer(signUpError: Option<string>, newUser: Option<int>)
      modifies this
      ensures signUpError.Some? ==>
        && error == (if signUpError.value == [] then SignUpFallbackMessage else signUpError.value)
        && !loading && pendingAvatar == old(pendingAvatar) && navigatedTo == old(navigatedTo)
      ensures signUpError.None? ==>
        && error == [] && loading && navigatedTo == Some(DashboardPath)
        && pendingAvatar == (if avatarFile.Some? && newUser.Some? then Some(PendingAvatar(newUser.value, avatarFile.value)) else old(pendingAvatar))
      ensures nome == old(nome) && email == old(email) && password == old(password)
      ensures confirmPassword == old(confirmPassword) && dataNascimento == old(dataNascimento)
      ensures escola == old(escola) && serie == old(serie) && avatarFile == old(avatarFile)
    {
      if signUpError.Some? {
        error, loading := if signUpError.value == [] then SignUpFallbackMessage else signUpError.value, false;
      } else {
        var kept := if avatarFile.Some? && newUser.Some? then Some(PendingAvatar(newUser.value, avatarFile.value)) else pendingAvatar;
        error, loading, pendingAvatar, navigatedTo := [], true, kept, Some(DashboardPath);
      }
    }
  }
}
