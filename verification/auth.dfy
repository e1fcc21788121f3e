/** Registration validation and the login state kept in the session. */
module Auth {
  import opened SessionStore

  datatype RegistrationError = FillAllFields | PasswordMismatch | PasswordTooShort

  /** The message flashed for each error. */
  function Message(e: RegistrationError): string
  {
    match e
    case FillAllFields => "Bitte füllen Sie alle Felder aus."
    case PasswordMismatch => "Die Passwörter stimmen nicht überein."
    case PasswordTooShort => "Das Passwort muss mindestens 8 Zeichen lang sein."
  }

  /** The position of each check in `validate_registration`. */
  function Rank(e: RegistrationError): nat
  {
    match e
    case FillAllFields => 0
    case PasswordMismatch => 1
    case PasswordTooShort => 2
  }

  const MinPasswordLength: nat := 8

  /** `validate_registration`: every failed check adds its error, in the
      order the checks are made. */
  function ValidateRegistration(username: string, password: string, confirmPassword: string)
    : (errors: seq<RegistrationError>)
    ensures FillAllFields in errors <==> username == "" || password == ""
    ensures PasswordMismatch in errors <==> password != confirmPassword
    ensures PasswordTooShort in errors <==> |password| < MinPasswordLength
    ensures errors == [] <==> username != "" && |password| >= MinPasswordLength && password == confirmPassword
    ensures forall i, j :: 0 <= i < j < |errors| ==> Rank(errors[i]) < Rank(errors[j])
    ensures |errors| <= 3
  {
    (if username == "" || password == "" then [FillAllFields] else [])
    + (if password != confirmPassword then [PasswordMismatch] else [])
    + (if |password| < MinPasswordLength then [PasswordTooShort] else [])
  }

  /** An empty password is reported twice: as a missing field and as too
      short. */
  lemma EmptyPasswordTwoErrors(username: string, confirmPassword: string)
    ensures FillAllFields in ValidateRegistration(username, "", confirmPassword)
    ensures PasswordTooShort in ValidateRegistration(username, "", confirmPassword)
    ensures |ValidateRegistration(username, "", confirmPassword)| >= 2
  {
  }

  /** A user row as the user store returns it. */
  datatype User = User(id: int, username: string)

  const UserIdKey := "user_id"
  const UsernameKey := "username"

  /** `login_user`: sets the two login keys and nothing else. */
  function LoginUser(s: Session, user: User): (r: Session)
    ensures r.Keys == s.Keys + {UserIdKey, UsernameKey}
    ensures r[UserIdKey] == Int(user.id) && r[UsernameKey] == Str(user.username)
    ensures forall k :: k in s && k != UserIdKey && k != UsernameKey ==> r[k] == s[k]
  {
    s[UserIdKey := Int(user.id)][UsernameKey := Str(user.username)]
  }

  /** `logout_user`: pops the two login keys, present or not. */
  function LogoutUser(s: Session): (r: Session)
    ensures r.Keys == s.Keys - {UserIdKey, UsernameKey}
    ensures forall k :: k in r ==> r[k] == s[k]
  {
    s - {UserIdKey, UsernameKey}
  }

  /** Logging out after logging in leaves the session as logging out alone
      would: nothing of the login survives. */
  lemma LogoutUndoesLogin(s: Session, user: User)
    ensures LogoutUser(LoginUser(s, user)) == LogoutUser(s)
  {
  }

  /** What the `login_required` wrapper does with a request. */
  datatype Gate = Proceed | ToLogin(next: string)

  /** `login_required`: the view runs when the session holds a user id;
      otherwise the request is redirected to the login page, which is told
      the requested URL. */
  function LoginRequired(s: Session, requestUrl: string): (g: Gate)
    ensures g.Proceed? <==> UserIdKey in s
    ensures g.ToLogin? ==> g.next == requestUrl
  {
    if UserIdKey !in s then ToLogin(requestUrl) else Proceed
  }

  lemma GateFollowsLogin(s: Session, user: User, requestUrl: string)
    ensures LoginRequired(LoginUser(s, user), requestUrl) == Proceed
    ensures LoginRequired(LogoutUser(s), requestUrl) == ToLogin(requestUrl)
  {
  }
}
