/** The form actions `login` and `signup` of lib/auth/login.ts. `createSession` lives in
    lib/auth/session.ts, which is not part of this model: a run records the user id it
    would be called with. `isEmailRegistered` is imported from lib/models/user.ts, which
    does not export it, so its answer is a parameter. `createUser` there takes three
    parameters and drops the timezone `signup` passes as a fourth; a run records the
    call and takes the returned id as a parameter. */
module LoginActions {
  import opened Wrappers
  import UserModel

  const INVALID_CREDENTIALS: string := "Invalid login credentials."
  const PASSWORDS_DIFFER: string := "Passwords do not match"
  const EMAIL_TAKEN: string := "Email already exists, please use a different email or login."
  const CREATE_FAILED: string := "An error occurred while creating your account."

  /** The `FormState` an action answers with; `undefined` is `None` where it is returned. */
  datatype FormState = FieldErrors(confirmPassword: seq<string>) | Message(message: string)

  /** A form field is truthy: present and not empty. */
  predicate Filled(v: Option<string>) {
    v.Some? && v.value != ""
  }

  /** What `login` returns and the session it opens. */
  datatype LoginRun = LoginRun(state: Option<FormState>, session: Option<string>)

  /** The stored credentials accept this email and password. */
  predicate Accepts(table: UserModel.Table, email: string, password: string) {
    var user := UserModel.GetUserByEmail(table, email);
    user.Some? && UserModel.VerifyPassword(password, user.value.password)
  }

  /** `login`: a missing field, an unknown email and a wrong password all answer the same
      message and open no session; valid credentials open a session for the user's id
      and answer nothing. */
  function Login(table: UserModel.Table, email: Option<string>, password: Option<string>): (r: LoginRun)
    ensures r.state.None? <==> r.session.Some?
    ensures r.state.Some? ==> r.state.value == Message(INVALID_CREDENTIALS)
    ensures r.session.Some? <==> Filled(email) && Filled(password) && Accepts(table, email.value, password.value)
    ensures r.session.Some? ==> r.session.value == UserModel.GetUserByEmail(table, email.value).value.id
  {
    var refused := LoginRun(Some(Message(INVALID_CREDENTIALS)), None);
    if !Filled(email) || !Filled(password) then refused
    else match UserModel.GetUserByEmail(table, email.value)
      case None => refused
      case Some(user) =>
        if !UserModel.VerifyPassword(password.value, user.password) then refused
        else LoginRun(None, Some(user.id))
  }

  /** A user created by `createUser` can log in with the password they chose and with no
      other. */
  lemma CreatedUserLogsIn(table: UserModel.Table, email: string, password: string, name: string,
                          freshId: string, salt: string, other: string)
    requires UserModel.WellKeyed(table) && email != "" && password != "" && other != password
    requires UserModel.CreateUser(table, email, password, name, freshId, salt).Success?
    ensures var t := UserModel.CreateUser(table, email, password, name, freshId, salt).value.0;
      && Login(t, Some(email), Some(password)) == LoginRun(None, Some(freshId))
      && Login(t, Some(email), Some(other)) == LoginRun(Some(Message(INVALID_CREDENTIALS)), None)
  {
    UserModel.CreateThenFind(table, email, password, name, freshId, salt);
  }

  /** The call `signup` makes to `createUser`. */
  datatype CreateCall = CreateCall(email: Option<string>, password: Option<string>,
                                   name: Option<string>, timezone: Option<string>)

  /** What `signup` returns, whether it asked `isEmailRegistered`, the `createUser` call
      it made and the session it opens. */
  datatype SignupRun = SignupRun(state: Option<FormState>, askedRegistered: bool,
                                 created: Option<CreateCall>, session: Option<string>)

  /** `signup`. `registered` is the answer of `isEmailRegistered`; `createdId` is the id
      of the user `createUser` returns, or none for a falsy result. */
  function Signup(name: Option<string>, email: Option<string>, password: Option<string>,
                  confirmPassword: Option<string>, timezone: Option<string>,
                  registered: bool, createdId: Option<string>)
    : (r: SignupRun)
    ensures password != confirmPassword ==>
      r == SignupRun(Some(FieldErrors([PASSWORDS_DIFFER])), false, None, None)
    ensures password == confirmPassword ==> r.askedRegistered
    ensures password == confirmPassword && registered ==>
      r == SignupRun(Some(Message(EMAIL_TAKEN)), true, None, None)
    ensures r.created.Some? <==> password == confirmPassword && !registered
    ensures r.created.Some? ==> r.created.value == CreateCall(email, password, name, timezone)
    ensures r.session.Some? <==> r.created.Some? && createdId.Some?
    ensures r.session.Some? ==> r.session == createdId && r.state.None?
    ensures r.created.Some? && createdId.None? ==> r.state == Some(Message(CREATE_FAILED))
  {
    if password != confirmPassword then SignupRun(Some(FieldErrors([PASSWORDS_DIFFER])), false, None, None)
    else if registered then SignupRun(Some(Message(EMAIL_TAKEN)), true, None, None)
    else
      var call := Some(CreateCall(email, password, name, timezone));
      match createdId
      case None => SignupRun(Some(Message(CREATE_FAILED)), true, call, None)
      case Some(id) => SignupRun(None, true, call, Some(id))
  }
}
