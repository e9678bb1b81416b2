/**
 * The authentication context: a reducer over the session state, the
 * actions the login, registration, user-loading and logout flows dispatch,
 * and the two browser-storage entries ("token" and "user") those flows
 * write and clear.  Server answers are parameters (`None` for a failed
 * request).
 */
module Auth {
  import opened Seqs

  const AdminRole := "ADMIN"
  const InstructorRole := "INSTRUCTOR"
  const StudentRole := "STUDENT"
  const LoginFailedMessage := "Login failed"
  const RegistrationFailedMessage := "Registration failed"

  /**
   * `error.response?.data?.message || fallback`: a missing or empty server
   * message is falsy, so the fallback is shown instead.
   */
  function MessageOr(serverMessage: Option<string>, fallback: string): (m: string)
    ensures serverMessage.Some? && serverMessage.value != "" ==> m == serverMessage.value
    ensures serverMessage.None? || serverMessage.value == "" ==> m == fallback
  {
    if serverMessage.Some? && serverMessage.value != "" then serverMessage.value else fallback
  }

  /** The current user as the server describes it; the role arrives as text. */
  datatype AuthUser = AuthUser(id: nat, username: string, role: string)

  datatype AuthState = AuthState(
    isAuthenticated: bool,
    user: Option<AuthUser>,
    token: Option<string>,
    loading: bool,
    error: Option<string>)

  datatype Action =
    | LoginStart
    | LoginSuccess(loggedIn: AuthUser, newToken: string)
    | LoginFailure(message: string)
    | Logout
    | LoadUserStart
    | LoadUserSuccess(loaded: AuthUser)
    | LoadUserFailure
    | Other(actionType: string)

  /** `initialState`: signed out, with whatever token the storage holds. */
  function InitialState(storedToken: Option<string>): (s: AuthState)
    ensures !s.isAuthenticated && s.user == None && s.token == storedToken
    ensures !s.loading && s.error == None
  {
    AuthState(false, None, storedToken, false, None)
  }

  /** `authReducer`. */
  function Reduce(s: AuthState, a: Action): (r: AuthState)
    ensures a.LoginStart? ==> r == s.(loading := true, error := None)
    ensures a.LoginSuccess? ==> r == AuthState(true, Some(a.loggedIn), Some(a.newToken), false, None)
    ensures a.LoginFailure? ==> r == AuthState(false, None, None, false, Some(a.message))
    ensures a.Logout? ==> r == AuthState(false, None, None, false, None)
    ensures a.LoadUserStart? ==> r == s.(loading := true)
    ensures a.LoadUserSuccess? ==> r == s.(loading := false, isAuthenticated := true, user := Some(a.loaded))
    ensures a.LoadUserFailure? ==> r == s.(loading := false, isAuthenticated := false, user := None, token := None)
    ensures a.Other? ==> r == s
  {
    match a
    case LoginStart => s.(loading := true, error := None)
    case LoginSuccess(u, t) => s.(loading := false, isAuthenticated := true, user := Some(u), token := Some(t), error := None)
    case LoginFailure(m) => s.(loading := false, isAuthenticated := false, user := None, token := None, error := Some(m))
    case Logout => s.(isAuthenticated := false, user := None, token := None, loading := false, error := None)
    case LoadUserStart => s.(loading := true)
    case LoadUserSuccess(u) => s.(loading := false, isAuthenticated := true, user := Some(u))
    case LoadUserFailure => s.(loading := false, isAuthenticated := false, user := None, token := None)
    case Other(_) => s
  }

  /** Signed in exactly when a user is present. */
  predicate Coherent(s: AuthState)
  {
    s.isAuthenticated <==> s.user.Some?
  }

  /** Every action keeps the state coherent. */
  lemma ReducePreservesCoherent(s: AuthState, a: Action)
    requires Coherent(s)
    ensures Coherent(Reduce(s, a))
  {
  }

  /** The state after dispatching `actions` in order. */
  function Dispatch(s: AuthState, actions: seq<Action>): AuthState
  {
    if actions == [] then s else Reduce(Dispatch(s, actions[..|actions| - 1]), actions[|actions| - 1])
  }

  /** Whatever is dispatched from the initial state, a signed-out state has no user. */
  lemma {:induction false} ReachableCoherent(storedToken: Option<string>, actions: seq<Action>)
    ensures Coherent(Dispatch(InitialState(storedToken), actions))
    ensures !Dispatch(InitialState(storedToken), actions).isAuthenticated ==>
              Dispatch(InitialState(storedToken), actions).user == None
  {
    if actions != [] {
      ReachableCoherent(storedToken, actions[..|actions| - 1]);
      ReducePreservesCoherent(Dispatch(InitialState(storedToken), actions[..|actions| - 1]), actions[|actions| - 1]);
    }
  }

  /** `hasRole`: `state.user?.role === role`. */
  predicate HasRole(s: AuthState, role: string)
  {
    s.user.Some? && s.user.value.role == role
  }

  predicate IsAdmin(s: AuthState) { HasRole(s, AdminRole) }

  predicate IsInstructor(s: AuthState) { HasRole(s, InstructorRole) }

  predicate IsStudent(s: AuthState) { HasRole(s, StudentRole) }

  /** A user has one role, so at most one of the three helpers holds; none does when signed out. */
  lemma RolesExclusive(s: AuthState)
    requires Coherent(s)
    ensures !(IsAdmin(s) && IsInstructor(s)) && !(IsAdmin(s) && IsStudent(s)) && !(IsInstructor(s) && IsStudent(s))
    ensures !s.isAuthenticated ==> !IsAdmin(s) && !IsInstructor(s) && !IsStudent(s)
  {
  }

  /** The provider: the reducer's state and the two storage entries. */
  class AuthSession {
    var state: AuthState
    var storedToken: Option<string>
    var storedUser: Option<AuthUser>

    constructor (savedToken: Option<string>, savedUser: Option<AuthUser>)
      ensures state == InitialState(savedToken)
      ensures storedToken == savedToken && storedUser == savedUser
    {
      state := InitialState(savedToken);
      storedToken, storedUser := savedToken, savedUser;
    }

    /**
     * The response interceptor of the API client, run on every failed
     * request before the caller's `catch`: a 401 answer removes both storage
     * entries (and sends the browser to the sign-in page, which is not
     * modelled); any other failure leaves them.  The reducer state is not
     * touched.
     */
    method InterceptFailure(unauthorized: bool)
      modifies this
      ensures unauthorized ==> storedToken == None && storedUser == None
      ensures !unauthorized ==> storedToken == old(storedToken) && storedUser == old(storedUser)
      ensures state == old(state)
    {
      if unauthorized {
        storedToken := None;
        storedUser := None;
      }
    }

    /**
     * `login`: a successful answer is stored and signs the user in; a failed
     * one passes the interceptor (`unauthorized` is a 401 answer, such as bad
     * credentials) and records the server's message, or "Login failed" when
     * it is missing or empty.
     */
    method Login(answer: Option<(AuthUser, string)>, unauthorized: bool, serverMessage: Option<string>)
      returns (success: bool)
      modifies this
      ensures success <==> answer.Some?
      ensures success ==> storedToken == Some(answer.value.1) && storedUser == Some(answer.value.0)
      ensures success ==> state == Dispatch(old(state), [LoginStart, LoginSuccess(answer.value.0, answer.value.1)])
      ensures !success && unauthorized ==> storedToken == None && storedUser == None
      ensures !success && !unauthorized ==> storedToken == old(storedToken) && storedUser == old(storedUser)
      ensures !success ==> state == Dispatch(old(state), [LoginStart, LoginFailure(MessageOr(serverMessage, LoginFailedMessage))])
      ensures success ==> state.isAuthenticated && state.user == Some(answer.value.0) && state.error == None
      ensures !success ==> !state.isAuthenticated && state.user == None && state.token == None
      ensures !success ==> state.error.Some? && state.error.value != ""
    {
      state := Reduce(state, LoginStart);
      match answer {
        case Some((user, token)) =>
          storedToken := Some(token);
          storedUser := Some(user);
          state := Reduce(state, LoginSuccess(user, token));
          success := true;
          assert [LoginStart, LoginSuccess(user, token)][..1] == [LoginStart];
        case None =>
          InterceptFailure(unauthorized);
          state := Reduce(state, LoginFailure(MessageOr(serverMessage, LoginFailedMessage)));
          success := false;
          assert [LoginStart, LoginFailure(MessageOr(serverMessage, LoginFailedMessage))][..1] == [LoginStart];
      }
    }

    /**
     * `register`: a failed registration passes the interceptor and records
     * the server's message, or "Registration failed" when it is missing or
     * empty; a successful one logs in with the same credentials.
     */
    method Register(registered: bool, registerUnauthorized: bool, registerMessage: Option<string>,
                    loginAnswer: Option<(AuthUser, string)>, loginUnauthorized: bool, loginMessage: Option<string>)
      returns (success: bool)
      modifies this
      ensures success <==> registered && loginAnswer.Some?
      ensures !registered && registerUnauthorized ==> storedToken == None && storedUser == None
      ensures !registered && !registerUnauthorized ==> storedToken == old(storedToken) && storedUser == old(storedUser)
      ensures !registered ==> state == Reduce(Reduce(old(state), LoginStart), LoginFailure(MessageOr(registerMessage, RegistrationFailedMessage)))
      ensures success ==> state.isAuthenticated && storedUser == Some(loginAnswer.value.0)
      ensures success ==> storedToken == Some(loginAnswer.value.1) && state.user == Some(loginAnswer.value.0)
                          && state.token == Some(loginAnswer.value.1)
      ensures registered && !success && loginUnauthorized ==> storedToken == None && storedUser == None
      ensures registered && !success && !loginUnauthorized ==> storedToken == old(storedToken) && storedUser == old(storedUser)
      ensures registered && !success ==> state.error == Some(MessageOr(loginMessage, LoginFailedMessage))
      ensures !success ==> !state.isAuthenticated && state.error.Some? && state.error.value != ""
    {
      state := Reduce(state, LoginStart);
      if !registered {
        InterceptFailure(registerUnauthorized);
        state := Reduce(state, LoginFailure(MessageOr(registerMessage, RegistrationFailedMessage)));
        success := false;
      } else {
        success := Login(loginAnswer, loginUnauthorized, loginMessage);
      }
    }

    /** `loadUser`: a failure clears both storage entries and signs out. */
    method LoadUser(answer: Option<AuthUser>)
      modifies this
      ensures answer.Some? ==> state == Reduce(Reduce(old(state), LoadUserStart), LoadUserSuccess(answer.value))
      ensures answer.Some? ==> storedToken == old(storedToken) && storedUser == old(storedUser)
      ensures answer.Some? ==> state.token == old(state.token)
      ensures answer.None? ==> state == Reduce(Reduce(old(state), LoadUserStart), LoadUserFailure)
      ensures answer.None? ==> storedToken == None && storedUser == None
      ensures answer.None? ==> !state.isAuthenticated && state.user == None && state.token == None
    {
      state := Reduce(state, LoadUserStart);
      match answer {
        case Some(user) =>
          state := Reduce(state, LoadUserSuccess(user));
        case None =>
          storedToken := None;
          storedUser := None;
          state := Reduce(state, LoadUserFailure);
      }
    }

    /** On mount the user is loaded only when a (non-empty) token is stored and no user is known yet. */
    method Mount(answer: Option<AuthUser>)
      modifies this
      ensures (old(storedToken).None? || old(storedToken) == Some("") || old(state.user).Some?) ==>
                state == old(state) && storedToken == old(storedToken) && storedUser == old(storedUser)
      ensures old(storedToken).Some? && old(storedToken) != Some("") && old(state.user).None? ==>
                (answer.None? <==> storedToken == None && !state.isAuthenticated)
    {
      if storedToken.Some? && storedToken.value != "" && state.user.None? {
        LoadUser(answer);
      }
    }

    /** `logout`: both storage entries removed, the state signed out. */
    method Logout()
      modifies this
      ensures storedToken == None && storedUser == None
      ensures state == Reduce(old(state), Action.Logout)
      ensures !state.isAuthenticated && state.user == None && state.token == None
    {
      storedToken := None;
      storedUser := None;
      state := Reduce(state, Action.Logout);
    }
  }
}
