/**
 * The login and registration screen state (AuthViewModel). Each launched
 * coroutine body runs to completion as one method. The ghost sequences
 * `loginEmitted` and `registerEmitted` record every value the two state
 * flows take, so that the passage through `Loading` is visible.
 */
module AuthViewModel {
  import opened Wrappers
  import opened Entities
  import opened UserRepository
  import opened UserPreferences

  datatype LoginState = Initial | Loading | Success | Error(message: string)
  datatype RegisterState = Initial | Loading | Success | Error(message: string)

  /** Shown when the two typed passwords differ. */
  const PasswordsDiffer := "两次输入的密码不一致"

  class AuthViewModel {
    const repo: UserRepository
    const prefs: UserPreferences
    var loginState: LoginState
    var registerState: RegisterState
    ghost var loginEmitted: seq<LoginState>
    ghost var registerEmitted: seq<RegisterState>

    ghost predicate Valid()
      reads this, repo
    {
      repo.Valid()
    }

    constructor (repo: UserRepository, prefs: UserPreferences)
      requires repo.Valid()
      ensures Valid() && this.repo == repo && this.prefs == prefs
      ensures loginState == LoginState.Initial && registerState == RegisterState.Initial
      ensures loginEmitted == [LoginState.Initial] && registerEmitted == [RegisterState.Initial]
    {
      this.repo := repo;
      this.prefs := prefs;
      loginState := LoginState.Initial;
      registerState := RegisterState.Initial;
      loginEmitted := [LoginState.Initial];
      registerEmitted := [RegisterState.Initial];
    }

    /** `isUserLoggedIn`: a stored, positive user id. */
    function IsUserLoggedIn(): (b: bool)
      reads prefs
      ensures b <==> prefs.userId.Some? && prefs.userId.value > 0
    {
      match prefs.userId
      case Some(id) => id > 0
      case None => false
    }

    /**
     * `login`: passes through Loading; on success stores the user's id in
     * the session and ends in Success, on failure leaves the session alone
     * and ends in Error with the repository's message.
     */
    method Login(username: string, password: string)
      requires Valid()
      modifies this, prefs
      ensures Valid()
      ensures loginEmitted == old(loginEmitted) + [LoginState.Loading] + [loginState]
      ensures registerState == old(registerState) && registerEmitted == old(registerEmitted)
      ensures repo.Login(username, password).Success? ==>
                prefs.userId == Some(repo.Login(username, password).value.id) && loginState == LoginState.Success
      ensures repo.Login(username, password).Failure? ==>
                prefs.userId == old(prefs.userId) && loginState == LoginState.Error(WrongCredentials)
    {
      loginState := LoginState.Loading;
      loginEmitted := loginEmitted + [loginState];
      var result := repo.Login(username, password);
      if result.Success? {
        prefs.SaveUserId(result.value.id);
        loginState := LoginState.Success;
      } else {
        loginState := LoginState.Error(result.error);
      }
      loginEmitted := loginEmitted + [loginState];
    }

    /**
     * `register`: differing passwords end in Error at once, without Loading,
     * without touching the table or the session. Otherwise it passes
     * through Loading; a taken name ends in Error with the table and the
     * session unchanged; a fresh name stores the user, logs them in and ends
     * in Success, after which logging in with the same pair succeeds.
     */
    method Register(username: string, password: string, confirmPassword: string, now: int)
      requires Valid()
      modifies this, prefs, repo
      ensures Valid()
      ensures loginState == old(loginState) && loginEmitted == old(loginEmitted)
      ensures password != confirmPassword ==>
                registerState == RegisterState.Error(PasswordsDiffer) &&
                registerEmitted == old(registerEmitted) + [registerState] &&
                repo.users == old(repo.users) && repo.nextId == old(repo.nextId) &&
                prefs.userId == old(prefs.userId)
      ensures password == confirmPassword ==>
                registerEmitted == old(registerEmitted) + [RegisterState.Loading] + [registerState]
      ensures password == confirmPassword && old(UserByUsername(repo.users, username)).Some? ==>
                registerState == RegisterState.Error(UsernameTaken) &&
                repo.users == old(repo.users) && repo.nextId == old(repo.nextId) &&
                prefs.userId == old(prefs.userId)
      ensures password == confirmPassword && old(UserByUsername(repo.users, username)).None? ==>
                registerState == RegisterState.Success &&
                prefs.userId == Some(old(repo.nextId)) && repo.nextId == old(repo.nextId) + 1 &&
                repo.users == old(repo.users)[old(repo.nextId) := UserRecord(old(repo.nextId), username, password, now)] &&
                repo.Login(username, password) == Result.Success(repo.users[old(repo.nextId)])
    {
      if password != confirmPassword {
        registerState := RegisterState.Error(PasswordsDiffer);
        registerEmitted := registerEmitted + [registerState];
        return;
      }
      registerState := RegisterState.Loading;
      registerEmitted := registerEmitted + [registerState];
      var result := repo.Register(username, password, now);
      if result.Success? {
        prefs.SaveUserId(result.value);
        registerState := RegisterState.Success;
      } else {
        registerState := RegisterState.Error(result.error);
      }
      registerEmitted := registerEmitted + [registerState];
    }

    /** `resetStates`: both states back to Initial. */
    method ResetStates()
      modifies this
      ensures loginState == LoginState.Initial && registerState == RegisterState.Initial
      ensures loginEmitted == old(loginEmitted) + [loginState]
      ensures registerEmitted == old(registerEmitted) + [registerState]
    {
      loginState := LoginState.Initial;
      registerState := RegisterState.Initial;
      loginEmitted := loginEmitted + [loginState];
      registerEmitted := registerEmitted + [registerState];
    }

    /** `logout`: clears the session and sets the login state to Initial; the register state is left as it is. */
    method Logout()
      modifies this, prefs
      ensures prefs.userId == None && !IsUserLoggedIn()
      ensures loginState == LoginState.Initial && loginEmitted == old(loginEmitted) + [loginState]
      ensures registerState == old(registerState) && registerEmitted == old(registerEmitted)
    {
      prefs.ClearUserId();
      loginState := LoginState.Initial;
      loginEmitted := loginEmitted + [loginState];
    }
  }
}
