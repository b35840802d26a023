/** The signup decision tree of addons/auth_signup/res_users.py:
    `res_partner.signup` and `_signup_create_user`, and the login-based
    `res_users.auth_signup` with `auth_signup_create`.

    The clock is the parameter `now`; the credential check of `res.users` is
    the parameter `check`. */
module Reconciler {
  import opened Common
  import opened Records
  import opened TokenManager

  /** What a successful signup returns: `(dbname, login, password)`. */
  datatype Credentials = Credentials(dbname: string, login: string, password: string)

  /** The `values` dictionary handed to `signup`. */
  datatype SignupValues = SignupValues(login: string, password: string, name: Option<string>)

  /** The configured template user exists. */
  predicate TemplateExists(s: Store) {
    s.config.templateUserId.Some? && s.config.templateUserId.value < |s.users|
  }

  /** The groups a copy of the configured template receives. */
  function TemplateGroups(s: Store): set<nat> {
    if TemplateExists(s) then s.users[s.config.templateUserId.value].groups else {}
  }

  /** `token` is given, the lookup finds partner `pid` for it, and that
      partner's token has not expired at `now`. */
  predicate LiveHolder(s: Store, token: Option<string>, now: nat, pid: nat) {
    && Truthy(token)
    && RetrievePartner(s, token.value) == Some(pid)
    && !Expired(s.partners[pid], now)
  }

  /** `s'` is `s` after the password-reset branch: user `uid` has password `pw`,
      partner `pid` has neither token nor expiration, and nothing else changed. */
  predicate PasswordReset(s: Store, s': Store, uid: nat, pid: nat, pw: string) {
    && uid < |s.users| && pid < |s.partners|
    && s'.config == s.config
    && |s'.users| == |s.users|
    && s'.users[uid] == s.users[uid].(password := pw)
    && (forall u :: 0 <= u < |s.users| && u != uid ==> s'.users[u] == s.users[u])
    && |s'.partners| == |s.partners|
    && s'.partners[pid] == s.partners[pid].(token := None, expiration := None)
    && (forall q :: 0 <= q < |s.partners| && q != pid ==> s'.partners[q] == s.partners[q])
  }

  /** The password-reset branch: user `uid` gets password `pw`, and the token
      columns, which the user inherits from its partner, are cleared on that
      partner. */
  function ResetPassword(s: Store, uid: nat, pw: string): (s': Store)
    requires uid < |s.users| && s.users[uid].partner < |s.partners|
    ensures PasswordReset(s, s', uid, s.users[uid].partner, pw)
    ensures Valid(s) ==> Valid(s')
  {
    var owner := s.users[uid].partner;
    var users := s.users[uid := s.users[uid].(password := pw)];
    var partners := s.partners[owner := s.partners[owner].(token := None, expiration := None)];
    s.(users := users, partners := partners)
  }

  /** `_signup_create_user`: copies the template user with `v` and `active`
      set. As written, the policy check refuses the call when a token IS given
      and uninvited signup is off; a call without a token is never refused by
      it. A missing template id is refused. */
  function SignupCreateUser(s: Store, v: UserValues, token: Option<string>): (r: Result<(Store, nat)>)
    requires v.partner.Some? ==> v.partner.value < |s.partners|
    ensures Truthy(token) && !s.config.allowUninvited ==> r == Failure(SignupNotAllowed)
    ensures (!Truthy(token) || s.config.allowUninvited) && s.config.templateUserId.None? ==>
      r == Failure(MissingTemplate)
    ensures r.Success? <==>
      (!Truthy(token) || s.config.allowUninvited) && TemplateExists(s) && LoginFree(s, v.login)
    ensures r.Success? ==>
      NewUserAdded(s, r.value.0, r.value.1, v.(active := Some(true)), true, TemplateGroups(s))
    ensures r.Success? && Valid(s) ==> Valid(r.value.0)
  {
    if Truthy(token) && !s.config.allowUninvited then Failure(SignupNotAllowed)
    else if s.config.templateUserId.None? then Failure(MissingTemplate)
    else CopyUser(s, s.config.templateUserId.value, v.(active := Some(true)))
  }

  /** The token branch of `res_partner.signup` once the token's holder `pid`
      is known and not expired: reset the password of the holder's first user
      and clear the token, or, when the holder has no user, create one for it
      from the template. */
  function SignupHolder(s: Store, dbname: string, v: SignupValues, token: string, pid: nat)
    : (r: Result<(Store, Credentials)>)
    requires pid < |s.partners| && s.partners[pid].token == Some(token) && token != ""
    ensures r.Success? ==> r.value.1 == Credentials(dbname, v.login, v.password)
    ensures r.Success? && Valid(s) ==> Valid(r.value.0)
    ensures forall uid: nat :: FirstUserOf(s, pid) == Some(uid) ==>
      r.Success? && PasswordReset(s, r.value.0, uid, pid, v.password)
    ensures FirstUserOf(s, pid).None? ==>
      && (r.Success? <==> s.config.allowUninvited && TemplateExists(s) && LoginFree(s, v.login))
      && (!s.config.allowUninvited ==> r == Failure(SignupNotAllowed))
      && (s.config.allowUninvited && s.config.templateUserId.None? ==> r == Failure(MissingTemplate))
      && (r.Success? ==>
            NewUserAdded(s, r.value.0, |s.users|,
                         UserValues(s.partners[pid].name, v.login, v.password, v.login, Some(pid), Some(true)),
                         true, TemplateGroups(s)))
  {
    var result := Credentials(dbname, v.login, v.password);
    match FirstUserOf(s, pid)
    case Some(uid) => Success((ResetPassword(s, uid, v.password), result))
    case None =>
      var values := UserValues(s.partners[pid].name, v.login, v.password, v.login, Some(pid), None);
      match SignupCreateUser(s, values, Some(token))
      case Failure(e) => Failure(e)
      case Success((s', _)) => Success((s', result))
  }

  /** The tokenless branch of `res_partner.signup`: an external user with a
      partner of its own, copied from the template. The policy check never
      refuses it. */
  function SignupExternal(s: Store, dbname: string, v: SignupValues): (r: Result<(Store, Credentials)>)
    requires v.name.Some?
    ensures r.Success? ==> r.value.1 == Credentials(dbname, v.login, v.password)
    ensures r.Success? && Valid(s) ==> Valid(r.value.0)
    ensures s.config.templateUserId.None? ==> r == Failure(MissingTemplate)
    ensures r.Success? <==> TemplateExists(s) && LoginFree(s, v.login)
    ensures r.Success? ==>
      NewUserAdded(s, r.value.0, |s.users|,
                   UserValues(v.name.value, v.login, v.password, v.login, None, Some(true)),
                   true, TemplateGroups(s))
  {
    var values := UserValues(v.name.value, v.login, v.password, v.login, None, None);
    match SignupCreateUser(s, values, None)
    case Failure(e) => Failure(e)
    case Success((s', _)) => Success((s', Credentials(dbname, v.login, v.password)))
  }

  /** `res_partner.signup`. With a token: refuse an unknown or expired token,
      then continue as `SignupHolder`. Without a token: `SignupExternal`. */
  function Signup(s: Store, dbname: string, v: SignupValues, token: Option<string>, now: nat)
    : (r: Result<(Store, Credentials)>)
    requires v.login != "" && v.password != ""
    requires !Truthy(token) ==> v.name.Some? && v.name.value != ""
    ensures r.Success? ==> r.value.1 == Credentials(dbname, v.login, v.password)
    ensures r.Success? && Valid(s) ==> Valid(r.value.0)
    // an unknown or expired token is refused
    ensures Truthy(token) && !IsHeld(s, token.value) ==> r == Failure(InvalidToken)
    ensures forall pid: nat ::
      Truthy(token) && RetrievePartner(s, token.value) == Some(pid) && Expired(s.partners[pid], now) ==>
        r == Failure(ExpiredToken)
    // the holder already has a user: password reset, token consumed
    ensures forall pid: nat, uid: nat ::
      LiveHolder(s, token, now, pid) && FirstUserOf(s, pid) == Some(uid) ==>
        r.Success? && PasswordReset(s, r.value.0, uid, pid, v.password)
    // the holder has no user yet: one user is created for it from the template
    ensures forall pid: nat ::
      LiveHolder(s, token, now, pid) && FirstUserOf(s, pid).None? ==>
        && (r.Success? <==> s.config.allowUninvited && TemplateExists(s) && LoginFree(s, v.login))
        && (!s.config.allowUninvited ==> r == Failure(SignupNotAllowed))
        && (s.config.allowUninvited && s.config.templateUserId.None? ==> r == Failure(MissingTemplate))
        && (r.Success? ==>
              NewUserAdded(s, r.value.0, |s.users|,
                           UserValues(s.partners[pid].name, v.login, v.password, v.login, Some(pid), Some(true)),
                           true, TemplateGroups(s)))
    // no token: an external user with a partner of its own
    ensures !Truthy(token) ==>
      && (s.config.templateUserId.None? ==> r == Failure(MissingTemplate))
      && (r.Success? <==> TemplateExists(s) && LoginFree(s, v.login))
      && (r.Success? ==>
            NewUserAdded(s, r.value.0, |s.users|,
                         UserValues(v.name.value, v.login, v.password, v.login, None, Some(true)),
                         true, TemplateGroups(s)))
  {
    if Truthy(token) then
      match RetrievePartner(s, token.value)
      case None => Failure(InvalidToken)
      case Some(pid) =>
        if Expired(s.partners[pid], now) then Failure(ExpiredToken)
        else SignupHolder(s, dbname, v, token.value, pid)
    else SignupExternal(s, dbname, v)
  }

  /** `res_users.auth_signup_create`: copies the template user when one is
      configured, and creates the user directly otherwise. */
  function AuthSignupCreate(s: Store, v: UserValues): (r: Result<(Store, nat)>)
    requires v.partner.Some? ==> v.partner.value < |s.partners|
    ensures s.config.templateUserId.Some? ==>
      (r.Success? <==> TemplateExists(s) && LoginFree(s, v.login))
    ensures s.config.templateUserId.None? ==> (r.Success? <==> LoginFree(s, v.login))
    ensures r.Success? && s.config.templateUserId.Some? ==>
      var t := s.users[s.config.templateUserId.value];
      NewUserAdded(s, r.value.0, r.value.1, v, v.active.GetOr(t.active), t.groups)
    ensures r.Success? && s.config.templateUserId.None? ==>
      NewUserAdded(s, r.value.0, r.value.1, v, v.active.GetOr(true), {})
    ensures r.Success? && Valid(s) ==> Valid(r.value.0)
  {
    match s.config.templateUserId
    case Some(t) => CopyUser(s, t, v)
    case None => CreateUser(s, v)
  }

  /** `res_users.auth_signup`: an existing login is only checked against the
      password (a failed check propagates as `AccessDenied`); a new login gets an
      active user whose email is the login. */
  function AuthSignup(s: Store, dbname: string, name: string, login: string, password: string,
                      check: (string, nat, string) -> bool): (r: Result<(Store, Credentials)>)
    ensures r.Success? ==> r.value.1 == Credentials(dbname, login, password)
    ensures r.Success? && Valid(s) ==> Valid(r.value.0)
    // existing login: nothing changes, and the outcome is the credential check's
    ensures !LoginFree(s, login) ==>
      && (r.Success? ==> r.value.0 == s)
      && (r.Failure? ==> r.error == AccessDenied)
      && (r.Success? <==> check(dbname, FindUserByLogin(s, login).value, password))
    // new login: exactly one active user is added
    ensures LoginFree(s, login) ==>
      && (r.Success? <==> s.config.templateUserId.None? || TemplateExists(s))
      && (r.Success? ==>
            NewUserAdded(s, r.value.0, |s.users|, UserValues(name, login, password, login, None, Some(true)),
                         true, TemplateGroups(s)))
  {
    var result := Credentials(dbname, login, password);
    match FindUserByLogin(s, login)
    case Some(uid) =>
      if check(dbname, uid, password) then Success((s, result)) else Failure(AccessDenied)
    case None =>
      var values := UserValues(name, login, password, login, None, Some(true));
      match AuthSignupCreate(s, values)
      case Failure(e) => Failure(e)
      case Success((s', _)) => Success((s', result))
  }
}
