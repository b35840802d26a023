/** The store the signup code reads and writes: partners (`res.partner`),
    users (`res.users`) and the signup configuration (`ir.config_parameter`).

    Record ids are positions in the sequences, so a search that returns ids in
    id order returns the lowest matching position first. The record-creation
    primitives here stand for the ORM's `create` and `copy`. */
module Records {
  import opened Common

  /** A contact with the two columns the signup addon adds to it. */
  datatype Partner = Partner(
    name: string,
    token: Option<string>,     // signup_token
    expiration: Option<nat>)   // signup_expiration, a server timestamp

  /** A login account. `partner` is the contact it inherits from; `groups`
      stands for everything a user record carries besides the fields signup
      writes (access groups, preferences), which copying a template keeps. */
  datatype User = User(
    name: string,
    login: string,
    password: string,
    email: string,
    active: bool,
    partner: nat,
    groups: set<nat>)

  /** The configuration parameters signup reads. */
  datatype Config = Config(
    allowUninvited: bool,          // auth_signup.allow_uninvited
    templateUserId: Option<nat>,   // auth_signup.template_user_id
    baseUrl: string)               // web.base.url

  datatype Store = Store(partners: seq<Partner>, users: seq<User>, config: Config)

  /** The field values handed to `create` or `copy` for a new user. An absent
      `partner` means the user gets a contact of its own; an absent `active`
      means the default (or, for a copy, the template's flag) is kept. */
  datatype UserValues = UserValues(
    name: string,
    login: string,
    password: string,
    email: string,
    partner: Option<nat>,
    active: Option<bool>)

  /** What every operation of the model keeps true: users point at existing
      partners, logins are unique, and no two partners hold the same token. */
  predicate Valid(s: Store) {
    && (forall u :: 0 <= u < |s.users| ==> s.users[u].partner < |s.partners|)
    && (forall u, v :: 0 <= u < v < |s.users| ==> s.users[u].login != s.users[v].login)
    && (forall p, q :: 0 <= p < q < |s.partners| && s.partners[p].token.Some? ==>
          s.partners[p].token != s.partners[q].token)
  }

  /** No user has this login yet. */
  predicate LoginFree(s: Store, login: string) {
    forall u :: 0 <= u < |s.users| ==> s.users[u].login != login
  }

  /** `search([('login', '=', login)])[0]`: the first user with that login. */
  function FindUserByLogin(s: Store, login: string): (r: Option<nat>)
    ensures r.Some? ==> r.value < |s.users| && s.users[r.value].login == login
    ensures r.Some? ==> forall u :: 0 <= u < r.value ==> s.users[u].login != login
    ensures r.None? <==> LoginFree(s, login)
  {
    FirstMatch(s.users, (x: User) => x.login == login)
  }

  /** `partner.user_ids[0]`: the first user attached to partner `pid`. */
  function FirstUserOf(s: Store, pid: nat): (r: Option<nat>)
    ensures r.Some? ==> r.value < |s.users| && s.users[r.value].partner == pid
    ensures r.Some? ==> forall u :: 0 <= u < r.value ==> s.users[u].partner != pid
    ensures r.None? <==> forall u :: 0 <= u < |s.users| ==> s.users[u].partner != pid
  {
    FirstMatch(s.users, (x: User) => x.partner == pid)
  }

  /** Adds a user built from `v`, with the given activity flag and groups.
      Without a partner in `v`, a fresh partner carrying the user's name and no
      token is added as well. Fails when the login is already in use. */
  function AddUser(s: Store, v: UserValues, active: bool, groups: set<nat>): (r: Result<(Store, nat)>)
    requires v.partner.Some? ==> v.partner.value < |s.partners|
    ensures r.Failure? <==> !LoginFree(s, v.login)
    ensures r.Failure? ==> r.error == LoginTaken
    ensures r.Success? ==> NewUserAdded(s, r.value.0, r.value.1, v, active, groups)
    ensures r.Success? && Valid(s) ==> Valid(r.value.0)
  {
    if FindUserByLogin(s, v.login).Some? then Failure(LoginTaken)
    else
      var partners := if v.partner.Some? then s.partners else s.partners + [Partner(v.name, None, None)];
      var pid := if v.partner.Some? then v.partner.value else |s.partners|;
      var user := User(v.name, v.login, v.password, v.email, active, pid, groups);
      Success((s.(partners := partners, users := s.users + [user]), |s.users|))
  }

  /** `s'` is `s` with exactly one more user, number `uid`, carrying the values
      `v`; no existing record changes, and a partner is added only when `v`
      names none. */
  predicate NewUserAdded(s: Store, s': Store, uid: nat, v: UserValues, active: bool, groups: set<nat>) {
    && s'.config == s.config
    && uid == |s.users|
    && |s'.users| == |s.users| + 1
    && s'.users[..|s.users|] == s.users
    && var u := s'.users[uid];
    && u.name == v.name && u.login == v.login && u.password == v.password
    && u.email == v.email && u.active == active && u.groups == groups
    && (v.partner.Some? ==> s'.partners == s.partners && u.partner == v.partner.value)
    && (v.partner.None? ==>
          && |s'.partners| == |s.partners| + 1
          && s'.partners[..|s.partners|] == s.partners
          && u.partner == |s.partners|
          && s'.partners[u.partner] == Partner(v.name, None, None))
  }

  /** `res.users.create(v)`: a new user is active unless `v` says otherwise, and
      belongs to no group. */
  function CreateUser(s: Store, v: UserValues): (r: Result<(Store, nat)>)
    requires v.partner.Some? ==> v.partner.value < |s.partners|
    ensures r.Failure? <==> !LoginFree(s, v.login)
    ensures r.Success? ==> NewUserAdded(s, r.value.0, r.value.1, v, v.active.GetOr(true), {})
    ensures r.Success? && Valid(s) ==> Valid(r.value.0)
  {
    AddUser(s, v, v.active.GetOr(true), {})
  }

  /** `res.users.copy(template, v)`: the copy takes the fields of `v` and
      everything else (groups, and the activity flag unless `v` sets it) from
      the template. Fails when the template does not exist or the login is taken. */
  function CopyUser(s: Store, template: nat, v: UserValues): (r: Result<(Store, nat)>)
    requires v.partner.Some? ==> v.partner.value < |s.partners|
    ensures template >= |s.users| ==> r == Failure(MissingRecord)
    ensures template < |s.users| ==>
      (r.Failure? <==> !LoginFree(s, v.login))
    ensures r.Success? ==> template < |s.users|
    ensures r.Success? ==>
      var t := s.users[template];
      NewUserAdded(s, r.value.0, r.value.1, v, v.active.GetOr(t.active), t.groups)
    ensures r.Success? && Valid(s) ==> Valid(r.value.0)
  {
    if template >= |s.users| then Failure(MissingRecord)
    else
      var t := s.users[template];
      AddUser(s, v, v.active.GetOr(t.active), t.groups)
  }
}
