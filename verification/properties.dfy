/** Properties that relate several calls of the signup code: uniqueness of
    tokens over runs of generations, what a consumed token does on a second
    use, what a second link request does, and the invite-then-signup round
    trip. */
module Properties {
  import opened Common
  import opened Tokens
  import opened Records
  import opened TokenManager
  import opened Reconciler

  /** In a valid store the partner holding a token is its only holder, hence
      the one `signup_retrieve_partner` finds. */
  lemma HolderIsFirst(s: Store, token: string, pid: nat)
    requires Valid(s)
    requires pid < |s.partners| && s.partners[pid].token == Some(token)
    ensures RetrievePartner(s, token) == Some(pid)
  {
  }

  /** Two generations in a row never hand out the same token, whether for the
      same partner or for two partners: the first token is still held when the
      second is drawn. When the partners differ, both tokens stay in place. */
  lemma ConsecutiveTokensDiffer(s: Store, p: nat, q: nat, e1: Option<nat>, e2: Option<nat>,
                                c1: seq<seq<Draw>>, c2: seq<seq<Draw>>)
    requires p < |s.partners| && q < |s.partners|
    requires HasFreshCandidate(s, c1, 0)
    requires HasFreshCandidate(GenerateToken(s, p, e1, c1).0, c2, 0)
    ensures var (s1, t1) := GenerateToken(s, p, e1, c1);
            var (s2, t2) := GenerateToken(s1, q, e2, c2);
            && t1 != t2
            && (p != q ==> s2.partners[p].token == Some(t1) && s2.partners[q].token == Some(t2))
  {
  }

  /** Asking twice for a partner's signup link gives the same link, and the
      second request changes nothing: the token is generated at most once. */
  lemma SignupGetUrlStable(s: Store, dbname: string, pid: nat, c1: seq<seq<Draw>>, c2: seq<seq<Draw>>)
    requires pid < |s.partners|
    requires !Truthy(s.partners[pid].token) ==> HasFreshCandidate(s, c1, 0)
    ensures var (s1, link1) := SignupGetUrl(s, dbname, pid, c1);
            SignupGetUrl(s1, dbname, pid, c2) == (s1, link1)
  {
  }

  /** After the password-reset branch the token is consumed: submitting it
      again is refused as not valid. */
  lemma ResetConsumesToken(s: Store, dbname: string, v: SignupValues, token: Option<string>,
                           now: nat, pid: nat, v2: SignupValues, later: nat)
    requires Valid(s)
    requires v.login != "" && v.password != "" && v2.login != "" && v2.password != ""
    requires LiveHolder(s, token, now, pid)
    requires FirstUserOf(s, pid).Some?
    ensures Signup(s, dbname, v, token, now).Success?
    ensures Signup(Signup(s, dbname, v, token, now).value.0, dbname, v2, token, later) == Failure(InvalidToken)
  {
  }

  /** As written, activating an invited partner does not consume the token:
      the partner keeps it, and submitting it again resets the password of the
      user just created instead of being refused. */
  lemma ActivationLeavesTokenLive(s: Store, dbname: string, v: SignupValues, token: Option<string>,
                                  now: nat, pid: nat, v2: SignupValues)
    requires Valid(s)
    requires v.login != "" && v.password != "" && v2.login != "" && v2.password != ""
    requires LiveHolder(s, token, now, pid)
    requires FirstUserOf(s, pid).None?
    requires Signup(s, dbname, v, token, now).Success?
    ensures var s' := Signup(s, dbname, v, token, now).value.0;
            && s'.partners[pid].token == token
            && Signup(s', dbname, v2, token, now).Success?
            && PasswordReset(s', Signup(s', dbname, v2, token, now).value.0, |s.users|, pid, v2.password)
  {
  }

  /** Inviting a partner without a user and then signing up with the token
      creates that partner's user with the submitted login and password, when
      invited signup is allowed, a template exists and the login is free. */
  lemma InviteThenSignup(s: Store, dbname: string, pid: nat, c: seq<seq<Draw>>,
                         v: SignupValues, now: nat)
    requires Valid(s)
    requires pid < |s.partners|
    requires HasFreshCandidate(s, c, 0)
    requires FirstUserOf(s, pid).None?
    requires s.config.allowUninvited && TemplateExists(s) && LoginFree(s, v.login)
    requires v.login != "" && v.password != ""
    ensures var (s1, t) := GenerateToken(s, pid, None, c);
            var r := Signup(s1, dbname, v, Some(t), now);
            && r.Success?
            && r.value.1 == Credentials(dbname, v.login, v.password)
            && |r.value.0.users| == |s.users| + 1
            && var u := r.value.0.users[|s.users|];
            && u.partner == pid && u.login == v.login && u.password == v.password
            && u.email == v.login && u.active
  {
  }

  /** The expiry test is strict: a token whose expiration equals the current
      time is neither unknown nor expired, so signup goes on to the reset or
      activation branch; with a user it succeeds. */
  lemma ExpiryIsStrict(s: Store, dbname: string, v: SignupValues, token: string, pid: nat)
    requires Valid(s)
    requires v.login != "" && v.password != "" && token != ""
    requires pid < |s.partners| && s.partners[pid].token == Some(token)
    requires s.partners[pid].expiration.Some?
    ensures var r := Signup(s, dbname, v, Some(token), s.partners[pid].expiration.value);
            r != Failure(InvalidToken) && r != Failure(ExpiredToken)
    ensures FirstUserOf(s, pid).Some? ==>
      Signup(s, dbname, v, Some(token), s.partners[pid].expiration.value).Success?
  {
  }

  /** Generates a token for each partner of `pids` in turn, the i-th drawing
      from `streams[i]`, all with the same expiration. None when some stream
      holds no free candidate. */
  function GenerateEach(s: Store, pids: seq<nat>, expiration: Option<nat>, streams: seq<seq<seq<Draw>>>)
    : Option<(Store, seq<string>)>
    requires |streams| == |pids|
    requires forall i :: 0 <= i < |pids| ==> pids[i] < |s.partners|
    decreases |pids|
  {
    if |pids| == 0 then Some((s, []))
    else if !HasFreshCandidate(s, streams[0], 0) then None
    else
      var (s1, t) := GenerateToken(s, pids[0], expiration, streams[0]);
      match GenerateEach(s1, pids[1..], expiration, streams[1..])
      case None => None
      case Some((s2, ts)) => Some((s2, [t] + ts))
  }

  /** Generating tokens for distinct partners in turn leaves each partner
      holding its own token, keeps the store valid, and touches no other
      partner. */
  lemma {:induction false} GenerateEachHolds(s: Store, pids: seq<nat>, expiration: Option<nat>,
                                             streams: seq<seq<seq<Draw>>>)
    requires Valid(s)
    requires |streams| == |pids|
    requires forall i :: 0 <= i < |pids| ==> pids[i] < |s.partners|
    requires forall i, j :: 0 <= i < j < |pids| ==> pids[i] != pids[j]
    requires GenerateEach(s, pids, expiration, streams).Some?
    ensures var (s', ts) := GenerateEach(s, pids, expiration, streams).value;
            && Valid(s')
            && |ts| == |pids|
            && |s'.partners| == |s.partners|
            && (forall i :: 0 <= i < |pids| ==> s'.partners[pids[i]].token == Some(ts[i]))
            && (forall q :: 0 <= q < |s.partners| && q !in pids ==> s'.partners[q] == s.partners[q])
    decreases |pids|
  {
    if |pids| > 0 {
      var (s1, t) := GenerateToken(s, pids[0], expiration, streams[0]);
      var rest := pids[1..];
      assert forall i :: 0 <= i < |rest| ==> rest[i] == pids[i + 1];
      GenerateEachHolds(s1, rest, expiration, streams[1..]);
      var (s2, ts) := GenerateEach(s1, rest, expiration, streams[1..]).value;
      assert GenerateEach(s, pids, expiration, streams).value == (s2, [t] + ts);
      assert pids[0] !in rest;
      forall q | 0 <= q < |s.partners| && q !in pids
        ensures s2.partners[q] == s.partners[q]
      {
        assert q !in rest && q != pids[0];
      }
    }
  }

  /** Tokens generated in turn for distinct partners are pairwise distinct. */
  lemma GenerateEachDistinct(s: Store, pids: seq<nat>, expiration: Option<nat>, streams: seq<seq<seq<Draw>>>)
    requires Valid(s)
    requires |streams| == |pids|
    requires forall i :: 0 <= i < |pids| ==> pids[i] < |s.partners|
    requires forall i, j :: 0 <= i < j < |pids| ==> pids[i] != pids[j]
    requires GenerateEach(s, pids, expiration, streams).Some?
    ensures var ts := GenerateEach(s, pids, expiration, streams).value.1;
            forall i, j :: 0 <= i < j < |ts| ==> ts[i] != ts[j]
  {
    GenerateEachHolds(s, pids, expiration, streams);
    var (s', ts) := GenerateEach(s, pids, expiration, streams).value;
    forall i, j | 0 <= i < j < |ts|
      ensures ts[i] != ts[j]
    {
      var p, q := pids[i], pids[j];
      if p < q {
        assert s'.partners[p].token.Some?;
      } else {
        assert s'.partners[q].token.Some?;
      }
    }
  }

  /** Uniqueness only holds against tokens held at the time: once a partner's
      token is overwritten, a later generation may hand it out again. */
  lemma OverwrittenTokenMayReturn(s: Store)
    requires |s.partners| == 1 && s.partners[0].token.None?
    ensures var a := [seq(TokenLength, _ => 0 as Draw)];
            var b := [seq(TokenLength, _ => 1 as Draw)];
            && HasFreshCandidate(s, a, 0)
            && var (s1, t1) := GenerateToken(s, 0, None, a);
            && HasFreshCandidate(s1, b, 0)
            && var (s2, t2) := GenerateToken(s1, 0, None, b);
            && HasFreshCandidate(s2, a, 0)
            && var (s3, t3) := GenerateToken(s2, 0, None, a);
            && t1 != t2
            && t3 == t1
  {
    var a := [seq(TokenLength, _ => 0 as Draw)];
    var b := [seq(TokenLength, _ => 1 as Draw)];
    var ta := RandomToken(a[0]);
    var tb := RandomToken(b[0]);
    assert ta[0] == Alphabet()[0] != Alphabet()[1] == tb[0];
    assert !IsHeld(s, ta);
    var (s1, t1) := GenerateToken(s, 0, None, a);
    assert t1 == ta;
    assert !IsHeld(s1, tb);
    var (s2, t2) := GenerateToken(s1, 0, None, b);
    assert t2 == tb;
    assert !IsHeld(s2, ta);
  }
}
