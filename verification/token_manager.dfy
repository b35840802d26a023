/** The token half of `res_partner` in addons/auth_signup/res_users.py:
    generating a unique token for a partner, finding the partner that holds a
    token, and building the signup link. */
module TokenManager {
  import opened Common
  import opened Tokens
  import opened Records

  /** A partner's token has expired when its expiration is set and strictly
      earlier than `now`; a token whose expiration equals `now` is still good. */
  predicate Expired(p: Partner, now: nat) {
    p.expiration.Some? && p.expiration.value < now
  }

  /** Some partner holds `token`. */
  predicate IsHeld(s: Store, token: string) {
    exists q :: 0 <= q < |s.partners| && s.partners[q].token == Some(token)
  }

  /** `signup_retrieve_partner`: the first partner holding exactly `token`, or
      none when no partner holds it. */
  function RetrievePartner(s: Store, token: string): (r: Option<nat>)
    ensures r.Some? ==> r.value < |s.partners| && s.partners[r.value].token == Some(token)
    ensures r.Some? ==> forall q :: 0 <= q < r.value ==> s.partners[q].token != Some(token)
    ensures r.None? <==> !IsHeld(s, token)
  {
    FirstMatch(s.partners, (p: Partner) => p.token == Some(token))
  }

  /** A stream of candidates, each the twenty picks of one `random_token` call. */
  predicate WellFormed(candidates: seq<seq<Draw>>) {
    forall k :: 0 <= k < |candidates| ==> |candidates[k]| == TokenLength
  }

  /** The regeneration loop ends within the stream: some candidate from
      position `from` on is a token that no partner holds. */
  predicate HasFreshCandidate(s: Store, candidates: seq<seq<Draw>>, from: nat) {
    && WellFormed(candidates)
    && exists k :: from <= k < |candidates| && !IsHeld(s, RandomToken(candidates[k]))
  }

  /** The regeneration loop: position of the first candidate from `from` on that
      no partner holds; every candidate before it collides with a held token. */
  function FirstFresh(s: Store, candidates: seq<seq<Draw>>, from: nat): (k: nat)
    requires HasFreshCandidate(s, candidates, from)
    ensures from <= k < |candidates| && !IsHeld(s, RandomToken(candidates[k]))
    ensures forall j :: from <= j < k ==> IsHeld(s, RandomToken(candidates[j]))
    decreases |candidates| - from
  {
    if RetrievePartner(s, RandomToken(candidates[from])).None? then from
    else FirstFresh(s, candidates, from + 1)
  }

  /** `s'` is `s` with partner `pid` now holding `token` and `expiration`, and
      nothing else changed. */
  predicate TokenWritten(s: Store, s': Store, pid: nat, token: string, expiration: Option<nat>) {
    && pid < |s.partners|
    && s'.users == s.users
    && s'.config == s.config
    && |s'.partners| == |s.partners|
    && s'.partners[pid] == s.partners[pid].(token := Some(token), expiration := expiration)
    && forall q :: 0 <= q < |s.partners| && q != pid ==> s'.partners[q] == s.partners[q]
  }

  /** `signup_generate_token`: draws candidates until one is held by no
      partner, then writes it and `expiration` onto partner `pid`. */
  function GenerateToken(s: Store, pid: nat, expiration: Option<nat>, candidates: seq<seq<Draw>>): (r: (Store, string))
    requires pid < |s.partners|
    requires HasFreshCandidate(s, candidates, 0)
    ensures IsToken(r.1)
    ensures !IsHeld(s, r.1)
    ensures exists k :: 0 <= k < |candidates| && r.1 == RandomToken(candidates[k])
    ensures TokenWritten(s, r.0, pid, r.1, expiration)
    ensures Valid(s) ==> Valid(r.0)
  {
    var token := RandomToken(candidates[FirstFresh(s, candidates, 0)]);
    var p := s.partners[pid];
    (s.(partners := s.partners[pid := p.(token := Some(token), expiration := expiration)]), token)
  }

  /** The signup link for database `dbname` and `token`. The base URL is
      treated as an opaque prefix. */
  function SignupLink(baseUrl: string, dbname: string, token: string): string {
    baseUrl + "/login?db=" + dbname + "#action=signup&token=" + token
  }

  /** `signup_get_url`: the link carrying the partner's token, generating a token
      (with no expiration) first when the partner has none. */
  function SignupGetUrl(s: Store, dbname: string, pid: nat, candidates: seq<seq<Draw>>): (r: (Store, string))
    requires pid < |s.partners|
    requires !Truthy(s.partners[pid].token) ==> HasFreshCandidate(s, candidates, 0)
    ensures |r.0.partners| == |s.partners|
    ensures Truthy(r.0.partners[pid].token)
    ensures r.1 == SignupLink(s.config.baseUrl, dbname, r.0.partners[pid].token.value)
    ensures Truthy(s.partners[pid].token) ==> r.0 == s
    ensures !Truthy(s.partners[pid].token) ==>
      var t := r.0.partners[pid].token.value;
      IsToken(t) && !IsHeld(s, t) && TokenWritten(s, r.0, pid, t, None)
    ensures Valid(s) ==> Valid(r.0)
  {
    var token := s.partners[pid].token;
    if Truthy(token) then (s, SignupLink(s.config.baseUrl, dbname, token.value))
    else
      var (s', t) := GenerateToken(s, pid, None, candidates);
      (s', SignupLink(s.config.baseUrl, dbname, t))
  }
}
