# Signup tokens and the signup decision tree (auth_signup)

This project is a Dafny model of the signup component of the `auth_signup`
addon (`addons/auth_signup/res_users.py`). It covers two parts.

- **Token manager** (`res_partner`): `random_token` draws a 20-symbol token
  over the alphabet `A-Z a-z 0-9 + /`. `signup_generate_token` redraws until
  no partner holds the token, then writes the token and an expiration onto
  the partner. `signup_retrieve_partner` finds the first partner holding a
  token. `signup_get_url` builds the signup link, generating a token first
  when the partner has none.
- **Signup reconciler**: `res_partner.signup` picks one of three branches.
  With a token it either resets the password of the partner's user or creates
  the partner's user from the template. Without a token it creates an
  external user. `_signup_create_user` applies the policy check and the
  template requirement. `res_users.auth_signup` and `auth_signup_create`
  handle signup by login: an existing login gets a credential check, and a
  new login gets a copy of the template user, or a plain user when no
  template is configured.

The store is an immutable value: `Store(partners, users, config)`. Record ids
are positions in the sequences, so "the first record a search returns" is the
lowest matching position. Every operation is a pure function that returns
either the new store with its result, or an `Error`. A failure carries no
store: the call runs in one transaction, so the caller keeps the store it
had. The predicate `Records.Valid` collects the store invariants: users point
at existing partners, logins are unique, and no two partners hold the same
token. Every operation is proved to preserve it.

Modules:
- `common.dfy` (`Common`): `Option`, the error kinds, `Result`, Python
  truthiness of an optional string, and `FirstMatch`, the first position
  satisfying a predicate.
- `tokens.dfy` (`Tokens`): the alphabet, `random_token`, and the inverse
  that reads the draws back out of a token.
- `records.dfy` (`Records`): partners, users, configuration, the invariant,
  and the ORM primitives `create` and `copy` for users.
- `token_manager.dfy` (`TokenManager`): token generation, lookup, expiry and
  the signup link.
- `reconciler.dfy` (`Reconciler`): `signup`, `_signup_create_user`,
  `auth_signup_create` and `auth_signup`.
- `properties.dfy` (`Properties`): properties that relate several calls.

## Behaviour as written

The model follows the code as written, including the points below, which
look unintended or easy to misread. Each point is stated in the model.

- **Policy check.** The comment at `res_users.py:125` ("check that uninvited
  users may sign up") and the message at `:128` ("not allowed for uninvited
  users") both target callers without a token. The test at `:127` refuses
  when a token IS given and `allow_uninvited` is off. So an invited partner
  without a user cannot sign up while the flag is off, and the tokenless
  call at `:115` is never refused by the check.
  `Reconciler.SignupCreateUser`, `Reconciler.SignupExternal` and
  `Reconciler.Signup` state this literally.
- **Expiry boundary.** The test at `:91` is strict (`expiration < now()`),
  so a token whose expiration equals the current time is still accepted
  (`Properties.ExpiryIsStrict`).
- **Single use.** The comment at `:95` ("modify its password and clear
  token") is on the password-reset branch only. The activation branch at
  `:101-109` writes no token fields. So the reset branch consumes the token
  (`Properties.ResetConsumesToken`), but after an activation the partner
  keeps it, and a second signup with it resets the new user's password
  (`Properties.ActivationLeavesTokenLive`).
- **Uniqueness.** A generated token differs from every token held at the time
  of generation. It need not differ from tokens that were overwritten or
  cleared earlier (`Properties.OverwrittenTokenMayReturn`). Two generations in a row always differ
  (`Properties.ConsecutiveTokensDiffer`). Generations for distinct partners
  in turn give pairwise distinct tokens (`Properties.GenerateEachDistinct`).
- **`expiration` in `signup_generate_token`.** `:57` uses `expiration`, which
  is not a parameter of the method. The model takes it as the optional
  parameter that the docstring at `:50` describes.
- **Clearing the token.** The password-reset branch writes the token fields
  through the user record (`:96-100`). They belong to the user's partner, so
  the model clears them on that partner, which is the token holder.

## Model

| member | source | states |
|---|---|---|
| Tokens.RandomToken | addons/auth_signup/res_users.py:31-34 | every token has 20 characters, each in `A-Z a-z 0-9 + /` |
| Tokens.SymbolIndex | addons/auth_signup/res_users.py:33 | every token character sits at a position of the alphabet |
| Tokens.AlphabetDistinct | addons/auth_signup/res_users.py:32-33 | the 64 alphabet symbols are pairwise distinct, so each carries 6 bits |
| Tokens.DrawsRoundTrip | addons/auth_signup/res_users.py:31-34 | the picks can be read back from the token, so different picks give different tokens |
| Tokens.TokenRoundTrip | addons/auth_signup/res_users.py:31-34 | every 20-character string over the alphabet is some draw's token |
| Common.FirstMatch | addons/auth_signup/res_users.py:62-63 | returns the first position satisfying the predicate, or none exactly when no position does |
| TokenManager.RetrievePartner | addons/auth_signup/res_users.py:60-63 | returns the first partner holding exactly the token; returns none exactly when no partner holds it |
| Records.FindUserByLogin | addons/auth_signup/res_users.py:157-160 | returns the first user with the login; returns none exactly when no user has it |
| Records.FirstUserOf | addons/auth_signup/res_users.py:94-96 | returns the first user attached to the partner; returns none exactly when the partner has no user |
| Records.CreateUser | addons/auth_signup/res_users.py:153 | fails exactly when the login is taken; otherwise adds exactly one user carrying the values, active by default, with a new partner when none is given; keeps the invariant |
| Records.CopyUser | addons/auth_signup/res_users.py:133 | fails for a missing template or a taken login; otherwise adds one user with the values plus the template's groups and activity flag; keeps the invariant |
| TokenManager.FirstFresh | addons/auth_signup/res_users.py:54-56 | the retry loop stops at the first candidate no partner holds; every earlier candidate was held |
| TokenManager.GenerateToken | addons/auth_signup/res_users.py:47-58 | the token is well formed, was held by no partner, and is one of the drawn candidates; afterwards the partner holds it with the given expiration, and nothing else changes; keeps the invariant |
| TokenManager.SignupGetUrl | addons/auth_signup/res_users.py:65-71 | the link is `base/login?db=<db>#action=signup&token=<t>`, where t is the token the partner now holds; an existing token leaves the store unchanged; otherwise a fresh token with no expiration is written |
| Reconciler.SignupCreateUser | addons/auth_signup/res_users.py:123-133 | refuses when a token is given and uninvited signup is off; refuses a missing template id; succeeds exactly when the check passes, the template exists and the login is free; the copy is active |
| Reconciler.Signup | addons/auth_signup/res_users.py:73-121 | every success returns `(dbname, login, password)`; an unknown token fails as not valid and an expired one as no longer valid; a holder with a user gets that user's password reset and its token and expiration cleared, with nothing else changed; a holder without a user gets exactly one user (partner's name, login, password, email = login, active), is refused when uninvited signup is off, and fails with the missing-template error when the flag is on and no template id is set; a tokenless call adds an external user, fails without a template id, and is never refused by the policy check; keeps the invariant |
| Reconciler.ResetPassword | addons/auth_signup/res_users.py:94-100 | the user gets the new password and its partner loses token and expiration; nothing else changes; keeps the invariant |
| Reconciler.SignupHolder | addons/auth_signup/res_users.py:94-111 | a holder with a user gets that user's password reset; a holder without a user gets exactly one new user for it, is refused when uninvited signup is off, and fails with the missing-template error when the flag is on and no template id is set |
| Reconciler.SignupExternal | addons/auth_signup/res_users.py:113-121 | fails with the missing-template error when no template id is set; succeeds exactly when the template exists and the login is free, whatever the policy flag; adds one active user with its own partner and email = login |
| Reconciler.AuthSignupCreate | addons/auth_signup/res_users.py:140-153 | copies the template when one is configured and creates directly otherwise; succeeds exactly when the template (if configured) exists and the login is free |
| Reconciler.AuthSignup | addons/auth_signup/res_users.py:155-177 | an existing login leaves the store unchanged and fails with access denied exactly when the credential check fails; a new login adds exactly one active user with email = login; success returns `(dbname, login, password)` |
| Properties.HolderIsFirst | addons/auth_signup/res_users.py:60-63 | in a valid store, the partner holding a token is the one the lookup finds |
| Properties.ConsecutiveTokensDiffer | addons/auth_signup/res_users.py:53-58 | two generations in a row give different tokens; for two partners, both tokens stay in place |
| Properties.SignupGetUrlStable | addons/auth_signup/res_users.py:68-71 | a second link request returns the same link and changes nothing |
| Properties.ResetConsumesToken | addons/auth_signup/res_users.py:85-100 | after a password reset, the same token is refused as not valid |
| Properties.ActivationLeavesTokenLive | addons/auth_signup/res_users.py:94-109 | after an activation the partner keeps the token, and reusing it resets the new user's password |
| Properties.InviteThenSignup | addons/auth_signup/res_users.py:53-58 | generating a token for a partner without a user and signing up with it creates that partner's user with the given login and password |
| Properties.GenerateEachHolds | addons/auth_signup/res_users.py:53-58 | generating tokens for distinct partners in turn leaves each holding its own token, keeps the store valid and touches no other partner |
| Properties.GenerateEachDistinct | addons/auth_signup/res_users.py:53-58 | tokens generated in turn for distinct partners are pairwise distinct |
| Properties.OverwrittenTokenMayReturn | addons/auth_signup/res_users.py:53-58 | three generations for one partner can hand out the first token again, once the second has overwritten it |
| Properties.ExpiryIsStrict | addons/auth_signup/res_users.py:91 | a token whose expiration equals the current time is neither unknown nor expired, so signup goes on to the reset or activation branch; with a user it succeeds |

## Left out

- Randomness: each `random.choice` is an alphabet position supplied by the
  caller. `GenerateToken` takes a stream of candidate draws and requires that
  one of them is free. The source's loop has no bound, and this requirement
  stands in for its termination.
- The clock: `now()` (`res_users.py:36-37`) is the parameter `now`.
  Timestamps are naturals. The server writes them in a fixed format, and the
  source compares those strings, which orders them by time.
- URL joining: `urlparse.urljoin` is not modelled. The link is the base URL
  followed by the fixed suffix.
- Configuration storage: `ir.config_parameter` is the `Config` record.
  Parameters are stored as strings, and Python treats a stored string such as
  `"False"` as true. The model abstracts `allow_uninvited` to a boolean and the
  template id to an optional id.
- Credential checking: `res.users.check` and password hashing are the
  parameter `check`. A failed check is the `AccessDenied` error.
- The undefined `uid`: `signup` (`:73`) has no `uid` parameter, yet it
  passes `uid` at `:87`, `:90`, `:103` and `:115`. As written, every token call that gets past the
  assertion at `:82`, and every tokenless call that gets past the assertions
  at `:82` and `:114`, would stop with a name error. `uid` is only an access
  context, so the model drops it on every path and models the evident
  intent.
- ORM details: the SUPERUSER_ID bypass and `context` are dropped. Searches
  return ids in id order. Searches and one2many reads do not filter out
  inactive records.
- Template copy: a user record carries `groups`, which stands for everything
  the copy takes from the template. The defaults that a direct `create` fills
  in are not modelled beyond `active`, and a directly created user has no
  groups. The partner's own email field is not modelled. The `user_email`
  value written by `auth_signup` is the user's `email`.
- Column sizes: the 24-character limit on `signup_token` is not modelled.
  Generated tokens have 20 characters.
- Programming-contract failures: the assertions at `:82` (login and password
  present) and `:114` (name present for a tokenless signup) are preconditions
  of `Reconciler.Signup`. They are not error results.
- Concurrency: transaction isolation is not modelled. Each call is one atomic
  step.
- The `raise_exception` argument of `signup_retrieve_partner` is unused in the
  source and is left out.
