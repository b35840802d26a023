/** Shared vocabulary of the signup model: optional values, the error kinds the
    signup code raises, and a result type that carries either a value or one of
    those errors.

    A failed operation returns no store at all: every call of the modelled code
    runs inside one database transaction, so an exception leaves the caller with
    the store it had before the call. */
module Common {

  /** A value that may be absent (`False`/`None` in the source). */
  datatype Option<+T> = None | Some(value: T) {

    /** The value, or `default` when absent. */
    function GetOr(default: T): T {
      match this
      case Some(v) => v
      case None => default
    }
  }

  /** The ways a signup call can fail. */
  datatype Error =
    | InvalidToken      // 'Signup token is not valid'
    | ExpiredToken      // 'Signup token is no longer valid'
    | SignupNotAllowed  // 'Signup is not allowed for uninvited users'
    | MissingTemplate   // the assertion on the template user id
    | MissingRecord     // copying a template id that names no user
    | LoginTaken        // the unique-login constraint of the user table
    | AccessDenied      // the credential check rejected the password

  datatype Result<+T> = Success(value: T) | Failure(error: Error)

  /** Python truthiness of an optional string: present and non-empty. */
  predicate Truthy(s: Option<string>) {
    s.Some? && s.value != ""
  }

  /** Index of the first element of `xs` satisfying `p`, if any. This is what
      `search(...)[0]` yields when records are listed in id order. */
  function FirstMatch<T>(xs: seq<T>, p: T -> bool): (r: Option<nat>)
    ensures r.Some? ==> r.value < |xs| && p(xs[r.value])
    ensures r.Some? ==> forall j :: 0 <= j < r.value ==> !p(xs[j])
    ensures r.None? <==> forall j :: 0 <= j < |xs| ==> !p(xs[j])
  {
    FirstMatchFrom(xs, p, 0)
  }

  /** Scans `xs` from position `from` onwards. */
  function FirstMatchFrom<T>(xs: seq<T>, p: T -> bool, from: nat): (r: Option<nat>)
    requires from <= |xs|
    requires forall j :: 0 <= j < from ==> !p(xs[j])
    ensures r.Some? ==> from <= r.value < |xs| && p(xs[r.value])
    ensures r.Some? ==> forall j :: 0 <= j < r.value ==> !p(xs[j])
    ensures r.None? <==> forall j :: 0 <= j < |xs| ==> !p(xs[j])
    decreases |xs| - from
  {
    if from == |xs| then None
    else if p(xs[from]) then Some(from)
    else FirstMatchFrom(xs, p, from + 1)
  }
}
