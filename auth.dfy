/**
 * The authentication gate run before the protected handlers: it takes the
 * access token from the `accessToken` cookie or, failing that, from the
 * Authorization header, verifies it, and loads the account it names
 * without its password and refresh token. It reads the store and never
 * writes it.
 */
module AuthMiddleware {
  import opened Tables
  import opened Records

  /** What token verification gave: the `_id` claim (None when there is none), or the error it threw. */
  datatype Decoded = Decoded(id: Option<Id>) | Rejected(reason: string)

  /** `s` holds `pat` at position `i`. */
  predicate OccursAt(s: string, pat: string, i: nat)
  {
    i + |pat| <= |s| && s[i..i + |pat|] == pat
  }

  /** The position of the first occurrence of `pat` in `s`, searching from `from`. */
  function IndexOf(s: string, pat: string, from: nat): (r: Option<nat>)
    decreases |s| - from
    ensures r.Some? ==> from <= r.value && OccursAt(s, pat, r.value)
    ensures r.Some? ==> forall i :: from <= i < r.value ==> !OccursAt(s, pat, i)
    ensures r.None? ==> forall i :: from <= i ==> !OccursAt(s, pat, i)
  {
    if from + |pat| > |s| then None
    else if s[from..from + |pat|] == pat then Some(from)
    else IndexOf(s, pat, from + 1)
  }

  /** `s.replace(pat, "")` with a string pattern: only the first occurrence is removed. */
  function RemoveFirst(s: string, pat: string): (r: string)
    ensures IndexOf(s, pat, 0).None? ==> r == s
    ensures IndexOf(s, pat, 0).Some? ==>
      var i := IndexOf(s, pat, 0).value;
      r == s[..i] + s[i + |pat|..] && |r| == |s| - |pat|
  {
    match IndexOf(s, pat, 0)
    case None => s
    case Some(i) => s[..i] + s[i + |pat|..]
  }

  const BearerPrefix := "Bearer "

  /**
   * The token the gate uses: the cookie when it is non-empty, otherwise the
   * Authorization header with its first "Bearer " removed, otherwise none.
   */
  function Token(cookie: Option<string>, authorization: Option<string>): (t: Option<string>)
    ensures Given(cookie) ==> t == cookie
    ensures !Given(cookie) && authorization.None? ==> t.None?
    ensures !Given(cookie) && authorization.Some? ==> t == Some(RemoveFirst(authorization.value, BearerPrefix))
  {
    if Given(cookie) then cookie
    else if authorization.Some? then Some(RemoveFirst(authorization.value, BearerPrefix))
    else None
  }

  /** A header of the form "Bearer <token>" yields exactly <token>. */
  lemma BearerRoundTrip(token: string)
    ensures RemoveFirst(BearerPrefix + token, BearerPrefix) == token
  {
    var s := BearerPrefix + token;
    assert OccursAt(s, BearerPrefix, 0) by {
      assert s[..|BearerPrefix|] == BearerPrefix;
    }
    assert IndexOf(s, BearerPrefix, 0) == Some(0);
    assert s[|BearerPrefix|..] == token;
  }

  /** A header without "Bearer " anywhere is used as it is. */
  lemma HeaderWithoutBearer(header: string)
    requires forall i :: !OccursAt(header, BearerPrefix, i)
    ensures Token(None, Some(header)) == Some(header)
  {
  }

  /**
   * verifyJWT: no token or an empty one is refused with 401; a token that
   * fails verification is refused with 401 and the verifier's message
   * ("Unauthorized" when that is empty); a token whose id names no account
   * is refused with 401. Otherwise the account, without its password and
   * refresh token, is handed to the next handler.
   */
  function VerifyJwt(users: Table<User>, cookie: Option<string>, authorization: Option<string>,
                     verify: string -> Decoded): (r: Response<PublicUser>)
    ensures !Given(Token(cookie, authorization)) ==> r == Err(401, "Unauthorized")
    ensures r.Err? ==> r.status == 401 && r.message != ""
    ensures Given(Token(cookie, authorization)) && verify(Token(cookie, authorization).value).Rejected? ==>
      var reason := verify(Token(cookie, authorization).value).reason;
      r == Err(401, if reason == "" then "Unauthorized" else reason)
    ensures r.Ok? <==>
      && Given(Token(cookie, authorization))
      && verify(Token(cookie, authorization).value).Decoded?
      && verify(Token(cookie, authorization).value).id.Some?
      && Lookup(users, verify(Token(cookie, authorization).value).id.value).Some?
    ensures r.Ok? ==>
      var id := verify(Token(cookie, authorization).value).id.value;
      r.value == Public(Lookup(users, id).value) && r.value.id == id
  {
    var token := Token(cookie, authorization);
    if !Given(token) then Err(401, "Unauthorized")
    else match verify(token.value)
      case Rejected(reason) => Err(401, if reason == "" then "Unauthorized" else reason)
      case Decoded(id) =>
        if id.None? then Err(401, "Unauthorized")
        else match Lookup(users, id.value)
          case None => Err(401, "Unauthorized")
          case Some(u) => Ok(Public(u))
  }
}
