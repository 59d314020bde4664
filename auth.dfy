/** Auth: the access check in front of every protected route. A request
    carries an optional API key; `get_current_user` turns it into a user or
    a 401, and `require_admin` lets only admins through, with a 403 for
    everyone else. Nothing here changes state. */
module Auth {
  import opened Models
  import opened UserService

  /** `select("*").eq("api_key", key)` followed by `response.data[0]`: the
      first user holding the key, or None when nobody does. */
  function UserByApiKey(users: seq<User>, apiKey: string): (r: Option<User>)
    ensures r.None? <==> forall i :: 0 <= i < |users| ==> users[i].apiKey != apiKey
    ensures r.Some? ==> r.value in users && r.value.apiKey == apiKey
  {
    if |users| == 0 then None
    else if users[0].apiKey == apiKey then Some(users[0])
    else UserByApiKey(users[1..], apiKey)
  }

  /** The user returned is the first one holding the key. */
  lemma {:induction false} UserByApiKeyIsFirst(users: seq<User>, apiKey: string, i: nat)
    requires i < |users| && users[i].apiKey == apiKey
    requires forall j :: 0 <= j < i ==> users[j].apiKey != apiKey
    ensures UserByApiKey(users, apiKey) == Some(users[i])
  {
    if i > 0 {
      UserByApiKeyIsFirst(users[1..], apiKey, i - 1);
    }
  }

  /** `get_current_user`: a missing or empty header is refused before any
      lookup ("not x_api_key" is true for both), a key nobody holds is
      refused as invalid, and otherwise the holder is the current user. */
  function GetCurrentUser(users: seq<User>, apiKey: Option<string>): (r: Result<User>)
    ensures apiKey.None? || apiKey.value == "" ==> r == Err(HttpError(401, "API key is required"))
    ensures apiKey.Some? && apiKey.value != "" ==>
              (r.Err? <==> forall i :: 0 <= i < |users| ==> users[i].apiKey != apiKey.value)
    ensures apiKey.Some? && apiKey.value != "" && r.Err? ==> r.error == HttpError(401, "Invalid API key")
    ensures r.Ok? ==> r.value in users && apiKey == Some(r.value.apiKey)
  {
    if apiKey.None? || apiKey.value == "" then Err(HttpError(401, "API key is required"))
    else
      match UserByApiKey(users, apiKey.value)
      case None => Err(HttpError(401, "Invalid API key"))
      case Some(u) => Ok(u)
  }

  /** `require_admin`: 403 for every role but admin; an admin passes
      through unchanged. */
  function RequireAdmin(user: User): (r: Result<User>)
    ensures r.Ok? <==> user.role == Admin
    ensures r.Ok? ==> r.value == user
    ensures r.Err? ==> r.error == HttpError(403, "Admin access required")
  {
    if user.role != Admin then Err(HttpError(403, "Admin access required")) else Ok(user)
  }

  /** The dependency chain of an admin route: `require_admin` runs on what
      `get_current_user` returned, and an authentication error propagates. */
  function AdminGate(users: seq<User>, apiKey: Option<string>): (r: Result<User>)
    ensures r.Ok? ==> r == GetCurrentUser(users, apiKey) && r.value.role == Admin
    ensures r.Err? ==> r.error.HttpError? && (r.error.status == 401 || r.error.status == 403)
  {
    match GetCurrentUser(users, apiKey)
    case Err(e) => Err(e)
    case Ok(u) => RequireAdmin(u)
  }

  /** An admin route admits exactly the admins holding the presented key;
      authentication is decided first (401) and the role second (403). */
  lemma AdminGateAdmits(users: seq<User>, apiKey: Option<string>)
    ensures AdminGate(users, apiKey).Ok? ==>
              && AdminGate(users, apiKey).value in users
              && AdminGate(users, apiKey).value.role == Admin
              && apiKey == Some(AdminGate(users, apiKey).value.apiKey)
    ensures GetCurrentUser(users, apiKey).Err? ==> AdminGate(users, apiKey) == GetCurrentUser(users, apiKey)
    ensures AdminGate(users, apiKey) == Err(HttpError(403, "Admin access required")) <==>
              GetCurrentUser(users, apiKey).Ok? && GetCurrentUser(users, apiKey).value.role != Admin
  {
  }

  /** When every user's key is distinct (generated keys), presenting a
      user's key authenticates exactly that user. */
  lemma {:induction false} GetCurrentUserUnique(users: seq<User>, i: nat)
    requires i < |users| && users[i].apiKey != ""
    requires forall j, k :: 0 <= j < k < |users| ==> users[j].apiKey != users[k].apiKey
    ensures GetCurrentUser(users, Some(users[i].apiKey)) == Ok(users[i])
  {
    UserByApiKeyIsFirst(users, users[i].apiKey, i);
  }

  /** A generated key is never empty, so it always gets past the
      "API key is required" check; with distinct keys the user created
      with it authenticates as that user. */
  lemma {:induction false} GeneratedKeyAuthenticates(users: seq<User>, i: nat, token: string)
    requires i < |users| && users[i].apiKey == GenerateApiKey(token)
    requires forall j, k :: 0 <= j < k < |users| ==> users[j].apiKey != users[k].apiKey
    ensures GetCurrentUser(users, Some(GenerateApiKey(token))) == Ok(users[i])
  {
    assert |GenerateApiKey(token)| >= |ApiKeyPrefix| > 0;
    GetCurrentUserUnique(users, i);
  }
}
