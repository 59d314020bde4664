/** UserService: API-key generation, user creation and lookup, and the credit
    ledger (absolute updates and the one-credit debit). */
module UserService {
  import opened Models
  import opened Store

  const ApiKeyPrefix: string := "cgw_"

  /** `generate_api_key`: the prefix followed by the random token, which
      `secrets.token_urlsafe(32)` draws and which is a parameter here. */
  function GenerateApiKey(token: string): (key: string)
    ensures |key| == |ApiKeyPrefix| + |token|
    ensures key[..|ApiKeyPrefix|] == ApiKeyPrefix
    ensures key[|ApiKeyPrefix|..] == token
  {
    ApiKeyPrefix + token
  }

  /** `get_user_by_id`: the first row of the users table with this id, or
      None when there is none. */
  function GetUserById(users: seq<User>, id: int): (r: Option<User>)
    ensures r.None? <==> forall i :: 0 <= i < |users| ==> users[i].id != id
    ensures r.Some? ==> r.value in users && r.value.id == id
  {
    if |users| == 0 then None
    else if users[0].id == id then Some(users[0])
    else GetUserById(users[1..], id)
  }

  /** The row returned is the first one with the id (`response.data[0]`). */
  lemma {:induction false} GetUserByIdIsFirst(users: seq<User>, id: int, i: nat)
    requires i < |users| && users[i].id == id
    ensures GetUserById(users, id).Some?
    ensures (forall j :: 0 <= j < i ==> users[j].id != id) ==> GetUserById(users, id) == Some(users[i])
  {
    if i > 0 && users[0].id != id {
      GetUserByIdIsFirst(users[1..], id, i - 1);
    }
  }

  /** The users table after `update({"credits": credits}).eq("id", id)`:
      every row with that id gets the new balance, as given (no delta, no
      sign check). */
  function WithCredits(users: seq<User>, id: int, credits: int): (r: seq<User>)
    ensures UserIds(r) == UserIds(users)
  {
    var r := seq(|users|, i requires 0 <= i < |users| =>
                if users[i].id == id then users[i].(credits := credits) else users[i]);
    assert UserIds(r) == UserIds(users);
    r
  }

  /** After the update, the updated user reads back with exactly the new
      balance and every other user reads back unchanged. */
  lemma {:induction false} WithCreditsLookup(users: seq<User>, id: int, credits: int, other: int)
    ensures GetUserById(WithCredits(users, id, credits), other) ==
            if other == id && GetUserById(users, id).Some?
            then Some(GetUserById(users, id).value.(credits := credits))
            else GetUserById(users, other)
  {
    if |users| > 0 {
      WithCreditsLookup(users[1..], id, credits, other);
      assert WithCredits(users, id, credits)[1..] == WithCredits(users[1..], id, credits);
    }
  }

  /** With no row carrying the id the update matches nothing. */
  lemma {:induction false} WithCreditsAbsent(users: seq<User>, id: int, credits: int)
    requires GetUserById(users, id).None?
    ensures WithCredits(users, id, credits) == users
  {
    if |users| > 0 {
      assert GetUserById(users[1..], id).None?;
      WithCreditsAbsent(users[1..], id, credits);
    }
  }

  /** A row appended to the table is found by its id unless an earlier row
      already carries that id. */
  lemma {:induction false} GetUserByIdAppend(users: seq<User>, u: User, id: int)
    ensures GetUserById(users + [u], id) ==
            if GetUserById(users, id).Some? then GetUserById(users, id)
            else if u.id == id then Some(u) else None
  {
    if |users| > 0 {
      assert (users + [u])[1..] == users[1..] + [u];
      GetUserByIdAppend(users[1..], u, id);
    }
  }

  /** `UserCreate` defaults: role member and ten credits. */
  lemma UserCreateDefaults(name: string)
    ensures UserCreate(name).role == Member && UserCreate(name).credits == 10
  {
  }

  /** `create_user`: inserts the given name, role and balance with a freshly
      generated key; the new user is then found by its id. */
  method CreateUser(db: Database, uc: UserCreate, token: string) returns (u: User)
    requires db.Valid()
    modifies db`users, db`nextUserId
    ensures db.Valid()
    ensures u == User(old(db.nextUserId), uc.name, GenerateApiKey(token), uc.role, uc.credits)
    ensures db.users == old(db.users) + [u] && db.nextUserId == old(db.nextUserId) + 1
    ensures GetUserById(db.users, u.id) == Some(u)
  {
    var apiKey := GenerateApiKey(token);
    ghost var before := db.users;
    assert forall i :: 0 <= i < |before| ==> before[i].id == UserIds(before)[i];
    u := db.InsertUser(uc.name, apiKey, uc.role, uc.credits);
    GetUserByIdAppend(before, u, u.id);
  }

  /** `update_credits`: sets the balance of the user with this id to exactly
      `credits` and returns the updated row; raises when no user has the id,
      changing nothing. */
  method UpdateCredits(db: Database, id: int, credits: int) returns (res: Result<User>)
    requires db.Valid()
    modifies db`users
    ensures db.Valid()
    ensures res.Err? <==> GetUserById(old(db.users), id).None?
    ensures res.Err? ==> res.error == Exception("Failed to update credits") && db.users == old(db.users)
    ensures res.Ok? ==> res.value == GetUserById(old(db.users), id).value.(credits := credits)
    ensures db.users == WithCredits(old(db.users), id, credits)
  {
    ghost var before := db.users;
    db.users := WithCredits(db.users, id, credits);
    WithCreditsLookup(before, id, credits, id);
    var row := GetUserById(db.users, id);
    if row.None? {
      WithCreditsAbsent(before, id, credits);
      res := Err(Exception("Failed to update credits"));
    } else {
      res := Ok(row.value);
    }
  }

  /** `deduct_credit`: read the balance, check it, write balance - 1, and
      return what was written. Raises, changing nothing, for an unknown user
      or a balance that is not positive. */
  method DeductCredit(db: Database, id: int) returns (res: Result<int>)
    requires db.Valid()
    modifies db`users
    ensures db.Valid()
    ensures GetUserById(old(db.users), id).None? ==>
              res == Err(Exception("User not found")) && db.users == old(db.users)
    ensures GetUserById(old(db.users), id).Some? && GetUserById(old(db.users), id).value.credits <= 0 ==>
              res == Err(Exception("Insufficient credits")) && db.users == old(db.users)
    ensures GetUserById(old(db.users), id).Some? && GetUserById(old(db.users), id).value.credits > 0 ==>
              && res == Ok(GetUserById(old(db.users), id).value.credits - 1)
              && res.value >= 0
              && GetUserById(db.users, id) == Some(GetUserById(old(db.users), id).value.(credits := res.value))
              && db.users == WithCredits(old(db.users), id, res.value)
  {
    var user := GetUserById(db.users, id);
    if user.None? {
      res := Err(Exception("User not found"));
    } else if user.value.credits <= 0 {
      res := Err(Exception("Insufficient credits"));
    } else {
      var newCredits := user.value.credits - 1;
      ghost var before := db.users;
      var updated := UpdateCredits(db, id, newCredits);
      WithCreditsLookup(before, id, newCredits, id);
      match updated
      case Ok(row) => res := Ok(row.credits);
      case Err(e) => res := Err(e);
    }
  }
}
