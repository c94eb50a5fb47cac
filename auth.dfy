/** The two endpoints of backend/routers/auth.py. */
module Auth {
  import opened Wrappers
  import opened Models
  import opened Schemas
  import Security

  const UsernameTaken := HttpError(400, "Username already taken")
  const BadCredentials := HttpError(401, "Incorrect username or password")

  /** POST /auth/login: a bearer token for `username` exactly when that user
      exists and the password verifies against the stored hash. */
  function Login(db: Database, username: string, password: string): (r: Result<TokenResponse, HttpError>)
    reads db
    requires db.Valid()
    ensures r.Ok? <==> exists i :: 0 <= i < |db.users| && db.users[i].username == username
                                  && Security.Verify(password, db.users[i].passwordHash)
    ensures r.Ok? ==> r.value == Bearer(username)
    ensures r.Err? ==> r.error == BadCredentials
  {
    match UserIndex(db.users, username)
    case None => Err(BadCredentials)
    case Some(i) =>
      var user := db.users[i];
      if Security.Verify(password, user.passwordHash) then Ok(Bearer(user.username)) else Err(BadCredentials)
  }

  /** POST /auth/register: refuses a taken username; otherwise adds one user
      holding the hash of the password and issues a bearer token for it. */
  method Register(db: Database, username: string, password: string) returns (r: Result<TokenResponse, HttpError>)
    requires db.Valid()
    modifies db
    ensures db.Valid()
    ensures db.items == old(db.items) && db.links == old(db.links) && db.logs == old(db.logs)
    ensures UserIndex(old(db.users), username).Some? ==> r == Err(UsernameTaken) && db.users == old(db.users)
    ensures UserIndex(old(db.users), username).None? ==>
              && r == Ok(Bearer(username))
              && db.users == old(db.users) + [User(|old(db.users)| + 1, username, Security.Hash(password))]
    ensures r.Ok? ==> Login(db, username, password) == r
  {
    var existing := UserIndex(db.users, username);
    if existing.Some? {
      return Err(UsernameTaken);
    }
    var newUser := User(|db.users| + 1, username, Security.Hash(password));
    db.users := db.users + [newUser];
    UserIndexUnique(db.users, username, |db.users| - 1);
    Security.VerifyExactlyHashed(password, password);
    r := Ok(Bearer(newUser.username));
  }
}
