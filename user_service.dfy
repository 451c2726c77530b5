/**
 * UserService: registration stores the hash of the password in place of the password; login
 * finds the user by email and compares the stored hash with the hash of the given password.
 * The hash service is a parameter: None means the digest algorithm is unavailable.
 */
module UserService {
  import opened Errors
  import opened Dto
  import opened Entities
  import opened Store

  /**
   * createUser(user): hashes the password the entity carries, replaces it by the hash and saves
   * the entity. `hashed` lists what the hash service was given. When hashing fails nothing is
   * changed and nothing is saved.
   */
  method CreateUser(db: Database, user: UserEntity, hash: string -> Option<string>) returns (r: Result<User>, hashed: seq<string>)
    requires db.Valid()
    modifies db, user`password, user`id
    ensures db.Valid() && db.records == old(db.records)
    ensures hashed == [old(user.password)]
    ensures hash(old(user.password)).None? ==>
              r == Err(NoSuchAlgorithm) && db.users == old(db.users) && user.password == old(user.password) && user.id == old(user.id)
    ensures hash(old(user.password)).Some? ==>
              && r.Ok?
              && r.value == User(r.value.id, old(user.name), old(user.email), hash(old(user.password)).value)
              && user.password == r.value.password && user.id == Some(r.value.id)
              && UserById(db.users, r.value.id) == Some(r.value)
    ensures r.Ok? && old(user.id).Some? && UserIndex(old(db.users), old(user.id).value).Some? ==>
              r.value.id == old(user.id).value &&
              db.users == old(db.users)[UserIndex(old(db.users), old(user.id).value).value := r.value]
    ensures r.Ok? && !(old(user.id).Some? && UserIndex(old(db.users), old(user.id).value).Some?) ==>
              r.value.id == old(db.nextUserId) && db.users == old(db.users) + [r.value]
    ensures r.Ok? && old(user.id).None? && UserByEmail(old(db.users), old(user.email)).None? ==>
              |db.users| == |old(db.users)| + 1 &&
              Login(db, old(user.email), old(user.password), hash) == LoginAttempt(Ok(r.value), [old(user.password)])
  {
    hashed := [user.password];
    var h := hash(user.password);
    if h.None? {
      return Err(NoSuchAlgorithm), hashed;
    }
    user.SetPassword(h.value);
    var saved := db.SaveUser(user);
    r := Ok(saved);
    var before := old(db.users);
    var at := if old(user.id).Some? then UserIndex(before, old(user.id).value) else None;
    var k := if at.Some? then at.value else |before|;
    assert db.users[k] == saved;
    UserByIdAt(db.users, k);
    if old(user.id).None? && UserByEmail(old(db.users), old(user.email)).None? {
      UserByEmailAppended(old(db.users), saved);
    }
  }

  /** The result of a login and what the hash service was given on the way. */
  datatype LoginAttempt = LoginAttempt(result: Result<User>, hashed: seq<string>)

  /**
   * login(email, password): an unknown email fails before any hashing; otherwise the password
   * is hashed once and must equal the stored hash.
   */
  function Login(db: Database, email: string, password: string, hash: string -> Option<string>): (a: LoginAttempt)
    reads db
    ensures UserByEmail(db.users, email).None? <==> a == LoginAttempt(Err(UserNotFound), [])
    ensures UserByEmail(db.users, email).Some? ==> a.hashed == [password]
    ensures a.result.Ok? <==>
              UserByEmail(db.users, email).Some? && hash(password).Some? &&
              UserByEmail(db.users, email).value.password == hash(password).value
    ensures a.result.Ok? ==> a.result.value == UserByEmail(db.users, email).value
    ensures a.result == Err(InvalidPassword) <==>
              UserByEmail(db.users, email).Some? && hash(password).Some? &&
              UserByEmail(db.users, email).value.password != hash(password).value
    ensures a.result == Err(NoSuchAlgorithm) <==> UserByEmail(db.users, email).Some? && hash(password).None?
  {
    match UserByEmail(db.users, email)
    case None => LoginAttempt(Err(UserNotFound), [])
    case Some(u) =>
      match hash(password)
      case None => LoginAttempt(Err(NoSuchAlgorithm), [password])
      case Some(h) => LoginAttempt(if u.password == h then Ok(u) else Err(InvalidPassword), [password])
  }

  /** Only the stored hash lets a user in: a password whose hash differs is always refused. */
  lemma WrongPasswordRefused(db: Database, email: string, password: string, other: string, hash: string -> Option<string>)
    requires Login(db, email, password, hash).result.Ok?
    requires hash(other).Some? && hash(other) != hash(password)
    ensures Login(db, email, other, hash).result == Err(InvalidPassword)
  {
  }
}
