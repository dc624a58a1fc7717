/**
 * `AuthManager`'s stateful half: looking a user up by email and creating a
 * user over the `users` collection the class holds. Its pure half lives in
 * `Identifiers` and `Passwords`; the clock, the random salt bytes and the
 * key-derivation function are arguments.
 */
module AuthManagement {
  import opened Wrappers
  import opened Strings
  import opened Hex
  import opened Persistence
  import opened UserModel
  import opened Identifiers
  import opened Passwords

  /** The errors `findByEmail` and `createUser` throw. */
  datatype AuthError =
    | UndefinedEmail        // "Undefined Email"
    | UndefinedUserFields   // "Undefined User Fields"
    | Db(error: DbError)    // rethrown from `User.create`

  /** The document `createUser` hands to `User.create`. */
  function NewUserDoc(
    now: nat, saltBytes: seq<byte>, kdf: Kdf,
    name: string, email: string, password: string, city: Option<string>, pincode: Option<int>): UserDoc
    requires |saltBytes| == 16
  {
    UserDoc(CreateUniqueId(now, Some("user")), name, email, HashedPassword(password, saltBytes, kdf), city, pincode)
  }

  class AuthManager {
    /** The `users` collection, in natural (insertion) order. */
    var users: seq<User>

    ghost predicate Valid()
      reads this
    {
      Collection(users)
    }

    constructor ()
      ensures Valid() && users == []
    {
      users := [];
    }

    /** `findByEmail(email)`: throws on a falsy email, `false` (`None`) when nobody has it. */
    method FindByEmail(email: string) returns (r: Result<Option<User>, AuthError>)
      ensures email == "" ==> r == Failure(UndefinedEmail)
      ensures email != "" ==> r.Success?
      ensures r == Success(None) <==> email != "" && forall u :: u in users ==> u.email != email
      ensures r.Success? && r.value.Some? ==>
        && r.value.value in users && r.value.value.email == email
        && r.value.value == users[IndexByEmail(users, email)]
    {
      if email == "" {
        return Failure(UndefinedEmail);
      }
      var k := IndexByEmail(users, email);
      if k == |users| {
        return Success(None);
      }
      r := Success(Some(users[k]));
    }

    /**
     * `createUser(name, email, password, city, pincode)`: throws on a falsy
     * name, email or password; otherwise stores a user whose id is
     * `createUniqueId('user')` and whose password is the salted hash, or
     * rethrows what `User.create` throws.
     */
    method CreateUser(
      now: nat, saltBytes: seq<byte>, kdf: Kdf,
      name: string, email: string, password: string, city: Option<string>, pincode: Option<int>)
      returns (r: Result<User, AuthError>)
      requires Valid() && |saltBytes| == 16
      modifies this
      ensures Valid()
      ensures name == "" || email == "" || password == "" ==>
        r == Failure(UndefinedUserFields) && users == old(users)
      ensures name != "" && email != "" && password != "" ==>
        match Create(old(users), NewUserDoc(now, saltBytes, kdf, name, email, password, city, pincode))
        case Success(u) => r == Success(u) && users == old(users) + [u]
        case Failure(e) => r == Failure(Db(e)) && users == old(users)
      ensures r.Success? ==>
        && r.value.userId == CreateUniqueId(now, Some("user"))
        && r.value.name == Trim(name) && r.value.email == email
        && r.value.password == HashedPassword(password, saltBytes, kdf)
        && VerifyPassword(password, r.value.password, kdf)
        && r.value.city == city && r.value.pincode == pincode
    {
      if name == "" || email == "" || password == "" {
        return Failure(UndefinedUserFields);
      }
      var userId := CreateUniqueId(now, Some("user"));
      var hashed := HashedPassword(password, saltBytes, kdf);
      var doc := UserDoc(userId, name, email, hashed, city, pincode);
      var created := Create(users, doc);
      if created.Failure? {
        return Failure(Db(created.error));
      }
      CreateKeepsCollection(users, doc);
      VerifyHashedPassword(password, password, saltBytes, kdf);
      users := users + [created.value];
      r := Success(created.value);
    }
  }
}
