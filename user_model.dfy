/**
 * The `users` collection: its record type, how `User.create` casts and
 * validates a document against the schema, and the unique indexes on
 * `userId` and `email`.
 */
module UserModel {
  import opened Wrappers
  import opened Strings
  import opened Persistence
  import opened Search

  /** A stored user. `city` and `pincode` are `None` when stored as null. */
  datatype User = User(
    userId: string,
    name: string,
    email: string,
    password: string,
    city: Option<string>,
    pincode: Option<int>)

  /**
   * The fields handed to `User.create`. A required string that is missing is
   * modelled as "" (Mongoose's `required` refuses both); `None` for `city` or
   * `pincode` is an `undefined` field, which takes the schema default null.
   */
  datatype UserDoc = UserDoc(
    userId: string,
    name: string,
    email: string,
    password: string,
    city: Option<string>,
    pincode: Option<int>)

  /** What the schema guarantees of every stored user. */
  predicate WellFormed(u: User) {
    && u.userId != ""
    && u.name != "" && Trim(u.name) == u.name
    && u.email != ""
    && u.password != ""
  }

  /** The required paths a document fails; `name` is checked after trimming. */
  function MissingPaths(doc: UserDoc): set<string> {
    (if doc.userId == "" then {"userId"} else {})
    + (if Trim(doc.name) == "" then {"name"} else {})
    + (if doc.email == "" then {"email"} else {})
    + (if doc.password == "" then {"password"} else {})
  }

  /** Casting and validation: trim `name`, default `city`/`pincode`, check the required paths. */
  function Cast(doc: UserDoc): (r: Result<User, DbError>)
    ensures r.Success? <==> doc.userId != "" && Trim(doc.name) != "" && doc.email != "" && doc.password != ""
    ensures r.Success? ==>
      && WellFormed(r.value)
      && r.value.userId == doc.userId && r.value.name == Trim(doc.name)
      && r.value.email == doc.email && r.value.password == doc.password
      && r.value.city == doc.city && r.value.pincode == doc.pincode
    ensures r.Failure? ==> r.error.ValidationError? && r.error.paths != {}
    ensures r.Failure? ==> ("name" in r.error.paths <==> Trim(doc.name) == "")
  {
    var missing := MissingPaths(doc);
    if missing != {} then
      assert "userId" in missing || "name" in missing || "email" in missing || "password" in missing;
      Failure(ValidationError(missing))
    else
      TrimIdempotent(doc.name);
      Success(User(doc.userId, Trim(doc.name), doc.email, doc.password, doc.city, doc.pincode))
  }

  /** The collection invariant: every record well formed, `userId` and `email` each unique. */
  ghost predicate Collection(users: seq<User>) {
    && (forall i :: 0 <= i < |users| ==> WellFormed(users[i]))
    && (forall i, j :: 0 <= i < j < |users| ==> users[i].userId != users[j].userId)
    && (forall i, j :: 0 <= i < j < |users| ==> users[i].email != users[j].email)
  }

  /** Where `findOne({email})` stops: the first user with that email, or `|users|` for none. */
  function IndexByEmail(users: seq<User>, email: string): (k: nat)
    ensures k <= |users|
    ensures forall j :: 0 <= j < k ==> users[j].email != email
    ensures k < |users| ==> users[k].email == email
    ensures k == |users| <==> forall u :: u in users ==> u.email != email
  {
    FirstIndex(users, (u: User) => u.email == email)
  }

  /**
   * `User.create(doc)`: validation first, then the unique indexes (`userId`
   * reported before `email`); on success the record is the cast document.
   */
  function Create(users: seq<User>, doc: UserDoc): (r: Result<User, DbError>)
    ensures r.Success? <==>
      && Cast(doc).Success?
      && (forall u :: u in users ==> u.userId != doc.userId && u.email != doc.email)
    ensures r.Success? ==> r == Cast(doc)
    ensures Cast(doc).Failure? ==> r == Cast(doc)
    ensures r == Failure(DuplicateKey("userId")) <==>
      Cast(doc).Success? && exists u :: u in users && u.userId == doc.userId
  {
    match Cast(doc)
    case Failure(e) => Failure(e)
    case Success(user) =>
      if exists u :: u in users && u.userId == user.userId then Failure(DuplicateKey("userId"))
      else if exists u :: u in users && u.email == user.email then Failure(DuplicateKey("email"))
      else Success(user)
  }

  /** A successful create keeps the collection invariant: the unique indexes hold afterwards. */
  lemma CreateKeepsCollection(users: seq<User>, doc: UserDoc)
    requires Collection(users)
    requires Create(users, doc).Success?
    ensures Collection(users + [Create(users, doc).value])
  {
    var u := Create(users, doc).value;
    var all := users + [u];
    forall i, j | 0 <= i < j < |all|
      ensures all[i].userId != all[j].userId && all[i].email != all[j].email
    {
      if j == |users| {
        assert all[i] in users;
      }
    }
  }

  /** After a successful create, looking the email up finds the new record. */
  lemma CreatedUserIsFoundByEmail(users: seq<User>, doc: UserDoc)
    requires Create(users, doc).Success?
    ensures IndexByEmail(users + [Create(users, doc).value], doc.email) == |users|
  {
    var all := users + [Create(users, doc).value];
    assert all[|users|].email == doc.email;
  }
}
