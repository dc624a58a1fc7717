/**
 * The `tokens` collection: the refresh-token record, how `Token.create`
 * casts and validates a document, the unique index on `userId`, and the
 * queries the token manager runs against it.
 */
module TokenModel {
  import opened Wrappers
  import opened Strings
  import opened Persistence
  import opened Search

  /** A stored refresh-token record; `expiresAt` is the token's `exp` claim. */
  datatype TokenRecord = TokenRecord(userId: string, refreshToken: string, status: bool, expiresAt: int)

  /**
   * The fields handed to `Token.create`: "" for a missing required string,
   * `None` for an `undefined` `status` or `expiresAt`.
   */
  datatype TokenDoc = TokenDoc(userId: string, refreshToken: string, status: Option<bool>, expiresAt: Option<int>)

  /** What the schema guarantees of every stored record. */
  predicate WellFormed(t: TokenRecord) {
    t.userId != "" && t.refreshToken != "" && Trim(t.refreshToken) == t.refreshToken
  }

  function MissingPaths(doc: TokenDoc): set<string> {
    (if doc.userId == "" then {"userId"} else {})
    + (if Trim(doc.refreshToken) == "" then {"refreshToken"} else {})
    + (if doc.expiresAt.None? then {"expiresAt"} else {})
  }

  /**
   * Casting and validation: trim `refreshToken`, default `status` to false,
   * check the required paths (a boolean `false` and a number `0` pass
   * `required`).
   */
  function Cast(doc: TokenDoc): (r: Result<TokenRecord, DbError>)
    ensures r.Success? <==> doc.userId != "" && Trim(doc.refreshToken) != "" && doc.expiresAt.Some?
    ensures r.Success? ==>
      && WellFormed(r.value)
      && r.value.userId == doc.userId
      && r.value.refreshToken == Trim(doc.refreshToken)
      && r.value.status == (doc.status == Some(true))
      && r.value.expiresAt == doc.expiresAt.value
    ensures r.Failure? ==> r.error.ValidationError? && r.error.paths != {}
  {
    var missing := MissingPaths(doc);
    if missing != {} then
      assert "userId" in missing || "refreshToken" in missing || "expiresAt" in missing;
      Failure(ValidationError(missing))
    else
      TrimIdempotent(doc.refreshToken);
      Success(TokenRecord(doc.userId, Trim(doc.refreshToken), doc.status.GetOr(false), doc.expiresAt.value))
  }

  /** The records of one user, in collection order. */
  function RecordsOf(rs: seq<TokenRecord>, userId: string): (mine: seq<TokenRecord>)
    ensures |mine| <= |rs|
    ensures forall t :: t in mine <==> t in rs && t.userId == userId
  {
    if rs == [] then []
    else if rs[0].userId == userId then [rs[0]] + RecordsOf(rs[1..], userId)
    else RecordsOf(rs[1..], userId)
  }

  /** The records of everyone but one user, in collection order: `deleteMany({userId})`. */
  function Without(rs: seq<TokenRecord>, userId: string): (rest: seq<TokenRecord>)
    ensures |rest| + |RecordsOf(rs, userId)| == |rs|
    ensures forall t :: t in rest <==> t in rs && t.userId != userId
  {
    if rs == [] then []
    else if rs[0].userId == userId then Without(rs[1..], userId)
    else [rs[0]] + Without(rs[1..], userId)
  }

  /** The collection invariant: every record well formed, at most one record per user. */
  ghost predicate Collection(rs: seq<TokenRecord>) {
    && (forall t :: t in rs ==> WellFormed(t))
    && (forall u :: |RecordsOf(rs, u)| <= 1)
  }

  /** Where `findOne({userId})` stops: the first record of the user, or `|rs|` for none. */
  function IndexOfUser(rs: seq<TokenRecord>, userId: string): (k: nat)
    ensures k <= |rs|
    ensures forall j :: 0 <= j < k ==> rs[j].userId != userId
    ensures k < |rs| ==> rs[k].userId == userId
    ensures k == |rs| <==> RecordsOf(rs, userId) == []
  {
    var k := FirstIndex(rs, (t: TokenRecord) => t.userId == userId);
    var mine := RecordsOf(rs, userId);
    assert k < |rs| ==> rs[k] in mine;
    assert mine != [] ==> mine[0] in rs && mine[0].userId == userId;
    k
  }

  /** Where `findOne({refreshToken})` stops: the first record holding the value, or `|rs|`. */
  function IndexOfToken(rs: seq<TokenRecord>, refreshToken: string): (k: nat)
    ensures k <= |rs|
    ensures forall j :: 0 <= j < k ==> rs[j].refreshToken != refreshToken
    ensures k < |rs| ==> rs[k].refreshToken == refreshToken
    ensures k == |rs| <==> forall t :: t in rs ==> t.refreshToken != refreshToken
  {
    FirstIndex(rs, (t: TokenRecord) => t.refreshToken == refreshToken)
  }

  /** `Token.create(doc)`: validation, then the unique index on `userId`. */
  function Create(rs: seq<TokenRecord>, doc: TokenDoc): (r: Result<TokenRecord, DbError>)
    ensures r.Success? <==> Cast(doc).Success? && RecordsOf(rs, doc.userId) == []
    ensures r.Success? ==> r == Cast(doc)
    ensures Cast(doc).Failure? ==> r == Cast(doc)
    ensures Cast(doc).Success? && RecordsOf(rs, doc.userId) != [] ==> r == Failure(DuplicateKey("userId"))
  {
    match Cast(doc)
    case Failure(e) => Failure(e)
    case Success(t) =>
      if IndexOfUser(rs, t.userId) < |rs| then Failure(DuplicateKey("userId")) else Success(t)
  }

  /** Appending one record adds it to its own user's records and to no one else's. */
  lemma {:induction false} RecordsOfAppend(rs: seq<TokenRecord>, t: TokenRecord, userId: string)
    ensures RecordsOf(rs + [t], userId) == RecordsOf(rs, userId) + (if t.userId == userId then [t] else [])
  {
    if rs != [] {
      assert (rs + [t])[1..] == rs[1..] + [t];
      RecordsOfAppend(rs[1..], t, userId);
    } else {
      assert [t][1..] == [];
    }
  }

  /** Removing one user's records leaves every other user's records exactly as they were. */
  lemma {:induction false} RecordsOfWithout(rs: seq<TokenRecord>, removed: string, userId: string)
    ensures RecordsOf(Without(rs, removed), userId) == if removed == userId then [] else RecordsOf(rs, userId)
  {
    if rs != [] {
      RecordsOfWithout(rs[1..], removed, userId);
      if rs[0].userId != removed {
        assert ([rs[0]] + Without(rs[1..], removed))[1..] == Without(rs[1..], removed);
      }
    }
  }

  /** With no record for the user, removing that user's records changes nothing. */
  lemma {:induction false} WithoutAbsent(rs: seq<TokenRecord>, userId: string)
    requires RecordsOf(rs, userId) == []
    ensures Without(rs, userId) == rs
  {
    if rs != [] {
      assert rs[0] in rs;
      WithoutAbsent(rs[1..], userId);
      assert [rs[0]] + rs[1..] == rs;
    }
  }

  /** Deleting one user's records keeps the collection invariant. */
  lemma WithoutKeepsCollection(rs: seq<TokenRecord>, userId: string)
    requires Collection(rs)
    ensures Collection(Without(rs, userId))
  {
    forall u ensures |RecordsOf(Without(rs, userId), u)| <= 1 {
      RecordsOfWithout(rs, userId, u);
    }
  }

  /**
   * Rotation: after deleting a user's records and appending a fresh one of
   * theirs, that user has exactly the fresh record, every other user keeps
   * theirs, and the collection invariant holds.
   */
  lemma Rotate(rs: seq<TokenRecord>, t: TokenRecord)
    requires Collection(rs) && WellFormed(t)
    ensures RecordsOf(Without(rs, t.userId) + [t], t.userId) == [t]
    ensures forall u :: u != t.userId ==> RecordsOf(Without(rs, t.userId) + [t], u) == RecordsOf(rs, u)
    ensures Collection(Without(rs, t.userId) + [t])
  {
    var after := Without(rs, t.userId) + [t];
    forall u ensures RecordsOf(after, u) == if u == t.userId then [t] else RecordsOf(rs, u) {
      RecordsOfAppend(Without(rs, t.userId), t, u);
      RecordsOfWithout(rs, t.userId, u);
    }
    assert forall x :: x in after ==> x in rs || x == t;
  }

  /** A successful create keeps the collection invariant and gives the user exactly the new record. */
  lemma CreateKeepsCollection(rs: seq<TokenRecord>, doc: TokenDoc)
    requires Collection(rs)
    requires Create(rs, doc).Success?
    ensures RecordsOf(rs + [Create(rs, doc).value], doc.userId) == [Create(rs, doc).value]
    ensures Collection(rs + [Create(rs, doc).value])
  {
    var t := Create(rs, doc).value;
    WithoutAbsent(rs, t.userId);
    Rotate(rs, t);
  }

  /** Changing a record in place without changing its user keeps every user's record count. */
  lemma {:induction false} RecordsOfUpdate(rs: seq<TokenRecord>, k: nat, t: TokenRecord, userId: string)
    requires k < |rs| && t.userId == rs[k].userId
    ensures |RecordsOf(rs[k := t], userId)| == |RecordsOf(rs, userId)|
  {
    if k > 0 {
      assert rs[k := t][1..] == rs[1..][k - 1 := t];
      RecordsOfUpdate(rs[1..], k - 1, t, userId);
    } else {
      assert rs[k := t][1..] == rs[1..];
    }
  }

  /**
   * Setting `status` false on one record keeps the invariant, and that record
   * is then its user's only record, inactive.
   */
  lemma Deactivate(rs: seq<TokenRecord>, k: nat)
    requires Collection(rs) && k < |rs|
    ensures Collection(rs[k := rs[k].(status := false)])
    ensures RecordsOf(rs[k := rs[k].(status := false)], rs[k].userId) == [rs[k].(status := false)]
  {
    var t := rs[k].(status := false);
    var after := rs[k := t];
    forall u ensures |RecordsOf(after, u)| <= 1 {
      RecordsOfUpdate(rs, k, t, u);
    }
    assert rs[k] in rs;
    forall x | x in after ensures WellFormed(x) {
      var i :| 0 <= i < |after| && after[i] == x;
      if i != k {
        assert rs[i] in rs;
      }
    }
    assert after[k] in RecordsOf(after, t.userId);
  }

  /** Under the invariant, the first record of a user is the user's only record. */
  lemma {:induction false} OnlyRecord(rs: seq<TokenRecord>, userId: string)
    requires Collection(rs)
    requires IndexOfUser(rs, userId) < |rs|
    ensures RecordsOf(rs, userId) == [rs[IndexOfUser(rs, userId)]]
  {
    var k := IndexOfUser(rs, userId);
    var mine := RecordsOf(rs, userId);
    assert rs[k] in mine;
    assert |mine| <= 1;
    assert mine == [mine[0]] && mine[0] == rs[k];
  }
}
