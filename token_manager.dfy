/**
 * `TokenManager`: decoding of JWTs and the refresh-token operations on the
 * `tokens` collection. The JWT decoder is a function passed in; the class
 * holds the collection the source reaches through the `Token` model.
 */
module TokenManagement {
  import opened Wrappers
  import opened Strings
  import opened Persistence
  import opened TokenModel

  /** The payload claims the core reads: `exp`, the expiry (section 4.1.4 of RFC 7519). */
  datatype Claims = Claims(exp: Option<int>)

  /** What `decode(token, { complete: true })` returns; `payload` is `None` when falsy. */
  datatype Complete = Complete(payload: Option<Claims>)

  /** The JWT decoder: `None` when the token cannot be decoded. */
  type Decoder = string -> Option<Complete>

  /**
   * `decodeToken(token)`: `undefined` for a falsy token, `null` when decoding
   * fails, otherwise the payload (and `undefined` again if that is falsy).
   */
  function DecodeToken(token: string, decode: Decoder): (d: JsValue<Claims>)
    ensures token == "" ==> d == Undefined
    ensures d == Null <==> token != "" && decode(token).None?
    ensures d.Value? <==> token != "" && decode(token).Some? && decode(token).value.payload.Some?
    ensures d.Value? ==> d.value == decode(token).value.payload.value
  {
    if token == "" then Undefined
    else match decode(token)
      case None => Null
      case Some(complete) => if complete.payload.Some? then Value(complete.payload.value) else Undefined
  }

  /**
   * The summary `updateOne` resolves to: documents matched and documents
   * changed. The schema keeps timestamps, so every update also writes
   * `updatedAt` and a matched document always counts as changed.
   */
  datatype UpdateSummary = UpdateSummary(matchedCount: nat, modifiedCount: nat)

  class TokenManager {
    /** The `tokens` collection, in natural (insertion) order. */
    var tokens: seq<TokenRecord>

    ghost predicate Valid()
      reads this
    {
      Collection(tokens)
    }

    constructor ()
      ensures Valid() && tokens == []
    {
      tokens := [];
    }

    /**
     * `storeRefreshToken(refreshToken, userId, expiresAt)`: `undefined` if an
     * argument is falsy; otherwise `Token.create` of an active record, which
     * throws (`Failure`) when validation fails or the user already has a record.
     */
    method StoreRefreshToken(refreshToken: string, userId: string, expiresAt: Option<int>)
      returns (r: Result<JsValue<TokenRecord>, DbError>)
      requires Valid()
      modifies this
      ensures Valid()
      ensures refreshToken == "" || userId == "" || !IsTruthy(expiresAt) ==>
        r == Success(Undefined) && tokens == old(tokens)
      ensures refreshToken != "" && userId != "" && IsTruthy(expiresAt) ==>
        match Create(old(tokens), TokenDoc(userId, refreshToken, Some(true), expiresAt))
        case Success(t) => r == Success(Value(t)) && tokens == old(tokens) + [t]
        case Failure(e) => r == Failure(e) && tokens == old(tokens)
      ensures r.Success? && r.value.Value? ==>
        && r.value.value == TokenRecord(userId, Trim(refreshToken), true, expiresAt.value)
        && RecordsOf(tokens, userId) == [r.value.value]
      ensures r == Failure(DuplicateKey("userId")) <==>
        IsTruthy(expiresAt) && userId != "" && Trim(refreshToken) != "" && RecordsOf(old(tokens), userId) != []
    {
      if refreshToken == "" || userId == "" || !IsTruthy(expiresAt) {
        return Success(Undefined);
      }
      var doc := TokenDoc(userId, refreshToken, Some(true), expiresAt);
      var created := Create(tokens, doc);
      if created.Failure? {
        return Failure(created.error);
      }
      CreateKeepsCollection(tokens, doc);
      tokens := tokens + [created.value];
      r := Success(Value(created.value));
    }

    /** `findRefreshToken(refreshToken)`: the first record holding that value, `null` if none. */
    method FindRefreshToken(refreshToken: string) returns (r: JsValue<TokenRecord>)
      ensures r == Undefined <==> refreshToken == ""
      ensures refreshToken != "" ==> (r == Null <==> forall t :: t in tokens ==> t.refreshToken != refreshToken)
      ensures r.Value? ==> r.value in tokens && r.value.refreshToken == refreshToken
      ensures r.Value? ==> r.value == tokens[IndexOfToken(tokens, refreshToken)]
    {
      if refreshToken == "" {
        return Undefined;
      }
      var k := IndexOfToken(tokens, refreshToken);
      if k == |tokens| {
        return Null;
      }
      r := Value(tokens[k]);
    }

    /** `findRefreshTokenById(userId)`: the user's record, `null` if the user has none. */
    method FindRefreshTokenById(userId: string) returns (r: JsValue<TokenRecord>)
      requires Valid()
      ensures r == Undefined <==> userId == ""
      ensures userId != "" ==> (r == Null <==> RecordsOf(tokens, userId) == [])
      ensures r.Value? ==> RecordsOf(tokens, userId) == [r.value]
    {
      if userId == "" {
        return Undefined;
      }
      var k := IndexOfUser(tokens, userId);
      if k == |tokens| {
        return Null;
      }
      OnlyRecord(tokens, userId);
      r := Value(tokens[k]);
    }

    /**
     * `updateRefreshToken(refreshToken, userId)`: both arguments must be
     * truthy, but only `userId` selects; the first record of the user gets
     * `status` false, and nothing else changes. A match is always reported
     * as a modification, even of a record that was already inactive.
     */
    method UpdateRefreshToken(refreshToken: string, userId: string) returns (r: JsValue<UpdateSummary>)
      requires Valid()
      modifies this
      ensures Valid()
      ensures refreshToken == "" || userId == "" ==> r == Undefined && tokens == old(tokens)
      ensures refreshToken != "" && userId != "" ==>
        var k := IndexOfUser(old(tokens), userId);
        if k < |old(tokens)| then
          && tokens == old(tokens)[k := old(tokens)[k].(status := false)]
          && r == Value(UpdateSummary(1, 1))
        else
          tokens == old(tokens) && r == Value(UpdateSummary(0, 0))
      ensures |tokens| == |old(tokens)|
      ensures forall i :: 0 <= i < |tokens| ==>
        && tokens[i].userId == old(tokens)[i].userId
        && tokens[i].refreshToken == old(tokens)[i].refreshToken
        && tokens[i].expiresAt == old(tokens)[i].expiresAt
        && (tokens[i].userId != userId ==> tokens[i] == old(tokens)[i])
      ensures refreshToken != "" && userId != "" ==> forall t :: t in RecordsOf(tokens, userId) ==> !t.status
    {
      if userId == "" || refreshToken == "" {
        return Undefined;
      }
      var k := IndexOfUser(tokens, userId);
      if k == |tokens| {
        return Value(UpdateSummary(0, 0));
      }
      var before := tokens;
      Deactivate(before, k);
      tokens := before[k := before[k].(status := false)];
      r := Value(UpdateSummary(1, 1));
    }

    /** `deleteExistingRefreshTokens(userId)`: remove every record of the user and report how many. */
    method DeleteExistingRefreshTokens(userId: string) returns (r: JsValue<nat>)
      requires Valid()
      modifies this
      ensures Valid()
      ensures userId == "" ==> r == Undefined && tokens == old(tokens)
      ensures userId != "" ==>
        && tokens == Without(old(tokens), userId)
        && r == Value(|RecordsOf(old(tokens), userId)|)
        && RecordsOf(tokens, userId) == []
        && forall u :: u != userId ==> RecordsOf(tokens, u) == RecordsOf(old(tokens), u)
    {
      if userId == "" {
        return Undefined;
      }
      var count := |RecordsOf(tokens, userId)|;
      WithoutKeepsCollection(tokens, userId);
      forall u ensures RecordsOf(Without(tokens, userId), u) == if u == userId then [] else RecordsOf(tokens, u) {
        RecordsOfWithout(tokens, userId, u);
      }
      tokens := Without(tokens, userId);
      r := Value(count);
    }
  }
}
