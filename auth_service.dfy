/**
 * The refresh-token store (src/auth/auth.service.ts). The token table holds at
 * most one record per compound key `type_userId`, so it is a map from that key;
 * the service looks records up, creates, upserts and deletes them, and wraps the
 * JWT signer.
 */
module AuthService {
  import opened Wrappers
  import opened Failures
  import opened Schema
  import opened Crypto

  function Key(userId: int, tokenType: TokenType): TokenKey {
    TokenKey(userId, tokenType)
  }

  // ------------------------------------------------------------ the table

  /** `getByUnique(userId, type)`: the record under the key, or `null`. */
  function GetByUnique(tokens: map<TokenKey, TokenRecord>, userId: int, tokenType: TokenType): (r: Option<TokenRecord>)
    ensures r.Some? <==> Key(userId, tokenType) in tokens
    ensures WellKeyed(tokens) && r.Some? ==> r.value.userId == userId && r.value.tokenType == tokenType
  {
    var key := Key(userId, tokenType);
    if key in tokens then Some(tokens[key]) else None
  }

  /**
   * The table after `upsertToken(userId, token, type)`: an existing record gets
   * only its `token` replaced, a missing one is created from the three arguments.
   */
  function Upserted(tokens: map<TokenKey, TokenRecord>, userId: int, token: string, tokenType: TokenType): (r: map<TokenKey, TokenRecord>)
    ensures r.Keys == tokens.Keys + {Key(userId, tokenType)}
    ensures forall k :: k in tokens && k != Key(userId, tokenType) ==> r[k] == tokens[k]
    ensures r[Key(userId, tokenType)].token == token
    ensures Key(userId, tokenType) in tokens ==>
      var before, after := tokens[Key(userId, tokenType)], r[Key(userId, tokenType)];
      after.userId == before.userId && after.tokenType == before.tokenType && after.expirationDate == before.expirationDate
    ensures Key(userId, tokenType) !in tokens ==> r[Key(userId, tokenType)] == TokenRecord(userId, token, tokenType, None)
    ensures WellKeyed(tokens) ==> WellKeyed(r)
  {
    var key := Key(userId, tokenType);
    if key in tokens then tokens[key := tokens[key].(token := token)]
    else tokens[key := TokenRecord(userId, token, tokenType, None)]
  }

  /** The table after `deleteToken({userId, type})` on a present key. */
  function Deleted(tokens: map<TokenKey, TokenRecord>, userId: int, tokenType: TokenType): (r: map<TokenKey, TokenRecord>)
    ensures r.Keys == tokens.Keys - {Key(userId, tokenType)}
    ensures forall k :: k in r ==> r[k] == tokens[k]
    ensures WellKeyed(tokens) ==> WellKeyed(r)
  {
    tokens - {Key(userId, tokenType)}
  }

  /** `upsertToken`: Prisma's `upsert` on the compound key; returns the written record. */
  method UpsertToken(db: Database, userId: int, token: string, tokenType: TokenType) returns (r: TokenRecord)
    requires db.Valid()
    modifies db
    ensures db.Valid()
    ensures db.tokens == Upserted(old(db.tokens), userId, token, tokenType)
    ensures GetByUnique(db.tokens, userId, tokenType) == Some(r)
    ensures db.users == old(db.users) && db.posts == old(db.posts) && db.likes == old(db.likes)
    ensures db.nextUserId == old(db.nextUserId) && db.nextPostId == old(db.nextPostId)
  {
    db.tokens := Upserted(db.tokens, userId, token, tokenType);
    r := db.tokens[Key(userId, tokenType)];
  }

  /** `createToken(data)`: Prisma's `create`; a second record under the same key violates the compound unique key. */
  method CreateToken(db: Database, data: TokenRecord) returns (r: Result<TokenRecord, Failure>)
    requires db.Valid()
    modifies db
    ensures db.Valid()
    ensures Key(data.userId, data.tokenType) in old(db.tokens) ==>
      r == Err(PrismaError(UNIQUE_CONSTRAINT_FAILED)) && db.tokens == old(db.tokens)
    ensures Key(data.userId, data.tokenType) !in old(db.tokens) ==>
      r == Ok(data) && db.tokens == old(db.tokens)[Key(data.userId, data.tokenType) := data]
    ensures db.users == old(db.users) && db.posts == old(db.posts) && db.likes == old(db.likes)
    ensures db.nextUserId == old(db.nextUserId) && db.nextPostId == old(db.nextPostId)
  {
    var key := Key(data.userId, data.tokenType);
    if key in db.tokens {
      return Err(PrismaError(UNIQUE_CONSTRAINT_FAILED));
    }
    db.tokens := db.tokens[key := data];
    r := Ok(data);
  }

  /** `deleteToken({userId, type})`: Prisma's `delete`, which throws when the record is missing. */
  method DeleteToken(db: Database, userId: int, tokenType: TokenType) returns (r: Result<(), Failure>)
    requires db.Valid()
    modifies db
    ensures db.Valid()
    ensures Key(userId, tokenType) !in old(db.tokens) ==>
      r == Err(PrismaError(RECORD_NOT_FOUND)) && db.tokens == old(db.tokens)
    ensures Key(userId, tokenType) in old(db.tokens) ==>
      r == Ok(()) && db.tokens == Deleted(old(db.tokens), userId, tokenType)
    ensures db.users == old(db.users) && db.posts == old(db.posts) && db.likes == old(db.likes)
    ensures db.nextUserId == old(db.nextUserId) && db.nextPostId == old(db.nextPostId)
  {
    if Key(userId, tokenType) !in db.tokens {
      return Err(PrismaError(RECORD_NOT_FOUND));
    }
    db.tokens := Deleted(db.tokens, userId, tokenType);
    r := Ok(());
  }

  // ------------------------------------------------------ table properties

  /** After an upsert the lookup finds a record of that user and type holding the new token. */
  lemma GetAfterUpsert(tokens: map<TokenKey, TokenRecord>, userId: int, token: string, tokenType: TokenType)
    requires WellKeyed(tokens)
    ensures var r := GetByUnique(Upserted(tokens, userId, token, tokenType), userId, tokenType);
      r.Some? && r.value.token == token && r.value.userId == userId && r.value.tokenType == tokenType
  {
  }

  /** A second upsert under the same key supersedes the first. */
  lemma UpsertTwice(tokens: map<TokenKey, TokenRecord>, userId: int, first: string, second: string, tokenType: TokenType)
    ensures Upserted(Upserted(tokens, userId, first, tokenType), userId, second, tokenType)
            == Upserted(tokens, userId, second, tokenType)
  {
    var key := Key(userId, tokenType);
    if key !in tokens {
      assert Upserted(tokens, userId, first, tokenType)[key].expirationDate == None;
    }
  }

  /** After a delete the lookup finds nothing. */
  lemma GetAfterDelete(tokens: map<TokenKey, TokenRecord>, userId: int, tokenType: TokenType)
    ensures GetByUnique(Deleted(tokens, userId, tokenType), userId, tokenType) == None
  {
  }

  // ------------------------------------------------------------ the signer

  /** The second `jsonwebtoken` stamps into `iat`: the clock (milliseconds) floored to seconds. */
  function IssuedAt(now: int): (iat: int)
    ensures iat * 1000 <= now < iat * 1000 + 1000
  {
    now / 1000
  }

  /**
   * `createJwt(payload, secret, expiresIn)` at the instant `now`: the payload signed
   * with exactly the secret and lifetime (seconds) it was given.
   */
  function CreateJwt(payload: Claims, secret: string, expiresIn: int, now: int): (token: string)
    ensures SignatureSegment(token)
            == Some(Mac(secret, SigningInput(payload, IssuedAt(now), IssuedAt(now) + expiresIn)))
  {
    SignatureOfSigned(payload, secret, expiresIn, IssuedAt(now));
    Sign(payload, secret, expiresIn, IssuedAt(now))
  }
}
