/**
 * `AuthManager.hashedPassword` and `AuthManager.verifyPassword`: the stored
 * form `<salt hex>:<derived key hex>`. The key-derivation function (PBKDF2 in
 * the source) is a deterministic function passed in, and the sixteen random
 * salt bytes are an argument.
 */
module Passwords {
  import opened Strings
  import opened Hex

  /** The parameters the source passes to the key-derivation function. */
  datatype KdfParams = KdfParams(iterations: nat, keyLength: nat, digest: string)

  const Pbkdf2: KdfParams := KdfParams(10000, 64, "sha256")

  /** A deterministic key-derivation function: (password, salt text, parameters) to key bytes. */
  type Kdf = (string, string, KdfParams) -> seq<byte>

  /** The salt text: the hex of sixteen random bytes, 32 lower-case digits. */
  function SaltText(saltBytes: seq<byte>): (salt: string)
    requires |saltBytes| == 16
    ensures |salt| == 32 && ':' !in salt
  {
    EncodeBytes(saltBytes)
  }

  /**
   * `hashedPassword(password)` with salt bytes `saltBytes`: the salt text, a
   * colon, and the hex of the key derived from the password with that salt text.
   */
  function HashedPassword(password: string, saltBytes: seq<byte>, kdf: Kdf): (stored: string)
    requires |saltBytes| == 16
    ensures |stored| >= 33 && stored[32] == ':'
    ensures stored[..32] == SaltText(saltBytes) && ':' !in stored[..32]
    ensures stored[33..] == EncodeBytes(kdf(password, stored[..32], Pbkdf2))
    ensures ':' !in stored[33..]
  {
    SaltText(saltBytes) + ":" + EncodeBytes(kdf(password, SaltText(saltBytes), Pbkdf2))
  }

  /**
   * `verifyPassword(entered, stored)`: split the stored form on `:`, derive a
   * key from `entered` with the first part as salt and the same parameters, and
   * compare its hex with the second part, which is `undefined` (never equal)
   * when the stored form has no colon.
   */
  function VerifyPassword(entered: string, stored: string, kdf: Kdf): (ok: bool)
    ensures ok ==> ':' in stored
  {
    var parts := Split(stored, ':');
    SplitJoin(stored, ':');
    if |parts| >= 2 then
      assert stored == parts[0] + [':'] + Join(parts[1..], ':');
      assert stored[..|parts[0]|] == parts[0] && stored[|parts[0]|] == ':';
      EncodeBytes(kdf(entered, parts[0], Pbkdf2)) == parts[1]
    else
      false
  }

  /**
   * Only the text between the first and the second colon is compared; the salt
   * is the text before the first colon and anything from a second colon on is
   * ignored.
   */
  lemma VerifyPasswordSegments(entered: string, salt: string, hash: string, rest: string, kdf: Kdf)
    requires ':' !in salt && ':' !in hash
    requires rest == [] || rest[0] == ':'
    ensures VerifyPassword(entered, salt + ":" + hash + rest, kdf)
        <==> EncodeBytes(kdf(entered, salt, Pbkdf2)) == hash
  {
    var stored := salt + ":" + hash + rest;
    assert stored == salt + [':'] + (hash + rest);
    SplitAtFirstSeparator(salt, hash + rest, ':');
    if rest == [] {
      assert hash + rest == hash;
      SplitWithoutSeparator(hash, ':');
    } else {
      assert hash + rest == hash + [':'] + rest[1..];
      SplitAtFirstSeparator(hash, rest[1..], ':');
    }
  }

  /** A stored form without a colon never verifies. */
  lemma VerifyPasswordNeedsColon(entered: string, stored: string, kdf: Kdf)
    requires ':' !in stored
    ensures !VerifyPassword(entered, stored, kdf)
  {
    SplitWithoutSeparator(stored, ':');
  }

  /**
   * Checking a password against a stored form made by `HashedPassword` succeeds
   * exactly when the function derives the same key from both passwords with
   * that salt; in particular the original password always verifies.
   */
  lemma VerifyHashedPassword(entered: string, password: string, saltBytes: seq<byte>, kdf: Kdf)
    requires |saltBytes| == 16
    ensures VerifyPassword(entered, HashedPassword(password, saltBytes, kdf), kdf)
        <==> kdf(entered, SaltText(saltBytes), Pbkdf2) == kdf(password, SaltText(saltBytes), Pbkdf2)
    ensures VerifyPassword(password, HashedPassword(password, saltBytes, kdf), kdf)
  {
    var salt := SaltText(saltBytes);
    var hash := EncodeBytes(kdf(password, salt, Pbkdf2));
    var stored := HashedPassword(password, saltBytes, kdf);
    assert stored == salt + ":" + hash + [];
    VerifyPasswordSegments(entered, salt, hash, [], kdf);
    VerifyPasswordSegments(password, salt, hash, [], kdf);
    EncodeBytesInjective(kdf(entered, salt, Pbkdf2), kdf(password, salt, Pbkdf2));
  }
}
