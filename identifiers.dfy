/**
 * `AuthManager.createUniqueId` and `AuthManager.validateUserId`: identifiers of
 * the form `<hex clock>/<tag>` and the check of their format. The clock
 * (`Date.now()`, milliseconds) is an argument.
 */
module Identifiers {
  import opened Wrappers
  import opened Strings
  import opened Hex

  /** The one-letter tag for createUniqueId's `type`; `None` is an omitted argument. */
  function Tag(kind: Option<string>): char {
    match kind
    case None => 'u'
    case Some(t) =>
      if t == "user" then 'u'
      else if t == "admin" then 'a'
      else if t == "spam" then 's'
      else 'u'
  }

  /**
   * `createUniqueId(type)` at clock value `now`: the unpadded hex clock, a `/`
   * and the tag — `a` for "admin", `s` for "spam" and `u` for "user", for any
   * other string and for an omitted type.
   */
  function CreateUniqueId(now: nat, kind: Option<string>): (id: string)
    ensures |id| == |ToHex(now)| + 2
    ensures id[..|id| - 2] == ToHex(now) && id[|id| - 2] == '/'
    ensures id[|id| - 1] == 'a' <==> kind == Some("admin")
    ensures id[|id| - 1] == 's' <==> kind == Some("spam")
    ensures id[|id| - 1] == 'u' <==> kind != Some("admin") && kind != Some("spam")
  {
    ToHex(now) + "/" + [Tag(kind)]
  }

  /** The characters `/^[0-9a-f]$/i` accepts. */
  predicate IsHexDigitIgnoringCase(c: char) {
    ('0' <= c <= '9') || ('a' <= c <= 'f') || ('A' <= c <= 'F')
  }

  const UserTypes: seq<string> := ["u", "a", "s"]
  const InvalidFormat: string := "Invalid user id format"

  /**
   * `validateUserId(id)`: split on `/`, demand exactly two parts, a known tag
   * second and eleven hex digits (either case) first. It answers `true` or
   * throws; it never answers `false`.
   */
  function ValidateUserId(id: string): (r: Result<bool, string>)
    ensures r.Success? ==> r.value
    ensures r.Failure? ==> r.error == InvalidFormat
  {
    var parts := Split(id, '/');
    if |parts| != 2 then Failure(InvalidFormat)
    else if parts[1] !in UserTypes then Failure(InvalidFormat)
    else if !(|parts[0]| == 11 && forall i :: 0 <= i < 11 ==> IsHexDigitIgnoringCase(parts[0][i]))
    then Failure(InvalidFormat)
    else Success(true)
  }

  /** The accepted shape, stated on the characters of the identifier itself. */
  predicate IsIdentifierShape(id: string) {
    && |id| == 13
    && (forall i :: 0 <= i < 11 ==> IsHexDigitIgnoringCase(id[i]))
    && id[11] == '/'
    && id[12] in "uas"
  }

  /** `validateUserId` accepts exactly the thirteen-character strings `hhhhhhhhhhh/t`. */
  lemma ValidateUserIdShape(id: string)
    ensures ValidateUserId(id).Success? <==> IsIdentifierShape(id)
  {
    var parts := Split(id, '/');
    if ValidateUserId(id).Success? {
      SplitJoin(id, '/');
      assert Join(parts[1..], '/') == parts[1];
      assert id == parts[0] + ['/'] + parts[1];
      assert parts[1] in UserTypes;
    }
    if IsIdentifierShape(id) {
      var a, b := id[..11], id[12..];
      assert '/' !in a by {
        forall i | 0 <= i < 11 ensures a[i] != '/' {
          assert IsHexDigitIgnoringCase(a[i]);
        }
      }
      assert '/' !in b;
      assert id == a + ['/'] + b;
      SplitAtFirstSeparator(a, b, '/');
      SplitWithoutSeparator(b, '/');
      assert parts == [a, b];
      assert b == [id[12]];
    }
  }

  /**
   * A generated identifier passes validation exactly when the clock has eleven
   * hex digits, 16^10 <= now < 16^11: nothing pads or truncates the clock.
   */
  lemma CreatedIdValidates(now: nat, kind: Option<string>)
    ensures ValidateUserId(CreateUniqueId(now, kind)).Success? <==> Pow16(10) <= now < Pow16(11)
  {
    var id := CreateUniqueId(now, kind);
    var h := ToHex(now);
    ValidateUserIdShape(id);
    ElevenDigits(now);
    if |h| == 11 {
      forall i | 0 <= i < 11 ensures IsHexDigitIgnoringCase(id[i]) {
        assert id[i] == h[i];
        assert IsLowerHexDigit(h[i]);
      }
    }
  }

  /** Two of the rejected inputs: a bad tag, and a clock of ten digits only. */
  lemma RejectedExamples()
    ensures ValidateUserId("bad/x").Failure?
    ensures ValidateUserId("abcde12345/u").Failure?
  {
    ValidateUserIdShape("bad/x");
    ValidateUserIdShape("abcde12345/u");
  }
}
