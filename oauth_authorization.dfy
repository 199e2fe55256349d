/**
 * `OAuthAuthorization`: the decision whether a bearer token (a JWT, RFC 7519)
 * grants a request. Decoding and signature checking with the public key, and
 * the revocation lookup a subclass supplies, are oracles here; what is
 * modelled is the order of the checks, the scope test and the `Error` field
 * that each call clears and sets.
 */
module OAuth {
  import opened Wrappers

  /** The claims the decision reads from a decoded token. `jti` is `None`
      where the claim is absent (PHP reads null); `scopes` is `None` where
      the `scopes` claim is absent or is not an array. */
  datatype Claims = Claims(jti: Option<string>, scopes: Option<seq<string>>)

  const TokenRevoked := "token is revoked"
  const MissingScopes := "token does not have required scopes"

  /** The `TypeError` `in_array` raises when its haystack is not an array. */
  const HaystackNotArray := "in_array(): Argument #2 ($haystack) must be of type array"

  /** The three ways a call can end: `true`, `false` with the caught
      exception's message in `Error`, or an error that is not an
      `\Exception` and so escapes the `catch`. */
  datatype Verdict = Granted | Denied(reason: string) | Escaped(error: string)

  /** Some requested scope is among the token's scopes. */
  predicate Overlap(requested: seq<string>, scopes: seq<string>)
  {
    exists i :: 0 <= i < |requested| && requested[i] in scopes
  }

  /** The decision as the code makes it. */
  function Decide(decoded: Result<Claims, string>, isTokenRevoked: Option<string> -> bool,
                  requested: seq<string>): (v: Verdict)
    // a token that fails to decode is refused with the decoder's message
    ensures decoded.Err? ==> v == Denied(decoded.error)
    // revocation is checked before anything about scopes
    ensures decoded.Ok? && isTokenRevoked(decoded.value.jti) ==> v == Denied(TokenRevoked)
    // with no scopes requested, an unrevoked token is granted whatever its claims
    ensures decoded.Ok? && !isTokenRevoked(decoded.value.jti) && requested == [] ==> v == Granted
    ensures v == Granted ==>
      decoded.Ok? && !isTokenRevoked(decoded.value.jti) &&
      (requested == [] || (decoded.value.scopes.Some? && Overlap(requested, decoded.value.scopes.value)))
    ensures v.Denied? && decoded.Ok? && !isTokenRevoked(decoded.value.jti) ==>
      v == Denied(MissingScopes) && decoded.value.scopes.Some? && !Overlap(requested, decoded.value.scopes.value)
    ensures v.Escaped? <==>
      decoded.Ok? && !isTokenRevoked(decoded.value.jti) && requested != [] && decoded.value.scopes.None?
  {
    match decoded
    case Err(message) => Denied(message)
    case Ok(claims) =>
      if isTokenRevoked(claims.jti) then Denied(TokenRevoked)
      else if requested == [] then Granted
      else if claims.scopes.None? then Escaped(HaystackNotArray)
      else if Overlap(requested, claims.scopes.value) then Granted
      else Denied(MissingScopes)
  }

  /** The decision as the `catch` evidently means it: every failure is a refusal. */
  function DecideCaught(decoded: Result<Claims, string>, isTokenRevoked: Option<string> -> bool,
                        requested: seq<string>): (v: Verdict)
    ensures !v.Escaped?
    ensures v == Granted <==>
      decoded.Ok? && !isTokenRevoked(decoded.value.jti) &&
      (requested == [] || (decoded.value.scopes.Some? && Overlap(requested, decoded.value.scopes.value)))
  {
    match decoded
    case Err(message) => Denied(message)
    case Ok(claims) =>
      if isTokenRevoked(claims.jti) then Denied(TokenRevoked)
      else if requested == [] then Granted
      else if claims.scopes.None? then Denied(HaystackNotArray)
      else if Overlap(requested, claims.scopes.value) then Granted
      else Denied(MissingScopes)
  }

  class OAuthAuthorization {
    /** `$Error`: the message of the last caught exception, `None` when unset. */
    var error: Option<string>
    /** `JWT::decode` with the key read from `$PublicKeyUri`. */
    const decode: string -> Result<Claims, string>
    /** `IsTokenRevoked`, the subclass's lookup by `jti`. */
    const isTokenRevoked: Option<string> -> bool

    constructor (decode: string -> Result<Claims, string>, isTokenRevoked: Option<string> -> bool)
      ensures error == None && this.decode == decode && this.isTokenRevoked == isTokenRevoked
    {
      error := None;
      this.decode := decode;
      this.isTokenRevoked := isTokenRevoked;
    }

    /** `GetError`. */
    function GetError(): Option<string>
      reads this
    {
      error
    }

    /** `Authorize`: `Ok` carries the boolean it returns, `Err` the error that
        escapes it; `Error` is cleared first and set only by a refusal. */
    method Authorize(token: string, requestScopes: seq<string>) returns (result: Result<bool, string>)
      modifies this`error
      ensures var v := Decide(decode(token), isTokenRevoked, requestScopes);
        && result == (match v case Granted => Ok(true) case Denied(_) => Ok(false) case Escaped(e) => Err(e))
        && GetError() == (if v.Denied? then Some(v.reason) else None)
    {
      error := None;
      var decoded := decode(token);
      if decoded.Err? {
        error := Some(decoded.error);
        return Ok(false);
      }
      var claims := decoded.value;
      if isTokenRevoked(claims.jti) {
        error := Some(TokenRevoked);
        return Ok(false);
      }
      if |requestScopes| == 0 {
        return Ok(true);
      }
      var i := 0;
      while i < |requestScopes|
        invariant 0 <= i <= |requestScopes|
        invariant forall j :: 0 <= j < i ==> claims.scopes.Some? && requestScopes[j] !in claims.scopes.value
      {
        if claims.scopes.None? {
          return Err(HaystackNotArray);
        }
        if requestScopes[i] in claims.scopes.value {
          return Ok(true);
        }
        i := i + 1;
      }
      ghost var first := requestScopes[0];
      assert claims.scopes.Some? && first !in claims.scopes.value;
      error := Some(MissingScopes);
      return Ok(false);
    }
  }

  /** A token without a `scopes` array, asked for any scope, makes
      `Authorize` throw instead of returning false. */
  lemma ScopelessTokenEscapes(isTokenRevoked: Option<string> -> bool, scope: string)
    requires !isTokenRevoked(Some("PASS"))
    ensures Decide(Ok(Claims(Some("PASS"), None)), isTokenRevoked, [scope]).Escaped?
  {
  }

  /** The caught decision agrees with the code wherever the code returns. */
  lemma CaughtAgrees(decoded: Result<Claims, string>, isTokenRevoked: Option<string> -> bool, requested: seq<string>)
    requires !Decide(decoded, isTokenRevoked, requested).Escaped?
    ensures DecideCaught(decoded, isTokenRevoked, requested) == Decide(decoded, isTokenRevoked, requested)
  {
  }
}
