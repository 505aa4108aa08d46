/** `JWTUtils`: the claims a token carries and the checks made on it. Signing and
    parsing (compact JWS with HS512 under the configured secret) are a `Codec`; the
    two checks the parser makes that the core relies on, a blank token and an
    expired token, are written out in `ExtractAllClaims`. Instants are milliseconds
    since the epoch. */
module Jwt {
  import opened Wrappers
  import opened Errors
  import opened JavaText
  import opened Principals

  /** The claims of a token: `sub`, `roles`, `iat` and `exp`. */
  datatype Claims = Claims(
    subject: Option<string>,
    roles: seq<string>,
    issuedAt: Option<int>,
    expiration: Option<int>)

  /** The token library under the configured key: `sign` builds the compact
      serialisation, `parse` checks the signature and decodes the claims. `parse`
      does not see the clock, so a `nbf` claim that is premature now and accepted
      later cannot be expressed; no core code sets `nbf`. */
  datatype Codec = Codec(sign: Claims -> string, parse: string -> Result<Claims, JwtError>)

  /** The library's promise: a signed token is not blank and parses to its claims. */
  ghost predicate RoundTrips(codec: Codec) {
    forall cl :: codec.parse(codec.sign(cl)) == Ok(cl) && HasText(codec.sign(cl))
  }

  /** The claims `generateJwtToken` writes for a principal. */
  function IssuedClaims(p: UserPrincipal, issuedAt: int, expiration: int): Claims {
    Claims(Some(GetUsername(p)), p.authorities, Some(issuedAt), Some(expiration))
  }

  /** `generateJwtToken`. `issuedAt` and `later` are its two reads of the clock and
      `ttl` is `app.jwt.expirationMs`: the token is issued at the first read and
      expires `ttl` after the second. A missing principal dereferences null. */
  function GenerateJwtToken(codec: Codec, auth: Authentication, issuedAt: int, later: int, ttl: int)
    : (r: Result<string, Fault>)
    ensures r.Err? <==> auth.principal.None?
    ensures r.Err? ==> r.error == NullDereference
    ensures r.Ok? && RoundTrips(codec) ==>
      var cl := IssuedClaims(auth.principal.value, issuedAt, later + ttl);
      && codec.parse(r.value) == Ok(cl)
      && cl.subject == Some(auth.principal.value.user.email)
      && cl.roles == auth.principal.value.authorities
      && (issuedAt <= later ==> cl.expiration.value >= cl.issuedAt.value + ttl)
  {
    match auth.principal
    case None => Err(NullDereference)
    case Some(p) => Ok(codec.sign(IssuedClaims(p, issuedAt, later + ttl)))
  }

  /** `extractAllClaims` at instant `now`: a blank token is refused before parsing,
      and a token whose expiration is strictly before `now` is refused as expired. */
  function ExtractAllClaims(codec: Codec, token: string, now: int): (r: Result<Claims, JwtError>)
    ensures !HasText(token) ==> r == Err(EmptyArgument)
    ensures r.Ok? ==> codec.parse(token) == r
    ensures r.Ok? && r.value.expiration.Some? ==> now <= r.value.expiration.value
    ensures HasText(token) && codec.parse(token).Err? ==> r == codec.parse(token)
    ensures HasText(token) && codec.parse(token).Ok? ==>
      var cl := codec.parse(token).value;
      && (cl.expiration.Some? && cl.expiration.value < now ==> r == Err(Expired))
      && (cl.expiration.None? || now <= cl.expiration.value ==> r == Ok(cl))
  {
    if !HasText(token) then Err(EmptyArgument)
    else
      match codec.parse(token)
      case Err(e) => Err(e)
      case Ok(cl) => if cl.expiration.Some? && cl.expiration.value < now then Err(Expired) else Ok(cl)
  }

  /** `extractUsername`: the subject, or the parser's exception. */
  function ExtractUsername(codec: Codec, token: string, now: int): (r: Result<Option<string>, Fault>)
    ensures r.Ok? <==> ExtractAllClaims(codec, token, now).Ok?
    ensures r.Ok? ==> r.value == ExtractAllClaims(codec, token, now).value.subject
    ensures r.Err? ==> r.error == TokenRejected(ExtractAllClaims(codec, token, now).error)
  {
    match ExtractAllClaims(codec, token, now)
    case Ok(cl) => Ok(cl.subject)
    case Err(e) => Err(TokenRejected(e))
  }

  /** `isTokenExpired`: the expiration is strictly before `now`. A token without an
      expiration dereferences null. */
  function IsTokenExpired(codec: Codec, token: string, now: int): (r: Result<bool, Fault>)
    ensures ExtractAllClaims(codec, token, now).Err? ==>
      r == Err(TokenRejected(ExtractAllClaims(codec, token, now).error))
    ensures ExtractAllClaims(codec, token, now).Ok? ==>
      var exp := ExtractAllClaims(codec, token, now).value.expiration;
      && (exp.None? ==> r == Err(NullDereference))
      && (exp.Some? ==> r.Ok? && (r.value <==> exp.value < now))
  {
    match ExtractAllClaims(codec, token, now)
    case Err(e) => Err(TokenRejected(e))
    case Ok(cl) =>
      match cl.expiration
      case None => Err(NullDereference)
      case Some(exp) => Ok(exp < now)
  }

  /** At one instant the expiry check never fires: a token that expired before `now`
      has already been refused by the parser. */
  lemma ExpiryCheckSubsumedByParser(codec: Codec, token: string, now: int)
    ensures IsTokenExpired(codec, token, now) != Ok(true)
  {
  }

  /** `isTokenValid`: the subject is the principal's user name and the token has not
      expired. When the subject differs the expiry is not looked at. */
  function IsTokenValid(codec: Codec, token: string, p: UserPrincipal, now: int): (r: Result<bool, Fault>)
    ensures r == Ok(true) <==>
      && ExtractAllClaims(codec, token, now).Ok?
      && ExtractAllClaims(codec, token, now).value.subject == Some(GetUsername(p))
      && ExtractAllClaims(codec, token, now).value.expiration.Some?
    ensures r == Ok(false) <==>
      && ExtractAllClaims(codec, token, now).Ok?
      && ExtractAllClaims(codec, token, now).value.subject.Some?
      && ExtractAllClaims(codec, token, now).value.subject != Some(GetUsername(p))
    ensures r.Err? ==> r.error == (if ExtractAllClaims(codec, token, now).Err?
                                   then TokenRejected(ExtractAllClaims(codec, token, now).error)
                                   else NullDereference)
  {
    match ExtractUsername(codec, token, now)
    case Err(f) => Err(f)
    case Ok(username) =>
      match username
      case None => Err(NullDereference)
      case Some(name) =>
        if name != GetUsername(p) then Ok(false)
        else
          match IsTokenExpired(codec, token, now)
          case Err(f) => Err(f)
          case Ok(expired) => Ok(!expired)
  }

  /** The parser failures `validateJwtToken` catches. */
  predicate IsCaught(e: JwtError) {
    e == Malformed || e == Expired || e == Unsupported || e == EmptyArgument || e == BadSignature
  }

  /** `validateJwtToken`: true for a token that parses with a subject, false for one
      without a subject or one the parser refuses with a caught exception; any other
      parser failure escapes. */
  function ValidateJwtToken(codec: Codec, token: string, now: int): (r: Result<bool, Fault>)
    ensures r == Ok(true) <==> ExtractAllClaims(codec, token, now).Ok? && ExtractAllClaims(codec, token, now).value.subject.Some?
    ensures r.Err? <==> ExtractAllClaims(codec, token, now).Err? && !IsCaught(ExtractAllClaims(codec, token, now).error)
    ensures r.Err? ==> r.error == TokenRejected(ExtractAllClaims(codec, token, now).error)
  {
    match ExtractAllClaims(codec, token, now)
    case Ok(cl) => Ok(cl.subject.Some?)
    case Err(e) => if IsCaught(e) then Ok(false) else Err(TokenRejected(e))
  }

  /** A token generated for a principal and checked no later than its expiration
      gives back the principal's user name and is valid for that principal; checked
      one millisecond after its expiration it is refused as expired. */
  lemma GeneratedTokenChecks(codec: Codec, p: UserPrincipal, issuedAt: int, later: int, ttl: int, now: int)
    requires RoundTrips(codec)
    ensures var token := GenerateJwtToken(codec, Authentication(Some(p), None, p.authorities), issuedAt, later, ttl).value;
      && (now <= later + ttl ==>
            && ExtractUsername(codec, token, now) == Ok(Some(GetUsername(p)))
            && ExtractAllClaims(codec, token, now) == Ok(IssuedClaims(p, issuedAt, later + ttl))
            && IsTokenValid(codec, token, p, now) == Ok(true)
            && ValidateJwtToken(codec, token, now) == Ok(true))
      && (now > later + ttl ==>
            && ExtractUsername(codec, token, now) == Err(TokenRejected(Expired))
            && ValidateJwtToken(codec, token, now) == Ok(false))
  {
    var cl := IssuedClaims(p, issuedAt, later + ttl);
    assert codec.parse(codec.sign(cl)) == Ok(cl) && HasText(codec.sign(cl));
  }
}
