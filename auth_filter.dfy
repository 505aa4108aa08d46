/** `AuthTokenFilter`: reads a bearer token from the `Authorization` header and, at
    most once per request, puts the authentication it proves into the security
    context before handing the request on. The thread-local security context is a
    per-request object; the rest of the chain is an object that records, for each
    time it is called, the authentication it was called with. */
module AuthFilter {
  import opened Wrappers
  import opened Errors
  import opened JavaText
  import opened Users
  import opened Principals
  import opened UserServices
  import opened UserDetailsServices
  import opened Jwt

  const BearerPrefix := "Bearer "

  /** `parseJwt`: the header with the seven characters of `"Bearer "` dropped, when the
      header has text and starts with that exact, case-sensitive prefix. */
  function ParseJwt(header: Option<string>): (t: Option<string>)
    ensures t.Some? <==> header.Some? && HasText(header.value) && StartsWith(header.value, BearerPrefix)
    ensures t.Some? ==> header.value == BearerPrefix + t.value
  {
    if header.Some? && HasText(header.value) && StartsWith(header.value, BearerPrefix)
    then Some(header.value[7..])
    else None
  }

  /** Every string, the empty one included, comes back out of a bearer header. */
  lemma ParseJwtRoundTrip(t: string)
    ensures ParseJwt(Some(BearerPrefix + t)) == Some(t)
  {
    assert (BearerPrefix + t)[0] == 'B';
    assert (BearerPrefix + t)[..7] == BearerPrefix;
    assert (BearerPrefix + t)[7..] == t;
  }

  /** No header, a blank header, a lower-case scheme or another scheme gives no token. */
  lemma ParseJwtRefusals(blank: string)
    requires !HasText(blank)
    ensures ParseJwt(None) == None && ParseJwt(Some(blank)) == None
    ensures ParseJwt(Some("bearer x")) == None && ParseJwt(Some("Basic x")) == None
  {
    assert "bearer x"[..7] != BearerPrefix by { assert "bearer x"[0] != BearerPrefix[0]; }
    assert "Basic x"[..7] != BearerPrefix by { assert "Basic x"[1] != BearerPrefix[1]; }
  }

  /** What one pass of the filter does: hand on without touching the context, put an
      authentication into the context and then hand on, or let an exception escape
      without handing on. */
  datatype Decision = Proceed | Authenticate(auth: Authentication) | Abort(fault: Fault)

  /** The decision of `doFilterInternal` for a request with this header, when the
      context holds `current`, the table holds `users`, and the clock reads `now`. */
  function FilterDecision(header: Option<string>, current: Option<Authentication>,
                          users: seq<User>, codec: Codec, now: int): (d: Decision)
    ensures ParseJwt(header).None? ==> d == Proceed
    ensures ParseJwt(header).Some? ==>
      var jwt := ParseJwt(header).value;
      var name := ExtractUsername(codec, jwt, now);
      && (name.Err? ==> d == Abort(name.error))
      && (name.Ok? && (name.value.None? || current.Some?) ==> d == Proceed)
      && (name.Ok? && name.value.Some? && current.None? ==>
            var loaded := LoadUserByUsername(users, name.value.value);
            && (loaded.Err? ==> d == Abort(loaded.error))
            && (loaded.Ok? ==>
                  var valid := IsTokenValid(codec, jwt, loaded.value, now);
                  && (valid.Err? ==> d == Abort(valid.error))
                  && (valid == Ok(false) ==> d == Proceed)
                  && (valid == Ok(true) ==>
                        d == Authenticate(Authentication(Some(loaded.value), None, loaded.value.authorities)))))
    ensures d.Authenticate? ==>
      && current.None? && ParseJwt(header).Some?
      && var jwt := ParseJwt(header).value;
      && ExtractUsername(codec, jwt, now).Ok? && ExtractUsername(codec, jwt, now).value.Some?
      && var name := ExtractUsername(codec, jwt, now).value.value;
      && LoadUserByUsername(users, name).Ok?
      && var p := LoadUserByUsername(users, name).value;
      && IsTokenValid(codec, jwt, p, now) == Ok(true)
      && d.auth == Authentication(Some(p), None, p.authorities)
  {
    match ParseJwt(header)
    case None => Proceed
    case Some(jwt) =>
      match ExtractUsername(codec, jwt, now)
      case Err(f) => Abort(f)
      case Ok(username) =>
        if username.None? || current.Some? then Proceed
        else
          match LoadUserByUsername(users, username.value)
          case Err(f) => Abort(f)
          case Ok(p) =>
            match IsTokenValid(codec, jwt, p, now)
            case Err(f) => Abort(f)
            case Ok(valid) => if valid then Authenticate(Authentication(Some(p), None, p.authorities)) else Proceed
  }

  /** When the context already holds an authentication it is never replaced, and the
      user table is not consulted: the decision is the same for every table. */
  lemma ExistingAuthenticationKept(header: Option<string>, a: Authentication, users: seq<User>,
                                   others: seq<User>, codec: Codec, now: int)
    ensures !FilterDecision(header, Some(a), users, codec, now).Authenticate?
    ensures FilterDecision(header, Some(a), users, codec, now) == FilterDecision(header, Some(a), others, codec, now)
  {
  }

  /** A token whose subject names no stored row, sent with an empty context, lets the
      not-found exception of `loadUserByUsername` escape: the filter aborts, so the
      request is not handed on. */
  lemma UnknownSubjectAborts(header: Option<string>, users: seq<User>, codec: Codec, now: int, name: string)
    requires ParseJwt(header).Some? && ExtractUsername(codec, ParseJwt(header).value, now) == Ok(Some(name))
    requires forall i :: 0 <= i < |users| ==> users[i].email != name
    ensures FilterDecision(header, None, users, codec, now) == Abort(Runtime(UserNotFoundMessage(name)))
  {
    assert LoadUserByUsername(users, name).Err?;
  }

  /** A signed token naming a stored user but carrying no expiration, sent with an
      empty context, escapes with a null dereference from `isTokenExpired`. */
  lemma MissingExpiryAborts(header: Option<string>, users: seq<User>, codec: Codec, now: int, i: nat)
    requires ParseJwt(header).Some? && i < |users|
    requires ExtractAllClaims(codec, ParseJwt(header).value, now).Ok?
    requires ExtractAllClaims(codec, ParseJwt(header).value, now).value.subject == Some(users[i].email)
    requires ExtractAllClaims(codec, ParseJwt(header).value, now).value.expiration.None?
    ensures FilterDecision(header, None, users, codec, now) == Abort(NullDereference)
  {
    var jwt := ParseJwt(header).value;
    var loaded := LoadUserByUsername(users, users[i].email);
    assert loaded.Ok?;
    assert IsTokenValid(codec, jwt, loaded.value, now) == Err(NullDereference);
  }

  /** A token that is only `"Bearer "` is handed to the parser as the empty string and
      escapes as an empty-argument failure. */
  lemma EmptyBearerTokenAborts(current: Option<Authentication>, users: seq<User>, codec: Codec, now: int)
    ensures FilterDecision(Some(BearerPrefix), current, users, codec, now) == Abort(TokenRejected(EmptyArgument))
  {
    ParseJwtRoundTrip("");
    assert BearerPrefix + "" == BearerPrefix;
  }

  /** End to end: a token generated for row `i` of a table with unique emails, sent
      no later than its expiration to a request with an empty context, authenticates
      as that row, with its one role as authority, whatever its account flags say.
      Sent after its expiration, it escapes as an expired-token failure. */
  lemma GeneratedTokenAuthenticates(users: seq<User>, i: nat, codec: Codec,
                                    issuedAt: int, later: int, ttl: int, now: int)
    requires RoundTrips(codec) && UniqueKeys(users) && i < |users|
    ensures var p := Build(users[i]);
      var token := GenerateJwtToken(codec, Authentication(Some(p), None, p.authorities), issuedAt, later, ttl).value;
      && (now <= later + ttl ==>
            FilterDecision(Some(BearerPrefix + token), None, users, codec, now)
              == Authenticate(Authentication(Some(p), None, [RoleName(users[i].role)])))
      && (now > later + ttl ==>
            FilterDecision(Some(BearerPrefix + token), None, users, codec, now) == Abort(TokenRejected(Expired)))
  {
    var p := Build(users[i]);
    var token := GenerateJwtToken(codec, Authentication(Some(p), None, p.authorities), issuedAt, later, ttl).value;
    ParseJwtRoundTrip(token);
    GeneratedTokenChecks(codec, p, issuedAt, later, ttl, now);
    LoadFindsStoredRow(users, i);
  }

  /** The per-request security context. */
  class SecurityContext {
    var authentication: Option<Authentication>

    constructor (initial: Option<Authentication>)
      ensures authentication == initial
    {
      authentication := initial;
    }
  }

  /** The rest of the filter chain, seen from this filter. */
  class FilterChain {
    /** The context's authentication at each call of `doFilter`, oldest first. */
    var calls: seq<Option<Authentication>>

    constructor ()
      ensures calls == []
    {
      calls := [];
    }

    /** `doFilter`: the request goes on with the context as it stands. */
    method DoFilter(ctx: SecurityContext)
      modifies this
      ensures calls == old(calls) + [ctx.authentication]
    {
      calls := calls + [ctx.authentication];
    }
  }

  /** `doFilterInternal`. Returns `Fail` when an exception escapes the filter. */
  method DoFilterInternal(header: Option<string>, users: seq<User>, codec: Codec, now: int,
                          ctx: SecurityContext, chain: FilterChain) returns (outcome: Outcome<Fault>)
    modifies ctx, chain
    ensures var d := FilterDecision(header, old(ctx.authentication), users, codec, now);
      && (d.Proceed? ==>
            && outcome == Pass && ctx.authentication == old(ctx.authentication)
            && chain.calls == old(chain.calls) + [old(ctx.authentication)])
      && (d.Authenticate? ==>
            && outcome == Pass && ctx.authentication == Some(d.auth)
            && chain.calls == old(chain.calls) + [Some(d.auth)])
      && (d.Abort? ==>
            && outcome == Fail(d.fault) && ctx.authentication == old(ctx.authentication)
            && chain.calls == old(chain.calls))
  {
    var jwt := ParseJwt(header);
    if jwt.None? {
      chain.DoFilter(ctx);
      return Pass;
    }
    var username := ExtractUsername(codec, jwt.value, now);
    if username.Err? {
      return Fail(username.error);
    }
    if username.value.Some? && ctx.authentication.None? {
      var details := LoadUserByUsername(users, username.value.value);
      if details.Err? {
        return Fail(details.error);
      }
      var valid := IsTokenValid(codec, jwt.value, details.value, now);
      if valid.Err? {
        return Fail(valid.error);
      }
      if valid.value {
        var p := details.value;
        ctx.authentication := Some(Authentication(Some(p), None, p.authorities));
      }
    }
    chain.DoFilter(ctx);
    outcome := Pass;
  }
}
