/**
 * The `authenticateToken` middleware that guards the create-post route: it
 * takes the second space-separated field of the `Authorization` header as the
 * token, answers 401 when there is none, 403 when the token does not verify,
 * and otherwise lets the route run with the decoded claims.
 */
module Gate {

  import opened Wrappers
  import opened Text
  import opened Jwt

  datatype GateOutcome = Unauthorized | Forbidden | Authorized(user: Claims)

  /** The token the middleware takes from the header: the second field of the
      header split on spaces. `None` stands for a value JavaScript treats as
      null (an absent header, or a split with no second field). An empty header
      is falsy, so the expression yields the empty string itself, which is not
      null. The first field is never inspected, so the scheme need not be
      `Bearer`. */
  function BearerToken(header: Option<string>): (token: Option<string>)
    ensures token.None? <==> header.None? || (header.value != "" && ' ' !in header.value)
    ensures header == Some("") ==> token == Some("")
    ensures token.Some? ==> ' ' !in token.value
  {
    match header
    case None => None
    case Some(h) =>
      if h == "" then Some("")
      else
        var fields := Split(h, ' ');
        SplitHasSecondField(h, ' ');
        if |fields| < 2 then None else Some(fields[1])
  }

  /** The gate's decision for an `Authorization` header at clock second `now`. */
  function Authenticate(header: Option<string>, secret: string, now: nat): (r: GateOutcome)
    ensures r == Unauthorized <==> BearerToken(header).None?
    ensures r == Forbidden <==>
              BearerToken(header).Some? && Verify(secret, BearerToken(header).value, now).Err?
    ensures r.Authorized? ==>
              BearerToken(header) == Some(Sign(secret, r.user)) && now < r.user.exp
  {
    match BearerToken(header)
    case None => Unauthorized
    case Some(token) =>
      match Verify(secret, token, now)
      case Err(_) => Forbidden
      case Ok(claims) =>
        VerifySound(secret, token, now);
        Authorized(claims)
  }

  /** Whatever the first field, the second space-separated field is the token,
      whether or not more fields follow. */
  lemma BearerTokenAfterScheme(scheme: string, token: string, tail: string)
    requires ' ' !in scheme && ' ' !in token
    requires tail == [] || tail[0] == ' '
    ensures BearerToken(Some(scheme + " " + token + tail)) == Some(token)
  {
    var h := scheme + " " + token + tail;
    assert h == scheme + [' '] + (token + tail);
    SplitAfterField(scheme, ' ', token + tail);
    if tail == [] {
      assert token + tail == token;
      SplitNoSeparator(token, ' ');
    } else {
      assert token + tail == token + [' '] + tail[1..];
      SplitAfterField(token, ' ', tail[1..]);
    }
  }

  /** The scheme word is ignored: two headers that differ only in their first
      field get the same decision, whatever fields follow the token. */
  lemma SchemeIgnored(scheme1: string, scheme2: string, token: string, tail: string, secret: string, now: nat)
    requires ' ' !in scheme1 && ' ' !in scheme2 && ' ' !in token
    requires tail == [] || tail[0] == ' '
    ensures Authenticate(Some(scheme1 + " " + token + tail), secret, now) ==
            Authenticate(Some(scheme2 + " " + token + tail), secret, now)
  {
    BearerTokenAfterScheme(scheme1, token, tail);
    BearerTokenAfterScheme(scheme2, token, tail);
  }

  /** A token `Sign` made, presented after any one-word scheme, admits the
      request with exactly its claims before expiry and is refused with 403
      from the expiry second on. */
  lemma SignedTokenAdmitted(scheme: string, secret: string, c: Claims, now: nat)
    requires ' ' !in scheme
    ensures Authenticate(Some(scheme + " " + Sign(secret, c)), secret, now) ==
            if now < c.exp then Authorized(c) else Forbidden
  {
    BearerTokenAfterScheme(scheme, Sign(secret, c), "");
    assert scheme + " " + Sign(secret, c) + "" == scheme + " " + Sign(secret, c);
    VerifySign(secret, c, now);
  }

  /** An empty header is not null, so it reaches token verification and is
      refused with 403 rather than 401. */
  lemma EmptyHeaderForbidden(secret: string, now: nat)
    ensures Authenticate(Some(""), secret, now) == Forbidden
  {
    assert Split("", '.') == [""];
  }

  /** A header without a space (including a bare token) is treated as carrying
      no token at all. */
  lemma NoSpaceUnauthorized(header: string, secret: string, now: nat)
    requires header != "" && ' ' !in header
    ensures Authenticate(Some(header), secret, now) == Unauthorized
  {
  }
}
