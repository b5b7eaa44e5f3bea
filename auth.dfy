/** The token middleware `verifyToken` and `generateAccessToken`. The
    middleware reads an access token from the `Authorization` header and a
    refresh token from the `refresh-token` header, and then either lets the
    request through, answers it, or reissues the access token. Token
    verification is a parameter (a function of the token and the secret);
    signing produces a `Minted` token that records what was signed. What the
    middleware does to the request and the response is returned as an
    `Effects` record. */
module Auth {
  import opened Basics
  import opened Text
  import opened Js

  // ---------------------------------------------------------------------------
  // inputs

  /** A request header as the middleware may find it: missing, a string, or
      an array of strings. Node hands over one string for both headers read
      here (it keeps the first `Authorization` header and joins repeated
      `refresh-token` headers with ", "), so the array form, which Node
      produces only for `set-cookie`, is what the middleware's type guard
      allows for rather than something a request can carry. */
  datatype HeaderValue = Absent | Single(value: string) | Several(values: seq<string>)

  datatype Request = Request(authorization: Option<string>, refreshToken: HeaderValue)

  /** `process.env.ACCESS_TOKEN_SECRET` and `process.env.REFRESH_TOKEN_SECRET`. */
  datatype Env = Env(accessTokenSecret: Option<string>, refreshTokenSecret: Option<string>)

  /** A secret is usable when it is set and not empty (`!secret` is false). */
  predicate Configured(secret: Option<string>)
  {
    secret.Some? && secret.value != ""
  }

  /** What verifying a token yields: its payload, which is a string or an
      object of claims, or an error with its name. */
  datatype Payload = TextPayload(text: string) | ObjectPayload(claims: map<string, JsValue>)
  datatype Verification = Decoded(payload: Payload) | VerifyError(name: string)

  const TokenExpiredError := "TokenExpiredError"

  /** Token verification: the token, the secret, and what verifying gives. */
  type Verifier = (string, string) -> Verification

  // ---------------------------------------------------------------------------
  // outputs

  /** A token as it leaves the middleware: one the client presented, or one
      signed here over the claims `{ user }` with a secret and a lifetime. */
  datatype Token = Presented(text: string) | Minted(user: JsValue, secret: string, expiresIn: string)

  datatype Cookie = Cookie(name: string, value: Token, httpOnly: bool, sameSite: string)

  datatype Body = MessageJson(message: string) | TokensJson(accessToken: Token, refreshToken: string)

  /** Everything the middleware does: the status and JSON body it writes (if
      any), the cookies it sets, the value it stores in `req.user` (if any),
      and how many times it calls `next`. */
  datatype Effects = Effects(status: Option<int>, body: Option<Body>, cookies: seq<Cookie>,
                             user: Option<Payload>, nextCalls: nat)

  const NoTokensProvided := "Unauthorized: No tokens provided"
  const MissingAccessSecret := "Internal Server Error: Missing access token secret"
  const MissingRefreshSecret := "Internal Server Error: Missing refresh token secret"
  const InvalidRefreshToken := "Unauthorized: Invalid refresh token"
  const Forbidden := "Forbidden"
  const AccessTokenLifetime := "2h"

  /** `res.status(status).json({ message })`, and nothing else. */
  function Respond(status: int, message: string): Effects
  {
    Effects(Some(status), Some(MessageJson(message)), [], None, 0)
  }

  /** Nothing written, nothing stored, `next` not called. */
  const Nothing := Effects(None, None, [], None, 0)

  // ---------------------------------------------------------------------------
  // reading the tokens

  /** `authHeader && authHeader.split(" ")[1]`: the second space-separated
      piece of the header, if there is one. A missing header gives nothing and
      an empty one gives the empty string; neither counts as a token. */
  function AccessTokenOf(authorization: Option<string>): (r: Option<string>)
    ensures r.Some? ==> ' ' !in r.value
  {
    match authorization
    case None => None
    case Some(h) =>
      if h == "" then Some("")
      else
        var parts := Split(h, ' ');
        if |parts| > 1 then Some(parts[1]) else None
  }

  /** The refresh-token header's string, or the first element when the
      header is an array. */
  function RefreshTokenOf(header: HeaderValue): (r: Option<string>)
    ensures header.Single? ==> r == Some(header.value)
    ensures header.Several? ==> (r.Some? <==> |header.values| > 0)
    ensures header.Several? && |header.values| > 0 ==> r == Some(header.values[0])
    ensures header.Absent? ==> r.None?
  {
    match header
    case Absent => None
    case Single(v) => Some(v)
    case Several(vs) => if |vs| > 0 then Some(vs[0]) else None
  }

  /** A token counts as present when it is a non-empty string. */
  predicate Present(token: Option<string>)
  {
    token.Some? && token.value != ""
  }

  /** The access token of a header `<scheme> <token>` (with or without more
      space-separated text after it) is `<token>`. */
  lemma {:induction false} BearerToken(scheme: string, token: string, rest: Option<string>)
    requires ' ' !in scheme && ' ' !in token
    ensures AccessTokenOf(Some(scheme + " " + token + (if rest.Some? then " " + rest.value else "")))
            == Some(token)
  {
    var tail := if rest.Some? then " " + rest.value else "";
    var h := scheme + " " + token + tail;
    assert h == scheme + (" " + (token + tail));
    SplitPrefix(scheme, " " + (token + tail), ' ');
    var after := token + tail;
    assert (" " + after)[0] == ' ' && (" " + after)[1..] == after;
    assert Split(" " + after, ' ') == [""] + Split(after, ' ');
    SplitPrefix(token, tail, ' ');
    if rest.Some? {
      assert tail[0] == ' ';
      assert Split(tail, ' ')[0] == "";
    } else {
      assert Split(tail, ' ') == [""];
    }
    assert token + "" == token;
  }

  /** A non-empty header without a space yields no access token. */
  lemma {:induction false} NoSpaceNoAccessToken(h: string)
    requires h != "" && ' ' !in h
    ensures AccessTokenOf(Some(h)) == None
  {
    SplitPrefix(h, "", ' ');
    assert h + "" == h;
  }

  /** A non-empty header yields an access token exactly when it holds a space. */
  lemma AccessTokenIffSpace(h: string)
    requires h != ""
    ensures AccessTokenOf(Some(h)).Some? <==> ' ' in h
  {
    if ' ' in h {
      SplitAtSeparator(h, ' ');
    } else {
      NoSpaceNoAccessToken(h);
    }
  }

  // ---------------------------------------------------------------------------
  // generateAccessToken

  /** `generateAccessToken(user)`: throws when the access secret is not
      configured, and otherwise signs `{ user }` with that secret for two hours. */
  function GenerateAccessToken(user: JsValue, env: Env): (r: Thrown<Token>)
  {
    if !Configured(env.accessTokenSecret) then Threw("Missing access token secret")
    else Returned(Minted(user, env.accessTokenSecret.value, AccessTokenLifetime))
  }

  /** The token carries exactly the given user, signed with the access secret,
      and the call fails exactly when that secret is not configured. */
  lemma GenerateAccessTokenSigns(user: JsValue, env: Env)
    ensures GenerateAccessToken(user, env).Threw? <==> !Configured(env.accessTokenSecret)
    ensures GenerateAccessToken(user, env).Returned? ==>
      && GenerateAccessToken(user, env).value.Minted?
      && GenerateAccessToken(user, env).value.user == user
      && GenerateAccessToken(user, env).value.secret == env.accessTokenSecret.value
      && GenerateAccessToken(user, env).value.expiresIn == AccessTokenLifetime
  {
  }

  // ---------------------------------------------------------------------------
  // verifyToken

  /** `verifyToken(req, res, next)`. */
  function VerifyToken(req: Request, env: Env, verify: Verifier): (e: Effects)
    ensures e.nextCalls <= 1
    ensures e.status.Some? <==> e.body.Some?
    ensures e.status.Some? ==> e.status.value in {200, 401, 403, 500}
    ensures e.nextCalls == 1 ==> e.status.None? && e.cookies == [] && e.user.Some?
    ensures e.user.Some? ==> e.nextCalls == 1
    ensures e.cookies != [] <==> e.status == Some(200)
  {
    var accessToken := AccessTokenOf(req.authorization);
    var refreshToken := RefreshTokenOf(req.refreshToken);
    if !Present(accessToken) || !Present(refreshToken) then Respond(401, NoTokensProvided)
    else if !Configured(env.accessTokenSecret) then Respond(500, MissingAccessSecret)
    else
      match verify(accessToken.value, env.accessTokenSecret.value)
      case Decoded(payload) => Effects(None, None, [], Some(payload), 1)
      case VerifyError(name) =>
        if name == TokenExpiredError then Refresh(refreshToken.value, env, verify)
        else Respond(403, Forbidden)
  }

  /** The expired-access-token path: verify the refresh token and, when its
      payload is an object with a `user` claim, mint a new access token, set
      both tokens as cookies and answer 200 with both. A string payload, or an
      object without `user`, leaves the request unanswered. */
  function Refresh(refreshToken: string, env: Env, verify: Verifier): (e: Effects)
    ensures e.nextCalls == 0 && e.user.None?
    ensures e.status.Some? <==> e.body.Some?
    ensures e.status.Some? ==> e.status.value in {200, 401, 500}
    ensures e.cookies != [] <==> e.status == Some(200)
  {
    if !Configured(env.refreshTokenSecret) then Respond(500, MissingRefreshSecret)
    else
      match verify(refreshToken, env.refreshTokenSecret.value)
      case VerifyError(_) => Respond(401, InvalidRefreshToken)
      case Decoded(TextPayload(_)) => Nothing
      case Decoded(ObjectPayload(claims)) =>
        if "user" !in claims then Nothing
        else
          match GenerateAccessToken(claims["user"], env)
          case Threw(_) => Respond(401, InvalidRefreshToken)
          case Returned(newAccessToken) =>
            Effects(Some(200), Some(TokensJson(newAccessToken, refreshToken)),
                    [Cookie("accessToken", newAccessToken, true, "strict"),
                     Cookie("refreshToken", Presented(refreshToken), true, "strict")],
                    None, 0)
  }

  // ---------------------------------------------------------------------------
  // properties of verifyToken

  /** Both tokens present, as the middleware reads them. */
  predicate TokensPresent(req: Request)
  {
    Present(AccessTokenOf(req.authorization)) && Present(RefreshTokenOf(req.refreshToken))
  }

  /** Without both tokens the answer is 401 "No tokens provided", whatever the
      secrets and whatever verification would say. */
  lemma MissingTokens(req: Request, env: Env, verify: Verifier, env': Env, verify': Verifier)
    requires !TokensPresent(req)
    ensures VerifyToken(req, env, verify) == Respond(401, NoTokensProvided)
    ensures VerifyToken(req, env, verify) == VerifyToken(req, env', verify')
  {
  }

  /** With both tokens but no access secret the answer is 500, before any
      verification. */
  lemma MissingAccessTokenSecret(req: Request, env: Env, verify: Verifier, verify': Verifier)
    requires TokensPresent(req) && !Configured(env.accessTokenSecret)
    ensures VerifyToken(req, env, verify) == Respond(500, MissingAccessSecret)
    ensures VerifyToken(req, env, verify) == VerifyToken(req, env, verify')
  {
  }

  /** `next` is called, once, exactly when both tokens are present, the
      access secret is configured and the access token verifies; `req.user` is
      then its payload and nothing is written. */
  lemma AccessGranted(req: Request, env: Env, verify: Verifier)
    ensures VerifyToken(req, env, verify).nextCalls == 1 <==>
      && TokensPresent(req) && Configured(env.accessTokenSecret)
      && verify(AccessTokenOf(req.authorization).value, env.accessTokenSecret.value).Decoded?
    ensures VerifyToken(req, env, verify).nextCalls == 1 ==>
      VerifyToken(req, env, verify)
        == Effects(None, None, [],
                   Some(verify(AccessTokenOf(req.authorization).value, env.accessTokenSecret.value).payload), 1)
  {
  }

  /** A verification error other than expiry gives 403 "Forbidden", and the
      refresh token (which must only be present) plays no part. */
  lemma ForbiddenIgnoresRefreshToken(req: Request, env: Env, verify: Verifier, other: HeaderValue)
    requires TokensPresent(req) && Configured(env.accessTokenSecret)
    requires var v := verify(AccessTokenOf(req.authorization).value, env.accessTokenSecret.value);
      v.VerifyError? && v.name != TokenExpiredError
    requires Present(RefreshTokenOf(other))
    ensures VerifyToken(req, env, verify) == Respond(403, Forbidden)
    ensures VerifyToken(req.(refreshToken := other), env, verify) == Respond(403, Forbidden)
  {
  }

  /** An expired access token and a refresh token that verifies to an object
      with a `user` claim: a new access token over that user is set as a
      cookie next to the unchanged refresh token, both `httpOnly` and
      `sameSite` strict, and the answer is 200 with both tokens; `next` is not
      called. */
  lemma Reissued(req: Request, env: Env, verify: Verifier)
    requires TokensPresent(req) && Configured(env.accessTokenSecret) && Configured(env.refreshTokenSecret)
    requires verify(AccessTokenOf(req.authorization).value, env.accessTokenSecret.value)
             == VerifyError(TokenExpiredError)
    requires var v := verify(RefreshTokenOf(req.refreshToken).value, env.refreshTokenSecret.value);
      v.Decoded? && v.payload.ObjectPayload? && "user" in v.payload.claims
    ensures var refresh := RefreshTokenOf(req.refreshToken).value;
      var user := verify(refresh, env.refreshTokenSecret.value).payload.claims["user"];
      var minted := Minted(user, env.accessTokenSecret.value, AccessTokenLifetime);
      && VerifyToken(req, env, verify).status == Some(200)
      && VerifyToken(req, env, verify).body == Some(TokensJson(minted, refresh))
      && VerifyToken(req, env, verify).nextCalls == 0
      && VerifyToken(req, env, verify).user.None?
      && (forall c | c in VerifyToken(req, env, verify).cookies :: c.httpOnly && c.sameSite == "strict")
      && VerifyToken(req, env, verify).cookies
         == [Cookie("accessToken", minted, true, "strict"), Cookie("refreshToken", Presented(refresh), true, "strict")]
  {
  }

  /** On the expired path: no refresh secret gives 500; a refresh token that
      fails verification gives 401 "Invalid refresh token"; a payload that is
      a string or has no `user` claim leaves the request unanswered. */
  lemma ExpiredOutcomes(req: Request, env: Env, verify: Verifier)
    requires TokensPresent(req) && Configured(env.accessTokenSecret)
    requires verify(AccessTokenOf(req.authorization).value, env.accessTokenSecret.value)
             == VerifyError(TokenExpiredError)
    ensures !Configured(env.refreshTokenSecret) ==>
      VerifyToken(req, env, verify) == Respond(500, MissingRefreshSecret)
    ensures Configured(env.refreshTokenSecret) ==>
      var v := verify(RefreshTokenOf(req.refreshToken).value, env.refreshTokenSecret.value);
      && (v.VerifyError? ==> VerifyToken(req, env, verify) == Respond(401, InvalidRefreshToken))
      && (v.Decoded? && (v.payload.TextPayload? || "user" !in v.payload.claims) ==>
            VerifyToken(req, env, verify) == Nothing)
  {
  }

  /** The `generateAccessToken` failure cannot happen inside the middleware:
      the access secret was checked first, so "Invalid refresh token" means
      the refresh token itself failed verification. */
  lemma InvalidRefreshMeansRefreshFailed(req: Request, env: Env, verify: Verifier)
    requires VerifyToken(req, env, verify) == Respond(401, InvalidRefreshToken)
    ensures TokensPresent(req) && Configured(env.accessTokenSecret) && Configured(env.refreshTokenSecret)
    ensures verify(RefreshTokenOf(req.refreshToken).value, env.refreshTokenSecret.value).VerifyError?
  {
    var accessToken := AccessTokenOf(req.authorization);
    var refreshToken := RefreshTokenOf(req.refreshToken);
    assert NoTokensProvided != InvalidRefreshToken;
    assert TokensPresent(req);
    assert MissingAccessSecret != InvalidRefreshToken;
    assert Configured(env.accessTokenSecret);
    var v := verify(accessToken.value, env.accessTokenSecret.value);
    assert v == VerifyError(TokenExpiredError) by {
      assert Forbidden != InvalidRefreshToken;
    }
    assert MissingRefreshSecret != InvalidRefreshToken by {
      assert |MissingRefreshSecret| != |InvalidRefreshToken|;
    }
  }
}
