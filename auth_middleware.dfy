/**
 * Bearer-token middleware. The token is the second space-separated field of
 * the Authorization header; `jwt.verify` is an oracle `verify` that either
 * decodes the claims a token was signed with under a secret, or fails.
 */
module AuthMiddleware {
  import opened Js
  import opened Models
  import Http

  /** The claims a token carries: `{id, phone}` for end users, `{id, name}` for admins. */
  datatype Claims = UserClaims(id: Id, phone: string) | AdminClaims(id: Id, name: string)

  /** The two signing secrets taken from the environment. */
  datatype Secrets = Secrets(access: string, refresh: string)

  /** The two failure messages the middleware answers with. */
  datatype AuthError = NoToken | InvalidToken

  /** Either a 401 answer, or `next()` after setting `req.user`. */
  datatype Verdict = Reject(status: int, error: AuthError) | Next(user: Claims)

  /** `authHeader && authHeader.split(' ')[1]`, with a falsy result read as no token. */
  function ExtractToken(header: Option<string>): (token: Option<string>)
    ensures header.None? ==> token.None?
    ensures token.Some? ==> token.value != "" && ' ' !in token.value
  {
    if header.None? || header.value == "" then None
    else
      var fields := Split(header.value, ' ');
      if |fields| < 2 || fields[1] == "" then None else Some(fields[1])
  }

  /**
   * A header made of a first word, one space, a non-empty token and then
   * nothing or a further space yields exactly that token, whatever the
   * first word is (the scheme name `Bearer` is not checked).
   */
  lemma TokenFromHeader(scheme: string, token: string, rest: string)
    requires ' ' !in scheme && ' ' !in token && token != ""
    requires rest == "" || rest[0] == ' '
    ensures ExtractToken(Some(scheme + " " + token + rest)) == Some(token)
  {
    SplitAfterField(scheme, ' ', token + rest);
    assert scheme + " " + token + rest == scheme + [' '] + (token + rest);
    SplitFirstField(token, ' ', rest);
  }

  /**
   * Conversely, every token the middleware extracts sits in the header as
   * its second field: after a space-free first word and one space, and
   * followed by nothing or by a space.
   */
  lemma HeaderAroundToken(header: string) returns (scheme: string, rest: string)
    requires ExtractToken(Some(header)).Some?
    ensures ' ' !in scheme && (rest == "" || rest[0] == ' ')
    ensures header == scheme + " " + ExtractToken(Some(header)).value + rest
  {
    var fields := Split(header, ' ');
    JoinSplit(header, ' ');
    scheme := fields[0];
    rest := if |fields| == 2 then "" else " " + Join(fields[2..], " ");
    assert Join(fields[1..], " ") == fields[1] + rest by {
      assert fields[1..][0] == fields[1];
      assert fields[1..][1..] == fields[2..];
    }
  }

  /** The header shapes the middleware turns away with "no token". */
  lemma NoTokenHeaders()
    ensures ExtractToken(None) == None
    ensures ExtractToken(Some("")) == None
    ensures ExtractToken(Some("Bearer")) == None
  {
    SplitFieldCount("Bearer", ' ');
  }

  /** Two spaces after the scheme leave an empty second field: no token. */
  lemma DoubleSpaceHeader()
    ensures ExtractToken(Some("Bearer  abc")) == None
  {
    SplitAfterField("Bearer", ' ', " abc");
    assert "Bearer  abc" == "Bearer" + [' '] + " abc";
    assert Split(" abc", ' ') == [""] + Split("abc", ' ');
  }

  /** The usual header yields its token. */
  lemma BearerHeader()
    ensures ExtractToken(Some("Bearer abc")) == Some("abc")
  {
    TokenFromHeader("Bearer", "abc", "");
    assert "Bearer" + " " + "abc" + "" == "Bearer abc";
  }

  /** The whole decision for one request, given the secret and the verifier. */
  function Authenticate(header: Option<string>, secret: string,
                        verify: (string, string) -> Option<Claims>): (v: Verdict)
    ensures v.Reject? ==> v.status == Http.Unauthorized
    ensures v.Reject? && v.error == NoToken <==> ExtractToken(header).None?
    ensures v.Next? <==> ExtractToken(header).Some? && verify(ExtractToken(header).value, secret).Some?
    ensures v.Next? ==> v.user == verify(ExtractToken(header).value, secret).value
  {
    match ExtractToken(header)
    case None => Reject(Http.Unauthorized, NoToken)
    case Some(token) =>
      match verify(token, secret)
      case None => Reject(Http.Unauthorized, InvalidToken)
      case Some(claims) => Next(claims)
  }

  /** The part of an Express request the middleware reads and writes. */
  class Request {
    var authorization: Option<string>
    var user: Option<Claims>

    constructor (authorization: Option<string>)
      ensures this.authorization == authorization && user == None
    {
      this.authorization := authorization;
      user := None;
    }
  }

  /**
   * Shared body of both middlewares. On success `req.user` becomes the
   * decoded claims and `next` is called once; otherwise the answer is the
   * 401 of the verdict, `req.user` is untouched and `next` is not called.
   */
  method VerifyWith(req: Request, secret: string, verify: (string, string) -> Option<Claims>)
    returns (v: Verdict, nextCalls: nat)
    modifies req`user
    ensures v == Authenticate(req.authorization, secret, verify)
    ensures v.Next? ==> nextCalls == 1 && req.user == Some(v.user)
    ensures v.Reject? ==> nextCalls == 0 && req.user == old(req.user)
  {
    var token := ExtractToken(req.authorization);
    if token.None? {
      return Reject(Http.Unauthorized, NoToken), 0;
    }
    var decoded := verify(token.value, secret);
    if decoded.None? {
      return Reject(Http.Unauthorized, InvalidToken), 0;
    }
    req.user := decoded;
    v, nextCalls := Next(decoded.value), 1;
  }

  /** `verifyAccessToken`: checks the token against the access secret. */
  method VerifyAccessToken(req: Request, secrets: Secrets, verify: (string, string) -> Option<Claims>)
    returns (v: Verdict, nextCalls: nat)
    modifies req`user
    ensures v == Authenticate(req.authorization, secrets.access, verify)
    ensures v.Next? ==> nextCalls == 1 && req.user == Some(v.user)
    ensures v.Reject? ==> nextCalls == 0 && req.user == old(req.user)
  {
    v, nextCalls := VerifyWith(req, secrets.access, verify);
  }

  /** `verifyRefreshToken`: the same steps against the refresh secret. */
  method VerifyRefreshToken(req: Request, secrets: Secrets, verify: (string, string) -> Option<Claims>)
    returns (v: Verdict, nextCalls: nat)
    modifies req`user
    ensures v == Authenticate(req.authorization, secrets.refresh, verify)
    ensures v.Next? ==> nextCalls == 1 && req.user == Some(v.user)
    ensures v.Reject? ==> nextCalls == 0 && req.user == old(req.user)
  {
    v, nextCalls := VerifyWith(req, secrets.refresh, verify);
  }
}
