/// The request helpers of the HTTP layer (apis/helper.go): the absolute URL
/// a handler hands back to the client, and the authentication gate in
/// front of the protected routes. JWT decoding, signature checking and
/// claim validation belong to golang-jwt and are taken as parameters.
module ApiHelper {
  import opened Common

  /// The parts of an incoming request the helpers read. A header that is
  /// not present reads as "" (http.Header.Get).
  datatype Request = Request(host: string, headers: map<string, string>)

  function HeaderGet(req: Request, name: string): string {
    if name in req.headers then req.headers[name] else ""
  }

  /// The scheme ConvertURL uses: X-Forwarded-Proto when set, otherwise "http".
  function Scheme(req: Request): (r: string)
    ensures HeaderGet(req, "X-Forwarded-Proto") != "" ==> r == HeaderGet(req, "X-Forwarded-Proto")
    ensures HeaderGet(req, "X-Forwarded-Proto") == "" ==> r == "http"
  {
    var h := HeaderGet(req, "X-Forwarded-Proto");
    if h != "" then h else "http"
  }

  /// ConvertURL: scheme + "://" + host + path.
  function ConvertURL(req: Request, path: string): (r: string)
    ensures |r| == |Scheme(req)| + 3 + |req.host| + |path|
    ensures r[..|Scheme(req)|] == Scheme(req)
    ensures r[|r| - |path|..] == path
  {
    Scheme(req) + "://" + req.host + path
  }

  /// The index of the first ':' in `s`, or |s| if there is none.
  function FirstColon(s: string): (i: nat)
    ensures i <= |s|
    ensures forall j :: 0 <= j < i ==> s[j] != ':'
    ensures i < |s| ==> s[i] == ':'
  {
    if s == [] || s[0] == ':' then 0 else 1 + FirstColon(s[1..])
  }

  /// How a client reads a URL back: the scheme is everything before the
  /// first ':', and what follows "://" is host and path.
  function SplitURL(url: string): (string, string) {
    var i := FirstColon(url);
    if i + 3 <= |url| && url[i..i + 3] == "://" then (url[..i], url[i + 3..]) else ("", url)
  }

  lemma {:induction false} FirstColonPrefix(a: string, b: string)
    requires forall j :: 0 <= j < |a| ==> a[j] != ':'
    requires b != [] && b[0] == ':'
    ensures FirstColon(a + b) == |a|
  {
    if a != [] {
      assert (a + b)[1..] == a[1..] + b;
      FirstColonPrefix(a[1..], b);
    }
  }

  /// A client splitting the URL recovers the scheme and the host-and-path,
  /// as long as the forwarded scheme has no ':' of its own.
  lemma ConvertURLRoundTrip(req: Request, path: string)
    requires forall j :: 0 <= j < |Scheme(req)| ==> Scheme(req)[j] != ':'
    ensures SplitURL(ConvertURL(req, path)) == (Scheme(req), req.host + path)
  {
    var s := Scheme(req);
    var rest := req.host + path;
    var url := ConvertURL(req, path);
    assert url == s + ("://" + rest);
    FirstColonPrefix(s, "://" + rest);
    assert FirstColon(url) == |s|;
    assert url[|s|..|s| + 3] == "://";
    assert url[..|s|] == s;
    assert url[|s| + 3..] == rest;
  }

  /// The server configuration LoggedIn consults.
  datatype Config = Config(password: string, jwtSecret: string)

  datatype SigningMethod = Hmac | OtherMethod(alg: string)

  /// The dynamic type of a decoded token's claims.
  datatype Claims = MapClaims(fields: map<string, string>) | OtherClaims

  datatype Token = Token(signing: SigningMethod, claims: Claims)

  /// golang-jwt as LoggedIn uses it, abstractly:
  /// - parseAuthHeader: utils.ParseAuthHeader, the token in an
  ///   Authorization header ("" when there is none);
  /// - decode: the token's header and claims, or None when malformed;
  /// - verify: whether jwt.Parse accepts the token under the key (signature
  ///   and its own default claim checks);
  /// - validateIssuedAt: the extra validator built with WithIssuedAt.
  datatype Jwt = Jwt(parseAuthHeader: string -> string,
                     decode: string -> Option<Token>,
                     verify: (string, string) -> bool,
                     validateIssuedAt: Claims -> bool)

  /// The key function handed to jwt.Parse: the configured secret for HMAC
  /// tokens, an error for any other signing method.
  function KeyFunc(cfg: Config, token: Token): (r: Result<string>)
    ensures r.Ok? <==> token.signing == Hmac
    ensures r.Ok? ==> r.value == cfg.jwtSecret
  {
    if !token.signing.Hmac? then Err(Failure("unexpected signing method"))
    else Ok(cfg.jwtSecret)
  }

  /// jwt.Parse(tokenString, keyFunc).
  function ParseToken(jwt: Jwt, cfg: Config, tokenString: string): (r: Result<Token>)
    ensures r.Ok? <==> (&& jwt.decode(tokenString).Some?
                        && jwt.decode(tokenString).value.signing == Hmac
                        && jwt.verify(tokenString, cfg.jwtSecret))
    ensures r.Ok? ==> r.value == jwt.decode(tokenString).value
  {
    match jwt.decode(tokenString)
    case None => Err(Failure("token is malformed"))
    case Some(token) =>
      match KeyFunc(cfg, token)
      case Err(e) => Err(e)
      case Ok(key) =>
        if jwt.verify(tokenString, key) then Ok(token) else Err(Failure("token signature is invalid"))
  }

  /// The token-based half of LoggedIn.
  predicate TokenAccepted(jwt: Jwt, cfg: Config, tokenString: string) {
    var p := ParseToken(jwt, cfg, tokenString);
    p.Ok? && p.value.claims.MapClaims? && jwt.validateIssuedAt(p.value.claims)
  }

  /// LoggedIn: None when the request may proceed, otherwise the error.
  function LoggedIn(cfg: Config, jwt: Jwt, req: Request): (r: Option<Error>)
    ensures var pw := HeaderGet(req, "X-Password");
      var token := jwt.parseAuthHeader(HeaderGet(req, "Authorization"));
      && (r == None <==> (|| (pw != "" && pw == cfg.password)
                          || (token != "" && TokenAccepted(jwt, cfg, token))))
      && (r != None && token == "" ==> r == Some(InvalidAuth("invalid authorization header")))
      && (r != None && token != "" ==> r == Some(InvalidAuth("invalid authorization token")))
  {
    var pw := HeaderGet(req, "X-Password");
    if pw != "" && cfg.password == pw then None
    else
      var tokenString := jwt.parseAuthHeader(HeaderGet(req, "Authorization"));
      if tokenString == "" then Some(InvalidAuth("invalid authorization header"))
      else
        match ParseToken(jwt, cfg, tokenString)
        case Err(_) => Some(InvalidAuth("invalid authorization token"))
        case Ok(token) =>
          if token.claims.MapClaims? then
            if !jwt.validateIssuedAt(token.claims) then Some(InvalidAuth("invalid authorization token"))
            else None
          else Some(InvalidAuth("invalid authorization token"))
  }

  /// A matching X-Password admits the request whatever its Authorization
  /// header holds, and whatever the JWT library would say.
  lemma PasswordIgnoresAuthorization(cfg: Config, jwt: Jwt, jwt': Jwt, req: Request, auth: string)
    requires HeaderGet(req, "X-Password") != "" && HeaderGet(req, "X-Password") == cfg.password
    ensures LoggedIn(cfg, jwt', req.(headers := req.headers["Authorization" := auth])) == None
  {
    assert HeaderGet(req.(headers := req.headers["Authorization" := auth]), "X-Password") == HeaderGet(req, "X-Password");
  }

  /// An empty (or absent) X-Password never passes the password branch, even
  /// when the configured password is empty: the outcome then does not
  /// depend on the configured password at all.
  lemma EmptyPasswordHeaderIgnoresPassword(cfg: Config, password': string, jwt: Jwt, req: Request)
    requires HeaderGet(req, "X-Password") == ""
    ensures LoggedIn(cfg, jwt, req) == LoggedIn(cfg.(password := password'), jwt, req)
  {
  }

  /// A token signed with anything but HMAC is refused, whatever its claims.
  lemma NonHmacTokenRefused(cfg: Config, jwt: Jwt, req: Request)
    requires HeaderGet(req, "X-Password") == "" || HeaderGet(req, "X-Password") != cfg.password
    requires var t := jwt.parseAuthHeader(HeaderGet(req, "Authorization"));
      t != "" && jwt.decode(t).Some? && !jwt.decode(t).value.signing.Hmac?
    ensures LoggedIn(cfg, jwt, req) == Some(InvalidAuth("invalid authorization token"))
  {
  }
}
