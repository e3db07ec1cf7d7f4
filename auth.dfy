/** The dashboard's authentication layer: signed expiring session tokens,
    the credential check, the per-IP login limiter, the CSRF check, the
    login guard for protected routes and client-IP extraction. */
module Auth {
  import opened Py
  import opened PyText
  import opened SlidingWindow
  import Config

  /** A serialized session: a JSON object. */
  type Payload = map<string, Value>

  /** A session cookie value. The signer is abstract: `Signed(key, p)` is
      what signing `p` under the secret `key` yields, and any other text a
      client may send is `Forged(text)`. Signing is injective in both the key
      and the payload, and a `Signed` token under the server's key can only
      come from the server. */
  datatype Token = Signed(key: string, payload: Payload) | Forged(text: string)

  /** `_serializer.dumps(p)` */
  function Dumps(key: string, p: Payload): (t: Token)
    ensures Loads(key, t) == Some(p)
    ensures forall other :: other != key ==> Loads(other, t) == None
  {
    Signed(key, p)
  }

  /** `_serializer.loads(t)`, with `None` for `BadSignature`. */
  function Loads(key: string, t: Token): (r: Option<Payload>)
    ensures r.Some? <==> t.Signed? && t.key == key
    ensures r.Some? ==> t == Signed(key, r.value)
  {
    if t.Signed? && t.key == key then Some(t.payload) else None
  }

  /** The signer's law: what is signed under a key loads back under that key
      and under no other. */
  lemma SignerRoundTrip(key: string, other: string, p: Payload)
    ensures Loads(key, Dumps(key, p)) == Some(p)
    ensures other != key ==> Loads(other, Dumps(key, p)) == None
  {
  }

  /** `datetime.fromtimestamp(v)` on a decoded JSON value: numbers (and
      booleans, which Python treats as 0 and 1) convert; anything else raises
      a `TypeError` that the verifier does not catch. */
  function FromTimestamp(v: Value): (r: Checked<int>)
    ensures r.Returns? <==> v.Num? || v.Bool?
    ensures v.Num? ==> r == Returns(v.n)
  {
    match v
    case Num(n) => Returns(n)
    case Bool(b) => Returns(if b then 1 else 0)
    case _ => Raises("TypeError")
  }

  /** `create_session_token`: the user data and the issue time, signed. */
  function CreateSessionToken(key: string, userData: Value, now: int): (t: Token)
    ensures Loads(key, t) == Some(map["user" := userData, "created_at" := Num(now)])
    ensures forall other :: other != key ==> Loads(other, t) == None
  {
    Dumps(key, map["user" := userData, "created_at" := Num(now)])
  }

  /** `verify_session_token`: a bad signature, a missing `created_at` or
      `user` key, or an age beyond `timeout` gives `None`; an age equal to
      the timeout is still valid. */
  function VerifySessionToken(key: string, timeout: int, token: Token, now: int): (r: Checked<Option<Value>>)
    ensures Loads(key, token).None? ==> r == Returns(None)
    ensures r.Returns? && r.value.Some? ==>
      && token.Signed? && token.key == key
      && "user" in token.payload && token.payload["user"] == r.value.value
      && "created_at" in token.payload
      && FromTimestamp(token.payload["created_at"]).Returns?
      && now - FromTimestamp(token.payload["created_at"]).value <= timeout
    ensures r.Raises? ==>
      && token.Signed? && token.key == key && "created_at" in token.payload
      && FromTimestamp(token.payload["created_at"]).Raises?
  {
    match Loads(key, token)
    case None => Returns(None)
    case Some(data) =>
      if "created_at" !in data then Returns(None)
      else match FromTimestamp(data["created_at"])
        case Raises(e) => Raises(e)
        case Returns(createdAt) =>
          if now - createdAt > timeout then Returns(None)
          else if "user" !in data then Returns(None)
          else Returns(Some(data["user"]))
  }

  /** Session round trip: a token issued at `issuedAt` verifies to exactly
      the data it was issued for while at most `timeout` seconds old, and to
      nothing afterwards; under another key it never verifies. */
  lemma SessionRoundTrip(key: string, timeout: int, userData: Value, issuedAt: int, now: int, other: string)
    ensures VerifySessionToken(key, timeout, CreateSessionToken(key, userData, issuedAt), now)
      == Returns(if now - issuedAt <= timeout then Some(userData) else None)
    ensures other != key ==>
      VerifySessionToken(other, timeout, CreateSessionToken(key, userData, issuedAt), now) == Returns(None)
  {
  }

  /** The parts of an HTTP request the layer reads. */
  datatype Request = Request(
    forwardedFor: Option<string>,   // the X-Forwarded-For header
    peerHost: Option<string>,       // the host of the transport's peer name
    cookies: map<string, Token>,
    form: map<string, string>
  )

  /** `get_session`: no or an empty `session` cookie gives `None`; otherwise
      the cookie is verified. */
  function GetSession(settings: Config.Settings, req: Request, now: int): (r: Checked<Option<Value>>)
    ensures "session" !in req.cookies ==> r == Returns(None)
    ensures "session" in req.cookies && req.cookies["session"] == Forged("") ==> r == Returns(None)
    ensures "session" in req.cookies && req.cookies["session"] != Forged("") ==>
      r == VerifySessionToken(settings.dashboardSecretKey, settings.sessionTimeout, req.cookies["session"], now)
  {
    if "session" !in req.cookies || req.cookies["session"] == Forged("") then Returns(None)
    else VerifySessionToken(settings.dashboardSecretKey, settings.sessionTimeout, req.cookies["session"], now)
  }

  /** `secrets.compare_digest` on two `str`s: equality, or a `TypeError`
      when either holds a non-ASCII character. Its timing is not modelled. */
  function CompareDigest(a: string, b: string): (r: Checked<bool>)
    ensures IsAscii(a) && IsAscii(b) <==> r.Returns?
    ensures r.Returns? ==> (r.value <==> a == b)
  {
    if IsAscii(a) && IsAscii(b) then Returns(a == b) else Raises("TypeError")
  }

  /** `validate_credentials`: both comparisons are evaluated, the username's
      first, and the result is their conjunction. */
  function ValidateCredentials(settings: Config.Settings, username: string, password: string): (r: Checked<bool>)
    ensures r.Returns? <==>
      IsAscii(username) && IsAscii(settings.dashboardUsername)
      && IsAscii(password) && IsAscii(settings.dashboardPassword)
    ensures r.Returns? ==>
      (r.value <==> username == settings.dashboardUsername && password == settings.dashboardPassword)
  {
    var usernameMatch := CompareDigest(username, settings.dashboardUsername);
    var passwordMatch := CompareDigest(password, settings.dashboardPassword);
    match usernameMatch
    case Raises(e) => Raises(e)
    case Returns(u) =>
      match passwordMatch
      case Raises(e) => Raises(e)
      case Returns(p) => Returns(u && p)
  }

  /** A wrong username and a wrong password give the same answer. */
  lemma CredentialsIndistinguishable(settings: Config.Settings, wrongUser: string, wrongPassword: string)
    requires IsAscii(settings.dashboardUsername) && IsAscii(settings.dashboardPassword)
    requires IsAscii(wrongUser) && IsAscii(wrongPassword)
    requires wrongUser != settings.dashboardUsername && wrongPassword != settings.dashboardPassword
    ensures ValidateCredentials(settings, wrongUser, settings.dashboardPassword)
      == ValidateCredentials(settings, settings.dashboardUsername, wrongPassword)
      == Returns(false)
  {
  }

  /** Per-IP login limiter: `attempts` maps a client IP to the timestamps
      of its admitted login attempts; capped at `DASHBOARD_MAX_LOGIN_ATTEMPTS`
      per `DASHBOARD_LOGIN_WINDOW` seconds. */
  class LoginRateLimiter {
    var attempts: map<string, seq<int>>

    ghost predicate Valid()
      reads this
    {
      forall ip :: ip in attempts ==> |attempts[ip]| <= Config.DashboardMaxLoginAttempts
    }

    /** What `self.attempts[ip]` reads from the `defaultdict(list)`. */
    function History(ip: string): seq<int>
      reads this
    {
      if ip in attempts then attempts[ip] else []
    }

    constructor ()
      ensures Valid() && attempts == map[]
    {
      attempts := map[];
    }

    /** Prunes the IP's attempts to the window, then admits and records
        `now` only while fewer than the cap remain. Only this IP changes. */
    method IsAllowed(ip: string, now: int) returns (allowed: bool)
      requires Valid()
      modifies this
      ensures Valid()
      ensures attempts == old(attempts)[ip :=
        Step(old(History(ip)), now, Config.DashboardLoginWindow, Config.DashboardMaxLoginAttempts).history]
      ensures allowed == Step(old(History(ip)), now, Config.DashboardLoginWindow, Config.DashboardMaxLoginAttempts).admitted
      ensures allowed <==> |Recent(old(History(ip)), now - Config.DashboardLoginWindow)| < Config.DashboardMaxLoginAttempts
      ensures forall t :: t in History(ip) ==> now - Config.DashboardLoginWindow < t
    {
      var kept := KeepRecent(History(ip), now - Config.DashboardLoginWindow);
      attempts := attempts[ip := kept];
      if |kept| < Config.DashboardMaxLoginAttempts {
        attempts := attempts[ip := kept + [now]];
        allowed := true;
      } else {
        allowed := false;
      }
    }

    /** Forgets the IP's attempts (after a successful login). */
    method Reset(ip: string)
      requires Valid()
      modifies this
      ensures Valid()
      ensures attempts == old(attempts)[ip := []]
      ensures History(ip) == []
    {
      attempts := attempts[ip := []];
    }
  }

  /** Five attempts inside the last 900 seconds lock an IP out. */
  lemma LockedOutAfterFiveAttempts(ts: seq<int>, now: int)
    requires |ts| >= Config.DashboardMaxLoginAttempts
    requires forall i :: 0 <= i < |ts| ==> ts[i] > now - Config.DashboardLoginWindow
    ensures !Step(ts, now, Config.DashboardLoginWindow, Config.DashboardMaxLoginAttempts).admitted
  {
    FullWindowRejects(ts, now, Config.DashboardLoginWindow, Config.DashboardMaxLoginAttempts);
  }

  /** `verify_csrf_token`: fails closed without a truthy session or a truthy
      stored `csrf_token`; otherwise compares the supplied value with it. */
  function VerifyCsrfToken(settings: Config.Settings, req: Request, token: string, now: int): (r: Checked<bool>)
    ensures GetSession(settings, req, now) == Returns(None) ==> r == Returns(false)
    ensures GetSession(settings, req, now).Raises? ==> r == Raises(GetSession(settings, req, now).error)
    ensures GetSession(settings, req, now).Returns? && !TruthyOpt(GetSession(settings, req, now).value) ==>
      r == Returns(false)
    ensures var session := GetSession(settings, req, now);
      (session.Returns? && TruthyOpt(session.value) && !session.value.value.Obj?) ==> r == Raises("AttributeError")
    ensures var session := GetSession(settings, req, now);
      (session.Returns? && TruthyOpt(session.value) && session.value.value.Obj?
       && !TruthyOpt(Get(session.value.value.fields, "csrf_token"))) ==> r == Returns(false)
  {
    match GetSession(settings, req, now)
    case Raises(e) => Raises(e)
    case Returns(session) =>
      if !TruthyOpt(session) then Returns(false)
      else match session.value
        case Obj(fields) =>
          var expected := Get(fields, "csrf_token");
          if !TruthyOpt(expected) then Returns(false)
          else (match expected.value
            case Str(s) => CompareDigest(token, s)
            case _ => Raises("TypeError"))
        case _ => Raises("AttributeError")
  }

  /** The CSRF check accepts exactly the non-empty token stored in a valid
      session. */
  lemma CsrfAcceptsOnlyStoredToken(settings: Config.Settings, req: Request, token: string, now: int)
    ensures VerifyCsrfToken(settings, req, token, now) == Returns(true) <==>
      && GetSession(settings, req, now).Returns?
      && GetSession(settings, req, now).value.Some?
      && GetSession(settings, req, now).value.value.Obj?
      && Get(GetSession(settings, req, now).value.value.fields, "csrf_token") == Some(Str(token))
      && token != "" && IsAscii(token)
  {
  }

  /** A valid session without a `csrf_token` claim never passes the check. */
  lemma CsrfWithoutClaimFails(settings: Config.Settings, req: Request, token: string, now: int, fields: map<string, Value>)
    requires GetSession(settings, req, now) == Returns(Some(Obj(fields)))
    requires "csrf_token" !in fields
    ensures VerifyCsrfToken(settings, req, token, now) == Returns(false)
  {
  }

  /** What `login_required` does with a request. */
  datatype Guarded = RedirectTo(location: string) | RunHandler(session: Value)

  /** `login_required`: without a truthy session the handler does not run
      and the client is sent to "/"; otherwise it runs with the session. */
  function LoginRequired(settings: Config.Settings, req: Request, now: int): (r: Checked<Guarded>)
    ensures r.Returns? <==> GetSession(settings, req, now).Returns?
    ensures r.Returns? ==>
      (r.value.RunHandler? <==> TruthyOpt(GetSession(settings, req, now).value))
    ensures r.Returns? && r.value.RunHandler? ==> GetSession(settings, req, now).value == Some(r.value.session)
    ensures r.Returns? && r.value.RedirectTo? ==> r.value.location == "/"
  {
    match GetSession(settings, req, now)
    case Raises(e) => Raises(e)
    case Returns(session) =>
      if !TruthyOpt(session) then Returns(RedirectTo("/"))
      else Returns(RunHandler(session.value))
  }

  /** `get_client_ip`: the first comma-separated entry of a non-empty
      X-Forwarded-For header, stripped; else the peer host; else "unknown". */
  function GetClientIp(req: Request): (ip: string)
    ensures req.forwardedFor.Some? && req.forwardedFor.value != "" ==>
      ip == Strip(BeforeFirst(req.forwardedFor.value, ','))
    ensures (req.forwardedFor.None? || req.forwardedFor.value == "") && req.peerHost.Some? ==>
      ip == req.peerHost.value
    ensures (req.forwardedFor.None? || req.forwardedFor.value == "") && req.peerHost.None? ==>
      ip == "unknown"
  {
    if req.forwardedFor.Some? && req.forwardedFor.value != "" then
      Strip(BeforeFirst(req.forwardedFor.value, ','))
    else if req.peerHost.Some? then req.peerHost.value
    else "unknown"
  }

  /** A forwarded IP never contains a comma and never starts or ends with
      white space. */
  lemma ForwardedIpShape(req: Request)
    requires req.forwardedFor.Some? && req.forwardedFor.value != ""
    ensures ',' !in GetClientIp(req)
    ensures GetClientIp(req) != [] ==>
      !IsSpace(GetClientIp(req)[0]) && !IsSpace(GetClientIp(req)[|GetClientIp(req)| - 1])
  {
    StripWithin(BeforeFirst(req.forwardedFor.value, ','));
  }
}
