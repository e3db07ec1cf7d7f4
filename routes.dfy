/** The dashboard's routes: the login page, the login submission that
    composes the IP limiter, the credential check and session issue, logout,
    and the log endpoint's parser for loguru lines. */
module Routes {
  import opened Py
  import opened PyText
  import opened SlidingWindow
  import opened Auth
  import Config

  /** What a route answers: a redirect (possibly setting or clearing the
      session cookie), a rendered template with its error text, JSON, or an
      uncaught exception (a server error). */
  datatype Response =
    | Redirect(location: string, setSession: Option<Token>, clearSession: bool)
    | Render(template: string, error: Option<string>)
    | ServerError(exception: string)

  const LoginTemplate := "login.html"
  const TooManyAttemptsText := "Too many login attempts. Please try again in 15 minutes."
  const InvalidCredentialsText := "Invalid username or password"

  /** `data.get(key, "")` on the submitted form. */
  function FormField(form: map<string, string>, key: string): string
  {
    if key in form then form[key] else ""
  }

  /** `login_page`: a visitor with a valid session goes to the dashboard,
      anyone else sees the login form with no error. */
  function LoginPage(settings: Config.Settings, req: Request, now: int): (r: Response)
    ensures r.Redirect? <==> GetSession(settings, req, now).Returns? && TruthyOpt(GetSession(settings, req, now).value)
    ensures r.Redirect? ==> r == Redirect("/dashboard", None, false)
    ensures r.Render? ==> r == Render(LoginTemplate, None)
    ensures GetSession(settings, req, now).Returns? && !TruthyOpt(GetSession(settings, req, now).value) ==>
      r == Render(LoginTemplate, None)
    ensures r.ServerError? <==> GetSession(settings, req, now).Raises?
  {
    match GetSession(settings, req, now)
    case Raises(e) => ServerError(e)
    case Returns(session) =>
      if TruthyOpt(session) then Redirect("/dashboard", None, false) else Render(LoginTemplate, None)
  }

  /** The session data a successful login signs. */
  function LoginUserData(username: string): Value
  {
    Obj(map["username" := Str(username)])
  }

  /** The stripped username of a login submission. */
  function SubmittedUsername(req: Request): string
  {
    Strip(FormField(req.form, "username"))
  }

  /** The IP limiter's decision for an IP with attempt history `h`. */
  function LoginGate(h: seq<int>, now: int): Decision
  {
    Step(h, now, Config.DashboardLoginWindow, Config.DashboardMaxLoginAttempts)
  }

  /** What `login_handler` answers for a submitted username and password,
      given whether the IP limiter admitted the attempt. */
  function LoginResponse(settings: Config.Settings, username: string, password: string, admitted: bool, now: int): (r: Response)
    ensures !admitted ==> r == Render(LoginTemplate, Some(TooManyAttemptsText))
    ensures r.Redirect? ==> admitted && r.location == "/dashboard" && r.setSession.Some? && !r.clearSession
    ensures admitted && ValidateCredentials(settings, username, password) == Returns(false) ==>
      r == Render(LoginTemplate, Some(InvalidCredentialsText))
    ensures admitted && ValidateCredentials(settings, username, password).Raises? ==>
      r == ServerError(ValidateCredentials(settings, username, password).error)
  {
    if !admitted then Render(LoginTemplate, Some(TooManyAttemptsText))
    else match ValidateCredentials(settings, username, password)
      case Raises(e) => ServerError(e)
      case Returns(ok) =>
        if ok then Redirect("/dashboard", Some(CreateSessionToken(settings.dashboardSecretKey, LoginUserData(username), now)), false)
        else Render(LoginTemplate, Some(InvalidCredentialsText))
  }

  /** `login_handler`. The IP limiter is consulted first; the response is
      `LoginResponse` of its decision for the stripped username and the
      unstripped password, and the IP's attempts are what the limiter
      recorded, or emptied after a successful login. */
  method LoginHandler(settings: Config.Settings, req: Request, limiter: LoginRateLimiter, now: int)
    returns (resp: Response)
    requires limiter.Valid()
    modifies limiter
    ensures limiter.Valid()
    ensures resp == LoginResponse(settings, SubmittedUsername(req), FormField(req.form, "password"),
      LoginGate(old(limiter.History(GetClientIp(req))), now).admitted, now)
    ensures limiter.attempts == old(limiter.attempts)[GetClientIp(req) :=
      if resp.Redirect? then [] else LoginGate(old(limiter.History(GetClientIp(req))), now).history]
  {
    var clientIp := GetClientIp(req);
    var allowed := limiter.IsAllowed(clientIp, now);
    if !allowed {
      return Render(LoginTemplate, Some(TooManyAttemptsText));
    }
    var username := SubmittedUsername(req);
    var password := FormField(req.form, "password");
    match ValidateCredentials(settings, username, password)
    case Raises(e) =>
      resp := ServerError(e);
    case Returns(ok) =>
      if ok {
        limiter.Reset(clientIp);
        var token := CreateSessionToken(settings.dashboardSecretKey, LoginUserData(username), now);
        resp := Redirect("/dashboard", Some(token), false);
      } else {
        resp := Render(LoginTemplate, Some(InvalidCredentialsText));
      }
  }

  /** Only an admitted attempt with the configured username and password
      logs in, and then it sets a session for that username. */
  lemma LoginSucceedsExactly(settings: Config.Settings, username: string, password: string, admitted: bool, now: int)
    requires IsAscii(settings.dashboardUsername) && IsAscii(settings.dashboardPassword)
    requires IsAscii(username) && IsAscii(password)
    ensures LoginResponse(settings, username, password, admitted, now).Redirect? <==>
      admitted && username == settings.dashboardUsername && password == settings.dashboardPassword
    ensures LoginResponse(settings, username, password, admitted, now).Redirect? ==>
      LoginResponse(settings, username, password, admitted, now).setSession
        == Some(CreateSessionToken(settings.dashboardSecretKey, LoginUserData(settings.dashboardUsername), now))
  {
    var check := ValidateCredentials(settings, username, password);
    assert check.Returns?;
  }

  /** A wrong username, a wrong password, or both, get the same answer. */
  lemma FailedLoginsLookAlike(settings: Config.Settings, wrongUser: string, wrongPassword: string, now: int)
    requires IsAscii(settings.dashboardUsername) && IsAscii(settings.dashboardPassword)
    requires IsAscii(wrongUser) && IsAscii(wrongPassword)
    requires wrongUser != settings.dashboardUsername && wrongPassword != settings.dashboardPassword
    ensures LoginResponse(settings, wrongUser, settings.dashboardPassword, true, now)
      == LoginResponse(settings, settings.dashboardUsername, wrongPassword, true, now)
      == LoginResponse(settings, wrongUser, wrongPassword, true, now)
      == Render(LoginTemplate, Some(InvalidCredentialsText))
  {
    CredentialsIndistinguishable(settings, wrongUser, wrongPassword);
  }

  /** `logout_handler`: back to "/" with the session cookie deleted. */
  function LogoutHandler(req: Request): (r: Response)
    ensures r.Redirect? && r.location == "/" && r.clearSession && r.setSession.None?
  {
    Redirect("/", None, true)
  }

  /** The request a browser sends back with the cookie a login set. */
  function WithSession(req: Request, token: Token): Request
  {
    req.(cookies := req.cookies["session" := token])
  }

  /** A session issued by a login lets its holder through `login_required`
      for exactly `sessionTimeout` seconds, carrying the username. */
  lemma LoginSessionGuards(settings: Config.Settings, req: Request, username: string, issuedAt: int, now: int)
    ensures
      var token := CreateSessionToken(settings.dashboardSecretKey, LoginUserData(username), issuedAt);
      LoginRequired(settings, WithSession(req, token), now)
        == Returns(if now - issuedAt <= settings.sessionTimeout
                   then RunHandler(LoginUserData(username)) else RedirectTo("/"))
  {
    var token := CreateSessionToken(settings.dashboardSecretKey, LoginUserData(username), issuedAt);
    assert WithSession(req, token).cookies["session"] == token;
    SessionRoundTrip(settings.dashboardSecretKey, settings.sessionTimeout, LoginUserData(username), issuedAt, now, "");
    assert "username" in LoginUserData(username).fields;
  }

  /** Sessions issued by the login handler carry no `csrf_token` claim, so
      the CSRF check can never succeed for them, whatever is supplied. */
  lemma LoginSessionNeverPassesCsrf(settings: Config.Settings, req: Request, username: string,
                                    issuedAt: int, now: int, supplied: string)
    ensures
      var token := CreateSessionToken(settings.dashboardSecretKey, LoginUserData(username), issuedAt);
      VerifyCsrfToken(settings, WithSession(req, token), supplied, now) == Returns(false)
  {
    var token := CreateSessionToken(settings.dashboardSecretKey, LoginUserData(username), issuedAt);
    assert WithSession(req, token).cookies["session"] == token;
    SessionRoundTrip(settings.dashboardSecretKey, settings.sessionTimeout, LoginUserData(username), issuedAt, now, "");
    assert "csrf_token" !in LoginUserData(username).fields;
  }

  // ---------------------------------------------------------------------
  // The log endpoint
  // ---------------------------------------------------------------------

  /** One entry of the log endpoint's JSON. */
  datatype LogRecord = LogRecord(time: string, level: string, message: string)

  /** The log file as the endpoint finds it. */
  datatype LogFile = Missing | Unreadable | Lines(lines: seq<string>)

  const MaxLogLines := 20
  const MaxMessageLength := 200

  /** `\w` on ASCII text. */
  predicate IsWordChar(c: char)
  {
    ('a' <= c <= 'z') || ('A' <= c <= 'Z') || ('0' <= c <= '9') || c == '_'
  }

  /** `\d{4}-\d{2}-\d{2} \d{2}:\d{2}:\d{2}` on exactly 19 characters. */
  predicate IsTimestamp(t: string)
  {
    && |t| == 19
    && IsDigit(t[0]) && IsDigit(t[1]) && IsDigit(t[2]) && IsDigit(t[3]) && t[4] == '-'
    && IsDigit(t[5]) && IsDigit(t[6]) && t[7] == '-'
    && IsDigit(t[8]) && IsDigit(t[9]) && t[10] == ' '
    && IsDigit(t[11]) && IsDigit(t[12]) && t[13] == ':'
    && IsDigit(t[14]) && IsDigit(t[15]) && t[16] == ':'
    && IsDigit(t[17]) && IsDigit(t[18])
  }

  /** The three character classes of the log pattern: `\d`, `\w` and `\s`. */
  datatype CharClass = Digit | Word | Space

  predicate InClass(c: char, cls: CharClass)
  {
    match cls
    case Digit => IsDigit(c)
    case Word => IsWordChar(c)
    case Space => IsSpace(c)
  }

  /** The length of the longest run of characters of class `cls` that starts at `i`. */
  function Span(s: string, i: nat, cls: CharClass): (n: nat)
    requires i <= |s|
    ensures i + n <= |s|
    ensures forall k :: i <= k < i + n ==> InClass(s[k], cls)
    ensures i + n < |s| ==> !InClass(s[i + n], cls)
    decreases |s| - i
  {
    if i < |s| && InClass(s[i], cls) then 1 + Span(s, i + 1, cls) else 0
  }

  /** A run of `n` characters of class `cls` that is ended by the text's end
      or by a character outside the class is the whole span. */
  lemma {:induction false} SpanExact(s: string, i: nat, cls: CharClass, n: nat)
    requires i + n <= |s|
    requires forall k :: i <= k < i + n ==> InClass(s[k], cls)
    requires i + n < |s| ==> !InClass(s[i + n], cls)
    ensures Span(s, i, cls) == n
    decreases n
  {
    if n > 0 {
      SpanExact(s, i + 1, cls, n - 1);
    }
  }

  /** Where the optional `(?:\.\d+)?` after the 19-character time ends. */
  function FractionEnd(line: string): (i: nat)
    requires 19 <= |line|
    ensures 19 <= i <= |line|
  {
    var digits := if 19 < |line| && line[19] == '.' then Span(line, 20, Digit) else 0;
    if digits > 0 then 20 + digits else 19
  }

  /** `(\w+)\s+\| ` matched at `q`: where the level group ends and where
      the text after the column starts. */
  function LevelColumn(line: string, q: nat): (r: Option<(nat, nat)>)
    requires q <= |line|
    ensures r.Some? ==> q < r.value.0 < r.value.1 <= |line|
    ensures r.Some? ==> forall k :: q <= k < r.value.0 ==> IsWordChar(line[k])
  {
    var w := Span(line, q, Word);
    var ws := Span(line, q + w, Space);
    var p := q + w + ws;
    if w == 0 || ws == 0 || !(p + 2 <= |line| && line[p..p + 2] == "| ") then None
    else Some((q + w, p + 2))
  }

  /** The groups (time, level, remainder) of
      `(\d{4}-\d{2}-\d{2} \d{2}:\d{2}:\d{2})(?:\.\d+)? \| (\w+)\s+\| (.+)`
      matched at the start of `line`. The character classes leave no choice
      to backtracking, so each part is its longest run. */
  function MatchLine(line: string): (r: Option<(string, string, string)>)
    ensures r.Some? ==> IsTimestamp(r.value.0) && r.value.2 != [] && '\n' !in r.value.2
    ensures r.Some? ==> 19 <= |line| && r.value.0 == line[..19]
    ensures r.Some? ==> r.value.1 != [] && forall k :: 0 <= k < |r.value.1| ==> IsWordChar(r.value.1[k])
  {
    if |line| < 19 || !IsTimestamp(line[..19]) then None
    else
      var i := FractionEnd(line);
      if !(i + 3 <= |line| && line[i..i + 3] == " | ") then None
      else match LevelColumn(line, i + 3)
        case None => None
        case Some((e, r)) =>
          var rest := BeforeFirst(line[r..], '\n');
          if rest == [] then None else Some((line[..19], line[i + 3..e], rest))
  }

  /** `message[:200]` */
  function Truncate(s: string, n: nat): (r: string)
    ensures |r| <= n && r <= s
    ensures |s| <= n ==> r == s
    ensures |s| > n ==> |r| == n
  {
    if |s| <= n then s else s[..n]
  }

  /** `rest.split(' | ', 1)`, second part if there is one, else `rest`:
      the text after the first " | ", or all of it. */
  function MessageOf(rest: string): (m: string)
    ensures Find(rest, " | ").None? ==> m == rest
    ensures Find(rest, " | ").Some? ==> m == rest[Find(rest, " | ").value + 3..]
  {
    var parts := SplitOnce(rest, " | ");
    if |parts| > 1 then parts[1] else rest
  }

  /** One line of the loop in `api_logs`: stripped, skipped when blank or
      not in loguru's shape; otherwise its time, its stripped level and the
      message of the remainder, truncated to 200 characters. */
  function ParseLogLine(raw: string): (r: Option<LogRecord>)
    ensures r.Some? <==> Strip(raw) != [] && MatchLine(Strip(raw)).Some?
    ensures r.Some? ==> |r.value.message| <= MaxMessageLength && IsTimestamp(r.value.time)
    ensures r.Some? ==> r.value.message == Truncate(MessageOf(MatchLine(Strip(raw)).value.2), MaxMessageLength)
  {
    var line := Strip(raw);
    if line == [] then None
    else match MatchLine(line)
      case None => None
      case Some((time, level, rest)) => Some(LogRecord(time, Strip(level), Truncate(MessageOf(rest), MaxMessageLength)))
  }

  /** A record's time and level are the match's first two groups; the
      level group needs no stripping, having no white space. */
  lemma ParseLogLineGroups(raw: string)
    requires ParseLogLine(raw).Some?
    ensures ParseLogLine(raw).value.time == Strip(raw)[..19]
    ensures ParseLogLine(raw).value.level == MatchLine(Strip(raw)).value.1
  {
    var line := Strip(raw);
    var level := MatchLine(line).value.1;
    assert !IsSpace(level[0]) && !IsSpace(level[|level| - 1]);
  }

  /** The values `f` keeps from `xs`, in order. */
  function FilterMap<A, B>(xs: seq<A>, f: A -> Option<B>): (r: seq<B>)
    ensures |r| <= |xs|
  {
    if xs == [] then []
    else
      var init := FilterMap(xs[..|xs| - 1], f);
      match f(xs[|xs| - 1])
      case Some(y) => init + [y]
      case None => init
  }

  /** When `f` keeps everything, `FilterMap` maps element by element. */
  lemma {:induction false} FilterMapTotal<A, B>(xs: seq<A>, f: A -> Option<B>)
    requires forall j :: 0 <= j < |xs| ==> f(xs[j]).Some?
    ensures |FilterMap(xs, f)| == |xs|
    ensures forall k :: 0 <= k < |xs| ==> FilterMap(xs, f)[k] == f(xs[k]).value
  {
    if xs != [] {
      var init := xs[..|xs| - 1];
      assert forall j :: 0 <= j < |init| ==> init[j] == xs[j];
      FilterMapTotal(init, f);
    }
  }

  /** Every value `FilterMap` keeps was kept from some element, so a property
      of all kept values carries over. */
  lemma {:induction false} FilterMapKeeps<A, B>(xs: seq<A>, f: A -> Option<B>, p: B -> bool)
    requires forall j :: 0 <= j < |xs| && f(xs[j]).Some? ==> p(f(xs[j]).value)
    ensures forall k :: 0 <= k < |FilterMap(xs, f)| ==> p(FilterMap(xs, f)[k])
  {
    if xs != [] {
      var init := xs[..|xs| - 1];
      assert forall j :: 0 <= j < |init| ==> init[j] == xs[j];
      FilterMapKeeps(init, f, p);
    }
  }

  /** Each value `FilterMap` keeps comes from an element of `xs`. */
  lemma {:induction false} FilterMapFrom<A, B>(xs: seq<A>, f: A -> Option<B>, k: nat) returns (j: nat)
    requires k < |FilterMap(xs, f)|
    ensures j < |xs| && f(xs[j]) == Some(FilterMap(xs, f)[k])
  {
    var init := xs[..|xs| - 1];
    assert forall i :: 0 <= i < |init| ==> init[i] == xs[i];
    if f(xs[|xs| - 1]).Some? && k == |FilterMap(init, f)| {
      j := |xs| - 1;
    } else {
      j := FilterMapFrom(init, f, k);
    }
  }

  /** The positions of the elements `f` keeps, in increasing order: the
      `k`-th value of `FilterMap` is the image of element `Kept(xs, f)[k]`,
      and every element `f` keeps has its position listed. */
  function Kept<A, B>(xs: seq<A>, f: A -> Option<B>): (r: seq<nat>)
    ensures |r| == |FilterMap(xs, f)|
    ensures forall k :: 0 <= k < |r| ==> r[k] < |xs| && f(xs[r[k]]) == Some(FilterMap(xs, f)[k])
    ensures forall k1, k2 :: 0 <= k1 < k2 < |r| ==> r[k1] < r[k2]
    ensures forall j :: 0 <= j < |xs| && f(xs[j]).Some? ==> j in r
  {
    if xs == [] then []
    else
      var init := xs[..|xs| - 1];
      var before := Kept(init, f);
      assert forall j :: 0 <= j < |init| ==> init[j] == xs[j];
      if f(xs[|xs| - 1]).Some? then before + [|xs| - 1] else before
  }

  /** The records the loop appends, in file order. */
  function Records(lines: seq<string>): (r: seq<LogRecord>)
    ensures |r| <= |lines|
    ensures forall k :: 0 <= k < |r| ==> |r[k].message| <= MaxMessageLength
  {
    FilterMapKeeps(lines, ParseLogLine, (rec: LogRecord) => |rec.message| <= MaxMessageLength);
    FilterMap(lines, ParseLogLine)
  }

  /** `lines[-n:] if len(lines) > n else lines` */
  function LastLines(lines: seq<string>, n: nat): (r: seq<string>)
    ensures |r| <= n && |r| <= |lines|
    ensures r == lines[|lines| - |r|..]
    ensures |lines| <= n ==> r == lines
    ensures |r| == if |lines| > n then n else |lines|
  {
    if |lines| > n then lines[|lines| - n..] else lines
  }

  function Reversed<T>(s: seq<T>): seq<T>
  {
    if s == [] then [] else Reversed(s[1..]) + [s[0]]
  }

  lemma {:induction false} ReversedAt<T>(s: seq<T>, k: nat)
    requires k < |s|
    ensures |Reversed(s)| == |s| && Reversed(s)[k] == s[|s| - 1 - k]
  {
    ReversedLength(s);
    if k < |s| - 1 {
      ReversedAt(s[1..], k);
    }
  }

  lemma {:induction false} ReversedLength<T>(s: seq<T>)
    ensures |Reversed(s)| == |s|
  {
    if s != [] {
      ReversedLength(s[1..]);
    }
  }

  /** `api_logs` (behind `login_required`): no file or an unreadable one
      gives an empty list; otherwise the records parsed from the last 20
      lines, newest first. */
  method ApiLogs(file: LogFile) returns (logs: seq<LogRecord>)
    ensures !file.Lines? ==> logs == []
    ensures file.Lines? ==> logs == Reversed(Records(LastLines(file.lines, MaxLogLines)))
    ensures |logs| <= MaxLogLines
    ensures forall k :: 0 <= k < |logs| ==> |logs[k].message| <= MaxMessageLength
  {
    if !file.Lines? {
      return [];
    }
    var recent := LastLines(file.lines, MaxLogLines);
    var parsed: seq<LogRecord> := [];
    var i := 0;
    while i < |recent|
      invariant 0 <= i <= |recent|
      invariant parsed == FilterMap(recent[..i], ParseLogLine)
    {
      FilterMapStep(recent, i, ParseLogLine);
      var r := ParseLogLine(recent[i]);
      if r.Some? {
        parsed := parsed + [r.value];
      }
      i := i + 1;
    }
    assert recent[..|recent|] == recent;
    assert parsed == Records(recent);
    ReversedLength(parsed);
    logs := Reversed(parsed);
    forall k | 0 <= k < |logs| ensures |logs[k].message| <= MaxMessageLength {
      ReversedAt(parsed, k);
    }
  }

  /** `FilterMap` over one more element of `xs`. */
  lemma FilterMapStep<A, B>(xs: seq<A>, i: nat, f: A -> Option<B>)
    requires i < |xs|
    ensures FilterMap(xs[..i + 1], f) == FilterMap(xs[..i], f) + if f(xs[i]).Some? then [f(xs[i]).value] else []
  {
    assert xs[..i + 1][..i] == xs[..i];
  }

  /** Every value of the reversed `FilterMap` comes from an element of `xs`. */
  lemma ReversedFilterMapFrom<A, B>(xs: seq<A>, f: A -> Option<B>, k: nat) returns (i: nat)
    requires k < |Reversed(FilterMap(xs, f))|
    ensures i < |xs| && f(xs[i]) == Some(Reversed(FilterMap(xs, f))[k])
  {
    ReversedLength(FilterMap(xs, f));
    ReversedAt(FilterMap(xs, f), k);
    i := FilterMapFrom(xs, f, |FilterMap(xs, f)| - 1 - k);
  }

  /** Every entry the endpoint returns is the record of one of the file's
      last 20 lines. */
  lemma EntryFromRecentLine(lines: seq<string>, k: nat) returns (j: nat)
    requires k < |Reversed(Records(LastLines(lines, MaxLogLines)))|
    ensures |lines| - MaxLogLines <= j < |lines|
    ensures ParseLogLine(lines[j]) == Some(Reversed(Records(LastLines(lines, MaxLogLines)))[k])
  {
    var recent := LastLines(lines, MaxLogLines);
    var i := ReversedFilterMapFrom(recent, ParseLogLine, k);
    j := |lines| - |recent| + i;
    assert recent[i] == lines[j];
  }

  /** Reversing what a total `f` keeps puts the image of the `k`-th element
      from the end at position `k`. */
  lemma ReversedFilterMapAt<A, B>(xs: seq<A>, f: A -> Option<B>, k: nat)
    requires forall j :: 0 <= j < |xs| ==> f(xs[j]).Some?
    requires k < |xs|
    ensures |Reversed(FilterMap(xs, f))| == |xs|
    ensures Reversed(FilterMap(xs, f))[k] == f(xs[|xs| - 1 - k]).value
  {
    FilterMapTotal(xs, f);
    ReversedAt(FilterMap(xs, f), k);
  }

  /** The positions of `Kept(xs, f)`, last first, each moved up by `d`. */
  function Backwards(kept: seq<nat>, d: nat): (r: seq<nat>)
    ensures |r| == |kept|
    ensures forall k :: 0 <= k < |r| ==> r[k] == d + kept[|kept| - 1 - k]
  {
    seq(|kept|, k requires 0 <= k < |kept| => d + kept[|kept| - 1 - k])
  }

  /** Entry `k` of the reversed `FilterMap` of the last `m` elements is the
      image of element `Backwards(...)[k]` of the whole sequence. */
  lemma SuffixEntry<A, B>(xs: seq<A>, m: nat, f: A -> Option<B>, k: nat)
    requires m <= |xs|
    requires k < |Kept(xs[|xs| - m..], f)|
    ensures |Reversed(FilterMap(xs[|xs| - m..], f))| == |Kept(xs[|xs| - m..], f)|
    ensures var src := Backwards(Kept(xs[|xs| - m..], f), |xs| - m);
      |xs| - m <= src[k] < |xs| && f(xs[src[k]]) == Some(Reversed(FilterMap(xs[|xs| - m..], f))[k])
  {
    var suffix := xs[|xs| - m..];
    var kept := Kept(suffix, f);
    var i := kept[|kept| - 1 - k];
    ReversedAt(FilterMap(suffix, f), k);
    assert suffix[i] == xs[|xs| - m + i];
  }

  /** Every one of the last `m` elements that `f` keeps is listed in `Backwards(...)`. */
  lemma SuffixCovered<A, B>(xs: seq<A>, m: nat, f: A -> Option<B>, j: int)
    requires m <= |xs|
    requires |xs| - m <= j < |xs| && f(xs[j]).Some?
    ensures j in Backwards(Kept(xs[|xs| - m..], f), |xs| - m)
  {
    var suffix := xs[|xs| - m..];
    var kept := Kept(suffix, f);
    SuffixAt(xs, suffix, j - (|xs| - m));
    var i := KeptCovers(suffix, f, j - (|xs| - m));
    BackwardsAt(kept, |xs| - m, i);
  }

  /** Position `i` of `kept` is listed by `Backwards` at `|kept| - 1 - i`. */
  lemma BackwardsAt(kept: seq<nat>, d: nat, i: nat)
    requires i < |kept|
    ensures d + kept[i] in Backwards(kept, d)
  {
    assert Backwards(kept, d)[|kept| - 1 - i] == d + kept[i];
  }

  /** Where an element that `f` keeps sits in `Kept(xs, f)`. */
  lemma KeptCovers<A, B>(xs: seq<A>, f: A -> Option<B>, j: nat) returns (i: nat)
    requires j < |xs| && f(xs[j]).Some?
    ensures i < |Kept(xs, f)| && Kept(xs, f)[i] == j
  {
    var kept := Kept(xs, f);
    assert j in kept;
    i :| 0 <= i < |kept| && kept[i] == j;
  }

  /** The positions behind the reversed `FilterMap` of the last `m`
      elements, counted in the whole of `xs`: strictly decreasing, each the
      source of its entry, and covering every element `f` keeps there. */
  lemma SuffixReversedKept<A, B>(xs: seq<A>, m: nat, f: A -> Option<B>) returns (src: seq<nat>)
    requires m <= |xs|
    ensures |src| == |Reversed(FilterMap(xs[|xs| - m..], f))|
    ensures forall k :: 0 <= k < |src| ==>
      |xs| - m <= src[k] < |xs| && f(xs[src[k]]) == Some(Reversed(FilterMap(xs[|xs| - m..], f))[k])
    ensures forall k1, k2 :: 0 <= k1 < k2 < |src| ==> src[k1] > src[k2]
    ensures forall j :: |xs| - m <= j < |xs| && f(xs[j]).Some? ==> j in src
  {
    var kept := Kept(xs[|xs| - m..], f);
    src := Backwards(kept, |xs| - m);
    ReversedLength(FilterMap(xs[|xs| - m..], f));
    forall k | 0 <= k < |src|
      ensures |xs| - m <= src[k] < |xs| && f(xs[src[k]]) == Some(Reversed(FilterMap(xs[|xs| - m..], f))[k])
    {
      SuffixEntry(xs, m, f, k);
    }
    forall j | |xs| - m <= j < |xs| && f(xs[j]).Some?
      ensures j in src
    {
      SuffixCovered(xs, m, f, j);
    }
  }

  /** Newest first: entry `k` of the answer is the record of line `src[k]`
      of the file; these lines are among the last 20, they run strictly
      backwards through the file, and every one of the last 20 lines that
      parses is among them. */
  lemma NewestFirst(lines: seq<string>) returns (src: seq<nat>)
    ensures |src| == |Reversed(Records(LastLines(lines, MaxLogLines)))|
    ensures forall k :: 0 <= k < |src| ==>
      |lines| - MaxLogLines <= src[k] < |lines|
      && ParseLogLine(lines[src[k]]) == Some(Reversed(Records(LastLines(lines, MaxLogLines)))[k])
    ensures forall k1, k2 :: 0 <= k1 < k2 < |src| ==> src[k1] > src[k2]
    ensures forall j :: |lines| - MaxLogLines <= j < |lines| && 0 <= j && ParseLogLine(lines[j]).Some? ==> j in src
  {
    var m := |LastLines(lines, MaxLogLines)|;
    assert LastLines(lines, MaxLogLines) == lines[|lines| - m..];
    src := SuffixReversedKept(lines, m, ParseLogLine);
  }

  /** When the last lines all parse, entry `k` of the answer is the record
      of the `k`-th line counted from the end of the file. */
  lemma AllParsedNewestFirst(lines: seq<string>, k: nat)
    requires forall j :: 0 <= j < |LastLines(lines, MaxLogLines)| ==> ParseLogLine(LastLines(lines, MaxLogLines)[j]).Some?
    requires k < |LastLines(lines, MaxLogLines)|
    ensures |Reversed(Records(LastLines(lines, MaxLogLines)))| == |LastLines(lines, MaxLogLines)|
    ensures Reversed(Records(LastLines(lines, MaxLogLines)))[k] == ParseLogLine(lines[|lines| - 1 - k]).value
  {
    SuffixAllKept(lines, LastLines(lines, MaxLogLines), ParseLogLine, k);
  }

  /** When `f` keeps every element of a suffix `ys` of `xs`, entry `k` of
      the reversed `FilterMap` is the image of the `k`-th element of `xs`
      from the end. */
  lemma SuffixAllKept<A, B>(xs: seq<A>, ys: seq<A>, f: A -> Option<B>, k: nat)
    requires |ys| <= |xs| && ys == xs[|xs| - |ys|..]
    requires forall j :: 0 <= j < |ys| ==> f(ys[j]).Some?
    requires k < |ys|
    ensures |Reversed(FilterMap(ys, f))| == |ys|
    ensures Reversed(FilterMap(ys, f))[k] == f(xs[|xs| - 1 - k]).value
  {
    ReversedFilterMapAt(ys, f, k);
    SuffixAt(xs, ys, |ys| - 1 - k);
  }

  /** An element of a suffix, as an element of the whole sequence. */
  lemma SuffixAt<T>(xs: seq<T>, ys: seq<T>, i: nat)
    requires |ys| <= |xs| && ys == xs[|xs| - |ys|..] && i < |ys|
    ensures ys[i] == xs[|xs| - |ys| + i]
  {
  }

  // ---------------------------------------------------------------------
  // What the file logger writes, and reading it back
  // ---------------------------------------------------------------------

  function Spaces(n: nat): (r: string)
    ensures |r| == n && forall k :: 0 <= k < n ==> r[k] == ' '
  {
    if n == 0 then [] else [' '] + Spaces(n - 1)
  }

  /** `{level: <8}`: the level name left-aligned in eight columns. */
  function PadLevel(level: string): (r: string)
    ensures |r| >= |level| && r[..|level|] == level
    ensures forall k :: |level| <= k < |r| ==> r[k] == ' '
  {
    if |level| < 8 then level + Spaces(8 - |level|) else level
  }

  /** A line of the file sink's format
      `{time:YYYY-MM-DD HH:mm:ss} | {level: <8} | {name}:{function}:{line} | {message}`,
      with an optional fraction of a second after the time. */
  function LogLine(time: string, fraction: string, level: string, location: string, message: string): string
  {
    time + FractionText(fraction) + " | " + LevelField(level, location + " | " + message)
  }

  /** The optional `.digits` after the time. */
  function FractionText(fraction: string): string
  {
    if fraction == [] then [] else ['.'] + fraction
  }

  /** The padded level, its separator and the remainder of the line. */
  function LevelField(level: string, rest: string): string
  {
    PadLevel(level) + " | " + rest
  }

  /** The location field holds no '|', so the message of the remainder
      is everything after the separator that follows it. */
  lemma SplitAfterLocation(location: string, message: string)
    requires '|' !in location
    ensures MessageOf(location + " | " + message) == message
  {
    var rest := location + " | " + message;
    var n := |location|;
    assert rest[n..n + 3] == " | ";
    assert OccursAt(rest, " | ", n);
    forall j | 0 <= j < n ensures !OccursAt(rest, " | ", j) {
      if j + 1 < n {
        assert rest[j + 1] == location[j + 1];
      } else {
        assert rest[j + 1] == ' ';
      }
    }
    assert Find(rest, " | ") == Some(n);
    assert rest[n + 3..] == message;
  }

  /** The optional fraction ends where the digits after a '.' stop. */
  lemma FractionEndOf(line: string, fraction: string)
    requires AllDigits(fraction) && 19 + |FractionText(fraction)| < |line|
    requires line[19..19 + |FractionText(fraction)|] == FractionText(fraction)
    requires line[19 + |FractionText(fraction)|] == ' '
    ensures FractionEnd(line) == 19 + |FractionText(fraction)|
  {
    if fraction != [] {
      assert line[19] == '.';
      forall k | 20 <= k < 20 + |fraction| ensures InClass(line[k], Digit) {
        assert line[k] == line[19..19 + |FractionText(fraction)|][k - 19];
      }
      SpanExact(line, 20, Digit, |fraction|);
    } else {
      assert line[19] == ' ';
    }
  }

  /** A run of word characters, then of spaces, then "| " is the level column. */
  lemma LevelColumnOf(line: string, q: nat, w: nat, ws: nat)
    requires w > 0 && ws > 0 && q + w + ws + 2 <= |line|
    requires forall k :: q <= k < q + w ==> IsWordChar(line[k])
    requires forall k :: q + w <= k < q + w + ws ==> IsSpace(line[k])
    requires line[q + w + ws..q + w + ws + 2] == "| "
    ensures LevelColumn(line, q) == Some((q + w, q + w + ws + 2))
  {
    assert !IsWordChar(line[q + w]);
    SpanExact(line, q, Word, w);
    assert line[q + w + ws] == '|';
    SpanExact(line, q + w, Space, ws);
  }

  /** The padded level column of a written line, from position `q` on:
      the level group ends at `e` and the remainder starts at `r`. */
  lemma ColumnOfLine(line: string, q: nat, level: string, rest: string) returns (e: nat, r: nat)
    requires level != [] && forall k :: 0 <= k < |level| ==> IsWordChar(level[k])
    requires q <= |line| && line[q..] == LevelField(level, rest)
    ensures e == q + |level| && r == q + |PadLevel(level)| + 3
    ensures LevelColumn(line, q) == Some((e, r))
    ensures line[q..e] == level
    ensures line[r..] == rest
  {
    var padded := PadLevel(level);
    var col := LevelField(level, rest);
    var ws := |padded| - |level| + 1;
    forall k | q <= k < q + |level| ensures IsWordChar(line[k]) {
      assert line[k] == col[k - q];
    }
    forall k | q + |level| <= k < q + |level| + ws ensures IsSpace(line[k]) {
      assert line[k] == col[k - q];
      if k < q + |padded| {
        assert col[k - q] == padded[k - q];
      }
    }
    var p := q + |level| + ws;
    assert line[p..p + 2] == col[|padded| + 1..|padded| + 3];
    LevelColumnOf(line, q, |level|, ws);
    e, r := q + |level|, p + 2;
    assert line[q..e] == col[..|level|];
    assert line[r..] == col[|padded| + 3..];
  }

  /** `MatchLine` succeeds once each of its parts does. */
  lemma MatchLineOf(line: string, i: nat, e: nat, r: nat)
    requires 19 <= |line| && IsTimestamp(line[..19])
    requires FractionEnd(line) == i && i + 3 <= |line| && line[i..i + 3] == " | "
    requires LevelColumn(line, i + 3) == Some((e, r))
    requires BeforeFirst(line[r..], '\n') != []
    ensures MatchLine(line) == Some((line[..19], line[i + 3..e], BeforeFirst(line[r..], '\n')))
  {
    assert !(|line| < 19 || !IsTimestamp(line[..19]));
  }

  /** A line cut into the writer's fields: time, fraction, separator, level column. */
  predicate LaidOut(line: string, time: string, fraction: string, level: string, rest: string)
  {
    var i := 19 + |FractionText(fraction)|;
    && |time| == 19
    && i + 3 <= |line|
    && line[..19] == time
    && line[19..i] == FractionText(fraction)
    && line[i..i + 3] == " | "
    && line[i + 3..] == LevelField(level, rest)
  }

  /** A written line is laid out in its fields. */
  lemma LogLineLaidOut(time: string, fraction: string, level: string, location: string, message: string)
    requires |time| == 19
    ensures LaidOut(LogLine(time, fraction, level, location, message), time, fraction, level, location + " | " + message)
  {
    FourSlices(time, FractionText(fraction), " | ", LevelField(level, location + " | " + message));
  }

  /** The four pieces of a concatenation, cut back out of it. */
  lemma FourSlices(a: string, b: string, c: string, d: string)
    ensures (a + b + c + d)[..|a|] == a
    ensures (a + b + c + d)[|a|..|a| + |b|] == b
    ensures (a + b + c + d)[|a| + |b|..|a| + |b| + |c|] == c
    ensures (a + b + c + d)[|a| + |b| + |c|..] == d
  {
    var s := a + b + c + d;
    assert s == a + (b + (c + d));
    assert s[|a|..] == b + (c + d);
  }

  /** The regular expression matches a laid-out line and its groups are the
      time, the unpadded level and the remainder after the level column. */
  lemma MatchLaidOut(line: string, time: string, fraction: string, level: string, rest: string)
    requires LaidOut(line, time, fraction, level, rest)
    requires IsTimestamp(time) && AllDigits(fraction)
    requires level != [] && forall k :: 0 <= k < |level| ==> IsWordChar(level[k])
    requires rest != [] && '\n' !in rest
    ensures MatchLine(line) == Some((time, level, rest))
  {
    var i := 19 + |FractionText(fraction)|;
    assert line[i] == line[i..i + 3][0];
    FractionEndOf(line, fraction);
    MatchLineOfColumn(line, i, time, level, rest);
  }

  /** `MatchLine` of a line whose level column, from `i + 3` on, is written
      as the file sink writes it. */
  lemma MatchLineOfColumn(line: string, i: nat, time: string, level: string, rest: string)
    requires 19 <= |line| && line[..19] == time && IsTimestamp(time)
    requires FractionEnd(line) == i && i + 3 <= |line| && line[i..i + 3] == " | "
    requires level != [] && forall k :: 0 <= k < |level| ==> IsWordChar(level[k])
    requires line[i + 3..] == LevelField(level, rest)
    requires rest != [] && '\n' !in rest
    ensures MatchLine(line) == Some((time, level, rest))
  {
    var e, r := ColumnOfLine(line, i + 3, level, rest);
    assert BeforeFirst(line[r..], '\n') == rest;
    MatchLineOf(line, i, e, r);
  }

  /** A written line has no white space at either end. */
  lemma LogLineStripped(time: string, fraction: string, level: string, location: string, message: string)
    requires IsTimestamp(time)
    requires message != [] && !IsSpace(message[|message| - 1])
    ensures Strip(LogLine(time, fraction, level, location, message)) == LogLine(time, fraction, level, location, message)
  {
    var line := LogLine(time, fraction, level, location, message);
    assert line[0] == time[0];
    assert line[|line| - 1] == message[|message| - 1];
  }

  /** A matched, already stripped line parses to its groups. */
  lemma ParseMatched(line: string, time: string, level: string, rest: string, message: string)
    requires line != [] && Strip(line) == line
    requires MatchLine(line) == Some((time, level, rest))
    requires Strip(level) == level && MessageOf(rest) == message
    ensures ParseLogLine(line) == Some(LogRecord(time, level, Truncate(message, MaxMessageLength)))
  {
  }

  /** A level name of word characters has no white space to strip. */
  lemma LevelStripped(level: string)
    requires level != [] && forall k :: 0 <= k < |level| ==> IsWordChar(level[k])
    ensures Strip(level) == level
  {
    assert IsWordChar(level[0]) && IsWordChar(level[|level| - 1]);
  }

  /** Reading back what the file logger wrote gives its time, its level and
      its message cut to 200 characters. */
  lemma LogLineRoundTrip(time: string, fraction: string, level: string, location: string, message: string)
    requires IsTimestamp(time) && AllDigits(fraction)
    requires level != [] && forall k :: 0 <= k < |level| ==> IsWordChar(level[k])
    requires '|' !in location && '\n' !in location && '\n' !in message
    requires message != [] && !IsSpace(message[|message| - 1])
    ensures ParseLogLine(LogLine(time, fraction, level, location, message))
      == Some(LogRecord(time, level, Truncate(message, MaxMessageLength)))
  {
    var line := LogLine(time, fraction, level, location, message);
    var rest := location + " | " + message;
    LogLineStripped(time, fraction, level, location, message);
    LogLineLaidOut(time, fraction, level, location, message);
    assert '\n' !in rest;
    MatchLaidOut(line, time, fraction, level, rest);
    SplitAfterLocation(location, message);
    LevelStripped(level);
    ParseMatched(line, time, level, rest, message);
  }
}
