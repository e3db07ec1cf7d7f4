/** The bot's access gate: the per-user command limiter and the two
    decorators that wrap every command and callback handler. */
module Middleware {
  import opened Py
  import opened SlidingWindow
  import opened PyText
  import Config

  /** Per-user command limiter: `calls` maps a user id to the timestamps of
      that user's admitted commands. */
  class RateLimiter {
    const maxCalls: int
    const window: int
    var calls: map<int, seq<int>>

    /** No user holds more timestamps than the cap. */
    ghost predicate Valid()
      reads this
    {
      forall k :: k in calls ==> |calls[k]| <= Cap(maxCalls)
    }

    /** What `self.calls[user_id]` reads from the `defaultdict(list)`. */
    function History(userId: int): seq<int>
      reads this
    {
      if userId in calls then calls[userId] else []
    }

    constructor (maxCalls: int, windowSeconds: int)
      ensures Valid()
      ensures this.maxCalls == maxCalls && window == windowSeconds
      ensures calls == map[]
    {
      this.maxCalls := maxCalls;
      window := windowSeconds;
      calls := map[];
    }

    /** Prunes the user's history to the window, then admits and records
        `now` only while fewer than `maxCalls` calls remain. Only this
        user's entry changes. */
    method IsAllowed(userId: int, now: int) returns (allowed: bool)
      requires Valid()
      modifies this
      ensures Valid()
      ensures calls == old(calls)[userId := Step(old(History(userId)), now, window, maxCalls).history]
      ensures allowed == Step(old(History(userId)), now, window, maxCalls).admitted
      ensures allowed <==> |Recent(old(History(userId)), now - window)| < maxCalls
      ensures allowed ==> History(userId) == Recent(old(History(userId)), now - window) + [now]
      ensures !allowed ==> History(userId) == Recent(old(History(userId)), now - window)
      ensures window > 0 ==> forall t :: t in History(userId) ==> now - window < t
    {
      var kept := KeepRecent(History(userId), now - window);
      calls := calls[userId := kept];
      if |kept| < maxCalls {
        calls := calls[userId := kept + [now]];
        allowed := true;
      } else {
        allowed := false;
      }
    }

    /** Forgets every call of the user. */
    method Reset(userId: int)
      requires Valid()
      modifies this
      ensures Valid()
      ensures calls == old(calls)[userId := []]
      ensures History(userId) == []
    {
      calls := calls[userId := []];
    }
  }

  /** The parts of a Telegram update the gate looks at. */
  datatype User = User(id: int, username: Option<string>)
  datatype Message = Message(text: Option<string>)
  datatype CallbackQuery = CallbackQuery(data: string)
  datatype Update = Update(
    effectiveUser: Option<User>,
    message: Option<Message>,
    callbackQuery: Option<CallbackQuery>
  )

  /** An audit log line. */
  datatype LogEntry = Warning(text: string) | Info(text: string)

  /** How a command update leaves the gate: dropped silently, denied,
      throttled, or admitted (the wrapped handler runs). */
  datatype GateOutcome = Dropped | Denied | Throttled | Admitted

  const AccessDeniedReply := "\U{26D4} Access denied. You are not authorized to use this bot."
  const ThrottledReply := "\U{26A0}\U{FE0F} Too many commands. Please wait a moment."
  const CallbackDeniedAlert := "\U{26D4} Access denied"

  /** `f"{x}"` of an optional string. */
  function Show(s: Option<string>): string
  {
    if s.Some? then s.value else "None"
  }

  function UnauthorizedLog(u: User): LogEntry
  {
    Warning("Unauthorized access attempt from user " + IntToString(u.id) + " (@" + Show(u.username) + ")")
  }

  function ThrottledLog(u: User): LogEntry
  {
    Warning("Rate limit exceeded for user " + IntToString(u.id))
  }

  /** The logged command text: the message text, or "callback" without a message. */
  function CommandText(update: Update): string
  {
    if update.message.Some? then Show(update.message.value.text) else "callback"
  }

  function CommandLog(u: User, update: Update): LogEntry
  {
    Info("Command from " + IntToString(u.id) + " (@" + Show(u.username) + "): " + CommandText(update))
  }

  /** `await update.message.reply_text(text)`: the reply is sent when the
      update carries a message; on an update without one (a callback query,
      an edited message) `update.message` is `None` and the attribute access
      raises `AttributeError`, which escapes the decorator. */
  function ReplyTo(update: Update, text: string): (r: Checked<Option<string>>)
    ensures r.Returns? <==> update.message.Some?
    ensures r.Returns? ==> r.value == Some(text)
  {
    if update.message.Some? then Returns(Some(text)) else Raises("AttributeError")
  }

  /** The `authorized_only` decorator: an update without a user is dropped;
      a user other than the configured one is denied without consulting the
      limiter; the configured user is throttled when the limiter refuses and
      otherwise admitted. `reply` is what the decorator itself answers, or
      the exception that answering raises. */
  method AuthorizedOnly(settings: Config.Settings, update: Update, limiter: RateLimiter, now: int)
    returns (outcome: GateOutcome, reply: Checked<Option<string>>, log: seq<LogEntry>)
    requires limiter.Valid()
    modifies limiter
    ensures limiter.Valid()
    ensures update.effectiveUser.None? ==>
      && outcome == Dropped && reply == Returns(None)
      && log == [Warning("Received update without user")]
      && unchanged(limiter)
    ensures update.effectiveUser.Some? && update.effectiveUser.value.id != settings.telegramUserId ==>
      && outcome == Denied && reply == ReplyTo(update, AccessDeniedReply)
      && log == [UnauthorizedLog(update.effectiveUser.value)]
      && unchanged(limiter)
    ensures update.effectiveUser.Some? && update.effectiveUser.value.id == settings.telegramUserId ==>
      var u := update.effectiveUser.value;
      var d := Step(old(limiter.History(u.id)), now, limiter.window, limiter.maxCalls);
      && limiter.calls == old(limiter.calls)[u.id := d.history]
      && (d.admitted ==> outcome == Admitted && reply == Returns(None) && log == [CommandLog(u, update)])
      && (!d.admitted ==> outcome == Throttled && reply == ReplyTo(update, ThrottledReply) && log == [ThrottledLog(u)])
    ensures outcome == Admitted <==>
      update.effectiveUser.Some? && update.effectiveUser.value.id == settings.telegramUserId
      && Step(old(limiter.History(update.effectiveUser.value.id)), now, limiter.window, limiter.maxCalls).admitted
    ensures reply.Raises? <==> (outcome == Denied || outcome == Throttled) && update.message.None?
  {
    if update.effectiveUser.None? {
      return Dropped, Returns(None), [Warning("Received update without user")];
    }
    var user := update.effectiveUser.value;
    if user.id != settings.telegramUserId {
      return Denied, ReplyTo(update, AccessDeniedReply), [UnauthorizedLog(user)];
    }
    var allowed := limiter.IsAllowed(user.id, now);
    if !allowed {
      return Throttled, ReplyTo(update, ThrottledReply), [ThrottledLog(user)];
    }
    return Admitted, Returns(None), [CommandLog(user, update)];
  }

  /** How a callback update leaves the `log_callback` gate. */
  datatype CallbackGate = Ignored | DeniedAlert(alert: string, log: LogEntry) | Forwarded(log: LogEntry)

  /** The `log_callback` decorator: it needs both a user and a callback
      query, forwards only the configured user, and has no rate limit. */
  function LogCallback(settings: Config.Settings, update: Update): (g: CallbackGate)
    ensures g.Ignored? <==> update.effectiveUser.None? || update.callbackQuery.None?
    ensures g.Forwarded? <==>
      && update.effectiveUser.Some? && update.callbackQuery.Some?
      && update.effectiveUser.value.id == settings.telegramUserId
    ensures g.DeniedAlert? ==> g.alert == CallbackDeniedAlert
  {
    if update.effectiveUser.None? || update.callbackQuery.None? then Ignored
    else
      var user, query := update.effectiveUser.value, update.callbackQuery.value;
      if user.id != settings.telegramUserId then
        DeniedAlert(CallbackDeniedAlert,
          Warning("Unauthorized callback from user " + IntToString(user.id) + " (@" + Show(user.username) + ")"))
      else
        Forwarded(Info("Callback from " + IntToString(user.id) + ": " + query.data))
  }
}
