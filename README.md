# REMO access control and status formatting, in Dafny

REMO controls a Windows laptop from a Telegram bot and a small web
dashboard. This project models the parts of it that decide who may act and
what they are told:

- the two sliding-window rate limiters: per Telegram user for bot commands,
  and per client IP for dashboard logins;
- the bot's authorization decorators, and the confirmation protocol of the
  power commands;
- the dashboard's session tokens, credential check, CSRF check, login guard,
  client-IP extraction and login flow;
- the log endpoint that parses the last lines of the loguru file and returns
  them newest first;
- the formatting of battery time left, uptime and the status message;
- the volume and brightness clamps with their level icons.

Time is an integer number of seconds passed in as `now`. The signer is an
abstract keyed, injective encoder. Every operating-system reading (psutil,
pycaw, screen_brightness_control) is a parameter. A Python exception that
escapes a function is the `Raises` case of `Py.Checked`.

State that the source mutates is modelled as classes:

- `Middleware.RateLimiter` and `Auth.LoginRateLimiter` hold their maps of
  timestamps and prune, append and reset them in place. Both are proved
  against the shared specification `SlidingWindow.Step`.
- `Audio.AudioControl` caches its endpoint interface on first use.
- `Routes.ApiLogs` and `Status.GetUptime` are methods with the source's
  loop and appends.

The rest is functions, with lemmas for the properties.

Files:

- `py.dfy`: Python values, `None` and truthiness.
- `pytext.dfy`: the `str` built-ins: `strip`, `split`, `find`, `replace`, `join`, `int()` and integer formatting.
- `config.dfy`: configuration constants.
- `sliding_window.dfy`: the shared limiter specification.
- `middleware.dfy` and `handlers.dfy`: the bot.
- `auth.dfy` and `routes.dfy`: the dashboard.
- `levels.dfy`, `status.dfy`, `audio.dfy` and `display.dfy`: the system helpers.

## Model

| member | source | states |
|---|---|---|
| SlidingWindow.Recent | bot/middleware.py:29-33 | the pruned list holds exactly the timestamps newer than the cutoff, each as many times as the original does, and nothing else |
| SlidingWindow.RecentAppend | bot/middleware.py:29-33 | pruning a concatenation gives the concatenation of the pruned pieces, so the kept timestamps stay in their original order |
| SlidingWindow.RecentSingle | bot/middleware.py:29-33 | a single timestamp is kept iff it is newer than the cutoff |
| SlidingWindow.KeepRecent | dashboard/auth.py:121 | the filtering loop computes exactly `Recent` |
| SlidingWindow.RecentOfFresh | bot/middleware.py:30-33 | pruning a list with nothing stale changes nothing |
| SlidingWindow.RecentDropsStale | bot/middleware.py:30-33 | a list with one stale entry gets strictly shorter |
| SlidingWindow.StepKeepsInvariant | bot/middleware.py:30-40 | a call keeps a history within the cap; every entry after it is newer than `now - window` and is either `now` or an old entry; the new history holds at most one copy of `now` beyond the old one |
| SlidingWindow.StepRejectedRecordsNothing | bot/middleware.py:36-40 | a rejected call leaves only the pruned history, which already holds at least `max_calls` entries |
| SlidingWindow.FullWindowRejects | bot/middleware.py:36-40 | with `max_calls` fresh entries the call is rejected and the history is unchanged |
| SlidingWindow.AdmittedAfterOldestExpires | bot/middleware.py:30-38 | once the oldest entry leaves the window, a capped history admits again |
| SlidingWindow.ResetThenAdmitted | bot/middleware.py:42-44 | after a reset the next call is admitted iff `max_calls > 0` |
| SlidingWindow.FreshStepAppends | bot/middleware.py:36-38 | below the cap with nothing stale, the call is admitted and exactly `now` is appended |
| SlidingWindow.BurstHistory | bot/middleware.py:24-40 | up to `max_calls` calls within one window are all recorded in order |
| SlidingWindow.BurstAdmitted | bot/middleware.py:36-38 | each of those calls is admitted |
| SlidingWindow.BurstThenRejected | bot/middleware.py:36-40 | the next call in the same window after `max_calls` calls is rejected |
| Middleware.RateLimiter.constructor | bot/middleware.py:19-22 | starts with no calls recorded and the given cap and window |
| Middleware.RateLimiter.IsAllowed | bot/middleware.py:24-40 | only the user's entry changes; it is admitted iff the pruned count is below the cap; on admission the new history is the pruned one plus `now`, else the pruned one; every stored timestamp is newer than `now - window`; the cap invariant holds |
| Middleware.RateLimiter.Reset | bot/middleware.py:42-44 | only the user's entry changes, and it becomes empty |
| Middleware.ReplyTo | bot/middleware.py:70-72 | `update.message.reply_text` replies iff the update has a message, and raises `AttributeError` otherwise |
| Middleware.AuthorizedOnly | bot/middleware.py:54-89 | no user: dropped, limiter untouched; wrong id: access-denied reply, limiter untouched; right id: the limiter step decides between the throttle reply and running the handler; the handler runs iff the id matches and the limiter admits; the reply raises iff the update is denied or throttled and has no message |
| Middleware.LogCallback | bot/middleware.py:92-115 | ignored iff the user or the query is missing; forwarded iff both are present and the id matches; otherwise the access-denied alert; the limiter is never consulted |
| Handlers.NeedsConfirmation | bot/handlers.py:20-22 | true iff the command is in the confirmation map with a true flag; false for unknown commands |
| Handlers.ConfirmedCommands | bot/handlers.py:20-22 | with the shipped map, exactly shutdown, restart and sleep ask first |
| Handlers.ConfirmationPrompt | bot/handlers.py:25-44 | exactly two buttons, `"confirm_" + command` and `"cancel"` |
| Handlers.PowerCommand | bot/handlers.py:99-140 | the action runs iff its command needs no confirmation; otherwise the prompt is sent and nothing runs |
| Handlers.OnlyLockRunsUnconfirmed | bot/handlers.py:99-140 | with the shipped map, only lock runs without a prompt |
| Handlers.ConfirmationCallback | bot/handlers.py:236-263 | `"cancel"` cancels, and only it does; a payload that is neither `"cancel"` nor `confirm_`-prefixed does nothing; a `confirm_` payload executes the action its text names once every `"confirm_"` is removed, and gives "Unknown action" iff that text names none; nothing else executes |
| Handlers.PromptRoundTrip | bot/handlers.py:33-34 | pressing a prompt's buttons executes that command's action, or cancels |
| Handlers.RemoveLeadingCopies | bot/handlers.py:250 | `replace` removes any number of leading copies of `confirm_` |
| Handlers.RepeatedPrefixExecutes | bot/handlers.py:249-252 | because every occurrence is removed, a payload with `confirm_` repeated any positive number of times before an action name executes that action (`confirm_confirm_lock` locks) |
| Handlers.LevelCommand | bot/handlers.py:176-215 | no arguments means a read; otherwise a set happens iff `int()` accepts the first argument, with that value |
| Handlers.LevelArgumentRoundTrip | bot/handlers.py:187-189 | a formatted integer argument sets exactly that level |
| Auth.Dumps | dashboard/auth.py:31 | what is signed under a key loads back under that key, and under no other |
| Auth.Loads | dashboard/auth.py:37 | a token loads iff it was signed under the key, and then to the payload it was signed with |
| Auth.FromTimestamp | dashboard/auth.py:40 | returns iff the value is a number or a boolean, a number converting to itself |
| Auth.CreateSessionToken | dashboard/auth.py:25-31 | the token loads under the key to exactly `{"user": user_data, "created_at": now}`, and under no other key |
| Auth.SignerRoundTrip | dashboard/auth.py:22 | loading what was dumped under the same key gives the payload back; under another key it fails |
| Auth.VerifySessionToken | dashboard/auth.py:34-46 | a bad signature gives none; a user comes back only from a token signed with the key that holds both `user` and a `created_at` no older than the timeout; an exception escapes only from a `created_at` that `fromtimestamp` rejects with an uncaught error |
| Auth.SessionRoundTrip | dashboard/auth.py:25-44 | a token made at `t` verifies at `now` to exactly the user data iff `now - t <= timeout`, else to none; under another key, to none |
| Auth.GetSession | dashboard/auth.py:62-67 | no cookie, or an empty (falsy) one, gives none without verifying; otherwise it is the token's verification |
| Auth.CompareDigest | dashboard/auth.py:97-100 | for ASCII strings it returns, and is true iff they are equal; otherwise it raises |
| Auth.ValidateCredentials | dashboard/auth.py:94-102 | returns iff all four strings are ASCII, and is then true iff both username and password match; both comparisons are evaluated |
| Auth.CredentialsIndistinguishable | dashboard/auth.py:94-102 | a wrong username and a wrong password are rejected alike |
| Auth.LoginRateLimiter.constructor | dashboard/auth.py:112-113 | starts with no attempts recorded |
| Auth.LoginRateLimiter.IsAllowed | dashboard/auth.py:115-128 | only the IP's entry changes, as `Step` with 5 attempts per 900 seconds; admitted iff fewer than 5 attempts remain after pruning; every kept attempt is inside the window; at most 5 per IP |
| Auth.LoginRateLimiter.Reset | dashboard/auth.py:130-132 | only the IP's entry changes, and it becomes empty |
| Auth.LockedOutAfterFiveAttempts | dashboard/auth.py:121-128 | five attempts inside the window reject the sixth |
| Auth.VerifyCsrfToken | dashboard/auth.py:148-158 | an exception from reading the session propagates; a falsy session means false; a truthy session that is not a dict raises `AttributeError` at `.get`; a session whose stored `csrf_token` is falsy means false |
| Auth.CsrfAcceptsOnlyStoredToken | dashboard/auth.py:148-158 | true iff a valid session object stores a non-empty `csrf_token` equal to the supplied ASCII token |
| Auth.CsrfWithoutClaimFails | dashboard/auth.py:154-156 | a session without a `csrf_token` claim never passes |
| Auth.LoginRequired | dashboard/auth.py:165-181 | a falsy session redirects to `/` without the handler; a truthy one runs the handler with that session; an exception from reading the session propagates |
| Auth.GetClientIp | dashboard/auth.py:184-196 | the stripped first comma-separated entry of a non-empty `X-Forwarded-For`; else the peer host; else `unknown` |
| Auth.ForwardedIpShape | dashboard/auth.py:188-189 | a forwarded IP holds no comma and has no surrounding white space |
| Routes.LoginPage | dashboard/routes.py:34-43 | redirects to `/dashboard` iff the session is truthy; a falsy session renders the login form with no error; an exception from reading the session, and only that, is a server error |
| Routes.LoginResponse | dashboard/routes.py:52-83 | when the limiter rejects, the too-many-attempts page is rendered and no session is set; a redirect needs admission, goes to `/dashboard` and sets a session; admitted credentials that are wrong in any way render the invalid-credentials page; an exception from the credential check is a server error |
| Routes.LoginHandler | dashboard/routes.py:46-83 | responds as `LoginResponse` with the stripped username and the unstripped password, on the limiter's decision for the client IP; only that IP's entry changes: it is emptied on success and keeps the limiter step's history otherwise |
| Routes.LoginSucceedsExactly | dashboard/routes.py:62-75 | the login redirects iff the limiter admits and both credentials match, and the session it sets carries `{"username": username}` |
| Routes.FailedLoginsLookAlike | dashboard/routes.py:76-83 | a wrong username, a wrong password, or both, get the same invalid-credentials page |
| Routes.LogoutHandler | dashboard/routes.py:86-91 | always redirects to `/` and clears the session |
| Routes.LoginSessionGuards | dashboard/routes.py:73 | a session issued at login passes `login_required` with `{"username": …}` within the timeout, and redirects to `/` after it |
| Routes.LoginSessionNeverPassesCsrf | dashboard/routes.py:73 | a session issued at login carries no `csrf_token`, so the CSRF check never succeeds for it |
| Routes.Span | dashboard/routes.py:178 | the run of one character class from a position: all in the class, and stopped by a character outside it |
| Routes.SpanExact | dashboard/routes.py:178 | a run with those bounds is exactly the one `Span` finds |
| Routes.FractionEnd | dashboard/routes.py:178 | the optional `.\d+` after the stamp ends inside the line |
| Routes.LevelColumn | dashboard/routes.py:178 | the `(\w+)\s+\| ` column, when it matches, ends inside the line after its start, and its level group is all word characters |
| Routes.MatchLine | dashboard/routes.py:178 | a match's first group is the line's first 19 characters, a `YYYY-MM-DD HH:MM:SS` stamp; its level group is a non-empty run of word characters; its remainder is non-empty with no line break |
| Routes.Truncate | dashboard/routes.py:191 | `s[:n]`: a prefix of `s`, exactly `n` characters long when `s` is longer, and the whole text when it is short enough |
| Routes.MessageOf | dashboard/routes.py:185-186 | the text after the first ` \| `, or the whole remainder if there is none |
| Routes.ParseLogLine | dashboard/routes.py:172-192 | a record comes back iff the stripped line is non-empty and matches; its stamp is well formed, and its message is the truncated `MessageOf` the remainder, at most 200 characters |
| Routes.ParseLogLineGroups | dashboard/routes.py:181-190 | a record's time is the stripped line's first 19 characters, and its level is the match's level group unchanged |
| Routes.FilterMapStep | dashboard/routes.py:170-192 | one more line adds its record at the end iff it parses, and nothing otherwise |
| Routes.Records | dashboard/routes.py:171-192 | no more records than lines, and each message at most 200 characters |
| Routes.Kept | dashboard/routes.py:170-192 | the positions of the lines the loop keeps: increasing, each the source of the matching record, and covering every kept line |
| Routes.LastLines | dashboard/routes.py:167 | a suffix of the lines, exactly `n` long when there are more than `n` lines, and every line otherwise |
| Routes.ApiLogs | dashboard/routes.py:156-200 | a missing or unreadable file gives no entries; otherwise the entries are the records of the last 20 lines in reverse order; at most 20, each message at most 200 characters |
| Routes.EntryFromRecentLine | dashboard/routes.py:167-192 | every entry is the parse of one of the file's last 20 lines |
| Routes.SuffixEntry | dashboard/routes.py:167-195 | entry `k` of the reversed records of the last `m` lines is the record of a line among those `m`, found by counting the kept lines from the end |
| Routes.SuffixCovered | dashboard/routes.py:167-192 | every one of the last `m` lines that is kept has its position listed |
| Routes.SuffixReversedKept | dashboard/routes.py:167-195 | for the last `m` elements: the source positions strictly decrease, each entry is the image of its position, and every kept element is listed |
| Routes.NewestFirst | dashboard/routes.py:167-195 | each entry is the parse of one of the last 20 lines; the entries' lines run strictly backwards through the file, and every one of the last 20 lines that parses has its entry |
| Routes.AllParsedNewestFirst | dashboard/routes.py:195 | when every recent line parses, entry `k` is the parse of the `k`-th line from the end |
| Routes.SplitAfterLocation | dashboard/routes.py:185-186 | a location without a bar is cut off, leaving exactly the message |
| Routes.LogLineRoundTrip | utils/logger.py:34 | a line that loguru writes in the configured format parses back to its stamp, level and message cut to 200 characters |
| Levels.Clamp | system/audio.py:62 | always in [0, 100] and the identity there, so clamping twice equals clamping once; 0 below the range and 100 above it |
| Levels.PercentReadBack | system/audio.py:85 | a `"…N%"` reply reads back as exactly `N`; the reader accepts only the number as `f"{N}"` prints it |
| Audio.LoudnessOf | system/audio.py:75-82 | the mute icon iff the level is 0; low iff non-zero and below 33; mid iff 33-65; high iff at least 66 |
| Audio.LoudnessMonotone | system/audio.py:75-82 | a louder level never gets a quieter icon |
| Audio.LoudnessEmoji | system/audio.py:75-82 | the four icons are distinct, one per bucket |
| Audio.VolumeSetText | system/audio.py:85 | the success reply reports the clamped level, not the requested one |
| Audio.AudioControl.constructor | system/audio.py:20-21 | no interface cached and no call made |
| Audio.AudioControl.GetVolumeInterface | system/audio.py:23-36 | none without pycaw; a cached interface is reused; otherwise a successful lookup is cached; a failed lookup caches nothing; the new cache is `CacheAfter` of the old state |
| Audio.AudioControl.SetVolume | system/audio.py:58-89 | with no interface: the not-available reply and no call; otherwise the clamped level is sent, and the reply is the clamped report or the failure text; the cache is left as `GetVolumeInterface` leaves it |
| Audio.AudioControl.SetMuted | system/audio.py:91-127 | mute and unmute: with no interface, the not-available reply and no call; otherwise the mute flag is sent, and the reply is the success or failure text; the cache is left as `GetVolumeInterface` leaves it |
| Audio.AudioControl.GetVolume | system/audio.py:38-56 | succeeds iff an interface exists and the reading returns, reporting that level; 0 on failure; the cache is left as `GetVolumeInterface` leaves it |
| Audio.AudioControl.IsMuted | system/audio.py:129-145 | succeeds iff an interface exists and the reading returns; muted only on success; the cache is left as `GetVolumeInterface` leaves it |
| Display.ShadeOf | system/display.py:88-95 | the thresholds <25, <50 and <75, otherwise full: exclusive and exhaustive |
| Display.ShadeMonotone | system/display.py:88-95 | a brighter level never gets a darker icon |
| Display.ShadeEmoji | system/display.py:88-95 | the four icons are distinct, one per bucket |
| Display.SetBrightness | system/display.py:73-102 | unavailable: failure before any clamp or set; otherwise the clamped level is applied, and success comes iff setting does not raise, with a reply that reports the clamped level |
| Display.GetBrightness | system/display.py:56-71 | succeeds iff the library is present and the reading returns, reporting that level; 0 on failure |
| Status.HoursMinutes | system/status.py:66-67 | minutes in [0, 60), and `hours*3600 + minutes*60` is the seconds rounded down to the minute |
| Status.HoursMinutesUnique | system/status.py:66-67 | those bounds determine the split |
| Status.TimeLeft | system/status.py:60-68 | "Unknown" iff the seconds are psutil's unknown sentinel (-1); "Charging" iff they are the unlimited one (-2) |
| Status.TimeLeftReadBack | system/status.py:66-68 | any other value is written as `"{h}h {m}m"` and reads back as exactly its hours and minutes |
| Status.GetBatteryInfo | system/status.py:47-74 | none iff psutil is missing or there is no battery; otherwise the percent, the plugged flag and the time-left text |
| Status.UptimeBreakdown | system/status.py:86-91 | hours below 24, minutes below 60, and days, hours and minutes add up to the seconds rounded down to the minute |
| Status.BreakdownUnique | system/status.py:87-91 | those bounds determine the breakdown |
| Status.GetUptime | system/status.py:76-100 | "Unknown" without psutil; otherwise the parts joined by spaces |
| Status.UptimeReadBack | system/status.py:93-100 | for a non-negative uptime, the readout reads back as the seconds rounded down to the minute, with the parts in the order days, hours, minutes |
| Status.UptimeOmitsZeroParts | system/status.py:93-98 | every part but the last has a positive count, so the days appear only if positive and the hours only if positive; the minutes always close the readout |
| Status.StatusLines | system/status.py:131-148 | there is a battery line iff battery information is present; it is the last line |
| Status.FullStatus | system/status.py:118-156 | succeeds iff the readings return; otherwise the failure text with the exception |
| Status.StatusReadBack | system/status.py:150 | when no reading holds a line break, the message splits back into exactly its lines |
| PyText.Strip | dashboard/routes.py:62 | `str.strip()`: the result neither starts nor ends with white space, and a text that does neither is unchanged |
| PyText.StripSlice | dashboard/routes.py:62 | the stripped text is a slice of the original with only white space before and after it |
| PyText.StripEmpty | dashboard/routes.py:172-174 | a line strips to nothing iff it is all white space |
| PyText.Find | dashboard/routes.py:185 | the first occurrence of the pattern, or none if it does not occur |
| PyText.BeforeFirst | dashboard/auth.py:189 | `s.split(c)[0]`: a prefix of `s` without `c`, followed in `s` by `c` unless it is all of `s` |
| PyText.SplitOnce | dashboard/routes.py:185 | `s.split(sep, 1)`: one part, `s` itself, iff `sep` does not occur; otherwise two parts around the first occurrence |
| PyText.RemoveAll | bot/handlers.py:250 | `s.replace(pat, "")` is no longer than `s` |
| PyText.RemoveAllAtFind | bot/handlers.py:250 | `replace` keeps a text with no occurrence; otherwise it keeps what precedes the first occurrence, drops that occurrence, and carries on after it |
| PyText.RemoveAllSplit | bot/handlers.py:250 | the same split at any position that holds the first occurrence |
| PyText.RemoveAllDeletes | bot/handlers.py:250 | removal only deletes characters: the result's characters, with multiplicity, are among the text's |
| PyText.RemoveAllOnePass | bot/handlers.py:250 | removal is one pass: for a pattern `c` followed by `rest`, the text `c`, pattern, `rest` leaves the pattern behind whenever the pattern's first `\|rest\|` characters differ from `rest` |
| PyText.Join | system/status.py:100 | `sep.join(parts)` starts with the first part, and its length is the parts' lengths plus one separator between each two |
| PyText.SplitOn | system/status.py:100 | `s.split(c)`, the reader of a join: at least one piece, and no piece holds `c` |
| PyText.IntToStringShape | system/status.py:68 | `f"{n}"`: non-empty, digits after an optional leading `-`, which is there iff `n` is negative |
| PyText.ParseInt | bot/handlers.py:188 | `int(s)` returns iff the stripped text is digits with single inner underscores, optionally after one sign; a negative value needs a `-` |
| PyText.ParseIntStripped | bot/handlers.py:188 | `int()` ignores surrounding white space |
| PyText.ParseIntOfDigits | bot/handlers.py:188 | a run of digits with single inner underscores reads as its decimal value |
| PyText.ParseIntOfSign | bot/handlers.py:188 | a sign before such a run gives its value, negated for `-` |
| PyText.ParseIntSigned | bot/handlers.py:188 | `+` changes nothing and `-` negates the value |
| PyText.ParseIntLeadingZero | bot/handlers.py:188 | a leading zero does not change the value |
| PyText.ParseIntUnderscore | bot/handlers.py:188 | an underscore between digit runs does not change the value |
| PyText.SplitJoin | system/status.py:100 | splitting on the separator undoes a join whose parts do not contain it |
| PyText.ParseIntRoundTrip | bot/handlers.py:188 | `int()` reads a formatted integer back as itself |

## Left out

- `system/power.py`, `set_webhook.py` and the loguru sink setup in `utils/logger.py` are not part of this model. The power actions are called, never modelled. The log sink's line format is used only to state `Routes.LogLineRoundTrip`.
- Audit log calls are modelled only where a decorator decides what is written (`Middleware.AuthorizedOnly` returns its entries). Elsewhere, `logger` calls are left out: they do not change what is returned.
- The signer (`itsdangerous.URLSafeSerializer`) is an idealised keyed, injective encoder. A forged token never verifies, and HMAC is not modelled.
- bcrypt `hash_password` and `verify_password` are foreign code and unused by the login flow.
- `Auth.CompareDigest`: the equality is modelled, the constant-time behaviour is not. CPython raises a `TypeError` for non-ASCII `str` arguments, and the model keeps that exception.
- Time is whole seconds; float timestamps and their rounding are not modelled. `datetime.fromtimestamp`'s own `OverflowError`/`OSError` for out-of-range numbers is not modelled.
- In the log regular expression, `\d` and `\w` are taken as ASCII. Python's Unicode digits and letters, and `int()` on non-ASCII digits, are not modelled.
- The `api_logs` comment says the message is found by splitting at the last ` | `. The code splits at the first one, with `split(' | ', 1)`. The model follows the code.
- A log file that cannot be read or decoded is `Unreadable`, the value the endpoint's `except` returns. The I/O itself is not modelled.
- Jinja templates, cookie attributes (`max_age`, `httponly`, `samesite`), aiohttp request objects, JSON encoding and the async/await transport are not modelled. A response is a `Routes.Response` value, and each handler is one sequential step.
- Sessions issued by `login_handler` carry no `csrf_token`, so `verify_csrf_token` can never succeed for them (`Routes.LoginSessionNeverPassesCsrf`). This is stated as the code behaves. No CSRF token is ever issued.
- Limiter entries for keys whose lists became empty are kept, as in the `defaultdict`. No eviction is modelled.
- The dashboard and stats pages, `take_screenshot` and `error_handler` are not modelled. They are formatting of OS readings, PNG encoding and Telegram replies.
- Floating point: CPU percentages, memory and disk GB rounding, and the status readings are formatted strings given as parameters. The pycaw volume scalar (`int(volume * 100)` and `level / 100.0`) is not modelled: the model passes whole percentages.
- `Status.GetUptime`: the uptime is the whole number of seconds `int(now - boot_time)`. The float subtraction and truncation happen before the model.
- `Status.UptimeReadBack` is stated for a non-negative uptime only. A clock that ran backwards gives negative days, which the readout hides.
- `Status.Battery.percent` is a whole number, as psutil reports it on Windows.
- `Auth.VerifySessionToken` and `Auth.SessionRoundTrip`: the session age is the difference of whole seconds since the epoch. The source subtracts naive local datetimes (`datetime.now() - datetime.fromtimestamp(...)`, dashboard/auth.py:40-41), so across a daylight-saving change its age is off by the change in UTC offset; that error is not modelled.
- `Handlers.ConfirmationCallback` takes the callback payload as a string. A callback whose `query.data` is `None` makes the source raise `AttributeError` at `data.startswith`, `data` being `query.data` (bot/handlers.py:242); that case is not modelled.
- `Auth.GetClientIp`: a request whose `transport` is `None` (dashboard/auth.py:192) makes the source raise `AttributeError`; the model treats it as having no peer host.
