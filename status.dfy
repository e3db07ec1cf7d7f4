/** The system status readout: battery time left, uptime, and the
    multi-line status message. The psutil readings are parameters. */
module Status {
  import opened Py
  import opened PyText

  /** psutil's sentinels for `secsleft`: `POWER_TIME_UNKNOWN` is -1 and
      `POWER_TIME_UNLIMITED` is -2. */
  const PowerTimeUnknown := -1
  const PowerTimeUnlimited := -2

  /** Euclidean division is determined by its bounds. */
  lemma DivUnique(a: int, d: int, q: int)
    requires d > 0
    requires q * d <= a < q * d + d
    ensures a / d == q && a % d == a - q * d
  {
    var q', r := a / d, a % d;
    assert a == q' * d + r && 0 <= r < d;
    if q' < q {
      MulMono(d, q' + 1, q);
      assert false;
    } else if q' > q {
      MulMono(d, q + 1, q');
      assert false;
    }
  }

  lemma {:induction false} MulMono(d: int, x: int, y: int)
    requires d >= 0 && x <= y
    ensures x * d <= y * d
    decreases y - x
  {
    if x < y {
      MulMono(d, x + 1, y);
    }
  }

  /** Whole hours and the minutes left over, as `s // 3600` and `(s % 3600) // 60`. */
  datatype Clock = Clock(hours: int, minutes: int)

  function HoursMinutes(secs: int): (c: Clock)
    ensures 0 <= c.minutes < 60
    ensures c.hours * 3600 + c.minutes * 60 <= secs < c.hours * 3600 + c.minutes * 60 + 60
  {
    Clock(secs / 3600, (secs % 3600) / 60)
  }

  /** Any such bounds pick out exactly the split `HoursMinutes` computes. */
  lemma HoursMinutesUnique(secs: int, c: Clock)
    requires 0 <= c.minutes < 60
    requires c.hours * 3600 + c.minutes * 60 <= secs < c.hours * 3600 + c.minutes * 60 + 60
    ensures c == HoursMinutes(secs)
  {
    DivUnique(secs, 3600, c.hours);
    DivUnique(secs % 3600, 60, c.minutes);
  }

  /** `f"{hours}h {minutes}m"`. */
  function ClockText(c: Clock): (r: string)
    ensures r != [] && r[|r| - 1] == 'm'
  {
    IntToString(c.hours) + "h " + IntToString(c.minutes) + "m"
  }

  /** The `time_left` text of `get_battery_info`. The two sentinels, and only
      they, come out as "Unknown" and "Charging". */
  function TimeLeft(secsLeft: int): (r: string)
    ensures r == "Unknown" <==> secsLeft == PowerTimeUnknown
    ensures r == "Charging" <==> secsLeft == PowerTimeUnlimited
  {
    if secsLeft == PowerTimeUnknown then "Unknown"
    else if secsLeft == PowerTimeUnlimited then "Charging"
    else ClockText(HoursMinutes(secsLeft))
  }

  /** Reads back one `"<n><unit>"` word of a readout. */
  function ReadWord(w: string): Option<(int, char)>
  {
    if w == [] then None
    else match ParseInt(w[..|w| - 1])
      case Some(n) => Some((n, w[|w| - 1]))
      case None => None
  }

  lemma ReadWordOf(n: int, unit: char)
    ensures ReadWord(IntToString(n) + [unit]) == Some((n, unit))
  {
    var w := IntToString(n) + [unit];
    assert w[..|w| - 1] == IntToString(n);
    ParseIntRoundTrip(n);
  }

  lemma NoSpaceIn(n: int, unit: char)
    requires unit != ' '
    ensures ' ' !in IntToString(n) + [unit]
  {
    if n >= 0 {
      assert IntToString(n) == NatToString(n);
    } else {
      assert IntToString(n) == "-" + NatToString(-n);
    }
  }

  /** Reads back a `"<h>h <m>m"` text. */
  function ReadClock(t: string): Option<Clock>
  {
    var words := SplitOn(t, ' ');
    if |words| != 2 then None
    else match (ReadWord(words[0]), ReadWord(words[1]))
      case (Some((h, 'h')), Some((m, 'm'))) => Some(Clock(h, m))
      case _ => None
  }

  /** A time left that is not a sentinel reads back as its hours and minutes,
      so the text pins the seconds down to the minute. */
  lemma {:induction false} TimeLeftReadBack(secsLeft: int)
    requires secsLeft != PowerTimeUnknown && secsLeft != PowerTimeUnlimited
    ensures ReadClock(TimeLeft(secsLeft)) == Some(HoursMinutes(secsLeft))
  {
    var c := HoursMinutes(secsLeft);
    var parts := [IntToString(c.hours) + "h", IntToString(c.minutes) + "m"];
    NoSpaceIn(c.hours, 'h');
    NoSpaceIn(c.minutes, 'm');
    assert Join(parts, " ") == TimeLeft(secsLeft);
    SplitJoin(parts, ' ');
    ReadWordOf(c.hours, 'h');
    ReadWordOf(c.minutes, 'm');
  }

  /** `psutil.sensors_battery()`. */
  datatype Battery = Battery(percent: int, powerPlugged: bool, secsLeft: int)

  /** The dictionary `get_battery_info` returns. */
  datatype BatteryInfo = BatteryInfo(percent: int, plugged: bool, timeLeft: string)

  /** `get_battery_info`: nothing without psutil or without a battery. */
  function GetBatteryInfo(available: bool, sensor: Option<Battery>): (r: Option<BatteryInfo>)
    ensures r.Some? <==> available && sensor.Some?
    ensures r.Some? ==> && r.value.percent == sensor.value.percent
                        && r.value.plugged == sensor.value.powerPlugged
                        && r.value.timeLeft == TimeLeft(sensor.value.secsLeft)
  {
    if !available then None
    else match sensor
      case None => None
      case Some(b) => Some(BatteryInfo(b.percent, b.powerPlugged, TimeLeft(b.secsLeft)))
  }

  /** Whole days and the hours and minutes of the last day, as `timedelta`
      normalises a number of seconds. */
  datatype Breakdown = Breakdown(days: int, hours: int, minutes: int)

  function Seconds(b: Breakdown): int
  {
    b.days * 86400 + b.hours * 3600 + b.minutes * 60
  }

  function UptimeBreakdown(elapsed: int): (b: Breakdown)
    ensures 0 <= b.hours < 24 && 0 <= b.minutes < 60
    ensures Seconds(b) <= elapsed < Seconds(b) + 60
  {
    var c := HoursMinutes(elapsed % 86400);
    Breakdown(elapsed / 86400, c.hours, c.minutes)
  }

  /** Any such bounds pick out exactly the breakdown `UptimeBreakdown` computes. */
  lemma BreakdownUnique(elapsed: int, b: Breakdown)
    requires 0 <= b.hours < 24 && 0 <= b.minutes < 60
    requires Seconds(b) <= elapsed < Seconds(b) + 60
    ensures b == UptimeBreakdown(elapsed)
  {
    DivUnique(elapsed, 86400, b.days);
    HoursMinutesUnique(elapsed % 86400, Clock(b.hours, b.minutes));
  }

  /** One `f"{n}{unit}"` part of a readout. */
  function Word(n: int, unit: char): string
  {
    IntToString(n) + [unit]
  }

  /** A readout part as a count and its unit letter. */
  type Part = (int, char)

  function Words(parts: seq<Part>): (r: seq<string>)
    ensures |r| == |parts|
  {
    if parts == [] then [] else [Word(parts[0].0, parts[0].1)] + Words(parts[1..])
  }

  /** What `get_uptime` puts in `parts`: the days if there are any, the
      hours if there are any, and always the minutes. */
  function UptimeParts(b: Breakdown): seq<Part>
  {
    (if b.days > 0 then [(b.days, 'd')] else [])
    + (if b.hours > 0 then [(b.hours, 'h')] else [])
    + [(b.minutes, 'm')]
  }

  function UptimeText(elapsed: int): string
  {
    Join(Words(UptimeParts(UptimeBreakdown(elapsed))), " ")
  }

  /** `get_uptime`, given whether psutil is present and the whole seconds
      since boot. */
  method GetUptime(available: bool, elapsed: int) returns (text: string)
    ensures !available ==> text == "Unknown"
    ensures available ==> text == UptimeText(elapsed)
  {
    if !available {
      return "Unknown";
    }
    var b := UptimeBreakdown(elapsed);
    var parts: seq<string> := [];
    if b.days > 0 {
      parts := parts + [Word(b.days, 'd')];
    }
    if b.hours > 0 {
      parts := parts + [Word(b.hours, 'h')];
    }
    parts := parts + [Word(b.minutes, 'm')];
    WordsAppend(b);
    assert parts == Words(UptimeParts(b));
    text := Join(parts, " ");
  }

  lemma WordsAppend(b: Breakdown)
    ensures Words(UptimeParts(b)) ==
      (if b.days > 0 then [Word(b.days, 'd')] else [])
      + (if b.hours > 0 then [Word(b.hours, 'h')] else [])
      + [Word(b.minutes, 'm')]
  {
    var m: seq<Part> := [(b.minutes, 'm')];
    assert Words(m) == [Word(b.minutes, 'm')];
    var hm: seq<Part> := [(b.hours, 'h')] + m;
    assert hm[1..] == m;
    var dm: seq<Part> := [(b.days, 'd')] + m;
    assert dm[1..] == m;
    var dhm: seq<Part> := [(b.days, 'd')] + hm;
    assert dhm[1..] == hm;
  }

  /** Reads every word of a readout, failing if one does not read. */
  function ReadWords(words: seq<string>): Option<seq<Part>>
  {
    if words == [] then Some([])
    else match (ReadWord(words[0]), ReadWords(words[1..]))
      case (Some(p), Some(ps)) => Some([p] + ps)
      case _ => None
  }

  lemma {:induction false} WordsReadBack(parts: seq<Part>)
    ensures ReadWords(Words(parts)) == Some(parts)
  {
    if parts != [] {
      var w := Words(parts);
      ReadWordOf(parts[0].0, parts[0].1);
      assert w[1..] == Words(parts[1..]);
      WordsReadBack(parts[1..]);
      assert parts == [parts[0]] + parts[1..];
    }
  }

  lemma {:induction false} WordsWithoutSpace(parts: seq<Part>)
    requires forall k :: 0 <= k < |parts| ==> parts[k].1 != ' '
    ensures forall k :: 0 <= k < |parts| ==> ' ' !in Words(parts)[k]
  {
    if parts != [] {
      NoSpaceIn(parts[0].0, parts[0].1);
      WordsWithoutSpace(parts[1..]);
      assert forall k :: 1 <= k < |parts| ==> Words(parts)[k] == Words(parts[1..])[k - 1];
    }
  }

  function UnitRank(unit: char): int
  {
    if unit == 'd' then 0 else if unit == 'h' then 1 else if unit == 'm' then 2 else 3
  }

  function UnitSeconds(unit: char): int
  {
    if unit == 'd' then 86400 else if unit == 'h' then 3600 else 60
  }

  /** Seconds spelled by readout parts whose units come in the order d, h, m,
      each at most once, the minutes closing the list. */
  function Spelled(parts: seq<Part>, rank: int): Option<int>
    decreases |parts|
  {
    if parts == [] then None
    else
      var (n, unit) := parts[0];
      if UnitRank(unit) < rank || UnitRank(unit) > 2 then None
      else if |parts| == 1 then (if unit == 'm' then Some(n * 60) else None)
      else match Spelled(parts[1..], UnitRank(unit) + 1)
        case None => None
        case Some(t) => Some(n * UnitSeconds(unit) + t)
  }

  /** The seconds an uptime readout spells, if it is one. */
  function ReadUptime(text: string): Option<int>
  {
    match ReadWords(SplitOn(text, ' '))
    case Some(parts) => Spelled(parts, 0)
    case None => None
  }

  lemma UptimeWords(elapsed: int)
    ensures ReadWords(SplitOn(UptimeText(elapsed), ' ')) == Some(UptimeParts(UptimeBreakdown(elapsed)))
  {
    var parts := UptimeParts(UptimeBreakdown(elapsed));
    WordsWithoutSpace(parts);
    SplitJoin(Words(parts), ' ');
    WordsReadBack(parts);
  }

  lemma SpelledParts(b: Breakdown)
    requires b.days >= 0 && b.hours >= 0
    ensures Spelled(UptimeParts(b), 0) == Some(Seconds(b))
  {
    var m: seq<Part> := [(b.minutes, 'm')];
    assert Spelled(m, 2) == Some(b.minutes * 60);
    var hm: seq<Part> := [(b.hours, 'h')] + m;
    assert hm[1..] == m;
    assert Spelled(hm, 1) == Some(b.hours * 3600 + b.minutes * 60);
    var dm: seq<Part> := [(b.days, 'd')] + m;
    assert dm[1..] == m;
    var dhm: seq<Part> := [(b.days, 'd')] + hm;
    assert dhm[1..] == hm;
  }

  /** The uptime readout reads back as the seconds since boot, rounded down to
      the minute, with its parts in the order days, hours, minutes. */
  lemma {:induction false} UptimeReadBack(elapsed: int)
    requires elapsed >= 0
    ensures ReadUptime(UptimeText(elapsed)) == Some(elapsed - elapsed % 60)
  {
    var b := UptimeBreakdown(elapsed);
    UptimeWords(elapsed);
    SpelledParts(b);
    MinuteFloor(elapsed, b);
  }

  lemma MinuteFloor(elapsed: int, b: Breakdown)
    requires Seconds(b) <= elapsed < Seconds(b) + 60
    ensures elapsed - elapsed % 60 == Seconds(b)
  {
    DivUnique(elapsed, 60, b.days * 1440 + b.hours * 60 + b.minutes);
  }

  /** Every part of the readout but the last has a positive count, so zero
      days and zero hours are left out; the last part is the minutes. */
  lemma {:induction false} UptimeOmitsZeroParts(elapsed: int)
    ensures var parts := ReadWords(SplitOn(UptimeText(elapsed), ' '));
      && parts.Some?
      && parts.value[|parts.value| - 1] == (UptimeBreakdown(elapsed).minutes, 'm')
      && forall k :: 0 <= k < |parts.value| - 1 ==> parts.value[k].0 > 0
  {
    UptimeWords(elapsed);
  }

  /** psutil's memory or disk usage, already formatted (floats are not modelled). */
  datatype Usage = Usage(usedGb: string, totalGb: string, percent: string)

  /** What `get_full_status` gathers. The CPU percent is its formatted text. */
  datatype Readings = Readings(
    cpu: string,
    memory: Usage,
    disk: Usage,
    battery: Option<BatteryInfo>,
    uptime: string)

  const PluggedEmoji := "\U{1F50C}"
  const BatteryEmoji := "\U{1F50B}"
  const BatteryCaption := " **Battery:** "

  /** A line of the readout that reports the battery. */
  predicate IsBatteryLine(line: string)
  {
    StartsWith(line, PluggedEmoji + BatteryCaption) || StartsWith(line, BatteryEmoji + BatteryCaption)
  }

  function BatteryLine(b: BatteryInfo): string
  {
    (if b.plugged then PluggedEmoji else BatteryEmoji) + BatteryCaption + IntToString(b.percent) + "%"
    + (if !b.plugged then " (" + b.timeLeft + " left)" else " (Charging)")
  }

  function UsageText(u: Usage): string
  {
    u.usedGb + "GB / " + u.totalGb + "GB (" + u.percent + "%)"
  }

  function StatusHeader(r: Readings): seq<string>
  {
    [ "\U{1F4CA} **System Status**",
      "",
      "\U{1F5A5}\U{FE0F} **CPU:** " + r.cpu + "%",
      "\U{1F4BE} **RAM:** " + UsageText(r.memory),
      "\U{1F4BF} **Disk:** " + UsageText(r.disk),
      "\U{23F1}\U{FE0F} **Uptime:** " + r.uptime ]
  }

  /** The `lines` of `get_full_status`: a battery line is present iff battery
      information is. */
  function StatusLines(r: Readings): (lines: seq<string>)
    ensures (exists k :: 0 <= k < |lines| && IsBatteryLine(lines[k])) <==> r.battery.Some?
    ensures r.battery.Some? ==> lines[|lines| - 1] == BatteryLine(r.battery.value)
  {
    var header := StatusHeader(r);
    assert forall k :: 0 <= k < |header| ==> !IsBatteryLine(header[k]) by {
      forall k | 0 <= k < |header|
        ensures !IsBatteryLine(header[k])
      {
        if k != 1 {
          assert header[k][0] != PluggedEmoji[0] && header[k][0] != BatteryEmoji[0];
        }
      }
    }
    match r.battery
    case None => header
    case Some(b) =>
      var lines := header + [BatteryLine(b)];
      assert IsBatteryLine(lines[|lines| - 1]);
      lines
  }

  const StatusFailedPrefix := "\U{274C} Failed to get system status: "

  /** `get_full_status`: the lines joined by newlines, or the failure text
      when a reading raises. */
  function FullStatus(readings: Checked<Readings>): (r: (bool, string))
    ensures r.0 <==> readings.Returns?
    ensures readings.Raises? ==> r.1 == StatusFailedPrefix + readings.error
  {
    match readings
    case Returns(v) => (true, Join(StatusLines(v), "\n"))
    case Raises(e) => (false, StatusFailedPrefix + e)
  }

  /** No reading holds a line break. */
  predicate SingleLineReadings(r: Readings)
  {
    && '\n' !in r.cpu + UsageText(r.memory) + UsageText(r.disk) + r.uptime
    && (r.battery.Some? ==> '\n' !in r.battery.value.timeLeft)
  }

  /** The status message splits back into its lines. */
  lemma StatusReadBack(r: Readings)
    requires SingleLineReadings(r)
    ensures SplitOn(FullStatus(Returns(r)).1, '\n') == StatusLines(r)
  {
    var header := StatusHeader(r);
    HeaderSingleLine(r);
    var lines := if r.battery.Some? then header + [BatteryLine(r.battery.value)] else header;
    if r.battery.Some? {
      BatteryLineSingle(r.battery.value);
    }
    assert lines == StatusLines(r);
    assert forall k :: 0 <= k < |lines| ==> '\n' !in lines[k];
    SplitJoin(lines, '\n');
  }

  lemma HeaderSingleLine(r: Readings)
    requires SingleLineReadings(r)
    ensures forall k :: 0 <= k < |StatusHeader(r)| ==> '\n' !in StatusHeader(r)[k]
  {
  }

  lemma BatteryLineSingle(b: BatteryInfo)
    requires '\n' !in b.timeLeft
    ensures '\n' !in BatteryLine(b)
  {
    NoBreakIn(b.percent);
  }

  lemma NoBreakIn(n: int)
    ensures '\n' !in IntToString(n)
  {
    if n < 0 {
      assert IntToString(n) == "-" + NatToString(-n);
    }
  }
}
