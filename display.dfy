/** The screen brightness control: the availability short-circuit, the
    clamp and the level icon of `set_brightness`, and `get_brightness`. */
module Display {
  import opened Py
  import opened PyText
  import opened Levels

  /** The level icon `set_brightness` puts in front of its reply. */
  datatype Shade = Dark | Half | Bright | Full

  function ShadeOf(level: int): (s: Shade)
    ensures s == Dark <==> level < 25
    ensures s == Half <==> 25 <= level < 50
    ensures s == Bright <==> 50 <= level < 75
    ensures s == Full <==> 75 <= level
  {
    if level < 25 then Dark
    else if level < 50 then Half
    else if level < 75 then Bright
    else Full
  }

  function ShadeRank(s: Shade): nat
  {
    match s
    case Dark => 0
    case Half => 1
    case Bright => 2
    case Full => 3
  }

  /** A brighter level never gets a darker icon. */
  lemma ShadeMonotone(a: int, b: int)
    requires a <= b
    ensures ShadeRank(ShadeOf(a)) <= ShadeRank(ShadeOf(b))
  {
  }

  function ShadeEmoji(s: Shade): (e: string)
    ensures s == Dark <==> e == "\U{1F311}"
    ensures s == Half <==> e == "\U{1F313}"
    ensures s == Bright <==> e == "\U{1F314}"
    ensures s == Full <==> e == "\U{2600}\U{FE0F}"
  {
    match s
    case Dark => "\U{1F311}"
    case Half => "\U{1F313}"
    case Bright => "\U{1F314}"
    case Full => "\U{2600}\U{FE0F}"
  }

  const NotAvailableText := "\U{274C} Brightness control not available"
  const SetFailedPrefix := "\U{274C} Failed to set brightness: "
  const CurrentLead := "\U{2600}\U{FE0F} Current brightness: "

  function BrightnessSetLead(level: int): string
  {
    ShadeEmoji(ShadeOf(level)) + " Brightness set to "
  }

  /** What `set_brightness` returns, and the level it hands to
      `sbc.set_brightness`, if it gets that far. */
  datatype Outcome = Outcome(ok: bool, message: string, applied: Option<int>)

  /** `set_brightness`. Without the brightness library it fails before
      clamping or setting anything; otherwise it sets the clamped level and
      reports it. `failure` is what setting the level raises, if anything. */
  function SetBrightness(available: bool, level: int, failure: Option<string>): (r: Outcome)
    ensures !available ==> r == Outcome(false, NotAvailableText, None)
    ensures available ==> r.applied == Some(Clamp(level))
    ensures r.ok <==> available && failure.None?
    ensures r.ok ==> ReadPercent(r.message, BrightnessSetLead(Clamp(level))) == Some(Clamp(level))
    ensures available && failure.Some? ==> r.message == SetFailedPrefix + failure.value
  {
    if !available then Outcome(false, NotAvailableText, None)
    else
      var clamped := Clamp(level);
      match failure
      case Some(e) => Outcome(false, SetFailedPrefix + e, Some(clamped))
      case None =>
        PercentReadBack(BrightnessSetLead(clamped), clamped);
        Outcome(true, PercentText(BrightnessSetLead(clamped), clamped), Some(clamped))
  }

  /** `get_brightness`, given the first monitor's level or what reading it
      raises: `(success, message, level)`. */
  function GetBrightness(available: bool, reading: Checked<int>): (r: (bool, string, int))
    ensures r.0 <==> available && reading.Returns?
    ensures r.0 ==> r.2 == reading.value && ReadPercent(r.1, CurrentLead) == Some(r.2)
    ensures !r.0 ==> r.2 == 0
    ensures !available ==> r.1 == NotAvailableText
  {
    if !available then (false, NotAvailableText, 0)
    else match reading
      case Raises(e) => (false, "\U{274C} Failed to get brightness: " + e, 0)
      case Returns(v) =>
        PercentReadBack(CurrentLead, v);
        (true, PercentText(CurrentLead, v), v)
  }
}
