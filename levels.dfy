/** The 0-100 level that the volume and brightness controls take, and the
    `"... N%"` replies that report it. */
module Levels {
  import opened Py
  import opened PyText

  /** `max(0, min(100, level))`: always in range, and the identity on the
      range, so clamping twice is clamping once. */
  function Clamp(level: int): (r: int)
    ensures 0 <= r <= 100
    ensures 0 <= level <= 100 ==> r == level
    ensures level < 0 ==> r == 0
    ensures level > 100 ==> r == 100
  {
    if level < 0 then 0 else if level > 100 then 100 else level
  }

  /** `f"{lead}{level}%"`. */
  function PercentText(lead: string, level: int): string
  {
    lead + IntToString(level) + "%"
  }

  /** The level a `"<lead><n>%"` reply reports, if it is one: the text
      between `lead` and '%' must be exactly how `n` is printed, so no
      padding, sign or leading zero is read. */
  function ReadPercent(message: string, lead: string): Option<int>
  {
    if StartsWith(message, lead) && |message| > |lead| && message[|message| - 1] == '%' then
      var number := message[|lead|..|message| - 1];
      match ParseInt(number)
      case Some(n) => if IntToString(n) == number then Some(n) else None
      case None => None
    else None
  }

  /** A reply reports, and can be read back as, exactly the level it was made from. */
  lemma PercentReadBack(lead: string, level: int)
    ensures ReadPercent(PercentText(lead, level), lead) == Some(level)
  {
    var m := PercentText(lead, level);
    assert m[|lead|..|m| - 1] == IntToString(level);
    ParseIntRoundTrip(level);
  }
}
