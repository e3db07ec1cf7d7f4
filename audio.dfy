/** The speaker volume control: a lazily fetched endpoint interface, the
    volume setter with its clamp and level icon, and mute and unmute. */
module Audio {
  import opened Py
  import opened PyText
  import opened Levels

  /** The level icon `set_volume` puts in front of its reply. */
  datatype Loudness = Silent | Quiet | Medium | Loud

  function LoudnessOf(level: int): (l: Loudness)
    ensures l == Silent <==> level == 0
    ensures l == Quiet <==> level != 0 && level < 33
    ensures l == Medium <==> 33 <= level < 66
    ensures l == Loud <==> 66 <= level
  {
    if level == 0 then Silent
    else if level < 33 then Quiet
    else if level < 66 then Medium
    else Loud
  }

  function LoudnessRank(l: Loudness): nat
  {
    match l
    case Silent => 0
    case Quiet => 1
    case Medium => 2
    case Loud => 3
  }

  /** Over the clamped range a louder level never gets a quieter icon. */
  lemma LoudnessMonotone(a: int, b: int)
    requires 0 <= a <= b
    ensures LoudnessRank(LoudnessOf(a)) <= LoudnessRank(LoudnessOf(b))
  {
  }

  function LoudnessEmoji(l: Loudness): (e: string)
    ensures l == Silent <==> e == "\U{1F507}"
    ensures l == Quiet <==> e == "\U{1F508}"
    ensures l == Medium <==> e == "\U{1F509}"
    ensures l == Loud <==> e == "\U{1F50A}"
  {
    match l
    case Silent => "\U{1F507}"
    case Quiet => "\U{1F508}"
    case Medium => "\U{1F509}"
    case Loud => "\U{1F50A}"
  }

  const NotAvailableText := "\U{274C} Audio control not available"

  /** The lead of `set_volume`'s reply for a clamped level. */
  function VolumeSetLead(level: int): string
  {
    LoudnessEmoji(LoudnessOf(level)) + " Volume set to "
  }

  /** The reply to a successful `set_volume`. It reports the clamped level,
      whatever level was asked for. */
  function VolumeSetText(requested: int): (m: string)
    ensures ReadPercent(m, VolumeSetLead(Clamp(requested))) == Some(Clamp(requested))
  {
    PercentReadBack(VolumeSetLead(Clamp(requested)), Clamp(requested));
    PercentText(VolumeSetLead(Clamp(requested)), Clamp(requested))
  }

  /** The speakers' endpoint volume interface. */
  datatype Endpoint = Endpoint(device: string)

  /** A call made on the endpoint interface. */
  datatype EndpointCall = SetLevel(percent: int) | SetMute(on: bool)

  class AudioControl {
    /** Whether pycaw could be imported. */
    const pycawAvailable: bool
    /** `_volume_interface`: fetched on first use, then reused. */
    var volumeInterface: Option<Endpoint>
    /** The calls made on the interface, oldest first. */
    var sent: seq<EndpointCall>

    constructor (pycawAvailable: bool)
      ensures this.pycawAvailable == pycawAvailable
      ensures volumeInterface == None && sent == []
    {
      this.pycawAvailable := pycawAvailable;
      volumeInterface := None;
      sent := [];
    }

    /** Whether `_get_volume_interface` yields an interface, given what
        looking up the speakers would give. */
    predicate Reachable(speakers: Checked<Endpoint>)
      reads this
    {
      pycawAvailable && (volumeInterface.Some? || speakers.Returns?)
    }

    /** The cached interface once the next lookup has run: a lookup that
        does not raise fills an empty cache when pycaw is present; otherwise
        the cache stays as it is. */
    function CacheAfter(speakers: Checked<Endpoint>): Option<Endpoint>
      reads this
    {
      if pycawAvailable && volumeInterface.None? && speakers.Returns? then Some(speakers.value)
      else volumeInterface
    }

    /** `_get_volume_interface`. Without pycaw there is none; a cached one is
        returned as is; otherwise the speakers are looked up and, if that
        does not raise, cached. */
    method GetVolumeInterface(speakers: Checked<Endpoint>) returns (iface: Option<Endpoint>)
      modifies this
      ensures iface.Some? <==> old(Reachable(speakers))
      ensures iface.Some? ==> volumeInterface == iface
      ensures old(volumeInterface).Some? && pycawAvailable ==> iface == old(volumeInterface)
      ensures old(volumeInterface).None? && iface.Some? ==> iface == Some(speakers.value)
      ensures iface.None? ==> volumeInterface == old(volumeInterface)
      ensures volumeInterface == old(CacheAfter(speakers))
      ensures sent == old(sent)
    {
      if !pycawAvailable {
        return None;
      }
      if volumeInterface.None? {
        match speakers
        case Raises(_) =>
          return None;
        case Returns(e) =>
          volumeInterface := Some(e);
      }
      iface := volumeInterface;
    }

    /** `set_volume`: clamps, fetches the interface, sets the level and
        reports it. `failure` is what setting the level raises, if anything. */
    method SetVolume(level: int, speakers: Checked<Endpoint>, failure: Option<string>)
      returns (ok: bool, message: string)
      modifies this
      ensures volumeInterface == old(CacheAfter(speakers))
      ensures !old(Reachable(speakers)) ==> !ok && message == NotAvailableText && sent == old(sent)
      ensures old(Reachable(speakers)) ==> sent == old(sent) + [SetLevel(Clamp(level))]
      ensures ok <==> old(Reachable(speakers)) && failure.None?
      ensures ok ==> message == VolumeSetText(level)
      ensures old(Reachable(speakers)) && failure.Some? ==> message == "\U{274C} Failed to set volume: " + failure.value
    {
      var clamped := Clamp(level);
      var iface := GetVolumeInterface(speakers);
      if iface.None? {
        return false, NotAvailableText;
      }
      sent := sent + [SetLevel(clamped)];
      if failure.Some? {
        return false, "\U{274C} Failed to set volume: " + failure.value;
      }
      ok, message := true, VolumeSetText(level);
    }

    /** `mute` and `unmute`: set the mute flag on the interface. */
    method SetMuted(on: bool, speakers: Checked<Endpoint>, failure: Option<string>)
      returns (ok: bool, message: string)
      modifies this
      ensures volumeInterface == old(CacheAfter(speakers))
      ensures !old(Reachable(speakers)) ==> !ok && message == NotAvailableText && sent == old(sent)
      ensures old(Reachable(speakers)) ==> sent == old(sent) + [SetMute(on)]
      ensures ok <==> old(Reachable(speakers)) && failure.None?
      ensures ok ==> message == (if on then "\U{1F507} Audio muted" else "\U{1F50A} Audio unmuted")
      ensures old(Reachable(speakers)) && failure.Some? ==>
        message == (if on then "\U{274C} Failed to mute: " else "\U{274C} Failed to unmute: ") + failure.value
    {
      var iface := GetVolumeInterface(speakers);
      if iface.None? {
        return false, NotAvailableText;
      }
      sent := sent + [SetMute(on)];
      if failure.Some? {
        message := (if on then "\U{274C} Failed to mute: " else "\U{274C} Failed to unmute: ") + failure.value;
        return false, message;
      }
      ok := true;
      message := if on then "\U{1F507} Audio muted" else "\U{1F50A} Audio unmuted";
    }

    /** `get_volume`, given the level the interface reports as a whole
        percentage, or what reading it raises. */
    method GetVolume(speakers: Checked<Endpoint>, reading: Checked<int>)
      returns (ok: bool, message: string, level: int)
      modifies this
      ensures volumeInterface == old(CacheAfter(speakers))
      ensures ok <==> old(Reachable(speakers)) && reading.Returns?
      ensures ok ==> level == reading.value && ReadPercent(message, "\U{1F50A} Current volume: ") == Some(level)
      ensures !ok ==> level == 0
      ensures !old(Reachable(speakers)) ==> message == NotAvailableText
      ensures sent == old(sent)
    {
      var iface := GetVolumeInterface(speakers);
      if iface.None? {
        return false, NotAvailableText, 0;
      }
      match reading
      case Raises(e) =>
        return false, "\U{274C} Failed to get volume: " + e, 0;
      case Returns(v) =>
        PercentReadBack("\U{1F50A} Current volume: ", v);
        return true, PercentText("\U{1F50A} Current volume: ", v), v;
    }

    /** `is_muted`: `(success, muted)`. */
    method IsMuted(speakers: Checked<Endpoint>, reading: Checked<bool>)
      returns (ok: bool, muted: bool)
      modifies this
      ensures volumeInterface == old(CacheAfter(speakers))
      ensures ok <==> old(Reachable(speakers)) && reading.Returns?
      ensures muted <==> ok && reading.value
      ensures sent == old(sent)
    {
      var iface := GetVolumeInterface(speakers);
      if iface.None? || reading.Raises? {
        return false, false;
      }
      return true, reading.value;
    }
  }
}
