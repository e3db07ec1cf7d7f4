/** The decisions the bot's command handlers make before they call into the
    power, display and audio layers: whether a command asks for
    confirmation, the confirm/cancel callback protocol, and how the
    brightness and volume commands read their argument. */
module Handlers {
  import opened Py
  import opened PyText
  import Config

  /** The power actions a confirmation can trigger. */
  datatype PowerAction = Lock | Sleep | Shutdown | Restart

  function ActionName(a: PowerAction): string
  {
    match a
    case Lock => "lock"
    case Sleep => "sleep"
    case Shutdown => "shutdown"
    case Restart => "restart"
  }

  /** The wording of the confirmation question for each action. */
  function ActionDescription(a: PowerAction): string
  {
    match a
    case Lock => "lock the screen"
    case Sleep => "put the computer to sleep"
    case Shutdown => "shutdown the computer"
    case Restart => "restart the computer"
  }

  /** `CONFIRM_COMMANDS.get(command, False)` */
  function NeedsConfirmation(command: string): (r: bool)
    ensures r <==> command in Config.ConfirmCommands && Config.ConfirmCommands[command]
  {
    if command in Config.ConfirmCommands then Config.ConfirmCommands[command] else false
  }

  /** With the shipped configuration exactly shutdown, restart and sleep ask
      for confirmation; an unknown command never does. */
  lemma ConfirmedCommands(command: string)
    ensures NeedsConfirmation(command) <==> command in {"shutdown", "restart", "sleep"}
  {
  }

  const CancelPayload := "cancel"
  const ConfirmPrefix := "confirm_"

  /** An inline keyboard button and the payload it sends back. */
  datatype Button = Button(caption: string, callbackData: string)
  datatype Prompt = Prompt(text: string, buttons: seq<Button>)

  /** `send_confirmation`: a question and two buttons, affirm then cancel. */
  function ConfirmationPrompt(command: string, description: string): (p: Prompt)
    ensures |p.buttons| == 2
    ensures p.buttons[0].callbackData == ConfirmPrefix + command
    ensures p.buttons[1].callbackData == CancelPayload
  {
    Prompt(
      "\U{26A0}\U{FE0F} **Confirmation Required**\n\nAre you sure you want to " + description + "?",
      [Button("\U{2705} Yes, do it", ConfirmPrefix + command), Button("\U{274C} Cancel", CancelPayload)])
  }

  /** What a power command handler does once the gate has admitted it. */
  datatype PowerStep = AskConfirmation(prompt: Prompt) | Perform(action: PowerAction)

  /** `lock_command`, `sleep_command`, `shutdown_command`, `restart_command`:
      a command that needs confirmation only sends the prompt. */
  function PowerCommand(a: PowerAction): (s: PowerStep)
    ensures s.Perform? <==> !NeedsConfirmation(ActionName(a))
    ensures s.Perform? ==> s.action == a
    ensures s.AskConfirmation? ==> s.prompt == ConfirmationPrompt(ActionName(a), ActionDescription(a))
  {
    if NeedsConfirmation(ActionName(a)) then AskConfirmation(ConfirmationPrompt(ActionName(a), ActionDescription(a)))
    else Perform(a)
  }

  /** Under the shipped configuration only the lock command runs at once. */
  lemma OnlyLockRunsUnconfirmed(a: PowerAction)
    ensures PowerCommand(a).Perform? <==> a == Lock
  {
  }

  /** What `confirmation_callback` does with a button payload. */
  datatype CallbackEffect =
    | Cancelled          // edits the prompt to "Operation cancelled."
    | Execute(action: PowerAction)
    | UnknownAction      // edits the prompt to "Unknown action"
    | NoEffect           // neither cancel nor a confirm_ payload

  const CancelledText := "\U{274C} Operation cancelled."
  const UnknownActionText := "\U{274C} Unknown action"

  /** The action named by what is left once every "confirm_" is removed. */
  function ActionNamed(name: string): Option<PowerAction>
  {
    if name == "lock" then Some(Lock)
    else if name == "sleep" then Some(Sleep)
    else if name == "shutdown" then Some(Shutdown)
    else if name == "restart" then Some(Restart)
    else None
  }

  function ConfirmationCallback(data: string): (e: CallbackEffect)
    ensures e == Cancelled <==> data == CancelPayload
    ensures e == NoEffect <==> data != CancelPayload && !StartsWith(data, ConfirmPrefix)
    ensures e.Execute? ==> StartsWith(data, ConfirmPrefix) && ActionName(e.action) == RemoveAll(data, ConfirmPrefix)
    ensures StartsWith(data, ConfirmPrefix) && ActionNamed(RemoveAll(data, ConfirmPrefix)).Some? ==>
      e == Execute(ActionNamed(RemoveAll(data, ConfirmPrefix)).value)
    ensures e == UnknownAction <==> StartsWith(data, ConfirmPrefix) && ActionNamed(RemoveAll(data, ConfirmPrefix)).None?
  {
    if data == CancelPayload then Cancelled
    else if StartsWith(data, ConfirmPrefix) then
      match ActionNamed(RemoveAll(data, ConfirmPrefix))
      case Some(a) => Execute(a)
      case None => UnknownAction
    else NoEffect
  }

  /** Protocol round trip: pressing the affirm button of a power command's
      prompt executes exactly that action, and the cancel button executes
      nothing. */
  lemma {:induction false} PromptRoundTrip(a: PowerAction)
    ensures ConfirmationCallback(ConfirmationPrompt(ActionName(a), ActionDescription(a)).buttons[0].callbackData) == Execute(a)
    ensures ConfirmationCallback(ConfirmationPrompt(ActionName(a), ActionDescription(a)).buttons[1].callbackData) == Cancelled
  {
    var data := ConfirmPrefix + ActionName(a);
    assert Repeated(ConfirmPrefix, 1) == ConfirmPrefix + [];
    RepeatedPrefixExecutes(a, 1);
    assert ConfirmationCallback(data) == Execute(a);
  }

  /** `s` written `k` times in a row. */
  function Repeated(s: string, k: nat): string
  {
    if k == 0 then [] else s + Repeated(s, k - 1)
  }

  /** `replace` removes every leading copy of the prefix. */
  lemma {:induction false} RemoveLeadingCopies(k: nat, rest: string)
    ensures RemoveAll(Repeated(ConfirmPrefix, k) + rest, ConfirmPrefix) == RemoveAll(rest, ConfirmPrefix)
    decreases k
  {
    if k == 0 {
      assert Repeated(ConfirmPrefix, k) + rest == rest;
    } else {
      var tail := Repeated(ConfirmPrefix, k - 1) + rest;
      var data := ConfirmPrefix + tail;
      assert Repeated(ConfirmPrefix, k) + rest == data;
      assert data[..|ConfirmPrefix|] == ConfirmPrefix && data[|ConfirmPrefix|..] == tail;
      assert RemoveAll(data, ConfirmPrefix) == RemoveAll(tail, ConfirmPrefix);
      RemoveLeadingCopies(k - 1, rest);
    }
  }

  /** Because every occurrence is removed, a payload with the prefix
      repeated any number of times still executes the action it names:
      `confirm_confirm_lock` locks. */
  lemma RepeatedPrefixExecutes(a: PowerAction, k: nat)
    requires k >= 1
    ensures ConfirmationCallback(Repeated(ConfirmPrefix, k) + ActionName(a)) == Execute(a)
  {
    var name := ActionName(a);
    var data := Repeated(ConfirmPrefix, k) + name;
    assert data == ConfirmPrefix + (Repeated(ConfirmPrefix, k - 1) + name);
    RemoveLeadingCopies(k, name);
    NameSurvivesRemoval(a);
    assert data[..|ConfirmPrefix|] == ConfirmPrefix;
    assert data != CancelPayload by {
      assert |data| >= |ConfirmPrefix| > |CancelPayload|;
    }
  }

  /** No action name holds the prefix, so `replace` leaves it alone. */
  lemma NameSurvivesRemoval(a: PowerAction)
    ensures RemoveAll(ActionName(a), ConfirmPrefix) == ActionName(a)
  {
    var name := ActionName(a);
    forall j ensures !OccursAt(name, ConfirmPrefix, j) {
      if a == Shutdown && j == 0 {
        assert name[0] != ConfirmPrefix[0];
      }
    }
    RemoveAllAbsent(name, ConfirmPrefix);
  }

  /** What the brightness and volume handlers do with their arguments. */
  datatype LevelStep =
    | ReadLevel          // no argument: report the current level
    | SetLevel(level: int)
    | NotANumber         // replies with NotANumberText; nothing is set

  const NotANumberText := "\U{274C} Please provide a number between 0-100"

  /** `brightness_command` and `volume_command`: no arguments reads the
      level; otherwise `int(args[0])` is set, or refused when it raises. */
  function LevelCommand(args: seq<string>): (s: LevelStep)
    ensures args == [] <==> s == ReadLevel
    ensures args != [] ==> (s.SetLevel? <==> ParseInt(args[0]).Some?)
    ensures s.SetLevel? ==> s.level == ParseInt(args[0]).value
  {
    if args == [] then ReadLevel
    else match ParseInt(args[0])
      case Some(n) => SetLevel(n)
      case None => NotANumber
  }

  /** Any integer written in decimal as the first argument is what gets set. */
  lemma LevelArgumentRoundTrip(n: int, more: seq<string>)
    ensures LevelCommand([IntToString(n)] + more) == SetLevel(n)
  {
    ParseIntRoundTrip(n);
  }
}
